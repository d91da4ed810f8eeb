/**
 The client and its session together: what the remote has been sent at any moment, against the shadow line
 that the client keeps.
 */
module EndToEnd {
  import opened Prelude
  import opened AppRuns
  import opened LockstepRuns
  import AppSpec
  import LineEditor
  import L = Lockstep
  import S = Session
  import Safety = SessionSafety
  import Transport

  /** The size of the remote terminal in a window that also holds one status row. */
  function VtDims(cols: nat, rows: nat): (nat, nat) {
    (if cols > 1 then cols else 1, if rows > 2 then rows - 1 else 1)
  }

  /** The window is that size, with the status row below it; no side is ever empty. */
  lemma VtDimsFit(cols: nat, rows: nat)
    ensures var (c, r) := VtDims(cols, rows);
            && (cols >= 1 ==> c == cols) && (cols == 0 ==> c == 1)
            && (rows >= 2 ==> r + 1 == rows) && (rows < 2 ==> r == 1)
  {
  }

  /** What an event of the client submits to the session. */
  function Submitted(w: World, input: Input): seq<S.SessionInput>
    requires w.app.cursor <= |w.app.line|
  {
    match input
    case KeyPress(key, _, _) =>
      if AppSpec.Captured(key) == Some(AppSpec.Quit) then [S.Disconnect]
      else if Sent(w, input) == [] then []
      else [S.Bytes(Sent(w, input))]
    case Forwarded(bytes) => [S.Bytes(bytes)]
    case ResizeAsked(cols, rows) => [S.Resize(VtDims(cols, rows).0, VtDims(cols, rows).1)]
    case _ => []
  }

  /** Every event submits what its action, its bytes or its size ask for, and nothing else. */
  lemma SubmittedAre(w: World, input: Input)
    requires Invariant(w)
    ensures Submitted(w, input)
         == match input
            case KeyPress(key, answer, _) =>
              (match AppSpec.OnKey(w.app, key, answer).1
               case Send(bytes) => [S.Bytes(bytes)]
               case Quit => [S.Disconnect]
               case _ => [])
            case Forwarded(bytes) => [S.Bytes(bytes)]
            case ResizeAsked(cols, rows) => [S.Resize(VtDims(cols, rows).0, VtDims(cols, rows).1)]
            case _ => []
    ensures input.Forwarded? ==> Sent(w, input) == input.bytes
  {
  }

  function SubmittedBy(w: World, inputs: seq<Input>): seq<S.SessionInput>
    decreases inputs
  {
    if inputs == [] || w.app.cursor > |w.app.line| then []
    else Submitted(w, inputs[0]) + SubmittedBy(Apply(w, inputs[0]), inputs[1..])
  }

  /** Does the user ask to quit? */
  predicate IsQuit(input: Input) {
    input.KeyPress? && AppSpec.Captured(input.key) == Some(AppSpec.Quit)
  }

  /**
   The writes are what the first `k` events submitted, and an editor `ed` that reads them shows the line as
   it was after those events.
   */
  ghost predicate ShowsPast(w: World, inputs: seq<Input>, ed: LineEditor.Editor, k: nat, writes: seq<seq<Byte>>) {
    && k <= |inputs| && writes == Safety.Typed(SubmittedBy(w, inputs[..k]))
    && exists past :: Reaches(w, inputs[..k], past)
         && L.Shows(LineEditor.FeedAll(ed, Flatten(writes)), past.app.line, past.app.cursor)
  }

  lemma TypedOfSubmitted(w: World, input: Input, rest: seq<S.SessionInput>)
    requires w.app.cursor <= |w.app.line|
    requires !IsQuit(input)
    ensures var sent := Safety.Typed(Submitted(w, input));
            && |sent| <= 1 && Flatten(sent) == Sent(w, input)
            && Safety.Typed(Submitted(w, input) + rest) == sent + Safety.Typed(rest)
  {
    var a := Submitted(w, input);
    Safety.TypedConcat(a, rest);
    assert Safety.Typed([]) == [];
    if a != [] {
      assert a == [] + [a[0]];
      Safety.TypedSnoc([], a[0]);
      if a[0].Bytes? {
        assert Flatten([a[0].data]) == a[0].data + Flatten([a[0].data][1..]);
      }
    }
  }

  lemma NothingWritten(w: World, inputs: seq<Input>, ed: LineEditor.Editor)
    requires InStep(w, ed)
    ensures ShowsPast(w, inputs, ed, 0, [])
    ensures L.Shows(LineEditor.FeedAll(ed, Flatten([])), w.app.line, w.app.cursor)
  {
    L.FeedNothing(ed);
    assert inputs[..0] == [];
    assert Reaches(w, inputs[..0], w);
  }

  lemma FeedWrites(ed: LineEditor.Editor, sent: seq<seq<Byte>>, rest: seq<seq<Byte>>)
    requires |sent| <= 1
    ensures LineEditor.FeedAll(ed, Flatten(sent + rest))
         == LineEditor.FeedAll(LineEditor.FeedAll(ed, Flatten(sent)), Flatten(rest))
  {
    if sent == [] {
      assert sent + rest == rest;
    } else {
      assert (sent + rest)[1..] == rest && sent[1..] == [];
      assert Flatten(sent) == sent[0];
    }
    LineEditor.FeedAllConcat(ed, Flatten(sent), Flatten(rest));
  }

  /** What a run shows after its first event, a run from before that event shows one event later. */
  lemma OneEventEarlier(w: World, inputs: seq<Input>, ed: LineEditor.Editor, j: nat, rest: seq<seq<Byte>>)
    requires inputs != [] && !IsQuit(inputs[0]) && w.app.cursor <= |w.app.line| && IsPossible(w, inputs[0])
    requires ShowsPast(Apply(w, inputs[0]), inputs[1..], LineEditor.FeedAll(ed, Sent(w, inputs[0])), j, rest)
    ensures ShowsPast(w, inputs, ed, j + 1, Safety.Typed(Submitted(w, inputs[0])) + rest)
  {
    var w1 := Apply(w, inputs[0]);
    var sent := Safety.Typed(Submitted(w, inputs[0]));
    var ed1 := LineEditor.FeedAll(ed, Sent(w, inputs[0]));
    var past :| Reaches(w1, inputs[1..][..j], past)
      && L.Shows(LineEditor.FeedAll(ed1, Flatten(rest)), past.app.line, past.app.cursor);
    assert inputs[..j + 1][0] == inputs[0] && inputs[..j + 1][1..] == inputs[1..][..j];
    assert Reaches(w, inputs[..j + 1], past);
    TypedOfSubmitted(w, inputs[0], SubmittedBy(w1, inputs[1..][..j]));
    FeedWrites(ed, sent, rest);
  }

  /** A beginning of `sent + more` that is not cut off before `sent` is over. */
  lemma PastSent(writes: seq<seq<Byte>>, sent: seq<seq<Byte>>, more: seq<seq<Byte>>)
    requires writes <= sent + more && |sent| <= |writes|
    ensures writes == sent + writes[|sent|..] && writes[|sent|..] <= more
    ensures writes == sent + more ==> writes[|sent|..] == more
  {
    assert (sent + more)[|sent|..] == more;
    assert (sent + more)[..|sent|] == sent;
  }

  /** Nothing that is submitted after quitting counts as typed. */
  lemma QuitEndsTyping(w: World, input: Input, rest: seq<S.SessionInput>)
    requires w.app.cursor <= |w.app.line| && IsQuit(input)
    ensures Safety.Typed(Submitted(w, input) + rest) == [] && S.Disconnect in Submitted(w, input) + rest
  {
    assert (Submitted(w, input) + rest)[0] == S.Disconnect;
  }

  /** How the bytes typed in a run that does not begin with quitting divide at its first event. */
  lemma FirstEventTyped(w: World, inputs: seq<Input>, writes: seq<seq<Byte>>)
    requires inputs != [] && w.app.cursor <= |w.app.line| && !IsQuit(inputs[0])
    requires writes <= Safety.Typed(SubmittedBy(w, inputs))
    requires var sent := Safety.Typed(Submitted(w, inputs[0])); sent == [] || writes != []
    ensures var sent, later := Safety.Typed(Submitted(w, inputs[0])), SubmittedBy(Apply(w, inputs[0]), inputs[1..]);
            && |sent| <= 1 && |sent| <= |writes| && Flatten(sent) == Sent(w, inputs[0])
            && writes == sent + writes[|sent|..] && writes[|sent|..] <= Safety.Typed(later)
            && (writes == Safety.Typed(SubmittedBy(w, inputs)) ==> writes[|sent|..] == Safety.Typed(later))
            && (S.Disconnect !in SubmittedBy(w, inputs) ==> S.Disconnect !in later)
  {
    var later := SubmittedBy(Apply(w, inputs[0]), inputs[1..]);
    TypedOfSubmitted(w, inputs[0], later);
    PastSent(writes, Safety.Typed(Submitted(w, inputs[0])), Safety.Typed(later));
  }

  lemma AfterFirstEvent(w: World, inputs: seq<Input>, w': World, ed: LineEditor.Editor)
    requires InStep(w, ed) && Reaches(w, inputs, w') && AllKeepStep(w, inputs) && inputs != []
    ensures w.app.cursor <= |w.app.line| && IsPossible(w, inputs[0])
    ensures var w1 := Apply(w, inputs[0]);
            && InStep(w1, LineEditor.FeedAll(ed, Sent(w, inputs[0])))
            && Reaches(w1, inputs[1..], w') && AllKeepStep(w1, inputs[1..])
  {
    StepKeepsStep(w, ed, inputs[0]);
  }

  /** Whatever beginning of the submitted bytes has been written, it ends at some event of the run. */
  lemma {:induction false} WritesEndAtAnEvent(w: World, inputs: seq<Input>, w': World, ed: LineEditor.Editor,
                                              writes: seq<seq<Byte>>) returns (k: nat)
    requires InStep(w, ed) && Reaches(w, inputs, w') && AllKeepStep(w, inputs)
    requires writes <= Safety.Typed(SubmittedBy(w, inputs))
    ensures ShowsPast(w, inputs, ed, k, writes)
    ensures writes == Safety.Typed(SubmittedBy(w, inputs)) && S.Disconnect !in SubmittedBy(w, inputs) ==>
      L.Shows(LineEditor.FeedAll(ed, Flatten(writes)), w'.app.line, w'.app.cursor)
    decreases inputs
  {
    if inputs == [] {
      NothingWritten(w, inputs, ed);
      return 0;
    }
    AfterFirstEvent(w, inputs, w', ed);
    var input, w1 := inputs[0], Apply(w, inputs[0]);
    if IsQuit(input) {
      QuitEndsTyping(w, input, SubmittedBy(w1, inputs[1..]));
      NothingWritten(w, inputs, ed);
      return 0;
    }
    var sent := Safety.Typed(Submitted(w, input));
    if sent != [] && writes == [] {
      NothingWritten(w, inputs, ed);
      TypedOfSubmitted(w, input, SubmittedBy(w1, inputs[1..]));
      return 0;
    }
    FirstEventTyped(w, inputs, writes);
    var rest := writes[|sent|..];
    FeedWrites(ed, sent, rest);
    var j := WritesEndAtAnEvent(w1, inputs[1..], w', LineEditor.FeedAll(ed, Sent(w, input)), rest);
    OneEventEarlier(w, inputs, ed, j, rest);
    return j + 1;
  }

  /**
   At any moment, under any interleaving of the two processes and with any write failing, a line editor at
   the remote end has been sent what the events up to some point submitted and shows the line exactly as the
   shadow had it then; and once everything submitted has been taken by a driver that is back in its select!, as
   the shadow has it now.
   */
  lemma RemoteShowsShadow(w: World, inputs: seq<Input>, w': World, ed: LineEditor.Editor,
                          inbox: seq<Transport.ChannelMsg>, labels: seq<S.Label>, s: S.System)
    requires InStep(w, ed) && Reaches(w, inputs, w') && AllKeepStep(w, inputs)
    requires S.Reaches(S.Init(inbox), labels, s)
    requires Safety.Accepted(s) <= SubmittedBy(w, inputs)
    ensures exists k :: ShowsPast(w, inputs, ed, k, s.writes)
    ensures s.driver.Selecting? && s.taken == SubmittedBy(w, inputs) ==>
      L.Shows(LineEditor.FeedAll(ed, Flatten(s.writes)), w'.app.line, w'.app.cursor)
  {
    Safety.WritesAreTyped(inbox, labels, s);
    Safety.ReachedInvariant(inbox, labels, s);
    var all := SubmittedBy(w, inputs);
    var accepted := Safety.Accepted(s);
    Safety.TypedConcat(accepted, all[|accepted|..]);
    assert accepted + all[|accepted|..] == all;
    var k := WritesEndAtAnEvent(w, inputs, w', ed, s.writes);
  }

  // ---- bookkeeping of one more event ------------------------------------------------------------

  lemma {:induction false} OneMoreEvent(w: World, inputs: seq<Input>, w': World, input: Input)
    requires Reaches(w, inputs, w') && w'.app.cursor <= |w'.app.line| && IsPossible(w', input)
    ensures Reaches(w, inputs + [input], Apply(w', input))
    ensures SubmittedBy(w, inputs + [input]) == SubmittedBy(w, inputs) + Submitted(w', input)
    decreases inputs
  {
    if inputs == [] {
      assert inputs + [input] == [input] && [input][1..] == [];
      assert SubmittedBy(w, [input]) == Submitted(w, input) + SubmittedBy(Apply(w, input), []);
    } else {
      assert (inputs + [input])[1..] == inputs[1..] + [input];
      OneMoreEvent(Apply(w, inputs[0]), inputs[1..], w', input);
    }
  }
}
