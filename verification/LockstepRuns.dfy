/**
 Lockstep over runs: which events keep the shadow line and an editor at the remote end in step, and that all
 runs of such events do.
 */
module LockstepRuns {
  import opened Prelude
  import opened SessionEvents
  import opened AppSpec
  import opened AppRuns
  import H = History
  import Keys
  import L = Lockstep
  import LineEditor
  import MarkerStream
  import Mouse
  import Osc
  import Paste
  import Utf8

  ghost predicate AllRowsPrintable(rows: seq<H.Row>) {
    forall i :: 0 <= i < |rows| ==> LineEditor.AllPrintable(rows[i].command)
  }

  predicate HasPromptEnd(events: seq<Osc.OscEvent>) {
    Osc.PromptEnd in events
  }

  ghost predicate IsMouseReport(bytes: seq<Byte>) {
    exists e, sgrMouse :: bytes == Mouse.Report(e, sgrMouse)
  }

  /** Does the output hold the end of a prompt? */
  predicate EndsPrompt(a: AppState, bytes: seq<Byte>) {
    HasPromptEnd(a.pendingOsc + Osc.Run(Osc.PAYLOAD_CAP, a.scan, bytes).1)
  }

  /**
   The events that keep lockstep: keys on the lines on which they do, mouse reports, and output that ends no
   prompt while there is something on the line.
   */
  ghost predicate KeepsStep(w: World, input: Input)
    requires w.app.cursor <= |w.app.line|
  {
    match input
    case KeyPress(key, _, _) =>
      Captured(key).Some? || L.KeepsLine(key, w.app.line[..w.app.cursor], w.app.line[w.app.cursor..])
    case FromSession(event, _) =>
      event.Output? || event.Stderr? ==> w.app.line == [] || !EndsPrompt(w.app, event.bytes)
    case Forwarded(bytes) => bytes == [] || IsMouseReport(bytes)
    case RecordedElsewhere(row) => LineEditor.AllPrintable(row.command)
    case _ => true
  }

  /** Shadow and editor agree, and nothing unprintable can come out of the history. */
  ghost predicate InStep(w: World, ed: LineEditor.Editor) {
    && Invariant(w)
    && L.Shows(ed, w.app.line, w.app.cursor)
    && LineEditor.AllPrintable(w.app.line)
    && AllRowsPrintable(w.rows)
  }

  /** A new client and an empty editor are in step. */
  lemma StartIsInStep(w: World)
    requires IsStart(w) && AllRowsPrintable(w.rows)
    ensures InStep(w, LineEditor.Editor([], [], LineEditor.Ground))
  {
  }

  lemma {:induction false} OnOscsKeepLine(a: AppState, events: seq<Osc.OscEvent>)
    requires !HasPromptEnd(events) || (a.line == [] && a.cursor == 0)
    ensures OnOscs(a, events).line == a.line && OnOscs(a, events).cursor == a.cursor
    decreases events
  {
    if events != [] {
      assert events[0] in events;
      OnOscsKeepLine(OnOsc(a, events[0]), events[1..]);
    }
  }

  /** The end of a prompt empties the line, whatever other markers surround it. */
  lemma {:induction false} PromptEndClears(a: AppState, events: seq<Osc.OscEvent>)
    requires HasPromptEnd(events)
    ensures OnOscs(a, events).line == [] && OnOscs(a, events).cursor == 0
    decreases events
  {
    if events[0].PromptEnd? {
      OnOscsKeepLine(OnOsc(a, events[0]), events[1..]);
    } else {
      PromptEndClears(OnOsc(a, events[0]), events[1..]);
    }
  }

  lemma EditKeepsPrintable(line: string, cursor: nat, key: Keys.Key)
    requires cursor <= |line| && LineEditor.AllPrintable(line) && L.KeepsLine(key, line[..cursor], line[cursor..])
    ensures LineEditor.AllPrintable(EditLine(line, cursor, key).0)
  {
  }

  /** Only keys without any effect have no code. */
  lemma NoCodeNoEffect(a: AppState, key: Keys.Key)
    requires Keys.Encode(key, a.vt.appCursor) == []
    ensures L.CommandOf(key) == L.ShadowCommand(key) && !L.KillsWord(key) && !key.code.Enter?
  {
  }

  lemma RightKeepsStep(before: string, after: string)
    ensures L.KeepsLine(Keys.Key(Keys.Right, Keys.NONE), before, after)
  {
  }

  lemma EditKeepsStepIff(w: World, ed: LineEditor.Editor, key: Keys.Key, answer: Option<string>, stamp: Option<nat>)
    requires InStep(w, ed) && Keys.Encode(key, w.app.vt.appCursor) != []
    ensures var a := ApplyToShadow(w.app, key, answer);
            L.Shows(LineEditor.FeedAll(ed, Keys.Encode(key, w.app.vt.appCursor)), a.line, a.cursor)
            <==> L.KeepsLine(key, w.app.line[..w.app.cursor], w.app.line[w.app.cursor..])
  {
    assert ed == LineEditor.Editor(ed.before, ed.after, LineEditor.Ground);
    assert w.app.line[..w.app.cursor] == ed.before && w.app.line[w.app.cursor..] == ed.after;
    L.TracksIff(key, w.app.vt.appCursor, ed.before, ed.after);
  }

  /** A key keeps shadow and editor in step exactly on the lines that `KeepsLine` names. */
  lemma KeyKeepsStepIff(w: World, ed: LineEditor.Editor, key: Keys.Key, answer: Option<string>, stamp: Option<nat>)
    requires InStep(w, ed) && IsPossible(w, KeyPress(key, answer, stamp))
    ensures InStep(Apply(w, KeyPress(key, answer, stamp)),
                   LineEditor.FeedAll(ed, Sent(w, KeyPress(key, answer, stamp))))
            <==> KeepsStep(w, KeyPress(key, answer, stamp))
  {
    var a := w.app;
    KeyKeepsInvariant(w, key, answer, stamp);
    if Captured(key).Some? {
      L.FeedNothing(ed);
    } else if Accepts(a, key) {
      AcceptKeepsStep(w, ed);
      RightKeepsStep(a.line[..a.cursor], a.line[a.cursor..]);
    } else if Keys.Encode(key, a.vt.appCursor) == [] {
      NoCodeNoEffect(a, key);
      L.FeedNothing(ed);
    } else {
      EditKeepsStepIff(w, ed, key, answer, stamp);
      if L.KeepsLine(key, a.line[..a.cursor], a.line[a.cursor..]) {
        EditKeepsPrintable(a.line, a.cursor, key);
      }
    }
  }

  lemma AcceptKeepsStep(w: World, ed: LineEditor.Editor)
    requires InStep(w, ed) && w.app.suggestion.Some? && w.app.cursor == |w.app.line|
    ensures var line := w.app.line + w.app.suggestion.value;
            && L.Shows(LineEditor.FeedAll(ed, Utf8.Encode(w.app.suggestion.value)), line, |line|)
            && LineEditor.AllPrintable(line)
  {
    var s := w.app.suggestion.value;
    var line := w.app.line + s;
    var i :| 0 <= i < |w.rows| && w.rows[i].host == w.app.host && w.rows[i].command == line;
    assert LineEditor.AllPrintable(line);
    assert forall k :: 0 <= k < |s| ==> s[k] == line[|w.app.line| + k];
    LineEditor.FeedText(ed, s);
    assert ed.after == [] && ed.before == w.app.line;
  }

  lemma QuietEventKeepsLine(w: World, event: SessionEvent, vt: Vt)
    requires w.app.cursor <= |w.app.line| && KeepsStep(w, FromSession(event, vt))
    ensures var a := OnSessionEvent(w.app, event, vt);
            a.line == w.app.line && a.cursor == w.app.cursor
  {
    if event.Output? || event.Stderr? {
      var (scan, events) := Osc.Run(Osc.PAYLOAD_CAP, w.app.scan, event.bytes);
      OnOscsKeepLine(w.app.(vt := vt, scan := scan, pendingOsc := []), w.app.pendingOsc + events);
    }
  }

  lemma ForwardedKeepsStep(w: World, ed: LineEditor.Editor, bytes: seq<Byte>)
    requires InStep(w, ed) && KeepsStep(w, Forwarded(bytes))
    ensures LineEditor.FeedAll(ed, bytes) == ed
  {
    if bytes == [] {
      L.FeedNothing(ed);
    } else {
      var e, sgrMouse :| bytes == Mouse.Report(e, sgrMouse);
      L.MouseReportIgnored(ed, e, sgrMouse);
    }
  }

  lemma StepKeepsStep(w: World, ed: LineEditor.Editor, input: Input)
    requires InStep(w, ed) && IsPossible(w, input) && KeepsStep(w, input)
    ensures InStep(Apply(w, input), LineEditor.FeedAll(ed, Sent(w, input)))
  {
    StepKeepsInvariant(w, input);
    match input
    case KeyPress(key, answer, stamp) =>
      KeyKeepsStepIff(w, ed, key, answer, stamp);
    case FromSession(event, vt) =>
      QuietEventKeepsLine(w, event, vt);
      L.FeedNothing(ed);
    case Forwarded(bytes) =>
      ForwardedKeepsStep(w, ed, bytes);
    case _ =>
      L.FeedNothing(ed);
  }

  /** Output separates the two exactly if it ends a prompt while something is on the line. */
  lemma OutputKeepsStepIff(w: World, ed: LineEditor.Editor, event: SessionEvent, vt: Vt)
    requires InStep(w, ed)
    ensures InStep(Apply(w, FromSession(event, vt)), ed) <==> KeepsStep(w, FromSession(event, vt))
  {
    if KeepsStep(w, FromSession(event, vt)) {
      StepKeepsStep(w, ed, FromSession(event, vt));
      L.FeedNothing(ed);
    } else {
      var (scan, events) := Osc.Run(Osc.PAYLOAD_CAP, w.app.scan, event.bytes);
      PromptEndClears(w.app.(vt := vt, scan := scan, pendingOsc := []), w.app.pendingOsc + events);
    }
  }

  /** Of all events but pastes and mouse reports, exactly those of `KeepsStep` keep the two in step. */
  lemma StepKeepsStepIff(w: World, ed: LineEditor.Editor, input: Input)
    requires InStep(w, ed) && IsPossible(w, input) && !input.Forwarded?
    ensures InStep(Apply(w, input), LineEditor.FeedAll(ed, Sent(w, input))) <==> KeepsStep(w, input)
  {
    match input
    case KeyPress(key, answer, stamp) =>
      KeyKeepsStepIff(w, ed, key, answer, stamp);
    case FromSession(event, vt) =>
      OutputKeepsStepIff(w, ed, event, vt);
      L.FeedNothing(ed);
    case RecordedElsewhere(row) =>
      if KeepsStep(w, input) {
        StepKeepsStep(w, ed, input);
      } else {
        assert (w.rows + [row])[|w.rows|] == row;
      }
    case _ =>
      StepKeepsStep(w, ed, input);
  }

  // ---- pasted text ------------------------------------------------------------------------------

  /**
   A paste without brackets, of printable text and ends of line: the last line of several is all that the editor
   has in the end, so the two stay in step exactly if that is what the shadow shows; text without an end of
   line separates them exactly if there is any.
   */
  lemma PasteKeepsStepIff(w: World, ed: LineEditor.Editor, text: string)
    requires InStep(w, ed) && Paste.IsPlainText(text)
    ensures InStep(Apply(w, Forwarded(Paste.Pasted(text, false))), LineEditor.FeedAll(ed, Paste.Pasted(text, false)))
       <==> if Paste.HasLineEnd(text) then w.app.line == Paste.LastLine(text) && w.app.cursor == |w.app.line|
            else text == []
  {
    Paste.FeedPlainText(ed, text);
    assert Paste.LastLine(text) + [] == Paste.LastLine(text);
    assert ed.before + [] == ed.before;
  }

  /** In particular a pasted command line, ended and so submitted, keeps an empty line in step. */
  lemma PastedLineKeepsStepIff(w: World, ed: LineEditor.Editor, command: string, end: char)
    requires InStep(w, ed) && LineEditor.AllPrintable(command) && Paste.EndsLine(end)
    ensures InStep(Apply(w, Forwarded(Paste.Pasted(command + [end], false))),
                   LineEditor.FeedAll(ed, Paste.Pasted(command + [end], false)))
       <==> w.app.line == []
  {
    var text := command + [end];
    assert text[|command|] == end;
    Paste.EndedLineIsLast(command, end);
    PasteKeepsStepIff(w, ed, text);
  }

  /** A paste in brackets is inserted as it stands, so it separates the two exactly if there is any text. */
  lemma BracketedPasteKeepsStepIff(w: World, ed: LineEditor.Editor, text: string)
    requires InStep(w, ed) && Keys.ESC !in Utf8.Encode(text)
    ensures InStep(Apply(w, Forwarded(Paste.Pasted(text, true))), LineEditor.FeedAll(ed, Paste.Pasted(text, true)))
       <==> text == []
  {
    Paste.FeedBracketed(ed, text);
    assert ed.before + [] == ed.before;
  }

  /** All bytes sent during a run. */
  function SentBy(w: World, inputs: seq<Input>): seq<Byte>
    decreases inputs
  {
    if inputs == [] || w.app.cursor > |w.app.line| then []
    else Sent(w, inputs[0]) + SentBy(Apply(w, inputs[0]), inputs[1..])
  }

  ghost predicate AllKeepStep(w: World, inputs: seq<Input>)
    decreases inputs
  {
    inputs == []
    || (w.app.cursor <= |w.app.line| && KeepsStep(w, inputs[0]) && AllKeepStep(Apply(w, inputs[0]), inputs[1..]))
  }

  /**
   Lockstep over any run: an editor that reads all the bytes sent shows exactly the shadow line and cursor,
   whatever the cursor-key mode was at each key and whichever suggestions were accepted.
   */
  lemma {:induction false} RunsKeepLockstep(w: World, inputs: seq<Input>, w': World, ed: LineEditor.Editor)
    requires InStep(w, ed) && Reaches(w, inputs, w') && AllKeepStep(w, inputs)
    ensures InStep(w', LineEditor.FeedAll(ed, SentBy(w, inputs)))
    decreases inputs
  {
    if inputs == [] {
      assert LineEditor.FeedAll(ed, []) == ed;
    } else {
      var w1 := Apply(w, inputs[0]);
      StepKeepsStep(w, ed, inputs[0]);
      RunsKeepLockstep(w1, inputs[1..], w', LineEditor.FeedAll(ed, Sent(w, inputs[0])));
      LineEditor.FeedAllConcat(ed, Sent(w, inputs[0]), SentBy(w1, inputs[1..]));
    }
  }

  /** The same for a new client, whose remote line is empty. */
  lemma NewClientKeepsLockstep(w: World, inputs: seq<Input>, w': World)
    requires IsStart(w) && AllRowsPrintable(w.rows)
    requires Reaches(w, inputs, w') && AllKeepStep(w, inputs)
    ensures var ed := LineEditor.FeedAll(LineEditor.Editor([], [], LineEditor.Ground), SentBy(w, inputs));
            L.Shows(ed, w'.app.line, w'.app.cursor)
  {
    StartIsInStep(w);
    RunsKeepLockstep(w, inputs, w', LineEditor.Editor([], [], LineEditor.Ground));
  }

  // ---- typing ahead of the prompt ---------------------------------------------------------------

  function Typed(c: char): Input {
    KeyPress(Keys.Key(Keys.Char(c), Keys.NONE), None, None)
  }

  const PROMPT_END: seq<Byte> := [0x1b, 0x5d, 0x31, 0x33, 0x33, 0x3b, 0x42, 0x07]

  lemma PromptEndIsScanned()
    ensures Osc.Run(Osc.PAYLOAD_CAP, Osc.INITIAL, PROMPT_END) == (Osc.INITIAL, [Osc.PromptEnd])
  {
    MarkerStream.ItemRoundTrip(MarkerStream.Marker(0x42, [], false));
    assert PROMPT_END == MarkerStream.Print(MarkerStream.Marker(0x42, [], false));
  }

  /** The first prompt of a session keeps the two in step. */
  lemma FirstPromptKeepsStep(w: World, vt: Vt)
    requires IsStart(w) && AllRowsPrintable(w.rows)
    ensures KeepsStep(w, FromSession(Output(PROMPT_END), vt))
    ensures InStep(Apply(w, FromSession(Output(PROMPT_END), vt)), LineEditor.Editor([], [], LineEditor.Ground))
  {
    StartIsInStep(w);
    OutputKeepsStepIff(w, LineEditor.Editor([], [], LineEditor.Ground), Output(PROMPT_END), vt);
  }

  lemma TypedIsInStep(w: World, c: char)
    requires IsStart(w) && AllRowsPrintable(w.rows) && LineEditor.IsPrintable(c)
    ensures var ed := LineEditor.Editor([c], [], LineEditor.Ground);
            && LineEditor.FeedAll(LineEditor.Editor([], [], LineEditor.Ground), Sent(w, Typed(c))) == ed
            && InStep(Apply(w, Typed(c)), ed)
  {
    var empty := LineEditor.Editor([], [], LineEditor.Ground);
    StartIsInStep(w);
    StepKeepsStep(w, empty, Typed(c));
    LineEditor.FeedPrintable(empty, c);
  }

  lemma LineAfterPrompt(a: AppState, vt: Vt)
    requires a.scan == Osc.INITIAL && a.pendingOsc == []
    ensures EndsPrompt(a, PROMPT_END) && OnOutput(a, PROMPT_END, vt).line == []
  {
    PromptEndIsScanned();
    assert [] + [Osc.PromptEnd] == [Osc.PromptEnd];
    PromptEndClears(a.(vt := vt, scan := Osc.INITIAL, pendingOsc := []), [Osc.PromptEnd]);
  }

  lemma PromptForgets(w: World, ed: LineEditor.Editor, vt: Vt)
    requires InStep(w, ed) && w.app.line != [] && w.app.scan == Osc.INITIAL && w.app.pendingOsc == []
    ensures Apply(w, FromSession(Output(PROMPT_END), vt)).app.line == []
    ensures !InStep(Apply(w, FromSession(Output(PROMPT_END), vt)), ed)
  {
    LineAfterPrompt(w.app, vt);
    OutputKeepsStepIff(w, ed, Output(PROMPT_END), vt);
  }

  /**
   Typing ahead: a character that keeps lockstep, typed before the prompt's end has arrived, stays on the
   remote line while the shadow forgets it.
   */
  lemma TypeAheadDrifts(w: World, c: char, vt: Vt)
    requires IsStart(w) && AllRowsPrintable(w.rows) && LineEditor.IsPrintable(c)
    ensures var ed := LineEditor.Editor([c], [], LineEditor.Ground);
            var typed := Apply(w, Typed(c));
            && LineEditor.FeedAll(LineEditor.Editor([], [], LineEditor.Ground), Sent(w, Typed(c))) == ed
            && InStep(typed, ed)
            && Apply(typed, FromSession(Output(PROMPT_END), vt)).app.line == []
            && !InStep(Apply(typed, FromSession(Output(PROMPT_END), vt)), ed)
  {
    TypedIsInStep(w, c);
    PromptForgets(Apply(w, Typed(c)), LineEditor.Editor([c], [], LineEditor.Ground), vt);
  }
}
