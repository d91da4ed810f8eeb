/** Runs of the client: everything that can happen to the application and its history, in any order. */
module AppRuns {
  import opened Prelude
  import opened SessionEvents
  import opened AppSpec
  import H = History
  import Keys
  import Osc
  import Utf8

  /** The application and the rows of the history database. */
  datatype World = World(app: AppState, rows: seq<H.Row>)

  /**
   One event; `Forwarded` are mouse reports and pasted text, which bypass the shadow. A key press comes with
   what the environment contributes to it: the command that the history offers when asked, and the time at
   which an insertion succeeded. A resize is first announced to the remote and then shown by the emulator.
   */
  datatype Input =
    | KeyPress(key: Keys.Key, answer: Option<string>, stamp: Option<nat>)
    | FromSession(event: SessionEvent, vt: Vt)
    | ResizeAsked(cols: nat, rows: nat)
    | Resized(vt: Vt)
    | Forwarded(bytes: seq<Byte>)
    | SendFailed(message: string)
    | RecordedElsewhere(row: H.Row)

  function Apply(w: World, input: Input): World
    requires w.app.cursor <= |w.app.line|
  {
    match input
    case KeyPress(key, answer, stamp) =>
      World(OnKey(w.app, key, answer).0, RowsAfterKey(w.app, w.rows, key, stamp))
    case FromSession(event, vt) => w.(app := OnSessionEvent(w.app, event, vt))
    case ResizeAsked(_, _) => w
    case Resized(vt) => w.(app := w.app.(vt := vt))
    case Forwarded(_) => w
    case SendFailed(message) => w.(app := w.app.(lastError := Some(message)))
    case RecordedElsewhere(row) => w.(rows := w.rows + [row])
  }

  /** The bytes that the event sends to the remote. */
  function Sent(w: World, input: Input): seq<Byte>
    requires w.app.cursor <= |w.app.line|
  {
    match input
    case KeyPress(key, answer, _) =>
      var action := OnKey(w.app, key, answer).1;
      if action.Send? then action.bytes else []
    case Forwarded(bytes) => bytes
    case _ => []
  }

  /** The database only offers what its rows and the query permit. */
  ghost predicate IsPossible(w: World, input: Input)
    requires w.app.cursor <= |w.app.line|
  {
    input.KeyPress? && input.answer.Some? ==>
      var after := OnKey(w.app, input.key, input.answer).0;
      IsOffered(w.rows, after.host, after.cwd, after.line, input.answer.value)
  }

  ghost predicate IsRecorded(rows: seq<H.Row>, host: string, command: string) {
    exists i :: 0 <= i < |rows| && rows[i].host == host && rows[i].command == command
  }

  /** What holds between any two events. */
  ghost predicate Invariant(w: World) {
    var a := w.app;
    && a.cursor <= |a.line|
    && (a.suggestion.Some? ==>
          a.suggestion.value != [] && a.line != [] && IsRecorded(w.rows, a.host, a.line + a.suggestion.value))
    && (a.accepted && a.line != [] ==> IsRecorded(w.rows, a.host, a.line))
  }

  lemma OnOscKeepsInvariant(a: AppState, event: Osc.OscEvent, rows: seq<H.Row>)
    requires Invariant(World(a, rows))
    ensures Invariant(World(OnOsc(a, event), rows))
  {
  }

  lemma {:induction false} OnOscsKeepInvariant(a: AppState, events: seq<Osc.OscEvent>, rows: seq<H.Row>)
    requires Invariant(World(a, rows))
    ensures Invariant(World(OnOscs(a, events), rows))
    decreases events
  {
    if events != [] {
      OnOscKeepsInvariant(a, events[0], rows);
      OnOscsKeepInvariant(OnOsc(a, events[0]), events[1..], rows);
    }
  }

  lemma RecordedStays(rows: seq<H.Row>, more: seq<H.Row>, host: string, command: string)
    requires IsRecorded(rows, host, command)
    ensures IsRecorded(rows + more, host, command)
  {
    var i :| 0 <= i < |rows| && rows[i].host == host && rows[i].command == command;
    assert (rows + more)[i] == rows[i];
  }

  /** A command offered for a line and surviving the filter is the line, the suggestion, and recorded. */
  lemma CompletionIsRecorded(rows: seq<H.Row>, a: AppState, answer: Option<string>)
    requires answer.Some? ==> IsOffered(rows, a.host, a.cwd, a.line, answer.value)
    ensures var s := Completion(a.line, answer);
            s.Some? ==> s.value != [] && a.line != [] && IsRecorded(rows, a.host, a.line + s.value)
  {
    var s := Completion(a.line, answer);
    if s.Some? {
      assert a.line + s.value == answer.value;
      var ctx := H.Context(a.host, a.cwd, a.line);
      var offered: H.Suggestion :| offered.command == answer.value && H.IsAnswer(rows, ctx, Some(offered));
      var i :| H.IsFishChoice(rows, ctx, i)
        && offered == H.Suggestion(rows[i].command, rows[i].id, H.Score(H.AnyCompletes(rows, ctx, true)));
      assert H.Completes(rows[i], ctx, H.AnyCompletes(rows, ctx, true));
      assert rows[i].host == a.host && rows[i].command == a.line + s.value;
    }
  }

  lemma KeyKeepsInvariant(w: World, key: Keys.Key, answer: Option<string>, stamp: Option<nat>)
    requires Invariant(w) && IsPossible(w, KeyPress(key, answer, stamp))
    ensures Invariant(Apply(w, KeyPress(key, answer, stamp)))
  {
    var a := w.app;
    if Captured(key).Some? {
      assert RowsAfterKey(a, w.rows, key, stamp) == w.rows;
    } else if Accepts(a, key) {
      assert RowsAfterKey(a, w.rows, key, stamp) == w.rows;
      CompletionIsRecorded(w.rows, OnKey(a, key, answer).0, answer);
    } else if Keys.Encode(key, a.vt.appCursor) != [] {
      EditKeepsInvariant(w, key, answer, stamp);
    } else {
      assert RowsAfterKey(a, w.rows, key, stamp) == w.rows;
    }
  }

  lemma EditKeepsInvariant(w: World, key: Keys.Key, answer: Option<string>, stamp: Option<nat>)
    requires Invariant(w)
    requires var after := ApplyToShadow(w.app, key, answer);
             answer.Some? ==> IsOffered(w.rows, after.host, after.cwd, after.line, answer.value)
    ensures Invariant(World(ApplyToShadow(w.app, key, answer), RowsAfterKey(w.app, w.rows, key, stamp)))
  {
    EditKeepsCredit(w.app, key);
    if Refreshes(key) {
      CompletionIsRecorded(w.rows, ApplyToShadow(w.app, key, answer), answer);
    }
  }

  /** A line that keeps the credit of an accepted suggestion has not been changed. */
  lemma EditKeepsCredit(a: AppState, key: Keys.Key)
    requires a.cursor <= |a.line|
    ensures Edited(a, key).accepted ==> a.accepted && Edited(a, key).line == a.line
  {
    assert a.line[..0] + a.line[0..] == a.line;
  }

  lemma SessionEventKeepsInvariant(w: World, event: SessionEvent, vt: Vt)
    requires Invariant(w)
    ensures Invariant(w.(app := OnSessionEvent(w.app, event, vt)))
  {
    if event.Output? || event.Stderr? {
      var (scan, events) := Osc.Run(Osc.PAYLOAD_CAP, w.app.scan, event.bytes);
      OnOscsKeepInvariant(w.app.(vt := vt, scan := scan, pendingOsc := []), w.app.pendingOsc + events, w.rows);
    }
  }

  lemma StepKeepsInvariant(w: World, input: Input)
    requires Invariant(w) && IsPossible(w, input)
    ensures Invariant(Apply(w, input))
  {
    match input
    case KeyPress(key, answer, stamp) =>
      KeyKeepsInvariant(w, key, answer, stamp);
    case FromSession(event, vt) =>
      SessionEventKeepsInvariant(w, event, vt);
    case ResizeAsked(_, _) =>
    case Resized(_) =>
    case Forwarded(_) =>
    case SendFailed(_) =>
    case RecordedElsewhere(row) =>
      var a := w.app;
      if a.suggestion.Some? {
        RecordedStays(w.rows, [row], a.host, a.line + a.suggestion.value);
      }
      if a.accepted && a.line != [] {
        RecordedStays(w.rows, [row], a.host, a.line);
      }
  }

  /**
   Right after a key that asks, with a history that answers: if the rows of this host that match the line
   match it case included, there is a suggestion exactly when a recorded command properly extends the line.
   */
  lemma FreshSuggestionIsComplete(w: World, key: Keys.Key, answer: Option<string>)
    requires Invariant(w) && Asks(w.app, key)
    requires IsReply(w.rows, OnKey(w.app, key, answer).0, answer, false)
    requires var a := OnKey(w.app, key, answer).0;
             forall i :: 0 <= i < |w.rows| && H.Completes(w.rows[i], H.Context(a.host, a.cwd, a.line), false)
               ==> a.line <= w.rows[i].command
    ensures var a := OnKey(w.app, key, answer).0;
            a.suggestion.Some? <==> a.line != [] && H.CanBeCompleted(w.rows, H.Context(a.host, a.cwd, a.line))
  {
    var a := OnKey(w.app, key, answer).0;
    var ctx := H.Context(a.host, a.cwd, a.line);
    AskingRefreshes(w.app, key, answer);
    if a.line != [] {
      match answer
      case None =>
        H.ExactCaseIsComplete(w.rows, ctx, None);
      case Some(command) =>
        var s: H.Suggestion :| s.command == command && H.IsAnswer(w.rows, ctx, Some(s));
        H.ExactCaseIsComplete(w.rows, ctx, Some(s));
    }
  }

  lemma AskingRefreshes(a: AppState, key: Keys.Key, answer: Option<string>)
    requires a.cursor <= |a.line| && Asks(a, key)
    ensures var after := OnKey(a, key, answer).0; after.suggestion == Completion(after.line, answer)
  {
  }

  // ---- runs -------------------------------------------------------------------------------------

  /** `w'` is reached from `w` by the events `inputs`, each of them possible when it happens. */
  ghost predicate Reaches(w: World, inputs: seq<Input>, w': World)
    decreases inputs
  {
    if inputs == [] then w' == w
    else
      w.app.cursor <= |w.app.line| && IsPossible(w, inputs[0]) && Reaches(Apply(w, inputs[0]), inputs[1..], w')
  }

  lemma {:induction false} RunsKeepInvariant(w: World, inputs: seq<Input>, w': World)
    requires Invariant(w) && Reaches(w, inputs, w')
    ensures Invariant(w')
    decreases inputs
  {
    if inputs != [] {
      StepKeepsInvariant(w, inputs[0]);
      RunsKeepInvariant(Apply(w, inputs[0]), inputs[1..], w');
    }
  }

  ghost predicate IsStart(w: World) {
    exists host, user, vt :: w.app == NewApp(host, user, vt)
  }

  /** In every reachable state a cached suggestion completes the line to a command of this host. */
  lemma SuggestionIsSound(w: World, inputs: seq<Input>, w': World)
    requires IsStart(w) && Reaches(w, inputs, w')
    requires w'.app.suggestion.Some?
    ensures w'.app.suggestion.value != [] && w'.app.line != []
    ensures IsRecorded(w'.rows, w'.app.host, w'.app.line + w'.app.suggestion.value)
  {
    RunsKeepInvariant(w, inputs, w');
  }

  /**
   What is shown is what Right sends: when ghost text is visible, a plain Right accepts it exactly if the
   terminal cursor stands `shadow_cursor` columns past the prompt, and then the line becomes a command of
   this host.
   */
  lemma GhostIsWhatRightSends(w: World, inputs: seq<Input>, w': World, answer: Option<string>)
    requires IsStart(w) && Reaches(w, inputs, w')
    requires CanShowSuggestion(w'.app)
    ensures w'.app.cursor <= |w'.app.line|
    ensures var a := w'.app;
            var right := Keys.Key(Keys.Right, Keys.NONE);
            var (after, action) := OnKey(a, right, answer);
            && (Accepts(a, right) <==> a.vt.column - a.promptPos.value.0 == a.cursor)
            && (Accepts(a, right) ==>
                  && action == Send(Utf8.Encode(a.suggestion.value))
                  && after.line == a.line + a.suggestion.value && after.cursor == |after.line| && after.accepted
                  && IsRecorded(w'.rows, a.host, after.line))
  {
    RunsKeepInvariant(w, inputs, w');
  }

  const RIGHT := Keys.Key(Keys.Right, Keys.NONE)

  /**
   Right does not ask whether the suggestion is drawn: it changes the line by unseen text exactly if there is a
   suggestion, the cursor is at the end of the line and the ghost text is not shown.
   */
  lemma RightSendsUnseenIff(w: World, inputs: seq<Input>, w': World, answer: Option<string>)
    requires IsStart(w) && Reaches(w, inputs, w')
    ensures w'.app.cursor <= |w'.app.line|
    ensures var (a, after) := (w'.app, OnKey(w'.app, RIGHT, answer).0);
            after.line != a.line && !CanShowSuggestion(a)
            <==> a.suggestion.Some? && a.cursor == |a.line| && !CanShowSuggestion(a)
  {
    RunsKeepInvariant(w, inputs, w');
    var a := w'.app;
    if Accepts(a, RIGHT) {
      assert |a.line + a.suggestion.value| > |a.line|;
    }
  }

  const TYPED_G := KeyPress(Keys.Key(Keys.Char('g'), Keys.NONE), Some("git status"), None)

  lemma GitIsOffered(row: H.Row, host: string)
    requires row.host == host && row.command == "git status"
    ensures IsOffered([row], host, None, "g", "git status")
  {
    var ctx := H.Context(host, None, "g");
    var s := H.Suggestion("git status", row.id, H.Score(false));
    assert H.Completes([row][0], ctx, false) && !H.AnyCompletes([row], ctx, true);
    assert H.IsNewest([row], ctx, false, 0);
    assert H.IsFishChoice([row], ctx, 0) && H.IsAnswer([row], ctx, Some(s));
  }

  lemma GAfterStart(w: World)
    requires IsStart(w)
    ensures var a := Apply(w, TYPED_G).app;
            && a.host == w.app.host && a.cwd == None && a.line == "g" && a.cursor == 1
            && a.suggestion == Some("it status") && a.promptPos == None
  {
    assert [] + ['g'] + [] == "g";
    assert "git status"[1..] == "it status";
  }

  /** So it happens before any prompt is known, and with the alternate screen shown. */
  lemma UnseenSuggestionIsSent(w: World, row: H.Row)
    requires IsStart(w) && w.rows == [row] && row.host == w.app.host && row.command == "git status"
    ensures IsPossible(w, TYPED_G)
    ensures var a := Apply(w, TYPED_G).app;
            && a.line == "g" && a.cursor == 1 && !CanShowSuggestion(a)
            && OnKey(a, RIGHT, None).1 == Send(Utf8.Encode("it status"))
  {
    GitIsOffered(row, w.app.host);
    GAfterStart(w);
  }

  /** A row that Enter credits to a suggestion repeats a command already recorded on this host. */
  lemma CreditedRowsRepeat(w: World, inputs: seq<Input>, w': World, key: Keys.Key, stamp: Option<nat>)
    requires IsStart(w) && Reaches(w, inputs, w')
    ensures var rows := RowsAfterKey(w'.app, w'.rows, key, stamp);
            && w'.rows <= rows
            && (|rows| > |w'.rows| ==>
                  var row := rows[|w'.rows|];
                  && |rows| == |w'.rows| + 1
                  && row.host == w'.app.host && row.command == w'.app.line != []
                  && (row.source.SuggestHistory? ==> IsRecorded(w'.rows, row.host, row.command)))
  {
    RunsKeepInvariant(w, inputs, w');
  }

  // ---- chunking of the remote's output ----------------------------------------------------------

  /** The part of the state that may not depend on how the output was cut into chunks. */
  datatype Core = Core(line: string, cursor: nat, suggestion: Option<string>, cwd: Option<string>, scan: Osc.Scan)

  function CoreOf(a: AppState): Core {
    Core(a.line, a.cursor, a.suggestion, a.cwd, a.scan)
  }

  function CoreOsc(c: Core, event: Osc.OscEvent): Core {
    match event
    case PromptEnd => c.(line := [], cursor := 0, suggestion := None)
    case Cwd(path) => c.(cwd := Some(path))
    case _ => c
  }

  function CoreOscs(c: Core, events: seq<Osc.OscEvent>): Core
    decreases events
  {
    if events == [] then c else CoreOscs(CoreOsc(c, events[0]), events[1..])
  }

  lemma {:induction false} CoreOscsConcat(c: Core, a: seq<Osc.OscEvent>, b: seq<Osc.OscEvent>)
    ensures CoreOscs(c, a + b) == CoreOscs(CoreOscs(c, a), b)
    decreases a
  {
    if a == [] {
      assert a + b == b;
    } else {
      assert (a + b)[1..] == a[1..] + b;
      CoreOscsConcat(CoreOsc(c, a[0]), a[1..], b);
    }
  }

  lemma {:induction false} CoreOfOnOscs(a: AppState, events: seq<Osc.OscEvent>)
    ensures CoreOf(OnOscs(a, events)) == CoreOscs(CoreOf(a), events)
    ensures OnOscs(a, events).pendingOsc == a.pendingOsc
    decreases events
  {
    if events != [] {
      CoreOfOnOscs(OnOsc(a, events[0]), events[1..]);
    }
  }

  lemma {:induction false} CoreOscsScan(c: Core, scan: Osc.Scan, events: seq<Osc.OscEvent>)
    ensures CoreOscs(c.(scan := scan), events) == CoreOscs(c, events).(scan := scan)
    decreases events
  {
    if events != [] {
      CoreOscsScan(CoreOsc(c, events[0]), scan, events[1..]);
    }
  }

  /** One piece of output: on which stream it came, its bytes, and what the emulator showed after it. */
  datatype Chunk = Chunk(onStderr: bool, bytes: seq<Byte>, vt: Vt)

  function ChunkEvent(c: Chunk): SessionEvent {
    if c.onStderr then Stderr(c.bytes) else Output(c.bytes)
  }

  function OnChunks(a: AppState, chunks: seq<Chunk>): AppState
    decreases chunks
  {
    if chunks == [] then a else OnChunks(OnSessionEvent(a, ChunkEvent(chunks[0]), chunks[0].vt), chunks[1..])
  }

  function AllBytes(chunks: seq<Chunk>): seq<Byte> {
    if chunks == [] then [] else chunks[0].bytes + AllBytes(chunks[1..])
  }

  lemma {:induction false} CoreOfChunks(a: AppState, chunks: seq<Chunk>)
    requires a.pendingOsc == []
    ensures var (scan, events) := Osc.Run(Osc.PAYLOAD_CAP, a.scan, AllBytes(chunks));
            CoreOf(OnChunks(a, chunks)) == CoreOscs(CoreOf(a), events).(scan := scan)
    decreases chunks
  {
    if chunks != [] {
      var c := chunks[0];
      var (scan, events) := Osc.Run(Osc.PAYLOAD_CAP, a.scan, c.bytes);
      var fed := a.(vt := c.vt, scan := scan, pendingOsc := []);
      assert a.pendingOsc + events == events;
      CoreOfOnOscs(fed, events);
      CoreOscsScan(CoreOf(a), scan, events);
      var a1 := OnOutput(a, c.bytes, c.vt);
      assert CoreOf(a1) == CoreOscs(CoreOf(a), events).(scan := scan);
      CoreOfChunks(a1, chunks[1..]);
      var (scan2, more) := Osc.Run(Osc.PAYLOAD_CAP, scan, AllBytes(chunks[1..]));
      CoreOscsScan(CoreOscs(CoreOf(a), events), scan, more);
      CoreOscsConcat(CoreOf(a), events, more);
      Osc.RunConcat(Osc.PAYLOAD_CAP, a.scan, c.bytes, AllBytes(chunks[1..]));
    }
  }

  /**
   However the same output bytes are cut into chunks and split between stdout and stderr, and whatever the
   emulator shows in between, the line, the cursor, the suggestion, the directory and the scanner end alike.
   */
  lemma ChunkingIsInvisible(a: AppState, chunks: seq<Chunk>, chunks': seq<Chunk>)
    requires a.pendingOsc == [] && AllBytes(chunks) == AllBytes(chunks')
    ensures CoreOf(OnChunks(a, chunks)) == CoreOf(OnChunks(a, chunks'))
  {
    CoreOfChunks(a, chunks);
    CoreOfChunks(a, chunks');
  }
}
