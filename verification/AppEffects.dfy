/** What single events do to the application and its history, said key by key and marker by marker. */
module AppEffects {
  import opened Prelude
  import opened SessionEvents
  import opened AppSpec
  import opened AppRuns
  import FileUrl
  import H = History
  import Keys
  import LineEditor
  import MarkerStream
  import Osc
  import UrlGrammar
  import Utf8

  // ---- actions ----------------------------------------------------------------------------------

  /** Ctrl-Q, with or without further modifiers. */
  predicate IsQuitKey(key: Keys.Key) {
    key.mods.ctrl && key.code == Keys.Char('q')
  }

  /** What each key makes the client do. */
  lemma ActionsAre(a: AppState, key: Keys.Key, answer: Option<string>)
    requires a.cursor <= |a.line|
    ensures var action := OnKey(a, key, answer).1;
            var both := key.mods.ctrl && key.mods.shift;
            var code := Keys.Encode(key, a.vt.appCursor);
            && (action == Quit <==> IsQuitKey(key))
            && (action == ToggleMouseCapture <==> both && (key.code == Keys.Char('m') || key.code == Keys.Char('M')))
            && (action == CopyToClipboard <==> both && (key.code == Keys.Char('c') || key.code == Keys.Char('C')))
            && (action.Send? || action == NoAction ==>
                  if key == RIGHT && a.suggestion.Some? && a.cursor == |a.line|
                  then action == Send(Utf8.Encode(a.suggestion.value))
                  else action == if code == [] then NoAction else Send(code))
  {
  }

  /** The keys that the client keeps for itself change nothing. */
  lemma CapturedKeysChangeNothing(a: AppState, key: Keys.Key, answer: Option<string>)
    requires a.cursor <= |a.line|
    ensures var (after, action) := OnKey(a, key, answer); !action.Send? ==> after == a
  {
  }

  // ---- flags and suggestion ---------------------------------------------------------------------

  predicate IsCtrl(key: Keys.Key, lower: char, upper: char) {
    key.mods.ctrl && (key.code == Keys.Char(lower) || key.code == Keys.Char(upper))
  }

  /** Ctrl-C and Ctrl-D, and the keys that recall history. */
  predicate GivesUp(key: Keys.Key) {
    || IsCtrl(key, 'c', 'C') || IsCtrl(key, 'd', 'D')
    || key.code == Keys.Up || key.code == Keys.Down || key.code == Keys.PageUp || key.code == Keys.PageDown
  }

  /** Is the key sent as its code, so that the shadow line follows it? */
  predicate IsSent(a: AppState, key: Keys.Key) {
    a.cursor <= |a.line| && OnKey(a, key, None).1 == Send(Keys.Encode(key, a.vt.appCursor)) && !Accepts(a, key)
  }

  /**
   The credit of an accepted suggestion ends with a typed character, a Backspace or Ctrl-W that has something before
   the cursor, Ctrl-U, Ctrl-K, Enter, and the keys that give the line up; the other keys leave it.
   */
  lemma CreditAfterKey(a: AppState, key: Keys.Key, answer: Option<string>)
    requires IsSent(a, key)
    ensures OnKey(a, key, answer).0.accepted
       <==> a.accepted
            && !(key.code.Char? && !key.mods.ctrl)
            && !(key.code == Keys.Backspace && a.cursor > 0)
            && !(IsCtrl(key, 'w', 'W') && a.cursor > 0)
            && !IsCtrl(key, 'u', 'U') && !IsCtrl(key, 'k', 'K') && key.code != Keys.Enter && !GivesUp(key)
  {
  }

  /** Enter is remembered until output with a newline arrives or the line is given up. */
  lemma EnterFlagAfterKey(a: AppState, key: Keys.Key, answer: Option<string>)
    requires IsSent(a, key)
    ensures OnKey(a, key, answer).0.afterEnter <==> key.code == Keys.Enter || (a.afterEnter && !GivesUp(key))
  {
  }

  /**
   The suggestion is looked up after characters and Backspace; Enter, the Tab keys and the keys that give the line
   up drop it; the others leave it.
   */
  lemma SuggestionAfterKey(a: AppState, key: Keys.Key, answer: Option<string>)
    requires IsSent(a, key)
    ensures var after := OnKey(a, key, answer).0;
            if key.code.Char? || key.code == Keys.Backspace then
              match after.suggestion
              case Some(rest) => rest != [] && after.line != [] && answer == Some(after.line + rest)
              case None => after.line == [] || answer.None? || !(after.line < answer.value)
            else if key.code in [Keys.Enter, Keys.Tab, Keys.BackTab] || GivesUp(key) then after.suggestion == None
            else after.suggestion == a.suggestion
  {
    var line := OnKey(a, key, answer).0.line;
    if answer.Some? && line <= answer.value {
      assert line + answer.value[|line|..] == answer.value;
    }
  }

  /** No key changes anything but the line, the cursor, the suggestion and the two flags. */
  lemma KeysChangeNothingElse(a: AppState, key: Keys.Key, answer: Option<string>)
    requires a.cursor <= |a.line|
    ensures var after := OnKey(a, key, answer).0;
            after == a.(line := after.line, cursor := after.cursor, suggestion := after.suggestion,
                        accepted := after.accepted, afterEnter := after.afterEnter)
  {
  }

  // ---- what Enter records -----------------------------------------------------------------------

  /** Enter on a non-empty line records it, as it stands, if the insertion succeeds; nothing else is recorded. */
  lemma EnterRecords(a: AppState, rows: seq<H.Row>, key: Keys.Key, stamp: Option<nat>)
    ensures var after := RowsAfterKey(a, rows, key, stamp);
            if key.code.Enter? && a.line != [] && stamp.Some? then
              && |after| == |rows| + 1 && after[..|rows|] == rows
              && var row := after[|rows|];
                 && row.id == |rows| + 1 && row.host == a.host && row.user == a.user && row.cwd == a.cwd
                 && row.command == a.line && row.timestamp == stamp.value
                 && row.exitCode == None && row.duration == None
                 && (row.source == H.SuggestHistory <==> a.accepted) && (row.source == H.User <==> !a.accepted)
            else after == rows
  {
  }

  lemma {:induction false} RowsOnlyGrow(w: World, inputs: seq<Input>, w': World)
    requires Reaches(w, inputs, w')
    ensures w.rows <= w'.rows && w'.app.host == w.app.host
    decreases inputs
  {
    if inputs != [] {
      StepKeepsHost(w, inputs[0]);
      RowsOnlyGrow(Apply(w, inputs[0]), inputs[1..], w');
    }
  }

  lemma {:induction false} OscsKeepHost(a: AppState, events: seq<Osc.OscEvent>)
    ensures OnOscs(a, events).host == a.host
    decreases events
  {
    if events != [] {
      OscsKeepHost(OnOsc(a, events[0]), events[1..]);
    }
  }

  lemma StepKeepsHost(w: World, input: Input)
    requires w.app.cursor <= |w.app.line|
    ensures Apply(w, input).app.host == w.app.host && w.rows <= Apply(w, input).rows
  {
    if input.FromSession? && (input.event.Output? || input.event.Stderr?) {
      var (scan, events) := Osc.Run(Osc.PAYLOAD_CAP, w.app.scan, input.event.bytes);
      OscsKeepHost(w.app.(vt := input.vt, scan := scan, pendingOsc := []), w.app.pendingOsc + events);
    }
  }

  /**
   A line entered with a working database can from then on be completed from each of its proper prefixes, in every
   directory, whatever happens in between.
   */
  lemma EnteredLineCompletes(w: World, answer: Option<string>, stamp: Option<nat>, inputs: seq<Input>, w': World,
                             prefix: string, cwd: Option<string>)
    requires w.app.cursor <= |w.app.line| && w.app.line != [] && stamp.Some?
    requires Reaches(Apply(w, KeyPress(Keys.Key(Keys.Enter, Keys.NONE), answer, stamp)), inputs, w')
    requires prefix != [] && prefix < w.app.line
    ensures var ctx := H.Context(w'.app.host, cwd, prefix);
            H.CanBeCompleted(w'.rows, ctx) && !H.IsAnswer(w'.rows, ctx, None)
  {
    var entered := Apply(w, KeyPress(Keys.Key(Keys.Enter, Keys.NONE), answer, stamp));
    EnterRecords(w.app, w.rows, Keys.Key(Keys.Enter, Keys.NONE), stamp);
    RowsOnlyGrow(entered, inputs, w');
    var row := w'.rows[|w.rows|];
    assert row == entered.rows[|w.rows|];
    StepKeepsHost(w, KeyPress(Keys.Key(Keys.Enter, Keys.NONE), answer, stamp));
    var ctx := H.Context(w'.app.host, cwd, prefix);
    H.PrefixIsFolded(prefix, row.command);
    assert H.Completes(row, ctx, false) && H.Survives(prefix, row.command);
  }

  // ---- session events and markers ---------------------------------------------------------------

  /** A new client knows nothing. */
  lemma NewAppKnowsNothing(host: string, user: string, vt: Vt)
    ensures var a := NewApp(host, user, vt);
            && a.host == host && a.user == user && a.vt == vt && a.state == Connecting && !a.closed
            && a.lastError == None
            && a.line == [] && a.cursor == 0 && a.suggestion == None && a.promptPos == None && a.cwd == None
            && !a.accepted && !a.afterEnter && a.pendingOsc == [] && a.scan == Osc.Scan(Osc.Plain, [])
  {
  }

  /** Events that are no output. */
  lemma OtherEventsAre(a: AppState, event: SessionEvent, vt: Vt)
    ensures match event
            case StateChanged(state) => OnSessionEvent(a, event, vt) == a.(state := state)
            case ExitStatus(_) => OnSessionEvent(a, event, vt) == a
            case Error(message) => OnSessionEvent(a, event, vt) == a.(lastError := Some(message))
            case DriverClosed => OnSessionEvent(a, event, vt) == a.(closed := true)
            case _ => true
  {
  }

  /** The scanner is between sequences, and every event it has met has been taken. */
  predicate IsIdle(a: AppState) {
    a.scan == Osc.Scan(Osc.Plain, []) && a.pendingOsc == []
  }

  lemma OneOsc(a: AppState, event: Osc.OscEvent)
    ensures OnOscs(a, [event]) == OnOsc(a, event)
  {
    assert [event][1..] == [];
  }

  /**
   Output without markers and sequences: after Enter, a newline makes the place where the cursor is left the prompt,
   unless it is left of everything.
   */
  lemma TextOutput(a: AppState, bytes: seq<Byte>, vt: Vt)
    requires IsIdle(a) && Osc.ESC !in bytes
    ensures var prompts := a.afterEnter && 0x0a in bytes;
            OnOutput(a, bytes, vt)
            == a.(vt := vt, afterEnter := a.afterEnter && !prompts,
                  promptPos := if prompts && vt.column > 0 then Some((vt.column, vt.row)) else a.promptPos)
  {
    MarkerStream.ItemRoundTrip(MarkerStream.Text(bytes));
    assert [] + MarkerStream.EventOf(MarkerStream.Text(bytes)) == [];
  }

  lemma ItemOutput(a: AppState, item: MarkerStream.Item, vt: Vt)
    requires IsIdle(a) && MarkerStream.GoodItem(item)
    ensures OnOutput(a, MarkerStream.Print(item), vt)
         == PromptHeuristic(OnOscs(a.(vt := vt), MarkerStream.EventOf(item)), MarkerStream.Print(item))
  {
    MarkerStream.ItemRoundTrip(item);
    assert [] + MarkerStream.EventOf(item) == MarkerStream.EventOf(item);
  }

  /** The four prompt markers: only the prompt's end and the command's start do anything. */
  lemma MarkerOutput(a: AppState, letter: Byte, st: bool, vt: Vt)
    requires IsIdle(a) && 0x41 <= letter <= 0x44 && !a.afterEnter
    ensures OnOutput(a, MarkerStream.Print(MarkerStream.Marker(letter, [], st)), vt)
         == if letter == 0x42 then
              a.(vt := vt, promptPos := Some((vt.column, vt.row)), line := [], cursor := 0, suggestion := None)
            else if letter == 0x43 then a.(vt := vt, promptPos := None)
            else a.(vt := vt)
  {
    var item := MarkerStream.Marker(letter, [], st);
    ItemOutput(a, item, vt);
    OneOsc(a.(vt := vt), MarkerStream.EventOf(item)[0]);
  }

  /** A directory that can be read becomes the working directory. */
  lemma DirectoryOutput(a: AppState, item: MarkerStream.Item, vt: Vt)
    requires IsIdle(a) && item.Directory? && MarkerStream.GoodItem(item) && !a.afterEnter
    ensures var after := OnOutput(a, MarkerStream.Print(item), vt);
            && after.cwd.Some? && after == a.(vt := vt, cwd := after.cwd)
            && after.cwd.value == FileUrl.Latin1(UrlGrammar.PathBytes(item.path))
  {
    ItemOutput(a, item, vt);
    OneOsc(a.(vt := vt), MarkerStream.EventOf(item)[0]);
  }

  /** Any other sequence, such as a window title, changes nothing. */
  lemma OtherSequenceOutput(a: AppState, payload: seq<Byte>, st: bool, vt: Vt)
    requires IsIdle(a) && MarkerStream.GoodItem(MarkerStream.Other(payload, st)) && !a.afterEnter
    ensures OnOutput(a, MarkerStream.Print(MarkerStream.Other(payload, st)), vt) == a.(vt := vt)
  {
    ItemOutput(a, MarkerStream.Other(payload, st), vt);
  }

  // ---- when the ghost text is shown -------------------------------------------------------------

  /** The five conditions of the gate. */
  lemma ShownIff(a: AppState)
    ensures CanShowSuggestion(a)
       <==> && a.suggestion != None && a.promptPos != None && !a.vt.altScreen
            && a.promptPos == Some((a.vt.column - |a.line|, a.vt.row))
  {
  }

  /** A printable character typed without Ctrl or Alt, or output that neither ends a line nor holds a marker. */
  predicate TypesOrEchoes(w: World, input: Input) {
    match input
    case KeyPress(key, _, _) => key.code.Char? && !key.mods.ctrl && !key.mods.alt && LineEditor.IsPrintable(key.code.c)
    case FromSession(event, _) =>
      (event.Output? || event.Stderr?) && 0x0a !in event.bytes
      && Osc.Run(Osc.PAYLOAD_CAP, w.app.scan, event.bytes).1 == []
    case _ => false
  }

  predicate AllTypeOrEcho(w: World, inputs: seq<Input>)
    decreases inputs
  {
    inputs == []
    || (TypesOrEchoes(w, inputs[0]) && w.app.cursor <= |w.app.line| && AllTypeOrEcho(Apply(w, inputs[0]), inputs[1..]))
  }

  /** The characters typed. */
  function TypedText(inputs: seq<Input>): string {
    if inputs == [] then []
    else
      (if inputs[0].KeyPress? && inputs[0].key.code.Char? then [inputs[0].key.code.c] else [])
      + TypedText(inputs[1..])
  }

  lemma TypeOrEchoStep(w: World, input: Input)
    requires TypesOrEchoes(w, input) && w.app.cursor == |w.app.line| && w.app.pendingOsc == []
    ensures var a := Apply(w, input).app;
            && a.promptPos == w.app.promptPos && a.pendingOsc == [] && a.cursor == |a.line|
            && a.line == w.app.line + TypedText([input])
  {
    assert [input][1..] == [];
    if input.KeyPress? {
      var a := w.app;
      assert a.line[..a.cursor] == a.line && a.line[a.cursor..] == [];
      Keys.NoCodeIff(input.key, a.vt.appCursor);
    } else {
      var (scan, events) := Osc.Run(Osc.PAYLOAD_CAP, w.app.scan, input.event.bytes);
      assert w.app.pendingOsc + events == [];
    }
  }

  lemma {:induction false} TypeOrEchoRun(w: World, inputs: seq<Input>, w': World)
    requires AllTypeOrEcho(w, inputs) && Reaches(w, inputs, w')
    requires w.app.cursor == |w.app.line| && w.app.pendingOsc == []
    ensures w'.app.promptPos == w.app.promptPos && w'.app.line == w.app.line + TypedText(inputs)
    decreases inputs
  {
    if inputs != [] {
      var w1 := Apply(w, inputs[0]);
      TypeOrEchoStep(w, inputs[0]);
      TypeOrEchoRun(w1, inputs[1..], w');
      assert [inputs[0]][1..] == [];
      assert TypedText(inputs) == TypedText([inputs[0]]) + TypedText(inputs[1..]);
    }
  }

  lemma {:induction false} LastPromptEnd(a: AppState, events: seq<Osc.OscEvent>)
    requires events != [] && events[|events| - 1] == Osc.PromptEnd
    ensures var after := OnOscs(a, events);
            && after.promptPos == Some((a.vt.column, a.vt.row)) && after.vt == a.vt
            && after.line == [] && after.cursor == 0 && after.pendingOsc == a.pendingOsc
    decreases events
  {
    if |events| == 1 {
      OneOsc(a, events[0]);
      assert events == [events[0]];
    } else {
      LastPromptEnd(OnOsc(a, events[0]), events[1..]);
    }
  }

  lemma PromptDrawn(a: AppState, bytes: seq<Byte>, vt: Vt)
    requires a.pendingOsc == []
    requires var events := Osc.Run(Osc.PAYLOAD_CAP, a.scan, bytes).1;
             events != [] && events[|events| - 1] == Osc.PromptEnd
    ensures var after := OnOutput(a, bytes, vt);
            && after.promptPos == Some((vt.column, vt.row))
            && after.line == [] && after.cursor == 0 && after.pendingOsc == []
  {
    var (scan, events) := Osc.Run(Osc.PAYLOAD_CAP, a.scan, bytes);
    assert a.pendingOsc + events == events;
    LastPromptEnd(a.(vt := vt, scan := scan, pendingOsc := []), events);
  }

  /**
   From any state: output whose last marker ends a prompt leaves the cursor at column `c` of row `r`; then
   characters are typed and echoed, in any order, until the cursor stands as many columns further in that row,
   outside the alternate screen. The line is then what was typed, and ghost text is shown exactly if there is a
   suggestion.
   */
  lemma GhostAfterPrompt(w: World, bytes: seq<Byte>, vt: Vt, inputs: seq<Input>, w': World)
    requires w.app.pendingOsc == []
    requires var events := Osc.Run(Osc.PAYLOAD_CAP, w.app.scan, bytes).1;
             events != [] && events[|events| - 1] == Osc.PromptEnd
    requires w.app.cursor <= |w.app.line|
    requires var prompt := Apply(w, FromSession(Output(bytes), vt));
             AllTypeOrEcho(prompt, inputs) && Reaches(prompt, inputs, w')
    requires w'.app.vt.column == vt.column + |TypedText(inputs)| && w'.app.vt.row == vt.row && !w'.app.vt.altScreen
    ensures w'.app.line == TypedText(inputs)
    ensures CanShowSuggestion(w'.app) <==> w'.app.suggestion.Some?
  {
    var prompt := Apply(w, FromSession(Output(bytes), vt));
    PromptDrawn(w.app, bytes, vt);
    assert prompt.app == OnOutput(w.app, bytes, vt);
    TypeOrEchoRun(prompt, inputs, w');
    assert [] + TypedText(inputs) == TypedText(inputs);
    GateOpens(w'.app, vt);
  }

  lemma GateOpens(a: AppState, prompt: Vt)
    requires a.promptPos == Some((prompt.column, prompt.row))
    requires a.vt.column == prompt.column + |a.line| && a.vt.row == prompt.row && !a.vt.altScreen
    ensures CanShowSuggestion(a) <==> a.suggestion.Some?
  {
    ShownIff(a);
  }
}
