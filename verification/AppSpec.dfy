/**
 What the client's event handlers do to the application state, on values: text is a sequence of
 characters and the history database enters only through the answer it gives to a query.
 */
module AppSpec {
  import opened Prelude
  import opened SessionEvents
  import Keys
  import Osc
  import History
  import Utf8

  /** What the rest of the client can see of the terminal emulator. */
  datatype Vt = Vt(column: nat, row: nat, appCursor: bool, altScreen: bool)

  datatype Action = Send(bytes: seq<Byte>) | Quit | ToggleMouseCapture | CopyToClipboard | NoAction

  datatype AppState = AppState(
    host: string, user: string, state: SessionState, closed: bool, lastError: Option<string>,
    line: string, cursor: nat, suggestion: Option<string>,
    promptPos: Option<(nat, nat)>, cwd: Option<string>,
    accepted: bool, afterEnter: bool,
    vt: Vt, scan: Osc.Scan, pendingOsc: seq<Osc.OscEvent>)

  function NewApp(host: string, user: string, vt: Vt): AppState {
    AppState(host, user, Connecting, false, None, [], 0, None, None, None, false, false, vt, Osc.INITIAL, [])
  }

  // ---- the shadow line --------------------------------------------------------------------------

  /** `char::is_whitespace`: the characters with the Unicode property White_Space. */
  predicate IsWhitespace(c: char) {
    var v := c as int;
    9 <= v <= 13 || v == 0x20 || v == 0x85 || v == 0xA0 || v == 0x1680 || 0x2000 <= v <= 0x200A
    || v == 0x2028 || v == 0x2029 || v == 0x202F || v == 0x205F || v == 0x3000
  }

  /** Start of the word that Ctrl-W kills: back over white space, then over what is not white space. */
  function SkipBack(s: string, i: nat, whitespace: bool): (r: nat)
    requires i <= |s|
    ensures r <= i
  {
    if i > 0 && IsWhitespace(s[i - 1]) == whitespace then SkipBack(s, i - 1, whitespace) else i
  }

  function WordStart(s: string, cursor: nat): (r: nat)
    requires cursor <= |s|
    ensures r <= cursor
  {
    SkipBack(s, SkipBack(s, cursor, true), false)
  }

  lemma {:induction false} SkipBackStops(s: string, i: nat, whitespace: bool)
    requires i <= |s|
    ensures var r := SkipBack(s, i, whitespace);
            && (forall k :: r <= k < i ==> IsWhitespace(s[k]) == whitespace)
            && (r > 0 ==> IsWhitespace(s[r - 1]) != whitespace)
  {
    if i > 0 && IsWhitespace(s[i - 1]) == whitespace {
      SkipBackStops(s, i - 1, whitespace);
    }
  }

  /** With something before the cursor, Ctrl-W always has something to kill. */
  lemma WordStartMoves(s: string, cursor: nat)
    requires 0 < cursor <= |s|
    ensures WordStart(s, cursor) < cursor
  {
    SkipBackStops(s, cursor, true);
  }

  function KillWord(line: string, cursor: nat): (string, nat)
    requires cursor <= |line|
  {
    var i := WordStart(line, cursor);
    (line[..i] + line[cursor..], i)
  }

  /** The shadow line and cursor after a key. */
  function EditLine(line: string, cursor: nat, key: Keys.Key): (r: (string, nat))
    requires cursor <= |line|
    ensures r.1 <= |r.0|
  {
    match key.code
    case Char(c) =>
      if key.mods.ctrl then
        var l := Keys.ToAsciiLower(c);
        if l == 'a' then (line, 0)
        else if l == 'e' then (line, |line|)
        else if l == 'u' || l == 'c' || l == 'd' then ([], 0)
        else if l == 'k' then (line[..cursor], cursor)
        else if l == 'w' then KillWord(line, cursor)
        else (line, cursor)
      else
        (line[..cursor] + [c] + line[cursor..], cursor + 1)
    case Backspace => if cursor > 0 then (line[..cursor - 1] + line[cursor..], cursor - 1) else (line, cursor)
    case Enter | Up | Down | PageUp | PageDown => ([], 0)
    case Left => (line, if cursor > 0 then cursor - 1 else cursor)
    case Right => (line, if cursor < |line| then cursor + 1 else cursor)
    case Home => (line, 0)
    case End => (line, |line|)
    case _ => (line, cursor)
  }

  /** Does the key end the credit an accepted suggestion has for the line? */
  predicate ClearsAccepted(cursor: nat, key: Keys.Key) {
    match key.code
    case Char(c) =>
      (!key.mods.ctrl
       || Keys.ToAsciiLower(c) in ['u', 'k', 'c', 'd']
       || (Keys.ToAsciiLower(c) == 'w' && cursor > 0))
    case Backspace => cursor > 0
    case Enter | Up | Down | PageUp | PageDown => true
    case _ => false
  }

  /** Does the handler of the key drop the suggestion? */
  predicate DropsSuggestion(key: Keys.Key) {
    match key.code
    case Char(c) => key.mods.ctrl && Keys.ToAsciiLower(c) in ['c', 'd']
    case Enter | Tab | BackTab | Up | Down | PageUp | PageDown => true
    case _ => false
  }

  /** Does the handler of the key look up a new suggestion? */
  predicate Refreshes(key: Keys.Key) {
    key.code.Char? || key.code.Backspace?
  }

  function AfterEnterFlag(flag: bool, key: Keys.Key): bool {
    match key.code
    case Enter => true
    case Char(c) => flag && !(key.mods.ctrl && Keys.ToAsciiLower(c) in ['c', 'd'])
    case Up | Down | PageUp | PageDown => false
    case _ => flag
  }

  /** The cached suggestion for `line`, given the command that the history offered. */
  function Completion(line: string, answer: Option<string>): Option<string> {
    if line != [] && answer.Some? && History.Survives(line, answer.value)
    then Some(answer.value[|line|..])
    else None
  }

  function Refresh(a: AppState, answer: Option<string>): AppState {
    a.(suggestion := Completion(a.line, answer))
  }

  /** What a key does before any new suggestion is looked up. */
  function Edited(a: AppState, key: Keys.Key): AppState
    requires a.cursor <= |a.line|
  {
    var (line, cursor) := EditLine(a.line, a.cursor, key);
    a.(line := line, cursor := cursor,
       suggestion := if DropsSuggestion(key) then None else a.suggestion,
       accepted := a.accepted && !ClearsAccepted(a.cursor, key),
       afterEnter := AfterEnterFlag(a.afterEnter, key))
  }

  function ApplyToShadow(a: AppState, key: Keys.Key, answer: Option<string>): AppState
    requires a.cursor <= |a.line|
  {
    if Refreshes(key) then Refresh(Edited(a, key), answer) else Edited(a, key)
  }

  /** Keys that the client keeps for itself. */
  function Captured(key: Keys.Key): Option<Action> {
    if !key.code.Char? || !key.mods.ctrl then None
    else if key.code.c == 'q' then Some(Quit)
    else if key.mods.shift && key.code.c in ['m', 'M'] then Some(ToggleMouseCapture)
    else if key.mods.shift && key.code.c in ['c', 'C'] then Some(CopyToClipboard)
    else None
  }

  /** Does this key accept the suggestion? */
  predicate Accepts(a: AppState, key: Keys.Key) {
    key == Keys.Key(Keys.Right, Keys.NONE) && a.suggestion.Some? && a.cursor == |a.line|
  }

  function Accept(a: AppState, answer: Option<string>): AppState
    requires a.suggestion.Some?
  {
    var line := a.line + a.suggestion.value;
    Refresh(a.(line := line, cursor := |line|, accepted := true), answer)
  }

  function OnKey(a: AppState, key: Keys.Key, answer: Option<string>): (AppState, Action)
    requires a.cursor <= |a.line|
  {
    if Captured(key).Some? then (a, Captured(key).value)
    else if Accepts(a, key) then (Accept(a, answer), Send(Utf8.Encode(a.suggestion.value)))
    else
      var bytes := Keys.Encode(key, a.vt.appCursor);
      if bytes == [] then (a, NoAction) else (ApplyToShadow(a, key, answer), Send(bytes))
  }

  /** The row that Enter asks the history to record. */
  function EntryOf(a: AppState): History.Row {
    History.Row(0, a.host, a.user, a.cwd, a.line, 0, None, None,
                if a.accepted then History.SuggestHistory else History.User)
  }

  /** The history after a key; `stamp` is the time of a successful insertion, `None` if it failed. */
  function RowsAfterKey(a: AppState, rows: seq<History.Row>, key: Keys.Key, stamp: Option<nat>): seq<History.Row> {
    if key.code.Enter? && a.line != [] && stamp.Some?
    then rows + [History.Stored(EntryOf(a), stamp, |rows| + 1)]
    else rows
  }

  /** What the surroundings decide about one event: the clock, and whether SQLite refuses. */
  datatype Env = Env(now: Option<nat>, insertFails: bool, queryMayFail: bool)

  /** The time at which an insertion succeeds. */
  function InsertedAt(env: Env): Option<nat> {
    if env.insertFails then None else env.now
  }

  /** Does the key make the client ask the history for a suggestion? */
  predicate Asks(a: AppState, key: Keys.Key) {
    Captured(key).None? && (Accepts(a, key) || Refreshes(key))
  }

  /** The command is one that the history may offer for this line. */
  ghost predicate IsOffered(rows: seq<History.Row>, host: string, cwd: Option<string>, line: string, command: string) {
    exists s: History.Suggestion ::
      s.command == command && History.IsAnswer(rows, History.Context(host, cwd, line), Some(s))
  }

  /** What comes back from asking: an offer, or nothing if there is nothing to offer or the query failed. */
  ghost predicate IsReply(rows: seq<History.Row>, a: AppState, answer: Option<string>, mayFail: bool) {
    match answer
    case Some(command) => IsOffered(rows, a.host, a.cwd, a.line, command)
    case None => mayFail || History.IsAnswer(rows, History.Context(a.host, a.cwd, a.line), None)
  }

  // ---- session events ---------------------------------------------------------------------------

  function OnOsc(a: AppState, event: Osc.OscEvent): AppState {
    match event
    case PromptStart => a
    case PromptEnd => a.(promptPos := Some((a.vt.column, a.vt.row)), line := [], cursor := 0, suggestion := None)
    case CommandStart => a.(promptPos := None)
    case CommandEnd => a
    case Cwd(path) => a.(cwd := Some(path))
  }

  function OnOscs(a: AppState, events: seq<Osc.OscEvent>): AppState
    decreases events
  {
    if events == [] then a else OnOscs(OnOsc(a, events[0]), events[1..])
  }

  const NEWLINE: Byte := 0x0a

  function PromptHeuristic(a: AppState, bytes: seq<Byte>): AppState {
    if a.afterEnter && NEWLINE in bytes then
      a.(promptPos := if a.vt.column > 0 then Some((a.vt.column, a.vt.row)) else a.promptPos, afterEnter := false)
    else
      a
  }

  /** Bytes from the remote; `vt` is what the emulator shows once it has read them. */
  function OnOutput(a: AppState, bytes: seq<Byte>, vt: Vt): AppState {
    var (scan, events) := Osc.Run(Osc.PAYLOAD_CAP, a.scan, bytes);
    PromptHeuristic(OnOscs(a.(vt := vt, scan := scan, pendingOsc := []), a.pendingOsc + events), bytes)
  }

  function OnSessionEvent(a: AppState, event: SessionEvent, vt: Vt): AppState {
    match event
    case StateChanged(s) => a.(state := s)
    case Output(bytes) => OnOutput(a, bytes, vt)
    case Stderr(bytes) => OnOutput(a, bytes, vt)
    case ExitStatus(_) => a
    case Error(message) => a.(lastError := Some(message))
    case DriverClosed => a.(closed := true)
  }

  /** May the ghost text be drawn? */
  predicate CanShowSuggestion(a: AppState) {
    && a.suggestion.Some? && a.promptPos.Some?
    && !a.vt.altScreen
    && a.vt.row == a.promptPos.value.1
    && a.vt.column >= a.promptPos.value.0
    && |a.line| == a.vt.column - a.promptPos.value.0
  }
}
