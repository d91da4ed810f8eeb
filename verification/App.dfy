/**
 The client's application object, on Rust strings: the shadow line is UTF-8 and every edit goes through
 byte offsets. Each method is proved to do to the abstract state what the functions of AppSpec say; the
 preconditions of the string operations are the conditions under which the originals do not panic.
 */
module App {
  import opened Prelude
  import opened SessionEvents
  import opened AppSpec
  import Keys
  import Osc
  import H = History
  import Utf8

  /** The terminal: an emulator, seen through `vt`, beside the OSC scanner. */
  class Terminal {
    var vt: Vt
    const scanner: Osc.OscScanner
    var pendingOsc: seq<Osc.OscEvent>

    constructor (vt: Vt)
      ensures this.vt == vt && pendingOsc == [] && scanner.View() == Osc.INITIAL
      ensures fresh(scanner)
    {
      this.vt := vt;
      scanner := new Osc.OscScanner();
      pendingOsc := [];
    }

    /** `vt'` is what the emulator shows after the bytes. */
    method Feed(bytes: seq<Byte>, vt': Vt)
      modifies this, scanner
      ensures vt == vt'
      ensures scanner.View() == Osc.Run(Osc.PAYLOAD_CAP, old(scanner.View()), bytes).0
      ensures pendingOsc == old(pendingOsc) + Osc.Run(Osc.PAYLOAD_CAP, old(scanner.View()), bytes).1
    {
      pendingOsc := scanner.ScanBytes(bytes, pendingOsc);
      vt := vt';
    }

    method TakeOscEvents() returns (events: seq<Osc.OscEvent>)
      modifies this`pendingOsc
      ensures events == old(pendingOsc) && pendingOsc == []
    {
      events := pendingOsc;
      pendingOsc := [];
    }
  }

  method FindWordStart(chars: string, cursor: nat) returns (i: nat)
    requires cursor <= |chars|
    ensures i == WordStart(chars, cursor)
  {
    i := cursor;
    while i > 0 && IsWhitespace(chars[i - 1])
      invariant i <= cursor
      invariant SkipBack(chars, i, true) == SkipBack(chars, cursor, true)
    {
      i := i - 1;
    }
    while i > 0 && !IsWhitespace(chars[i - 1])
      invariant i <= cursor
      invariant SkipBack(chars, i, false) == WordStart(chars, cursor)
    {
      i := i - 1;
    }
  }

  class App {
    const host: string
    const user: string
    var state: SessionState
    const terminal: Terminal
    var closed: bool
    var lastError: Option<string>
    var shadowInput: seq<Byte>
    var shadowCursor: nat
    var suggestion: Option<seq<Byte>>
    var promptPos: Option<(nat, nat)>
    var cwd: Option<string>
    var lastActionWasSuggestion: bool
    var lastInputWasEnter: bool

    ghost predicate Valid()
      reads this
    {
      && Utf8.Decode(shadowInput).Some?
      && shadowCursor <= |Utf8.Chars(shadowInput)|
      && (suggestion.Some? ==> Utf8.Decode(suggestion.value).Some?)
    }

    /** The abstract state. */
    ghost function View(): AppState
      requires Valid()
      reads this, terminal, terminal.scanner
    {
      AppState(host, user, state, closed, lastError,
               Utf8.Chars(shadowInput), shadowCursor,
               if suggestion.Some? then Some(Utf8.Chars(suggestion.value)) else None,
               promptPos, cwd, lastActionWasSuggestion, lastInputWasEnter,
               terminal.vt, terminal.scanner.View(), terminal.pendingOsc)
    }

    constructor (host: string, user: string, vt: Vt)
      ensures Valid() && fresh(terminal) && fresh(terminal.scanner)
      ensures View() == NewApp(host, user, vt)
    {
      this.host := host;
      this.user := user;
      state := Connecting;
      terminal := new Terminal(vt);
      closed := false;
      lastError := None;
      shadowInput := [];
      shadowCursor := 0;
      suggestion := None;
      promptPos := None;
      cwd := None;
      lastActionWasSuggestion := false;
      lastInputWasEnter := false;
    }

    function CharToByte(charPos: nat): nat
      reads this
    {
      Utf8.ByteOffset(shadowInput, charPos)
    }

    method InsertChar(c: char)
      requires Valid()
      modifies this`shadowInput, this`shadowCursor, this`lastActionWasSuggestion
      ensures Valid()
      ensures View() == var (line, cursor) := (old(View()).line, old(View()).cursor);
                        old(View()).(line := line[..cursor] + [c] + line[cursor..], cursor := cursor + 1,
                                     accepted := false)
    {
      Utf8.InsertDecodes(shadowInput, shadowCursor, c);
      var byteIdx := CharToByte(shadowCursor);
      shadowInput := Utf8.InsertAt(shadowInput, byteIdx, c);
      shadowCursor := shadowCursor + 1;
      lastActionWasSuggestion := false;
    }

    method EraseBackward()
      requires Valid()
      modifies this`shadowInput, this`shadowCursor, this`lastActionWasSuggestion
      ensures Valid()
      ensures old(shadowCursor) == 0 ==> View() == old(View())
      ensures old(shadowCursor) > 0 ==>
        var line := old(View()).line;
        View() == old(View()).(line := line[..old(shadowCursor) - 1] + line[old(shadowCursor)..],
                               cursor := old(shadowCursor) - 1, accepted := false)
    {
      if shadowCursor > 0 {
        Utf8.RemoveDecodes(shadowInput, shadowCursor - 1);
        shadowCursor := shadowCursor - 1;
        var bi := CharToByte(shadowCursor);
        shadowInput := Utf8.RemoveAt(shadowInput, bi);
        lastActionWasSuggestion := false;
      }
    }

    method KillToEnd()
      requires Valid()
      modifies this`shadowInput, this`lastActionWasSuggestion
      ensures Valid()
      ensures View() == old(View()).(line := old(View()).line[..old(View()).cursor], accepted := false)
    {
      Utf8.TruncateDecodes(shadowInput, shadowCursor);
      var bi := CharToByte(shadowCursor);
      shadowInput := Utf8.TruncateAt(shadowInput, bi);
      lastActionWasSuggestion := false;
    }

    method KillWordBackward()
      requires Valid()
      modifies this`shadowInput, this`shadowCursor, this`lastActionWasSuggestion
      ensures Valid()
      ensures View() == var (line, cursor) := KillWord(old(View()).line, old(View()).cursor);
                        old(View()).(line := line, cursor := cursor,
                                     accepted := old(View()).accepted && old(View()).cursor == 0)
    {
      if shadowCursor == 0 {
        ghost var line := Utf8.Chars(shadowInput);
        assert line[..0] + line[0..] == line;
        return;
      }
      var chars := Utf8.Chars(shadowInput);
      var i := FindWordStart(chars, shadowCursor);
      WordStartMoves(chars, shadowCursor);
      if i == shadowCursor {
        return;
      }
      var newChars := chars[..i] + chars[shadowCursor..];
      Utf8.DecodeOfEncode(newChars);
      shadowInput := Utf8.Encode(newChars);
      shadowCursor := i;
      lastActionWasSuggestion := false;
    }

    method RefreshSuggestion(history: H.History, mayFail: bool) returns (ghost answer: Option<string>)
      requires Valid()
      modifies this`suggestion
      ensures Valid()
      ensures View() == Refresh(old(View()), answer)
      ensures IsReply(history.rows, old(View()), answer, mayFail)
    {
      answer := None;
      if shadowInput == [] {
        suggestion := None;
        return;
      }
      var prefix := Utf8.Chars(shadowInput);
      var reply := history.Suggest(H.Context(host, cwd, prefix), mayFail);
      if reply.Ok? && reply.value.Some? {
        var command := reply.value.value.command;
        answer := Some(command);
        var bytes := Utf8.Encode(command);
        Utf8.SliceDecodes(shadowInput, command);
        if shadowInput <= bytes && |bytes| > |shadowInput| {
          suggestion := Some(Utf8.SliceFrom(bytes, |shadowInput|));
        } else {
          suggestion := None;
        }
      } else {
        suggestion := None;
      }
    }

    method ClearLine()
      requires Valid()
      modifies this`shadowInput, this`shadowCursor
      ensures Valid()
      ensures View() == old(View()).(line := [], cursor := 0)
    {
      shadowInput := [];
      shadowCursor := 0;
    }

    method OnCtrlChar(c: char, ghost key: Keys.Key)
      requires Valid() && key.code == Keys.Char(c) && key.mods.ctrl
      modifies this
      ensures Valid()
      ensures View() == Edited(old(View()), key)
    {
      match Keys.ToAsciiLower(c) {
        case 'a' =>
          shadowCursor := 0;
        case 'e' =>
          shadowCursor := CountChars();
        case 'u' | 'k' | 'w' =>
          OnKillChar(c, key);
        case 'c' | 'd' =>
          Abort();
        case _ =>
      }
    }

    method OnKillChar(c: char, ghost key: Keys.Key)
      requires Valid() && key.code == Keys.Char(c) && key.mods.ctrl && Keys.ToAsciiLower(c) in ['u', 'k', 'w']
      modifies this`shadowInput, this`shadowCursor, this`lastActionWasSuggestion
      ensures Valid()
      ensures View() == Edited(old(View()), key)
    {
      match Keys.ToAsciiLower(c) {
        case 'u' =>
          ClearLine();
          lastActionWasSuggestion := false;
        case 'k' =>
          KillToEnd();
        case _ =>
          KillWordBackward();
      }
    }

    method CountChars() returns (n: nat)
      requires Valid()
      ensures n == |View().line|
    {
      Utf8.EncodeOfDecode(shadowInput);
      Utf8.CharCountOfEncode(Utf8.Chars(shadowInput));
      n := Utf8.CharCount(shadowInput);
    }

    /** The line is given up: Ctrl-C, Ctrl-D and the keys that recall history. */
    method Abort()
      requires Valid()
      modifies this
      ensures Valid()
      ensures View()
           == old(View()).(line := [], cursor := 0, suggestion := None, accepted := false, afterEnter := false)
    {
      ClearLine();
      suggestion := None;
      lastActionWasSuggestion := false;
      lastInputWasEnter := false;
    }

    method RecordLine(history: H.History, env: Env)
      requires Valid() && history.Valid()
      modifies history
      ensures Valid() && history.Valid() && View() == old(View())
      ensures history.rows
           == RowsAfterKey(old(View()), old(history.rows), Keys.Key(Keys.Enter, Keys.NONE), InsertedAt(env))
    {
      if shadowInput != [] {
        var source := if lastActionWasSuggestion then H.SuggestHistory else H.User;
        var entry := H.Row(0, host, user, cwd, Utf8.Chars(shadowInput), 0, None, None, source);
        var _ := history.Record(entry, env.now, env.insertFails);
      }
    }

    method Submit(history: H.History, env: Env)
      requires Valid() && history.Valid()
      modifies this, history
      ensures Valid() && history.Valid()
      ensures View() == old(View()).(line := [], cursor := 0, suggestion := None, accepted := false, afterEnter := true)
      ensures history.rows
           == RowsAfterKey(old(View()), old(history.rows), Keys.Key(Keys.Enter, Keys.NONE), InsertedAt(env))
    {
      RecordLine(history, env);
      ClearLine();
      suggestion := None;
      lastActionWasSuggestion := false;
      lastInputWasEnter := true;
    }

    method MoveCursor(key: Keys.Key)
      requires Valid() && (key.code.Left? || key.code.Right? || key.code.Home? || key.code.End?)
      modifies this`shadowCursor
      ensures Valid()
      ensures View() == Edited(old(View()), key)
    {
      var length := CountChars();
      match key.code
      case Left =>
        if shadowCursor > 0 {
          shadowCursor := shadowCursor - 1;
        }
      case Right =>
        if shadowCursor < length {
          shadowCursor := shadowCursor + 1;
        }
      case Home =>
        shadowCursor := 0;
      case End =>
        shadowCursor := length;
    }

    /** Characters and Backspace: edit, then look for a new suggestion. */
    method EditAndRefresh(key: Keys.Key, history: H.History, mayFail: bool) returns (ghost answer: Option<string>)
      requires Valid() && Refreshes(key)
      modifies this
      ensures Valid()
      ensures View() == AppSpec.ApplyToShadow(old(View()), key, answer)
      ensures IsReply(history.rows, View(), answer, mayFail)
    {
      if key.code.Backspace? {
        EraseBackward();
      } else if key.mods.ctrl {
        OnCtrlChar(key.code.c, key);
      } else {
        InsertChar(key.code.c);
      }
      assert View() == Edited(old(View()), key);
      answer := RefreshSuggestion(history, mayFail);
    }

    /** Keys that neither edit the line nor submit it. */
    method OnPlainKey(key: Keys.Key)
      requires Valid() && !Refreshes(key) && !key.code.Enter?
      modifies this
      ensures Valid()
      ensures View() == Edited(old(View()), key)
    {
      match key.code {
        case Tab | BackTab =>
          suggestion := None;
        case Up | Down | PageUp | PageDown =>
          Abort();
        case Left | Right | Home | End =>
          MoveCursor(key);
        case _ =>
      }
    }

    /** Mirrors in the shadow line what the remote editor is expected to do with `key`. */
    method ApplyToShadow(key: Keys.Key, history: H.History, env: Env) returns (ghost answer: Option<string>)
      requires Valid() && history.Valid()
      modifies this, history
      ensures Valid() && history.Valid()
      ensures View() == AppSpec.ApplyToShadow(old(View()), key, answer)
      ensures history.rows == RowsAfterKey(old(View()), old(history.rows), key, InsertedAt(env))
      ensures if Refreshes(key) then IsReply(old(history.rows), View(), answer, env.queryMayFail) else answer.None?
    {
      answer := None;
      match key.code {
        case Char(_) | Backspace =>
          answer := EditAndRefresh(key, history, env.queryMayFail);
        case Enter =>
          Submit(history, env);
        case _ =>
          OnPlainKey(key);
      }
    }

    method OnKey(key: Keys.Key, history: H.History, env: Env) returns (action: Action, ghost answer: Option<string>)
      requires Valid() && history.Valid()
      modifies this, history
      ensures Valid() && history.Valid()
      ensures (View(), action) == AppSpec.OnKey(old(View()), key, answer)
      ensures history.rows == RowsAfterKey(old(View()), old(history.rows), key, InsertedAt(env))
      ensures if Asks(old(View()), key) then IsReply(old(history.rows), View(), answer, env.queryMayFail)
              else answer.None?
    {
      answer := None;
      if key.code.Char? && key.mods.ctrl {
        if key.code.c == 'q' {
          return Quit, None;
        }
        if key.mods.shift && (key.code.c == 'm' || key.code.c == 'M') {
          return ToggleMouseCapture, None;
        }
        if key.mods.shift && (key.code.c == 'c' || key.code.c == 'C') {
          return CopyToClipboard, None;
        }
      }
      var length := CountChars();
      if key == Keys.Key(Keys.Right, Keys.NONE) && suggestion.Some? && shadowCursor == length {
        var rest := suggestion.value;
        answer := AcceptSuggestion(history, env.queryMayFail);
        return Send(rest), answer;
      }
      var bytes := Keys.Encode(key, terminal.vt.appCursor);
      if bytes == [] {
        return NoAction, None;
      }
      answer := ApplyToShadow(key, history, env);
      return Send(bytes), answer;
    }

    method AcceptSuggestion(history: H.History, mayFail: bool) returns (ghost answer: Option<string>)
      requires Valid() && suggestion.Some?
      modifies this
      ensures Valid()
      ensures View() == Accept(old(View()), answer)
      ensures IsReply(history.rows, View(), answer, mayFail)
      ensures Utf8.Encode(old(View()).suggestion.value) == old(suggestion.value)
    {
      ghost var line := Utf8.Chars(shadowInput);
      Utf8.EncodeOfDecode(shadowInput);
      Utf8.EncodeOfDecode(suggestion.value);
      var rest := suggestion.value;
      suggestion := None;
      Utf8.EncodeConcat(line, Utf8.Chars(rest));
      Utf8.DecodeOfEncode(line + Utf8.Chars(rest));
      shadowInput := shadowInput + rest;
      shadowCursor := 0;
      shadowCursor := CountChars();
      lastActionWasSuggestion := true;
      answer := RefreshSuggestion(history, mayFail);
    }

    method CanShow() returns (show: bool)
      requires Valid()
      ensures show == CanShowSuggestion(View())
    {
      if suggestion.None? || promptPos.None? {
        return false;
      }
      var (promptCol, promptRow) := promptPos.value;
      if terminal.vt.altScreen || terminal.vt.row != promptRow || terminal.vt.column < promptCol {
        return false;
      }
      var typedLen := CountChars();
      return typedLen == terminal.vt.column - promptCol;
    }

    method OnOscEvent(event: Osc.OscEvent)
      requires Valid()
      modifies this
      ensures Valid()
      ensures View() == OnOsc(old(View()), event)
    {
      match event
      case PromptStart =>
      case PromptEnd =>
        promptPos := Some((terminal.vt.column, terminal.vt.row));
        ClearLine();
        suggestion := None;
      case CommandStart =>
        promptPos := None;
      case CommandEnd =>
      case Cwd(path) =>
        cwd := Some(path);
    }

    method HandlePromptHeuristic(bytes: seq<Byte>)
      requires Valid()
      modifies this`promptPos, this`lastInputWasEnter
      ensures Valid()
      ensures View() == PromptHeuristic(old(View()), bytes)
    {
      if !lastInputWasEnter || NEWLINE !in bytes {
        return;
      }
      if terminal.vt.column > 0 {
        promptPos := Some((terminal.vt.column, terminal.vt.row));
      }
      lastInputWasEnter := false;
    }

    method OnBytes(bytes: seq<Byte>, vt: Vt)
      requires Valid()
      modifies this, terminal, terminal.scanner
      ensures Valid()
      ensures View() == OnOutput(old(View()), bytes, vt)
    {
      terminal.Feed(bytes, vt);
      var events := terminal.TakeOscEvents();
      ghost var drained := View();
      assert events[0..] == events;
      for i := 0 to |events|
        invariant Valid()
        invariant OnOscs(View(), events[i..]) == OnOscs(drained, events)
      {
        assert events[i..][1..] == events[i + 1..];
        OnOscEvent(events[i]);
      }
      assert events[|events|..] == [];
      HandlePromptHeuristic(bytes);
    }

    method OnSessionEvent(event: SessionEvent, vt: Vt)
      requires Valid()
      modifies this, terminal, terminal.scanner
      ensures Valid()
      ensures View() == AppSpec.OnSessionEvent(old(View()), event, vt)
    {
      match event
      case StateChanged(s) =>
        state := s;
      case Output(bytes) =>
        OnBytes(bytes, vt);
      case Stderr(bytes) =>
        OnBytes(bytes, vt);
      case ExitStatus(_) =>
      case Error(message) =>
        lastError := Some(message);
      case DriverClosed =>
        closed := true;
    }
  }
}
