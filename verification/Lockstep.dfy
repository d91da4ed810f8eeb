/**
 Lockstep: on which lines, and for which keys on every line, the shadow follows a line editor that reads the
 bytes sent for them.
 */
module Lockstep {
  import opened Prelude
  import opened AppSpec
  import opened LineEditor
  import Decimal
  import Keys
  import Mouse
  import Utf8
  import WordKill

  /** The editor has read whole keys and shows the given line and cursor. */
  ghost predicate Shows(ed: Editor, line: string, cursor: nat) {
    ed.pending.Ground? && line == ed.before + ed.after && cursor == |ed.before|
  }

  /** From this line, the shadow and an editor reading the key's bytes end up alike. */
  ghost predicate Tracks(key: Keys.Key, appCursor: bool, before: string, after: string) {
    var (line, cursor) := EditLine(before + after, |before|, key);
    Shows(FeedAll(Editor(before, after, Ground), Keys.Encode(key, appCursor)), line, cursor)
  }

  // ---- what the editor does with a key ----------------------------------------------------------

  /** The byte after ESC in the code of a character typed with Alt. */
  function MetaByte(key: Keys.Key): Byte
    requires key.code.Char?
  {
    if key.mods.ctrl && Keys.CtrlByte(key.code.c).Some? then Keys.CtrlByte(key.code.c).value
    else Utf8.EncodeChar(key.code.c)[0]
  }

  /** The command that the editor carries out for a key. */
  function CommandOf(key: Keys.Key): Command {
    match key.code
    case Char(c) =>
      if key.mods.alt then MetaCommand(MetaByte(key))
      else if key.mods.ctrl && Keys.CtrlByte(c).Some? then ControlCommand(Keys.CtrlByte(c).value)
      else if IsPrintable(c) then Type(c)
      else ControlCommand(c as int)
    case Enter => KillLine
    case Tab => Await(Untracked)
    case Backspace => EraseLeft
    case Esc => Await(Escape)
    case Left => MoveLeft
    case Right => MoveRight
    case Up | Down | Insert | PageUp | PageDown => Await(Untracked)
    case Home => MoveHome
    case End => MoveEnd
    case Delete => EraseRight
    case BackTab | F(_) | Untranslated => Nothing
  }

  lemma {:induction false} FeedInert(ed: Editor, bytes: seq<Byte>)
    requires ed.pending.Ground?
    requires forall i :: 0 <= i < |bytes| ==> Utf8.IsContinuation(bytes[i])
    ensures FeedAll(ed, bytes) == ed
    decreases bytes
  {
    if bytes != [] {
      FeedInert(ed, bytes[1..]);
    }
  }

  lemma FeedNothing(ed: Editor)
    ensures FeedAll(ed, []) == ed
  {
  }

  lemma FeedMetaByte(ed: Editor, b: Byte)
    requires ed.pending.Ground?
    ensures Feed(ed.(pending := Escape), b) == Perform(ed, MetaCommand(b))
  {
    assert ed.(pending := Escape).(pending := Ground) == ed;
  }

  lemma FeedMetaTwo(ed: Editor, b: Byte)
    requires ed.pending.Ground?
    ensures FeedAll(ed, [Keys.ESC, b]) == Perform(ed, MetaCommand(b))
  {
    FeedEscape(ed);
    FeedTwo(ed, Keys.ESC, b);
    FeedMetaByte(ed, b);
  }

  lemma FeedEscape(ed: Editor)
    requires ed.pending.Ground?
    ensures Feed(ed, Keys.ESC) == ed.(pending := Escape)
  {
  }

  lemma WideMetaIgnored(ed: Editor, b: Byte)
    requires b >= 0x80
    ensures MetaCommand(b) == Nothing && Perform(ed, MetaCommand(b)) == ed
  {
  }

  /** `ESC` and one character: the editor reads a Meta key. */
  lemma FeedMeta(ed: Editor, bytes: seq<Byte>)
    requires ed.pending.Ground? && bytes != []
    requires forall i :: 1 <= i < |bytes| ==> Utf8.IsContinuation(bytes[i])
    requires |bytes| == 1 || bytes[0] >= 0x80
    ensures FeedAll(ed, [Keys.ESC] + bytes) == Perform(ed, MetaCommand(bytes[0]))
  {
    var b, rest := bytes[0], bytes[1..];
    FeedMetaTwo(ed, b);
    if |bytes| == 1 {
      assert [Keys.ESC] + bytes == [Keys.ESC, b];
    } else {
      assert [Keys.ESC] + bytes == [Keys.ESC, b] + rest;
      FeedAllConcat(ed, [Keys.ESC, b], rest);
      WideMetaIgnored(ed, b);
      FeedInert(ed, rest);
    }
  }

  lemma {:induction false} FeedParameters(ed: Editor, read: seq<Byte>, more: seq<Byte>)
    requires ed.pending == Csi(read) && forall i :: 0 <= i < |more| ==> 0x20 <= more[i] < 0x40
    ensures FeedAll(ed, more) == ed.(pending := Csi(read + more))
    decreases more
  {
    if more == [] {
      assert read + more == read;
    } else {
      FeedParameters(ed.(pending := Csi(read + [more[0]])), read + [more[0]], more[1..]);
      assert read + [more[0]] + more[1..] == read + more;
    }
  }

  lemma FeedCsiStart(ed: Editor)
    requires ed.pending.Ground?
    ensures FeedAll(ed, [Keys.ESC, 0x5b]) == ed.(pending := Csi([]))
  {
    FeedMetaTwo(ed, 0x5b);
  }

  lemma FeedCsiFinal(ed: Editor, parameters: seq<Byte>, final: Byte)
    requires ed.pending.Ground? && 0x40 <= final
    ensures FeedAll(ed.(pending := Csi(parameters)), [final]) == Perform(ed, SequenceCommand(parameters, final))
  {
    FeedOne(ed.(pending := Csi(parameters)), final);
    assert ed.(pending := Csi(parameters)).(pending := Ground) == ed;
  }

  /** A whole CSI sequence does what its command says. */
  lemma FeedCsi(ed: Editor, parameters: seq<Byte>, final: Byte)
    requires ed.pending.Ground? && forall i :: 0 <= i < |parameters| ==> 0x20 <= parameters[i] < 0x40
    requires 0x40 <= final
    ensures FeedAll(ed, [Keys.ESC, 0x5b] + parameters + [final]) == Perform(ed, SequenceCommand(parameters, final))
  {
    FeedCsiStart(ed);
    FeedAllConcat(ed, [Keys.ESC, 0x5b], parameters);
    FeedParameters(ed.(pending := Csi([])), [], parameters);
    assert [] + parameters == parameters;
    FeedAllConcat(ed, [Keys.ESC, 0x5b] + parameters, [final]);
    FeedCsiFinal(ed, parameters, final);
  }

  lemma FeedSequence(ed: Editor, bytes: seq<Byte>, parameters: seq<Byte>, final: Byte, command: Command)
    requires ed.pending.Ground? && forall i :: 0 <= i < |parameters| ==> 0x20 <= parameters[i] < 0x40
    requires 0x40 <= final && bytes == [Keys.ESC, 0x5b] + parameters + [final]
    requires SequenceCommand(parameters, final) == command
    ensures FeedAll(ed, bytes) == Perform(ed, command)
  {
    FeedCsi(ed, parameters, final);
  }

  lemma FeedSs3(ed: Editor, final: Byte)
    requires ed.pending.Ground?
    ensures FeedAll(ed, [Keys.ESC, 0x4f, final]) == Perform(ed, SequenceCommand([], final))
  {
    FeedMetaTwo(ed, 0x4f);
    FeedAllConcat(ed, [Keys.ESC, 0x4f], [final]);
    FeedOne(ed.(pending := Ss3), final);
    assert [Keys.ESC, 0x4f] + [final] == [Keys.ESC, 0x4f, final];
    assert ed.(pending := Ss3).(pending := Ground) == ed;
  }

  lemma FeedArrow(ed: Editor, letter: Byte, appCursor: bool)
    requires ed.pending.Ground? && 0x40 <= letter
    ensures FeedAll(ed, Keys.Arrow(letter, appCursor)) == Perform(ed, SequenceCommand([], letter))
  {
    if appCursor {
      FeedSs3(ed, letter);
    } else {
      FeedCsi(ed, [], letter);
      assert [Keys.ESC, 0x5b] + [] + [letter] == [Keys.ESC, 0x5b, letter];
    }
  }

  lemma FeedTilde(ed: Editor, digits: seq<Byte>)
    requires ed.pending.Ground? && forall i :: 0 <= i < |digits| ==> 0x20 <= digits[i] < 0x40
    ensures FeedAll(ed, Keys.Tilde(digits)) == Perform(ed, SequenceCommand(digits, 0x7e))
  {
    FeedCsi(ed, digits, 0x7e);
  }

  lemma UpperFunctionKeys(n: Byte)
    requires 5 <= n <= 12
    ensures |Keys.FKey(n)| == 5 && Keys.FKey(n) == Keys.Tilde([Keys.FKey(n)[2], Keys.FKey(n)[3]])
    ensures 0x30 <= Keys.FKey(n)[2] <= 0x39 && 0x30 <= Keys.FKey(n)[3] <= 0x39
  {
  }

  lemma FeedFunctionKey(ed: Editor, n: Byte)
    requires ed.pending.Ground?
    ensures FeedAll(ed, Keys.FKey(n)) == ed
  {
    if 1 <= n <= 4 {
      FeedSs3(ed, 0x4f + n);
    } else if 5 <= n <= 12 {
      UpperFunctionKeys(n);
      var digits := [Keys.FKey(n)[2], Keys.FKey(n)[3]];
      FeedTilde(ed, digits);
      assert SequenceCommand(digits, 0x7e) == Nothing;
    } else {
      FeedNothing(ed);
    }
  }

  lemma FeedChar(ed: Editor, key: Keys.Key, appCursor: bool)
    requires ed.pending.Ground? && key.code.Char?
    ensures FeedAll(ed, Keys.Encode(key, appCursor)) == Perform(ed, CommandOf(key))
  {
    var c := key.code.c;
    if key.mods.alt {
      var bytes := Keys.Encode(key, appCursor)[1..];
      Utf8.EncodeCharShape(c);
      FeedMeta(ed, bytes);
      assert Keys.Encode(key, appCursor) == [Keys.ESC] + bytes;
    } else if key.mods.ctrl && Keys.CtrlByte(c).Some? {
      FeedControl(ed, Keys.CtrlByte(c).value);
    } else if IsPrintable(c) {
      FeedPrintable(ed, c);
    } else {
      FeedControl(ed, c as int);
    }
  }

  lemma FeedControl(ed: Editor, b: Byte)
    requires ed.pending.Ground? && (b < 0x20 || b == 0x7f)
    ensures FeedAll(ed, [b]) == Perform(ed, ControlCommand(b))
  {
    FeedOne(ed, b);
  }

  predicate IsControlKey(code: Keys.KeyCode) {
    code.Enter? || code.Tab? || code.Backspace? || code.Esc?
  }

  function ControlCode(code: Keys.KeyCode): Byte
    requires IsControlKey(code)
  {
    match code
    case Enter => 0x0d
    case Tab => 0x09
    case Backspace => 0x7f
    case Esc => 0x1b
  }

  lemma ControlKeyCodes(key: Keys.Key, appCursor: bool)
    requires IsControlKey(key.code)
    ensures Keys.Encode(key, appCursor) == [ControlCode(key.code)]
    ensures CommandOf(key) == ControlCommand(ControlCode(key.code))
  {
  }

  lemma FeedControlKey(ed: Editor, key: Keys.Key, appCursor: bool)
    requires ed.pending.Ground? && IsControlKey(key.code)
    ensures FeedAll(ed, Keys.Encode(key, appCursor)) == Perform(ed, CommandOf(key))
  {
    ControlKeyCodes(key, appCursor);
    FeedControl(ed, ControlCode(key.code));
  }

  predicate IsCursorKey(code: Keys.KeyCode) {
    code.Left? || code.Right? || code.Up? || code.Down? || code.Home? || code.End?
  }

  lemma FeedCursorKey(ed: Editor, key: Keys.Key, appCursor: bool)
    requires ed.pending.Ground? && IsCursorKey(key.code)
    ensures FeedAll(ed, Keys.Encode(key, appCursor)) == Perform(ed, CommandOf(key))
  {
    var letter := Keys.Encode(key, appCursor)[2];
    FeedArrow(ed, letter, appCursor);
    assert SequenceCommand([], letter) == CommandOf(key);
  }

  predicate IsPadKey(code: Keys.KeyCode) {
    code.Insert? || code.Delete? || code.PageUp? || code.PageDown?
  }

  lemma FeedPadKey(ed: Editor, key: Keys.Key, appCursor: bool)
    requires ed.pending.Ground? && IsPadKey(key.code)
    ensures FeedAll(ed, Keys.Encode(key, appCursor)) == Perform(ed, CommandOf(key))
  {
    var digit := Keys.Encode(key, appCursor)[2];
    FeedTilde(ed, [digit]);
    assert SequenceCommand([digit], 0x7e) == CommandOf(key);
  }

  /** Reading the code of a key, in either cursor mode, is carrying out its command. */
  lemma FeedKey(ed: Editor, key: Keys.Key, appCursor: bool)
    requires ed.pending.Ground?
    ensures FeedAll(ed, Keys.Encode(key, appCursor)) == Perform(ed, CommandOf(key))
  {
    match key.code
    case Char(_) =>
      FeedChar(ed, key, appCursor);
    case Enter | Tab | Backspace | Esc =>
      FeedControlKey(ed, key, appCursor);
    case Left | Right | Up | Down | Home | End =>
      FeedCursorKey(ed, key, appCursor);
    case Insert | Delete | PageUp | PageDown =>
      FeedPadKey(ed, key, appCursor);
    case BackTab =>
      FeedArrow(ed, 0x5a, false);
    case F(n) =>
      FeedFunctionKey(ed, n);
    case Untranslated =>
      FeedNothing(ed);
  }

  // ---- what the shadow does with a key ----------------------------------------------------------

  predicate KillsWord(key: Keys.Key) {
    key.code.Char? && key.mods.ctrl && Keys.ToAsciiLower(key.code.c) == 'w'
  }

  /** The command that comes to the same as the shadow's edit, for all keys but Ctrl-W. */
  function ShadowCommand(key: Keys.Key): Command {
    match key.code
    case Char(c) =>
      if key.mods.ctrl then
        var l := Keys.ToAsciiLower(c);
        if l == 'a' then MoveHome
        else if l == 'e' then MoveEnd
        else if l in ['u', 'c', 'd'] then KillLine
        else if l == 'k' then KillToEnd
        else Nothing
      else
        Type(c)
    case Backspace => EraseLeft
    case Enter | Up | Down | PageUp | PageDown => KillLine
    case Left => MoveLeft
    case Right => MoveRight
    case Home => MoveHome
    case End => MoveEnd
    case _ => Nothing
  }

  lemma SplitLine(before: string, after: string)
    ensures (before + after)[..|before|] == before && (before + after)[|before|..] == after
  {
  }

  lemma MoveLeftShows(before: string, after: string)
    requires before != []
    ensures Shows(Perform(Editor(before, after, Ground), MoveLeft), before + after, |before| - 1)
  {
    assert before == before[..|before| - 1] + [before[|before| - 1]];
  }

  lemma MoveRightShows(before: string, after: string)
    requires after != []
    ensures Shows(Perform(Editor(before, after, Ground), MoveRight), before + after, |before| + 1)
  {
    assert after == [after[0]] + after[1..];
  }

  lemma EraseLeftShows(before: string, after: string)
    requires before != []
    ensures var line := before + after;
            Shows(Perform(Editor(before, after, Ground), EraseLeft),
                  line[..|before| - 1] + line[|before|..], |before| - 1)
  {
    var line := before + after;
    assert line[..|before| - 1] == before[..|before| - 1];
    SplitLine(before, after);
  }

  lemma CharIsPerform(key: Keys.Key, before: string, after: string)
    requires !KillsWord(key) && key.code.Char?
    ensures var (line, cursor) := EditLine(before + after, |before|, key);
            Shows(Perform(Editor(before, after, Ground), ShadowCommand(key)), line, cursor)
  {
    SplitLine(before, after);
    if key.mods.ctrl {
      assert before + [] == before;
    }
  }

  /** The shadow's edit and its command show the same. */
  lemma EditIsPerform(key: Keys.Key, before: string, after: string)
    requires !KillsWord(key)
    ensures var (line, cursor) := EditLine(before + after, |before|, key);
            Shows(Perform(Editor(before, after, Ground), ShadowCommand(key)), line, cursor)
  {
    match key.code
    case Char(_) =>
      CharIsPerform(key, before, after);
    case Left =>
      if before != [] {
        MoveLeftShows(before, after);
      }
    case Right =>
      if after != [] {
        MoveRightShows(before, after);
      }
    case Backspace =>
      if before != [] {
        EraseLeftShows(before, after);
      }
    case _ =>
  }

  // ---- when the two agree -----------------------------------------------------------------------

  /** Does the command leave text and cursor as they are? */
  predicate Leaves(command: Command, before: string, after: string) {
    var n := |before|;
    match command
    case Nothing => true
    case MoveHome | MoveLeft | EraseLeft | EraseWord | EraseLetters | KillToStart => before == []
    case MoveEnd | MoveRight | EraseRight | KillToEnd => after == []
    case KillLine => before == [] && after == []
    case EraseBlanks =>
      (n > 0 ==> !IsBlank(before[n - 1])) && (after != [] ==> !IsBlank(after[0]))
    case TransposeChars => n == 0 || (after == [] && (n == 1 || before[n - 1] == before[n - 2]))
    case Insert(text) => text == []
    case Await(next) => next.Ground?
    case Type(_) | Find(_, _) => false
  }

  lemma TrimmedTwice(s: string, first: char -> bool, second: char -> bool)
    requires forall c :: first(c) || second(c)
    ensures TrimEnd(TrimEnd(s, first), second) == s <==> s == []
  {
    if s != [] {
      assert first(s[|s| - 1]) || second(s[|s| - 1]);
    }
  }

  lemma WordErasersLeave(before: string, after: string)
    ensures Shows(Perform(Editor(before, after, Ground), EraseWord), before + after, |before|) <==> before == []
    ensures Shows(Perform(Editor(before, after, Ground), EraseLetters), before + after, |before|) <==> before == []
  {
    TrimmedTwice(before, Blanks(true), Blanks(false));
    TrimmedTwice(before, WordChars(false), WordChars(true));
  }

  lemma EraseBlanksLeaves(before: string, after: string)
    ensures Shows(Perform(Editor(before, after, Ground), EraseBlanks), before + after, |before|)
       <==> Leaves(EraseBlanks, before, after)
  {
    var b, a := TrimEnd(before, Blanks(true)), TrimStart(after, Blanks(true));
    if |b| == |before| && b + a == before + after {
      assert (b + a)[|b|..] == a && (before + after)[|before|..] == after;
    }
    TrimStartShorter(after, Blanks(true));
  }

  lemma {:induction false} TrimStartShorter(s: string, belongs: char -> bool)
    ensures |TrimStart(s, belongs)| <= |s|
    ensures |TrimStart(s, belongs)| == |s| <==> s == [] || !belongs(s[0])
  {
    if s != [] && belongs(s[0]) {
      TrimStartShorter(s[1..], belongs);
    }
  }

  lemma TransposeLeaves(before: string, after: string)
    ensures Shows(Perform(Editor(before, after, Ground), TransposeChars), before + after, |before|)
       <==> Leaves(TransposeChars, before, after)
  {
    var n := |before|;
    if n >= 2 && after == [] {
      var swapped := before[..n - 2] + [before[n - 1], before[n - 2]];
      assert before == before[..n - 2] + [before[n - 2], before[n - 1]];
      assert swapped[n - 1] == before[n - 2];
      assert swapped + after == swapped && before + after == before;
    }
  }

  lemma LeavesIff(command: Command, before: string, after: string)
    requires !command.Find?
    ensures Shows(Perform(Editor(before, after, Ground), command), before + after, |before|)
       <==> Leaves(command, before, after)
  {
    match command
    case EraseWord | EraseLetters => WordErasersLeave(before, after);
    case EraseBlanks => EraseBlanksLeaves(before, after);
    case TransposeChars => TransposeLeaves(before, after);
    case _ =>
  }

  /** Do the editor's command and the shadow's come to the same on this line? */
  predicate Agree(command: Command, shadow: Command, before: string, after: string) {
    if command == shadow then true
    else if shadow == Nothing then Leaves(command, before, after)
    else if command == Nothing then Leaves(shadow, before, after)
    else command == EraseRight && shadow == KillLine && before == [] && |after| <= 1
  }

  /** Exactly the lines on which the shadow follows the editor. */
  predicate KeepsLine(key: Keys.Key, before: string, after: string) {
    if KillsWord(key) then (if key.mods.alt then before == [] else WordKill.WordsAgree(before))
    else Agree(CommandOf(key), ShadowCommand(key), before, after)
  }

  lemma SameWithTail(a: string, b: string, tail: string)
    ensures a + tail == b + tail && |a| == |b| <==> a == b
  {
    SplitLine(a, tail);
    SplitLine(b, tail);
  }

  /** What the shadow makes of Ctrl-W. */
  lemma WordKillEdits(key: Keys.Key, before: string, after: string)
    requires KillsWord(key)
    ensures var i := WordStart(before, |before|);
            EditLine(before + after, |before|, key) == (before[..i] + after, i)
  {
    var line := before + after;
    SplitLine(before, after);
    WordKill.WordStartOfPrefix(line, |before|);
    assert line[..WordStart(line, |before|)] == before[..WordStart(line, |before|)];
  }

  lemma WordKillCommand(key: Keys.Key)
    requires KillsWord(key)
    ensures CommandOf(key) == if key.mods.alt then Nothing else EraseWord
  {
  }

  /** Ctrl-W: the editor rubs out a blank-delimited word, the shadow one between white space. */
  lemma WordKillTracks(key: Keys.Key, appCursor: bool, before: string, after: string)
    requires KillsWord(key)
    ensures Tracks(key, appCursor, before, after) <==> KeepsLine(key, before, after)
  {
    FeedKey(Editor(before, after, Ground), key, appCursor);
    WordKillEdits(key, before, after);
    WordKillCommand(key);
    var i := WordStart(before, |before|);
    if key.mods.alt {
      SameWithTail(before, before[..i], after);
      if before != [] {
        WordStartMoves(before, |before|);
      }
    } else {
      SameWithTail(TrimEnd(TrimEnd(before, Blanks(true)), Blanks(false)), before[..i], after);
      WordKill.RubsAgreeIff(before);
    }
  }

  /** A command that neither types nor looks for a character; what it waits for is not nothing. */
  predicate IsPlain(command: Command) {
    !command.Type? && !command.Insert? && !command.Find? && (command.Await? ==> !command.next.Ground?)
  }

  lemma ControlIsPlain(b: Byte)
    ensures IsPlain(ControlCommand(b))
  {
  }

  lemma MetaIsPlain(b: Byte)
    ensures IsPlain(MetaCommand(b)) && MetaCommand(b) != EraseRight
  {
  }

  /** The Ctrl-characters that edit the shadow line. */
  lemma CtrlPairs(key: Keys.Key)
    requires !KillsWord(key) && key.code.Char? && key.mods.ctrl && ShadowCommand(key) != Nothing
    ensures var command, shadow := CommandOf(key), ShadowCommand(key);
            command == shadow || command == Nothing || command.Await? || (command == EraseRight && shadow == KillLine)
  {
  }

  /** The pairs of different commands that a key other than Ctrl-W can have. */
  ghost predicate IsPair(command: Command, shadow: Command) {
    || command == shadow
    || (shadow == Nothing && !command.Find? && !command.Insert? && (command.Await? ==> !command.next.Ground?))
    || (shadow.Type? && IsPlain(command))
    || (IsPlain(shadow) && !shadow.Await?
        && (command == Nothing || (command.Await? && IsPlain(command))
            || (command == EraseRight && shadow == KillLine)))
  }

  lemma CharPairs(key: Keys.Key)
    requires !KillsWord(key) && key.code.Char?
    ensures IsPair(CommandOf(key), ShadowCommand(key))
  {
    var c := key.code.c;
    if key.mods.alt {
      MetaIsPlain(MetaByte(key));
    } else if key.mods.ctrl && Keys.CtrlByte(c).Some? {
      ControlIsPlain(Keys.CtrlByte(c).value);
    } else if !IsPrintable(c) {
      ControlIsPlain(c as int);
    }
    if key.mods.ctrl && ShadowCommand(key) != Nothing {
      CtrlPairs(key);
    }
  }

  lemma CommandPairs(key: Keys.Key)
    requires !KillsWord(key)
    ensures IsPair(CommandOf(key), ShadowCommand(key))
  {
    if key.code.Char? {
      CharPairs(key);
    }
  }

  /** No command but typing makes the text longer. */
  lemma NeverLonger(command: Command, before: string, after: string)
    requires IsPlain(command)
    ensures var ed := Perform(Editor(before, after, Ground), command); |ed.before + ed.after| <= |before + after|
  {
    if command.EraseBlanks? {
      TrimStartShorter(after, Blanks(true));
    }
  }

  lemma SameShown(ed: Editor, before: string, after: string)
    requires ed.pending.Ground?
    ensures Shows(Editor(before, after, Ground), ed.before + ed.after, |ed.before|)
       <==> Shows(ed, before + after, |before|)
  {
  }

  lemma CommandsAgreeIff(command: Command, shadow: Command, before: string, after: string)
    requires IsPair(command, shadow)
    requires !shadow.Find? && !shadow.Await?
    ensures var ed := Perform(Editor(before, after, Ground), command);
            var sh := Perform(Editor(before, after, Ground), shadow);
            Shows(ed, sh.before + sh.after, |sh.before|) <==> Agree(command, shadow, before, after)
  {
    if command == shadow {
    } else if shadow == Nothing {
      LeavesIff(command, before, after);
    } else if shadow.Type? {
      NeverLonger(command, before, after);
    } else if command == Nothing {
      LeavesIff(shadow, before, after);
      SameShown(Perform(Editor(before, after, Ground), shadow), before, after);
    }
  }

  lemma ShadowCommands(key: Keys.Key)
    ensures !ShadowCommand(key).Find? && !ShadowCommand(key).Await?
  {
  }

  /** On every line, key by key and in either cursor mode: when the shadow follows the editor. */
  lemma TracksIff(key: Keys.Key, appCursor: bool, before: string, after: string)
    ensures Tracks(key, appCursor, before, after) <==> KeepsLine(key, before, after)
  {
    if KillsWord(key) {
      WordKillTracks(key, appCursor, before, after);
    } else {
      FeedKey(Editor(before, after, Ground), key, appCursor);
      EditIsPerform(key, before, after);
      CommandPairs(key);
      ShadowCommands(key);
      CommandsAgreeIff(CommandOf(key), ShadowCommand(key), before, after);
    }
  }

  // ---- on every line ----------------------------------------------------------------------------

  /** The keys that never separate the shadow from the editor: both carry out the same command. */
  predicate KeepsLockstep(key: Keys.Key) {
    !KillsWord(key) && CommandOf(key) == ShadowCommand(key)
  }

  /** On one of these two lines each of the other keys shows the difference. */
  lemma OtherKeysDrift(key: Keys.Key)
    requires !KeepsLockstep(key)
    ensures !KeepsLine(key, "a", "b") || !KeepsLine(key, WordKill.IDEOGRAPHIC, [])
  {
    if KillsWord(key) {
      WordKill.IdeographicSpaceDisagrees();
    } else {
      CommandPairs(key);
      BlanksNeedAlt(key);
    }
  }

  lemma BlanksNeedAlt(key: Keys.Key)
    ensures CommandOf(key) == EraseBlanks ==> ShadowCommand(key).Type?
  {
  }

  /** Lockstep holds on every line exactly for the keys of `KeepsLockstep`. */
  lemma LockstepExactly(key: Keys.Key, appCursor: bool)
    ensures KeepsLockstep(key) <==> forall before, after :: Tracks(key, appCursor, before, after)
  {
    if KeepsLockstep(key) {
      forall before, after
        ensures Tracks(key, appCursor, before, after)
      {
        TracksIff(key, appCursor, before, after);
      }
    } else {
      OtherKeysDrift(key);
      TracksIff(key, appCursor, "a", "b");
      TracksIff(key, appCursor, WordKill.IDEOGRAPHIC, []);
    }
  }

  /** The ordinary editing keys are among them; Ctrl-W is where all white space is spaces and tabs. */
  lemma EditingKeysKeepLockstep(key: Keys.Key, before: string, after: string)
    requires
      || key.code in [Keys.Backspace, Keys.Left, Keys.Right, Keys.Home, Keys.End, Keys.Enter]
      || (key.code.Char? && !key.mods.alt && !key.mods.ctrl && IsPrintable(key.code.c))
      || (key.code.Char? && !key.mods.alt && key.mods.ctrl
          && Keys.ToAsciiLower(key.code.c) in ['a', 'e', 'u', 'k', 'c', 'w'])
    ensures KillsWord(key) || KeepsLockstep(key)
    ensures (forall k :: 0 <= k < |before| && IsWhitespace(before[k]) ==> IsBlank(before[k])) ==>
      KeepsLine(key, before, after)
  {
    if KillsWord(key) && forall k :: 0 <= k < |before| && IsWhitespace(before[k]) ==> IsBlank(before[k]) {
      WordKill.BlankLinesAgree(before);
    }
  }

  // ---- mouse reports ----------------------------------------------------------------------------

  predicate IsParameterChar(c: char) {
    0x20 <= c as int < 0x40
  }

  predicate AllParameterChars(s: string) {
    forall i :: 0 <= i < |s| ==> IsParameterChar(s[i])
  }

  function MouseParameters(code: nat, x: nat, y: nat): string {
    ['<'] + Decimal.Print(code) + [';'] + Decimal.Print(x) + [';'] + Decimal.Print(y)
  }

  lemma NumberIsParameter(n: nat)
    ensures AllParameterChars(Decimal.Print(n))
  {
    Decimal.PrintRoundTrip(n);
    assert forall i :: 0 <= i < |Decimal.Print(n)| ==> Decimal.IsDigit(Decimal.Print(n)[i]);
  }

  lemma MouseParametersAre(code: nat, x: nat, y: nat)
    ensures AllParameterChars(MouseParameters(code, x, y))
  {
    NumberIsParameter(code);
    NumberIsParameter(x);
    NumberIsParameter(y);
    assert AllParameterChars(['<'] + Decimal.Print(code) + [';']);
    assert AllParameterChars(['<'] + Decimal.Print(code) + [';'] + Decimal.Print(x) + [';']);
  }

  lemma ReportTextIs(code: nat, x: nat, y: nat, release: bool)
    ensures Mouse.ReportText(code, x, y, release)
         == ['\U{1b}', '['] + (MouseParameters(code, x, y) + [if release then 'm' else 'M'])
  {
  }

  lemma EncodeCsi(parameters: string, final: char)
    requires final as int < 0x80
    ensures Utf8.Encode(['\U{1b}', '['] + (parameters + [final]))
         == [Keys.ESC, 0x5b] + Utf8.Encode(parameters) + [final as int]
  {
    Utf8.EncodeConcat(['\U{1b}', '['], parameters + [final]);
    Utf8.EncodeConcat(parameters, [final]);
    Utf8.EncodeAscii(['\U{1b}', '[']);
    Utf8.EncodeAscii([final]);
    assert Utf8.Encode(['\U{1b}', '[']) == [Keys.ESC, 0x5b];
    assert Utf8.Encode([final]) == [final as int];
  }

  /** A sequence with a private introducer, whatever its parameters, changes nothing. */
  lemma PrivateSequenceIgnored(ed: Editor, parameters: seq<Byte>, final: Byte)
    requires ed.pending.Ground? && parameters != [] && parameters[0] == 0x3c && 0x40 <= final
    requires forall i :: 0 <= i < |parameters| ==> 0x20 <= parameters[i] < 0x40
    ensures FeedAll(ed, [Keys.ESC, 0x5b] + parameters + [final]) == ed
  {
    FeedCsi(ed, parameters, final);
  }

  lemma ReportIgnored(ed: Editor, code: nat, x: nat, y: nat, release: bool)
    requires ed.pending.Ground?
    ensures FeedAll(ed, Utf8.Encode(Mouse.ReportText(code, x, y, release))) == ed
  {
    var parameters := MouseParameters(code, x, y);
    var final := if release then 'm' else 'M';
    ReportTextIs(code, x, y, release);
    EncodeCsi(parameters, final);
    MouseParametersAre(code, x, y);
    Utf8.EncodeAscii(parameters);
    PrivateSequenceIgnored(ed, Utf8.Encode(parameters), final as int);
  }

  /** The editor ignores every mouse report. */
  lemma MouseReportIgnored(ed: Editor, e: Mouse.MouseEvent, sgrMouse: bool)
    requires ed.pending.Ground?
    ensures FeedAll(ed, Mouse.Report(e, sgrMouse)) == ed
  {
    if !sgrMouse || Mouse.Base(e.kind).None? {
      FeedNothing(ed);
    } else {
      ReportIgnored(ed, Mouse.Base(e.kind).value + Mouse.ModifierCode(e.mods), Mouse.OneBased(e.column),
                    Mouse.OneBased(e.row), e.kind.Up?);
    }
  }
}
