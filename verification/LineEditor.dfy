/**
 A reference line editor, independent of the client: it reads the bytes of a terminal one by one
 (C0 controls, Meta keys, CSI and SS3 sequences, bracketed pastes, UTF-8) and keeps the command line as the
 text before and after the cursor. It has the emacs-style commands of readline as bash binds them, except that

 - Ctrl-U kills the whole line;
 - every character is one position, combining marks included;
 - an unknown sequence is read to its end and ignored.

 Commands whose effect it does not follow leave it in the state `Untracked`: completion, history, yanking,
 undo, movement by words, changes of case, numeric arguments, expansions, the mark, macros, overwrite mode and
 vi mode.
 */
module LineEditor {
  import opened Prelude
  import Utf8

  /** What a character that is read as an argument is for. */
  datatype Use = Typing | Finding(forward: bool)

  /** What the bytes read so far oblige the editor to wait for. */
  datatype Pending =
    | Ground
    | Escape
    | Csi(parameters: seq<Byte>)
    | Ss3
    | Partial(need: nat, acc: nat, use: Use)
    | Argument(use: Use)
    | Prefix
    | Pasting(collected: seq<Byte>)
    | Untracked

  datatype Editor = Editor(before: string, after: string, pending: Pending)

  datatype Command =
    | Nothing
    | Type(c: char)
    | Insert(text: string)
    | MoveHome
    | MoveEnd
    | MoveLeft
    | MoveRight
    | Find(c: char, forward: bool)
    | EraseLeft
    | EraseRight
    | EraseBlanks
    | KillToStart
    | KillToEnd
    | KillLine
    | EraseWord
    | EraseLetters
    | TransposeChars
    | Await(next: Pending)

  /** The ASCII letters and digits, and every character beyond ASCII. */
  predicate IsWordChar(c: char) {
    'a' <= c <= 'z' || 'A' <= c <= 'Z' || '0' <= c <= '9' || c as int >= 0x80
  }

  /** Space and tab, by which Ctrl-W tells words apart. */
  predicate IsBlank(c: char) {
    c == ' ' || c == '\t'
  }

  function Blanks(yes: bool): char -> bool {
    c => IsBlank(c) == yes
  }

  function WordChars(yes: bool): char -> bool {
    c => IsWordChar(c) == yes
  }

  function Others(x: char): char -> bool {
    c => c != x
  }

  /** `s` without its trailing characters of one class. */
  function TrimEnd(s: string, belongs: char -> bool): (r: string)
    ensures r <= s
  {
    if s != [] && belongs(s[|s| - 1]) then TrimEnd(s[..|s| - 1], belongs) else s
  }

  function TrimStart(s: string, belongs: char -> bool): string {
    if s != [] && belongs(s[0]) then TrimStart(s[1..], belongs) else s
  }

  /** Swaps the characters around the cursor and moves on; at the end, the last two. */
  function Transposed(ed: Editor): Editor {
    var b, a := ed.before, ed.after;
    var n := |b|;
    if n == 0 || n + |a| < 2 then ed
    else if a == [] then ed.(before := b[..n - 2] + [b[n - 1], b[n - 2]])
    else ed.(before := b[..n - 1] + [a[0], b[n - 1]], after := a[1..])
  }

  /** The cursor on the next or previous occurrence of `c`, if there is one. */
  function Found(ed: Editor, c: char, forward: bool): Editor {
    var b, a := ed.before, ed.after;
    if forward then
      if a == [] || c !in a[1..] then ed
      else
        var i := 1 + FirstIndex(a[1..], c);
        ed.(before := b + a[..i], after := a[i..])
    else
      var r := TrimEnd(b, Others(c));
      if r == [] then ed
      else ed.(before := r[..|r| - 1], after := b[|r| - 1..] + a)
  }

  function Perform(ed: Editor, command: Command): Editor {
    var b, a := ed.before, ed.after;
    match command
    case Nothing => ed
    case Type(c) => ed.(before := b + [c])
    case Insert(text) => ed.(before := b + text)
    case MoveHome => ed.(before := [], after := b + a)
    case MoveEnd => ed.(before := b + a, after := [])
    case MoveLeft => if b == [] then ed else ed.(before := b[..|b| - 1], after := [b[|b| - 1]] + a)
    case MoveRight => if a == [] then ed else ed.(before := b + [a[0]], after := a[1..])
    case Find(c, forward) => Found(ed, c, forward)
    case EraseLeft => if b == [] then ed else ed.(before := b[..|b| - 1])
    case EraseRight => if a == [] then ed else ed.(after := a[1..])
    case EraseBlanks => ed.(before := TrimEnd(b, Blanks(true)), after := TrimStart(a, Blanks(true)))
    case KillToStart => ed.(before := [])
    case KillToEnd => ed.(after := [])
    case KillLine => ed.(before := [], after := [])
    case EraseWord => ed.(before := TrimEnd(TrimEnd(b, Blanks(true)), Blanks(false)))
    case EraseLetters => ed.(before := TrimEnd(TrimEnd(b, WordChars(false)), WordChars(true)))
    case TransposeChars => Transposed(ed)
    case Await(next) => ed.(pending := next)
  }

  /** What the C0 controls and DEL do; Ctrl-C and the keys that accept the line leave it empty. */
  function ControlCommand(b: Byte): Command {
    match b
    case 0x01 => MoveHome
    case 0x02 => MoveLeft
    case 0x03 => KillLine
    case 0x04 => EraseRight
    case 0x05 => MoveEnd
    case 0x06 => MoveRight
    case 0x08 => EraseLeft
    case 0x09 => Await(Untracked)  // complete
    case 0x0a => KillLine
    case 0x0b => KillToEnd
    case 0x0d => KillLine
    case 0x0e => Await(Untracked)  // next-history
    case 0x0f => KillLine
    case 0x10 => Await(Untracked)  // previous-history
    case 0x11 => Await(Argument(Typing))
    case 0x12 => Await(Untracked)  // reverse-search-history
    case 0x13 => Await(Untracked)  // forward-search-history
    case 0x14 => TransposeChars
    case 0x15 => KillLine
    case 0x16 => Await(Argument(Typing))
    case 0x17 => EraseWord
    case 0x18 => Await(Prefix)
    case 0x19 => Await(Untracked)  // yank
    case 0x1b => Await(Escape)
    case 0x1d => Await(Argument(Finding(true)))
    case 0x1f => Await(Untracked)  // undo
    case 0x7f => EraseLeft
    case _ => Nothing
  }

  /** The Meta keys whose commands are not followed, by the byte after ESC. */
  predicate IsUntrackedMeta(b: Byte) {
    || b in {0x05, 0x09, 0x0a, 0x0d, 0x12, 0x19}                          // expand, complete, vi mode, revert, yank
    || b in {0x21, 0x24, 0x26, 0x2a, 0x2e, 0x2f, 0x3c, 0x3d, 0x3e, 0x3f}  // ! $ & * . / < = > ?
    || b == 0x2d || 0x30 <= b <= 0x39                                     // numeric arguments
    || b in {0x40, 0x5e, 0x5f, 0x7b, 0x7e}                                // @ ^ _ { ~
    || b in {0x62, 0x63, 0x64, 0x66, 0x67, 0x6c, 0x6e, 0x70, 0x72, 0x74, 0x75, 0x79}  // letters
    || b in {0x42, 0x43, 0x44, 0x46, 0x47, 0x4c, 0x4e, 0x50, 0x52, 0x54, 0x55, 0x59}
  }

  /** What a Meta key does: the byte after ESC. */
  function MetaCommand(b: Byte): Command {
    match b
    case 0x08 => EraseLetters
    case 0x1b => Await(Escape)
    case 0x1d => Await(Argument(Finding(false)))
    case 0x23 => KillLine  // insert-comment
    case 0x4f => Await(Ss3)
    case 0x5b => Await(Csi([]))
    case 0x5c => EraseBlanks
    case 0x7f => EraseLetters
    case _ => if IsUntrackedMeta(b) then Await(Untracked) else Nothing
  }

  /** What a key after Ctrl-X does: a kill, an abort, or something that is not followed. */
  function PrefixCommand(b: Byte): Command {
    match b
    case 0x07 => Nothing
    case 0x7f => KillToStart
    case _ => Await(Untracked)
  }

  /** What a complete key sequence does. */
  function SequenceCommand(parameters: seq<Byte>, final: Byte): Command {
    if parameters == [] then
      match final
      case 0x41 => Await(Untracked)  // previous-history
      case 0x42 => Await(Untracked)  // next-history
      case 0x43 => MoveRight
      case 0x44 => MoveLeft
      case 0x46 => MoveEnd
      case 0x48 => MoveHome
      case _ => Nothing
    else if final == 0x7e then
      if parameters == [0x33] then EraseRight
      else if |parameters| == 1 && parameters[0] in {0x32, 0x35, 0x36} then Await(Untracked)  // overwrite-mode, history
      else if parameters == [0x32, 0x30, 0x30] then Await(Pasting([]))
      else Nothing
    else
      Nothing
  }

  const PASTE_END: seq<Byte> := [0x1b, 0x5b, 0x32, 0x30, 0x31, 0x7e]

  /** One more byte of a bracketed paste; a paste is inserted as it stands once its end has been read. */
  function FeedPasting(ground: Editor, collected: seq<Byte>): Editor {
    var n := |collected| - |PASTE_END|;
    if n >= 0 && collected[n..] == PASTE_END then
      match Utf8.Decode(collected[..n])
      case None => ground
      case Some(text) => Perform(ground, Insert(text))
    else
      ground.(pending := Pasting(collected))
  }

  function UseCommand(use: Use, c: char): Command {
    match use
    case Typing => Type(c)
    case Finding(forward) => Find(c, forward)
  }

  predicate IsScalar(v: nat) {
    v < 0xD800 || 0xE000 <= v < 0x11_0000
  }

  /** The first byte of a character, in the state `Ground`. */
  function FeedChar(ed: Editor, b: Byte, use: Use): Editor {
    if b < 0x80 then Perform(ed, UseCommand(use, b as char))
    else if 0xC2 <= b < 0xE0 then ed.(pending := Partial(1, b - 0xC0, use))
    else if 0xE0 <= b < 0xF0 then ed.(pending := Partial(2, b - 0xE0, use))
    else if 0xF0 <= b < 0xF5 then ed.(pending := Partial(3, b - 0xF0, use))
    else ed
  }

  function Feed(ed: Editor, b: Byte): Editor {
    var ground := ed.(pending := Ground);
    match ed.pending
    case Ground =>
      if b < 0x20 || b == 0x7f then Perform(ed, ControlCommand(b)) else FeedChar(ed, b, Typing)
    case Escape => Perform(ground, MetaCommand(b))
    case Csi(parameters) =>
      if 0x20 <= b < 0x40 then ed.(pending := Csi(parameters + [b]))
      else Perform(ground, SequenceCommand(parameters, b))
    case Ss3 =>
      Perform(ground, SequenceCommand([], b))
    case Partial(need, acc, use) =>
      if !Utf8.IsContinuation(b) then ground
      else
        var v := acc * 64 + (b as int - 0x80);
        if need > 1 then ed.(pending := Partial(need - 1, v, use))
        else if IsScalar(v) then Perform(ground, UseCommand(use, v as char))
        else ground
    case Argument(use) => FeedChar(ground, b, use)
    case Prefix => Perform(ground, PrefixCommand(b))
    case Pasting(collected) => FeedPasting(ground, collected + [b])
    case Untracked => ed
  }

  function FeedAll(ed: Editor, bytes: seq<Byte>): Editor
    decreases bytes
  {
    if bytes == [] then ed else FeedAll(Feed(ed, bytes[0]), bytes[1..])
  }

  lemma {:induction false} FeedAllConcat(ed: Editor, a: seq<Byte>, b: seq<Byte>)
    ensures FeedAll(ed, a + b) == FeedAll(FeedAll(ed, a), b)
    decreases a
  {
    if a == [] {
      assert a + b == b;
    } else {
      assert (a + b)[1..] == a[1..] + b;
      FeedAllConcat(Feed(ed, a[0]), a[1..], b);
    }
  }

  /** Neither a C0 control nor DEL. */
  predicate IsPrintable(c: char) {
    0x20 <= c as int && c as int != 0x7f
  }

  lemma FeedOne(ed: Editor, a: Byte)
    ensures FeedAll(ed, [a]) == Feed(ed, a)
  {
    assert FeedAll(Feed(ed, a), []) == Feed(ed, a);
    assert [a][1..] == [];
  }

  lemma FeedTwo(ed: Editor, a: Byte, b: Byte)
    ensures FeedAll(ed, [a, b]) == Feed(Feed(ed, a), b)
  {
    FeedAllConcat(ed, [a], [b]);
    FeedOne(ed, a);
    FeedOne(Feed(ed, a), b);
    assert [a, b] == [a] + [b];
  }

  lemma FeedThree(ed: Editor, a: Byte, b: Byte, c: Byte)
    ensures FeedAll(ed, [a, b, c]) == Feed(Feed(Feed(ed, a), b), c)
  {
    FeedAllConcat(ed, [a, b], [c]);
    FeedTwo(ed, a, b);
    FeedOne(Feed(Feed(ed, a), b), c);
    assert [a, b, c] == [a, b] + [c];
  }

  lemma FeedFour(ed: Editor, a: Byte, b: Byte, c: Byte, d: Byte)
    ensures FeedAll(ed, [a, b, c, d]) == Feed(Feed(Feed(Feed(ed, a), b), c), d)
  {
    FeedAllConcat(ed, [a, b, c], [d]);
    FeedThree(ed, a, b, c);
    FeedOne(Feed(Feed(Feed(ed, a), b), c), d);
    assert [a, b, c, d] == [a, b, c] + [d];
  }

  lemma FeedContinuation(ed: Editor, need: nat, acc: nat, low: nat)
    requires low < 64
    ensures Feed(ed.(pending := Partial(need, acc, Typing)), 0x80 + low)
         == if need > 1 then ed.(pending := Partial(need - 1, acc * 64 + low, Typing))
            else if IsScalar(acc * 64 + low) then
              ed.(before := ed.before + [(acc * 64 + low) as char], pending := Ground)
            else ed.(pending := Ground)
  {
  }

  lemma FeedThreeByteChar(ed: Editor, c: char)
    requires ed.pending.Ground? && 0x800 <= c as int < 0x1_0000
    ensures FeedAll(ed, Utf8.EncodeChar(c)) == ed.(before := ed.before + [c])
  {
    var e := Utf8.EncodeChar(c);
    var v := c as int;
    assert v / 64 == v / 4096 * 64 + v / 64 % 64;
    FeedThree(ed, e[0], e[1], e[2]);
    assert Feed(ed, e[0]) == ed.(pending := Partial(2, v / 4096, Typing));
    FeedContinuation(ed, 2, v / 4096, v / 64 % 64);
    FeedContinuation(ed, 1, v / 64, v % 64);
  }

  lemma FeedThreeContinuations(ed: Editor, top: nat, x: nat, y: nat, z: nat)
    requires x < 64 && y < 64 && z < 64 && IsScalar(((top * 64 + x) * 64 + y) * 64 + z)
    ensures Feed(Feed(Feed(ed.(pending := Partial(3, top, Typing)), 0x80 + x), 0x80 + y), 0x80 + z)
         == ed.(before := ed.before + [(((top * 64 + x) * 64 + y) * 64 + z) as char], pending := Ground)
  {
    FeedContinuation(ed, 3, top, x);
    FeedContinuation(ed, 2, top * 64 + x, y);
    FeedContinuation(ed, 1, (top * 64 + x) * 64 + y, z);
  }

  lemma SixBitGroups(v: nat)
    ensures v == v / 64 * 64 + v % 64
    ensures v / 64 == v / 4096 * 64 + v / 64 % 64
    ensures v / 4096 == v / 26_2144 * 64 + v / 4096 % 64
  {
  }

  lemma FeedFourByteChar(ed: Editor, c: char)
    requires ed.pending.Ground? && 0x1_0000 <= c as int
    ensures FeedAll(ed, Utf8.EncodeChar(c)) == ed.(before := ed.before + [c])
  {
    var e := Utf8.EncodeChar(c);
    var v := c as int;
    SixBitGroups(v);
    FeedFour(ed, e[0], e[1], e[2], e[3]);
    assert Feed(ed, e[0]) == ed.(pending := Partial(3, v / 26_2144, Typing));
    FeedThreeContinuations(ed, v / 26_2144, v / 4096 % 64, v / 64 % 64, v % 64);
  }

  /** The UTF-8 bytes of a printable character type exactly that character. */
  lemma FeedPrintable(ed: Editor, c: char)
    requires ed.pending.Ground? && IsPrintable(c)
    ensures FeedAll(ed, Utf8.EncodeChar(c)) == ed.(before := ed.before + [c])
  {
    var e := Utf8.EncodeChar(c);
    var v := c as int;
    if v < 0x80 {
      FeedOne(ed, e[0]);
    } else if v < 0x800 {
      FeedTwo(ed, e[0], e[1]);
      FeedContinuation(ed, 1, v / 64, v % 64);
    } else if v < 0x1_0000 {
      FeedThreeByteChar(ed, c);
    } else {
      FeedFourByteChar(ed, c);
    }
  }

  predicate AllPrintable(s: string) {
    forall i :: 0 <= i < |s| ==> IsPrintable(s[i])
  }

  /** Typing a printable text inserts it before the cursor. */
  lemma {:induction false} FeedText(ed: Editor, s: string)
    requires ed.pending.Ground? && AllPrintable(s)
    ensures FeedAll(ed, Utf8.Encode(s)) == ed.(before := ed.before + s)
    decreases s
  {
    if s == [] {
      assert ed.before + s == ed.before;
    } else {
      FeedPrintable(ed, s[0]);
      FeedAllConcat(ed, Utf8.EncodeChar(s[0]), Utf8.Encode(s[1..]));
      FeedText(ed.(before := ed.before + [s[0]]), s[1..]);
      assert ed.before + [s[0]] + s[1..] == ed.before + s;
    }
  }
}
