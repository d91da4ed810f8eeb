/** The xterm key encoder: which bytes a key press sends to the remote terminal. */
module Keys {
  import opened Prelude
  import Utf8

  datatype KeyCode =
    | Char(c: char)
    | Enter
    | Tab
    | BackTab
    | Backspace
    | Esc
    | Left
    | Right
    | Up
    | Down
    | Home
    | End
    | Insert
    | Delete
    | PageUp
    | PageDown
    | F(n: Byte)
    | Untranslated

  /** `others` stands for the modifiers (super, hyper, meta) that only an emptiness test can see. */
  datatype Modifiers = Modifiers(shift: bool, alt: bool, ctrl: bool, others: bool)

  const NONE := Modifiers(false, false, false, false)

  datatype Key = Key(code: KeyCode, mods: Modifiers)

  const ESC: Byte := 0x1b

  function ToAsciiLower(c: char): char {
    if 'A' <= c <= 'Z' then (c as int + 32) as char else c
  }

  function CtrlByte(c: char): Option<Byte> {
    var l := ToAsciiLower(c);
    if 'a' <= l <= 'z' then Some(l as int - 'a' as int + 1)
    else if l == '@' || l == '2' || l == ' ' then Some(0x00)
    else if l == '[' || l == '3' then Some(0x1b)
    else if l == '\\' || l == '4' then Some(0x1c)
    else if l == ']' || l == '5' then Some(0x1d)
    else if l == '^' || l == '6' then Some(0x1e)
    else if l == '_' || l == '7' then Some(0x1f)
    else if l == '?' || l == '8' then Some(0x7f)
    else None
  }

  function EncodeChar(c: char, mods: Modifiers): seq<Byte> {
    var plain := if mods.ctrl && CtrlByte(c).Some? then [CtrlByte(c).value] else Utf8.EncodeChar(c);
    if mods.alt then [ESC] + plain else plain
  }

  function Arrow(letter: Byte, appCursor: bool): seq<Byte> {
    if appCursor then [ESC, 0x4f, letter] else [ESC, 0x5b, letter]
  }

  /** `ESC [ digits ~`, with the digits given as bytes. */
  function Tilde(digits: seq<Byte>): seq<Byte> {
    [ESC, 0x5b] + digits + [0x7e]
  }

  function FKey(n: Byte): seq<Byte> {
    match n
    case 1 => [ESC, 0x4f, 0x50]
    case 2 => [ESC, 0x4f, 0x51]
    case 3 => [ESC, 0x4f, 0x52]
    case 4 => [ESC, 0x4f, 0x53]
    case 5 => Tilde([0x31, 0x35])
    case 6 => Tilde([0x31, 0x37])
    case 7 => Tilde([0x31, 0x38])
    case 8 => Tilde([0x31, 0x39])
    case 9 => Tilde([0x32, 0x30])
    case 10 => Tilde([0x32, 0x31])
    case 11 => Tilde([0x32, 0x33])
    case 12 => Tilde([0x32, 0x34])
    case _ => []
  }

  /** The bytes for `key`; empty when the key has no terminal encoding. */
  function Encode(key: Key, appCursor: bool): seq<Byte> {
    match key.code
    case Char(c) => EncodeChar(c, key.mods)
    case Enter => [0x0d]
    case Tab => [0x09]
    case BackTab => [ESC, 0x5b, 0x5a]
    case Backspace => [0x7f]
    case Esc => [ESC]
    case Left => Arrow(0x44, appCursor)
    case Right => Arrow(0x43, appCursor)
    case Up => Arrow(0x41, appCursor)
    case Down => Arrow(0x42, appCursor)
    case Home => Arrow(0x48, appCursor)
    case End => Arrow(0x46, appCursor)
    case Insert => Tilde([0x32])
    case Delete => Tilde([0x33])
    case PageUp => Tilde([0x35])
    case PageDown => Tilde([0x36])
    case F(n) => FKey(n)
    case Untranslated => []
  }

  /**
   The caret notation: Ctrl clears the upper bits of a letter or of one of `@ [ \\ ] ^ _`, and `?` is DEL. Space
   and the digits 2 to 8 stand for `@`, the five characters from `[` to `_`, and `?`. Nothing else has a code.
   */
  lemma CtrlByteIff(c: char)
    ensures var v := c as int;
            CtrlByte(c)
            == if 0x40 <= v < 0x60 || 'a' <= c <= 'z' then Some(v % 32)
               else if c == ' ' then Some(0)
               else if '2' <= c <= '8' then Some([0, 0x1b, 0x1c, 0x1d, 0x1e, 0x1f, 0x7f][v - 0x32])
               else if c == '?' then Some(0x7f)
               else None
  {
  }

  /** Only ASCII letters have a lower case here, thirty-two further on. */
  lemma ToAsciiLowerIff(c: char)
    ensures ToAsciiLower(c) as int == c as int + if 0x41 <= c as int <= 0x5a then 32 else 0
  {
  }

  /** The keys without a code are those that are not translated and the function keys beyond F12. */
  lemma NoCodeIff(key: Key, appCursor: bool)
    ensures Encode(key, appCursor) == [] <==> key.code.Untranslated? || (key.code.F? && !(1 <= key.code.n <= 12))
  {
  }
}
