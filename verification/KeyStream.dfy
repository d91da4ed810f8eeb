/** Unique decodability: a decoder that recovers every sequence of keys from the bytes sent for it. */
module KeyStream {
  import opened Prelude
  import Keys
  import LineEditor
  import Utf8

  /** Printable characters, the named keys, F1 to F12 and the Ctrl-letters but Ctrl-I and Ctrl-M. */
  predicate IsDecodable(key: Keys.Key) {
    match key.code
    case Char(c) =>
      !key.mods.alt &&
      (if key.mods.ctrl then 'a' <= Keys.ToAsciiLower(c) <= 'z' && Keys.ToAsciiLower(c) !in ['i', 'm']
       else LineEditor.IsPrintable(c))
    case F(n) => 1 <= n <= 12
    case Esc | Untranslated => false
    case _ => true
  }

  /** The key without what its code does not carry: the modifiers of named keys, the case of Ctrl-letters. */
  function Canonical(key: Keys.Key): Keys.Key {
    if key.code.Char? && key.mods.ctrl then
      Keys.Key(Keys.Char(Keys.ToAsciiLower(key.code.c)), Keys.NONE.(ctrl := true))
    else
      Keys.Key(key.code, Keys.NONE)
  }

  function Named(code: Keys.KeyCode): Keys.Key {
    Keys.Key(code, Keys.NONE)
  }

  /** The key that a final letter after `ESC [` or `ESC O` names. */
  function LetterKey(b: Byte): Option<Keys.Key> {
    match b
    case 0x41 => Some(Named(Keys.Up))
    case 0x42 => Some(Named(Keys.Down))
    case 0x43 => Some(Named(Keys.Right))
    case 0x44 => Some(Named(Keys.Left))
    case 0x46 => Some(Named(Keys.End))
    case 0x48 => Some(Named(Keys.Home))
    case 0x50 => Some(Named(Keys.F(1)))
    case 0x51 => Some(Named(Keys.F(2)))
    case 0x52 => Some(Named(Keys.F(3)))
    case 0x53 => Some(Named(Keys.F(4)))
    case 0x5a => Some(Named(Keys.BackTab))
    case _ => None
  }

  /** The key of `ESC [ n ~`, by the digits of `n`; one digit is given as its own byte and zero. */
  function TildeKey(first: Byte, second: Byte): Option<Keys.Key> {
    match (first, second)
    case (0x32, 0) => Some(Named(Keys.Insert))
    case (0x33, 0) => Some(Named(Keys.Delete))
    case (0x35, 0) => Some(Named(Keys.PageUp))
    case (0x36, 0) => Some(Named(Keys.PageDown))
    case (0x31, 0x35) => Some(Named(Keys.F(5)))
    case (0x31, 0x37) => Some(Named(Keys.F(6)))
    case (0x31, 0x38) => Some(Named(Keys.F(7)))
    case (0x31, 0x39) => Some(Named(Keys.F(8)))
    case (0x32, 0x30) => Some(Named(Keys.F(9)))
    case (0x32, 0x31) => Some(Named(Keys.F(10)))
    case (0x32, 0x33) => Some(Named(Keys.F(11)))
    case (0x32, 0x34) => Some(Named(Keys.F(12)))
    case _ => None
  }

  function WithWidth(key: Option<Keys.Key>, width: nat): Option<(Keys.Key, nat)> {
    match key
    case None => None
    case Some(k) => Some((k, width))
  }

  /** The key sequence at the start of `b`, which begins with ESC. */
  function DecodeSequence(b: seq<Byte>): Option<(Keys.Key, nat)>
    requires b != []
  {
    if |b| < 3 || b[1] !in [0x4f, 0x5b] then None
    else if b[1] == 0x4f || b[2] >= 0x40 then WithWidth(LetterKey(b[2]), 3)
    else if |b| >= 4 && b[3] == 0x7e then WithWidth(TildeKey(b[2], 0), 4)
    else if |b| >= 5 && b[4] == 0x7e then WithWidth(TildeKey(b[2], b[3]), 5)
    else None
  }

  /** The first key of `b` and the number of bytes it takes. */
  function DecodeKey(b: seq<Byte>): Option<(Keys.Key, nat)> {
    if b == [] then None
    else if b[0] == 0x0d then Some((Named(Keys.Enter), 1))
    else if b[0] == 0x09 then Some((Named(Keys.Tab), 1))
    else if b[0] == 0x7f then Some((Named(Keys.Backspace), 1))
    else if b[0] == 0x1b then DecodeSequence(b)
    else if 1 <= b[0] <= 26 then
      Some((Keys.Key(Keys.Char((b[0] + 96) as char), Keys.NONE.(ctrl := true)), 1))
    else
      match Utf8.DecodeOne(b)
      case None => None
      case Some((c, n)) => Some((Named(Keys.Char(c)), n))
  }

  lemma CharDecodes(key: Keys.Key, appCursor: bool, rest: seq<Byte>)
    requires key.code.Char? && IsDecodable(key)
    ensures DecodeKey(Keys.Encode(key, appCursor) + rest) == Some((Canonical(key), |Keys.Encode(key, appCursor)|))
  {
    var c := key.code.c;
    if key.mods.ctrl {
      assert Keys.ToAsciiLower(c) == (Keys.Encode(key, appCursor)[0] + 96) as char;
    } else {
      Utf8.DecodeOneOfEncodeChar(c, rest);
    }
  }

  lemma FunctionKeyDecodes(n: Byte, mods: Keys.Modifiers, appCursor: bool, rest: seq<Byte>)
    requires 1 <= n <= 12
    ensures var key := Keys.Key(Keys.F(n), mods);
            DecodeKey(Keys.Encode(key, appCursor) + rest) == Some((Canonical(key), |Keys.Encode(key, appCursor)|))
  {
  }

  /** One key is recovered from its code, whatever follows it. */
  lemma KeyDecodes(key: Keys.Key, appCursor: bool, rest: seq<Byte>)
    requires IsDecodable(key)
    ensures DecodeKey(Keys.Encode(key, appCursor) + rest) == Some((Canonical(key), |Keys.Encode(key, appCursor)|))
    ensures Keys.Encode(key, appCursor) != []
  {
    match key.code
    case Char(_) =>
      CharDecodes(key, appCursor, rest);
    case F(n) =>
      FunctionKeyDecodes(n, key.mods, appCursor, rest);
    case _ =>
  }

  /** No code is a prefix of the code of a different key, even across cursor modes. */
  lemma CodesArePrefixFree(a: Keys.Key, aMode: bool, b: Keys.Key, bMode: bool)
    requires IsDecodable(a) && IsDecodable(b)
    requires Keys.Encode(a, aMode) <= Keys.Encode(b, bMode)
    ensures Canonical(a) == Canonical(b) && Keys.Encode(a, aMode) == Keys.Encode(b, bMode)
  {
    var x, y := Keys.Encode(a, aMode), Keys.Encode(b, bMode);
    KeyDecodes(a, aMode, y[|x|..]);
    KeyDecodes(b, bMode, []);
    assert x + y[|x|..] == y && y + [] == y;
  }

  /** A key press together with the cursor-key mode in force when it was made. */
  datatype Press = Press(key: Keys.Key, appCursor: bool)

  function EncodeAll(presses: seq<Press>): seq<Byte> {
    if presses == [] then [] else Keys.Encode(presses[0].key, presses[0].appCursor) + EncodeAll(presses[1..])
  }

  function CanonicalKeys(presses: seq<Press>): seq<Keys.Key> {
    if presses == [] then [] else [Canonical(presses[0].key)] + CanonicalKeys(presses[1..])
  }

  function DecodeAll(b: seq<Byte>): Option<seq<Keys.Key>>
    decreases |b|
  {
    if b == [] then Some([])
    else
      match DecodeKey(b)
      case None => None
      case Some((key, n)) =>
        if n == 0 || n > |b| then None
        else
          match DecodeAll(b[n..])
          case None => None
          case Some(rest) => Some([key] + rest)
  }

  /** Every sequence of decodable keys is recovered from its bytes, with the cursor mode changing freely. */
  lemma {:induction false} StreamDecodes(presses: seq<Press>)
    requires forall i :: 0 <= i < |presses| ==> IsDecodable(presses[i].key)
    ensures DecodeAll(EncodeAll(presses)) == Some(CanonicalKeys(presses))
  {
    if presses != [] {
      var code := Keys.Encode(presses[0].key, presses[0].appCursor);
      KeyDecodes(presses[0].key, presses[0].appCursor, EncodeAll(presses[1..]));
      assert EncodeAll(presses)[|code|..] == EncodeAll(presses[1..]);
      StreamDecodes(presses[1..]);
    }
  }

  function Ctrl(c: char): Keys.Key {
    Keys.Key(Keys.Char(c), Keys.NONE.(ctrl := true))
  }

  /** Why the others are left out: their codes coincide with, or begin, those of other keys. */
  lemma AmbiguousCodes(c: char)
    ensures Keys.Encode(Ctrl('i'), false) == Keys.Encode(Named(Keys.Tab), false)
    ensures Keys.Encode(Ctrl('m'), false) == Keys.Encode(Named(Keys.Enter), false)
    ensures Keys.Encode(Named(Keys.Esc), false) < Keys.Encode(Named(Keys.Left), false)
    ensures Keys.Encode(Named(Keys.Esc), false) < Keys.Encode(Keys.Key(Keys.Char(c), Keys.NONE.(alt := true)), false)
  {
  }
}
