/** The working-directory URL that OSC 7 carries. */
module FileUrl {
  import opened Prelude
  import Utf8

  const FILE_SCHEME: seq<Byte> := [0x66, 0x69, 0x6c, 0x65, 0x3a, 0x2f, 0x2f]  // file://
  const SLASH: Byte := 0x2f
  const PERCENT: Byte := 0x25

  /** `char::to_digit(16)` on one byte. */
  function HexDigit(b: Byte): Option<nat> {
    if 0x30 <= b <= 0x39 then Some(b - 0x30)
    else if 0x61 <= b <= 0x66 then Some(b - 0x61 + 10)
    else if 0x41 <= b <= 0x46 then Some(b - 0x41 + 10)
    else None
  }

  /** Percent-decoding (section 2.1 of RFC 3986) to bytes; `None` for a malformed escape. */
  function Unescape(s: seq<Byte>): Option<seq<Byte>> {
    if s == [] then
      Some([])
    else if s[0] != PERCENT then
      match Unescape(s[1..])
      case None => None
      case Some(rest) => Some([s[0]] + rest)
    else if |s| < 3 then
      None
    else
      match (HexDigit(s[1]), HexDigit(s[2]))
      case (Some(high), Some(low)) =>
        (match Unescape(s[3..])
         case None => None
         case Some(rest) => Some([high * 16 + low] + rest))
      case _ => None
  }

  /** `char::from` on each byte: bytes become the characters U+0000 to U+00FF. */
  function Latin1(bytes: seq<Byte>): string {
    if bytes == [] then [] else [bytes[0] as char] + Latin1(bytes[1..])
  }

  /** The part of the URL that is percent-decoded: from the first slash after `file://host`. */
  function PathPart(s: seq<Byte>): Option<seq<Byte>> {
    if FILE_SCHEME <= s then
      var rest := s[|FILE_SCHEME|..];
      var slash := FirstIndex(rest, SLASH);
      if slash == |rest| then None else Some(rest[slash..])
    else
      Some(s)
  }

  /** The path that `ParseFileUrl` reports, as text. */
  function FilePath(bytes: seq<Byte>): Option<string> {
    if Utf8.Decode(bytes).None? then None
    else
      match PathPart(bytes)
      case None => None
      case Some(part) =>
        match Unescape(part)
        case None => None
        case Some(raw) => if raw == [] then None else Some(Latin1(raw))
  }

  /** `decoded` is what the loop has read of `part` before index `i`. */
  ghost predicate Decoded(part: seq<Byte>, i: nat, decoded: string)
    requires i <= |part|
  {
    match Unescape(part[i..])
    case None => Unescape(part) == None
    case Some(rest) => Unescape(part).Some? && Latin1(Unescape(part).value) == decoded + Latin1(rest)
  }

  /** Reading one byte or one escape keeps `Decoded`. */
  lemma DecodedStep(part: seq<Byte>, i: nat, decoded: string, width: nat, value: Byte)
    requires i + width <= |part| && width > 0 && Decoded(part, i, decoded)
    requires forall rest :: Unescape(part[i + width..]) == Some(rest) ==> Unescape(part[i..]) == Some([value] + rest)
    requires Unescape(part[i + width..]) == None ==> Unescape(part[i..]) == None
    ensures Decoded(part, i + width, decoded + [value as char])
  {
    match Unescape(part[i + width..])
    case None =>
    case Some(rest) =>
      assert ([value] + rest)[1..] == rest;
      assert Latin1([value] + rest) == [value as char] + Latin1(rest);
      assert decoded + ([value as char] + Latin1(rest)) == decoded + [value as char] + Latin1(rest);
  }

  method DecodePath(part: seq<Byte>) returns (decoded: Option<string>)
    ensures decoded == match Unescape(part) case None => None case Some(raw) => Some(Latin1(raw))
  {
    var text: string := [];
    var i := 0;
    assert part[0..] == part;
    while i < |part|
      invariant 0 <= i <= |part|
      invariant Decoded(part, i, text)
    {
      var b := part[i];
      assert part[i..][1..] == part[i + 1..];
      if b == PERCENT {
        if |part| - i < 3 {
          return None;
        }
        var high := HexDigit(part[i + 1]);
        var low := HexDigit(part[i + 2]);
        if high.None? || low.None? {
          return None;
        }
        assert part[i..][3..] == part[i + 3..];
        var value: Byte := high.value * 16 + low.value;
        DecodedStep(part, i, text, 3, value);
        text := text + [value as char];
        i := i + 3;
      } else {
        DecodedStep(part, i, text, 1, b);
        text := text + [b as char];
        i := i + 1;
      }
    }
    assert part[i..] == [];
    assert text + Latin1([]) == text;
    return Some(text);
  }

  method ParseFileUrl(bytes: seq<Byte>) returns (path: Option<string>)
    ensures path == FilePath(bytes)
  {
    if Utf8.Decode(bytes).None? {
      return None;
    }
    var part := bytes;
    if FILE_SCHEME <= bytes {
      var rest := bytes[|FILE_SCHEME|..];
      var slash := FirstIndex(rest, SLASH);
      if slash == |rest| {
        return None;
      }
      part := rest[slash..];
    }
    var decoded := DecodePath(part);
    if decoded.None? || decoded.value == [] {
      return None;
    }
    return decoded;
  }
}
