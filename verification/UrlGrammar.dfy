/**
 The language of the URLs that OSC 7 carries (percent-encoding is section 2.1 of RFC 3986): what can be read,
 as what, and what cannot.
 */
module UrlGrammar {
  import opened Prelude
  import FileUrl
  import Utf8

  /** One path byte as printed: as it stands, or percent-escaped with either case of each hex digit. */
  datatype Piece = Raw(b: Byte) | Escaped(b: Byte, upperHigh: bool, upperLow: bool)

  function HexByte(digit: nat, upper: bool): Byte
    requires digit < 16
  {
    if digit < 10 then 0x30 + digit else if upper then 0x41 + digit - 10 else 0x61 + digit - 10
  }

  function PrintPiece(p: Piece): seq<Byte> {
    match p
    case Raw(b) => [b]
    case Escaped(b, upperHigh, upperLow) => [FileUrl.PERCENT, HexByte(b / 16, upperHigh), HexByte(b % 16, upperLow)]
  }

  function PrintPath(path: seq<Piece>): seq<Byte> {
    if path == [] then [] else PrintPiece(path[0]) + PrintPath(path[1..])
  }

  /** The path bytes that the pieces stand for. */
  function PathBytes(path: seq<Piece>): seq<Byte> {
    if path == [] then [] else [path[0].b] + PathBytes(path[1..])
  }

  /** A raw percent sign would begin an escape. */
  predicate IsPlain(p: Piece) {
    p.Raw? ==> p.b != FileUrl.PERCENT
  }

  predicate AllPlain(path: seq<Piece>) {
    forall i :: 0 <= i < |path| ==> IsPlain(path[i])
  }

  lemma HexRoundTrip(digit: nat, upper: bool)
    requires digit < 16
    ensures FileUrl.HexDigit(HexByte(digit, upper)) == Some(digit)
  {
  }

  /** Percent-decoding inverts printing, whichever bytes were escaped and in whichever case. */
  lemma {:induction false} UnescapeInvertsPrinting(path: seq<Piece>)
    requires AllPlain(path)
    ensures FileUrl.Unescape(PrintPath(path)) == Some(PathBytes(path))
  {
    if path != [] {
      var printed := PrintPath(path);
      var p := path[0];
      assert IsPlain(p);
      UnescapeInvertsPrinting(path[1..]);
      if p.Raw? {
        assert printed[1..] == PrintPath(path[1..]);
      } else {
        HexRoundTrip(p.b / 16, p.upperHigh);
        HexRoundTrip(p.b % 16, p.upperLow);
        assert printed[3..] == PrintPath(path[1..]);
      }
    }
  }

  lemma UnescapeAfterPiece(p: Piece, s: seq<Byte>)
    requires IsPlain(p) && PrintPiece(p) <= s && FileUrl.Unescape(s[|PrintPiece(p)|..]) == None
    ensures FileUrl.Unescape(s) == None
  {
  }

  predicate IsHexDigit(b: Byte) {
    0x30 <= b <= 0x39 || 0x41 <= b <= 0x46 || 0x61 <= b <= 0x66
  }

  /** The digits are the sixteen of both cases, and each prints as it was read. */
  lemma HexDigitIff(b: Byte)
    ensures FileUrl.HexDigit(b).Some? <==> IsHexDigit(b)
    ensures IsHexDigit(b) ==> FileUrl.HexDigit(b).value < 16 && HexByte(FileUrl.HexDigit(b).value, b < 0x61) == b
  {
  }

  /** A percent sign that two hex digits do not follow. */
  predicate IsBadEscape(s: seq<Byte>) {
    s != [] && s[0] == FileUrl.PERCENT && (|s| < 3 || !IsHexDigit(s[1]) || !IsHexDigit(s[2]))
  }

  ghost predicate IsMalformed(s: seq<Byte>) {
    exists path, tail :: AllPlain(path) && s == PrintPath(path) + tail && IsBadEscape(tail)
  }

  /** What `s` is, read from the left: pieces to its end, or pieces up to a bad escape. */
  lemma {:induction false} Pieces(s: seq<Byte>) returns (path: seq<Piece>, tail: seq<Byte>)
    ensures AllPlain(path) && s == PrintPath(path) + tail && (tail == [] || IsBadEscape(tail))
  {
    if s == [] || IsBadEscape(s) {
      assert s == [] + s;
      return [], s;
    }
    var p: Piece;
    if s[0] != FileUrl.PERCENT {
      p := Raw(s[0]);
    } else {
      HexDigitIff(s[1]);
      HexDigitIff(s[2]);
      var value: Byte := FileUrl.HexDigit(s[1]).value * 16 + FileUrl.HexDigit(s[2]).value;
      p := Escaped(value, s[1] < 0x61, s[2] < 0x61);
      EscapedPrints(s[1], s[2]);
    }
    var w := |PrintPiece(p)|;
    assert s[..w] == PrintPiece(p);
    var rest, end := Pieces(s[w..]);
    path, tail := [p] + rest, end;
    assert path[1..] == rest;
    assert s == s[..w] + s[w..];
  }

  lemma EscapedPrints(high: Byte, low: Byte)
    requires IsHexDigit(high) && IsHexDigit(low)
    ensures FileUrl.HexDigit(high).Some? && FileUrl.HexDigit(low).Some?
    ensures var value := FileUrl.HexDigit(high).value * 16 + FileUrl.HexDigit(low).value;
            && value < 256
            && PrintPiece(Escaped(value, high < 0x61, low < 0x61)) == [FileUrl.PERCENT, high, low]
  {
    HexDigitIff(high);
    HexDigitIff(low);
  }

  lemma BadEscapeFails(s: seq<Byte>)
    requires IsBadEscape(s)
    ensures FileUrl.Unescape(s) == None
  {
    if |s| >= 3 {
      HexDigitIff(s[1]);
      HexDigitIff(s[2]);
    }
  }

  lemma ThreeParts(a: seq<Byte>, b: seq<Byte>, c: seq<Byte>)
    ensures (a + b + c)[..|a|] == a && (a + b + c)[|a|..] == b + c
  {
  }

  lemma AfterFirstPiece(path: seq<Piece>, tail: seq<Byte>)
    requires path != []
    ensures var s, w := PrintPath(path) + tail, |PrintPiece(path[0])|;
            w <= |s| && s[..w] == PrintPiece(path[0]) && s[w..] == PrintPath(path[1..]) + tail
  {
    ThreeParts(PrintPiece(path[0]), PrintPath(path[1..]), tail);
  }

  lemma {:induction false} MalformedFails(path: seq<Piece>, tail: seq<Byte>)
    requires AllPlain(path) && IsBadEscape(tail)
    ensures FileUrl.Unescape(PrintPath(path) + tail) == None
    decreases path
  {
    if path == [] {
      assert PrintPath(path) + tail == tail;
      BadEscapeFails(tail);
    } else {
      assert IsPlain(path[0]);
      AfterFirstPiece(path, tail);
      MalformedFails(path[1..], tail);
      UnescapeAfterPiece(path[0], PrintPath(path) + tail);
    }
  }

  /** Decoding fails on exactly the strings with a percent sign that no two hex digits follow. */
  lemma MalformedIff(s: seq<Byte>)
    ensures FileUrl.Unescape(s) == None <==> IsMalformed(s)
  {
    var path, tail := Pieces(s);
    if tail == [] {
      assert s == PrintPath(path);
      UnescapeInvertsPrinting(path);
    } else {
      MalformedFails(path, tail);
    }
    if p, t :| AllPlain(p) && s == PrintPath(p) + t && IsBadEscape(t) {
      MalformedFails(p, t);
    }
  }

  /** Whatever is decoded is the bytes of the pieces that were printed. */
  lemma UnescapeIff(s: seq<Byte>, raw: seq<Byte>)
    ensures FileUrl.Unescape(s) == Some(raw)
       <==> exists path :: AllPlain(path) && s == PrintPath(path) && raw == PathBytes(path)
  {
    var path, tail := Pieces(s);
    if tail == [] {
      assert s == PrintPath(path);
      UnescapeInvertsPrinting(path);
    } else {
      MalformedFails(path, tail);
    }
    if p :| AllPlain(p) && s == PrintPath(p) && raw == PathBytes(p) {
      UnescapeInvertsPrinting(p);
    }
  }

  lemma {:induction false} FirstSlash(host: seq<Byte>, path: seq<Byte>)
    requires FileUrl.SLASH !in host && path != [] && path[0] == FileUrl.SLASH
    ensures FirstIndex(host + path, FileUrl.SLASH) == |host|
  {
    if host == [] {
      assert host + path == path;
    } else {
      assert host[0] in host;
      assert (host + path)[1..] == host[1..] + path;
      FirstSlash(host[1..], path);
    }
  }

  lemma UrlPathPart(host: seq<Byte>, path: seq<Byte>)
    requires FileUrl.SLASH !in host && path != [] && path[0] == FileUrl.SLASH
    ensures FileUrl.PathPart(FileUrl.FILE_SCHEME + host + path) == Some(path)
  {
    var url := FileUrl.FILE_SCHEME + host + path;
    FirstSlash(host, path);
    assert url[|FileUrl.FILE_SCHEME|..] == host + path;
    assert (host + path)[|host|..] == path;
  }

  lemma {:induction false} NoSlash(s: seq<Byte>)
    requires FileUrl.SLASH !in s
    ensures FirstIndex(s, FileUrl.SLASH) == |s|
  {
    if s != [] {
      assert s[0] in s;
      NoSlash(s[1..]);
    }
  }

  /** No text has these bytes. */
  ghost predicate IsNoText(bytes: seq<Byte>) {
    forall text: string :: Utf8.Encode(text) != bytes
  }

  /** URLs that report no path. */
  ghost predicate IsUnreadable(url: seq<Byte>) {
    || IsNoText(url)
    || url == []
    || (FileUrl.FILE_SCHEME <= url && FileUrl.SLASH !in url[|FileUrl.FILE_SCHEME|..])
    || (exists host, path :: HasParts(url, host, path) && IsMalformed(path))
    || (!(FileUrl.FILE_SCHEME <= url) && IsMalformed(url))
  }

  /** `file://host/path` */
  predicate HasParts(url: seq<Byte>, host: seq<Byte>, path: seq<Byte>) {
    url == FileUrl.FILE_SCHEME + host + path && FileUrl.SLASH !in host && path != [] && path[0] == FileUrl.SLASH
  }

  lemma PathPartIff(url: seq<Byte>)
    requires FileUrl.FILE_SCHEME <= url
    ensures match FileUrl.PathPart(url)
            case None => FileUrl.SLASH !in url[|FileUrl.FILE_SCHEME|..]
            case Some(path) => exists host :: HasParts(url, host, path)
  {
    var rest := url[|FileUrl.FILE_SCHEME|..];
    var i := FirstIndex(rest, FileUrl.SLASH);
    if i < |rest| {
      assert url == FileUrl.FILE_SCHEME + rest[..i] + rest[i..];
      assert HasParts(url, rest[..i], rest[i..]);
    } else {
      assert rest[..i] == rest;
    }
  }

  lemma DecodesIff(url: seq<Byte>)
    ensures Utf8.Decode(url).None? <==> IsNoText(url)
  {
    if Utf8.Decode(url).Some? {
      Utf8.EncodeOfDecode(url);
    }
    forall text: string
      ensures Utf8.Encode(text) == url ==> Utf8.Decode(url).Some?
    {
      Utf8.DecodeOfEncode(text);
    }
  }

  lemma SchemeUnreadableIff(url: seq<Byte>)
    requires FileUrl.FILE_SCHEME <= url && Utf8.Decode(url).Some?
    ensures FileUrl.FilePath(url) == None
       <==> FileUrl.SLASH !in url[|FileUrl.FILE_SCHEME|..]
            || exists host, path :: HasParts(url, host, path) && IsMalformed(path)
  {
    PathPartIff(url);
    if FileUrl.SLASH !in url[|FileUrl.FILE_SCHEME|..] {
      NoSlash(url[|FileUrl.FILE_SCHEME|..]);
    } else {
      var path := FileUrl.PathPart(url).value;
      var host :| HasParts(url, host, path);
      MalformedIff(path);
      NotEmptied(path);
      forall h, p | HasParts(url, h, p)
        ensures p == path
      {
        UrlPathPart(h, p);
      }
    }
  }

  lemma NotEmptied(s: seq<Byte>)
    requires s != []
    ensures FileUrl.Unescape(s) != Some([])
  {
  }

  lemma RawUnreadableIff(url: seq<Byte>)
    requires !(FileUrl.FILE_SCHEME <= url) && Utf8.Decode(url).Some?
    ensures FileUrl.FilePath(url) == None <==> url == [] || IsMalformed(url)
  {
    MalformedIff(url);
    if url != [] {
      NotEmptied(url);
    }
  }

  lemma PartsHaveScheme(url: seq<Byte>, host: seq<Byte>, path: seq<Byte>)
    ensures HasParts(url, host, path) ==> FileUrl.FILE_SCHEME <= url
  {
  }

  /** A URL reports no path exactly if it is empty, not UTF-8, without a path, or with a bad escape in it. */
  lemma UnreadableIff(url: seq<Byte>)
    ensures FileUrl.FilePath(url) == None <==> IsUnreadable(url)
  {
    DecodesIff(url);
    if IsNoText(url) {
    } else if FileUrl.FILE_SCHEME <= url {
      SchemeUnreadableIff(url);
    } else {
      RawUnreadableIff(url);
      forall host, path
        ensures !HasParts(url, host, path)
      {
        PartsHaveScheme(url, host, path);
      }
    }
  }

  /** Each byte of the path becomes the character of that number. */
  lemma {:induction false} Latin1At(bytes: seq<Byte>, i: nat)
    requires i < |bytes|
    ensures |FileUrl.Latin1(bytes)| == |bytes| && FileUrl.Latin1(bytes)[i] == bytes[i] as char
  {
    if |bytes| > 1 {
      Latin1At(bytes[1..], if i > 0 then i - 1 else 0);
    }
  }
}
