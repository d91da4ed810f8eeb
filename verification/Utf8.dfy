/**
 UTF-8 as RFC 3629 (sections 3 and 4) defines it, and the `str`/`String` operations of the Rust
 standard library that the shadow line uses. Text is `seq<char>` (Unicode scalar values) and a Rust
 string is the byte sequence that encodes it.
 */
module Utf8 {
  import opened Prelude

  function EncodeChar(c: char): (b: seq<Byte>)
    ensures 1 <= |b| <= 4
  {
    var v := c as int;
    if v < 0x80 then
      [v]
    else if v < 0x800 then
      [0xC0 + v / 64, 0x80 + v % 64]
    else if v < 0x1_0000 then
      [0xE0 + v / 4096, 0x80 + v / 64 % 64, 0x80 + v % 64]
    else
      [0xF0 + v / 26_2144, 0x80 + v / 4096 % 64, 0x80 + v / 64 % 64, 0x80 + v % 64]
  }

  function Encode(s: string): seq<Byte> {
    if s == [] then [] else EncodeChar(s[0]) + Encode(s[1..])
  }

  predicate IsContinuation(b: Byte) {
    0x80 <= b < 0xC0
  }

  /** The first scalar value of `b` and the number of bytes it takes; `None` for malformed input. */
  function DecodeOne(b: seq<Byte>): Option<(char, nat)> {
    if b == [] then
      None
    else if b[0] < 0x80 then
      Some((b[0] as char, 1))
    else if 0xC2 <= b[0] < 0xE0 && |b| >= 2 && IsContinuation(b[1]) then
      Some((((b[0] as int - 0xC0) * 64 + (b[1] as int - 0x80)) as char, 2))
    else if 0xE0 <= b[0] < 0xF0 && |b| >= 3 && IsContinuation(b[1]) && IsContinuation(b[2]) then
      var v: int := (b[0] as int - 0xE0) * 4096 + (b[1] as int - 0x80) * 64 + (b[2] as int - 0x80);
      if v < 0x800 || 0xD800 <= v < 0xE000 then None else Some((v as char, 3))
    else if 0xF0 <= b[0] < 0xF5 && |b| >= 4 && IsContinuation(b[1]) && IsContinuation(b[2]) && IsContinuation(b[3]) then
      var v: int := (b[0] as int - 0xF0) * 26_2144 + (b[1] as int - 0x80) * 4096
                    + (b[2] as int - 0x80) * 64 + (b[3] as int - 0x80);
      if v < 0x1_0000 || 0x11_0000 <= v then None else Some((v as char, 4))
    else
      None
  }

  /** `std::str::from_utf8`: the text that `b` encodes, if it encodes any. */
  function Decode(b: seq<Byte>): Option<string> {
    if b == [] then
      Some([])
    else
      match DecodeOne(b)
      case None => None
      case Some((c, n)) =>
        if n > |b| then None
        else
          match Decode(b[n..])
          case None => None
          case Some(rest) => Some([c] + rest)
  }

  /** The text of a byte sequence known to be well formed. */
  function Chars(b: seq<Byte>): string
    requires Decode(b).Some?
  {
    Decode(b).value
  }

  lemma DecodeOneOfEncodeChar(c: char, rest: seq<Byte>)
    ensures DecodeOne(EncodeChar(c) + rest) == Some((c, |EncodeChar(c)|))
  {
    var v := c as int;
    assert v == v / 64 * 64 + v % 64;
    assert v / 64 == v / 4096 * 64 + v / 64 % 64;
    assert v / 4096 == v / 26_2144 * 64 + v / 4096 % 64;
  }

  /** Six low bits and the number above them. */
  lemma SixBits(high: nat, low: nat)
    requires low < 64
    ensures (high * 64 + low) / 64 == high && (high * 64 + low) % 64 == low
  {
  }

  lemma DividedTwice(v: nat)
    ensures v / 4096 == v / 64 / 64 && v / 26_2144 == v / 64 / 64 / 64
  {
  }

  lemma EncodeCharOfTwoBytes(b: seq<Byte>)
    requires DecodeOne(b).Some? && 0xC2 <= b[0] < 0xE0
    ensures EncodeChar(DecodeOne(b).value.0) == b[..2]
  {
    SixBits(b[0] - 0xC0, b[1] - 0x80);
    assert b[..2] == [b[0], b[1]];
  }

  lemma EncodeCharOfThreeBytes(b: seq<Byte>)
    requires DecodeOne(b).Some? && 0xE0 <= b[0] < 0xF0
    ensures EncodeChar(DecodeOne(b).value.0) == b[..3]
  {
    var top: nat := b[0] - 0xE0;
    var middle := top * 64 + (b[1] - 0x80);
    var v := middle * 64 + (b[2] - 0x80);
    assert DecodeOne(b).value.0 == v as char;
    SixBits(top, b[1] - 0x80);
    SixBits(middle, b[2] - 0x80);
    DividedTwice(v);
    assert b[..3] == [b[0], b[1], b[2]];
  }

  lemma EncodeCharOfFourBytes(b: seq<Byte>)
    requires DecodeOne(b).Some? && 0xF0 <= b[0]
    ensures EncodeChar(DecodeOne(b).value.0) == b[..4]
  {
    var top: nat := b[0] - 0xF0;
    var upper := top * 64 + (b[1] - 0x80);
    var middle := upper * 64 + (b[2] - 0x80);
    var v := middle * 64 + (b[3] - 0x80);
    assert DecodeOne(b).value.0 == v as char;
    SixBits(top, b[1] - 0x80);
    SixBits(upper, b[2] - 0x80);
    SixBits(middle, b[3] - 0x80);
    DividedTwice(v);
    assert b[..4] == [b[0], b[1], b[2], b[3]];
  }

  lemma EncodeCharOfDecodeOne(b: seq<Byte>)
    requires DecodeOne(b).Some?
    ensures DecodeOne(b).value.1 <= |b|
    ensures EncodeChar(DecodeOne(b).value.0) == b[..DecodeOne(b).value.1]
  {
    if b[0] >= 0xF0 {
      EncodeCharOfFourBytes(b);
    } else if b[0] >= 0xE0 {
      EncodeCharOfThreeBytes(b);
    } else if b[0] >= 0x80 {
      EncodeCharOfTwoBytes(b);
    }
  }

  lemma {:induction false} DecodeOfEncode(s: string)
    ensures Decode(Encode(s)) == Some(s)
  {
    if s != [] {
      DecodeOneOfEncodeChar(s[0], Encode(s[1..]));
      assert Encode(s)[|EncodeChar(s[0])|..] == Encode(s[1..]);
      DecodeOfEncode(s[1..]);
      assert s == [s[0]] + s[1..];
    }
  }

  lemma DecodeUnfolds(b: seq<Byte>)
    requires b != [] && Decode(b).Some?
    ensures DecodeOne(b).Some? && 0 < DecodeOne(b).value.1 <= |b| && Decode(b[DecodeOne(b).value.1..]).Some?
    ensures Chars(b) == [DecodeOne(b).value.0] + Chars(b[DecodeOne(b).value.1..])
  {
  }

  lemma EncodeOfCons(c: char, rest: string)
    ensures Encode([c] + rest) == EncodeChar(c) + Encode(rest)
  {
  }

  lemma {:induction false} EncodeOfDecode(b: seq<Byte>)
    requires Decode(b).Some?
    ensures Encode(Chars(b)) == b
  {
    if b != [] {
      DecodeUnfolds(b);
      var (c, n) := DecodeOne(b).value;
      EncodeCharOfDecodeOne(b);
      EncodeOfDecode(b[n..]);
      EncodeOfCons(c, Chars(b[n..]));
      assert b == b[..n] + b[n..];
    }
  }

  /** Decoding accepts exactly the encodings of texts and returns the text encoded. */
  lemma DecodeIffEncode(b: seq<Byte>, s: string)
    ensures Decode(b) == Some(s) <==> b == Encode(s)
  {
    DecodeOfEncode(s);
    if Decode(b).Some? {
      EncodeOfDecode(b);
    }
  }

  lemma {:induction false} EncodeConcat(a: string, b: string)
    ensures Encode(a + b) == Encode(a) + Encode(b)
  {
    if a == [] {
      assert a + b == b;
    } else {
      assert (a + b)[1..] == a[1..] + b;
      EncodeConcat(a[1..], b);
    }
  }

  /** ASCII text is encoded byte by byte. */
  lemma {:induction false} EncodeAscii(s: string)
    requires forall i :: 0 <= i < |s| ==> s[i] as int < 0x80
    ensures |Encode(s)| == |s| && forall i :: 0 <= i < |s| ==> Encode(s)[i] == s[i] as int
  {
    if s != [] {
      EncodeAscii(s[1..]);
    }
  }

  lemma EncodeParts(s: string, a: string, b: string)
    requires s == a + b
    ensures Encode(s) == Encode(a) + Encode(b)
  {
    EncodeConcat(a, b);
  }

  lemma SplitAt(s: string, n: nat)
    requires n <= |s|
    ensures s == s[..n] + s[n..]
  {
  }

  lemma EncodeSplit(s: string, n: nat)
    requires n <= |s|
    ensures Encode(s) == Encode(s[..n]) + Encode(s[n..])
  {
    SplitAt(s, n);
    EncodeParts(s, s[..n], s[n..]);
  }

  lemma {:induction false} PrefixReflected(a: string, b: string)
    requires Encode(a) <= Encode(b)
    ensures a <= b
  {
    if a != [] && b != [] {
      var rest := Encode(b)[|Encode(a)|..];
      var w := |EncodeChar(a[0])|;
      assert Encode(b) == EncodeChar(a[0]) + (Encode(a[1..]) + rest);
      DecodeOneOfEncodeChar(a[0], Encode(a[1..]) + rest);
      DecodeOneOfEncodeChar(b[0], Encode(b[1..]));
      assert Encode(b)[w..] == Encode(b[1..]);
      assert (EncodeChar(a[0]) + (Encode(a[1..]) + rest))[w..] == Encode(a[1..]) + rest;
      PrefixReflected(a[1..], b[1..]);
    }
  }

  /** UTF-8 preserves and reflects the prefix order, so `starts_with` on bytes is `starts_with` on text. */
  lemma PrefixOfEncode(a: string, b: string)
    ensures Encode(a) <= Encode(b) <==> a <= b
  {
    if a <= b {
      EncodeSplit(b, |a|);
      assert b[..|a|] == a;
    }
    if Encode(a) <= Encode(b) {
      PrefixReflected(a, b);
    }
  }

  lemma EmptyEncoding(s: string)
    ensures Encode(s) == [] <==> s == []
  {
  }

  lemma ProperPrefixOfEncode(a: string, b: string)
    ensures Encode(a) <= Encode(b) && |Encode(b)| > |Encode(a)| <==> a <= b && |b| > |a|
  {
    PrefixOfEncode(a, b);
    if a <= b {
      var rest := b[|a|..];
      EncodeSplit(b, |a|);
      assert b[..|a|] == a;
      EmptyEncoding(rest);
      assert |b| == |a| + |rest|;
    }
  }

  // ---- Rust string operations -------------------------------------------------------------------

  /** Number of bytes of the character that starts with byte `lead`. */
  function Width(lead: Byte): nat {
    if lead < 0x80 then 1 else if lead < 0xE0 then 2 else if lead < 0xF0 then 3 else 4
  }

  /** `str::is_char_boundary`. */
  predicate IsCharBoundary(b: seq<Byte>, i: nat) {
    i == |b| || (i < |b| && !IsContinuation(b[i]))
  }

  /** `char_indices().nth(n)`, with the length of the string when there are not that many characters. */
  function ByteOffset(b: seq<Byte>, n: nat): nat
    decreases n
  {
    if n == 0 || b == [] then
      0
    else
      var w := Min(Width(b[0]), |b|);
      w + ByteOffset(b[w..], n - 1)
  }

  /** `chars().count()`: the bytes that are not continuation bytes. */
  function CharCount(b: seq<Byte>): nat {
    if b == [] then 0 else (if IsContinuation(b[0]) then 0 else 1) + CharCount(b[1..])
  }

  /** `String::insert`; panics unless `i` is a character boundary. */
  function InsertAt(b: seq<Byte>, i: nat, c: char): seq<Byte>
    requires IsCharBoundary(b, i)
  {
    b[..i] + EncodeChar(c) + b[i..]
  }

  /** `String::remove`; panics unless a character starts at `i`. */
  function RemoveAt(b: seq<Byte>, i: nat): seq<Byte>
    requires IsCharBoundary(b, i) && i < |b|
  {
    b[..i] + b[Min(i + Width(b[i]), |b|)..]
  }

  /** `String::truncate`; panics unless `i` is a character boundary or past the end. */
  function TruncateAt(b: seq<Byte>, i: nat): seq<Byte>
    requires IsCharBoundary(b, i) || i > |b|
  {
    if i <= |b| then b[..i] else b
  }

  /** Slicing `&b[i..]`; panics unless `i` is a character boundary. */
  function SliceFrom(b: seq<Byte>, i: nat): seq<Byte>
    requires IsCharBoundary(b, i)
  {
    b[i..]
  }

  lemma EncodeCharShape(c: char)
    ensures !IsContinuation(EncodeChar(c)[0])
    ensures Width(EncodeChar(c)[0]) == |EncodeChar(c)|
    ensures forall k :: 1 <= k < |EncodeChar(c)| ==> IsContinuation(EncodeChar(c)[k])
  {
  }

  lemma {:induction false} ByteOffsetOfEncode(s: string, n: nat)
    ensures ByteOffset(Encode(s), n) == |Encode(s[..Min(n, |s|)])|
  {
    if n > 0 && s != [] {
      EncodeCharShape(s[0]);
      var w := |EncodeChar(s[0])|;
      assert Encode(s)[w..] == Encode(s[1..]);
      ByteOffsetOfEncode(s[1..], n - 1);
      assert s[..Min(n, |s|)][1..] == s[1..][..Min(n - 1, |s| - 1)];
    }
  }

  lemma {:induction false} CharCountOfContinuations(b: seq<Byte>, k: nat)
    requires k <= |b| && forall i :: 0 <= i < k ==> IsContinuation(b[i])
    ensures CharCount(b) == CharCount(b[k..])
  {
    if k > 0 {
      CharCountOfContinuations(b[1..], k - 1);
      assert b[1..][k - 1..] == b[k..];
    } else {
      assert b[k..] == b;
    }
  }

  lemma {:induction false} CharCountOfEncode(s: string)
    ensures CharCount(Encode(s)) == |s|
  {
    if s != [] {
      EncodeCharShape(s[0]);
      var w := |EncodeChar(s[0])|;
      CharCountOfContinuations(Encode(s)[1..], w - 1);
      assert Encode(s)[1..][w - 1..] == Encode(s[1..]);
      CharCountOfEncode(s[1..]);
    }
  }

  lemma PrefixEndsAtBoundary(s: string, n: nat)
    requires n <= |s|
    ensures IsCharBoundary(Encode(s), |Encode(s[..n])|)
  {
    EncodeSplit(s, n);
    if n < |s| {
      EncodeCharShape(s[n]);
    }
  }

  lemma {:induction false} BoundaryEndsPrefix(s: string, i: nat)
    requires IsCharBoundary(Encode(s), i)
    ensures exists n: nat :: n <= |s| && i == |Encode(s[..n])|
  {
    assert |Encode(s[..0])| == 0;
    if i > 0 {
      EncodeCharShape(s[0]);
      var w := |EncodeChar(s[0])|;
      assert i >= w;
      BoundaryEndsPrefix(s[1..], i - w);
      var m: nat :| m <= |s[1..]| && i - w == |Encode(s[1..][..m])|;
      assert s[..m + 1][1..] == s[1..][..m];
    }
  }

  /** The boundaries of an encoded text are exactly the ends of its encoded prefixes. */
  lemma BoundaryIffPrefix(s: string, i: nat)
    ensures IsCharBoundary(Encode(s), i) <==> exists n: nat :: n <= |s| && i == |Encode(s[..n])|
  {
    if IsCharBoundary(Encode(s), i) {
      BoundaryEndsPrefix(s, i);
    }
    if n: nat :| n <= |s| && i == |Encode(s[..n])| {
      PrefixEndsAtBoundary(s, n);
    }
  }

  /** What `char_to_byte` yields is a character boundary splitting the text at that character. */
  lemma ByteOffsetSplits(s: string, n: nat)
    ensures var k := Min(n, |s|);
            && IsCharBoundary(Encode(s), ByteOffset(Encode(s), n))
            && Encode(s)[..ByteOffset(Encode(s), n)] == Encode(s[..k])
            && Encode(s)[ByteOffset(Encode(s), n)..] == Encode(s[k..])
            && (n < |s| <==> ByteOffset(Encode(s), n) < |Encode(s)|)
  {
    var k := Min(n, |s|);
    ByteOffsetOfEncode(s, n);
    EncodeSplit(s, k);
    PrefixEndsAtBoundary(s, k);
    assert s[k..] == [] <==> n >= |s|;
  }

  lemma InsertRefines(s: string, n: nat, c: char)
    requires n <= |s|
    ensures IsCharBoundary(Encode(s), ByteOffset(Encode(s), n))
    ensures InsertAt(Encode(s), ByteOffset(Encode(s), n), c) == Encode(s[..n] + [c] + s[n..])
  {
    ByteOffsetSplits(s, n);
    EncodeConcat(s[..n] + [c], s[n..]);
    EncodeConcat(s[..n], [c]);
    assert Encode([c]) == EncodeChar(c);
  }

  lemma RemoveMiddle(before: seq<Byte>, middle: seq<Byte>, after: seq<Byte>)
    requires middle != [] && !IsContinuation(middle[0]) && Width(middle[0]) == |middle|
    ensures RemoveAt(before + middle + after, |before|) == before + after
  {
    var b := before + middle + after;
    assert b[|before|] == middle[0];
    assert b[..|before|] == before;
    assert b[|before| + |middle|..] == after;
  }

  lemma EncodeFirst(s: string)
    requires s != []
    ensures Encode(s) == EncodeChar(s[0]) + Encode(s[1..])
  {
  }

  lemma TailAt(s: string, n: nat)
    requires n < |s|
    ensures s[n..][0] == s[n] && s[n..][1..] == s[n + 1..]
  {
  }

  lemma EncodeAround(s: string, n: nat)
    requires n < |s|
    ensures Encode(s) == Encode(s[..n]) + EncodeChar(s[n]) + Encode(s[n + 1..])
  {
    EncodeSplit(s, n);
    EncodeFirst(s[n..]);
    TailAt(s, n);
  }

  lemma RemoveRefines(s: string, n: nat)
    requires n < |s|
    ensures var i := ByteOffset(Encode(s), n);
            && IsCharBoundary(Encode(s), i) && i < |Encode(s)|
            && RemoveAt(Encode(s), i) == Encode(s[..n] + s[n + 1..])
  {
    ByteOffsetSplits(s, n);
    EncodeAround(s, n);
    EncodeCharShape(s[n]);
    RemoveMiddle(Encode(s[..n]), EncodeChar(s[n]), Encode(s[n + 1..]));
    EncodeConcat(s[..n], s[n + 1..]);
  }

  lemma TruncateRefines(s: string, n: nat)
    requires n <= |s|
    ensures IsCharBoundary(Encode(s), ByteOffset(Encode(s), n))
    ensures TruncateAt(Encode(s), ByteOffset(Encode(s), n)) == Encode(s[..n])
  {
    ByteOffsetSplits(s, n);
  }

  // ---- the same, starting from bytes that are known to encode some text -------------------------

  lemma InsertDecodes(b: seq<Byte>, n: nat, c: char)
    requires Decode(b).Some? && n <= |Chars(b)|
    ensures IsCharBoundary(b, ByteOffset(b, n))
    ensures Decode(InsertAt(b, ByteOffset(b, n), c)) == Some(Chars(b)[..n] + [c] + Chars(b)[n..])
  {
    EncodeOfDecode(b);
    InsertRefines(Chars(b), n, c);
    DecodeOfEncode(Chars(b)[..n] + [c] + Chars(b)[n..]);
  }

  lemma RemoveDecodes(b: seq<Byte>, n: nat)
    requires Decode(b).Some? && n < |Chars(b)|
    ensures IsCharBoundary(b, ByteOffset(b, n)) && ByteOffset(b, n) < |b|
    ensures Decode(RemoveAt(b, ByteOffset(b, n))) == Some(Chars(b)[..n] + Chars(b)[n + 1..])
  {
    EncodeOfDecode(b);
    RemoveRefines(Chars(b), n);
    DecodeOfEncode(Chars(b)[..n] + Chars(b)[n + 1..]);
  }

  lemma TruncateDecodes(b: seq<Byte>, n: nat)
    requires Decode(b).Some? && n <= |Chars(b)|
    ensures IsCharBoundary(b, ByteOffset(b, n))
    ensures Decode(TruncateAt(b, ByteOffset(b, n))) == Some(Chars(b)[..n])
  {
    EncodeOfDecode(b);
    TruncateRefines(Chars(b), n);
    DecodeOfEncode(Chars(b)[..n]);
  }

  /** What follows a prefix can be sliced off and is the rest of the text. */
  lemma SliceDecodes(b: seq<Byte>, s: string)
    requires Decode(b).Some?
    ensures b <= Encode(s) && |Encode(s)| > |b| <==> Chars(b) <= s && |s| > |Chars(b)|
    ensures Chars(b) <= s ==>
      IsCharBoundary(Encode(s), |b|) && Decode(SliceFrom(Encode(s), |b|)) == Some(s[|Chars(b)|..])
  {
    EncodeOfDecode(b);
    var line := Chars(b);
    ProperPrefixOfEncode(line, s);
    if line <= s {
      EncodeSplit(s, |line|);
      assert s[..|line|] == line;
      PrefixEndsAtBoundary(s, |line|);
      DecodeOfEncode(s[|line|..]);
    }
  }
}
