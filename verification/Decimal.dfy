/** Decimal numbers as text: how they are printed, and how a `u16` is parsed. */
module Decimal {
  import opened Prelude

  function Digit(d: nat): char
    requires d < 10
  {
    ('0' as int + d) as char
  }

  predicate IsDigit(c: char) {
    '0' <= c <= '9'
  }

  function DigitValue(c: char): nat
    requires IsDigit(c)
  {
    c as int - '0' as int
  }

  function Print(n: nat): string {
    (if n < 10 then [] else Print(n / 10)) + [Digit(n % 10)]
  }

  predicate AllDigits(s: string) {
    forall i :: 0 <= i < |s| ==> IsDigit(s[i])
  }

  function Value(s: string): nat
    requires AllDigits(s)
  {
    if s == [] then 0 else Value(s[..|s| - 1]) * 10 + DigitValue(s[|s| - 1])
  }

  const U16_MAX := 65535

  /** `str::parse::<u16>`: an optional plus sign, at least one digit, no overflow. */
  function ParseU16(s: string): Option<nat> {
    var digits := if |s| > 1 && s[0] == '+' then s[1..] else s;
    if digits == [] || !AllDigits(digits) || Value(digits) > U16_MAX then None else Some(Value(digits))
  }

  lemma DigitRoundTrip(d: nat)
    requires d < 10
    ensures IsDigit(Digit(d)) && DigitValue(Digit(d)) == d
  {
  }

  lemma LastDigit(n: nat)
    ensures n == n / 10 * 10 + n % 10
  {
  }

  lemma AppendDigit(s: string, d: nat)
    requires AllDigits(s) && d < 10
    ensures AllDigits(s + [Digit(d)]) && Value(s + [Digit(d)]) == Value(s) * 10 + d
  {
    var t := s + [Digit(d)];
    DigitRoundTrip(d);
    assert t[..|t| - 1] == s;
  }

  lemma {:induction false} PrintRoundTrip(n: nat)
    ensures Print(n) != [] && AllDigits(Print(n)) && Value(Print(n)) == n
  {
    LastDigit(n);
    if n < 10 {
      AppendDigit([], n % 10);
    } else {
      PrintRoundTrip(n / 10);
      AppendDigit(Print(n / 10), n % 10);
    }
  }

  /** Parsing inverts printing for every `u16` and rejects every larger number. */
  lemma ParsePrinted(n: nat)
    ensures ParseU16(Print(n)) == if n <= U16_MAX then Some(n) else None
  {
    PrintRoundTrip(n);
    assert IsDigit(Print(n)[0]);
  }

  /** Accepted as a `u16` is a decimal number up to 65535, with or without a plus sign before it. */
  lemma ParseU16Iff(s: string, n: nat)
    ensures ParseU16(s) == Some(n)
       <==> n <= 65535 && exists digits :: IsDecimal(digits, n) && (s == digits || s == ['+'] + digits)
  {
    if digits :| IsDecimal(digits, n) && (s == digits || s == ['+'] + digits) {
      assert IsDigit(digits[0]);
      assert (['+'] + digits)[1..] == digits;
    }
    if ParseU16(s) == Some(n) {
      var digits := if |s| > 1 && s[0] == '+' then s[1..] else s;
      assert IsDecimal(digits, n);
      assert s == digits || s == ['+'] + digits;
    }
  }

  predicate IsDecimal(digits: string, n: nat) {
    digits != [] && AllDigits(digits) && Value(digits) == n
  }

  /** Length of the longest prefix of digits. */
  function DigitCount(s: string): (n: nat)
    ensures n <= |s| && AllDigits(s[..n])
  {
    if s == [] || !IsDigit(s[0]) then 0
    else
      var n := 1 + DigitCount(s[1..]);
      assert s[..n] == [s[0]] + s[1..][..n - 1];
      n
  }

  /** A number at the start of `s`, and what follows it. */
  function ReadNumber(s: string): (nat, string) {
    var n := DigitCount(s);
    (Value(s[..n]), s[n..])
  }

  lemma {:induction false} DigitCountStops(digits: string, rest: string)
    requires AllDigits(digits) && (rest == [] || !IsDigit(rest[0]))
    ensures DigitCount(digits + rest) == |digits|
  {
    if digits == [] {
      assert digits + rest == rest;
    } else {
      assert (digits + rest)[1..] == digits[1..] + rest;
      DigitCountStops(digits[1..], rest);
    }
  }

  lemma ReadPrinted(n: nat, rest: string)
    requires rest == [] || !IsDigit(rest[0])
    ensures ReadNumber(Print(n) + rest) == (n, rest)
  {
    PrintRoundTrip(n);
    DigitCountStops(Print(n), rest);
    assert (Print(n) + rest)[..|Print(n)|] == Print(n);
    assert (Print(n) + rest)[|Print(n)|..] == rest;
  }
}
