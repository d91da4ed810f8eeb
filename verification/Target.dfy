/** The command line target `user@host[:port]`. */
module Target {
  import opened Prelude
  import Decimal

  datatype Target = Target(user: string, host: string, port: Option<nat>)

  datatype TargetError = MissingAt | EmptyUser | UnbalancedBracket | InvalidPort

  /** Index of the last occurrence of `c`. */
  function LastOf(s: string, c: char): (i: Option<nat>)
    ensures i.None? ==> c !in s
    ensures i.Some? ==> i.value < |s| && s[i.value] == c && c !in s[i.value + 1..]
  {
    if s == [] then None
    else if s[|s| - 1] == c then Some(|s| - 1)
    else
      var front := s[..|s| - 1];
      var i := LastOf(front, c);
      assert s == front + [s[|s| - 1]];
      assert i.Some? ==> s[i.value + 1..] == front[i.value + 1..] + [s[|s| - 1]];
      i
  }

  function WithPort(user: string, host: string, port: string): Result<Target, TargetError> {
    match Decimal.ParseU16(port)
    case None => Err(InvalidPort)
    case Some(p) => Ok(Target(user, host, Some(p)))
  }

  function ParseHost(user: string, rest: string): Result<Target, TargetError> {
    match LastOf(rest, ':')
    case None => Ok(Target(user, rest, None))
    case Some(colon) =>
      if rest[0] == '[' then
        var end := FirstIndex(rest, ']');
        if end == |rest| then Err(UnbalancedBracket)
        else
          var host := rest[1..end];
          var after := rest[end + 1..];
          if after != [] && after[0] == ':' then WithPort(user, host, after[1..]) else Ok(Target(user, host, None))
      else
        WithPort(user, rest[..colon], rest[colon + 1..])
  }

  function ParseTarget(s: string): Result<Target, TargetError> {
    var at := FirstIndex(s, '@');
    if at == |s| then Err(MissingAt)
    else if at == 0 then Err(EmptyUser)
    else ParseHost(s[..at], s[at + 1..])
  }

  // ---- printing and reading back ----------------------------------------------------------------

  function PrintHost(t: Target, v6: bool): string {
    (if v6 then ['['] + t.host + [']'] else t.host) + PortSuffix(t.port)
  }

  /** `v6` hosts are printed in brackets. */
  function PrintTarget(t: Target, v6: bool): string {
    t.user + ['@'] + PrintHost(t, v6)
  }

  predicate IsPrintableHost(t: Target, v6: bool) {
    if v6 then ']' !in t.host && (t.port.None? ==> ':' in t.host)
    else if t.port.Some? then t.host == [] || t.host[0] != '['
    else ':' !in t.host
  }

  /** The targets that survive being printed. */
  predicate IsPrintable(t: Target, v6: bool) {
    && t.user != [] && '@' !in t.user
    && (t.port.Some? ==> t.port.value <= Decimal.U16_MAX)
    && IsPrintableHost(t, v6)
  }

  lemma {:induction false} FirstOfConcat(a: string, c: char, b: string)
    requires c !in a
    ensures FirstIndex(a + [c] + b, c) == |a|
  {
    if a == [] {
      assert a + [c] + b == [c] + b;
    } else {
      assert a[0] in a;
      assert (a + [c] + b)[1..] == a[1..] + [c] + b;
      FirstOfConcat(a[1..], c, b);
    }
  }

  lemma {:induction false} LastOfConcat(a: string, c: char, b: string)
    requires c !in b
    ensures LastOf(a + [c] + b, c) == Some(|a|)
  {
    var s := a + [c] + b;
    if b != [] {
      assert b[|b| - 1] in b;
      assert s[..|s| - 1] == a + [c] + b[..|b| - 1];
      LastOfConcat(a, c, b[..|b| - 1]);
    }
  }

  lemma {:induction false} FirstOfAtMost(s: string, c: char, i: nat)
    requires i < |s| && s[i] == c
    ensures FirstIndex(s, c) <= i
  {
    if i > 0 && s[0] != c {
      FirstOfAtMost(s[1..], c, i - 1);
    }
  }

  /** The decimal digits of a port contain neither separators nor brackets. */
  lemma PortText(n: nat)
    ensures ':' !in Decimal.Print(n) && ']' !in Decimal.Print(n) && Decimal.Print(n) != []
  {
    Decimal.PrintRoundTrip(n);
    var s := Decimal.Print(n);
    assert forall i :: 0 <= i < |s| ==> Decimal.IsDigit(s[i]);
  }

  function PortSuffix(port: Option<nat>): string {
    if port.Some? then [':'] + Decimal.Print(port.value) else []
  }

  /** A bracketed host without closing bracket of its own is found between the brackets. */
  lemma BracketedHost(user: string, host: string, tail: string)
    requires ']' !in host && (':' in host || ':' in tail)
    ensures ParseHost(user, ['['] + host + [']'] + tail)
         == if tail != [] && tail[0] == ':' then WithPort(user, host, tail[1..]) else Ok(Target(user, host, None))
  {
    var rest := ['['] + host + [']'] + tail;
    assert ':' in rest;
    FirstOfConcat(['['] + host, ']', tail);
    assert rest[1..|host| + 1] == host && rest[|host| + 2..] == tail;
  }

  /** With a closing bracket of its own the host is cut there. */
  lemma BracketedHostIsCut(user: string, host: string, tail: string)
    requires ']' in host
    ensures var r := ParseHost(user, ['['] + host + [']'] + tail); r.Ok? ==> r.value.host != host
  {
    var rest := ['['] + host + [']'] + tail;
    var i :| 0 <= i < |host| && host[i] == ']';
    assert rest[i + 1] == ']';
    FirstOfAtMost(rest, ']', i + 1);
    var end := FirstIndex(rest, ']');
    assert |rest[1..end]| < |host|;
  }

  lemma BracketedReadsBack(user: string, host: string, port: Option<nat>)
    ensures ParseHost(user, ['['] + host + [']'] + PortSuffix(port)) == Ok(Target(user, host, port))
            <==> (port.Some? ==> port.value <= Decimal.U16_MAX) && ']' !in host && (port.None? ==> ':' in host)
  {
    var tail := PortSuffix(port);
    if ']' in host {
      BracketedHostIsCut(user, host, tail);
    } else if port.Some? {
      assert tail[0] == ':' && tail[1..] == Decimal.Print(port.value);
      BracketedHost(user, host, tail);
      Decimal.ParsePrinted(port.value);
    } else if ':' in host {
      BracketedHost(user, host, tail);
    } else {
      assert ':' !in ['['] + host + [']'] + tail;
    }
  }

  lemma SplitAtPort(user: string, host: string, digits: string)
    requires ':' !in digits && (host == [] || host[0] != '[')
    ensures ParseHost(user, host + [':'] + digits) == WithPort(user, host, digits)
  {
    var rest := host + [':'] + digits;
    LastOfConcat(host, ':', digits);
    assert rest[..|host|] == host && rest[|host| + 1..] == digits;
  }

  /** A plain host that looks bracketed is never taken as it stands. */
  lemma LooksBracketed(user: string, host: string, digits: string)
    requires ':' !in digits && digits != [] && ']' !in digits && host != [] && host[0] == '['
    ensures var r := ParseHost(user, host + [':'] + digits); r.Ok? ==> r.value.host != host
  {
    var rest := host + [':'] + digits;
    LastOfConcat(host, ':', digits);
    var end := FirstIndex(rest, ']');
    assert digits[0] in digits && rest[|host| + 1] == digits[0];
    assert end < |rest| ==> |rest[1..end]| == end - 1;
  }

  lemma PlainWithPort(user: string, host: string, port: nat)
    ensures ParseHost(user, host + PortSuffix(Some(port))) == Ok(Target(user, host, Some(port)))
            <==> port <= Decimal.U16_MAX && (host == [] || host[0] != '[')
  {
    var digits := Decimal.Print(port);
    PortText(port);
    assert host + PortSuffix(Some(port)) == host + [':'] + digits;
    if host == [] || host[0] != '[' {
      SplitAtPort(user, host, digits);
      Decimal.ParsePrinted(port);
    } else {
      LooksBracketed(user, host, digits);
    }
  }

  lemma PlainWithoutPort(user: string, host: string)
    ensures ParseHost(user, host) == Ok(Target(user, host, None)) <==> ':' !in host
  {
    if ':' in host && host[0] == '[' {
      var end := FirstIndex(host, ']');
      assert end < |host| ==> |host[1..end]| < |host|;
    }
  }

  lemma HostReadsBack(t: Target, v6: bool)
    ensures ParseHost(t.user, PrintHost(t, v6)) == Ok(t)
       <==> (t.port.Some? ==> t.port.value <= Decimal.U16_MAX) && IsPrintableHost(t, v6)
  {
    if v6 {
      BracketedReadsBack(t.user, t.host, t.port);
    } else if t.port.Some? {
      PlainWithPort(t.user, t.host, t.port.value);
    } else {
      assert PrintHost(t, v6) == t.host;
      PlainWithoutPort(t.user, t.host);
    }
  }

  /** A user name with an at sign is cut there. */
  lemma UserIsCut(user: string, rest: string)
    requires '@' in user
    ensures var r := ParseTarget(user + ['@'] + rest); r.Ok? ==> r.value.user != user
  {
    var s := user + ['@'] + rest;
    var i :| 0 <= i < |user| && user[i] == '@';
    assert s[i] == '@';
    FirstOfAtMost(s, '@', i);
    var at := FirstIndex(s, '@');
    ParsedHost(s[..at], s[at + 1..]);
    assert |s[..at]| < |user|;
  }

  /** Printing a target and parsing it gives the target back exactly under the conditions of `IsPrintable`. */
  lemma TargetRoundTrip(t: Target, v6: bool)
    ensures ParseTarget(PrintTarget(t, v6)) == Ok(t) <==> IsPrintable(t, v6)
  {
    var rest := PrintHost(t, v6);
    var s := PrintTarget(t, v6);
    if '@' in t.user {
      UserIsCut(t.user, rest);
    } else {
      FirstOfConcat(t.user, '@', rest);
      assert s[..|t.user|] == t.user && s[|t.user| + 1..] == rest;
      HostReadsBack(t, v6);
    }
  }

  /** A printed port that does not fit 16 bits is what the target is refused for. */
  lemma LargePortIsRejected(t: Target, v6: bool)
    requires t.user != [] && '@' !in t.user && IsPrintableHost(t, v6)
    requires t.port.Some? && t.port.value > Decimal.U16_MAX
    ensures ParseTarget(PrintTarget(t, v6)) == Err(InvalidPort)
  {
    var digits := Decimal.Print(t.port.value);
    PortText(t.port.value);
    Decimal.ParsePrinted(t.port.value);
    var rest := PrintHost(t, v6);
    var s := PrintTarget(t, v6);
    FirstOfConcat(t.user, '@', rest);
    assert s[..|t.user|] == t.user && s[|t.user| + 1..] == rest;
    if v6 {
      var tail := PortSuffix(t.port);
      assert tail[0] == ':' && tail[1..] == digits;
      BracketedHost(t.user, t.host, tail);
    } else {
      assert rest == t.host + [':'] + digits;
      SplitAtPort(t.user, t.host, digits);
    }
  }

  lemma ParsedHost(user: string, rest: string)
    ensures match ParseHost(user, rest)
            case Ok(t) => t.user == user && (t.port.Some? ==> t.port.value <= Decimal.U16_MAX)
            case Err(e) => e == UnbalancedBracket || e == InvalidPort
  {
  }

  lemma FirstOfEnds(s: string, c: char)
    ensures FirstIndex(s, c) == |s| <==> c !in s
  {
    assert s[..|s|] == s;
  }

  /** Of any string whatever: which part of it is wrong, and what an accepted one yields. */
  lemma ParsedParts(s: string)
    ensures ParseTarget(s) == Err(MissingAt) <==> '@' !in s
    ensures ParseTarget(s) == Err(EmptyUser) <==> s != [] && s[0] == '@'
    ensures match ParseTarget(s)
            case Ok(t) =>
              && t.user != [] && '@' !in t.user && t.user + ['@'] <= s
              && (t.port.Some? ==> t.port.value <= Decimal.U16_MAX)
            case Err(_) => true
  {
    var at := FirstIndex(s, '@');
    FirstOfEnds(s, '@');
    if 0 < at < |s| {
      ParsedHost(s[..at], s[at + 1..]);
      assert s[..at] + ['@'] == s[..at + 1];
    }
  }

  // ---- the forms of a target --------------------------------------------------------------------

  lemma SplitAtUser(user: string, rest: string)
    requires user != [] && '@' !in user
    ensures ParseTarget(user + ['@'] + rest) == ParseHost(user, rest)
  {
    var s := user + ['@'] + rest;
    FirstOfConcat(user, '@', rest);
    assert s[..|user|] == user && s[|user| + 1..] == rest;
  }

  /** Without a colon all of it is the host. */
  lemma HostAlone(user: string, host: string)
    requires user != [] && '@' !in user && ':' !in host
    ensures ParseTarget(user + ['@'] + host) == Ok(Target(user, host, None))
  {
    SplitAtUser(user, host);
  }

  /** A host that does not look bracketed ends at the last colon; what follows has to be a port. */
  lemma HostAndPort(user: string, host: string, port: string)
    requires user != [] && '@' !in user && (host == [] || host[0] != '[') && ':' !in port
    ensures ParseTarget(user + ['@'] + (host + [':'] + port))
         == match Decimal.ParseU16(port)
            case Some(n) => Ok(Target(user, host, Some(n)))
            case None => Err(InvalidPort)
  {
    SplitAtUser(user, host + [':'] + port);
    SplitAtPort(user, host, port);
  }

  /** A bracketed host ends at the first closing bracket; a colon right after it has to begin a port. */
  lemma Bracketed(user: string, host: string, tail: string)
    requires user != [] && '@' !in user && ']' !in host && (':' in host || ':' in tail)
    ensures ParseTarget(user + ['@'] + (['['] + host + [']'] + tail))
         == if tail == [] || tail[0] != ':' then Ok(Target(user, host, None))
            else
              match Decimal.ParseU16(tail[1..])
              case Some(n) => Ok(Target(user, host, Some(n)))
              case None => Err(InvalidPort)
  {
    SplitAtUser(user, ['['] + host + [']'] + tail);
    BracketedHost(user, host, tail);
  }

  /** An opening bracket that nothing closes. */
  lemma Unbalanced(user: string, rest: string)
    requires user != [] && '@' !in user && rest != [] && rest[0] == '[' && ':' in rest && ']' !in rest
    ensures ParseTarget(user + ['@'] + rest) == Err(UnbalancedBracket)
  {
    SplitAtUser(user, rest);
    FirstOfEnds(rest, ']');
  }
}
