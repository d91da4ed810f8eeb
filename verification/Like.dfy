/**
 SQLite's `LIKE ... ESCAPE '\'` as a matcher on text, and the escaping that makes a typed prefix match
 literally. `LIKE` ignores the case of the ASCII letters and of no others.
 */
module Like {
  import opened Prelude
  import Keys

  const ESCAPE := '\\'
  const ANY_RUN := '%'
  const ANY_CHAR := '_'

  predicate SameFolded(a: char, b: char) {
    Keys.ToAsciiLower(a) == Keys.ToAsciiLower(b)
  }

  /** Does `s LIKE pattern ESCAPE '\'` hold? */
  predicate Matches(pattern: string, s: string)
    decreases |pattern| + |s|
  {
    if pattern == [] then
      s == []
    else if pattern[0] == ANY_RUN then
      Matches(pattern[1..], s) || (s != [] && Matches(pattern, s[1..]))
    else if pattern[0] == ESCAPE then
      |pattern| > 1 && s != [] && SameFolded(pattern[1], s[0]) && Matches(pattern[2..], s[1..])
    else
      s != [] && (pattern[0] == ANY_CHAR || SameFolded(pattern[0], s[0])) && Matches(pattern[1..], s[1..])
  }

  predicate IsSpecial(c: char) {
    c == ESCAPE || c == ANY_RUN || c == ANY_CHAR
  }

  /** `prefix` with a backslash before each character that LIKE would interpret. */
  function Escaped(prefix: string): string {
    if prefix == [] then []
    else (if IsSpecial(prefix[0]) then [ESCAPE, prefix[0]] else [prefix[0]]) + Escaped(prefix[1..])
  }

  method LikeEscape(prefix: string) returns (out: string)
    ensures out == Escaped(prefix)
  {
    out := [];
    assert prefix[0..] == prefix;
    for i := 0 to |prefix|
      invariant out + Escaped(prefix[i..]) == Escaped(prefix)
    {
      assert prefix[i..][1..] == prefix[i + 1..];
      var ch := prefix[i];
      ghost var before := out;
      if IsSpecial(ch) {
        out := out + [ESCAPE, ch];
        assert out + Escaped(prefix[i + 1..]) == before + ([ESCAPE, ch] + Escaped(prefix[i + 1..]));
      } else {
        out := out + [ch];
        assert out + Escaped(prefix[i + 1..]) == before + ([ch] + Escaped(prefix[i + 1..]));
      }
    }
    assert prefix[|prefix|..] == [];
    assert out + [] == out;
  }

  /** `prefix` is a prefix of `s`, up to the case of ASCII letters. */
  ghost predicate IsFoldedPrefix(prefix: string, s: string) {
    |prefix| <= |s| && forall i :: 0 <= i < |prefix| ==> SameFolded(prefix[i], s[i])
  }

  lemma {:induction false} AnyRunMatchesAll(s: string)
    ensures Matches([ANY_RUN], s)
  {
    assert [ANY_RUN][1..] == [];
    if s != [] {
      AnyRunMatchesAll(s[1..]);
    }
  }

  /** The escaped prefix followed by `%` matches exactly the texts that begin with the prefix. */
  lemma {:induction false} EscapedPrefixMatches(prefix: string, s: string)
    ensures Matches(Escaped(prefix) + [ANY_RUN], s) <==> IsFoldedPrefix(prefix, s)
  {
    var pattern := Escaped(prefix) + [ANY_RUN];
    if prefix == [] {
      assert pattern == [ANY_RUN];
      AnyRunMatchesAll(s);
    } else {
      var rest := Escaped(prefix[1..]) + [ANY_RUN];
      if IsSpecial(prefix[0]) {
        assert pattern == [ESCAPE, prefix[0]] + rest;
        assert pattern[2..] == rest;
      } else {
        assert pattern == [prefix[0]] + rest;
        assert pattern[1..] == rest;
      }
      if s != [] {
        EscapedPrefixMatches(prefix[1..], s[1..]);
        FoldedPrefixSplits(prefix, s);
      }
    }
  }

  lemma FoldedPrefixSplits(prefix: string, s: string)
    requires prefix != [] && s != []
    ensures IsFoldedPrefix(prefix, s) <==> SameFolded(prefix[0], s[0]) && IsFoldedPrefix(prefix[1..], s[1..])
  {
    if SameFolded(prefix[0], s[0]) && IsFoldedPrefix(prefix[1..], s[1..]) {
      forall i | 0 <= i < |prefix|
        ensures SameFolded(prefix[i], s[i])
      {
        if i > 0 {
          assert prefix[i] == prefix[1..][i - 1] && s[i] == s[1..][i - 1];
        }
      }
    }
  }
}
