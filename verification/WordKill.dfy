/** What Ctrl-W removes: exactly one word and the white space behind it. */
module WordKill {
  import opened AppSpec
  import opened LineEditor

  /** The property White_Space of Unicode, character by character. */
  const WHITE_SPACE: string := [
    '\U{9}', '\U{A}', '\U{B}', '\U{C}', '\U{D}', '\U{20}', '\U{85}', '\U{A0}', '\U{1680}',
    '\U{2000}', '\U{2001}', '\U{2002}', '\U{2003}', '\U{2004}', '\U{2005}', '\U{2006}', '\U{2007}',
    '\U{2008}', '\U{2009}', '\U{200A}', '\U{2028}', '\U{2029}', '\U{202F}', '\U{205F}', '\U{3000}']

  lemma WhiteSpaceIs(c: char)
    ensures IsWhitespace(c) <==> c in WHITE_SPACE
  {
    if IsWhitespace(c) {
      var v := c as int;
      var i := if v <= 13 then v - 9 else if v == 0x20 then 5 else if v == 0x85 then 6 else if v == 0xA0 then 7
               else if v == 0x1680 then 8 else if v <= 0x200A then 9 + (v - 0x2000)
               else if v <= 0x2029 then 20 + (v - 0x2028)
               else if v == 0x202F then 22 else if v == 0x205F then 23 else 24;
      assert WHITE_SPACE[i] == c;
    }
  }

  /** `line[i..j]` is a word up to its left end and `line[j..cursor]` the white space behind it. */
  ghost predicate IsLastWord(line: string, cursor: nat, i: nat, j: nat) {
    && i <= j <= cursor <= |line|
    && (forall k :: j <= k < cursor ==> IsWhitespace(line[k]))
    && (j > 0 ==> !IsWhitespace(line[j - 1]))
    && (forall k :: i <= k < j ==> !IsWhitespace(line[k]))
    && (i > 0 ==> IsWhitespace(line[i - 1]))
  }

  /** The kill goes back to the start of the last word, and to nowhere else. */
  lemma WordStartIff(line: string, cursor: nat, i: nat)
    requires cursor <= |line|
    ensures i == WordStart(line, cursor) <==> exists j :: IsLastWord(line, cursor, i, j)
  {
    var j0 := SkipBack(line, cursor, true);
    var i0 := SkipBack(line, j0, false);
    SkipBackStops(line, cursor, true);
    SkipBackStops(line, j0, false);
    assert IsLastWord(line, cursor, i0, j0);
    if j: nat :| IsLastWord(line, cursor, i, j) {
      assert j == j0;
      assert i == i0;
    }
  }

  /** The text after the cursor stays, the text before it loses its last word, and something is lost. */
  lemma KillWordExact(line: string, cursor: nat)
    requires cursor <= |line|
    ensures var (killed, c) := KillWord(line, cursor);
            && (exists j :: IsLastWord(line, cursor, c, j))
            && killed[..c] == line[..c] && killed[c..] == line[cursor..]
            && (cursor > 0 ==> |killed| < |line|)
  {
    var (killed, c) := KillWord(line, cursor);
    WordStartIff(line, cursor, c);
    if cursor > 0 {
      WordStartMoves(line, cursor);
    }
  }

  /** The words that begin in `s[..n]`: characters that are not white space and do not follow one that is not. */
  function Words(s: string, n: nat): nat
    requires n <= |s|
  {
    if n == 0 then 0
    else Words(s, n - 1) + (if !IsWhitespace(s[n - 1]) && (n == 1 || IsWhitespace(s[n - 2])) then 1 else 0)
  }

  lemma {:induction false} NoWordInWhitespace(s: string, a: nat, b: nat)
    requires a <= b <= |s| && forall k :: a <= k < b ==> IsWhitespace(s[k])
    ensures Words(s, b) == Words(s, a)
  {
    if a < b {
      NoWordInWhitespace(s, a, b - 1);
    }
  }

  lemma {:induction false} OneWordInRun(s: string, a: nat, b: nat)
    requires a < b <= |s| && forall k :: a <= k < b ==> !IsWhitespace(s[k])
    requires a > 0 ==> IsWhitespace(s[a - 1])
    ensures Words(s, b) == Words(s, a) + 1
  {
    if a + 1 < b {
      OneWordInRun(s, a, b - 1);
    }
  }

  lemma {:induction false} WordsOfPrefix(s: string, t: string, n: nat)
    requires n <= |s| && n <= |t| && s[..n] == t[..n]
    ensures Words(s, n) == Words(t, n)
  {
    if n > 0 {
      assert s[n - 1] == s[..n][n - 1] == t[n - 1];
      assert n > 1 ==> s[n - 2] == s[..n][n - 2] == t[n - 2];
      assert s[..n - 1] == s[..n][..n - 1] == t[..n - 1];
      WordsOfPrefix(s, t, n - 1);
    }
  }

  /** How many times Ctrl-W has to be pressed until nothing is left before the cursor. */
  function KillsToClear(line: string, cursor: nat): nat
    requires cursor <= |line|
    decreases cursor
  {
    if cursor == 0 then 0
    else
      WordStartMoves(line, cursor);
      var (killed, c) := KillWord(line, cursor);
      1 + KillsToClear(killed, c)
  }

  /** One press for each word before the cursor, and one more if that text begins with white space. */
  lemma {:induction false} KillsToClearCount(line: string, cursor: nat)
    requires cursor <= |line|
    ensures KillsToClear(line, cursor)
         == Words(line, cursor) + (if cursor > 0 && IsWhitespace(line[0]) then 1 else 0)
    decreases cursor
  {
    if cursor > 0 {
      WordStartMoves(line, cursor);
      var (killed, c) := KillWord(line, cursor);
      KillWordExact(line, cursor);
      var j :| IsLastWord(line, cursor, c, j);
      KillsToClearCount(killed, c);
      WordsOfPrefix(killed, line, c);
      NoWordInWhitespace(line, j, cursor);
      if c < j {
        OneWordInRun(line, c, j);
        assert c > 0 ==> killed[0] == line[0];
      } else {
        assert c == 0;
      }
    }
  }

  // ---- when the reference editor kills the same word ---------------------------------------------

  lemma {:induction false} TrimEndStops(s: string, belongs: char -> bool)
    ensures var n := |TrimEnd(s, belongs)|;
            && (forall k :: n <= k < |s| ==> belongs(s[k]))
            && (n > 0 ==> !belongs(s[n - 1]))
            && TrimEnd(s, belongs) == s[..n]
  {
    if s != [] && belongs(s[|s| - 1]) {
      TrimEndStops(s[..|s| - 1], belongs);
    }
  }

  /** Where the trailing blanks of `s` begin. */
  function BlankStart(s: string): (j: nat)
    ensures j <= |s|
  {
    |TrimEnd(s, Blanks(true))|
  }

  /** Where the blank-delimited word before them begins. */
  function RubStart(s: string): (r: nat)
    ensures r <= BlankStart(s)
  {
    |TrimEnd(s[..BlankStart(s)], Blanks(false))|
  }

  lemma BlankStops(s: string)
    ensures var j := BlankStart(s);
            && (forall k :: j <= k < |s| ==> IsBlank(s[k])) && (j > 0 ==> !IsBlank(s[j - 1]))
            && TrimEnd(s, Blanks(true)) == s[..j]
  {
    TrimEndStops(s, Blanks(true));
  }

  lemma WordStops(t: string)
    ensures var r := |TrimEnd(t, Blanks(false))|;
            && (forall k :: r <= k < |t| ==> !IsBlank(t[k])) && (r > 0 ==> IsBlank(t[r - 1]))
            && TrimEnd(t, Blanks(false)) == t[..r]
  {
    TrimEndStops(t, Blanks(false));
  }

  lemma RubStops(s: string)
    ensures var j, r := BlankStart(s), RubStart(s);
            && (forall k :: j <= k < |s| ==> IsBlank(s[k])) && (j > 0 ==> !IsBlank(s[j - 1]))
            && (forall k :: r <= k < j ==> !IsBlank(s[k])) && (r > 0 ==> IsBlank(s[r - 1]))
            && (r > 0 ==> r < j)
  {
    var j := BlankStart(s);
    BlankStops(s);
    WordStops(s[..j]);
    SamePrefix(s, j);
  }

  lemma SamePrefix(s: string, j: nat)
    requires j <= |s|
    ensures forall k :: 0 <= k < j ==> s[..j][k] == s[k]
  {
  }

  /** What the editor leaves of `s`. */
  lemma RubbedText(s: string)
    ensures TrimEnd(TrimEnd(s, Blanks(true)), Blanks(false)) == s[..RubStart(s)]
  {
    var j := BlankStart(s);
    BlankStops(s);
    WordStops(s[..j]);
    assert s[..j][..RubStart(s)] == s[..RubStart(s)];
  }

  /**
   The blank-delimited word at the end of `s` is also one between white space: it does not begin with white
   space unless nothing is before it, and white space in it is followed by nothing but white space.
   */
  predicate WordsAgree(s: string) {
    var j, r := BlankStart(s), RubStart(s);
    && (r == 0 || (r < j && !IsWhitespace(s[r])))
    && forall i, k :: r <= i < k < j && IsWhitespace(s[i]) ==> IsWhitespace(s[k])
  }

  lemma AgreeingWordsStart(s: string)
    requires WordsAgree(s)
    ensures RubStart(s) == WordStart(s, |s|)
  {
    var j, r := BlankStart(s), RubStart(s);
    RubStops(s);
    var w := SkipBack(s, |s|, true);
    SkipBackStops(s, |s|, true);
    assert w <= j;
    assert r <= w;
    assert forall k :: r <= k < w ==> !IsWhitespace(s[k]);
    assert IsLastWord(s, |s|, r, w);
    WordStartIff(s, |s|, r);
  }

  lemma EqualStartsAgree(s: string)
    requires RubStart(s) == WordStart(s, |s|)
    ensures WordsAgree(s)
  {
    var j, r := BlankStart(s), RubStart(s);
    RubStops(s);
    var w := SkipBack(s, |s|, true);
    SkipBackStops(s, |s|, true);
    SkipBackStops(s, w, false);
    forall i, k | r <= i < k < j && IsWhitespace(s[i])
      ensures IsWhitespace(s[k])
    {
      assert i >= w;
    }
  }

  lemma {:induction false} SkipBackOfPrefix(s: string, t: string, i: nat, whitespace: bool)
    requires i <= |s| && s <= t
    ensures SkipBack(t, i, whitespace) == SkipBack(s, i, whitespace)
  {
    if i > 0 && IsWhitespace(s[i - 1]) == whitespace {
      SkipBackOfPrefix(s, t, i - 1, whitespace);
    }
  }

  /** What is after the cursor plays no part. */
  lemma WordStartOfPrefix(line: string, cursor: nat)
    requires cursor <= |line|
    ensures WordStart(line, cursor) == WordStart(line[..cursor], cursor)
  {
    var s := line[..cursor];
    SkipBackOfPrefix(s, line, cursor, true);
    SkipBackOfPrefix(s, line, SkipBack(s, cursor, true), false);
  }

  /** Ctrl-W removes the same from the shadow and in the editor exactly if the words agree. */
  lemma RubsAgreeIff(s: string)
    ensures TrimEnd(TrimEnd(s, Blanks(true)), Blanks(false)) == s[..WordStart(s, |s|)] <==> WordsAgree(s)
  {
    RubbedText(s);
    if WordsAgree(s) {
      AgreeingWordsStart(s);
    }
    if RubStart(s) == WordStart(s, |s|) {
      EqualStartsAgree(s);
    }
    assert |s[..RubStart(s)]| == RubStart(s) && |s[..WordStart(s, |s|)]| == WordStart(s, |s|);
  }

  /** In particular they agree as long as all white space is spaces and tabs. */
  lemma BlankLinesAgree(s: string)
    requires forall k :: 0 <= k < |s| && IsWhitespace(s[k]) ==> IsBlank(s[k])
    ensures WordsAgree(s)
  {
    RubStops(s);
  }

  /** An ideographic space parts words for the client and not for the editor. */
  const IDEOGRAPHIC: string := ['a', '\U{3000}', 'b']

  lemma IdeographicSpaceDisagrees()
    ensures !WordsAgree(IDEOGRAPHIC)
  {
    RubStops(IDEOGRAPHIC);
    assert IsWhitespace(IDEOGRAPHIC[1]) && !IsWhitespace(IDEOGRAPHIC[2]);
  }
}
