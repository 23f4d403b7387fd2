/**
 Tokenisation of document text: `splitContent` finds the maximal runs of word
 characters (the regular expression `[\w]+`, scanned left to right), and
 `getWordList` lower-cases each run.

 Word characters and lower-casing are given ASCII meanings here: a word
 character is a letter, a digit or `_`, and lower-casing maps `A`..`Z` to
 `a`..`z` and leaves every other character alone.
 */
module Tokenizer {

  /** Python's `\w`, restricted to ASCII. */
  predicate IsWordChar(c: char) {
    ('a' <= c <= 'z') || ('A' <= c <= 'Z') || ('0' <= c <= '9') || c == '_'
  }

  /** Python's `str.lower` on one character, restricted to ASCII. */
  function Lower(c: char): (r: char)
    ensures IsWordChar(r) <==> IsWordChar(c)
    ensures !('A' <= r <= 'Z')
    ensures r == c || 'A' <= c <= 'Z'
  {
    if 'A' <= c <= 'Z' then (c as int - 'A' as int + 'a' as int) as char else c
  }

  /** Lower-casing of a whole string, character by character. */
  function LowerStr(s: string): (r: string)
    ensures |r| == |s|
    ensures forall i :: 0 <= i < |s| ==> r[i] == Lower(s[i])
  {
    seq(|s|, i requires 0 <= i < |s| => Lower(s[i]))
  }

  /** A string that one match of `[\w]+` can produce. */
  predicate IsWord(t: string) {
    |t| > 0 && forall i :: 0 <= i < |t| ==> IsWordChar(t[i])
  }

  /** A string in which `[\w]+` finds nothing. */
  predicate NoWordChars(s: string) {
    forall i :: 0 <= i < |s| ==> !IsWordChar(s[i])
  }

  /** Every character is unchanged by lower-casing. */
  predicate IsLowered(t: string) {
    forall i :: 0 <= i < |t| ==> Lower(t[i]) == t[i]
  }

  /** Length of the longest prefix of `s` made of word characters: the extent of
      a greedy `[\w]+` match that starts at the front of `s`. */
  function RunLength(s: string): (n: nat)
    ensures n <= |s|
    ensures forall i :: 0 <= i < n ==> IsWordChar(s[i])
    ensures n == |s| || !IsWordChar(s[n])
  {
    if |s| == 0 || !IsWordChar(s[0]) then 0 else 1 + RunLength(s[1..])
  }

  /** `splitContent`: all non-overlapping matches of the pattern `[\w]+`, found
      left to right. */
  function SplitContent(s: string): (r: seq<string>)
    ensures forall i :: 0 <= i < |r| ==> IsWord(r[i])
    decreases |s|
  {
    if |s| == 0 then []
    else if !IsWordChar(s[0]) then SplitContent(s[1..])
    else
      var n := RunLength(s);
      [s[..n]] + SplitContent(s[n..])
  }

  /** `getWordList`: the runs of `splitContent`, each lower-cased. */
  function GetWordList(s: string): (r: seq<string>)
    ensures |r| == |SplitContent(s)|
    ensures forall i :: 0 <= i < |r| ==> r[i] == LowerStr(SplitContent(s)[i])
    ensures forall i :: 0 <= i < |r| ==> IsWord(r[i]) && IsLowered(r[i])
  {
    seq(|SplitContent(s)|, i requires 0 <= i < |SplitContent(s)| => LowerStr(SplitContent(s)[i]))
  }

  /** All word characters of `s`, in order. */
  function WordChars(s: string): string {
    if |s| == 0 then []
    else if IsWordChar(s[0]) then [s[0]] + WordChars(s[1..])
    else WordChars(s[1..])
  }

  /** The tokens laid end to end. */
  function Concat(ts: seq<string>): string {
    if |ts| == 0 then [] else ts[0] + Concat(ts[1..])
  }

  /** The tokens separated by single spaces. */
  function JoinSpaces(ts: seq<string>): string {
    if |ts| == 0 then []
    else if |ts| == 1 then ts[0]
    else ts[0] + " " + JoinSpaces(ts[1..])
  }

  // ---------------------------------------------------------------------------
  // Characterisation of `splitContent` by the layout of its input
  // ---------------------------------------------------------------------------

  /** Text without word characters yields no tokens. */
  lemma {:induction false} SplitNoWords(gap: string)
    requires NoWordChars(gap)
    ensures SplitContent(gap) == []
    decreases |gap|
  {
    if |gap| > 0 {
      SplitNoWords(gap[1..]);
    }
  }

  /** A run `t` at the front whose end is a word boundary is the first token. */
  lemma {:induction false} SplitRun(t: string, rest: string)
    requires IsWord(t)
    requires rest == [] || !IsWordChar(rest[0])
    ensures SplitContent(t + rest) == [t] + SplitContent(rest)
  {
    var s := t + rest;
    RunLengthOfRun(t, rest);
    assert s[..|t|] == t;
    assert s[|t|..] == rest;
  }

  lemma {:induction false} RunLengthOfRun(t: string, rest: string)
    requires forall i :: 0 <= i < |t| ==> IsWordChar(t[i])
    requires rest == [] || !IsWordChar(rest[0])
    ensures RunLength(t + rest) == |t|
    decreases |t|
  {
    if |t| > 0 {
      assert (t + rest)[1..] == t[1..] + rest;
      RunLengthOfRun(t[1..], rest);
    }
  }

  /** Skipping a gap: the tokens of `gap + s` are those of `s`. */
  lemma {:induction false} SplitSkipGap(gap: string, s: string)
    requires NoWordChars(gap)
    ensures SplitContent(gap + s) == SplitContent(s)
    decreases |gap|
  {
    if |gap| > 0 {
      assert (gap + s)[0] == gap[0] && !IsWordChar(gap[0]);
      assert (gap + s)[1..] == gap[1..] + s;
      SplitSkipGap(gap[1..], s);
      assert SplitContent(gap + s) == SplitContent((gap + s)[1..]);
    } else {
      assert gap + s == s;
    }
  }

  /** The tokens are the maximal runs: if `s` is a gap, then a run ending at a
      word boundary, then `rest`, the first token is that run and the others are
      the tokens of `rest`. With `SplitNoWords` this determines every result. */
  lemma SplitLayout(gap: string, t: string, rest: string)
    requires NoWordChars(gap)
    requires IsWord(t)
    requires rest == [] || !IsWordChar(rest[0])
    ensures SplitContent(gap + t + rest) == [t] + SplitContent(rest)
  {
    assert gap + t + rest == gap + (t + rest);
    SplitSkipGap(gap, t + rest);
    SplitRun(t, rest);
  }

  /** Round trip: tokens joined by spaces split back into the same tokens. */
  lemma {:induction false} SplitJoinSpaces(ts: seq<string>)
    requires forall i :: 0 <= i < |ts| ==> IsWord(ts[i])
    ensures SplitContent(JoinSpaces(ts)) == ts
    decreases |ts|
  {
    if |ts| == 1 {
      SplitRun(ts[0], []);
      assert ts[0] + [] == ts[0];
      SplitNoWords([]);
    } else if |ts| > 1 {
      var rest := " " + JoinSpaces(ts[1..]);
      assert JoinSpaces(ts) == ts[0] + rest;
      SplitRun(ts[0], rest);
      SplitSkipGap(" ", JoinSpaces(ts[1..]));
      SplitJoinSpaces(ts[1..]);
    }
  }

  /** No character is lost but the separators: the tokens laid end to end are
      exactly the word characters of the input, in order. */
  lemma {:induction false} SplitKeepsWordChars(s: string)
    ensures Concat(SplitContent(s)) == WordChars(s)
    decreases |s|
  {
    if |s| > 0 {
      if !IsWordChar(s[0]) {
        SplitKeepsWordChars(s[1..]);
      } else {
        var n := RunLength(s);
        SplitKeepsWordChars(s[n..]);
        WordCharsOfRun(s, n);
        assert Concat([s[..n]] + SplitContent(s[n..])) == s[..n] + Concat(SplitContent(s[n..]));
      }
    }
  }

  lemma {:induction false} WordCharsOfRun(s: string, n: nat)
    requires n <= |s|
    requires forall i :: 0 <= i < n ==> IsWordChar(s[i])
    ensures WordChars(s) == s[..n] + WordChars(s[n..])
    decreases n
  {
    if n > 0 {
      WordCharsOfRun(s[1..], n - 1);
      assert s[1..][n - 1..] == s[n..];
      assert [s[0]] + s[1..][..n - 1] == s[..n];
    }
  }

  /** Lower-casing the text first gives the same words as `getWordList`:
      lower-casing never turns a word character into a separator or back. */
  lemma {:induction false} LowerThenSplit(s: string)
    ensures SplitContent(LowerStr(s)) == GetWordList(s)
    decreases |s|
  {
    var l := LowerStr(s);
    if |s| > 0 {
      assert l[1..] == LowerStr(s[1..]);
      if !IsWordChar(s[0]) {
        LowerThenSplit(s[1..]);
      } else {
        var n := RunLength(s);
        LowerRunLength(s);
        assert l[..n] == LowerStr(s[..n]);
        assert l[n..] == LowerStr(s[n..]);
        LowerThenSplit(s[n..]);
      }
    }
  }

  lemma {:induction false} LowerRunLength(s: string)
    ensures RunLength(LowerStr(s)) == RunLength(s)
    decreases |s|
  {
  }

  /** Empty text yields no words. */
  lemma EmptyText()
    ensures GetWordList("") == []
  {
  }
}
