/**
 Term statistics: `countTokens` turns a token list into a term-count
 dictionary, and `mergeDictionaries` adds one count dictionary into another.
 */
module TermCounts {
  import StopWords

  /** The value a dictionary holds for `k`, a missing key counting as 0. */
  function Get(m: map<string, int>, k: string): int {
    if k in m then m[k] else 0
  }

  /** The reference meaning of merging: the pointwise sum over the union of the
      key sets. */
  function Merge(a: map<string, int>, b: map<string, int>): map<string, int> {
    map k | k in a.Keys + b.Keys :: Get(a, k) + Get(b, k)
  }

  /** `countTokens`: the loop over `tokens` that starts from an empty dictionary
      and, for each token, adds 1 to its entry or creates it with 1. The result
      maps exactly the distinct tokens, each to its number of occurrences. */
  function CountTokens(tokens: seq<string>): (r: map<string, int>)
    ensures r.Keys == set t | t in tokens
    ensures forall k :: k in r ==> r[k] == multiset(tokens)[k] && r[k] >= 1
    decreases |tokens|
  {
    if |tokens| == 0 then map[]
    else
      var prefix := tokens[..|tokens| - 1];
      var t := tokens[|tokens| - 1];
      assert tokens == prefix + [t];
      var counts := CountTokens(prefix);
      if t in counts then counts[t := counts[t] + 1] else counts[t := 1]
  }

  /** `mergeDictionaries`: `res` starts as `a` (the source aliases it and updates
      it in place; here the updated dictionary is returned) and each key of `b`
      is added in, summed with an existing entry or inserted. */
  method MergeDictionaries(a: map<string, int>, b: map<string, int>) returns (res: map<string, int>)
    ensures res.Keys == a.Keys + b.Keys
    ensures forall k :: k in res ==> res[k] == Get(a, k) + Get(b, k)
    ensures res == Merge(a, b)
  {
    res := a;
    var todo := b.Keys;
    while todo != {}
      invariant todo <= b.Keys
      invariant res.Keys == a.Keys + (b.Keys - todo)
      invariant forall k :: k in res ==> res[k] == Get(a, k) + (if k in todo then 0 else Get(b, k))
      decreases todo
    {
      var k :| k in todo;
      if k in res {
        res := res[k := res[k] + b[k]];
      } else {
        res := res[k := b[k]];
      }
      todo := todo - {k};
    }
  }

  // ---------------------------------------------------------------------------
  // Algebra of merging
  // ---------------------------------------------------------------------------

  lemma MergeCommutative(a: map<string, int>, b: map<string, int>)
    ensures Merge(a, b) == Merge(b, a)
  {
  }

  lemma MergeAssociative(a: map<string, int>, b: map<string, int>, c: map<string, int>)
    ensures Merge(Merge(a, b), c) == Merge(a, Merge(b, c))
  {
  }

  /** The empty dictionary is the unit of merging. */
  lemma MergeEmpty(a: map<string, int>)
    ensures Merge(a, map[]) == a
  {
  }

  /** Counting a concatenation is merging the counts of the parts: documents
      may be counted separately and the partial dictionaries combined. */
  lemma CountAppend(xs: seq<string>, ys: seq<string>)
    ensures CountTokens(xs + ys) == Merge(CountTokens(xs), CountTokens(ys))
  {
    var l := CountTokens(xs + ys);
    var r := Merge(CountTokens(xs), CountTokens(ys));
    assert multiset(xs + ys) == multiset(xs) + multiset(ys);
    forall k
      ensures Get(l, k) == Get(r, k)
    {
      CountGet(xs + ys, k);
      CountGet(xs, k);
      CountGet(ys, k);
    }
    assert l.Keys == r.Keys by {
      forall k ensures k in l <==> k in r {
        assert k in xs + ys <==> k in xs || k in ys;
      }
    }
    assert forall k :: k in l ==> l[k] == Get(l, k) == Get(r, k) == r[k];
  }

  /** Looking a token up in its count, a missing token counting as 0, gives its
      number of occurrences. */
  lemma CountGet(tokens: seq<string>, k: string)
    ensures Get(CountTokens(tokens), k) == multiset(tokens)[k]
  {
  }

  /** Counting after stop-word removal is counting and then dropping the stop
      words' entries. */
  lemma CountFiltered(words: seq<string>, stop: set<string>)
    ensures CountTokens(StopWords.FilterWords(words, stop)) == CountTokens(words) - stop
  {
  }

  // ---------------------------------------------------------------------------
  // Sum of the counts
  // ---------------------------------------------------------------------------

  /** The sum of the values a dictionary holds for the keys `ks`. */
  ghost function SumOver(m: map<string, int>, ks: set<string>): int
    requires ks <= m.Keys
    decreases ks
  {
    if ks == {} then 0
    else
      var k :| k in ks;
      m[k] + SumOver(m, ks - {k})
  }

  /** The sum of all of a dictionary's values. */
  ghost function SumValues(m: map<string, int>): int {
    SumOver(m, m.Keys)
  }

  /** Any key may be taken out of the sum first. */
  lemma {:induction false} SumOverRemove(m: map<string, int>, ks: set<string>, k: string)
    requires ks <= m.Keys && k in ks
    ensures SumOver(m, ks) == m[k] + SumOver(m, ks - {k})
    decreases ks
  {
    var j :| j in ks && SumOver(m, ks) == m[j] + SumOver(m, ks - {j});
    if j != k {
      SumOverRemove(m, ks - {j}, k);
      SumOverRemove(m, ks - {k}, j);
      assert ks - {j} - {k} == ks - {k} - {j};
    }
  }

  /** The sum over `ks` only reads the entries for `ks`. */
  lemma {:induction false} SumOverAgree(m: map<string, int>, m': map<string, int>, ks: set<string>)
    requires ks <= m.Keys && ks <= m'.Keys
    requires forall k :: k in ks ==> m[k] == m'[k]
    ensures SumOver(m, ks) == SumOver(m', ks)
    decreases ks
  {
    if ks != {} {
      var j :| j in ks && SumOver(m, ks) == m[j] + SumOver(m, ks - {j});
      SumOverRemove(m', ks, j);
      SumOverAgree(m, m', ks - {j});
    }
  }

  /** Raising one existing entry by 1, or adding a new entry 1, adds 1 to the sum. */
  lemma SumValuesIncrement(m: map<string, int>, t: string)
    ensures SumValues(if t in m then m[t := m[t] + 1] else m[t := 1]) == SumValues(m) + 1
  {
    var m' := if t in m then m[t := m[t] + 1] else m[t := 1];
    SumOverRemove(m', m'.Keys, t);
    assert m'.Keys - {t} == m.Keys - {t};
    if t in m {
      SumOverRemove(m, m.Keys, t);
      SumOverAgree(m, m', m.Keys - {t});
    } else {
      assert m.Keys - {t} == m.Keys;
      SumOverAgree(m, m', m.Keys);
    }
  }

  /** The counts add up to the number of tokens. */
  lemma {:induction false} CountSum(tokens: seq<string>)
    ensures SumValues(CountTokens(tokens)) == |tokens|
    decreases |tokens|
  {
    if |tokens| > 0 {
      var prefix := tokens[..|tokens| - 1];
      CountSum(prefix);
      SumValuesIncrement(CountTokens(prefix), tokens[|tokens| - 1]);
    }
  }
}
