/**
 Stop-word removal: `filterWords` keeps the words of a list that are not stop
 words, in their original order.
 */
module StopWords {

  /** `a` can be obtained from `b` by deleting elements. */
  predicate IsSubsequence<T(==)>(a: seq<T>, b: seq<T>)
    decreases |b|
  {
    |a| == 0 ||
    (|b| > 0 && ((a[0] == b[0] && IsSubsequence(a[1..], b[1..])) || IsSubsequence(a, b[1..])))
  }

  /** `filterWords`: the words of the list, in order, that are not stop words.

      The result holds no stop word and every other word as often as `words`
      does; with `FilterIsSubsequence` this fixes it as exactly the non-stop
      words in their original order (`FilterUnique`). */
  function FilterWords(words: seq<string>, stop: set<string>): (r: seq<string>)
    ensures forall x :: x in r <==> x in words && x !in stop
    ensures forall x :: multiset(r)[x] == if x in stop then 0 else multiset(words)[x]
    ensures |r| <= |words|
  {
    if |words| == 0 then []
    else
      assert words == [words[0]] + words[1..];
      if words[0] in stop then FilterWords(words[1..], stop)
      else [words[0]] + FilterWords(words[1..], stop)
  }

  /** The filter only deletes words: the kept ones stay in their relative order. */
  lemma {:induction false} FilterIsSubsequence(words: seq<string>, stop: set<string>)
    ensures IsSubsequence(FilterWords(words, stop), words)
    decreases |words|
  {
    if |words| > 0 {
      var rest := FilterWords(words[1..], stop);
      FilterIsSubsequence(words[1..], stop);
      if words[0] !in stop {
        assert ([words[0]] + rest)[1..] == rest;
      }
    }
  }

  /** Filtering distributes over concatenation: each word is kept or dropped on
      its own, whatever surrounds it. */
  lemma {:induction false} FilterAppend(xs: seq<string>, ys: seq<string>, stop: set<string>)
    ensures FilterWords(xs + ys, stop) == FilterWords(xs, stop) + FilterWords(ys, stop)
    decreases |xs|
  {
    if |xs| > 0 {
      assert (xs + ys)[0] == xs[0];
      assert (xs + ys)[1..] == xs[1..] + ys;
      FilterAppend(xs[1..], ys, stop);
    } else {
      assert xs + ys == ys;
    }
  }

  /** On one word the filter keeps it exactly when it is not a stop word. */
  lemma FilterSingle(x: string, stop: set<string>)
    ensures FilterWords([x], stop) == if x in stop then [] else [x]
  {
  }

  /** With no stop words the filter is the identity. */
  lemma {:induction false} FilterNoStopWords(words: seq<string>)
    ensures FilterWords(words, {}) == words
    decreases |words|
  {
    if |words| > 0 {
      FilterNoStopWords(words[1..]);
    }
  }

  /** A list without stop words is left as it is. */
  lemma {:induction false} FilterKeepsClean(words: seq<string>, stop: set<string>)
    requires forall i :: 0 <= i < |words| ==> words[i] !in stop
    ensures FilterWords(words, stop) == words
    decreases |words|
  {
    if |words| > 0 {
      FilterKeepsClean(words[1..], stop);
    }
  }

  /** Filtering twice is filtering once with both stop sets; in particular the
      filter is idempotent. */
  lemma {:induction false} FilterTwice(words: seq<string>, s1: set<string>, s2: set<string>)
    ensures FilterWords(FilterWords(words, s1), s2) == FilterWords(words, s1 + s2)
    decreases |words|
  {
    if |words| > 0 {
      FilterTwice(words[1..], s1, s2);
      if words[0] !in s1 {
        var rest := FilterWords(words[1..], s1);
        assert ([words[0]] + rest)[1..] == rest;
      }
    }
  }

  lemma FilterIdempotent(words: seq<string>, stop: set<string>)
    ensures FilterWords(FilterWords(words, stop), stop) == FilterWords(words, stop)
  {
    FilterTwice(words, stop, stop);
    assert stop + stop == stop;
  }

  /** A subsequence never holds an element more often than its source. */
  lemma {:induction false} SubsequenceCounts<T>(a: seq<T>, b: seq<T>, x: T)
    requires IsSubsequence(a, b)
    ensures multiset(a)[x] <= multiset(b)[x]
    decreases |b|
  {
    if |a| > 0 {
      assert a == [a[0]] + a[1..];
      assert b == [b[0]] + b[1..];
      if a[0] == b[0] && IsSubsequence(a[1..], b[1..]) {
        SubsequenceCounts(a[1..], b[1..], x);
      } else {
        SubsequenceCounts(a, b[1..], x);
      }
    }
  }

  /** The contract of `FilterWords` leaves no freedom: any subsequence of the
      words with its element counts is the filtered list itself. */
  lemma {:induction false} FilterUnique(words: seq<string>, stop: set<string>, r: seq<string>)
    requires IsSubsequence(r, words)
    requires forall x :: multiset(r)[x] == if x in stop then 0 else multiset(words)[x]
    ensures r == FilterWords(words, stop)
    decreases |words|
  {
    if |words| == 0 {
      assert |r| == 0;
    } else {
      var w := words[0];
      var tail := words[1..];
      assert words == [w] + tail;
      if |r| == 0 {
        assert multiset(words)[w] > 0;
        assert w in stop;
        forall x ensures multiset(r)[x] == if x in stop then 0 else multiset(tail)[x] {
        }
        FilterUnique(tail, stop, r);
      } else if r[0] == w && IsSubsequence(r[1..], tail) {
        assert r == [r[0]] + r[1..];
        assert multiset(r)[w] > 0;
        assert w !in stop;
        forall x ensures multiset(r[1..])[x] == if x in stop then 0 else multiset(tail)[x] {
        }
        FilterUnique(tail, stop, r[1..]);
      } else {
        assert IsSubsequence(r, tail);
        if w !in stop {
          SubsequenceCounts(r, tail, w);
          assert false;
        }
        forall x ensures multiset(r)[x] == if x in stop then 0 else multiset(tail)[x] {
        }
        FilterUnique(tail, stop, r);
      }
    }
  }

  /** Removing the articles from a short sentence. */
  lemma FilterExample()
    ensures FilterWords(["the", "cat", "a", "dog"], {"the", "a"}) == ["cat", "dog"]
  {
    var stop := {"the", "a"};
    assert "cat" !in stop && "dog" !in stop;
    assert FilterWords(["dog"], stop) == ["dog"];
    assert FilterWords(["a", "dog"], stop) == ["dog"];
    assert FilterWords(["cat", "a", "dog"], stop) == ["cat", "dog"];
  }
}
