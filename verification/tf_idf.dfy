/**
 The tf-idf weight `log10(tf + 1) * log10(docNbr / df)` of a term that occurs
 `tf` times in a document and in `df` of the `docNbr` documents of the index.

 The base-10 logarithm (`log(x) / log(10)` in the source) is a parameter, and
 arithmetic is on mathematical reals rather than floating point. What Python
 raises instead of returning a number is an outcome of its own.
 */
module TfIdf {

  datatype Outcome =
    | Weight(w: real)
      /** `ZeroDivisionError` from `doc_nbr / df` */
    | ZeroDivision
      /** `ValueError: math domain error` from `log` of a number that is not positive */
    | DomainError

  /** `tf_idf(tf, df, doc_nbr)`. A term that does not occur gets weight exactly 0,
      and no division or logarithm is evaluated for it. Otherwise the operands
      are evaluated left to right, so that `log(tf + 1)` fails before the
      division by `df`, which fails before `log(doc_nbr / df)`. */
  function TfIdf(tf: int, df: int, docNbr: int, log10: real -> real): (r: Outcome)
    ensures tf == 0 ==> r == Weight(0.0)
    ensures r == ZeroDivision <==> tf != 0 && tf + 1 > 0 && df == 0
    ensures r == DomainError <==>
      tf != 0 && (tf + 1 <= 0 || (df != 0 && docNbr as real / df as real <= 0.0))
    ensures tf != 0 && r.Weight? ==> r.w == log10((tf + 1) as real) * log10(docNbr as real / df as real)
  {
    if tf == 0 then Weight(0.0)
    else if tf + 1 <= 0 then DomainError
    else if df == 0 then ZeroDivision
    else
      var ratio := docNbr as real / df as real;
      if ratio <= 0.0 then DomainError
      else Weight(log10((tf + 1) as real) * log10(ratio))
  }

  /** A logarithm with the properties the lemmas below rely on. */
  ghost predicate IsLogLike(log10: real -> real) {
    && log10(1.0) == 0.0
    && (forall x, y :: 1.0 <= x <= y ==> 0.0 <= log10(x) <= log10(y))
  }

  /** For a term that does not occur the weight is 0, whatever `df` and `docNbr`. */
  lemma ZeroFrequency(df: int, docNbr: int, log10: real -> real)
    ensures TfIdf(0, df, docNbr, log10) == Weight(0.0)
  {
  }

  /** A term present in every document carries no weight. */
  lemma InEveryDocument(tf: nat, n: int, log10: real -> real)
    requires n > 0
    requires log10(1.0) == 0.0
    ensures TfIdf(tf, n, n, log10) == Weight(0.0)
  {
    assert n as real / n as real == 1.0;
  }

  /** Within a valid index (a term that occurs is in at least one and at most
      all documents) the weight is defined and not negative. */
  lemma WeightNonNegative(tf: nat, df: int, docNbr: int, log10: real -> real)
    requires IsLogLike(log10)
    requires 0 < df <= docNbr
    ensures TfIdf(tf, df, docNbr, log10).Weight?
    ensures TfIdf(tf, df, docNbr, log10).w >= 0.0
  {
    if tf != 0 {
      var ratio := docNbr as real / df as real;
      assert ratio >= 1.0;
      var a, b := log10((tf + 1) as real), log10(ratio);
      assert a >= 0.0 && b >= 0.0;
      assert a * b >= 0.0;
    }
  }

  /** For fixed `df` and `docNbr` the weight grows with the term frequency. */
  lemma WeightMonotone(tf1: nat, tf2: nat, df: int, docNbr: int, log10: real -> real)
    requires IsLogLike(log10)
    requires 0 < df <= docNbr
    requires tf1 <= tf2
    ensures TfIdf(tf1, df, docNbr, log10).Weight? && TfIdf(tf2, df, docNbr, log10).Weight?
    ensures TfIdf(tf1, df, docNbr, log10).w <= TfIdf(tf2, df, docNbr, log10).w
  {
    WeightNonNegative(tf1, df, docNbr, log10);
    WeightNonNegative(tf2, df, docNbr, log10);
    var ratio := docNbr as real / df as real;
    assert ratio >= 1.0;
    var b := log10(ratio);
    assert b >= 0.0;
    if tf1 != 0 {
      var a1, a2 := log10((tf1 + 1) as real), log10((tf2 + 1) as real);
      assert a1 <= a2;
      assert a1 * b <= a2 * b;
    }
  }
}
