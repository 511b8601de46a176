/**
 `statistics.mean` over exact reals: the arithmetic mean of a non-empty
 list, and an error for the empty list.
 */
module Stats {
  import opened Wrappers

  /** `statistics.StatisticsError`: the mean of an empty list. */
  datatype MeanError = InsufficientHistory

  function Sum(xs: seq<real>): real
  {
    if |xs| == 0 then 0.0 else xs[0] + Sum(xs[1..])
  }

  /**
   `n` copies of `v` added up, written as repeated addition so that statements
   about a mean stay free of products of unknowns.
   */
  function Copies(n: nat, v: real): real
  {
    if n == 0 then 0.0 else Copies(n - 1, v) + v
  }

  /** Adding up `n` copies of `v` is multiplying `v` by `n`. */
  lemma {:induction false} CopiesIsProduct(n: nat, v: real)
    ensures Copies(n, v) == n as real * v
  {
    if n > 0 {
      CopiesIsProduct(n - 1, v);
    }
  }

  /** The mean of `xs`, or `InsufficientHistory` when there is nothing to average. */
  function Mean(xs: seq<real>): (r: Result<real, MeanError>)
    ensures r.Failure? <==> |xs| == 0
    ensures r.Failure? ==> r.error == InsufficientHistory
  {
    if |xs| == 0 then Failure(InsufficientHistory) else Success(Accumulate(xs, 0.0, 0))
  }

  /**
   The single pass `statistics.mean` makes: walk the data carrying the running
   total and count, and divide once at the end.
   */
  function Accumulate(xs: seq<real>, total: real, count: nat): real
    requires count + |xs| > 0
    decreases |xs|
  {
    if |xs| == 0 then total / count as real else Accumulate(xs[1..], total + xs[0], count + 1)
  }

  /** The accumulated pass divides the whole total by the whole count. */
  lemma {:induction false} AccumulateIsQuotient(xs: seq<real>, total: real, count: nat)
    requires count + |xs| > 0
    ensures Accumulate(xs, total, count) == (total + Sum(xs)) / (count + |xs|) as real
    decreases |xs|
  {
    if |xs| > 0 {
      AccumulateIsQuotient(xs[1..], total + xs[0], count + 1);
    }
  }

  /** The mean of a non-empty list is its total over its length. */
  lemma MeanIsQuotient(xs: seq<real>)
    requires |xs| > 0
    ensures Mean(xs) == Success(Sum(xs) / |xs| as real)
  {
    AccumulateIsQuotient(xs, 0.0, 0);
  }

  /** As many copies of the mean as there are entries add up to their total. */
  lemma MeanTimesCount(xs: seq<real>)
    requires |xs| > 0
    ensures Mean(xs).Success? && Copies(|xs|, Mean(xs).value) == Sum(xs)
  {
    MeanIsQuotient(xs);
    CopiesIsProduct(|xs|, Mean(xs).value);
    var n := |xs| as real;
    assert Sum(xs) / n * n == Sum(xs);
  }

  lemma {:induction false} SumAppend(a: seq<real>, b: seq<real>)
    ensures Sum(a + b) == Sum(a) + Sum(b)
  {
    if |a| == 0 {
      assert a + b == b;
    } else {
      assert (a + b)[1..] == a[1..] + b;
      SumAppend(a[1..], b);
    }
  }

  /** A list of `n` copies of `v` sums to `n * v`. */
  lemma {:induction false} SumConstant(xs: seq<real>, v: real)
    requires forall i :: 0 <= i < |xs| ==> xs[i] == v
    ensures Sum(xs) == |xs| as real * v
  {
    if |xs| > 0 {
      SumConstant(xs[1..], v);
    }
  }

  /** Every element at most `hi` bounds the sum by `|xs| * hi`; likewise from below. */
  lemma {:induction false} SumBounds(xs: seq<real>, lo: real, hi: real)
    requires forall i :: 0 <= i < |xs| ==> lo <= xs[i] <= hi
    ensures |xs| as real * lo <= Sum(xs) <= |xs| as real * hi
  {
    if |xs| > 0 {
      SumBounds(xs[1..], lo, hi);
    }
  }

  /** The mean of a list whose entries all equal `v` is `v`. */
  lemma MeanConstant(xs: seq<real>, v: real)
    requires |xs| > 0
    requires forall i :: 0 <= i < |xs| ==> xs[i] == v
    ensures Mean(xs) == Success(v)
  {
    SumConstant(xs, v);
    MeanIsQuotient(xs);
    var n := |xs| as real;
    assert Sum(xs) / n == (n * v) / n == v;
  }

  /** The mean lies between any lower and upper bound of the entries. */
  lemma MeanBounds(xs: seq<real>, lo: real, hi: real)
    requires |xs| > 0
    requires forall i :: 0 <= i < |xs| ==> lo <= xs[i] <= hi
    ensures Mean(xs).Success? && lo <= Mean(xs).value <= hi
  {
    SumBounds(xs, lo, hi);
    MeanIsQuotient(xs);
    var n := |xs| as real;
    var m := Mean(xs).value;
    assert m * n == Sum(xs);
    assert n * lo <= m * n <= n * hi;
  }

  /** A list of non-negative entries has a non-negative sum. */
  lemma {:induction false} SumNonNegative(xs: seq<real>)
    requires forall i :: 0 <= i < |xs| ==> xs[i] >= 0.0
    ensures Sum(xs) >= 0.0
  {
    if |xs| > 0 {
      SumNonNegative(xs[1..]);
    }
  }

  /**
   Averaging in one more value `p`: one more copy of the new mean than there
   were prior entries adds up to the prior total plus `p`.
   */
  lemma MeanOfExtended(prior: seq<real>, p: real)
    ensures Mean(prior + [p]).Success?
    ensures Copies(|prior| + 1, Mean(prior + [p]).value) == Sum(prior) + p
  {
    MeanTimesCount(prior + [p]);
    SumAppend(prior, [p]);
    assert Sum([p]) == p;
  }
}
