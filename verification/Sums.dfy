/** Sums of a numeric field over a sequence, as Python's `sum(f(x) for x in xs)`. */
module Sums {

  function SumBy<T>(xs: seq<T>, f: T -> int): int {
    if |xs| == 0 then 0 else f(xs[0]) + SumBy(xs[1..], f)
  }

  lemma {:induction false} SumByAppend<T>(xs: seq<T>, ys: seq<T>, f: T -> int)
    ensures SumBy(xs + ys, f) == SumBy(xs, f) + SumBy(ys, f)
  {
    if |xs| > 0 {
      assert (xs + ys)[1..] == xs[1..] + ys;
      SumByAppend(xs[1..], ys, f);
    } else {
      assert xs + ys == ys;
    }
  }

  /** The sum of a pointwise sum is the sum of the sums. */
  lemma {:induction false} SumByPlus<T>(xs: seq<T>, f: T -> int, g: T -> int, h: T -> int)
    requires forall i :: 0 <= i < |xs| ==> h(xs[i]) == f(xs[i]) + g(xs[i])
    ensures SumBy(xs, h) == SumBy(xs, f) + SumBy(xs, g)
  {
    if |xs| > 0 {
      SumByPlus(xs[1..], f, g, h);
    }
  }

  /** Summing one extra element at the end of a prefix. */
  lemma SumByPrefixStep<T>(xs: seq<T>, k: nat, f: T -> int)
    requires k < |xs|
    ensures SumBy(xs[..k + 1], f) == SumBy(xs[..k], f) + f(xs[k])
  {
    assert xs[..k + 1] == xs[..k] + [xs[k]];
    SumByAppend(xs[..k], [xs[k]], f);
  }

  /** Sums of two sequences agree when their terms agree position by position. */
  lemma {:induction false} SumByCorresponding<A, B>(xs: seq<A>, f: A -> int, ys: seq<B>, g: B -> int)
    requires |xs| == |ys|
    requires forall i :: 0 <= i < |xs| ==> f(xs[i]) == g(ys[i])
    ensures SumBy(xs, f) == SumBy(ys, g)
  {
    if |xs| > 0 {
      SumByCorresponding(xs[1..], f, ys[1..], g);
    }
  }

  lemma {:induction false} SumByNonNegative<T>(xs: seq<T>, f: T -> int)
    requires forall i :: 0 <= i < |xs| ==> 0 <= f(xs[i])
    ensures 0 <= SumBy(xs, f)
  {
    if |xs| > 0 {
      SumByNonNegative(xs[1..], f);
    }
  }

  /** A sum of zeros is zero. */
  lemma {:induction false} SumByZero<T>(xs: seq<T>, f: T -> int)
    requires forall i :: 0 <= i < |xs| ==> f(xs[i]) == 0
    ensures SumBy(xs, f) == 0
  {
    if |xs| > 0 {
      SumByZero(xs[1..], f);
    }
  }

  /** With non-negative terms a prefix never sums to more than the whole. */
  lemma SumByPrefixAtMost<T>(xs: seq<T>, k: nat, f: T -> int)
    requires k <= |xs|
    requires forall i :: 0 <= i < |xs| ==> 0 <= f(xs[i])
    ensures SumBy(xs[..k], f) <= SumBy(xs, f)
  {
    assert xs == xs[..k] + xs[k..];
    SumByAppend(xs[..k], xs[k..], f);
    SumByNonNegative(xs[k..], f);
  }
}
