/** Finite sums over sequences, taken from the back so that appending one element is one unfolding. */
module Sums {

  function Sum(xs: seq<real>): real
  {
    if xs == [] then 0.0 else Sum(xs[..|xs| - 1]) + xs[|xs| - 1]
  }

  function SumNat(xs: seq<nat>): nat
  {
    if xs == [] then 0 else SumNat(xs[..|xs| - 1]) + xs[|xs| - 1]
  }

  lemma {:induction false} SumAppend(a: seq<real>, b: seq<real>)
    ensures Sum(a + b) == Sum(a) + Sum(b)
  {
    if b != [] {
      assert (a + b)[..|a + b| - 1] == a + b[..|b| - 1];
      SumAppend(a, b[..|b| - 1]);
    } else {
      assert a + b == a;
    }
  }

  lemma {:induction false} SumNatAppend(a: seq<nat>, b: seq<nat>)
    ensures SumNat(a + b) == SumNat(a) + SumNat(b)
  {
    if b != [] {
      assert (a + b)[..|a + b| - 1] == a + b[..|b| - 1];
      SumNatAppend(a, b[..|b| - 1]);
    } else {
      assert a + b == a;
    }
  }

  /** Every element of a sequence of naturals is at most their sum. */
  lemma {:induction false} ElementAtMostSum(xs: seq<nat>, i: nat)
    requires i < |xs|
    ensures xs[i] <= SumNat(xs)
  {
    if i < |xs| - 1 {
      ElementAtMostSum(xs[..|xs| - 1], i);
    }
  }

  /** A sum of strictly positive terms over a non-empty sequence is strictly positive. */
  lemma {:induction false} SumPositive(xs: seq<real>)
    requires xs != []
    requires forall i :: 0 <= i < |xs| ==> xs[i] > 0.0
    ensures Sum(xs) > 0.0
  {
    if |xs| > 1 {
      SumPositive(xs[..|xs| - 1]);
    }
  }

  /** A sum of non-negative terms is non-negative. */
  lemma {:induction false} SumNonNegative(xs: seq<real>)
    requires forall i :: 0 <= i < |xs| ==> xs[i] >= 0.0
    ensures Sum(xs) >= 0.0
  {
    if xs != [] {
      SumNonNegative(xs[..|xs| - 1]);
    }
  }

  /** A sum of zeros is zero. */
  lemma {:induction false} SumZeros(xs: seq<real>)
    requires forall i :: 0 <= i < |xs| ==> xs[i] == 0.0
    ensures Sum(xs) == 0.0
  {
    if xs != [] {
      SumZeros(xs[..|xs| - 1]);
    }
  }

  /** Dividing every term by the same non-zero constant divides the sum by it. */
  lemma {:induction false} SumDivide(xs: seq<real>, c: real)
    requires c != 0.0
    ensures Sum(seq(|xs|, i requires 0 <= i < |xs| => xs[i] / c)) == Sum(xs) / c
  {
    var ys := seq(|xs|, i requires 0 <= i < |xs| => xs[i] / c);
    if xs != [] {
      var xs' := xs[..|xs| - 1];
      assert ys[..|ys| - 1] == seq(|xs'|, i requires 0 <= i < |xs'| => xs'[i] / c);
      SumDivide(xs', c);
    }
  }
}
