/**
 * Sufficient statistics of one sampler iteration (lines 84-88) and the
 * conjugate posterior parameters built from them (lines 91-92).
 */
module Posterior {
  import opened Sums

  /** `len(np.where(s == k)[0])`: how many observations carry label k. */
  function Occurrences(s: seq<nat>, k: nat): nat
  {
    if s == [] then 0
    else Occurrences(s[..|s| - 1], k) + (if s[|s| - 1] == k then 1 else 0)
  }

  /** `times[np.where(s == k)[0]].sum()`: the total duration of the observations labelled k. */
  function LabelledTotal(s: seq<nat>, x: seq<real>, k: nat): (r: real)
    requires |s| == |x|
    ensures (forall t :: 0 <= t < |x| ==> x[t] >= 0.0) ==> r >= 0.0
  {
    if s == [] then 0.0
    else LabelledTotal(s[..|s| - 1], x[..|x| - 1], k) + (if s[|s| - 1] == k then x[|x| - 1] else 0.0)
  }

  /** `Ns`. */
  function Counts(s: seq<nat>, k: nat): seq<nat>
  {
    seq(k, c requires 0 <= c < k => Occurrences(s, c))
  }

  /** `Ts`. */
  function Totals(s: seq<nat>, x: seq<real>, k: nat): seq<real>
    requires |s| == |x|
  {
    seq(k, c requires 0 <= c < k => LabelledTotal(s, x, c))
  }

  /** The arguments of `rng.dirichlet` and `rng.gamma`: concentration, shape and scale per component. */
  datatype PosteriorParams = PosteriorParams(alpha: seq<real>, shape: seq<real>, scale: seq<real>)

  /** Hyperparameters the draws accept: one per component, Gamma rates positive. */
  predicate ValidHypers(whypers: seq<real>, rhypers: seq<(real, real)>)
  {
    |whypers| == |rhypers| && forall c :: 0 <= c < |rhypers| ==> rhypers[c].1 > 0.0
  }

  predicate NonNegative(x: seq<real>)
  {
    forall t :: 0 <= t < |x| ==> x[t] >= 0.0
  }

  /** Line 91 `whypers + Ns`, and line 92 `rhypers[:, 0] + Ns`, `1 / (rhypers[:, 1] + Ts)`. */
  function PosteriorOf(whypers: seq<real>, rhypers: seq<(real, real)>, s: seq<nat>, x: seq<real>): (p: PosteriorParams)
    requires ValidHypers(whypers, rhypers) && |s| == |x| && NonNegative(x)
    ensures |p.alpha| == |p.shape| == |p.scale| == |whypers|
  {
    var k := |whypers|;
    var ns := Counts(s, k);
    var ts := Totals(s, x, k);
    PosteriorParams(
      seq(k, c requires 0 <= c < k => whypers[c] + ns[c] as real),
      seq(k, c requires 0 <= c < k => rhypers[c].0 + ns[c] as real),
      seq(k, c requires 0 <= c < k => 1.0 / (rhypers[c].1 + ts[c])))
  }

  /** `Ns[k]` is the size of the set of observation indices labelled k. */
  lemma {:induction false} OccurrencesCounts(s: seq<nat>, k: nat)
    ensures Occurrences(s, k) == |set t | 0 <= t < |s| && s[t] == k|
  {
    if s != [] {
      var n := |s| - 1;
      var s' := s[..n];
      OccurrencesCounts(s', k);
      var prev := set t | 0 <= t < |s'| && s'[t] == k;
      var all := set t | 0 <= t < |s| && s[t] == k;
      if s[n] == k {
        assert all == prev + {n};
      } else {
        assert all == prev;
      }
    }
  }

  lemma {:induction false} CountsSnoc(s: seq<nat>, a: nat, n: nat)
    ensures SumNat(Counts(s + [a], n)) == SumNat(Counts(s, n)) + (if a < n then 1 else 0)
  {
    if n > 0 {
      assert Counts(s + [a], n)[..n - 1] == Counts(s + [a], n - 1);
      assert Counts(s, n)[..n - 1] == Counts(s, n - 1);
      assert (s + [a])[..|s|] == s;
      CountsSnoc(s, a, n - 1);
    }
  }

  /** The counts partition the observations: with every label in `[0, K)`, `sum(Ns) == N`. */
  lemma {:induction false} CountsPartition(s: seq<nat>, k: nat)
    requires forall t :: 0 <= t < |s| ==> s[t] < k
    ensures SumNat(Counts(s, k)) == |s|
  {
    if s == [] {
      CountsEmpty(k);
    } else {
      var s' := s[..|s| - 1];
      assert s == s' + [s[|s| - 1]];
      CountsPartition(s', k);
      CountsSnoc(s', s[|s| - 1], k);
    }
  }

  lemma {:induction false} CountsEmpty(k: nat)
    ensures SumNat(Counts([], k)) == 0
  {
    if k > 0 {
      assert Counts([], k)[..k - 1] == Counts([], k - 1);
      CountsEmpty(k - 1);
    }
  }

  lemma {:induction false} TotalsEmpty(k: nat)
    ensures Sum(Totals([], [], k)) == 0.0
  {
    if k > 0 {
      assert Totals([], [], k)[..k - 1] == Totals([], [], k - 1);
      TotalsEmpty(k - 1);
    }
  }

  lemma {:induction false} TotalsSnoc(s: seq<nat>, x: seq<real>, a: nat, v: real, n: nat)
    requires |s| == |x|
    ensures Sum(Totals(s + [a], x + [v], n)) == Sum(Totals(s, x, n)) + (if a < n then v else 0.0)
  {
    if n > 0 {
      assert Totals(s + [a], x + [v], n)[..n - 1] == Totals(s + [a], x + [v], n - 1);
      assert Totals(s, x, n)[..n - 1] == Totals(s, x, n - 1);
      assert (s + [a])[..|s|] == s;
      assert (x + [v])[..|x|] == x;
      TotalsSnoc(s, x, a, v, n - 1);
    }
  }

  /** The totals partition the durations: with every label in `[0, K)`, `sum(Ts) == sum(times)`. */
  lemma {:induction false} TotalsPartition(s: seq<nat>, x: seq<real>, k: nat)
    requires |s| == |x|
    requires forall t :: 0 <= t < |s| ==> s[t] < k
    ensures Sum(Totals(s, x, k)) == Sum(x)
  {
    if s == [] {
      TotalsEmpty(k);
    } else {
      var n := |s| - 1;
      assert s == s[..n] + [s[n]];
      assert x == x[..n] + [x[n]];
      TotalsPartition(s[..n], x[..n], k);
      TotalsSnoc(s[..n], x[..n], s[n], x[n], k);
    }
  }

  /**
   * With positive hyperparameters and non-negative durations every Dirichlet
   * concentration, Gamma shape and Gamma scale is positive, and the
   * concentration and shape exceed their priors by exactly the counts.
   */
  lemma PosteriorPositive(whypers: seq<real>, rhypers: seq<(real, real)>, s: seq<nat>, x: seq<real>)
    requires ValidHypers(whypers, rhypers) && |s| == |x| && NonNegative(x)
    requires forall c :: 0 <= c < |whypers| ==> whypers[c] > 0.0 && rhypers[c].0 > 0.0
    ensures var p := PosteriorOf(whypers, rhypers, s, x);
            forall c :: 0 <= c < |whypers| ==>
              && p.alpha[c] > 0.0 && p.shape[c] > 0.0 && p.scale[c] > 0.0
              && p.alpha[c] - whypers[c] == Occurrences(s, c) as real
              && p.shape[c] - rhypers[c].0 == Occurrences(s, c) as real
              && p.scale[c] <= 1.0 / rhypers[c].1
  {
    var p := PosteriorOf(whypers, rhypers, s, x);
    forall c | 0 <= c < |whypers|
      ensures p.scale[c] > 0.0 && p.scale[c] <= 1.0 / rhypers[c].1
    {
      var b := rhypers[c].1;
      var t := LabelledTotal(s, x, c);
      assert p.scale[c] == 1.0 / (b + t);
      ReciprocalBound(b, t);
    }
  }

  lemma ReciprocalBound(b: real, t: real)
    requires b > 0.0 && t >= 0.0
    ensures 1.0 / (b + t) > 0.0 && 1.0 / (b + t) <= 1.0 / b
  {
  }
}
