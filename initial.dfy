/**
 * The starting point of the sampler (`Gibbs.run`, lines 67-69) and the fixed
 * prior hyperparameters (`Gibbs._prepare`, lines 61-62).
 */
module Initial {
  import opened Sums

  /** 10 to a natural power. */
  function Pow10(n: nat): (r: real)
    ensures r >= 1.0
  {
    if n == 0 then 1.0 else 10.0 * Pow10(n - 1)
  }

  /** 10 to an integer power, as `10 ** e` on floats. */
  function Pow10Int(e: int): (r: real)
    ensures r > 0.0
  {
    if e >= 0 then Pow10(e) else 1.0 / Pow10(-e)
  }

  lemma Pow10IntStep(e: int)
    ensures Pow10Int(e + 1) == 10.0 * Pow10Int(e)
  {
    if e < 0 {
      var p := Pow10(-e - 1);
      assert Pow10(-e) == 10.0 * p;
      if e + 1 < 0 {
        assert Pow10Int(e + 1) == 1.0 / p;
      } else {
        assert p == 1.0;
      }
    }
  }

  /** `tmpw = 9 * 10 ** (-np.arange(1, K + 1))`: the unnormalised geometric guess. */
  function RawWeights(k: nat): seq<real>
  {
    seq(k, i requires 0 <= i < k => 9.0 * Pow10Int(-(i + 1)))
  }

  /** `tmpw / tmpw.sum()`. */
  function InitialWeights(k: nat): seq<real>
  {
    var tmpw := RawWeights(k);
    if k == 0 then []
    else
      SumPositive(tmpw);
      seq(k, i requires 0 <= i < k => tmpw[i] / Sum(tmpw))
  }

  /** `inrates = 0.5 * 10 ** np.arange(-K + 2, 2)`. */
  function RawRates(k: nat): seq<real>
  {
    seq(k, i requires 0 <= i < k => 0.5 * Pow10Int((2 + i) as int - k))
  }

  /** `inrates[::-1]`. */
  function InitialRates(k: nat): seq<real>
  {
    var inrates := RawRates(k);
    seq(k, i requires 0 <= i < k => inrates[k - 1 - i])
  }

  /** `np.ones(K) / [K]`: the uniform Dirichlet concentration. */
  function DirichletPrior(k: nat): seq<real>
  {
    seq(k, i requires 0 <= i < k => 1.0 / k as real)
  }

  /** `np.ones((K, 2)) * [1, 3]`: Gamma (shape, rate) per component. */
  function GammaPrior(k: nat): seq<(real, real)>
  {
    seq(k, i requires 0 <= i < k => (1.0, 3.0))
  }

  /** The initial weights form a probability vector: positive entries summing to one. */
  lemma InitialWeightsDistribution(k: nat)
    requires k >= 1
    ensures |InitialWeights(k)| == k
    ensures forall i :: 0 <= i < k ==> InitialWeights(k)[i] > 0.0
    ensures Sum(InitialWeights(k)) == 1.0
  {
    var tmpw := RawWeights(k);
    SumPositive(tmpw);
    var total := Sum(tmpw);
    var w := seq(|tmpw|, i requires 0 <= i < |tmpw| => tmpw[i] / total);
    assert InitialWeights(k) == w;
    SumDivide(tmpw, total);
    assert Sum(w) == total / total == 1.0;
    forall i | 0 <= i < k ensures w[i] > 0.0 {
      PositiveQuotient(tmpw[i], total);
    }
  }

  /** The largest initial weight sits at the smallest index, and each one is a tenth of the previous. */
  lemma InitialWeightsDecreasing(k: nat)
    ensures |InitialWeights(k)| == k
    ensures forall i :: 0 <= i < k - 1 ==> InitialWeights(k)[i + 1] * 10.0 == InitialWeights(k)[i]
    ensures forall i, j :: 0 <= i < j < k ==> InitialWeights(k)[i] > InitialWeights(k)[j]
  {
    if k > 0 {
      var tmpw := RawWeights(k);
      SumPositive(tmpw);
      var total := Sum(tmpw);
      var w := InitialWeights(k);
      assert forall i :: 0 <= i < k ==> w[i] == tmpw[i] / total;
      forall i | 0 <= i < k - 1 ensures w[i + 1] * 10.0 == w[i] {
        Pow10IntStep(-(i + 2));
        assert tmpw[i] == 10.0 * tmpw[i + 1];
        DivideScaled(tmpw[i + 1], total);
      }
      forall i | 0 <= i < k ensures w[i] > 0.0 {
        PositiveQuotient(tmpw[i], total);
      }
      forall i, j | 0 <= i < j < k ensures w[i] > w[j] {
        TenfoldDecay(w, i, j);
      }
    }
  }

  lemma DivideScaled(x: real, c: real)
    requires c > 0.0
    ensures (10.0 * x) / c == (x / c) * 10.0
  {
  }

  lemma PositiveQuotient(x: real, c: real)
    requires x > 0.0 && c > 0.0
    ensures x / c > 0.0
  {
  }

  /** In a positive sequence where each entry is a tenth of its predecessor, earlier entries are larger. */
  lemma {:induction false} TenfoldDecay(w: seq<real>, i: nat, j: nat)
    requires i < j < |w|
    requires forall m :: 0 <= m < |w| ==> w[m] > 0.0
    requires forall m :: 0 <= m < |w| - 1 ==> w[m + 1] * 10.0 == w[m]
    ensures w[i] > w[j]
  {
    if j > i + 1 {
      TenfoldDecay(w, i, j - 1);
    }
  }

  /**
   * The reversed rate guesses start at 5 and drop tenfold per component:
   * `InitialRates(K)[i] == 0.5 * 10 ** (1 - i)`, so they strictly decrease with the index.
   */
  lemma InitialRatesDecreasing(k: nat)
    ensures |InitialRates(k)| == k
    ensures forall i :: 0 <= i < k ==> InitialRates(k)[i] == 0.5 * Pow10Int(1 - i)
    ensures forall i :: 0 <= i < k ==> InitialRates(k)[i] > 0.0
    ensures forall i, j :: 0 <= i < j < k ==> InitialRates(k)[i] > InitialRates(k)[j]
  {
    var r := InitialRates(k);
    forall i | 0 <= i < k ensures r[i] == 0.5 * Pow10Int(1 - i) {
      assert r[i] == RawRates(k)[k - 1 - i];
    }
    forall i | 0 <= i < k - 1 ensures r[i + 1] * 10.0 == r[i] {
      Pow10IntStep(-i);
    }
    forall i, j | 0 <= i < j < k ensures r[i] > r[j] {
      TenfoldDecay(r, i, j);
    }
  }

  /** The default hyperparameters are all strictly positive, as the Dirichlet and Gamma draws need. */
  lemma PriorsPositive(k: nat)
    ensures |DirichletPrior(k)| == k && |GammaPrior(k)| == k
    ensures forall i :: 0 <= i < k ==> DirichletPrior(k)[i] > 0.0
    ensures forall i :: 0 <= i < k ==> GammaPrior(k)[i].0 == 1.0 && GammaPrior(k)[i].1 == 3.0
  {
  }

  /** The uniform concentration `1/K` adds up to one over the K components. */
  lemma DirichletPriorTotal(k: nat)
    requires k >= 1
    ensures Sum(DirichletPrior(k)) == 1.0
  {
    var a := DirichletPrior(k);
    PrefixSum(a, k, k - 1);
    assert a[..k] == a;
  }

  lemma {:induction false} PrefixSum(a: seq<real>, k: nat, i: nat)
    requires i < k && a == DirichletPrior(k)
    ensures Sum(a[..i + 1]) == (i + 1) as real / k as real
  {
    assert a[..i + 1][..i] == a[..i];
    if i > 0 {
      PrefixSum(a, k, i - 1);
    } else {
      assert a[..0] == [];
    }
  }
}
