/**
 * The Markov chain `Gibbs.run` walks (lines 65-92), with the random draws
 * given as oracles: `labels` stands for the responsibilities and the
 * multinomial draw of lines 77-81, `dirichlet` and `gamma` for the draws of
 * lines 91-92. Each oracle also receives the iteration number `j`, so that
 * successive iterations may draw differently.
 */
module Sampler {
  import opened Sums
  import opened Initial
  import opened Posterior

  /** What the sampler is run on: the durations and the fixed hyperparameters. */
  datatype Setup = Setup(times: seq<real>, ncomp: nat, whypers: seq<real>, rhypers: seq<(real, real)>)

  predicate WellFormed(st: Setup)
  {
    |st.whypers| == st.ncomp && ValidHypers(st.whypers, st.rhypers) && NonNegative(st.times)
  }

  /** The setup `Gibbs._prepare` builds: `whypers = 1/K`, `rhypers = (1, 3)`. */
  function DefaultSetup(times: seq<real>, ncomp: nat): Setup
  {
    Setup(times, ncomp, DirichletPrior(ncomp), GammaPrior(ncomp))
  }

  datatype Draws = Draws(
    labels: (nat, seq<real>, seq<real>) -> seq<nat>,
    dirichlet: (nat, seq<real>) -> seq<real>,
    gamma: (nat, seq<real>, seq<real>) -> seq<real>)

  /**
   * The shapes the draws have in the source: one label in `[0, K)` per
   * observation (the argmax of a one-hot multinomial draw over K categories),
   * and K weights and K rates. The weights lie in the Dirichlet
   * distribution's support (non-negative, summing to one once there is a
   * component) and the rates in the Gamma distribution's, the positive reals.
   */
  ghost predicate ValidDraws(d: Draws, n: nat, k: nat)
  {
    && (forall j, w, r :: |d.labels(j, w, r)| == n)
    && (forall j, w, r, t :: 0 <= t < |d.labels(j, w, r)| ==> d.labels(j, w, r)[t] < k)
    && (forall j, a :: |d.dirichlet(j, a)| == k)
    && (forall j, a, c :: 0 <= c < |d.dirichlet(j, a)| ==> d.dirichlet(j, a)[c] >= 0.0)
    && (forall j, a :: k >= 1 ==> Sum(d.dirichlet(j, a)) == 1.0)
    && (forall j, a, b :: |d.gamma(j, a, b)| == k)
    && (forall j, a, b, c :: 0 <= c < |d.gamma(j, a, b)| ==> d.gamma(j, a, b)[c] > 0.0)
  }

  /** Draws that always label every observation 0 and return uniform weights and unit rates. */
  function ConstantDraws(n: nat, k: nat): Draws
  {
    Draws((j, w, r) => seq(n, t => 0),
          (j, a) => DirichletPrior(k),
          (j, a, b) => seq(k, c => 1.0))
  }

  /**
   * The draws can be valid whenever there is a component to label with; with
   * observations but no component, line 81 has no category to draw and raises.
   */
  lemma DrawsExist(n: nat, k: nat)
    requires k >= 1 || n == 0
    ensures ValidDraws(ConstantDraws(n, k), n, k)
  {
    if k >= 1 {
      DirichletPriorTotal(k);
    }
  }

  /** The current weights and rates. */
  datatype Mixture = Mixture(weights: seq<real>, rates: seq<real>)

  /** Line 69: the state before the first iteration. */
  function InitialMixture(k: nat): Mixture
  {
    Mixture(InitialWeights(k), InitialRates(k))
  }

  /** Line 81: the labels iteration `j` draws from the state `prev` it starts from. */
  function DrawLabels(st: Setup, d: Draws, j: nat, prev: Mixture): (s: seq<nat>)
    requires ValidDraws(d, |st.times|, st.ncomp)
    ensures |s| == |st.times|
    ensures forall t :: 0 <= t < |s| ==> s[t] < st.ncomp
  {
    d.labels(j, prev.weights, prev.rates)
  }

  /** Lines 91-92: the state iteration `j` ends in, given the labels it drew. */
  function Resample(st: Setup, d: Draws, j: nat, s: seq<nat>): (m: Mixture)
    requires WellFormed(st) && ValidDraws(d, |st.times|, st.ncomp) && |s| == |st.times|
    ensures |m.weights| == st.ncomp && |m.rates| == st.ncomp
  {
    var p := PosteriorOf(st.whypers, st.rhypers, s, st.times);
    Mixture(d.dirichlet(j, p.alpha), d.gamma(j, p.shape, p.scale))
  }

  /** The state after the first `j` iterations. */
  function MixtureAt(st: Setup, d: Draws, j: nat): (m: Mixture)
    requires WellFormed(st) && ValidDraws(d, |st.times|, st.ncomp)
    ensures j > 0 ==> |m.weights| == st.ncomp && |m.rates| == st.ncomp
  {
    if j == 0 then InitialMixture(st.ncomp)
    else
      var prev := MixtureAt(st, d, j - 1);
      Resample(st, d, j, DrawLabels(st, d, j, prev))
  }

  /** The labels `s` drawn in iteration `j >= 1`. */
  function LabelsAt(st: Setup, d: Draws, j: nat): (s: seq<nat>)
    requires WellFormed(st) && ValidDraws(d, |st.times|, st.ncomp) && j >= 1
    ensures |s| == |st.times|
    ensures forall t :: 0 <= t < |s| ==> s[t] < st.ncomp
  {
    DrawLabels(st, d, j, MixtureAt(st, d, j - 1))
  }

  /** The first state has K entries whatever K is, as the chain arrays' rows require. */
  lemma InitialMixtureShape(k: nat)
    ensures |InitialMixture(k).weights| == k && |InitialMixture(k).rates| == k
  {
    if k > 0 {
      InitialWeightsDistribution(k);
    }
  }

  /**
   * For any labelling of the durations into `ncomp` components, the
   * sufficient statistics partition the data (`sum(Ns) == N`,
   * `sum(Ts) == sum(times)`), and under the default priors every parameter
   * handed to the Dirichlet and Gamma draws is positive.
   */
  lemma LabelStatistics(times: seq<real>, ncomp: nat, s: seq<nat>)
    requires NonNegative(times) && |s| == |times| && forall t :: 0 <= t < |s| ==> s[t] < ncomp
    ensures ValidHypers(DirichletPrior(ncomp), GammaPrior(ncomp))
    ensures SumNat(Counts(s, ncomp)) == |s|
    ensures Sum(Totals(s, times, ncomp)) == Sum(times)
    ensures var p := PosteriorOf(DirichletPrior(ncomp), GammaPrior(ncomp), s, times);
            forall c :: 0 <= c < ncomp ==> p.alpha[c] > 0.0 && p.shape[c] > 0.0 && p.scale[c] > 0.0
  {
    PriorsPositive(ncomp);
    CountsPartition(s, ncomp);
    TotalsPartition(s, times, ncomp);
    var wh, rh := DirichletPrior(ncomp), GammaPrior(ncomp);
    assert |wh| == ncomp && forall c :: 0 <= c < |wh| ==> wh[c] > 0.0 && rh[c].0 > 0.0;
    PosteriorPositive(wh, rh, s, times);
  }

  /** The same holds of the labels the chain draws in every iteration `j >= 1`. */
  lemma IterationStatistics(times: seq<real>, ncomp: nat, d: Draws, j: nat)
    requires NonNegative(times) && ValidDraws(d, |times|, ncomp) && j >= 1
    ensures var st := DefaultSetup(times, ncomp);
            var s := LabelsAt(st, d, j);
            var p := PosteriorOf(st.whypers, st.rhypers, s, times);
            && SumNat(Counts(s, ncomp)) == |times|
            && Sum(Totals(s, times, ncomp)) == Sum(times)
            && forall c :: 0 <= c < ncomp ==> p.alpha[c] > 0.0 && p.shape[c] > 0.0 && p.scale[c] > 0.0
  {
    var st := DefaultSetup(times, ncomp);
    PriorsPositive(ncomp);
    assert WellFormed(st);
    LabelStatistics(times, ncomp, LabelsAt(st, d, j));
  }
}
