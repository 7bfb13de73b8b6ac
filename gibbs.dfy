/**
 * The `Gibbs` class of basicrta/gibbs.py: its constructor (lines 29-38),
 * `_prepare` (lines 46-62), `run` (lines 65-98) and `_process_gibbs`
 * (lines 109-140), with the chain arrays held in memory.
 */
module GibbsSampler {
  import opened Types
  import opened Arith
  import opened Sums
  import opened TimeStep
  import opened Initial
  import opened Posterior
  import opened Schedule
  import opened Sampler
  import opened Reduction
  import opened Processing

  /** Line 97-98, `a[ind] = v`: overwrite one row, leave the others. */
  method WriteRow<T>(a: array2<T>, r: nat, v: seq<T>)
    requires r < a.Length0 && |v| == a.Length1
    modifies a
    ensures forall i, k :: 0 <= i < a.Length0 && 0 <= k < a.Length1 ==>
              a[i, k] == if i == r then v[k] else old(a[i, k])
  {
    for k := 0 to a.Length1
      invariant forall i, k' :: 0 <= i < a.Length0 && 0 <= k' < a.Length1 ==>
                  a[i, k'] == if i == r && k' < k then v[k'] else old(a[i, k'])
    {
      a[r, k] := v[k];
    }
  }

  /**
   * After the iterations up to `j`, every row of `a` a checkpoint has reached
   * holds its entry of `want`, and every other row its entry of `a0`.
   */
  ghost predicate FilledUpTo<T>(a: array2<T>, j: nat, g: nat, want: seq<seq<T>>, a0: seq<seq<T>>)
    reads a
  {
    && |want| == |a0| == a.Length0 && Rectangular(want, a.Length1) && Rectangular(a0, a.Length1)
    && forall r, c :: 0 <= r < a.Length0 && 0 <= c < a.Length1 ==>
         a[r, c] == if RecordedBy(r, j, g) then want[r][c] else a0[r][c]
  }

  /** Lines 95-98 for one chain array: iteration `j` stores `v` in row `j // g - 1` when `g` divides `j`. */
  method Record<T>(a: array2<T>, j: nat, g: nat, v: seq<T>, ghost want: seq<seq<T>>, ghost a0: seq<seq<T>>)
    requires g > 0 && j >= 1 && FilledUpTo(a, j - 1, g, want, a0)
    requires j % g == 0 ==> j / g - 1 < a.Length0 && v == want[j / g - 1]
    modifies a
    ensures FilledUpTo(a, j, g, want, a0)
  {
    if j % g == 0 {
      var ind := j / g - 1;
      WriteRow(a, ind, v);
    }
    forall r: nat | r < a.Length0
      ensures RecordedBy(r, j, g) <==> RecordedBy(r, j - 1, g) || CheckpointRow(j, g) == Some(r)
    {
      RecordedStep(r, j, g);
    }
  }

  /** Before the first iteration no row is recorded, so the array holds what it held. */
  lemma FilledAtStart<T>(a: array2<T>, g: nat, want: seq<seq<T>>)
    requires g > 0 && |want| == a.Length0 && Rectangular(want, a.Length1)
    ensures FilledUpTo(a, 0, g, want, Contents(a))
  {
    forall r: nat ensures !RecordedBy(r, 0, g) {
      MulMono(1, r + 1, g);
    }
  }

  /** After `niter` iterations the rows below `niter // g` are the recorded ones. */
  lemma FilledAtEnd<T>(a: array2<T>, niter: nat, g: nat, want: seq<seq<T>>, a0: seq<seq<T>>)
    requires g > 0 && FilledUpTo(a, niter, g, want, a0)
    ensures forall r, c :: 0 <= r < a.Length0 && 0 <= c < a.Length1 ==>
              a[r, c] == if r < niter / g then want[r][c] else a0[r][c]
  {
    forall r: nat ensures RecordedBy(r, niter, g) <==> r < niter / g {
      RecordedAtEnd(r, niter, g);
    }
  }

  class Gibbs {
    const times: seq<real>
    const ncomp: nat
    const niter: nat
    /** The checkpoint interval, `self.g`. */
    const g: nat
    const burnin: nat
    /** `self.ts`: `None` without durations, `Failure` where line 36 raises. */
    const ts: Option<Result<real>>

    var whypers: seq<real>
    var rhypers: seq<(real, real)>
    var mcweights: array2<real>
    var mcrates: array2<real>
    var indicator: array2<byte>

    constructor (times: seq<real>, ncomp: nat := 15, niter: nat := 50000)
      ensures this.times == times && this.ncomp == ncomp && this.niter == niter
      ensures g == 100 && burnin == 10000
      ensures ts == InitialTimeStep(times)
    {
      this.times, this.ncomp, this.niter := times, ncomp, niter;
      g, burnin := 100, 10000;
      ts := InitialTimeStep(times);
      whypers, rhypers := [], [];
      mcweights := new real[0, 0];
      mcrates := new real[0, 0];
      indicator := new byte[0, 0];
    }

    /** The state `_prepare` leaves: arrays of the schedule's shape and the default priors. */
    ghost predicate Prepared()
      reads this
    {
      && g > 0
      && mcweights.Length0 == NumRows(niter, g) && mcweights.Length1 == ncomp
      && mcrates.Length0 == NumRows(niter, g) && mcrates.Length1 == ncomp
      && indicator.Length0 == NumRows(niter, g) && indicator.Length1 == |times|
      && mcweights != mcrates
      && whypers == DirichletPrior(ncomp) && rhypers == GammaPrior(ncomp)
    }

    /** Lines 53-62: zero-filled chain arrays of `(niter + 1) // g` rows, and the priors. */
    method Prepare()
      requires g > 0
      modifies this
      ensures Prepared()
      ensures fresh(mcweights) && fresh(mcrates) && fresh(indicator)
      ensures forall r, c :: 0 <= r < NumRows(niter, g) && 0 <= c < ncomp ==> mcweights[r, c] == 0.0 && mcrates[r, c] == 0.0
      ensures forall r, t :: 0 <= r < NumRows(niter, g) && 0 <= t < |times| ==> indicator[r, t] == 0
    {
      var rows := NumRows(niter, g);
      indicator := new byte[rows, |times|]((r, t) => 0);
      mcweights := new real[rows, ncomp]((r, c) => 0.0);
      mcrates := new real[rows, ncomp]((r, c) => 0.0);
      whypers := DirichletPrior(ncomp);
      rhypers := GammaPrior(ncomp);
    }

    function CurrentSetup(): Setup
      reads this
    {
      Setup(times, ncomp, whypers, rhypers)
    }

    /** The state of the `r`-th checkpointed iteration, `(r + 1) * g`. */
    ghost function Checkpointed(st: Setup, d: Draws, r: nat): (m: Mixture)
      requires g > 0 && WellFormed(st) && ValidDraws(d, |st.times|, st.ncomp)
      ensures |m.weights| == st.ncomp && |m.rates| == st.ncomp
    {
      MulMono(1, r + 1, g);
      MixtureAt(st, d, (r + 1) * g)
    }

    /** The labels of the `r`-th checkpointed iteration, as stored in `uint8`. */
    ghost function CheckpointLabels(st: Setup, d: Draws, r: nat): (l: seq<byte>)
      requires g > 0 && WellFormed(st) && ValidDraws(d, |st.times|, st.ncomp)
      ensures |l| == |st.times|
    {
      MulMono(1, r + 1, g);
      var s := LabelsAt(st, d, (r + 1) * g);
      seq(|s|, t requires 0 <= t < |s| => ToByte(s[t]))
    }

    /**
     * Lines 73-92, one iteration: draw the labels from the current state, then
     * new weights and rates from the posterior their statistics give.
     */
    method Step(ghost st: Setup, d: Draws, j: nat, weights: seq<real>, rates: seq<real>)
      returns (s: seq<nat>, weights': seq<real>, rates': seq<real>)
      requires st == CurrentSetup() && WellFormed(st) && ValidDraws(d, |times|, ncomp) && j >= 1
      requires Mixture(weights, rates) == MixtureAt(st, d, j - 1)
      ensures s == LabelsAt(st, d, j) && Mixture(weights', rates') == MixtureAt(st, d, j)
    {
      s := d.labels(j, weights, rates);
      var p := PosteriorOf(whypers, rhypers, s, times);
      weights' := d.dirichlet(j, p.alpha);
      rates' := d.gamma(j, p.shape, p.scale);
    }

    /** What the checkpoints leave in each chain array, row by row. */
    ghost function WeightTable(st: Setup, d: Draws): (m: seq<seq<real>>)
      requires g > 0 && WellFormed(st) && ValidDraws(d, |st.times|, st.ncomp)
      ensures |m| == NumRows(niter, g) && Rectangular(m, st.ncomp)
    {
      seq(NumRows(niter, g), r requires 0 <= r < NumRows(niter, g) => Checkpointed(st, d, r).weights)
    }

    ghost function RateTable(st: Setup, d: Draws): (m: seq<seq<real>>)
      requires g > 0 && WellFormed(st) && ValidDraws(d, |st.times|, st.ncomp)
      ensures |m| == NumRows(niter, g) && Rectangular(m, st.ncomp)
    {
      seq(NumRows(niter, g), r requires 0 <= r < NumRows(niter, g) => Checkpointed(st, d, r).rates)
    }

    ghost function LabelTable(st: Setup, d: Draws): (m: seq<seq<byte>>)
      requires g > 0 && WellFormed(st) && ValidDraws(d, |st.times|, st.ncomp)
      ensures |m| == NumRows(niter, g) && Rectangular(m, |st.times|)
    {
      seq(NumRows(niter, g), r requires 0 <= r < NumRows(niter, g) => CheckpointLabels(st, d, r))
    }

    /** Lines 95-98: iteration `j`'s weights, rates and `uint8` labels go to row `j // g - 1` when `g` divides `j`. */
    method Store(ghost st: Setup, d: Draws, j: nat, weights: seq<real>, rates: seq<real>, s: seq<nat>,
                 ghost w0: seq<seq<real>>, ghost r0: seq<seq<real>>, ghost l0: seq<seq<byte>>)
      requires Prepared() && st == CurrentSetup() && WellFormed(st) && ValidDraws(d, |times|, ncomp)
      requires 1 <= j <= niter && s == LabelsAt(st, d, j) && Mixture(weights, rates) == MixtureAt(st, d, j)
      requires FilledUpTo(mcweights, j - 1, g, WeightTable(st, d), w0)
      requires FilledUpTo(mcrates, j - 1, g, RateTable(st, d), r0)
      requires FilledUpTo(indicator, j - 1, g, LabelTable(st, d), l0)
      modifies mcweights, mcrates, indicator
      ensures FilledUpTo(mcweights, j, g, WeightTable(st, d), w0)
      ensures FilledUpTo(mcrates, j, g, RateTable(st, d), r0)
      ensures FilledUpTo(indicator, j, g, LabelTable(st, d), l0)
    {
      var labelRow := seq(|s|, t requires 0 <= t < |s| => ToByte(s[t]));
      if j % g == 0 {
        var ind := j / g - 1;
        CheckpointRowInBounds(j, niter, g);
        CheckpointRowIff(j, ind, g);
        assert Checkpointed(st, d, ind) == MixtureAt(st, d, j);
        assert LabelTable(st, d)[ind] == labelRow by {
          assert LabelsAt(st, d, (ind + 1) * g) == s;
        }
      }
      Record(mcweights, j, g, weights, WeightTable(st, d), w0);
      Record(mcrates, j, g, rates, RateTable(st, d), r0);
      Record(indicator, j, g, labelRow, LabelTable(st, d), l0);
    }

    /**
     * Lines 65-98: run `niter` iterations from the initial guess; row `r` of
     * each chain array ends up holding the state of iteration `(r + 1) * g`
     * for every `r < niter // g` (labels stored as `uint8`), and the rows no
     * iteration reaches keep what they held.
     */
    method Run(d: Draws)
      requires Prepared() && NonNegative(times) && ValidDraws(d, |times|, ncomp)
      modifies mcweights, mcrates, indicator
      ensures WellFormed(CurrentSetup())
      ensures forall r, c :: 0 <= r < NumRows(niter, g) && 0 <= c < ncomp ==>
                mcweights[r, c] == if r < niter / g then WeightTable(CurrentSetup(), d)[r][c]
                                   else old(mcweights[r, c])
      ensures forall r, c :: 0 <= r < NumRows(niter, g) && 0 <= c < ncomp ==>
                mcrates[r, c] == if r < niter / g then RateTable(CurrentSetup(), d)[r][c]
                                 else old(mcrates[r, c])
      ensures forall r, t :: 0 <= r < NumRows(niter, g) && 0 <= t < |times| ==>
                indicator[r, t] == if r < niter / g then LabelTable(CurrentSetup(), d)[r][t]
                                   else old(indicator[r, t])
    {
      var st := CurrentSetup();
      assert WellFormed(st) by { PriorsPositive(ncomp); }
      ghost var w0, r0, l0 := Contents(mcweights), Contents(mcrates), Contents(indicator);
      Begin(st, d);
      var weights, rates := InitialWeights(ncomp), InitialRates(ncomp);
      var j := 1;
      while j <= niter
        invariant 1 <= j <= niter + 1
        invariant Mixture(weights, rates) == MixtureAt(st, d, j - 1)
        invariant FilledUpTo(mcweights, j - 1, g, WeightTable(st, d), w0)
        invariant FilledUpTo(mcrates, j - 1, g, RateTable(st, d), r0)
        invariant FilledUpTo(indicator, j - 1, g, LabelTable(st, d), l0)
      {
        var s;
        s, weights, rates := Step(st, d, j, weights, rates);
        Store(st, d, j, weights, rates, s, w0, r0, l0);
        j := j + 1;
      }
      Finish(st, d, w0, r0, l0);
    }

    /** Before the first iteration, each chain array holds what it held. */
    lemma Begin(st: Setup, d: Draws)
      requires Prepared() && WellFormed(st) && ValidDraws(d, |st.times|, st.ncomp)
      requires st.ncomp == ncomp && st.times == times
      ensures FilledUpTo(mcweights, 0, g, WeightTable(st, d), Contents(mcweights))
      ensures FilledUpTo(mcrates, 0, g, RateTable(st, d), Contents(mcrates))
      ensures FilledUpTo(indicator, 0, g, LabelTable(st, d), Contents(indicator))
    {
      FilledAtStart(mcweights, g, WeightTable(st, d));
      FilledAtStart(mcrates, g, RateTable(st, d));
      FilledAtStart(indicator, g, LabelTable(st, d));
    }

    /** After the last iteration, the rows below `niter // g` hold their checkpoints. */
    lemma Finish(st: Setup, d: Draws, w0: seq<seq<real>>, r0: seq<seq<real>>, l0: seq<seq<byte>>)
      requires Prepared() && WellFormed(st) && ValidDraws(d, |st.times|, st.ncomp)
      requires FilledUpTo(mcweights, niter, g, WeightTable(st, d), w0)
      requires FilledUpTo(mcrates, niter, g, RateTable(st, d), r0)
      requires FilledUpTo(indicator, niter, g, LabelTable(st, d), l0)
      ensures forall r, c :: 0 <= r < NumRows(niter, g) && 0 <= c < ncomp ==>
                mcweights[r, c] == if r < niter / g then WeightTable(st, d)[r][c] else w0[r][c]
      ensures forall r, c :: 0 <= r < NumRows(niter, g) && 0 <= c < ncomp ==>
                mcrates[r, c] == if r < niter / g then RateTable(st, d)[r][c] else r0[r][c]
      ensures forall r, t :: 0 <= r < NumRows(niter, g) && 0 <= t < |times| ==>
                indicator[r, t] == if r < niter / g then LabelTable(st, d)[r][t] else l0[r][t]
    {
      FilledAtEnd(mcweights, niter, g, WeightTable(st, d), w0);
      FilledAtEnd(mcrates, niter, g, RateTable(st, d), r0);
      FilledAtEnd(indicator, niter, g, LabelTable(st, d), l0);
    }

    /** Every checkpointed rate is a Gamma draw, hence positive. */
    lemma CheckpointRatesPositive(st: Setup, d: Draws)
      requires g > 0 && WellFormed(st) && ValidDraws(d, |st.times|, st.ncomp)
      ensures forall r, c :: 0 <= r < NumRows(niter, g) && 0 <= c < st.ncomp ==> RateTable(st, d)[r][c] > 0.0
    {
      forall r, c | 0 <= r < NumRows(niter, g) && 0 <= c < st.ncomp ensures RateTable(st, d)[r][c] > 0.0 {
        MulMono(1, r + 1, g);
        var j := (r + 1) * g;
        var p := PosteriorOf(st.whypers, st.rhypers, LabelsAt(st, d, j), st.times);
        assert RateTable(st, d)[r] == MixtureAt(st, d, j).rates == d.gamma(j, p.shape, p.scale);
      }
    }

    /** Every checkpointed weight vector is a Dirichlet draw: non-negative, summing to one once there is a component. */
    lemma CheckpointWeightsDistribution(st: Setup, d: Draws)
      requires g > 0 && WellFormed(st) && ValidDraws(d, |st.times|, st.ncomp)
      ensures forall r, c :: 0 <= r < NumRows(niter, g) && 0 <= c < st.ncomp ==> WeightTable(st, d)[r][c] >= 0.0
      ensures forall r :: 0 <= r < NumRows(niter, g) ==>
                Sum(WeightTable(st, d)[r]) == if st.ncomp >= 1 then 1.0 else 0.0
    {
      forall r | 0 <= r < NumRows(niter, g)
        ensures forall c :: 0 <= c < st.ncomp ==> WeightTable(st, d)[r][c] >= 0.0
        ensures Sum(WeightTable(st, d)[r]) == if st.ncomp >= 1 then 1.0 else 0.0
      {
        MulMono(1, r + 1, g);
        var j := (r + 1) * g;
        var p := PosteriorOf(st.whypers, st.rhypers, LabelsAt(st, d, j), st.times);
        assert WeightTable(st, d)[r] == MixtureAt(st, d, j).weights == d.dirichlet(j, p.alpha);
      }
    }

    /**
     * On the arrays a fresh `_prepare` and `run` leave, every weight is
     * non-negative and the rows `run` writes sum to one; the row it leaves
     * unwritten, which exists exactly when `g` divides `niter + 1`, keeps
     * `_prepare`'s zeros and sums to zero.
     */
    lemma RunLeavesWeightRows(d: Draws)
      requires Prepared() && WellFormed(CurrentSetup()) && ValidDraws(d, |times|, ncomp)
      requires forall r, c :: 0 <= r < NumRows(niter, g) && 0 <= c < ncomp ==>
                 mcweights[r, c] == (if r < niter / g then WeightTable(CurrentSetup(), d)[r][c] else 0.0)
      ensures forall r, c :: 0 <= r < NumRows(niter, g) && 0 <= c < ncomp ==> mcweights[r, c] >= 0.0
      ensures forall r :: 0 <= r < NumRows(niter, g) ==>
                Sum(Contents(mcweights)[r]) == if r < niter / g && ncomp >= 1 then 1.0 else 0.0
      ensures NumRows(niter, g) - niter / g == if (niter + 1) % g == 0 then 1 else 0
    {
      var st := CurrentSetup();
      CheckpointWeightsDistribution(st, d);
      UnwrittenRows(niter, g);
      var w := Contents(mcweights);
      forall r | 0 <= r < NumRows(niter, g)
        ensures Sum(w[r]) == if r < niter / g && ncomp >= 1 then 1.0 else 0.0
      {
        if r < niter / g {
          assert w[r] == WeightTable(st, d)[r];
        } else {
          SumZeros(w[r]);
        }
      }
    }

    /**
     * The chain a fresh `_prepare` and `run` leave can always be logged: for any
     * burn-in and any cutoff `>= 0`, every weight above the cutoff comes from a
     * written row, so it is positive and so is the Gamma rate beside it. The
     * `NonFiniteLog` failure is therefore reached only with a negative cutoff.
     */
    lemma RunLeavesLogDefined(d: Draws, b: nat, cutoff: real)
      requires Prepared() && WellFormed(CurrentSetup()) && ValidDraws(d, |times|, ncomp) && cutoff >= 0.0
      requires forall r, c :: 0 <= r < NumRows(niter, g) && 0 <= c < ncomp ==>
                 mcweights[r, c] == (if r < niter / g then WeightTable(CurrentSetup(), d)[r][c] else 0.0)
      requires forall r, c :: 0 <= r < NumRows(niter, g) && 0 <= c < ncomp ==>
                 mcrates[r, c] == (if r < niter / g then RateTable(CurrentSetup(), d)[r][c] else 0.0)
      ensures LogDefined(Skip(Contents(mcweights), b), Skip(Contents(mcrates), b), cutoff)
    {
      var st := CurrentSetup();
      CheckpointRatesPositive(st, d);
      var w, rt := Contents(mcweights), Contents(mcrates);
      var wt, rtt := Skip(w, b), Skip(rt, b);
      forall r, c | 0 <= r < |wt| && 0 <= c < |wt[r]| && wt[r][c] > cutoff
        ensures wt[r][c] > 0.0 && r < |rtt| && c < |rtt[r]| && rtt[r][c] > 0.0
      {
        assert wt[r][c] == mcweights[b + r, c];
        assert rtt[r][c] == mcrates[b + r, c];
      }
    }

    /**
     * With at most 256 components the `uint8` label chain holds the drawn labels
     * unchanged, so line 130's comparison of a stored label with a component
     * index compares the label iteration `(r + 1) * g` drew.
     */
    lemma StoredLabelsExact(st: Setup, d: Draws, r: nat, t: nat)
      requires g > 0 && WellFormed(st) && ValidDraws(d, |st.times|, st.ncomp) && st.ncomp <= 256
      requires r < NumRows(niter, g) && t < |st.times|
      ensures (r + 1) * g >= 1
      ensures LabelTable(st, d)[r][t] as int == LabelsAt(st, d, (r + 1) * g)[t]
    {
      MulMono(1, r + 1, g);
    }

    /** Lines 109-140 as written: post-burn-in row `j` reads label row `j` (line 130). */
    method ProcessGibbs(cluster: (seq<(real, real)>, nat) -> seq<nat>, cutoff: real := 0.0001) returns (r: Result<Processed>)
      requires Prepared() && ValidClustering(cluster)
      ensures r == Reduce(Contents(mcweights), Contents(mcrates), Contents(indicator), ncomp, |times|,
                          burnin, g, cutoff, cluster, 0)
    {
      r := ProcessChain(Contents(mcweights), Contents(mcrates), Contents(indicator), ncomp, |times|,
                        burnin, g, cutoff, cluster, 0);
    }

    /** Lines 109-140 with line 130 reading label row `burnin // g + j`, the row the weights came from. */
    method ProcessGibbsAligned(cluster: (seq<(real, real)>, nat) -> seq<nat>, cutoff: real := 0.0001) returns (r: Result<Processed>)
      requires Prepared() && ValidClustering(cluster)
      ensures r == Reduce(Contents(mcweights), Contents(mcrates), Contents(indicator), ncomp, |times|,
                          burnin, g, cutoff, cluster, burnin / g)
    {
      r := ProcessChain(Contents(mcweights), Contents(mcrates), Contents(indicator), ncomp, |times|,
                        burnin, g, cutoff, cluster, burnin / g);
    }
  }
}
