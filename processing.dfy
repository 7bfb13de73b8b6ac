/**
 * `Gibbs._process_gibbs` end to end (lines 109-140) on the contents of the
 * chain arrays: selection, clustering (an oracle for `KMeans(...).fit(np.log(data))`)
 * and membership.
 */
module Processing {
  import opened Types
  import opened Sums
  import opened Reduction
  import opened Membership
  import opened Posterior

  /** The fields `_process_gibbs` stores in its result record. */
  datatype Processed = Processed(
    weights: seq<real>,
    rates: seq<real>,
    ncomp: nat,
    indicator: seq<MembershipRow>,
    labels: seq<nat>,
    iteration: seq<nat>)

  /**
   * The clustering returns one label per sample, in `[0, n_clusters)` whenever
   * at least one cluster is asked for, as `km.labels_` does (line 121 is only
   * reached with `ncomp >= 1`).
   */
  ghost predicate ValidClustering(cluster: (seq<(real, real)>, nat) -> seq<nat>)
  {
    && (forall data, k :: |cluster(data, k)| == |data|)
    && (forall data, k, i :: k >= 1 && 0 <= i < |cluster(data, k)| ==> cluster(data, k)[i] < k)
  }

  /** Every entry is strictly positive, so `np.log` of it is finite. */
  predicate Positive(xs: seq<real>)
  {
    forall i :: 0 <= i < |xs| ==> xs[i] > 0.0
  }

  /** Every entry of `w` above the cutoff, and the rate beside it in `rt`, is strictly positive. */
  predicate LogDefined(w: seq<seq<real>>, rt: seq<seq<real>>, cutoff: real)
  {
    forall r, c :: 0 <= r < |w| && 0 <= c < |w[r]| && w[r][c] > cutoff ==>
      w[r][c] > 0.0 && r < |rt| && c < |rt[r]| && rt[r][c] > 0.0
  }

  /** The chain arrays as they come out of `run`: `rows` rows of K weights, K rates and N labels. */
  predicate ChainShape(w: seq<seq<real>>, rt: seq<seq<real>>, labels: seq<seq<byte>>, k: nat, n: nat)
  {
    |w| == |rt| == |labels| && Rectangular(w, k) && Rectangular(rt, k) && Rectangular(labels, n)
  }

  /** `mcweights[burnin_ind::][inds]`. */
  function Gather(m: seq<seq<real>>, k: nat, ps: seq<Pair>): seq<real>
    requires Rectangular(m, k) && forall i :: 0 <= i < |ps| ==> ps[i].row < |m| && ps[i].col < k
  {
    seq(|ps|, i requires 0 <= i < |ps| => m[ps[i].row][ps[i].col])
  }

  /** `np.stack((weights, rates), axis=1)`. */
  function Stack(a: seq<real>, b: seq<real>): seq<(real, real)>
    requires |a| == |b|
  {
    seq(|a|, i requires 0 <= i < |a| => (a[i], b[i]))
  }

  lemma TailsShape(w: seq<seq<real>>, rt: seq<seq<real>>, k: nat, b: nat)
    requires |w| == |rt| && Rectangular(w, k) && Rectangular(rt, k)
    ensures |Skip(w, b)| == |Skip(rt, b)| && Rectangular(Skip(w, b), k) && Rectangular(Skip(rt, b), k)
  {
  }

  lemma SurvivorsInside(w: seq<seq<real>>, k: nat, cutoff: real)
    requires Rectangular(w, k)
    ensures forall i :: 0 <= i < |Survivors(w, cutoff)| ==>
              Survivors(w, cutoff)[i].row < |w| && Survivors(w, cutoff)[i].col < k
  {
    SurvivorsSpec(w, cutoff);
    var ps := Survivors(w, cutoff);
    forall i | 0 <= i < |ps| ensures ps[i].row < |w| && ps[i].col < k {
      assert ps[i] in ps;
    }
  }

  /**
   * The reduction the source performs, with the label rows read at
   * `offset + j` for post-burn-in row `j` (`offset == 0` as written).
   */
  function Reduce(w: seq<seq<real>>, rt: seq<seq<real>>, labels: seq<seq<byte>>, k: nat, n: nat,
                  burnin: nat, g: nat, cutoff: real,
                  cluster: (seq<(real, real)>, nat) -> seq<nat>, offset: nat): Result<Processed>
    requires g > 0 && ChainShape(w, rt, labels, k, n) && ValidClustering(cluster) && offset <= burnin / g
  {
    var wt, rtt := Skip(w, burnin / g), Skip(rt, burnin / g);
    var ps := Survivors(wt, cutoff);
    var lens := Lens(wt, cutoff);
    if lens == [] then Failure(EmptyReduction)
    else
      var ncomp := Mode(lens);
      if ncomp == 0 then Failure(EmptyReduction)
      else
        SurvivorsInside(wt, k, cutoff);
        TailsShape(w, rt, k, burnin / g);
        var weights, rates := Gather(wt, k, ps), Gather(rtt, k, ps);
        if !Positive(weights) || !Positive(rates) then Failure(NonFiniteLog)
        else
          var km := cluster(Stack(weights, rates), ncomp);
          var counts := CountMatrix(ps, km, labels, offset, n, ncomp);
          Success(Processed(weights, rates, ncomp, Normalise(counts), km,
                            seq(|ps|, i requires 0 <= i < |ps| => CheckpointIndex(burnin, g, ps[i].row))))
  }

  /** The contents of a two-dimensional array, row by row. */
  function Contents<T>(m: array2<T>): (c: seq<seq<T>>)
    reads m
    ensures |c| == m.Length0 && Rectangular(c, m.Length1)
    ensures forall t, k :: 0 <= t < m.Length0 && 0 <= k < m.Length1 ==> c[t][k] == m[t, k]
  {
    seq(m.Length0, t requires 0 <= t < m.Length0 reads m =>
      seq(m.Length1, c requires 0 <= c < m.Length1 reads m => m[t, c]))
  }

  /** Lines 110-133 on the chain: the in-place accumulation, then the normalisation. */
  method ProcessChain(w: seq<seq<real>>, rt: seq<seq<real>>, labels: seq<seq<byte>>, k: nat, n: nat,
                      burnin: nat, g: nat, cutoff: real,
                      cluster: (seq<(real, real)>, nat) -> seq<nat>, offset: nat)
    returns (r: Result<Processed>)
    requires g > 0 && ChainShape(w, rt, labels, k, n) && ValidClustering(cluster) && offset <= burnin / g
    ensures r == Reduce(w, rt, labels, k, n, burnin, g, cutoff, cluster, offset)
  {
    var burninInd := burnin / g;
    var wt, rtt := Skip(w, burninInd), Skip(rt, burninInd);
    var ps := Survivors(wt, cutoff);
    var lens := Lens(wt, cutoff);
    if lens == [] {
      return Failure(EmptyReduction);
    }
    var ncomp := Mode(lens);
    if ncomp == 0 {
      return Failure(EmptyReduction);
    }
    SurvivorsInside(wt, k, cutoff);
    TailsShape(w, rt, k, burninInd);
    var weights, rates := Gather(wt, k, ps), Gather(rtt, k, ps);
    if !Positive(weights) || !Positive(rates) {
      return Failure(NonFiniteLog);
    }
    var km := cluster(Stack(weights, rates), ncomp);
    var indicator := Accumulate(ps, km, labels, offset, n, ncomp);
    var counts := Contents(indicator);
    var expected := CountMatrix(ps, km, labels, offset, n, ncomp);
    forall t | 0 <= t < n ensures counts[t] == expected[t] {
      assert forall c :: 0 <= c < ncomp ==> counts[t][c] == indicator[t, c] == expected[t][c];
    }
    assert counts == expected;
    r := Success(Processed(weights, rates, ncomp, Normalise(counts), km,
                           seq(|ps|, i requires 0 <= i < |ps| => CheckpointIndex(burnin, g, ps[i].row))));
  }

  /**
   * The gathered survivors can all be logged exactly when every weight above the
   * cutoff, and the rate beside it, is positive.
   */
  lemma GatheredPositive(wt: seq<seq<real>>, rtt: seq<seq<real>>, k: nat, cutoff: real)
    requires |wt| == |rtt| && Rectangular(wt, k) && Rectangular(rtt, k)
    ensures forall i :: 0 <= i < |Survivors(wt, cutoff)| ==>
              Survivors(wt, cutoff)[i].row < |wt| && Survivors(wt, cutoff)[i].col < k
    ensures Positive(Gather(wt, k, Survivors(wt, cutoff))) && Positive(Gather(rtt, k, Survivors(wt, cutoff)))
            <==> LogDefined(wt, rtt, cutoff)
  {
    SurvivorsInside(wt, k, cutoff);
    SurvivorsMembers(wt, cutoff);
    var ps := Survivors(wt, cutoff);
    var weights, rates := Gather(wt, k, ps), Gather(rtt, k, ps);
    if Positive(weights) && Positive(rates) {
      forall r, c | 0 <= r < |wt| && 0 <= c < |wt[r]| && wt[r][c] > cutoff
        ensures wt[r][c] > 0.0 && r < |rtt| && c < |rtt[r]| && rtt[r][c] > 0.0
      {
        assert Pair(r, c) in ps;
        var i :| 0 <= i < |ps| && ps[i] == Pair(r, c);
        assert weights[i] == wt[r][c] && rates[i] == rtt[r][c];
      }
    }
    if LogDefined(wt, rtt, cutoff) {
      forall i | 0 <= i < |ps| ensures weights[i] > 0.0 && rates[i] > 0.0 {
        assert ps[i] in ps;
      }
    }
  }

  /**
   * The reduction fails exactly when nothing follows the burn-in, the modal
   * survivor count is zero, or a survivor cannot be logged; the last is the
   * `NonFiniteLog` error, raised only once the first two have passed.
   */
  lemma ReduceFails(w: seq<seq<real>>, rt: seq<seq<real>>, labels: seq<seq<byte>>, k: nat, n: nat,
                    burnin: nat, g: nat, cutoff: real,
                    cluster: (seq<(real, real)>, nat) -> seq<nat>, offset: nat)
    requires g > 0 && ChainShape(w, rt, labels, k, n) && ValidClustering(cluster) && offset <= burnin / g
    ensures var lens := Lens(Skip(w, burnin / g), cutoff);
            Reduce(w, rt, labels, k, n, burnin, g, cutoff, cluster, offset).Failure? <==>
              (|w| <= burnin / g || Mode(lens) == 0 || !LogDefined(Skip(w, burnin / g), Skip(rt, burnin / g), cutoff))
    ensures var lens := Lens(Skip(w, burnin / g), cutoff);
            Reduce(w, rt, labels, k, n, burnin, g, cutoff, cluster, offset) == Failure(NonFiniteLog) <==>
              (|w| > burnin / g && Mode(lens) != 0 && !LogDefined(Skip(w, burnin / g), Skip(rt, burnin / g), cutoff))
  {
    TailsShape(w, rt, k, burnin / g);
    GatheredPositive(Skip(w, burnin / g), Skip(rt, burnin / g), k, cutoff);
  }

  /**
   * The selection a successful reduction returns: `ncomp` is the smallest most
   * frequent survivor count, at least one and at most the number of survivors;
   * every surviving weight exceeds the cutoff, and every weight and rate handed
   * to the clustering is positive; every output list has one entry
   * per survivor; `iteration` names absolute chain rows.
   */
  lemma ReduceSelection(w: seq<seq<real>>, rt: seq<seq<real>>, labels: seq<seq<byte>>, k: nat, n: nat,
                        burnin: nat, g: nat, cutoff: real,
                        cluster: (seq<(real, real)>, nat) -> seq<nat>, offset: nat)
    requires g > 0 && ChainShape(w, rt, labels, k, n) && ValidClustering(cluster) && offset <= burnin / g
    requires Reduce(w, rt, labels, k, n, burnin, g, cutoff, cluster, offset).Success?
    ensures var p := Reduce(w, rt, labels, k, n, burnin, g, cutoff, cluster, offset).value;
            var wt := Skip(w, burnin / g);
            var ps := Survivors(wt, cutoff);
            var lens := Lens(wt, cutoff);
            && p.ncomp == Mode(lens)
            && 1 <= p.ncomp <= |ps|
            && |p.weights| == |p.rates| == |p.labels| == |p.iteration| == |ps| == SumNat(lens)
            && (forall i :: 0 <= i < |ps| ==> p.weights[i] > cutoff && p.labels[i] < p.ncomp)
            && (forall i :: 0 <= i < |ps| ==> p.weights[i] > 0.0 && p.rates[i] > 0.0)
            && (forall i :: 0 <= i < |ps| ==> p.iteration[i] == burnin / g + ps[i].row)
  {
    var p := Reduce(w, rt, labels, k, n, burnin, g, cutoff, cluster, offset).value;
    var wt := Skip(w, burnin / g);
    var ps := Survivors(wt, cutoff);
    SurvivorsSpec(wt, cutoff);
    ModeAtMostSurvivors(wt, cutoff);
    forall i | 0 <= i < |ps| ensures p.weights[i] > cutoff && p.iteration[i] == burnin / g + ps[i].row {
      assert ps[i] in ps;
      CheckpointIndexEq(burnin, g, ps[i].row);
    }
  }

  /**
   * The membership a successful reduction returns has one row per observation,
   * undefined exactly when the observation matched no surviving pair, and
   * otherwise `ncomp` fractions summing to one; the matches never outnumber the
   * distinct surviving rows.
   */
  lemma ReduceMembership(w: seq<seq<real>>, rt: seq<seq<real>>, labels: seq<seq<byte>>, k: nat, n: nat,
                         burnin: nat, g: nat, cutoff: real,
                         cluster: (seq<(real, real)>, nat) -> seq<nat>, offset: nat, t: nat)
    requires g > 0 && ChainShape(w, rt, labels, k, n) && ValidClustering(cluster) && offset <= burnin / g
    requires Reduce(w, rt, labels, k, n, burnin, g, cutoff, cluster, offset).Success?
    requires t < n
    ensures var p := Reduce(w, rt, labels, k, n, burnin, g, cutoff, cluster, offset).value;
            var ps := Survivors(Skip(w, burnin / g), cutoff);
            && |p.indicator| == n
            && (forall i :: 0 <= i < |ps| ==> ps[i].row + offset < |labels|)
            && MatchCount(ps, labels, offset, n, |ps|, t) <= |RowsOf(ps, |ps|)|
            && (p.indicator[t].Undefined? <==> MatchCount(ps, labels, offset, n, |ps|, t) == 0)
            && (p.indicator[t].Fractions? ==> |p.indicator[t].f| == p.ncomp && Sum(p.indicator[t].f) == 1.0)
  {
    var p := Reduce(w, rt, labels, k, n, burnin, g, cutoff, cluster, offset).value;
    var wt := Skip(w, burnin / g);
    var ps := Survivors(wt, cutoff);
    SurvivorsSpec(wt, cutoff);
    SurvivorsInside(wt, k, cutoff);
    assert Addressable(ps, p.labels, labels, offset, n, p.ncomp);
    assert p.indicator == Normalise(CountMatrix(ps, p.labels, labels, offset, n, p.ncomp));
    MembershipOf(ps, p.labels, labels, offset, n, p.ncomp, t);
  }

  /** The clustering that puts every sample in cluster 0. */
  function OneCluster(data: seq<(real, real)>, m: nat): seq<nat>
  {
    seq(|data|, i => 0)
  }

  lemma OneClusterValid()
    ensures ValidClustering(OneCluster)
  {
  }

  /** The selection on the example chain below: one survivor, in post-burn-in row 0. */
  lemma ExampleSelection()
    ensures Skip([[0.9], [0.5]], 1) == [[0.5]]
    ensures Survivors([[0.5]], 0.0) == [Pair(0, 0)]
    ensures Lens([[0.5]], 0.0) == [1] && Mode([1]) == 1
  {
    var w: seq<seq<real>> := [[0.5]];
    assert w[..0] == [] && w[0][..0] == [];
    assert RowSurvivors(0, [0.5], 0.0) == [Pair(0, 0)];
    assert CountAbove([0.5], 0.0) == 1;
    assert Occurrences([1], 1) == 1;
  }

  /** The membership on the example chain below: the one observation is wholly in cluster 0. */
  lemma ExampleMembership()
    ensures Addressable([Pair(0, 0)], [0], [[0], [0]], 1, 1, 1)
    ensures Normalise(CountMatrix([Pair(0, 0)], [0], [[0], [0]], 1, 1, 1)) == [Fractions([1.0])]
  {
    var ps, labels: seq<seq<byte>> := [Pair(0, 0)], [[0], [0]];
    assert Tally(ps, [0], labels, 1, 1, 1, 1, 0, 0) == 1;
    var cm := CountMatrix(ps, [0], labels, 1, 1, 1);
    assert |cm| == 1 && |cm[0]| == 1 && cm[0][0] == 1;
    assert cm[0] == [1];
    assert cm == [[1]];
    assert NormaliseRow([1]) == Fractions([1.0]);
  }

  /**
   * `_process_gibbs` on the chain above, for any label rows and either
   * reading of line 130: one survivor from chain row 1, one component, all in
   * cluster 0, with the membership the counts give.
   */
  lemma ExampleReduce(labels: seq<seq<byte>>, offset: nat)
    requires |labels| == 2 && Rectangular(labels, 1) && offset <= 1
    ensures ValidClustering(OneCluster)
    ensures Reduce([[0.9], [0.5]], [[1.0], [2.0]], labels, 1, 1, 1, 1, 0.0, OneCluster, offset)
            == Success(Processed([0.5], [2.0], 1, Normalise(CountMatrix([Pair(0, 0)], [0], labels, offset, 1, 1)), [0], [1]))
  {
    OneClusterValid();
    ExampleSelection();
    var w, rt: seq<seq<real>> := [[0.9], [0.5]], [[1.0], [2.0]];
    var wt, rtt := Skip(w, 1), Skip(rt, 1);
    assert rtt == [[2.0]];
    var ps := Survivors(wt, 0.0);
    var weights, rates := Gather(wt, 1, ps), Gather(rtt, 1, ps);
    assert weights == [0.5] && rates == [2.0];
    assert Positive(weights) && Positive(rates);
    var km := OneCluster(Stack(weights, rates), 1);
    assert km == [0];
    var iteration := seq(|ps|, i requires 0 <= i < |ps| => CheckpointIndex(1, 1, ps[i].row));
    assert iteration == [1];
  }

  /**
   * The reduction can succeed: a two-row chain with one burn-in row, one
   * surviving component and the clustering above yields one survivor from
   * chain row 1 and a full membership for the one observation.
   */
  lemma ReduceCanSucceed()
    ensures ValidClustering(OneCluster)
    ensures Reduce([[0.9], [0.5]], [[1.0], [2.0]], [[0], [0]], 1, 1, 1, 1, 0.0, OneCluster, 1)
            == Success(Processed([0.5], [2.0], 1, [Fractions([1.0])], [0], [1]))
  {
    ExampleReduce([[0], [0]], 1);
    ExampleMembership();
  }

  /** The membership of the chain below under both readings of line 130. */
  lemma BurnInMembership()
    ensures Addressable([Pair(0, 0)], [0], [[1], [0]], 0, 1, 1)
    ensures Normalise(CountMatrix([Pair(0, 0)], [0], [[1], [0]], 0, 1, 1)) == [Undefined]
    ensures Normalise(CountMatrix([Pair(0, 0)], [0], [[1], [0]], 1, 1, 1)) == [Fractions([1.0])]
  {
    var ps, labels: seq<seq<byte>> := [Pair(0, 0)], [[1], [0]];
    AsWrittenReadsBurnIn();
    var c0, c1 := CountMatrix(ps, [0], labels, 0, 1, 1), CountMatrix(ps, [0], labels, 1, 1, 1);
    assert |c0| == 1 && |c1| == 1;
    assert Normalise(c0)[0] == NormaliseRow(c0[0]) == Undefined;
    assert Normalise(c1)[0] == NormaliseRow(c1[0]) == Fractions([1.0]);
  }

  /**
   * Line 130 on the whole reduction: the observation is labelled 1 in the
   * burn-in row and 0 in the surviving row. As written (offset 0) its
   * membership row is 0/0; aligned (offset `burnin // g == 1`) it is `[1.0]`.
   */
  lemma ReduceReadsBurnIn()
    ensures ValidClustering(OneCluster)
    ensures Reduce([[0.9], [0.5]], [[1.0], [2.0]], [[1], [0]], 1, 1, 1, 1, 0.0, OneCluster, 0)
            == Success(Processed([0.5], [2.0], 1, [Undefined], [0], [1]))
    ensures Reduce([[0.9], [0.5]], [[1.0], [2.0]], [[1], [0]], 1, 1, 1, 1, 0.0, OneCluster, 1)
            == Success(Processed([0.5], [2.0], 1, [Fractions([1.0])], [0], [1]))
  {
    ExampleReduce([[1], [0]], 0);
    ExampleReduce([[1], [0]], 1);
    BurnInMembership();
  }
}
