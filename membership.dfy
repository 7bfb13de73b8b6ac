/**
 * The membership matrix of `Gibbs._process_gibbs` (lines 122-133): for every
 * surviving pair, each observation whose stored label in that checkpoint
 * equals the pair's component gains one count in the pair's cluster; the
 * counts are then divided by their row sums.
 *
 * `offset` is the row of the label chain that relative row 0 of the pairs
 * reads: the source reads `indicator[j]` with `j` relative to the burn-in
 * (offset 0), while the weights it came from sit at row `burnin // g + j`.
 */
module Membership {
  import opened Types
  import opened Sums
  import opened Reduction

  /** Every pair has a cluster label below `k` and a label row to read, and every label row has `n` entries. */
  predicate Addressable(ps: seq<Pair>, km: seq<nat>, labels: seq<seq<byte>>, offset: nat, n: nat, k: nat)
  {
    && |km| == |ps|
    && (forall i :: 0 <= i < |km| ==> km[i] < k)
    && (forall i :: 0 <= i < |ps| ==> ps[i].row + offset < |labels|)
    && Rectangular(labels, n)
  }

  /** Line 130: observation `t` carries pair `i`'s component in the label row read for it. */
  predicate Matches(ps: seq<Pair>, labels: seq<seq<byte>>, offset: nat, n: nat, i: nat, t: nat)
    requires i < |ps| && ps[i].row + offset < |labels| && Rectangular(labels, n) && t < n
  {
    labels[ps[i].row + offset][t] as int == ps[i].col
  }

  /** `Indicator[t, c]` after the first `i` pairs have been processed. */
  function Tally(ps: seq<Pair>, km: seq<nat>, labels: seq<seq<byte>>, offset: nat, n: nat, k: nat,
                 i: nat, t: nat, c: nat): nat
    requires Addressable(ps, km, labels, offset, n, k) && i <= |ps| && t < n
  {
    if i == 0 then 0
    else Tally(ps, km, labels, offset, n, k, i - 1, t, c)
         + (if Matches(ps, labels, offset, n, i - 1, t) && km[i - 1] == c then 1 else 0)
  }

  /** How many of the first `i` pairs observation `t` matches, whatever their cluster. */
  function MatchCount(ps: seq<Pair>, labels: seq<seq<byte>>, offset: nat, n: nat, i: nat, t: nat): nat
    requires i <= |ps| && t < n && Rectangular(labels, n)
    requires forall i :: 0 <= i < |ps| ==> ps[i].row + offset < |labels|
  {
    if i == 0 then 0
    else MatchCount(ps, labels, offset, n, i - 1, t) + (if Matches(ps, labels, offset, n, i - 1, t) then 1 else 0)
  }

  /** The count matrix, `N` rows of `k` cluster counts. */
  function CountMatrix(ps: seq<Pair>, km: seq<nat>, labels: seq<seq<byte>>, offset: nat, n: nat, k: nat): seq<seq<nat>>
    requires Addressable(ps, km, labels, offset, n, k)
  {
    seq(n, t requires 0 <= t < n => seq(k, c requires 0 <= c < k => Tally(ps, km, labels, offset, n, k, |ps|, t, c)))
  }

  /**
   * Lines 122-131: the nested loops over the distinct rows of `inds[0]`, the
   * pairs of each row and the observations carrying the pair's component.
   */
  method Accumulate(ps: seq<Pair>, km: seq<nat>, labels: seq<seq<byte>>, offset: nat, n: nat, k: nat)
    returns (m: array2<nat>)
    requires Addressable(ps, km, labels, offset, n, k)
    ensures fresh(m) && m.Length0 == n && m.Length1 == k
    ensures forall t, c :: 0 <= t < n && 0 <= c < k ==> m[t, c] == Tally(ps, km, labels, offset, n, k, |ps|, t, c)
  {
    m := new nat[n, k]((t, c) => 0);
    var i := 0;
    while i < |ps|
      invariant 0 <= i <= |ps|
      invariant forall t, c :: 0 <= t < n && 0 <= c < k ==> m[t, c] == Tally(ps, km, labels, offset, n, k, i, t, c)
      decreases |ps| - i
    {
      var j := ps[i].row;
      var i0 := i;
      while i < |ps| && ps[i].row == j
        invariant i0 <= i <= |ps|
        invariant forall t, c :: 0 <= t < n && 0 <= c < k ==> m[t, c] == Tally(ps, km, labels, offset, n, k, i, t, c)
      {
        var indx, cluster := ps[i].col, km[i];
        var t := 0;
        while t < n
          invariant 0 <= t <= n
          invariant forall t', c :: 0 <= t' < n && 0 <= c < k ==>
            m[t', c] == Tally(ps, km, labels, offset, n, k, i, t', c)
                        + (if t' < t && c == cluster && Matches(ps, labels, offset, n, i, t') then 1 else 0)
        {
          if labels[j + offset][t] as int == indx {
            m[t, cluster] := m[t, cluster] + 1;
          }
          t := t + 1;
        }
        i := i + 1;
      }
    }
  }

  /** A row of line 133's result; `0 / 0` gives NumPy's NaN row, kept here as `Undefined`. */
  datatype MembershipRow = Fractions(f: seq<real>) | Undefined

  function NormaliseRow(row: seq<nat>): MembershipRow
  {
    var s := SumNat(row);
    if s == 0 then Undefined else Fractions(seq(|row|, c requires 0 <= c < |row| => row[c] as real / s as real))
  }

  /** Line 133, `(Indicator.T / Indicator.sum(axis=1)).T`. */
  function Normalise(m: seq<seq<nat>>): seq<MembershipRow>
  {
    seq(|m|, t requires 0 <= t < |m| => NormaliseRow(m[t]))
  }

  lemma {:induction false} SumAsReal(row: seq<nat>)
    ensures Sum(seq(|row|, c requires 0 <= c < |row| => row[c] as real)) == SumNat(row) as real
  {
    if row != [] {
      var n := |row| - 1;
      assert seq(|row|, c requires 0 <= c < |row| => row[c] as real)[..n]
          == seq(|row[..n]|, c requires 0 <= c < |row[..n]| => row[..n][c] as real);
      SumAsReal(row[..n]);
    }
  }

  /** `f` shares one out among the components, each in proportion to its count in `row`. */
  predicate Shares(f: seq<real>, row: seq<nat>)
  {
    && SumNat(row) > 0
    && |f| == |row|
    && Sum(f) == 1.0
    && (forall c :: 0 <= c < |row| ==> 0.0 <= f[c] <= 1.0)
    && (forall c :: 0 <= c < |row| ==> f[c] == row[c] as real / SumNat(row) as real)
  }

  /**
   * A row is undefined exactly when its counts are all zero; otherwise it holds
   * fractions in `[0, 1]`, proportional to the counts, that sum to one.
   */
  lemma NormaliseRowSpec(row: seq<nat>)
    ensures NormaliseRow(row).Undefined? <==> SumNat(row) == 0
    ensures NormaliseRow(row).Fractions? ==> Shares(NormaliseRow(row).f, row)
  {
    if SumNat(row) != 0 {
      var f := NormaliseRow(row).f;
      FractionsSumToOne(row);
      forall c | 0 <= c < |row| ensures 0.0 <= f[c] <= 1.0 {
        FractionBounded(row, c);
      }
    }
  }

  lemma FractionsSumToOne(row: seq<nat>)
    requires SumNat(row) != 0
    ensures Sum(NormaliseRow(row).f) == 1.0
  {
    var s := SumNat(row) as real;
    var xs := seq(|row|, c requires 0 <= c < |row| => row[c] as real);
    SumAsReal(row);
    SumDivide(xs, s);
    var f, q := NormaliseRow(row).f, seq(|xs|, i requires 0 <= i < |xs| => xs[i] / s);
    assert Sum(q) == Sum(xs) / s == 1.0;
    assert |f| == |q|;
    forall c | 0 <= c < |f| ensures f[c] == q[c] {
      FractionAt(row, c);
    }
    assert f == q;
  }

  lemma FractionAt(row: seq<nat>, c: nat)
    requires SumNat(row) != 0 && c < |row|
    ensures NormaliseRow(row).Fractions? && |NormaliseRow(row).f| == |row|
    ensures NormaliseRow(row).f[c] == row[c] as real / SumNat(row) as real
  {
  }

  lemma FractionBounded(row: seq<nat>, c: nat)
    requires SumNat(row) != 0 && c < |row|
    ensures 0.0 <= NormaliseRow(row).f[c] <= 1.0
  {
    ElementAtMostSum(row, c);
    FractionAt(row, c);
    QuotientBounds(row[c] as real, SumNat(row) as real);
  }

  lemma QuotientBounds(x: real, s: real)
    requires 0.0 <= x <= s && s > 0.0
    ensures 0.0 <= x / s <= 1.0
  {
  }

  /** The counts of one observation add up, over the clusters, to the pairs it matches. */
  lemma {:induction false} RowTotal(ps: seq<Pair>, km: seq<nat>, labels: seq<seq<byte>>, offset: nat,
                                    n: nat, k: nat, i: nat, t: nat)
    requires Addressable(ps, km, labels, offset, n, k) && i <= |ps| && t < n
    ensures SumNat(seq(k, c requires 0 <= c < k => Tally(ps, km, labels, offset, n, k, i, t, c)))
            == MatchCount(ps, labels, offset, n, i, t)
  {
    if i == 0 {
      ZeroRow(ps, km, labels, offset, n, k, t, k);
    } else {
      RowTotal(ps, km, labels, offset, n, k, i - 1, t);
      RowStep(ps, km, labels, offset, n, k, i, t, k);
    }
  }

  lemma {:induction false} ZeroRow(ps: seq<Pair>, km: seq<nat>, labels: seq<seq<byte>>, offset: nat,
                                   n: nat, k: nat, t: nat, upTo: nat)
    requires Addressable(ps, km, labels, offset, n, k) && t < n && upTo <= k
    ensures SumNat(seq(upTo, c requires 0 <= c < upTo => Tally(ps, km, labels, offset, n, k, 0, t, c))) == 0
  {
    if upTo > 0 {
      assert seq(upTo, c requires 0 <= c < upTo => Tally(ps, km, labels, offset, n, k, 0, t, c))[..upTo - 1]
          == seq(upTo - 1, c requires 0 <= c < upTo - 1 => Tally(ps, km, labels, offset, n, k, 0, t, c));
      ZeroRow(ps, km, labels, offset, n, k, t, upTo - 1);
    }
  }

  lemma {:induction false} RowStep(ps: seq<Pair>, km: seq<nat>, labels: seq<seq<byte>>, offset: nat,
                                   n: nat, k: nat, i: nat, t: nat, upTo: nat)
    requires Addressable(ps, km, labels, offset, n, k) && 1 <= i <= |ps| && t < n && upTo <= k
    ensures SumNat(seq(upTo, c requires 0 <= c < upTo => Tally(ps, km, labels, offset, n, k, i, t, c)))
            == SumNat(seq(upTo, c requires 0 <= c < upTo => Tally(ps, km, labels, offset, n, k, i - 1, t, c)))
               + (if Matches(ps, labels, offset, n, i - 1, t) && km[i - 1] < upTo then 1 else 0)
  {
    if upTo > 0 {
      assert seq(upTo, c requires 0 <= c < upTo => Tally(ps, km, labels, offset, n, k, i, t, c))[..upTo - 1]
          == seq(upTo - 1, c requires 0 <= c < upTo - 1 => Tally(ps, km, labels, offset, n, k, i, t, c));
      assert seq(upTo, c requires 0 <= c < upTo => Tally(ps, km, labels, offset, n, k, i - 1, t, c))[..upTo - 1]
          == seq(upTo - 1, c requires 0 <= c < upTo - 1 => Tally(ps, km, labels, offset, n, k, i - 1, t, c));
      RowStep(ps, km, labels, offset, n, k, i, t, upTo - 1);
    }
  }

  /** The number of distinct rows the first `i` pairs come from, counted where the row changes. */
  function Groups(ps: seq<Pair>, i: nat): nat
    requires i <= |ps|
  {
    if i == 0 then 0
    else Groups(ps, i - 1) + (if i == 1 || ps[i - 1].row != ps[i - 2].row then 1 else 0)
  }

  predicate RowMajor(ps: seq<Pair>)
  {
    forall i, j :: 0 <= i < j < |ps| ==> Before(ps[i], ps[j])
  }

  /** The rows the first `i` pairs come from: `np.unique(inds[0])` as a set. */
  function RowsOf(ps: seq<Pair>, i: nat): set<nat>
    requires i <= |ps|
  {
    set i' | 0 <= i' < i :: ps[i'].row
  }

  /** On row-major pairs, counting row changes counts the distinct rows the outer loop visits. */
  lemma {:induction false} GroupsAreDistinctRows(ps: seq<Pair>, i: nat)
    requires RowMajor(ps) && i <= |ps|
    ensures Groups(ps, i) == |RowsOf(ps, i)|
  {
    if i == 0 {
      assert RowsOf(ps, 0) == {};
    } else {
      GroupsAreDistinctRows(ps, i - 1);
      var r := ps[i - 1].row;
      var prev := RowsOf(ps, i - 1);
      RowsOfSnoc(ps, i);
      if i == 1 {
        assert prev == {};
      } else if r != ps[i - 2].row {
        NewRow(ps, i);
        assert r !in prev;
        assert |prev + {r}| == |prev| + 1;
      } else {
        assert r in prev;
        assert prev + {r} == prev;
      }
    }
  }

  lemma RowsOfSnoc(ps: seq<Pair>, i: nat)
    requires 1 <= i <= |ps|
    ensures RowsOf(ps, i) == RowsOf(ps, i - 1) + {ps[i - 1].row}
  {
  }

  /** On row-major pairs, a row change at pair `i - 1` starts a row above all earlier ones. */
  lemma NewRow(ps: seq<Pair>, i: nat)
    requires RowMajor(ps) && 2 <= i <= |ps| && ps[i - 1].row != ps[i - 2].row
    ensures forall i' :: 0 <= i' < i - 1 ==> ps[i'].row < ps[i - 1].row
  {
    assert Before(ps[i - 2], ps[i - 1]);
    forall i' | 0 <= i' < i - 2 ensures ps[i'].row <= ps[i - 2].row {
      assert Before(ps[i'], ps[i - 2]);
    }
  }

  /** Observation `t` matches some pair in the group that pair `i - 1` closes. */
  ghost predicate GroupMatched(ps: seq<Pair>, labels: seq<seq<byte>>, offset: nat, n: nat, i: nat, t: nat)
    requires 1 <= i <= |ps| && t < n && Rectangular(labels, n)
    requires forall i :: 0 <= i < |ps| ==> ps[i].row + offset < |labels|
  {
    exists i' :: 0 <= i' < i && ps[i'].row == ps[i - 1].row && Matches(ps, labels, offset, n, i', t)
  }

  /**
   * Each observation gains at most one count per distinct surviving row: a row's
   * pairs have distinct components and the observation has one label there.
   */
  lemma {:induction false} MatchesAtMostGroups(ps: seq<Pair>, labels: seq<seq<byte>>, offset: nat, n: nat, i: nat, t: nat)
    requires RowMajor(ps) && i <= |ps| && t < n && Rectangular(labels, n)
    requires forall i :: 0 <= i < |ps| ==> ps[i].row + offset < |labels|
    ensures MatchCount(ps, labels, offset, n, i, t) <= Groups(ps, i)
    ensures i >= 1 && !GroupMatched(ps, labels, offset, n, i, t) ==> MatchCount(ps, labels, offset, n, i, t) < Groups(ps, i)
  {
    if i >= 1 {
      MatchesAtMostGroups(ps, labels, offset, n, i - 1, t);
      var last := i - 1;
      var hit := Matches(ps, labels, offset, n, last, t);
      if i == 1 || ps[last].row != ps[last - 1].row {
        if !hit {
          forall i' | 0 <= i' < i && ps[i'].row == ps[last].row
            ensures !Matches(ps, labels, offset, n, i', t)
          {
          }
        }
      } else {
        if hit {
          assert !GroupMatched(ps, labels, offset, n, i - 1, t);
        } else {
          if GroupMatched(ps, labels, offset, n, i, t) {
            var i' :| 0 <= i' < i && ps[i'].row == ps[last].row && Matches(ps, labels, offset, n, i', t);
            assert GroupMatched(ps, labels, offset, n, i - 1, t);
          }
        }
      }
    }
  }

  /**
   * Line 130 with the labels row aligned to the weights row (offset `burnin // g`):
   * the counts depend only on the labels stored after the burn-in.
   */
  lemma {:induction false} AlignedIgnoresBurnIn(ps: seq<Pair>, km: seq<nat>, l1: seq<seq<byte>>, l2: seq<seq<byte>>,
                                                offset: nat, n: nat, k: nat, i: nat, t: nat, c: nat)
    requires Addressable(ps, km, l1, offset, n, k) && Addressable(ps, km, l2, offset, n, k)
    requires |l1| == |l2| && forall r :: offset <= r < |l1| ==> l1[r] == l2[r]
    requires i <= |ps| && t < n
    ensures Tally(ps, km, l1, offset, n, k, i, t, c) == Tally(ps, km, l2, offset, n, k, i, t, c)
  {
    if i > 0 {
      AlignedIgnoresBurnIn(ps, km, l1, l2, offset, n, k, i - 1, t, c);
      assert l1[ps[i - 1].row + offset] == l2[ps[i - 1].row + offset];
    }
  }

  /**
   * Line 130 as written (offset 0) with a one-row burn-in: the only surviving
   * pair sits in the first row after the burn-in (chain row 1) with component 0,
   * and the observation is labelled 0 in that row; yet the count reads chain
   * row 0, a burn-in row where it is labelled 1, so the observation's
   * membership row comes out as 0/0 instead of `[1.0]`.
   */
  lemma AsWrittenReadsBurnIn()
    ensures var ps, km, labels := [Pair(0, 0)], [0], [[1 as byte], [0 as byte]];
            && Addressable(ps, km, labels, 0, 1, 1)
            && Tally(ps, km, labels, 0, 1, 1, 1, 0, 0) == 0
            && Tally(ps, km, labels, 1, 1, 1, 1, 0, 0) == 1
            && NormaliseRow(CountMatrix(ps, km, labels, 0, 1, 1)[0]) == Undefined
            && NormaliseRow(CountMatrix(ps, km, labels, 1, 1, 1)[0]) == Fractions([1.0])
  {
    var ps, km, labels := [Pair(0, 0)], [0], [[1 as byte], [0 as byte]];
    assert Tally(ps, km, labels, 0, 1, 1, 1, 0, 0) == 0;
    assert Tally(ps, km, labels, 1, 1, 1, 1, 0, 0) == 1;
    assert CountMatrix(ps, km, labels, 0, 1, 1)[0] == [0];
    assert CountMatrix(ps, km, labels, 1, 1, 1)[0] == [1];
    assert SumNat([1]) == 1;
  }

  /**
   * Row `t` of the normalised counts is undefined exactly when observation `t`
   * matched no pair, and otherwise holds `k` fractions summing to one; on
   * row-major pairs the matches never outnumber the distinct rows.
   */
  lemma MembershipOf(ps: seq<Pair>, km: seq<nat>, labels: seq<seq<byte>>, offset: nat, n: nat, k: nat, t: nat)
    requires Addressable(ps, km, labels, offset, n, k) && RowMajor(ps) && t < n
    ensures |Normalise(CountMatrix(ps, km, labels, offset, n, k))| == n
    ensures MatchCount(ps, labels, offset, n, |ps|, t) <= |RowsOf(ps, |ps|)|
    ensures Normalise(CountMatrix(ps, km, labels, offset, n, k))[t].Undefined?
            <==> MatchCount(ps, labels, offset, n, |ps|, t) == 0
    ensures var row := Normalise(CountMatrix(ps, km, labels, offset, n, k))[t];
            row.Fractions? ==> |row.f| == k && Sum(row.f) == 1.0
  {
    var counts := CountMatrix(ps, km, labels, offset, n, k);
    MatchesAtMostGroups(ps, labels, offset, n, |ps|, t);
    GroupsAreDistinctRows(ps, |ps|);
    RowTotal(ps, km, labels, offset, n, k, |ps|, t);
    assert counts[t] == seq(k, c requires 0 <= c < k => Tally(ps, km, labels, offset, n, k, |ps|, t, c));
    NormaliseRowSpec(counts[t]);
  }
}
