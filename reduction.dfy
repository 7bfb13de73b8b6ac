/**
 * The selection half of `Gibbs._process_gibbs` (lines 110-118): skip the
 * burn-in rows, list the (row, component) entries whose weight exceeds the
 * cutoff as `np.where` does, count them per row and take the mode of the counts.
 */
module Reduction {
  import opened Sums
  import opened Posterior
  import opened Arith

  /** One entry of `inds`: a row of `mcweights[burnin_ind:]` and a component. */
  datatype Pair = Pair(row: nat, col: nat)

  /** Row-major order, the order in which `np.where` lists entries. */
  predicate Before(p: Pair, q: Pair)
  {
    p.row < q.row || (p.row == q.row && p.col < q.col)
  }

  predicate Rectangular<T>(m: seq<seq<T>>, cols: nat)
  {
    forall r :: 0 <= r < |m| ==> |m[r]| == cols
  }

  /** `m[b:]`: NumPy slicing past the end gives no rows. */
  function Skip<T>(m: seq<T>, b: nat): (r: seq<T>)
    ensures |r| == if b <= |m| then |m| - b else 0
    ensures forall i :: 0 <= i < |r| ==> r[i] == m[b + i]
  {
    if b <= |m| then m[b..] else []
  }

  /** The entries of one row above the cutoff, by increasing component. */
  function RowSurvivors(r: nat, row: seq<real>, cutoff: real): seq<Pair>
  {
    if row == [] then []
    else RowSurvivors(r, row[..|row| - 1], cutoff) + (if row[|row| - 1] > cutoff then [Pair(r, |row| - 1)] else [])
  }

  /** Line 112, `np.where(w > cutoff)`, as a list of pairs (`inds[0][i]`, `inds[1][i]`). */
  function Survivors(w: seq<seq<real>>, cutoff: real): seq<Pair>
  {
    if w == [] then []
    else Survivors(w[..|w| - 1], cutoff) + RowSurvivors(|w| - 1, w[|w| - 1], cutoff)
  }

  /** `len(row[row > cutoff])`. */
  function CountAbove(row: seq<real>, cutoff: real): nat
  {
    if row == [] then 0
    else CountAbove(row[..|row| - 1], cutoff) + (if row[|row| - 1] > cutoff then 1 else 0)
  }

  /** Line 114, `lens`. */
  function Lens(w: seq<seq<real>>, cutoff: real): seq<nat>
  {
    seq(|w|, r requires 0 <= r < |w| => CountAbove(w[r], cutoff))
  }

  /** How many listed pairs lie in row `r`. */
  function InRow(ps: seq<Pair>, r: nat): nat
  {
    if ps == [] then 0
    else InRow(ps[..|ps| - 1], r) + (if ps[|ps| - 1].row == r then 1 else 0)
  }

  lemma {:induction false} RowSurvivorsSpec(r: nat, row: seq<real>, cutoff: real)
    ensures var s := RowSurvivors(r, row, cutoff);
            && |s| == CountAbove(row, cutoff)
            && (forall p :: p in s <==> p.row == r && p.col < |row| && row[p.col] > cutoff)
            && (forall i, j :: 0 <= i < j < |s| ==> s[i].col < s[j].col)
            && (forall i :: 0 <= i < |s| ==> s[i].row == r && s[i].col < |row|)
  {
    if row != [] {
      var n := |row| - 1;
      var row' := row[..n];
      RowSurvivorsSpec(r, row', cutoff);
      var a := RowSurvivors(r, row', cutoff);
      var b: seq<Pair> := if row[n] > cutoff then [Pair(r, n)] else [];
      var s := a + b;
      assert s == RowSurvivors(r, row, cutoff);
      forall p ensures p in s <==> p.row == r && p.col < |row| && row[p.col] > cutoff {
        if p.col < n {
          assert row[p.col] == row'[p.col];
        }
      }
      forall i, j | 0 <= i < j < |s| ensures s[i].col < s[j].col {
        if j >= |a| {
          assert s[j] == Pair(r, n);
          assert s[i].col < |row'|;
        }
      }
    }
  }

  /**
   * The surviving pairs are exactly the entries above the cutoff, listed
   * in strictly increasing row-major order, so there are `sum(lens)` of them
   * and `lens[r]` of them lie in row `r`.
   */
  lemma {:induction false} SurvivorsSpec(w: seq<seq<real>>, cutoff: real)
    ensures var s := Survivors(w, cutoff);
            && (forall p :: p in s <==> p.row < |w| && p.col < |w[p.row]| && w[p.row][p.col] > cutoff)
            && (forall i, j :: 0 <= i < j < |s| ==> Before(s[i], s[j]))
            && |s| == SumNat(Lens(w, cutoff))
            && (forall r :: 0 <= r < |w| ==> InRow(s, r) == Lens(w, cutoff)[r])
  {
    SurvivorsMembers(w, cutoff);
    SurvivorsOrder(w, cutoff);
    SurvivorsPerRow(w, cutoff);
    var lens := Lens(w, cutoff);
    SurvivorsTotal(w, cutoff);
  }

  lemma {:induction false} SurvivorsMembers(w: seq<seq<real>>, cutoff: real)
    ensures forall p :: p in Survivors(w, cutoff) <==> p.row < |w| && p.col < |w[p.row]| && w[p.row][p.col] > cutoff
    ensures forall i :: 0 <= i < |Survivors(w, cutoff)| ==> Survivors(w, cutoff)[i].row < |w|
  {
    if w != [] {
      var n := |w| - 1;
      var w' := w[..n];
      SurvivorsMembers(w', cutoff);
      RowSurvivorsSpec(n, w[n], cutoff);
      var a, b := Survivors(w', cutoff), RowSurvivors(n, w[n], cutoff);
      assert Survivors(w, cutoff) == a + b;
      forall p ensures p in a <==> p.row < n && p.col < |w[p.row]| && w[p.row][p.col] > cutoff {
        if p.row < n { assert w'[p.row] == w[p.row]; }
      }
      forall i | 0 <= i < |a + b| ensures (a + b)[i].row < |w| {
        if i < |a| { assert a[i] in a; } else { assert (a + b)[i] == b[i - |a|]; }
      }
    }
  }

  lemma {:induction false} SurvivorsOrder(w: seq<seq<real>>, cutoff: real)
    ensures forall i, j :: 0 <= i < j < |Survivors(w, cutoff)| ==> Before(Survivors(w, cutoff)[i], Survivors(w, cutoff)[j])
  {
    if w != [] {
      var n := |w| - 1;
      var w' := w[..n];
      SurvivorsOrder(w', cutoff);
      SurvivorsMembers(w', cutoff);
      RowSurvivorsSpec(n, w[n], cutoff);
      var a, b := Survivors(w', cutoff), RowSurvivors(n, w[n], cutoff);
      var s := a + b;
      assert Survivors(w, cutoff) == s;
      forall i, j | 0 <= i < j < |s| ensures Before(s[i], s[j]) {
        if i >= |a| {
          assert s[i] == b[i - |a|] && s[j] == b[j - |a|];
        } else if j >= |a| {
          assert s[i] == a[i] && s[j] == b[j - |a|];
        }
      }
    }
  }

  lemma {:induction false} SurvivorsPerRow(w: seq<seq<real>>, cutoff: real)
    ensures forall r :: 0 <= r < |w| ==> InRow(Survivors(w, cutoff), r) == Lens(w, cutoff)[r]
  {
    if w != [] {
      var n := |w| - 1;
      var w' := w[..n];
      SurvivorsPerRow(w', cutoff);
      SurvivorsMembers(w', cutoff);
      RowSurvivorsSpec(n, w[n], cutoff);
      var a, b := Survivors(w', cutoff), RowSurvivors(n, w[n], cutoff);
      assert Survivors(w, cutoff) == a + b;
      forall r | 0 <= r < |w| ensures InRow(a + b, r) == Lens(w, cutoff)[r] {
        InRowAppend(a, b, r);
        if r < n {
          InRowAbsent(b, r);
          assert Lens(w, cutoff)[r] == Lens(w', cutoff)[r];
        } else {
          InRowAbsentAll(a, r);
          InRowAll(b, r);
        }
      }
    }
  }

  lemma {:induction false} SurvivorsTotal(w: seq<seq<real>>, cutoff: real)
    ensures |Survivors(w, cutoff)| == SumNat(Lens(w, cutoff))
  {
    if w != [] {
      var n := |w| - 1;
      SurvivorsTotal(w[..n], cutoff);
      RowSurvivorsSpec(n, w[n], cutoff);
      assert Lens(w, cutoff)[..n] == Lens(w[..n], cutoff);
    }
  }

  lemma {:induction false} InRowAppend(a: seq<Pair>, b: seq<Pair>, r: nat)
    ensures InRow(a + b, r) == InRow(a, r) + InRow(b, r)
  {
    if b != [] {
      assert (a + b)[..|a + b| - 1] == a + b[..|b| - 1];
      InRowAppend(a, b[..|b| - 1], r);
    } else {
      assert a + b == a;
    }
  }

  lemma {:induction false} InRowAbsent(b: seq<Pair>, r: nat)
    requires forall i :: 0 <= i < |b| ==> b[i].row != r
    ensures InRow(b, r) == 0
  {
    if b != [] {
      InRowAbsent(b[..|b| - 1], r);
    }
  }

  lemma {:induction false} InRowAbsentAll(a: seq<Pair>, r: nat)
    requires forall p :: p in a ==> p.row < r
    ensures InRow(a, r) == 0
  {
    if a != [] {
      assert a[|a| - 1] in a;
      InRowAbsentAll(a[..|a| - 1], r);
    }
  }

  lemma {:induction false} InRowAll(b: seq<Pair>, r: nat)
    requires forall i :: 0 <= i < |b| ==> b[i].row == r
    ensures InRow(b, r) == |b|
  {
    if b != [] {
      InRowAll(b[..|b| - 1], r);
    }
  }

  /** The best of the candidates: the most frequent in `xs`, the smallest among equally frequent. */
  function ModeAmong(xs: seq<nat>, cands: seq<nat>): (m: nat)
    requires cands != []
    ensures m in cands
    ensures forall c :: c in cands ==> Occurrences(xs, c) <= Occurrences(xs, m)
    ensures forall c :: c in cands && Occurrences(xs, c) == Occurrences(xs, m) ==> m <= c
  {
    if |cands| == 1 then cands[0]
    else
      var rest := ModeAmong(xs, cands[1..]);
      var c := cands[0];
      assert forall x :: x in cands ==> x == c || x in cands[1..];
      if Occurrences(xs, c) > Occurrences(xs, rest) || (Occurrences(xs, c) == Occurrences(xs, rest) && c < rest)
      then c else rest
  }

  /** Line 115, `stats.mode(lens)`: a most frequent value, the smallest one among ties. */
  function Mode(xs: seq<nat>): (m: nat)
    requires xs != []
    ensures m in xs
    ensures forall c :: c in xs ==> Occurrences(xs, c) <= Occurrences(xs, m)
    ensures forall c :: c in xs && Occurrences(xs, c) == Occurrences(xs, m) ==> m <= c
  {
    ModeAmong(xs, xs)
  }

  /**
   * The reduced component count never exceeds the number of surviving pairs,
   * so the clustering of line 121 always has at least `ncomp` samples.
   */
  lemma ModeAtMostSurvivors(w: seq<seq<real>>, cutoff: real)
    requires w != []
    ensures Mode(Lens(w, cutoff)) <= |Survivors(w, cutoff)|
  {
    var lens := Lens(w, cutoff);
    SurvivorsSpec(w, cutoff);
    var i :| 0 <= i < |lens| && lens[i] == Mode(lens);
    ElementAtMostSum(lens, i);
  }

  /** Line 113: `np.arange(burnin, niter + 1, g)[r] // g`. */
  function CheckpointIndex(burnin: nat, g: nat, r: nat): nat
    requires g > 0
  {
    (burnin + r * g) / g
  }

  /** The number of values `np.arange(start, stop, step)` holds. */
  function ArangeLength(start: nat, stop: nat, step: nat): nat
    requires step > 0
  {
    if start >= stop then 0 else (stop - start + step - 1) / step
  }

  /** The `r`-th row after the burn-in is chain row `burnin // g + r`. */
  lemma CheckpointIndexEq(burnin: nat, g: nat, r: nat)
    requires g > 0
    ensures CheckpointIndex(burnin, g, r) == burnin / g + r
  {
    var b, br := burnin / g, burnin % g;
    assert burnin + r * g == (b + r) * g + br;
    DivUnique(burnin + r * g, g, b + r, br);
  }

  /**
   * `iteration` holds absolute chain rows: the `r`-th row after the burn-in is
   * row `burnin // g + r`, and it always has an `arange` entry to index, so
   * line 113 never reads past the end.
   */
  lemma CheckpointIndexSpec(burnin: nat, niter: nat, g: nat, r: nat)
    requires g > 0
    requires r < |Skip(seq((niter + 1) / g, i => i), burnin / g)|
    ensures CheckpointIndex(burnin, g, r) == burnin / g + r
    ensures r < ArangeLength(burnin, niter + 1, g)
  {
    CheckpointIndexEq(burnin, g, r);
    DivMod(burnin, g);
    DivMod(niter + 1, g);
    var b, n := burnin / g, (niter + 1) / g;
    assert b + (r + 1) <= n;
    MulMono(b + (r + 1), n, g);
    Distribute(b, r + 1, g);
    var len := niter + 1 - burnin + g - 1;
    assert len >= (r + 1) * g;
    DivAtLeast(len, g, r + 1);
  }
}
