/**
 * The checkpoint schedule of `Gibbs.run`: the chain arrays get
 * `(niter + 1) // g` rows (lines 54-58) and iteration `j` of `1..niter`
 * (line 72) is stored in row `j // g - 1` when `j % g == 0` (lines 95-98).
 */
module Schedule {
  import opened Types
  import opened Arith

  /** Rows allocated for each chain array. */
  function NumRows(niter: nat, g: nat): nat
    requires g > 0
  {
    (niter + 1) / g
  }

  /** The row iteration `j` writes, if any. */
  function CheckpointRow(j: nat, g: nat): Option<nat>
    requires g > 0 && j >= 1
  {
    if j % g == 0 then Some(j / g - 1) else None
  }

  /** Row `r` has been written once the iterations up to `j` have run. */
  predicate RecordedBy(r: nat, j: nat, g: nat)
  {
    (r + 1) * g <= j
  }

  /** Iteration `j` writes row `r` exactly when `j` is the `(r + 1)`-th multiple of `g`. */
  lemma CheckpointRowIff(j: nat, r: nat, g: nat)
    requires g > 0 && j >= 1
    ensures CheckpointRow(j, g) == Some(r) <==> j == (r + 1) * g
  {
    DivMod(j, g);
    if j == (r + 1) * g {
      MultipleDiv(r + 1, g);
    }
  }

  /** Every written row lies inside the allocated array, for any `niter` and `g`. */
  lemma CheckpointRowInBounds(j: nat, niter: nat, g: nat)
    requires g > 0 && 1 <= j <= niter
    ensures CheckpointRow(j, g).Some? ==> CheckpointRow(j, g).value < NumRows(niter, g)
  {
    if j % g == 0 {
      DivMod(j, g);
      DivMod(niter + 1, g);
      var q, q' := j / g, (niter + 1) / g;
      if q > q' {
        MulMono(q' + 1, q, g);
        assert false;
      }
    }
  }

  /** Distinct checkpoint iterations write distinct rows. */
  lemma CheckpointsDistinct(j1: nat, j2: nat, g: nat)
    requires g > 0 && j1 >= 1 && j2 >= 1 && j1 != j2
    requires CheckpointRow(j1, g).Some? && CheckpointRow(j2, g).Some?
    ensures CheckpointRow(j1, g) != CheckpointRow(j2, g)
  {
    var r := CheckpointRow(j1, g).value;
    CheckpointRowIff(j1, r, g);
    CheckpointRowIff(j2, r, g);
  }

  /** Running iteration `j` adds exactly the row it checkpoints to the recorded ones. */
  lemma RecordedStep(r: nat, j: nat, g: nat)
    requires g > 0 && j >= 1
    ensures RecordedBy(r, j, g) <==> RecordedBy(r, j - 1, g) || CheckpointRow(j, g) == Some(r)
  {
    CheckpointRowIff(j, r, g);
  }

  /** After all `niter` iterations, exactly the rows below `niter // g` are recorded. */
  lemma RecordedAtEnd(r: nat, niter: nat, g: nat)
    requires g > 0
    ensures RecordedBy(r, niter, g) <==> r < niter / g
  {
    DivMod(niter, g);
    var q := niter / g;
    if r < q {
      MulMono(r + 1, q, g);
    } else {
      MulMono(q + 1, r + 1, g);
    }
  }

  /** The set of rows that iterations `1..niter` write, accumulated as the loop runs. */
  function WrittenRows(niter: nat, g: nat): set<nat>
    requires g > 0
  {
    if niter == 0 then {}
    else WrittenRows(niter - 1, g) + (if niter % g == 0 then {niter / g - 1} else {})
  }

  /** The rows `0 .. q - 1`. */
  function Below(q: nat): set<nat>
  {
    if q == 0 then {} else Below(q - 1) + {q - 1}
  }

  lemma {:induction false} BelowSpec(q: nat)
    ensures forall r: nat :: r in Below(q) <==> r < q
    ensures |Below(q)| == q
  {
    if q > 0 {
      BelowSpec(q - 1);
      assert q - 1 !in Below(q - 1);
    }
  }

  lemma {:induction false} WrittenRowsBelow(niter: nat, g: nat)
    requires g > 0
    ensures WrittenRows(niter, g) == Below(niter / g)
  {
    if niter > 0 {
      WrittenRowsBelow(niter - 1, g);
      PredecessorDiv(niter, g);
    }
  }

  /** Exactly the rows `0 .. niter // g - 1` are written, so `niter // g` rows in all. */
  lemma WrittenRowsExactly(niter: nat, g: nat)
    requires g > 0
    ensures forall r: nat :: r in WrittenRows(niter, g) <==> r < niter / g
    ensures |WrittenRows(niter, g)| == niter / g
  {
    WrittenRowsBelow(niter, g);
    BelowSpec(niter / g);
  }

  lemma PredecessorDiv(n: nat, g: nat)
    requires g > 0 && n >= 1
    ensures n % g == 0 ==> n / g >= 1 && (n - 1) / g == n / g - 1
    ensures n % g != 0 ==> (n - 1) / g == n / g
  {
    DivMod(n, g);
    var q, m := n / g, n % g;
    if m == 0 {
      DivUnique(n - 1, g, q - 1, g - 1);
    } else {
      DivUnique(n - 1, g, q, m - 1);
    }
  }

  /**
   * At most one allocated row is never written: the last one, and exactly when
   * `g` divides `niter + 1`; it then stays zero.
   */
  lemma UnwrittenRows(niter: nat, g: nat)
    requires g > 0
    ensures niter / g <= NumRows(niter, g)
    ensures NumRows(niter, g) - niter / g == if (niter + 1) % g == 0 then 1 else 0
  {
    DivMod(niter, g);
    var q, m := niter / g, niter % g;
    if m + 1 < g {
      DivUnique(niter + 1, g, q, m + 1);
    } else {
      DivUnique(niter + 1, g, q + 1, 0);
    }
  }
}
