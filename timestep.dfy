/**
 * The time step `ts` that `Gibbs.__init__` derives from the durations:
 * sort them, take the differences of adjacent values, drop the zero
 * differences and keep the first one left.
 */
module TimeStep {
  import opened Types

  predicate Sorted(s: seq<real>)
  {
    forall i, j :: 0 <= i < j < |s| ==> s[i] <= s[j]
  }

  /** The smallest duration (the source reads it as the head of the sorted array). */
  function Min(s: seq<real>): (m: real)
    requires s != []
    ensures m in s
    ensures forall i :: 0 <= i < |s| ==> m <= s[i]
  {
    if |s| == 1 then s[0]
    else
      var m := Min(s[1..]);
      assert forall i :: 1 <= i < |s| ==> s[i] == s[1..][i - 1];
      if s[0] <= m then s[0] else m
  }

  function Insert(x: real, s: seq<real>): (r: seq<real>)
    requires Sorted(s)
    ensures Sorted(r)
    ensures multiset(r) == multiset(s) + multiset{x}
    ensures |r| == |s| + 1
    ensures r[0] == x || (s != [] && r[0] == s[0])
  {
    if s == [] || x <= s[0] then [x] + s
    else
      var t := Insert(x, s[1..]);
      assert s == [s[0]] + s[1..];
      assert Sorted(s[1..]);
      assert s[0] <= t[0];
      [s[0]] + t
  }

  /** `np.sort`: an ascending permutation of its input. */
  function Sort(s: seq<real>): (r: seq<real>)
    ensures Sorted(r)
    ensures multiset(r) == multiset(s)
  {
    if s == [] then []
    else
      assert s == [s[0]] + s[1..];
      Insert(s[0], Sort(s[1..]))
  }

  /** `np.sort(times)[1:] - np.sort(times)[:-1]` applied to an already sorted array. */
  function Gaps(s: seq<real>): seq<real>
  {
    if |s| < 2 then [] else seq(|s| - 1, i requires 0 <= i < |s| - 1 => s[i + 1] - s[i])
  }

  /** `diff[diff != 0]`: the non-zero entries, in order. */
  function NonZero(d: seq<real>): seq<real>
  {
    if d == [] then [] else (if d[0] != 0.0 then [d[0]] else []) + NonZero(d[1..])
  }

  /** Lines 35-36: the first non-zero adjacent gap of the sorted durations; indexing an empty selection raises. */
  function TimeStep(times: seq<real>): Result<real>
  {
    var d := NonZero(Gaps(Sort(times)));
    if d == [] then Failure(NoSecondDistinctValue) else Success(d[0])
  }

  /** Lines 34-38: `ts` is `None` when there are no durations at all. */
  function InitialTimeStep(times: seq<real>): Option<Result<real>>
  {
    if times == [] then None else Some(TimeStep(times))
  }

  predicate HasTwoDistinct(s: seq<real>)
  {
    exists i, j :: 0 <= i < |s| && 0 <= j < |s| && s[i] != s[j]
  }

  /** `d` leads from the head of `s` to the next distinct value, and nothing lies in between. */
  predicate NextStep(s: seq<real>, d: real)
    requires s != []
  {
    && d > 0.0
    && (exists i :: 0 <= i < |s| && s[i] == s[0] + d)
    && (forall i :: 0 <= i < |s| ==> s[i] == s[0] || s[i] >= s[0] + d)
  }

  /**
   * On a sorted sequence the first non-zero gap exists exactly when some value differs
   * from the head, and then it leads from the head to the next distinct value.
   */
  lemma {:induction false} FirstGapSorted(s: seq<real>)
    requires Sorted(s) && s != []
    ensures NonZero(Gaps(s)) != [] <==> exists i :: 0 <= i < |s| && s[i] != s[0]
    ensures NonZero(Gaps(s)) != [] ==> NextStep(s, NonZero(Gaps(s))[0])
  {
    if |s| >= 2 {
      var t := s[1..];
      GapsTail(s);
      if s[1] != s[0] {
        HeadGap(s);
      } else {
        FirstGapSorted(t);
        if NonZero(Gaps(t)) != [] {
          SkipEqualHead(s, NonZero(Gaps(t))[0]);
        } else {
          AllEqualHead(s);
        }
      }
    } else {
      assert forall i :: 0 <= i < |s| ==> s[i] == s[0];
    }
  }

  lemma GapsTail(s: seq<real>)
    requires |s| >= 2
    ensures NonZero(Gaps(s)) == (if s[1] != s[0] then [s[1] - s[0]] else []) + NonZero(Gaps(s[1..]))
  {
    var g := Gaps(s);
    assert g[0] == s[1] - s[0];
    assert g[1..] == Gaps(s[1..]);
  }

  /** A first gap between distinct values is the step to the next distinct value. */
  lemma HeadGap(s: seq<real>)
    requires Sorted(s) && |s| >= 2 && s[1] != s[0]
    ensures NextStep(s, s[1] - s[0])
  {
    forall i | 0 <= i < |s| ensures s[i] == s[0] || s[i] >= s[1] {
      if i >= 1 {
        assert s[1] <= s[i];
      }
    }
  }

  /** A repeated head does not change the step to the next distinct value. */
  lemma SkipEqualHead(s: seq<real>, d: real)
    requires |s| >= 2 && s[1] == s[0] && NextStep(s[1..], d)
    ensures NextStep(s, d)
  {
    var t := s[1..];
    var k :| 0 <= k < |t| && t[k] == t[0] + d;
    assert s[k + 1] == s[0] + d;
    forall i | 0 <= i < |s| ensures s[i] == s[0] || s[i] >= s[0] + d {
      if i >= 1 {
        assert s[i] == t[i - 1];
      }
    }
  }

  lemma AllEqualHead(s: seq<real>)
    requires |s| >= 2 && s[1] == s[0] && forall i :: 0 <= i < |s[1..]| ==> s[1..][i] == s[1..][0]
    ensures forall i :: 0 <= i < |s| ==> s[i] == s[0]
  {
    forall i | 0 <= i < |s| ensures s[i] == s[0] {
      if i >= 1 {
        assert s[i] == s[1..][i - 1];
      }
    }
  }

  lemma SameElements(s: seq<real>, t: seq<real>)
    requires multiset(s) == multiset(t)
    ensures forall x :: x in s <==> x in t
    ensures |s| == |t|
  {
    assert |multiset(s)| == |multiset(t)|;
    forall x ensures x in s <==> x in t {
      assert x in s <==> x in multiset(s);
      assert x in t <==> x in multiset(t);
    }
  }

  /** Two sequences with the same elements agree on having two distinct values. */
  lemma DistinctTransfer(s: seq<real>, t: seq<real>)
    requires s != [] && (forall x :: x in s <==> x in t)
    ensures (exists i :: 0 <= i < |s| && s[i] != s[0]) <==> HasTwoDistinct(t)
  {
    if HasTwoDistinct(t) {
      var i, j :| 0 <= i < |t| && 0 <= j < |t| && t[i] != t[j];
      var x := if t[i] != s[0] then t[i] else t[j];
      assert x in s;
      var k :| 0 <= k < |s| && s[k] == x;
    }
    if exists i :: 0 <= i < |s| && s[i] != s[0] {
      var i :| 0 <= i < |s| && s[i] != s[0];
      assert s[i] in t && s[0] in t;
      var a :| 0 <= a < |t| && t[a] == s[i];
      var b :| 0 <= b < |t| && t[b] == s[0];
    }
  }

  /** The head of a sorted permutation is the minimum. */
  lemma HeadIsMin(s: seq<real>, t: seq<real>)
    requires Sorted(s) && s != [] && t != [] && (forall x :: x in s <==> x in t)
    ensures s[0] == Min(t)
  {
    var m := Min(t);
    assert m in s;
    assert s[0] in t;
  }

  /**
   * `ts` is defined exactly when the durations hold two distinct values; it is then
   * strictly positive and equals the second-smallest distinct duration minus the smallest
   * (not the smallest gap between arbitrary neighbours).
   */
  lemma TimeStepCharacterised(times: seq<real>)
    requires times != []
    ensures TimeStep(times).Success? <==> HasTwoDistinct(times)
    ensures TimeStep(times).Success? ==>
              var d := TimeStep(times).value;
              && d > 0.0
              && (exists i :: 0 <= i < |times| && times[i] == Min(times) + d)
              && (forall i :: 0 <= i < |times| ==> times[i] == Min(times) || times[i] >= Min(times) + d)
  {
    var s := Sort(times);
    SameElements(s, times);
    FirstGapSorted(s);
    DistinctTransfer(s, times);
    HeadIsMin(s, times);
    if TimeStep(times).Success? {
      var d := TimeStep(times).value;
      assert d == NonZero(Gaps(s))[0];
      var k :| 0 <= k < |s| && s[k] == s[0] + d;
      assert s[k] in times;
      forall i | 0 <= i < |times|
        ensures times[i] == Min(times) || times[i] >= Min(times) + d
      {
        assert times[i] in s;
      }
    }
  }
}
