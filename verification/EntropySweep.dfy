/**
 The two-pointer pairing of `entropy_similarity` in `src/core/spectral.rs`. The gain of a pair,
 `f(p + q) - f(p) - f(q)` with `f(x) = x log2 x`, is an opaque function of the two intensities.
 */
module EntropySweep {
  import opened PeakSweep

  predicate Near(a: seq<real>, b: seq<real>, tolerance: real, i: nat, j: nat)
    requires i < |a| && j < |b|
  {
    -tolerance <= a[i] - b[j] <= tolerance
  }

  /** The pairs the sweep makes from peak `i` of `a` and peak `j` of `b` on. */
  function Sweep(a: seq<real>, b: seq<real>, tolerance: real, i: nat, j: nat): seq<Pair>
    requires i <= |a| && j <= |b|
    decreases |a| - i + |b| - j
  {
    if i == |a| || j == |b| then []
    else if a[i] - b[j] < -tolerance then Sweep(a, b, tolerance, i + 1, j)
    else if a[i] - b[j] > tolerance then Sweep(a, b, tolerance, i, j + 1)
    else [(i, j)] + Sweep(a, b, tolerance, i + 1, j + 1)
  }

  function GainSum(pairs: seq<Pair>, pa: seq<real>, pb: seq<real>, gain: (real, real) -> real): real
    requires forall k :: 0 <= k < |pairs| ==> pairs[k].0 < |pa| && pairs[k].1 < |pb|
  {
    if pairs == [] then 0.0
    else
      var (i, j) := pairs[|pairs| - 1];
      GainSum(pairs[..|pairs| - 1], pa, pb, gain) + gain(pa[i], pb[j])
  }

  /** Indices at or past the given ones, strictly increasing on both sides. */
  ghost predicate Advancing(pairs: seq<Pair>, i: nat, j: nat) {
    && (forall k :: 0 <= k < |pairs| ==> i <= pairs[k].0 && j <= pairs[k].1)
    && (forall k, l :: 0 <= k < l < |pairs| ==> pairs[k].0 < pairs[l].0 && pairs[k].1 < pairs[l].1)
  }

  ghost predicate AllNear(a: seq<real>, b: seq<real>, tolerance: real, pairs: seq<Pair>) {
    forall k :: 0 <= k < |pairs| ==>
      pairs[k].0 < |a| && pairs[k].1 < |b| && Near(a, b, tolerance, pairs[k].0, pairs[k].1)
  }

  lemma AdvancingCons(rest: seq<Pair>, i: nat, j: nat)
    requires Advancing(rest, i + 1, j + 1)
    ensures Advancing([(i, j)] + rest, i, j)
  {
    var all := [(i, j)] + rest;
    forall k, l | 0 <= k < l < |all| ensures all[k].0 < all[l].0 && all[k].1 < all[l].1 {
      assert all[l] == rest[l - 1];
      if k > 0 {
        assert all[k] == rest[k - 1];
      }
    }
  }

  lemma {:induction false} SweepIsNear(a: seq<real>, b: seq<real>, tolerance: real, i: nat, j: nat)
    requires i <= |a| && j <= |b|
    ensures AllNear(a, b, tolerance, Sweep(a, b, tolerance, i, j))
    decreases |a| - i + |b| - j
  {
    if i < |a| && j < |b| {
      if a[i] - b[j] < -tolerance {
        SweepIsNear(a, b, tolerance, i + 1, j);
      } else if a[i] - b[j] > tolerance {
        SweepIsNear(a, b, tolerance, i, j + 1);
      } else {
        SweepIsNear(a, b, tolerance, i + 1, j + 1);
      }
    }
  }

  lemma {:induction false} SweepAdvances(a: seq<real>, b: seq<real>, tolerance: real, i: nat, j: nat)
    requires i <= |a| && j <= |b|
    ensures Advancing(Sweep(a, b, tolerance, i, j), i, j)
    decreases |a| - i + |b| - j
  {
    if i < |a| && j < |b| {
      if a[i] - b[j] < -tolerance {
        SweepAdvances(a, b, tolerance, i + 1, j);
      } else if a[i] - b[j] > tolerance {
        SweepAdvances(a, b, tolerance, i, j + 1);
      } else {
        SweepAdvances(a, b, tolerance, i + 1, j + 1);
        AdvancingCons(Sweep(a, b, tolerance, i + 1, j + 1), i, j);
      }
    }
  }

  /** One-to-one pairs within tolerance, in order. */
  lemma SweepIsMatching(a: seq<real>, b: seq<real>, tolerance: real)
    ensures Advancing(Sweep(a, b, tolerance, 0, 0), 0, 0) && AllNear(a, b, tolerance, Sweep(a, b, tolerance, 0, 0))
  {
    SweepAdvances(a, b, tolerance, 0, 0);
    SweepIsNear(a, b, tolerance, 0, 0);
  }

  /** Some one-to-one pairing, within tolerance, of peaks from `i` and `j` on. */
  ghost predicate Matching(a: seq<real>, b: seq<real>, tolerance: real, m: set<Pair>, i: nat, j: nat) {
    && (forall p | p in m :: i <= p.0 < |a| && j <= p.1 < |b| && Near(a, b, tolerance, p.0, p.1))
    && (forall p, q | p in m && q in m :: p.0 == q.0 || p.1 == q.1 ==> p == q)
  }

  /** Two pairs that use peaks `i` and `j` apart can be exchanged for one between their other ends. */
  lemma ExchangePair(a: seq<real>, b: seq<real>, tolerance: real, i: nat, j: nat, i': nat, j': nat)
    requires Sorted(a) && Sorted(b) && i <= i' < |a| && j <= j' < |b|
    requires Near(a, b, tolerance, i, j') && Near(a, b, tolerance, i', j)
    ensures Near(a, b, tolerance, i', j')
  {
    assert a[i] <= a[i'] && b[j] <= b[j'];
  }

  /** Without its pairs on peaks `i` and `j`, a matching uses only later peaks. */
  lemma SetAsideAll(a: seq<real>, b: seq<real>, tolerance: real, m: set<Pair>, i: nat, j: nat, rest: set<Pair>)
    requires Matching(a, b, tolerance, m, i, j) && rest <= m
    requires forall p | p in rest :: p.0 != i && p.1 != j
    ensures Matching(a, b, tolerance, rest, i + 1, j + 1)
  {
  }

  /** Two pairs on peaks `i` and `j` give way to one: the matching loses one pair. */
  lemma Exchange(a: seq<real>, b: seq<real>, tolerance: real, m: set<Pair>, i: nat, j: nat, p: Pair, q: Pair)
    returns (rest: set<Pair>)
    requires Sorted(a) && Sorted(b) && i < |a| && j < |b|
    requires Matching(a, b, tolerance, m, i, j) && p in m && q in m && p != q && p.0 == i && q.1 == j
    ensures Matching(a, b, tolerance, rest, i + 1, j + 1)
    ensures |m| == |rest| + 1
  {
    var kept, swapped := m - {p} - {q}, (q.0, p.1);
    assert Near(a, b, tolerance, swapped.0, swapped.1) by {
      ExchangePair(a, b, tolerance, i, j, q.0, p.1);
    }
    SetAsideAll(a, b, tolerance, m, i, j, kept);
    rest := kept + {swapped};
    AddFresh(a, b, tolerance, kept, i + 1, j + 1, swapped);
    assert |m - {p}| == |m| - 1;
  }

  /** A near pair of peaks no other pair uses extends a matching. */
  lemma AddFresh(a: seq<real>, b: seq<real>, tolerance: real, m: set<Pair>, i: nat, j: nat, p: Pair)
    requires Matching(a, b, tolerance, m, i, j)
    requires i <= p.0 < |a| && j <= p.1 < |b| && Near(a, b, tolerance, p.0, p.1)
    requires forall q | q in m :: q.0 != p.0 && q.1 != p.1
    ensures Matching(a, b, tolerance, m + {p}, i, j) && |m + {p}| == |m| + 1
  {
  }

  /** Any matching loses at most one pair when peaks `i` and `j` are set aside. */
  lemma SetAside(a: seq<real>, b: seq<real>, tolerance: real, m: set<Pair>, i: nat, j: nat) returns (rest: set<Pair>)
    requires Sorted(a) && Sorted(b) && i < |a| && j < |b|
    requires Matching(a, b, tolerance, m, i, j)
    ensures Matching(a, b, tolerance, rest, i + 1, j + 1)
    ensures |m| <= |rest| + 1
  {
    if p, q :| p in m && q in m && p != q && p.0 == i && q.1 == j {
      rest := Exchange(a, b, tolerance, m, i, j, p, q);
    } else {
      var touching := set p | p in m && (p.0 == i || p.1 == j);
      AtMostOne(touching);
      rest := m - touching;
      SetAsideAll(a, b, tolerance, m, i, j, rest);
      assert m == rest + touching;
    }
  }

  lemma AtMostOne(s: set<Pair>)
    requires forall p, q | p in s && q in s :: p == q
    ensures |s| <= 1
  {
    if s != {} {
      var p :| p in s;
      assert s == {p};
    }
  }

  /** No one-to-one pairing within tolerance has more pairs than the sweep. */
  lemma {:induction false} SweepIsMaximum(a: seq<real>, b: seq<real>, tolerance: real, m: set<Pair>, i: nat, j: nat)
    requires Sorted(a) && Sorted(b) && i <= |a| && j <= |b|
    requires Matching(a, b, tolerance, m, i, j)
    ensures |m| <= |Sweep(a, b, tolerance, i, j)|
    decreases |a| - i + |b| - j
  {
    if i == |a| || j == |b| {
      assert m == {};
    } else if a[i] - b[j] < -tolerance {
      assert forall p | p in m :: p.0 != i;
      SweepIsMaximum(a, b, tolerance, m, i + 1, j);
    } else if a[i] - b[j] > tolerance {
      assert forall p | p in m :: p.1 != j;
      SweepIsMaximum(a, b, tolerance, m, i, j + 1);
    } else {
      var rest := SetAside(a, b, tolerance, m, i, j);
      SweepIsMaximum(a, b, tolerance, rest, i + 1, j + 1);
    }
  }

  function SwapAll(pairs: seq<Pair>): (r: seq<Pair>)
    ensures |r| == |pairs| && forall k :: 0 <= k < |pairs| ==> r[k] == (pairs[k].1, pairs[k].0)
  {
    if pairs == [] then [] else [(pairs[0].1, pairs[0].0)] + SwapAll(pairs[1..])
  }

  /** Swapping the spectra swaps the pairs. */
  lemma {:induction false} SweepSwaps(a: seq<real>, b: seq<real>, tolerance: real, i: nat, j: nat)
    requires tolerance >= 0.0 && i <= |a| && j <= |b|
    ensures Sweep(b, a, tolerance, j, i) == SwapAll(Sweep(a, b, tolerance, i, j))
    decreases |a| - i + |b| - j
  {
    if i < |a| && j < |b| {
      if a[i] - b[j] < -tolerance {
        SweepSwaps(a, b, tolerance, i + 1, j);
      } else if a[i] - b[j] > tolerance {
        SweepSwaps(a, b, tolerance, i, j + 1);
      } else {
        SweepSwaps(a, b, tolerance, i + 1, j + 1);
        assert ([(i, j)] + Sweep(a, b, tolerance, i + 1, j + 1))[1..] == Sweep(a, b, tolerance, i + 1, j + 1);
      }
    }
  }

  /** A centroided spectrum: no two peaks within twice the tolerance. */
  ghost predicate Separated(s: seq<real>, tolerance: real) {
    forall i, j :: 0 <= i < j < |s| ==> s[j] - s[i] > 2.0 * tolerance
  }

  /** On centroided spectra the sweep finds exactly the pairs within tolerance. */
  lemma {:induction false} SweepIsExactWhenSeparated(a: seq<real>, b: seq<real>, tolerance: real, i: nat, j: nat, p: Pair)
    requires tolerance >= 0.0 && Separated(a, tolerance) && Separated(b, tolerance)
    requires i <= |a| && j <= |b|
    ensures p in Sweep(a, b, tolerance, i, j) <==>
            i <= p.0 < |a| && j <= p.1 < |b| && Near(a, b, tolerance, p.0, p.1)
    decreases |a| - i + |b| - j
  {
    if i < |a| && j < |b| {
      if a[i] - b[j] < -tolerance {
        SweepIsExactWhenSeparated(a, b, tolerance, i + 1, j, p);
      } else if a[i] - b[j] > tolerance {
        SweepIsExactWhenSeparated(a, b, tolerance, i, j + 1, p);
      } else {
        SweepIsExactWhenSeparated(a, b, tolerance, i + 1, j + 1, p);
      }
    }
  }

  /** The sum of gains does not depend on which spectrum comes first, when the gain does not. */
  lemma {:induction false} GainSumSwaps(pairs: seq<Pair>, pa: seq<real>, pb: seq<real>, gain: (real, real) -> real)
    requires forall x, y :: gain(x, y) == gain(y, x)
    requires forall k :: 0 <= k < |pairs| ==> pairs[k].0 < |pa| && pairs[k].1 < |pb|
    ensures GainSum(SwapAll(pairs), pb, pa, gain) == GainSum(pairs, pa, pb, gain)
  {
    if pairs != [] {
      var front := pairs[..|pairs| - 1];
      GainSumSwaps(front, pa, pb, gain);
      assert SwapAll(pairs)[..|front|] == SwapAll(front);
    }
  }

  /** The sweep loop: two pointers, one running sum. */
  method EntropySum(a: seq<real>, b: seq<real>, pa: seq<real>, pb: seq<real>, tolerance: real, gain: (real, real) -> real)
    returns (sum: real)
    requires |pa| == |a| && |pb| == |b|
    ensures forall k :: 0 <= k < |Sweep(a, b, tolerance, 0, 0)| ==>
              Sweep(a, b, tolerance, 0, 0)[k].0 < |pa| && Sweep(a, b, tolerance, 0, 0)[k].1 < |pb|
    ensures sum == GainSum(Sweep(a, b, tolerance, 0, 0), pa, pb, gain)
  {
    var i, j := 0, 0;
    ghost var pairs: seq<Pair> := [];
    sum := 0.0;
    while i < |a| && j < |b|
      invariant i <= |a| && j <= |b|
      invariant pairs + Sweep(a, b, tolerance, i, j) == Sweep(a, b, tolerance, 0, 0)
      invariant forall k :: 0 <= k < |pairs| ==> pairs[k].0 < |pa| && pairs[k].1 < |pb|
      invariant sum == GainSum(pairs, pa, pb, gain)
      decreases |a| - i + |b| - j
    {
      var diff := a[i] - b[j];
      if diff < -tolerance {
        i := i + 1;
      } else if diff > tolerance {
        j := j + 1;
      } else {
        assert pairs + ([(i, j)] + Sweep(a, b, tolerance, i + 1, j + 1)) == (pairs + [(i, j)]) + Sweep(a, b, tolerance, i + 1, j + 1);
        assert (pairs + [(i, j)])[..|pairs|] == pairs;
        pairs := pairs + [(i, j)];
        sum := sum + gain(pa[i], pb[j]);
        i, j := i + 1, j + 1;
      }
    }
    assert pairs + [] == pairs;
    assert pairs == Sweep(a, b, tolerance, 0, 0);
  }
}
