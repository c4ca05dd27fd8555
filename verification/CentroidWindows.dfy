/**
 What `centroid` of `src/core/spectral.rs` makes of its peaks, without its loops: again and again the most intense peak left
 takes every peak within `d` of it.
 */
module CentroidWindows {
  import opened Common
  import opened StableSort
  import opened Centroid
  import Cleaning

  ghost predicate Near(p: Peak, mz: real, d: real) {
    -d <= p.mz - mz <= d
  }

  ghost predicate InWindow(work: seq<Peak>, idx: nat, d: real, k: nat)
    requires idx < |work| && k < |work|
  {
    Near(work[k], work[idx].mz, d)
  }

  lemma {:induction false} WindowLeftIs(work: seq<Peak>, mz: real, d: real, left: nat)
    requires left <= |work|
    ensures var l := WindowLeft(work, mz, d, left);
            (forall k :: l <= k < left ==> mz - work[k].mz <= d) && (l > 0 ==> mz - work[l - 1].mz > d)
  {
    if left > 0 && mz - work[left - 1].mz <= d {
      WindowLeftIs(work, mz, d, left - 1);
    }
  }

  lemma {:induction false} WindowRightIs(work: seq<Peak>, mz: real, d: real, right: nat)
    requires right <= |work|
    ensures var r := WindowRight(work, mz, d, right);
            (forall k :: right <= k < r ==> work[k].mz - mz <= d) && (r < |work| ==> work[r].mz - mz > d)
    decreases |work| - right
  {
    if right < |work| && work[right].mz - mz <= d {
      WindowRightIs(work, mz, d, right + 1);
    }
  }

  /** On ascending peaks the run around a peak is exactly the peaks within `d` of it. */
  lemma RunIsWindow(work: seq<Peak>, idx: nat, d: real, k: nat)
    requires Ascending(work, Mz) && d >= 0.0 && idx < |work| && k < |work|
    ensures var (l, r) := Run(work, idx, d); l <= k < r <==> InWindow(work, idx, d, k)
  {
    var (l, r) := Run(work, idx, d);
    WindowLeftIs(work, work[idx].mz, d, idx);
    WindowRightIs(work, work[idx].mz, d, idx + 1);
    if k < idx {
      assert Mz(work[k]) <= Mz(work[idx]);
      if k < l - 1 {
        assert Mz(work[k]) <= Mz(work[l - 1]);
      }
    } else if k > idx {
      assert Mz(work[idx]) <= Mz(work[k]);
      if k > r {
        assert Mz(work[r]) <= Mz(work[k]);
      }
    }
  }

  /** A merge silences exactly the peaks within `d` of its centre. */
  lemma MergeTakesWindow(work: seq<Peak>, idx: nat, d: real, k: nat)
    requires Ascending(work, Mz) && NonNegative(work) && d >= 0.0 && idx < |work| && k < |work| && work[idx].intensity > 0.0
    ensures MergeOne(work, idx, d).1[k] == if InWindow(work, idx, d, k) then Peak(work[k].mz, 0.0) else work[k]
    ensures MergeOne(work, idx, d).1[k].intensity == 0.0 <==> work[k].intensity == 0.0 || InWindow(work, idx, d, k)
  {
    RunIsWindow(work, idx, d, k);
  }

  // ---------------------------------------------------------------- what a merged peak holds

  /** The sum over the peaks within `d` of `mz`. */
  ghost function SumWithin(work: seq<Peak>, mz: real, d: real, f: Peak -> real): real {
    if work == [] then 0.0
    else
      SumWithin(work[..|work| - 1], mz, d, f)
      + if Near(work[|work| - 1], mz, d) then f(work[|work| - 1]) else 0.0
  }

  lemma {:induction false} SumWithinConcat(a: seq<Peak>, b: seq<Peak>, mz: real, d: real, f: Peak -> real)
    ensures SumWithin(a + b, mz, d, f) == SumWithin(a, mz, d, f) + SumWithin(b, mz, d, f)
  {
    if b == [] {
      assert a + b == a;
    } else {
      SumWithinConcat(a, b[..|b| - 1], mz, d, f);
      assert (a + b)[..|a + b| - 1] == a + b[..|b| - 1];
    }
  }

  lemma {:induction false} AllWithin(b: seq<Peak>, mz: real, d: real, f: Peak -> real)
    requires forall k :: 0 <= k < |b| ==> Near(b[k], mz, d)
    ensures SumWithin(b, mz, d, f) == SumBy(b, f)
  {
    if b != [] {
      AllWithin(b[..|b| - 1], mz, d, f);
    }
  }

  lemma {:induction false} NoneWithin(b: seq<Peak>, mz: real, d: real, f: Peak -> real)
    requires forall k :: 0 <= k < |b| ==> !Near(b[k], mz, d)
    ensures SumWithin(b, mz, d, f) == 0.0
  {
    if b != [] {
      NoneWithin(b[..|b| - 1], mz, d, f);
    }
  }

  lemma RunParts(work: seq<Peak>, idx: nat, d: real)
    requires Ascending(work, Mz) && d >= 0.0 && idx < |work|
    ensures var (l, r), mz := Run(work, idx, d), work[idx].mz;
            && (forall k :: 0 <= k < l ==> !Near(work[..l][k], mz, d))
            && (forall k :: 0 <= k < r - l ==> Near(work[l..r][k], mz, d))
            && (forall k :: 0 <= k < |work| - r ==> !Near(work[r..][k], mz, d))
  {
    var (l, r) := Run(work, idx, d);
    var mz := work[idx].mz;
    forall k | 0 <= k < |work|
      ensures l <= k < r <==> Near(work[k], mz, d)
    {
      RunIsWindow(work, idx, d, k);
    }
  }

  /** What a run adds up to is what lies within `d` of its centre. */
  lemma RunHoldsWindow(work: seq<Peak>, idx: nat, d: real, f: Peak -> real)
    requires Ascending(work, Mz) && d >= 0.0 && idx < |work|
    ensures var (l, r) := Run(work, idx, d); SumBy(work[l..r], f) == SumWithin(work, work[idx].mz, d, f)
  {
    var (l, r) := Run(work, idx, d);
    RunParts(work, idx, d);
    SplitThree(work, l, r);
    MiddleHolds(work[..l], work[l..r], work[r..], work[idx].mz, d, f);
  }

  lemma MiddleHolds(a: seq<Peak>, b: seq<Peak>, c: seq<Peak>, mz: real, d: real, f: Peak -> real)
    requires forall k :: 0 <= k < |a| ==> !Near(a[k], mz, d)
    requires forall k :: 0 <= k < |b| ==> Near(b[k], mz, d)
    requires forall k :: 0 <= k < |c| ==> !Near(c[k], mz, d)
    ensures SumWithin(a + b + c, mz, d, f) == SumBy(b, f)
  {
    NoneWithin(a, mz, d, f);
    AllWithin(b, mz, d, f);
    NoneWithin(c, mz, d, f);
    SumWithinConcat(a, b, mz, d, f);
    SumWithinConcat(a + b, c, mz, d, f);
  }

  // ---------------------------------------------------------------- one merge and one round, as relations

  /** The most intense peak left; of equal ones the last. */
  ghost predicate Heaviest(work: seq<Peak>, idx: nat) {
    idx < |work| && work[idx].intensity > 0.0 &&
    forall k :: 0 <= k < |work| ==> work[k].intensity < work[idx].intensity || (work[k].intensity == work[idx].intensity && k <= idx)
  }

  /** `p` holds the intensity and the moment of the peaks within `d` of `idx`, which are silent in `left`. */
  ghost predicate IsMerge(work: seq<Peak>, idx: nat, d: real, p: Peak, left: seq<Peak>)
    requires idx < |work|
  {
    && |left| == |work|
    && (forall k :: 0 <= k < |work| ==> left[k] == if InWindow(work, idx, d, k) then Peak(work[k].mz, 0.0) else work[k])
    && p.intensity == SumWithin(work, work[idx].mz, d, Intensity) > 0.0
    && p.mz * p.intensity == SumWithin(work, work[idx].mz, d, Moment)
  }

  lemma MergeOneIsMerge(work: seq<Peak>, idx: nat, d: real)
    requires Ascending(work, Mz) && NonNegative(work) && d >= 0.0 && idx < |work| && work[idx].intensity > 0.0
    ensures var (p, left) := MergeOne(work, idx, d); IsMerge(work, idx, d, p, left)
  {
    forall k | 0 <= k < |work|
      ensures MergeOne(work, idx, d).1[k] == if InWindow(work, idx, d, k) then Peak(work[k].mz, 0.0) else work[k]
    {
      MergeTakesWindow(work, idx, d, k);
    }
    RunIsPositive(work, idx, d);
    RunHoldsWindow(work, idx, d, Intensity);
    RunHoldsWindow(work, idx, d, Moment);
    MergedHolds(work, idx, d);
  }

  lemma MergedHolds(work: seq<Peak>, idx: nat, d: real)
    requires NonNegative(work) && idx < |work| && work[idx].intensity > 0.0
    ensures var (l, r), p := Run(work, idx, d), MergeOne(work, idx, d).0;
            SumBy(work[l..r], Intensity) > 0.0 && p.intensity == SumBy(work[l..r], Intensity)
            && p.mz * p.intensity == SumBy(work[l..r], Moment)
  {
    RunIsPositive(work, idx, d);
  }

  /** From `work` the merged peaks are made one after another, most intense first, until nothing is left. */
  ghost predicate MergesTo(work: seq<Peak>, made: seq<Peak>, d: real)
    decreases |made|
  {
    if made == [] then forall k :: 0 <= k < |work| ==> work[k].intensity == 0.0
    else exists idx: nat, left: seq<Peak> :: NextMerge(work, idx, d, made[0], left) && MergesTo(left, made[1..], d)
  }

  ghost predicate NextMerge(work: seq<Peak>, idx: nat, d: real, p: Peak, left: seq<Peak>) {
    Heaviest(work, idx) && IsMerge(work, idx, d, p, left)
  }

  /** Peaks of the round that are still to be merged, or silent. */
  ghost predicate Remains(peaks: seq<Peak>, work: seq<Peak>) {
    && |work| == |peaks| && NonNegative(work)
    && forall m :: 0 <= m < |peaks| ==> work[m].mz == peaks[m].mz && (work[m] == peaks[m] || work[m].intensity == 0.0)
  }

  lemma RemainsAscending(peaks: seq<Peak>, work: seq<Peak>)
    requires Ascending(peaks, Mz) && Remains(peaks, work)
    ensures Ascending(work, Mz)
  {
    forall i, j | 0 <= i < j < |work|
      ensures Mz(work[i]) <= Mz(work[j])
    {
      assert Mz(peaks[i]) <= Mz(peaks[j]);
    }
  }

  /** By intensity, and by position where intensities are equal. */
  ghost predicate RanksPeaks(peaks: seq<Peak>, order: seq<Ranked>) {
    && (forall m :: 0 <= m < |order| ==> order[m].idx < |peaks| && order[m].intensity == peaks[order[m].idx].intensity)
    && forall m, n :: 0 <= m < n < |order| ==>
         order[m].intensity < order[n].intensity || (order[m].intensity == order[n].intensity && order[m].idx <= order[n].idx)
  }

  lemma OrderRanksPeaks(peaks: seq<Peak>)
    ensures RanksPeaks(peaks, Order(peaks))
  {
    var order := Order(peaks);
    Cleaning.OrderBreaksTies(peaks, |peaks|);
    forall m | 0 <= m < |order|
      ensures order[m].idx < |peaks| && order[m].intensity == peaks[order[m].idx].intensity
    {
      OrderRanks(peaks, m);
    }
    forall m, n | 0 <= m < n < |order|
      ensures order[m].intensity < order[n].intensity || (order[m].intensity == order[n].intensity && order[m].idx <= order[n].idx)
    {
      OrderAscends(peaks, m, n);
    }
  }

  /** The next peak that a round does not skip is the most intense one left. */
  lemma NextIsHeaviest(peaks: seq<Peak>, work: seq<Peak>, order: seq<Ranked>, n: nat)
    requires RanksPeaks(peaks, order) && 0 < n <= |order| && Remains(peaks, work) && Covers(work, order, n)
    requires work[order[n - 1].idx].intensity > 0.0
    ensures Heaviest(work, order[n - 1].idx)
  {
    var idx := order[n - 1].idx;
    forall k | 0 <= k < |work|
      ensures work[k].intensity < work[idx].intensity || (work[k].intensity == work[idx].intensity && k <= idx)
    {
      if work[k].intensity > 0.0 {
        VisitsMembers(order, n, k);
        var m :| 0 <= m < n && order[m].idx == k;
        assert m == n - 1 || m < n - 1;
      }
    }
  }

  /** What one turn of a round that is not skipped does. */
  lemma TurnIsMerge(peaks: seq<Peak>, work: seq<Peak>, order: seq<Ranked>, n: nat, d: real) returns (p: Peak, left: seq<Peak>)
    requires Ascending(peaks, Mz) && d >= 0.0 && RanksPeaks(peaks, order) && 0 < n <= |order|
    requires Remains(peaks, work) && Covers(work, order, n) && work[order[n - 1].idx].intensity > 0.0
    ensures NextMerge(work, order[n - 1].idx, d, p, left) && Remains(peaks, left) && Covers(left, order, n - 1)
    ensures MergeAll(work, order, n, d) == [p] + MergeAll(left, order, n - 1, d)
  {
    var idx := order[n - 1].idx;
    p, left := MergeOne(work, idx, d).0, MergeOne(work, idx, d).1;
    RemainsAscending(peaks, work);
    MergeOneIsMerge(work, idx, d);
    NextIsHeaviest(peaks, work, order, n);
    CoversLess(work, order, n, left);
    MergeAllStep(work, order, n, d);
  }

  /** A turn that is skipped changes nothing. */
  lemma SkipMerges(work: seq<Peak>, order: seq<Ranked>, n: nat, d: real)
    requires 0 < n <= |order| && InRange(order, |work|) && NonNegative(work) && work[order[n - 1].idx].intensity <= 0.0
    requires Covers(work, order, n)
    ensures Covers(work, order, n - 1) && MergeAll(work, order, n, d) == MergeAll(work, order, n - 1, d)
  {
    CoversLess(work, order, n, work);
  }

  lemma MergeAllStep(work: seq<Peak>, order: seq<Ranked>, n: nat, d: real)
    requires 0 < n <= |order| && InRange(order, |work|) && NonNegative(work) && work[order[n - 1].idx].intensity > 0.0
    ensures var (p, left) := MergeOne(work, order[n - 1].idx, d);
            MergeAll(work, order, n, d) == [p] + MergeAll(left, order, n - 1, d)
  {
  }

  lemma MergesOnce(work: seq<Peak>, idx: nat, d: real, p: Peak, left: seq<Peak>, rest: seq<Peak>)
    requires NextMerge(work, idx, d, p, left) && MergesTo(left, rest, d)
    ensures MergesTo(work, [p] + rest, d)
  {
    var made := [p] + rest;
    assert made[1..] == rest;
    assert NextMerge(work, idx, d, made[0], left) && MergesTo(left, made[1..], d);
  }

  ghost predicate RoundMerges(work: seq<Peak>, order: seq<Ranked>, n: nat, d: real) {
    n <= |order| && InRange(order, |work|) && NonNegative(work) && MergesTo(work, MergeAll(work, order, n, d), d)
  }

  /** A turn of a round makes one merge, or none for a peak merged already: what is left to do decides what is made. */
  lemma TurnMerges(peaks: seq<Peak>, work: seq<Peak>, order: seq<Ranked>, n: nat, d: real) returns (left: seq<Peak>)
    requires Ascending(peaks, Mz) && d >= 0.0 && RanksPeaks(peaks, order) && 0 < n <= |order|
    requires Remains(peaks, work) && Covers(work, order, n)
    ensures Remains(peaks, left) && Covers(left, order, n - 1)
    ensures RoundMerges(left, order, n - 1, d) ==> RoundMerges(work, order, n, d)
  {
    if work[order[n - 1].idx].intensity <= 0.0 {
      SkipMerges(work, order, n, d);
      left := work;
    } else {
      var p;
      p, left := TurnIsMerge(peaks, work, order, n, d);
      if RoundMerges(left, order, n - 1, d) {
        MergesOnce(work, order[n - 1].idx, d, p, left, MergeAll(left, order, n - 1, d));
      }
    }
  }

  lemma {:induction false} MergeAllMergesTo(peaks: seq<Peak>, work: seq<Peak>, order: seq<Ranked>, n: nat, d: real)
    requires Ascending(peaks, Mz) && d >= 0.0 && RanksPeaks(peaks, order) && n <= |order|
    requires Remains(peaks, work) && Covers(work, order, n)
    ensures RoundMerges(work, order, n, d)
    decreases n
  {
    if n > 0 {
      var left := TurnMerges(peaks, work, order, n, d);
      MergeAllMergesTo(peaks, left, order, n - 1, d);
    }
  }

  /** A round makes merged peaks in that way and sorts them by m/z, stably. */
  lemma RoundIs(peaks: seq<Peak>, d: real) returns (made: seq<Peak>)
    requires Valid(peaks) && d >= 0.0
    ensures MergesTo(peaks, made, d)
    ensures Ascending(Round(peaks, d), Mz) && multiset(Round(peaks, d)) == multiset(made)
    ensures forall mz :: WithKey(Round(peaks, d), Mz, mz) == WithKey(made, Mz, mz)
  {
    OrderIsComplete(peaks);
    OrderRanksPeaks(peaks);
    MergeAllMergesTo(peaks, peaks, Order(peaks), |peaks|, d);
    made := MergeAll(peaks, Order(peaks), |peaks|, d);
    SortSorts(made, Mz);
    forall mz
      ensures WithKey(Round(peaks, d), Mz, mz) == WithKey(made, Mz, mz)
    {
      SortIsStable(made, Mz, mz);
    }
  }

  lemma TwoHeaviest(work: seq<Peak>, i: nat, j: nat)
    requires Heaviest(work, i) && Heaviest(work, j)
    ensures i == j
  {
  }

  lemma SameQuotient(x: real, y: real, t: real)
    requires t > 0.0 && x * t == y * t
    ensures x == y
  {
    Cleaning.SameQuotient(x, y, t);
  }

  lemma OneMerge(work: seq<Peak>, idx: nat, d: real, p: Peak, left: seq<Peak>, q: Peak, rest: seq<Peak>)
    requires idx < |work| && IsMerge(work, idx, d, p, left) && IsMerge(work, idx, d, q, rest)
    ensures p == q && left == rest
  {
    SameQuotient(p.mz, q.mz, p.intensity);
    assert forall k :: 0 <= k < |work| ==> left[k] == rest[k];
  }

  lemma StillSomething(work: seq<Peak>, made: seq<Peak>, d: real) returns (idx: nat, left: seq<Peak>)
    requires made != [] && MergesTo(work, made, d)
    ensures NextMerge(work, idx, d, made[0], left) && MergesTo(left, made[1..], d)
    ensures !forall k :: 0 <= k < |work| ==> work[k].intensity == 0.0
  {
    idx, left :| NextMerge(work, idx, d, made[0], left) && MergesTo(left, made[1..], d);
    assert work[idx].intensity != 0.0;
  }

  /** There is only one way: the relation decides the merged peaks. */
  lemma {:induction false} MergesToIsUnique(work: seq<Peak>, made: seq<Peak>, other: seq<Peak>, d: real)
    requires MergesTo(work, made, d) && MergesTo(work, other, d)
    ensures made == other
    decreases |made|
  {
    if made == [] {
      OnlyNothing(work, other, d);
    } else {
      var idx, left := StillSomething(work, made, d);
      OnlySomething(work, other, d);
      var i, rest := StillSomething(work, other, d);
      TwoHeaviest(work, idx, i);
      OneMerge(work, idx, d, made[0], left, other[0], rest);
      assert MergesTo(left, other[1..], d);
      MergesToIsUnique(left, made[1..], other[1..], d);
      SameParts(made, other);
    }
  }

  lemma SameParts(made: seq<Peak>, other: seq<Peak>)
    requires made != [] && other != [] && made[0] == other[0] && made[1..] == other[1..]
    ensures made == other
  {
    assert made == [made[0]] + made[1..] && other == [other[0]] + other[1..];
  }

  lemma OnlyNothing(work: seq<Peak>, made: seq<Peak>, d: real)
    requires MergesTo(work, made, d) && forall k :: 0 <= k < |work| ==> work[k].intensity == 0.0
    ensures made == []
  {
    if made != [] {
      var _, _ := StillSomething(work, made, d);
    }
  }

  lemma OnlySomething(work: seq<Peak>, made: seq<Peak>, d: real)
    requires MergesTo(work, made, d) && !forall k :: 0 <= k < |work| ==> work[k].intensity == 0.0
    ensures made != []
  {
  }

  ghost predicate NextRound(before: seq<Peak>, after: seq<Peak>, d: real) {
    Valid(before) && !Centroided(before, d) && after == Round(before, d)
  }

  /** Centroiding is rounds, each on a list that still has neighbours closer than `d`, until one has none. */
  lemma {:induction false} CentroidIsRounds(peaks: seq<Peak>, d: real) returns (lists: seq<seq<Peak>>)
    requires Valid(peaks)
    ensures lists != [] && lists[0] == peaks && lists[|lists| - 1] == CentroidAll(peaks, d)
    ensures forall i :: 0 <= i < |lists| - 1 ==> NextRound(lists[i], lists[i + 1], d)
    ensures Centroided(lists[|lists| - 1], d)
    decreases |peaks|
  {
    if Centroided(peaks, d) {
      lists := [peaks];
    } else {
      RoundShrinks(peaks, d);
      RoundIsValid(peaks, d);
      var rest := CentroidIsRounds(Round(peaks, d), d);
      assert NextRound(peaks, rest[0], d);
      lists := [peaks] + rest;
    }
  }
}
