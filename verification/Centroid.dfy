/**
 `centroid` of `src/core/spectral.rs`: from the most intense peak down, merge every peak within
 `d` of it into their intensity-weighted mean; repeat until no two peaks are closer than `d`.
 */
module Centroid {
  import opened RealArithmetic
  import opened StableSort

  datatype Peak = Peak(mz: real, intensity: real)

  function Mz(p: Peak): real { p.mz }

  function Intensity(p: Peak): real { p.intensity }

  function Moment(p: Peak): real { p.mz * p.intensity }

  /** Peaks `centroid` is called on: ascending m/z, positive intensities. */
  ghost predicate Valid(peaks: seq<Peak>) {
    Ascending(peaks, Mz) && forall k :: 0 <= k < |peaks| ==> peaks[k].intensity > 0.0
  }

  predicate Centroided(peaks: seq<Peak>, d: real) {
    forall k :: 0 <= k < |peaks| - 1 ==> peaks[k + 1].mz - peaks[k].mz >= d
  }

  // ---------------------------------------------------------------- one merge

  /** First peak of the run, ending before `left`, that reaches within `d` below `mz`. */
  function WindowLeft(peaks: seq<Peak>, mz: real, d: real, left: nat): (l: nat)
    requires left <= |peaks|
    ensures l <= left
  {
    if left > 0 && mz - peaks[left - 1].mz <= d then WindowLeft(peaks, mz, d, left - 1) else left
  }

  function WindowRight(peaks: seq<Peak>, mz: real, d: real, right: nat): (r: nat)
    requires right <= |peaks|
    ensures right <= r <= |peaks|
    decreases |peaks| - right
  {
    if right < |peaks| && peaks[right].mz - mz <= d then WindowRight(peaks, mz, d, right + 1) else right
  }

  function Merged(run: seq<Peak>): Peak
    requires SumBy(run, Intensity) != 0.0
  {
    Peak(SumBy(run, Moment) / SumBy(run, Intensity), SumBy(run, Intensity))
  }

  function Silence(run: seq<Peak>): (r: seq<Peak>)
    ensures |r| == |run| && forall k :: 0 <= k < |run| ==> r[k] == Peak(run[k].mz, 0.0)
  {
    if run == [] then [] else Silence(run[..|run| - 1]) + [Peak(run[|run| - 1].mz, 0.0)]
  }

  /** The peaks with those in `[l, r)` zeroed. */
  function Zeroed(work: seq<Peak>, l: nat, r: nat): (z: seq<Peak>)
    requires l <= r <= |work|
    ensures |z| == |work|
    ensures forall k :: 0 <= k < |work| ==> z[k] == if l <= k < r then Peak(work[k].mz, 0.0) else work[k]
  {
    work[..l] + Silence(work[l..r]) + work[r..]
  }

  datatype Ranked = Ranked(idx: nat, intensity: real)

  function RankKey(r: Ranked): real { r.intensity }

  function Ranks(peaks: seq<Peak>, n: nat): (r: seq<Ranked>)
    requires n <= |peaks|
    ensures |r| == n && forall k :: 0 <= k < n ==> r[k] == Ranked(k, peaks[k].intensity)
  {
    if n == 0 then [] else Ranks(peaks, n - 1) + [Ranked(n - 1, peaks[n - 1].intensity)]
  }

  /** The indices by ascending intensity; a round runs through them backwards. */
  function Order(peaks: seq<Peak>): seq<Ranked> {
    Sort(Ranks(peaks, |peaks|), RankKey)
  }

  ghost predicate InRange(order: seq<Ranked>, n: nat) {
    forall k :: 0 <= k < |order| ==> order[k].idx < n
  }

  ghost predicate NonNegative(work: seq<Peak>) {
    forall k :: 0 <= k < |work| ==> work[k].intensity >= 0.0
  }

  lemma {:induction false} SumNonNegative(work: seq<Peak>)
    requires NonNegative(work)
    ensures SumBy(work, Intensity) >= 0.0
    ensures forall k :: 0 <= k < |work| ==> work[k].intensity <= SumBy(work, Intensity)
  {
    if work != [] {
      SumNonNegative(work[..|work| - 1]);
    }
  }

  /** The run merged around peak `idx`. */
  function Run(work: seq<Peak>, idx: nat, d: real): (w: (nat, nat))
    requires idx < |work|
    ensures w.0 <= idx < w.1 <= |work|
  {
    (WindowLeft(work, work[idx].mz, d, idx), WindowRight(work, work[idx].mz, d, idx + 1))
  }

  lemma RunIsPositive(work: seq<Peak>, idx: nat, d: real)
    requires NonNegative(work) && idx < |work| && work[idx].intensity > 0.0
    ensures var (l, r) := Run(work, idx, d); SumBy(work[l..r], Intensity) > 0.0
  {
    var (l, r) := Run(work, idx, d);
    SumNonNegative(work[l..r]);
    assert work[l..r][idx - l] == work[idx];
  }

  /** The peak that merging around `idx` makes, and what is left. */
  function MergeOne(work: seq<Peak>, idx: nat, d: real): (r: (Peak, seq<Peak>))
    requires NonNegative(work) && idx < |work| && work[idx].intensity > 0.0
    ensures |r.1| == |work| && NonNegative(r.1)
    ensures r.1[idx].intensity == 0.0
            && forall k :: 0 <= k < |work| ==> r.1[k].mz == work[k].mz && (r.1[k] == work[k] || r.1[k].intensity == 0.0)
  {
    RunIsPositive(work, idx, d);
    var (l, r) := Run(work, idx, d);
    (Merged(work[l..r]), Zeroed(work, l, r))
  }

  /** What is merged when the first `n` indices of the order are still to be visited, last first. */
  function MergeAll(work: seq<Peak>, order: seq<Ranked>, n: nat, d: real): seq<Peak>
    requires n <= |order| && InRange(order, |work|) && NonNegative(work)
    decreases n
  {
    if n == 0 then []
    else
      var idx := order[n - 1].idx;
      if work[idx].intensity <= 0.0 then MergeAll(work, order, n - 1, d)
      else
        var (merged, left) := MergeOne(work, idx, d);
        [merged] + MergeAll(left, order, n - 1, d)
  }

  // ---------------------------------------------------------------- what a merge conserves

  /** Counts the peaks not merged yet. */
  function Tally(p: Peak): real { if p.intensity > 0.0 then 1.0 else 0.0 }

  /** A function of peaks that silent ones add nothing to. */
  ghost predicate SilentIsZero(f: Peak -> real) {
    forall mz :: f(Peak(mz, 0.0)) == 0.0
  }

  lemma SilentSums()
    ensures SilentIsZero(Intensity) && SilentIsZero(Moment) && SilentIsZero(Tally)
  {
  }

  lemma {:induction false} SilenceSum(run: seq<Peak>, f: Peak -> real)
    requires SilentIsZero(f)
    ensures SumBy(Silence(run), f) == 0.0
  {
    if run != [] {
      var front, last := run[..|run| - 1], Peak(run[|run| - 1].mz, 0.0);
      SilenceSum(front, f);
      assert (Silence(front) + [last])[..|front|] == Silence(front);
    }
  }

  lemma SumThree(a: seq<Peak>, b: seq<Peak>, c: seq<Peak>, f: Peak -> real)
    ensures SumBy(a + b + c, f) == SumBy(a, f) + SumBy(b, f) + SumBy(c, f)
  {
    SumConcat(a + b, c, f);
    SumConcat(a, b, f);
  }

  /** What the run held is exactly what zeroing it takes away. */
  lemma ZeroedSum(work: seq<Peak>, l: nat, r: nat, f: Peak -> real)
    requires l <= r <= |work| && SilentIsZero(f)
    ensures SumBy(work, f) == SumBy(work[l..r], f) + SumBy(Zeroed(work, l, r), f)
  {
    SplitThree(work, l, r);
    SilencedPart(work[..l], work[l..r], work[r..], f);
  }

  lemma SplitThree<T>(s: seq<T>, l: nat, r: nat)
    requires l <= r <= |s|
    ensures s == s[..l] + s[l..r] + s[r..]
  {
  }

  lemma SilencedPart(a: seq<Peak>, b: seq<Peak>, c: seq<Peak>, f: Peak -> real)
    requires SilentIsZero(f)
    ensures SumBy(a + b + c, f) == SumBy(b, f) + SumBy(a + Silence(b) + c, f)
  {
    SumThree(a, b, c, f);
    SumThree(a, Silence(b), c, f);
    SilenceSum(b, f);
  }

  lemma {:induction false} TallyAtLeast(run: seq<Peak>, i: nat, j: nat)
    requires i <= j < |run| && run[i].intensity > 0.0 && run[j].intensity > 0.0
    ensures SumBy(run, Tally) >= if i < j then 2.0 else 1.0
  {
    var front := run[..|run| - 1];
    if j < |run| - 1 {
      TallyAtLeast(front, i, j);
    } else if i < j {
      TallyAtLeast(front, i, i);
    } else {
      TallyNonNegative(front);
    }
  }

  lemma {:induction false} TallyNonNegative(run: seq<Peak>)
    ensures SumBy(run, Tally) >= 0.0
  {
    if run != [] {
      TallyNonNegative(run[..|run| - 1]);
    }
  }

  lemma MomentStep(m: real, t: real, mz: real, i: real, lo: real, hi: real)
    requires lo * t <= m <= hi * t && i >= 0.0 && lo <= mz <= hi
    ensures lo * (t + i) <= m + mz * i <= hi * (t + i)
  {
    MulMonotone(lo, mz, i);
    MulMonotone(mz, hi, i);
  }

  ghost predicate MzWithin(run: seq<Peak>, lo: real, hi: real) {
    forall k :: 0 <= k < |run| ==> lo <= run[k].mz <= hi
  }

  lemma {:induction false} MomentWithin(run: seq<Peak>, lo: real, hi: real)
    requires NonNegative(run) && MzWithin(run, lo, hi)
    ensures lo * SumBy(run, Intensity) <= SumBy(run, Moment) <= hi * SumBy(run, Intensity)
  {
    if run != [] {
      var front, last := run[..|run| - 1], run[|run| - 1];
      assert MzWithin(front, lo, hi);
      MomentWithin(front, lo, hi);
      MomentStep(SumBy(front, Moment), SumBy(front, Intensity), last.mz, last.intensity, lo, hi);
    }
  }

  /** The merged peak carries the run's intensity and moment and lies among the run's peaks. */
  lemma MergedConserves(run: seq<Peak>, lo: real, hi: real)
    requires NonNegative(run) && SumBy(run, Intensity) > 0.0 && MzWithin(run, lo, hi)
    ensures Intensity(Merged(run)) == SumBy(run, Intensity) && Moment(Merged(run)) == SumBy(run, Moment)
    ensures lo <= Merged(run).mz <= hi
  {
    MomentWithin(run, lo, hi);
    QuotientWithin(SumBy(run, Moment), SumBy(run, Intensity), lo, hi);
  }

  // ---------------------------------------------------------------- one round

  /** The indices among the first `n` of the order. */
  ghost function Visits(order: seq<Ranked>, n: nat): set<nat>
    requires n <= |order|
  {
    if n == 0 then {} else Visits(order, n - 1) + {order[n - 1].idx}
  }

  /** Every peak not merged yet is among the first `n` of the order. */
  ghost predicate Covers(work: seq<Peak>, order: seq<Ranked>, n: nat)
    requires n <= |order|
  {
    forall k :: 0 <= k < |work| && work[k].intensity > 0.0 ==> k in Visits(order, n)
  }

  lemma CoversLess(work: seq<Peak>, order: seq<Ranked>, n: nat, left: seq<Peak>)
    requires 0 < n <= |order| && Covers(work, order, n) && |left| == |work|
    requires order[n - 1].idx < |work| && left[order[n - 1].idx].intensity <= 0.0
    requires forall k :: 0 <= k < |work| ==> left[k].intensity > 0.0 ==> work[k].intensity > 0.0
    ensures Covers(left, order, n - 1)
  {
  }

  lemma NothingLeft(work: seq<Peak>, order: seq<Ranked>)
    requires NonNegative(work) && Covers(work, order, 0)
    ensures SumBy(work, Intensity) == 0.0 && SumBy(work, Moment) == 0.0
  {
    forall k | 0 <= k < |work| ensures work[k] == Peak(work[k].mz, 0.0) {
    }
    assert work == Silence(work);
    SilentSums();
    SilenceSum(work, Intensity);
    SilenceSum(work, Moment);
  }

  lemma SumCons(p: Peak, rest: seq<Peak>, f: Peak -> real)
    ensures SumBy([p] + rest, f) == f(p) + SumBy(rest, f)
  {
    SumConcat([p], rest, f);
    assert [p][..0] == [];
    assert SumBy([p], f) == SumBy([], f) + f(p);
  }

  /** What the run held is what merging it takes out. */
  lemma RunSum(work: seq<Peak>, idx: nat, d: real, f: Peak -> real)
    requires NonNegative(work) && idx < |work| && work[idx].intensity > 0.0 && SilentIsZero(f)
    ensures var (l, r) := Run(work, idx, d);
            SumBy(work, f) == SumBy(work[l..r], f) + SumBy(MergeOne(work, idx, d).1, f)
  {
    var (l, r) := Run(work, idx, d);
    ZeroedSum(work, l, r, f);
  }

  lemma RunConserves(work: seq<Peak>, idx: nat, d: real, lo: real, hi: real)
    requires NonNegative(work) && idx < |work| && work[idx].intensity > 0.0 && MzWithin(work, lo, hi)
    ensures var (l, r) := Run(work, idx, d);
            var merged := MergeOne(work, idx, d).0;
            && Intensity(merged) == SumBy(work[l..r], Intensity) && Moment(merged) == SumBy(work[l..r], Moment)
            && merged.intensity > 0.0 && lo <= merged.mz <= hi
  {
    var (l, r) := Run(work, idx, d);
    RunIsPositive(work, idx, d);
    MergedConserves(work[l..r], lo, hi);
  }

  /** One merge moves the run's intensity and moment into the merged peak, which lies in the m/z range. */
  lemma MergeOneConserves(work: seq<Peak>, idx: nat, d: real, lo: real, hi: real)
    requires NonNegative(work) && idx < |work| && work[idx].intensity > 0.0 && MzWithin(work, lo, hi)
    ensures var (merged, left) := MergeOne(work, idx, d);
            && Intensity(merged) + SumBy(left, Intensity) == SumBy(work, Intensity)
            && Moment(merged) + SumBy(left, Moment) == SumBy(work, Moment)
            && merged.intensity > 0.0 && lo <= merged.mz <= hi && MzWithin(left, lo, hi)
  {
    RunConserves(work, idx, d, lo, hi);
    SilentSums();
    RunSum(work, idx, d, Intensity);
    RunSum(work, idx, d, Moment);
  }

  /** A round moves all intensity and all moment into the merged peaks. */
  lemma {:induction false} MergeAllConserves(work: seq<Peak>, order: seq<Ranked>, n: nat, d: real, lo: real, hi: real)
    requires n <= |order| && InRange(order, |work|) && NonNegative(work) && Covers(work, order, n)
    requires MzWithin(work, lo, hi)
    ensures SumBy(MergeAll(work, order, n, d), Intensity) == SumBy(work, Intensity)
    ensures SumBy(MergeAll(work, order, n, d), Moment) == SumBy(work, Moment)
    decreases n
  {
    if n == 0 {
      NothingLeft(work, order);
    } else {
      var idx := order[n - 1].idx;
      if work[idx].intensity <= 0.0 {
        CoversLess(work, order, n, work);
        MergeAllConserves(work, order, n - 1, d, lo, hi);
      } else {
        var (merged, left) := MergeOne(work, idx, d);
        CoversLess(work, order, n, left);
        MergeOneConserves(work, idx, d, lo, hi);
        MergeAllConserves(left, order, n - 1, d, lo, hi);
        SumCons(merged, MergeAll(left, order, n - 1, d), Intensity);
        SumCons(merged, MergeAll(left, order, n - 1, d), Moment);
      }
    }
  }

  /** Positive and within the m/z range. */
  ghost predicate IsProper(p: Peak, lo: real, hi: real) {
    p.intensity > 0.0 && lo <= p.mz <= hi
  }

  ghost predicate Proper(ps: seq<Peak>, lo: real, hi: real) {
    forall k :: 0 <= k < |ps| ==> IsProper(ps[k], lo, hi)
  }

  ghost predicate ProperEach(ps: seq<Peak>, lo: real, hi: real) {
    ps == [] || (IsProper(ps[0], lo, hi) && ProperEach(ps[1..], lo, hi))
  }

  lemma ProperCons(p: Peak, rest: seq<Peak>, lo: real, hi: real)
    requires IsProper(p, lo, hi) && ProperEach(rest, lo, hi)
    ensures ProperEach([p] + rest, lo, hi)
  {
    assert ([p] + rest)[1..] == rest;
  }

  lemma {:induction false} EachIsProper(ps: seq<Peak>, lo: real, hi: real)
    requires ProperEach(ps, lo, hi)
    ensures Proper(ps, lo, hi)
  {
    if ps != [] {
      EachIsProper(ps[1..], lo, hi);
      assert ps == [ps[0]] + ps[1..];
    }
  }

  lemma {:induction false} MergedAreProper(work: seq<Peak>, order: seq<Ranked>, n: nat, d: real, lo: real, hi: real)
    requires n <= |order| && InRange(order, |work|) && NonNegative(work) && MzWithin(work, lo, hi)
    ensures ProperEach(MergeAll(work, order, n, d), lo, hi)
    decreases n
  {
    if n == 0 {
    } else {
      var idx := order[n - 1].idx;
      if work[idx].intensity <= 0.0 {
        MergedAreProper(work, order, n - 1, d, lo, hi);
      } else {
        var (merged, left) := MergeOne(work, idx, d);
        MergeOneConserves(work, idx, d, lo, hi);
        MergedAreProper(left, order, n - 1, d, lo, hi);
        ProperCons(merged, MergeAll(left, order, n - 1, d), lo, hi);
      }
    }
  }

  /** Merged peaks have positive intensity and lie in the m/z range. */
  lemma MergeAllIsProper(work: seq<Peak>, order: seq<Ranked>, n: nat, d: real, lo: real, hi: real)
    requires n <= |order| && InRange(order, |work|) && NonNegative(work) && MzWithin(work, lo, hi)
    ensures Proper(MergeAll(work, order, n, d), lo, hi)
  {
    MergedAreProper(work, order, n, d, lo, hi);
    EachIsProper(MergeAll(work, order, n, d), lo, hi);
  }

  /** Two neighbours closer than `d`, neither merged yet. */
  ghost predicate ClosePair(work: seq<Peak>, d: real, k: nat) {
    k + 1 < |work| && work[k + 1].mz - work[k].mz < d && work[k].intensity > 0.0 && work[k + 1].intensity > 0.0
  }

  /** The run around one of two close neighbours holds the other; any run that reaches one of them holds two peaks. */
  lemma RunHoldsTwo(work: seq<Peak>, idx: nat, d: real, k: nat)
    requires NonNegative(work) && idx < |work| && work[idx].intensity > 0.0 && ClosePair(work, d, k)
    requires var (l, r) := Run(work, idx, d); l <= k < r || l <= k + 1 < r
    ensures var (l, r) := Run(work, idx, d); SumBy(work[l..r], Tally) >= 2.0
  {
    var (l, r) := Run(work, idx, d);
    var other := if idx == k then k + 1 else if idx == k + 1 then k else if l <= k < r then k else k + 1;
    assert l <= other < r;
    var i, j := if idx < other then idx else other, if idx < other then other else idx;
    TallyAtLeast(work[l..r], i - l, j - l);
  }

  /** A run that reaches neither of two close neighbours leaves them as they are. */
  lemma RunMissesPair(work: seq<Peak>, idx: nat, d: real, k: nat)
    requires NonNegative(work) && idx < |work| && work[idx].intensity > 0.0 && ClosePair(work, d, k)
    requires var (l, r) := Run(work, idx, d); !(l <= k < r) && !(l <= k + 1 < r)
    ensures ClosePair(MergeOne(work, idx, d).1, d, k)
  {
  }

  lemma RunHoldsOne(work: seq<Peak>, idx: nat, d: real)
    requires NonNegative(work) && idx < |work| && work[idx].intensity > 0.0
    ensures var (l, r) := Run(work, idx, d); SumBy(work[l..r], Tally) >= 1.0
  {
    var (l, r) := Run(work, idx, d);
    TallyAtLeast(work[l..r], idx - l, idx - l);
  }

  /** One merge uses up a peak, or two of them when it breaks up a close pair. */
  lemma MergeOneShrinks(work: seq<Peak>, idx: nat, d: real, k: nat)
    requires NonNegative(work) && idx < |work| && work[idx].intensity > 0.0
    ensures var left := MergeOne(work, idx, d).1;
            && SumBy(left, Tally) + 1.0 <= SumBy(work, Tally)
            && (ClosePair(work, d, k) ==> ClosePair(left, d, k) || SumBy(left, Tally) + 2.0 <= SumBy(work, Tally))
  {
    var (l, r) := Run(work, idx, d);
    SilentSums();
    RunSum(work, idx, d, Tally);
    RunHoldsOne(work, idx, d);
    if ClosePair(work, d, k) {
      if l <= k < r || l <= k + 1 < r {
        RunHoldsTwo(work, idx, d, k);
      } else {
        RunMissesPair(work, idx, d, k);
      }
    }
  }

  /** A round makes at most as many peaks as there were, and fewer when two neighbours were close. */
  lemma {:induction false} MergeAllShrinks(work: seq<Peak>, order: seq<Ranked>, n: nat, d: real, k: nat)
    requires n <= |order| && InRange(order, |work|) && NonNegative(work) && Covers(work, order, n)
    ensures |MergeAll(work, order, n, d)| as real <= SumBy(work, Tally)
    ensures ClosePair(work, d, k) ==> |MergeAll(work, order, n, d)| as real + 1.0 <= SumBy(work, Tally)
    decreases n
  {
    if n == 0 {
      TallyNonNegative(work);
    } else {
      var idx := order[n - 1].idx;
      if work[idx].intensity <= 0.0 {
        CoversLess(work, order, n, work);
        MergeAllShrinks(work, order, n - 1, d, k);
      } else {
        var left := MergeOne(work, idx, d).1;
        CoversLess(work, order, n, left);
        MergeOneShrinks(work, idx, d, k);
        MergeAllShrinks(left, order, n - 1, d, k);
      }
    }
  }

  // ---------------------------------------------------------------- rounds until centroided

  lemma {:induction false} VisitsMembers(order: seq<Ranked>, n: nat, k: nat)
    requires n <= |order|
    ensures k in Visits(order, n) <==> exists m :: 0 <= m < n && order[m].idx == k
  {
    if n > 0 {
      VisitsMembers(order, n - 1, k);
    }
  }

  /** The order names every index, and only indices. */
  lemma OrderIsComplete(peaks: seq<Peak>)
    ensures |Order(peaks)| == |peaks| && InRange(Order(peaks), |peaks|) && Covers(peaks, Order(peaks), |peaks|)
  {
    var ranks, order := Ranks(peaks, |peaks|), Order(peaks);
    SortSorts(ranks, RankKey);
    forall m | 0 <= m < |order| ensures order[m].idx < |peaks| {
      assert order[m] in multiset(order);
      assert order[m] in ranks;
    }
    forall k | 0 <= k < |peaks| ensures k in Visits(order, |order|) {
      assert ranks[k] in multiset(ranks);
      assert ranks[k] in order;
      VisitsMembers(order, |order|, k);
    }
  }

  lemma OrderRanks(peaks: seq<Peak>, m: nat)
    requires m < |Order(peaks)|
    ensures Order(peaks)[m].idx < |peaks| && Order(peaks)[m].intensity == peaks[Order(peaks)[m].idx].intensity
  {
    SortSorts(Ranks(peaks, |peaks|), RankKey);
    assert Order(peaks)[m] in multiset(Order(peaks));
    assert Order(peaks)[m] in Ranks(peaks, |peaks|);
  }

  lemma OrderAscends(peaks: seq<Peak>, m: nat, n: nat)
    requires m <= n < |Order(peaks)|
    ensures Order(peaks)[m].intensity <= Order(peaks)[n].intensity
  {
    SortSorts(Ranks(peaks, |peaks|), RankKey);
    if m < n {
      assert RankKey(Order(peaks)[m]) <= RankKey(Order(peaks)[n]);
    }
  }

  /** Whenever a peak is merged, it is the most intense of those not merged yet. */
  lemma HeaviestFirst(peaks: seq<Peak>, work: seq<Peak>, n: nat, k: nat)
    requires |work| == |peaks| && 0 < n <= |Order(peaks)| && k < |work|
    requires forall m :: 0 <= m < |peaks| ==> work[m] == peaks[m] || work[m].intensity == 0.0
    requires Covers(work, Order(peaks), n)
    requires Order(peaks)[n - 1].idx < |peaks| && work[Order(peaks)[n - 1].idx].intensity > 0.0
    ensures work[k].intensity <= work[Order(peaks)[n - 1].idx].intensity
  {
    if work[k].intensity > 0.0 {
      VisitsMembers(Order(peaks), n, k);
      var m :| 0 <= m < n && Order(peaks)[m].idx == k;
      OrderRanks(peaks, m);
      OrderRanks(peaks, n - 1);
      OrderAscends(peaks, m, n - 1);
    }
  }

  /** One pass of the outer loop. */
  function Round(peaks: seq<Peak>, d: real): seq<Peak>
    requires NonNegative(peaks)
  {
    OrderIsComplete(peaks);
    Sort(MergeAll(peaks, Order(peaks), |peaks|, d), Mz)
  }

  lemma {:induction false} TallyAll(peaks: seq<Peak>)
    requires forall k :: 0 <= k < |peaks| ==> peaks[k].intensity > 0.0
    ensures SumBy(peaks, Tally) == |peaks| as real
  {
    if peaks != [] {
      TallyAll(peaks[..|peaks| - 1]);
    }
  }

  /** While some neighbours are too close, a round makes strictly fewer peaks. */
  lemma RoundShrinks(peaks: seq<Peak>, d: real)
    requires Valid(peaks) && !Centroided(peaks, d)
    ensures |Round(peaks, d)| < |peaks|
  {
    var k :| 0 <= k < |peaks| - 1 && peaks[k + 1].mz - peaks[k].mz < d;
    OrderIsComplete(peaks);
    TallyAll(peaks);
    MergeAllShrinks(peaks, Order(peaks), |peaks|, d, k);
  }

  lemma SortIsProper(ps: seq<Peak>, lo: real, hi: real)
    requires Proper(ps, lo, hi)
    ensures Proper(Sort(ps, Mz), lo, hi) && Ascending(Sort(ps, Mz), Mz)
  {
    var sorted := Sort(ps, Mz);
    SortSorts(ps, Mz);
    forall k | 0 <= k < |sorted| ensures sorted[k].intensity > 0.0 && lo <= sorted[k].mz <= hi {
      assert sorted[k] in multiset(sorted);
      assert sorted[k] in ps;
    }
  }

  /** What every round keeps: valid peaks in the range, the same total intensity, the same total moment. */
  ghost predicate Conserves(before: seq<Peak>, after: seq<Peak>, lo: real, hi: real) {
    && Valid(after) && MzWithin(after, lo, hi)
    && SumBy(after, Intensity) == SumBy(before, Intensity)
    && SumBy(after, Moment) == SumBy(before, Moment)
  }

  lemma RoundConserves(peaks: seq<Peak>, d: real, lo: real, hi: real)
    requires Valid(peaks) && MzWithin(peaks, lo, hi)
    ensures Conserves(peaks, Round(peaks, d), lo, hi)
  {
    OrderIsComplete(peaks);
    var order := Order(peaks);
    var merged := MergeAll(peaks, order, |peaks|, d);
    MergeAllConserves(peaks, order, |peaks|, d, lo, hi);
    MergeAllIsProper(peaks, order, |peaks|, d, lo, hi);
    SortIsProper(merged, lo, hi);
    SortKeepsSum(merged, Mz, Intensity);
    SortKeepsSum(merged, Mz, Moment);
  }

  lemma RoundIsValid(peaks: seq<Peak>, d: real)
    requires Valid(peaks)
    ensures Valid(Round(peaks, d))
  {
    var lo := if peaks == [] then 0.0 else peaks[0].mz;
    var hi := if peaks == [] then 0.0 else peaks[|peaks| - 1].mz;
    MzBetweenEnds(peaks, lo, hi);
    RoundConserves(peaks, d, lo, hi);
  }

  lemma MzBetweenEnds(peaks: seq<Peak>, lo: real, hi: real)
    requires Valid(peaks) && (peaks != [] ==> lo <= peaks[0].mz && peaks[|peaks| - 1].mz <= hi)
    ensures MzWithin(peaks, lo, hi)
  {
    forall k | 0 <= k < |peaks| ensures lo <= peaks[k].mz <= hi {
      assert Mz(peaks[0]) <= Mz(peaks[k]) <= Mz(peaks[|peaks| - 1]);
    }
  }

  /** Rounds until no two neighbours are closer than `d`. */
  function CentroidAll(peaks: seq<Peak>, d: real): seq<Peak>
    requires Valid(peaks)
    decreases |peaks|
  {
    if Centroided(peaks, d) then peaks
    else
      RoundShrinks(peaks, d);
      RoundIsValid(peaks, d);
      CentroidAll(Round(peaks, d), d)
  }

  /**
   The result is sorted, positive and centroided, within the original m/z range, with the
   original total intensity and intensity-weighted m/z; a centroided list comes back as it is.
   */
  lemma {:induction false} CentroidConserves(peaks: seq<Peak>, d: real, lo: real, hi: real)
    requires Valid(peaks) && MzWithin(peaks, lo, hi)
    ensures Conserves(peaks, CentroidAll(peaks, d), lo, hi)
    ensures Centroided(CentroidAll(peaks, d), d)
    ensures |CentroidAll(peaks, d)| <= |peaks|
    ensures CentroidAll(peaks, d) == peaks <==> Centroided(peaks, d)
    decreases |peaks|
  {
    if !Centroided(peaks, d) {
      RoundShrinks(peaks, d);
      RoundConserves(peaks, d, lo, hi);
      CentroidConserves(Round(peaks, d), d, lo, hi);
    }
  }

  // ---------------------------------------------------------------- the loops

  /** One round: the peaks in order, most intense first, each with what lies within `d` of it. */
  method MergeRound(peaks: seq<Peak>, d: real) returns (merged: seq<Peak>)
    requires NonNegative(peaks)
    ensures merged == Round(peaks, d)
  {
    OrderIsComplete(peaks);
    var order := Order(peaks);
    var work := new Peak[|peaks|](k requires 0 <= k < |peaks| => peaks[k]);
    assert work[..] == peaks;
    merged := [];
    ghost var all := MergeAll(peaks, order, |order|, d);
    for n := |order| downto 0
      invariant work.Length == |peaks| && NonNegative(work[..])
      invariant merged + MergeAll(work[..], order, n, d) == all
    {
      merged := Visit(work, order, n, d, merged);
    }
    assert merged + [] == merged;
    merged := Sort(merged, Mz);
  }

  /** One turn: nothing for a peak already merged, otherwise one more merged peak. */
  method Visit(work: array<Peak>, order: seq<Ranked>, n: nat, d: real, merged: seq<Peak>) returns (grown: seq<Peak>)
    requires n < |order| && InRange(order, work.Length) && NonNegative(work[..])
    modifies work
    ensures NonNegative(work[..])
    ensures grown + MergeAll(work[..], order, n, d) == merged + MergeAll(old(work[..]), order, n + 1, d)
  {
    var idx := order[n].idx;
    grown := merged;
    ghost var before := work[..];
    assert before[idx] == work[idx];
    if work[idx].intensity > 0.0 {
      ghost var (peak, after) := MergeOne(before, idx, d);
      AppendCons(merged, peak, MergeAll(after, order, n, d));
      var made := MergeInPlace(work, idx, d);
      grown := merged + [made];
    }
  }

  lemma AppendCons(made: seq<Peak>, p: Peak, rest: seq<Peak>)
    ensures made + ([p] + rest) == (made + [p]) + rest
  {
  }

  /** Merges the run around `idx`, zeroing its intensities in place. */
  method MergeInPlace(work: array<Peak>, idx: nat, d: real) returns (merged: Peak)
    requires NonNegative(work[..]) && idx < work.Length && work[idx].intensity > 0.0
    modifies work
    ensures (merged, work[..]) == MergeOne(old(work[..]), idx, d)
  {
    ghost var before := work[..];
    RunIsPositive(before, idx, d);
    var mz := work[idx].mz;
    var left, right := idx, idx + 1;
    while left > 0 && mz - work[left - 1].mz <= d
      invariant left <= idx && WindowLeft(before, mz, d, left) == WindowLeft(before, mz, d, idx)
    {
      left := left - 1;
    }
    while right < work.Length && work[right].mz - mz <= d
      invariant idx < right <= |before| && WindowRight(before, mz, d, right) == WindowRight(before, mz, d, idx + 1)
    {
      right := right + 1;
    }
    assert (left, right) == Run(before, idx, d);
    assert work[left..right] == before[left..right];
    merged := Merged(work[left..right]);
    SilenceInPlace(work, left, right);
    assert work[..] == Zeroed(before, left, right);
  }

  method SilenceInPlace(work: array<Peak>, left: nat, right: nat)
    requires left <= right <= work.Length
    modifies work
    ensures forall k :: 0 <= k < work.Length ==> work[k] == if left <= k < right then Peak(old(work[k]).mz, 0.0) else old(work[k])
  {
    for p := left to right
      invariant forall k :: 0 <= k < work.Length ==> work[k] == if left <= k < p then Peak(old(work[k]).mz, 0.0) else old(work[k])
    {
      work[p] := Peak(work[p].mz, 0.0);
    }
  }

  /** `centroid`: the loop terminates because every round leaves fewer peaks. */
  method Centroid(peaks: seq<Peak>, d: real) returns (result: seq<Peak>)
    requires Valid(peaks)
    ensures result == CentroidAll(peaks, d)
  {
    result := peaks;
    while !Centroided(result, d)
      invariant Valid(result) && CentroidAll(result, d) == CentroidAll(peaks, d)
      decreases |result|
    {
      RoundShrinks(result, d);
      RoundIsValid(result, d);
      result := MergeRound(result, d);
    }
  }
}
