/**
 `clean` of `src/core/spectral.rs`: drop unacceptable peaks, centroid, drop what lies below the floor, keep the
 most intense peaks, raise to a power, normalize.

 The power is any function on intensities that keeps positive ones positive. What makes a list clean is
 stated once, for every parameter choice; that, and when cleaning again changes nothing, is proved from it.
 */
module Cleaning {
  import opened Common
  import opened RealArithmetic
  import opened StableSort
  import C = Centroid

  type Peak = C.Peak

  datatype Normalize = ByMax | BySum | AsIs

  datatype Params = Params(
    maxMz: real, floor: real, maxPeaks: nat, power: real, raise: real -> real, normalize: Normalize, minDistance: real)

  ghost predicate Valid(peaks: seq<Peak>) {
    C.Valid(peaks)
  }

  // ---------------------------------------------------------------- selecting peaks in order

  function Retain(peaks: seq<Peak>, keep: Peak -> bool): seq<Peak> {
    if peaks == [] then []
    else Retain(peaks[..|peaks| - 1], keep) + if keep(peaks[|peaks| - 1]) then [peaks[|peaks| - 1]] else []
  }

  lemma {:induction false} RetainKeeps(peaks: seq<Peak>, keep: Peak -> bool)
    requires Ascending(peaks, C.Mz)
    ensures Ascending(Retain(peaks, keep), C.Mz)
    ensures forall k :: 0 <= k < |Retain(peaks, keep)| ==> Retain(peaks, keep)[k] in peaks && keep(Retain(peaks, keep)[k])
  {
    if peaks != [] {
      var front, last := peaks[..|peaks| - 1], peaks[|peaks| - 1];
      RetainKeeps(front, keep);
      var r := Retain(front, keep);
      forall k | 0 <= k < |r|
        ensures C.Mz(r[k]) <= C.Mz(last)
      {
        assert r[k] in front;
        var i :| 0 <= i < |front| && front[i] == r[k];
        assert C.Mz(peaks[i]) <= C.Mz(peaks[|peaks| - 1]);
      }
    }
  }

  lemma {:induction false} RetainAll(peaks: seq<Peak>, keep: Peak -> bool)
    requires forall k :: 0 <= k < |peaks| ==> keep(peaks[k])
    ensures Retain(peaks, keep) == peaks
  {
    if peaks != [] {
      RetainAll(peaks[..|peaks| - 1], keep);
      SplitLast(peaks);
    }
  }

  lemma {:induction false} RetainConcat(a: seq<Peak>, b: seq<Peak>, keep: Peak -> bool)
    ensures Retain(a + b, keep) == Retain(a, keep) + Retain(b, keep)
  {
    if b == [] {
      assert a + b == a;
    } else {
      var front, last := b[..|b| - 1], b[|b| - 1];
      RetainConcat(a, front, keep);
      assert (a + b)[..|a + b| - 1] == a + front;
    }
  }

  lemma RetainOne(p: Peak, keep: Peak -> bool)
    ensures Retain([p], keep) == if keep(p) then [p] else []
  {
    assert [p][..0] == [] && Retain([], keep) == [];
  }

  /** A peak is kept as often as it occurs, or not at all. */
  lemma {:induction false} RetainCounts(peaks: seq<Peak>, keep: Peak -> bool, p: Peak)
    ensures multiset(Retain(peaks, keep))[p] == if keep(p) then multiset(peaks)[p] else 0
  {
    if peaks != [] {
      RetainCounts(peaks[..|peaks| - 1], keep, p);
      SplitLast(peaks);
    }
  }

  /** Peaks picked by ascending positions. */
  function Pick(peaks: seq<Peak>, at: seq<nat>): (r: seq<Peak>)
    requires forall k :: 0 <= k < |at| ==> at[k] < |peaks|
    ensures |r| == |at| && forall k :: 0 <= k < |r| ==> r[k] == peaks[at[k]]
  {
    seq(|at|, k requires 0 <= k < |at| => peaks[at[k]])
  }

  ghost predicate Increasing(at: seq<nat>) {
    forall i, j :: 0 <= i < j < |at| ==> at[i] < at[j]
  }

  lemma {:induction false} GapAcross(peaks: seq<Peak>, d: real, i: nat, j: nat)
    requires Ascending(peaks, C.Mz) && C.Centroided(peaks, d) && i < j < |peaks|
    ensures peaks[j].mz - peaks[i].mz >= d
  {
    assert C.Mz(peaks[i]) <= C.Mz(peaks[j - 1]);
    assert peaks[(j - 1) + 1].mz - peaks[j - 1].mz >= d;
  }

  lemma PickKeeps(peaks: seq<Peak>, at: seq<nat>, d: real)
    requires Ascending(peaks, C.Mz) && Increasing(at) && forall k :: 0 <= k < |at| ==> at[k] < |peaks|
    ensures Ascending(Pick(peaks, at), C.Mz)
    ensures C.Centroided(peaks, d) ==> C.Centroided(Pick(peaks, at), d)
  {
    var r := Pick(peaks, at);
    forall i, j | 0 <= i < j < |r|
      ensures C.Mz(r[i]) <= C.Mz(r[j])
    {
      assert C.Mz(peaks[at[i]]) <= C.Mz(peaks[at[j]]);
    }
    if C.Centroided(peaks, d) {
      forall k | 0 <= k < |r| - 1
        ensures r[k + 1].mz - r[k].mz >= d
      {
        GapAcross(peaks, d, at[k], at[k + 1]);
      }
    }
  }

  // ---------------------------------------------------------------- the most intense peaks

  function IndexKey(r: C.Ranked): real {
    r.idx as real
  }

  /** The tail of the stable ascending order, back in index order. */
  function KeptRanks(peaks: seq<Peak>, k: nat): (r: seq<C.Ranked>)
    requires k <= |peaks|
    ensures |r| == k
  {
    C.OrderIsComplete(peaks);
    Sort(C.Order(peaks)[|peaks| - k..], IndexKey)
  }

  function Indices(ranks: seq<C.Ranked>): (at: seq<nat>)
    ensures |at| == |ranks| && forall k :: 0 <= k < |at| ==> at[k] == ranks[k].idx
  {
    seq(|ranks|, k requires 0 <= k < |ranks| => ranks[k].idx)
  }

  ghost predicate TieOrdered(order: seq<C.Ranked>) {
    forall m, n :: 0 <= m < n < |order| && order[m].intensity == order[n].intensity ==> order[m].idx < order[n].idx
  }

  ghost predicate Below(order: seq<C.Ranked>, n: nat) {
    forall m :: 0 <= m < |order| ==> order[m].idx < n
  }

  lemma {:induction false} InsertMembers(order: seq<C.Ranked>, x: C.Ranked)
    ensures forall m :: 0 <= m < |order| + 1 ==> Insert(order, x, C.RankKey)[m] in order || Insert(order, x, C.RankKey)[m] == x
  {
    if order != [] && C.RankKey(order[|order| - 1]) > C.RankKey(x) {
      InsertMembers(order[..|order| - 1], x);
    }
  }

  lemma InsertIsBelow(order: seq<C.Ranked>, x: C.Ranked)
    requires Below(order, x.idx)
    ensures Below(Insert(order, x, C.RankKey), x.idx + 1)
  {
    InsertMembers(order, x);
  }

  lemma TiesSnoc(order: seq<C.Ranked>, last: C.Ranked)
    requires TieOrdered(order)
    requires forall m :: 0 <= m < |order| && order[m].intensity == last.intensity ==> order[m].idx < last.idx
    ensures TieOrdered(order + [last])
  {
  }

  /** What is inserted below the last of an order ties with it nowhere new. */
  lemma LastStaysLast(order: seq<C.Ranked>, x: C.Ranked, last: C.Ranked)
    requires TieOrdered(order + [last]) && C.RankKey(last) > C.RankKey(x)
    ensures forall m :: 0 <= m < |order| + 1 && Insert(order, x, C.RankKey)[m].intensity == last.intensity
                        ==> Insert(order, x, C.RankKey)[m].idx < last.idx
  {
    var r := Insert(order, x, C.RankKey);
    InsertMembers(order, x);
    forall m | 0 <= m < |r| && r[m].intensity == last.intensity
      ensures r[m].idx < last.idx
    {
      var i :| 0 <= i < |order| && order[i] == r[m];
      assert (order + [last])[i].idx < (order + [last])[|order|].idx;
    }
  }

  lemma {:induction false} InsertKeepsTies(order: seq<C.Ranked>, x: C.Ranked)
    requires TieOrdered(order) && Below(order, x.idx)
    ensures TieOrdered(Insert(order, x, C.RankKey))
  {
    if order != [] && C.RankKey(order[|order| - 1]) > C.RankKey(x) {
      var front, last := order[..|order| - 1], order[|order| - 1];
      assert order == front + [last];
      InsertKeepsTies(front, x);
      LastStaysLast(front, x, last);
      TiesSnoc(Insert(front, x, C.RankKey), last);
    } else {
      TiesSnoc(order, x);
    }
  }

  lemma NextTies(ranks: seq<C.Ranked>, front: seq<C.Ranked>, last: C.Ranked)
    requires ranks == front + [last] && TieOrdered(Sort(front, C.RankKey)) && Below(Sort(front, C.RankKey), last.idx)
    ensures TieOrdered(Sort(ranks, C.RankKey)) && Below(Sort(ranks, C.RankKey), last.idx + 1)
  {
    assert ranks[..|front|] == front;
    InsertKeepsTies(Sort(front, C.RankKey), last);
    InsertIsBelow(Sort(front, C.RankKey), last);
  }

  lemma {:induction false} SortBreaksTies(ranks: seq<C.Ranked>)
    requires forall k :: 0 <= k < |ranks| ==> ranks[k].idx == k
    ensures TieOrdered(Sort(ranks, C.RankKey)) && Below(Sort(ranks, C.RankKey), |ranks|)
  {
    if ranks == [] {
      assert Sort(ranks, C.RankKey) == [];
    } else {
      var front, last := ranks[..|ranks| - 1], ranks[|ranks| - 1];
      SortBreaksTies(front);
      SplitLast(ranks);
      NextTies(ranks, front, last);
    }
  }

  lemma OrderBreaksTies(peaks: seq<Peak>, n: nat)
    requires n <= |peaks|
    ensures TieOrdered(Sort(C.Ranks(peaks, n), C.RankKey)) && Below(Sort(C.Ranks(peaks, n), C.RankKey), n)
  {
    SortBreaksTies(C.Ranks(peaks, n));
  }

  /** Positions never repeat in the order. */
  lemma OrderIsInjective(peaks: seq<Peak>, m: nat, n: nat)
    requires m < n < |C.Order(peaks)|
    ensures C.Order(peaks)[m].idx != C.Order(peaks)[n].idx
  {
    OrderBreaksTies(peaks, |peaks|);
    C.OrderRanks(peaks, m);
    C.OrderRanks(peaks, n);
  }

  ghost predicate Injective(ranks: seq<C.Ranked>) {
    forall m, n :: 0 <= m < n < |ranks| ==> ranks[m].idx != ranks[n].idx
  }

  lemma {:induction false} InsertStaysInjective(ranks: seq<C.Ranked>, x: C.Ranked)
    requires Injective(ranks) && forall m :: 0 <= m < |ranks| ==> ranks[m].idx != x.idx
    ensures Injective(Insert(ranks, x, IndexKey))
    ensures forall m :: 0 <= m < |ranks| + 1 ==> Insert(ranks, x, IndexKey)[m] in ranks || Insert(ranks, x, IndexKey)[m] == x
  {
    if ranks != [] && IndexKey(ranks[|ranks| - 1]) > IndexKey(x) {
      var front, last := ranks[..|ranks| - 1], ranks[|ranks| - 1];
      InsertStaysInjective(front, x);
      var r := Insert(front, x, IndexKey);
      forall m | 0 <= m < |r|
        ensures r[m].idx != last.idx
      {
        if r[m] in front {
          var i :| 0 <= i < |front| && front[i] == r[m];
        }
      }
    }
  }

  lemma {:induction false} SortStaysInjective(ranks: seq<C.Ranked>)
    requires Injective(ranks)
    ensures Injective(Sort(ranks, IndexKey))
  {
    if ranks != [] {
      var front, last := ranks[..|ranks| - 1], ranks[|ranks| - 1];
      SortStaysInjective(front);
      SortSorts(front, IndexKey);
      forall m | 0 <= m < |Sort(front, IndexKey)|
        ensures Sort(front, IndexKey)[m].idx != last.idx
      {
        assert Sort(front, IndexKey)[m] in multiset(Sort(front, IndexKey));
        assert Sort(front, IndexKey)[m] in front;
      }
      InsertStaysInjective(Sort(front, IndexKey), last);
    }
  }

  lemma KeptIncrease(peaks: seq<Peak>, k: nat)
    requires k <= |peaks|
    ensures Increasing(Indices(KeptRanks(peaks, k)))
    ensures forall m :: 0 <= m < k ==> KeptRanks(peaks, k)[m].idx < |peaks|
  {
    C.OrderIsComplete(peaks);
    var tail := C.Order(peaks)[|peaks| - k..];
    forall m, n | 0 <= m < n < |tail|
      ensures tail[m].idx != tail[n].idx
    {
      OrderIsInjective(peaks, |peaks| - k + m, |peaks| - k + n);
    }
    SortStaysInjective(tail);
    SortSorts(tail, IndexKey);
    var kept := KeptRanks(peaks, k);
    forall m, n | 0 <= m < n < k
      ensures kept[m].idx < kept[n].idx
    {
      assert IndexKey(kept[m]) <= IndexKey(kept[n]);
    }
    forall m | 0 <= m < k
      ensures kept[m].idx < |peaks|
    {
      assert kept[m] in multiset(kept);
      assert kept[m] in tail;
    }
  }

  function MostIntense(peaks: seq<Peak>, k: nat): seq<Peak> {
    if k == 0 || |peaks| <= k then peaks
    else
      KeptIncrease(peaks, k);
      Pick(peaks, Indices(KeptRanks(peaks, k)))
  }

  lemma SortMembers(ranks: seq<C.Ranked>, r: C.Ranked)
    ensures r in Sort(ranks, IndexKey) <==> r in ranks
  {
    SortSorts(ranks, IndexKey);
    assert r in ranks <==> r in multiset(Sort(ranks, IndexKey));
  }

  lemma KeptPosition(peaks: seq<Peak>, k: nat, i: nat) returns (m: nat)
    requires k <= |peaks| && i in Indices(KeptRanks(peaks, k))
    ensures |peaks| - k <= m < |peaks| == |C.Order(peaks)| && C.Order(peaks)[m].idx == i
  {
    C.OrderIsComplete(peaks);
    var kept, tail := KeptRanks(peaks, k), C.Order(peaks)[|peaks| - k..];
    var a :| 0 <= a < k && Indices(kept)[a] == i;
    SortMembers(tail, kept[a]);
    var t :| 0 <= t < |tail| && tail[t] == kept[a];
    m := |peaks| - k + t;
  }

  lemma TailIsKept(peaks: seq<Peak>, k: nat, n: nat)
    requires k <= |peaks| && |peaks| - k <= n < |C.Order(peaks)| && |C.Order(peaks)| == |peaks|
    ensures C.Order(peaks)[n].idx in Indices(KeptRanks(peaks, k))
  {
    var kept, tail := KeptRanks(peaks, k), C.Order(peaks)[|peaks| - k..];
    assert C.Order(peaks)[n] == tail[n - (|peaks| - k)];
    SortMembers(tail, C.Order(peaks)[n]);
    var b :| 0 <= b < |kept| && kept[b] == C.Order(peaks)[n];
    assert Indices(kept)[b] == kept[b].idx;
  }

  lemma DroppedPosition(peaks: seq<Peak>, k: nat, j: nat) returns (n: nat)
    requires k <= |peaks| && j < |peaks| && j !in Indices(KeptRanks(peaks, k))
    ensures n < |peaks| - k && |C.Order(peaks)| == |peaks| && C.Order(peaks)[n].idx == j
  {
    var order, ranks := C.Order(peaks), C.Ranks(peaks, |peaks|);
    C.OrderIsComplete(peaks);
    SortSorts(ranks, C.RankKey);
    assert ranks[j] in multiset(ranks);
    assert ranks[j] in order;
    n :| 0 <= n < |order| && order[n] == ranks[j];
    if n >= |peaks| - k {
      TailIsKept(peaks, k, n);
    }
  }

  /** A kept peak outranks every dropped one: more intense, or as intense and further up in m/z. */
  lemma KeptOutranksDropped(peaks: seq<Peak>, k: nat, i: nat, j: nat)
    requires k < |peaks| && i < |peaks| && j < |peaks|
    requires i in Indices(KeptRanks(peaks, k)) && j !in Indices(KeptRanks(peaks, k))
    ensures peaks[j].intensity < peaks[i].intensity || (peaks[j].intensity == peaks[i].intensity && j < i)
  {
    var m := KeptPosition(peaks, k, i);
    var n := DroppedPosition(peaks, k, j);
    C.OrderRanks(peaks, n);
    C.OrderRanks(peaks, m);
    C.OrderAscends(peaks, n, m);
    OrderBreaksTies(peaks, |peaks|);
  }

  ghost predicate Outranks(peaks: seq<Peak>, i: nat, j: nat)
    requires i < |peaks| && j < |peaks|
  {
    peaks[j].intensity < peaks[i].intensity || (peaks[j].intensity == peaks[i].intensity && j < i)
  }

  /** The most intense peaks, in order: `k` of them or, for 0 or too many, all; each kept one outranks each dropped one. */
  lemma MostIntenseIs(peaks: seq<Peak>, k: nat) returns (at: seq<nat>)
    ensures Increasing(at) && |at| == (if k == 0 || k >= |peaks| then |peaks| else k)
    ensures (forall m :: 0 <= m < |at| ==> at[m] < |peaks|) && MostIntense(peaks, k) == Pick(peaks, at)
    ensures forall i, j :: i in at && 0 <= j < |peaks| && j !in at ==> i < |peaks| && Outranks(peaks, i, j)
  {
    if k == 0 || |peaks| <= k {
      at := seq(|peaks|, m => m);
      assert Pick(peaks, at) == peaks;
      assert forall j :: 0 <= j < |peaks| ==> at[j] == j;
    } else {
      at := Indices(KeptRanks(peaks, k));
      KeptIncrease(peaks, k);
      forall i, j | i in at && 0 <= j < |peaks| && j !in at
        ensures i < |peaks| && Outranks(peaks, i, j)
      {
        var m :| 0 <= m < |at| && at[m] == i;
        KeptOutranksDropped(peaks, k, i, j);
      }
    }
  }

  lemma PickedPeaks(peaks: seq<Peak>, k: nat, d: real)
    requires Valid(peaks)
    ensures Valid(MostIntense(peaks, k)) && (C.Centroided(peaks, d) ==> C.Centroided(MostIntense(peaks, k), d))
    ensures k > 0 ==> |MostIntense(peaks, k)| <= k
    ensures forall m :: 0 <= m < |MostIntense(peaks, k)| ==> MostIntense(peaks, k)[m] in peaks
  {
    if k != 0 && |peaks| > k {
      KeptIncrease(peaks, k);
      PickKeeps(peaks, Indices(KeptRanks(peaks, k)), d);
    }
  }

  // ---------------------------------------------------------------- the whole chain

  function Highest(peaks: seq<Peak>): Option<real> {
    if peaks == [] then None
    else match Highest(peaks[..|peaks| - 1])
      case None => Some(peaks[|peaks| - 1].intensity)
      case Some(h) => Some(if peaks[|peaks| - 1].intensity > h then peaks[|peaks| - 1].intensity else h)
  }

  ghost predicate IsHighest(peaks: seq<Peak>, h: real) {
    (exists k :: 0 <= k < |peaks| && peaks[k].intensity == h) && forall k :: 0 <= k < |peaks| ==> peaks[k].intensity <= h
  }

  lemma {:induction false} HighestIs(peaks: seq<Peak>)
    ensures Highest(peaks).Some? <==> peaks != []
    ensures Highest(peaks).Some? ==> IsHighest(peaks, Highest(peaks).value)
  {
    if peaks != [] {
      var front, h := peaks[..|peaks| - 1], Highest(peaks).value;
      HighestIs(front);
      if Highest(front).Some? && h == Highest(front).value {
        var k :| 0 <= k < |front| && front[k].intensity == h;
        assert peaks[k].intensity == h;
      } else {
        assert peaks[|peaks| - 1].intensity == h;
      }
    }
  }

  predicate Acceptable(p: Peak, maxMz: real) {
    p.mz > 0.0 && p.intensity > 0.0 && p.mz <= maxMz
  }

  function Threshold(floor: real, highest: real): real {
    floor * highest
  }

  function AtLeast(threshold: real): Peak -> bool {
    (p: Peak) => p.intensity >= threshold
  }

  function AcceptUpTo(maxMz: real): Peak -> bool {
    (p: Peak) => Acceptable(p, maxMz)
  }

  function DropFloor(peaks: seq<Peak>, floor: real): seq<Peak> {
    match Highest(peaks)
    case None => peaks
    case Some(h) => Retain(peaks, AtLeast(Threshold(floor, h)))
  }

  function Merge(peaks: seq<Peak>, d: real): seq<Peak>
    requires Valid(peaks)
  {
    if d > 0.0 then C.CentroidAll(peaks, d) else peaks
  }

  function AcceptedPeaks(peaks: seq<Peak>, maxMz: real): seq<Peak> {
    Retain(peaks, AcceptUpTo(maxMz))
  }

  lemma AcceptedAreValid(peaks: seq<Peak>, maxMz: real)
    requires Ascending(peaks, C.Mz)
    ensures Valid(AcceptedPeaks(peaks, maxMz)) && AllAcceptable(AcceptedPeaks(peaks, maxMz), maxMz)
  {
    RetainKeeps(peaks, AcceptUpTo(maxMz));
  }

  ghost predicate AllAcceptable(peaks: seq<Peak>, maxMz: real) {
    forall k :: 0 <= k < |peaks| ==> Acceptable(peaks[k], maxMz)
  }

  /** Steps 1 to 5. */
  function Selected(peaks: seq<Peak>, c: Params): seq<Peak>
    requires Ascending(peaks, C.Mz)
  {
    AcceptedAreValid(peaks, c.maxMz);
    MostIntense(DropFloor(Merge(AcceptedPeaks(peaks, c.maxMz), c.minDistance), c.floor), c.maxPeaks)
  }

  ghost predicate ProperParams(c: Params) {
    0.0 <= c.floor <= 1.0 && c.power > 0.0 && c.minDistance >= 0.0
  }

  /** Nothing but the floor can drop a peak of such a list. */
  ghost predicate Settled(peaks: seq<Peak>, c: Params) {
    Valid(peaks) && AllAcceptable(peaks, c.maxMz) &&
    (c.minDistance > 0.0 ==> C.Centroided(peaks, c.minDistance)) &&
    (c.maxPeaks > 0 ==> |peaks| <= c.maxPeaks)
  }

  /** What the selection promises of its result. */
  ghost predicate Clean(peaks: seq<Peak>, c: Params) {
    Settled(peaks, c) && AboveFloor(peaks, c.floor)
  }

  ghost predicate AboveFloor(peaks: seq<Peak>, floor: real) {
    forall k, m :: 0 <= k < |peaks| && 0 <= m < |peaks| ==> peaks[k].intensity >= Threshold(floor, peaks[m].intensity)
  }

  lemma MergeIsClean(peaks: seq<Peak>, maxMz: real, d: real)
    requires Valid(peaks) && AllAcceptable(peaks, maxMz)
    ensures Valid(Merge(peaks, d)) && AllAcceptable(Merge(peaks, d), maxMz)
    ensures d > 0.0 ==> C.Centroided(Merge(peaks, d), d)
  {
    if d > 0.0 && peaks != [] {
      var lo, hi := peaks[0].mz, peaks[|peaks| - 1].mz;
      C.MzBetweenEnds(peaks, lo, hi);
      C.CentroidConserves(peaks, d, lo, hi);
      forall k | 0 <= k < |Merge(peaks, d)|
        ensures Acceptable(Merge(peaks, d)[k], maxMz)
      {
        assert lo <= Merge(peaks, d)[k].mz <= hi;
      }
    }
  }

  lemma FloorMonotone(floor: real, a: real, b: real)
    requires floor >= 0.0 && a <= b
    ensures Threshold(floor, a) <= Threshold(floor, b)
  {
    assert floor * (b - a) >= 0.0;
    assert floor * (b - a) == floor * b - floor * a;
  }

  /** A sub-list of a list above its floor is above its own. */
  lemma StillAboveFloor(peaks: seq<Peak>, r: seq<Peak>, floor: real)
    requires AboveFloor(peaks, floor) && forall k :: 0 <= k < |r| ==> r[k] in peaks
    ensures AboveFloor(r, floor)
  {
    forall k, m | 0 <= k < |r| && 0 <= m < |r|
      ensures r[k].intensity >= Threshold(floor, r[m].intensity)
    {
      var i :| 0 <= i < |peaks| && peaks[i] == r[k];
      var j :| 0 <= j < |peaks| && peaks[j] == r[m];
    }
  }

  /** The last kept peak is one of the peaks. */
  lemma {:induction false} LastRetained(peaks: seq<Peak>, keep: Peak -> bool) returns (i: nat)
    requires Retain(peaks, keep) != []
    ensures i < |peaks| && peaks[i] == Retain(peaks, keep)[|Retain(peaks, keep)| - 1]
  {
    if keep(peaks[|peaks| - 1]) {
      i := |peaks| - 1;
    } else {
      i := LastRetained(peaks[..|peaks| - 1], keep);
    }
  }

  lemma CentroidedSnoc(r: seq<Peak>, p: Peak, d: real)
    requires C.Centroided(r, d) && (r != [] ==> p.mz - r[|r| - 1].mz >= d)
    ensures C.Centroided(r + [p], d)
  {
  }

  lemma {:induction false} RetainGaps(peaks: seq<Peak>, keep: Peak -> bool, d: real)
    requires Ascending(peaks, C.Mz) && C.Centroided(peaks, d)
    ensures C.Centroided(Retain(peaks, keep), d)
  {
    if peaks != [] {
      var front, last := peaks[..|peaks| - 1], peaks[|peaks| - 1];
      RetainGaps(front, keep, d);
      var r := Retain(front, keep);
      if keep(last) {
        if r != [] {
          var i := LastRetained(front, keep);
          GapAcross(peaks, d, i, |peaks| - 1);
        }
        CentroidedSnoc(r, last, d);
      }
    }
  }

  lemma FloorIsClean(peaks: seq<Peak>, maxMz: real, d: real, floor: real)
    requires Valid(peaks) && AllAcceptable(peaks, maxMz) && floor >= 0.0 && (d > 0.0 ==> C.Centroided(peaks, d))
    ensures var r := DropFloor(peaks, floor);
            Valid(r) && AllAcceptable(r, maxMz) && AboveFloor(r, floor) && (d > 0.0 ==> C.Centroided(r, d))
  {
    HighestIs(peaks);
    if peaks != [] {
      var h := Highest(peaks).value;
      var keep := AtLeast(Threshold(floor, h));
      RetainKeeps(peaks, keep);
      if d > 0.0 {
        RetainGaps(peaks, keep, d);
      }
      var r := Retain(peaks, keep);
      forall k, m | 0 <= k < |r| && 0 <= m < |r|
        ensures r[k].intensity >= Threshold(floor, r[m].intensity)
      {
        assert r[m] in peaks && keep(r[k]);
        FloorMonotone(floor, r[m].intensity, h);
      }
    }
  }

  /** The selection is clean. */
  lemma SelectedIsClean(peaks: seq<Peak>, c: Params)
    requires Ascending(peaks, C.Mz) && ProperParams(c)
    ensures Clean(Selected(peaks, c), c)
  {
    AcceptedAreValid(peaks, c.maxMz);
    var merged := Merge(AcceptedPeaks(peaks, c.maxMz), c.minDistance);
    MergeIsClean(AcceptedPeaks(peaks, c.maxMz), c.maxMz, c.minDistance);
    FloorIsClean(merged, c.maxMz, c.minDistance, c.floor);
    var loud := DropFloor(merged, c.floor);
    PickedPeaks(loud, c.maxPeaks, c.minDistance);
    StillAboveFloor(loud, MostIntense(loud, c.maxPeaks), c.floor);
  }

  lemma FloorDropsNothing(peaks: seq<Peak>, floor: real)
    requires AboveFloor(peaks, floor)
    ensures DropFloor(peaks, floor) == peaks
  {
    HighestIs(peaks);
    if peaks != [] {
      var h := Highest(peaks).value;
      var m :| 0 <= m < |peaks| && peaks[m].intensity == h;
      forall k | 0 <= k < |peaks|
        ensures AtLeast(Threshold(floor, h))(peaks[k])
      {
        assert peaks[k].intensity >= Threshold(floor, peaks[m].intensity);
      }
      RetainAll(peaks, AtLeast(Threshold(floor, h)));
    }
  }

  /** Reaching the floor set by the highest peak is reaching it for every peak. */
  ghost predicate Reaches(peaks: seq<Peak>, floor: real, p: Peak) {
    forall q :: q in peaks ==> p.intensity >= Threshold(floor, q.intensity)
  }

  lemma ReachesHighest(peaks: seq<Peak>, floor: real, h: real, p: Peak)
    requires floor >= 0.0 && IsHighest(peaks, h)
    ensures Reaches(peaks, floor, p) <==> p.intensity >= Threshold(floor, h)
  {
    var m :| 0 <= m < |peaks| && peaks[m].intensity == h;
    assert peaks[m] in peaks;
    if p.intensity >= Threshold(floor, h) {
      forall q | q in peaks
        ensures p.intensity >= Threshold(floor, q.intensity)
      {
        var k :| 0 <= k < |peaks| && peaks[k] == q;
        FloorMonotone(floor, q.intensity, h);
      }
    }
  }

  /** The floor drops exactly what does not reach it. */
  lemma FloorCounts(peaks: seq<Peak>, floor: real, p: Peak)
    requires floor >= 0.0
    ensures multiset(DropFloor(peaks, floor))[p] == if Reaches(peaks, floor, p) then multiset(peaks)[p] else 0
  {
    HighestIs(peaks);
    if peaks != [] {
      var h := Highest(peaks).value;
      RetainCounts(peaks, AtLeast(Threshold(floor, h)), p);
      ReachesHighest(peaks, floor, h, p);
    }
  }

  lemma AcceptedCounts(peaks: seq<Peak>, maxMz: real, p: Peak)
    ensures multiset(AcceptedPeaks(peaks, maxMz))[p] == if Acceptable(p, maxMz) then multiset(peaks)[p] else 0
  {
    RetainCounts(peaks, AcceptUpTo(maxMz), p);
  }

  /** Of positive m/z and intensity, the m/z at most the limit. */
  ghost predicate MayStay(p: Peak, maxMz: real) {
    0.0 < p.mz <= maxMz && 0.0 < p.intensity
  }

  /** One that may stay, and at least the floor times the intensity of every other that may. */
  ghost predicate Belongs(peaks: seq<Peak>, c: Params, p: Peak) {
    MayStay(p, c.maxMz) && forall q :: q in peaks && MayStay(q, c.maxMz) ==> p.intensity >= c.floor * q.intensity
  }

  ghost predicate AcceptedAndLoud(peaks: seq<Peak>, c: Params, p: Peak) {
    Acceptable(p, c.maxMz) && forall q :: q in peaks && Acceptable(q, c.maxMz) ==> p.intensity >= Threshold(c.floor, q.intensity)
  }

  lemma SelectedAreLoud(peaks: seq<Peak>, c: Params, p: Peak)
    requires Ascending(peaks, C.Mz) && ProperParams(c) && c.minDistance == 0.0 && c.maxPeaks == 0
    ensures multiset(Selected(peaks, c))[p] == if AcceptedAndLoud(peaks, c, p) then multiset(peaks)[p] else 0
  {
    var accepted := AcceptedPeaks(peaks, c.maxMz);
    AcceptedAreValid(peaks, c.maxMz);
    AcceptedCounts(peaks, c.maxMz, p);
    FloorCounts(accepted, c.floor, p);
    AcceptedMembers(peaks, c.maxMz);
  }

  lemma BelongsIs(peaks: seq<Peak>, c: Params, p: Peak)
    ensures Belongs(peaks, c, p) <==> AcceptedAndLoud(peaks, c, p)
  {
    forall q | q in peaks
      ensures MayStay(q, c.maxMz) <==> Acceptable(q, c.maxMz)
      ensures c.floor * q.intensity == Threshold(c.floor, q.intensity)
    {
    }
  }

  /** With no centroiding and no limit, the peaks selected are exactly those that belong, as often as they occur. */
  lemma SelectedBelongs(peaks: seq<Peak>, c: Params, p: Peak)
    requires Ascending(peaks, C.Mz) && ProperParams(c) && c.minDistance == 0.0 && c.maxPeaks == 0
    ensures multiset(Selected(peaks, c))[p] == if Belongs(peaks, c, p) then multiset(peaks)[p] else 0
  {
    SelectedAreLoud(peaks, c, p);
    BelongsIs(peaks, c, p);
  }

  lemma AcceptedMembers(peaks: seq<Peak>, maxMz: real)
    ensures forall q :: q in AcceptedPeaks(peaks, maxMz) <==> q in peaks && Acceptable(q, maxMz)
  {
    forall q: Peak
      ensures q in AcceptedPeaks(peaks, maxMz) <==> q in peaks && Acceptable(q, maxMz)
    {
      AcceptedCounts(peaks, maxMz, q);
      assert q in multiset(peaks) <==> q in peaks;
      assert q in multiset(AcceptedPeaks(peaks, maxMz)) <==> q in AcceptedPeaks(peaks, maxMz);
    }
  }

  /** In general: the acceptable peaks are merged, those that reach the floor are loud, and the most intense of them are selected. */
  lemma SelectedIs(peaks: seq<Peak>, c: Params, p: Peak) returns (loud: seq<Peak>, at: seq<nat>)
    requires Ascending(peaks, C.Mz) && ProperParams(c)
    ensures Valid(AcceptedPeaks(peaks, c.maxMz))
    ensures var merged := if c.minDistance > 0.0 then C.CentroidAll(AcceptedPeaks(peaks, c.maxMz), c.minDistance)
                          else AcceptedPeaks(peaks, c.maxMz);
            multiset(loud)[p] == if Reaches(merged, c.floor, p) then multiset(merged)[p] else 0
    ensures Increasing(at) && |at| == (if c.maxPeaks == 0 || c.maxPeaks >= |loud| then |loud| else c.maxPeaks)
    ensures (forall m :: 0 <= m < |at| ==> at[m] < |loud|) && Selected(peaks, c) == Pick(loud, at)
    ensures forall i, j :: i in at && 0 <= j < |loud| && j !in at ==> i < |loud| && Outranks(loud, i, j)
  {
    AcceptedAreValid(peaks, c.maxMz);
    var merged := Merge(AcceptedPeaks(peaks, c.maxMz), c.minDistance);
    loud := DropFloor(merged, c.floor);
    FloorCounts(merged, c.floor, p);
    at := MostIntenseIs(loud, c.maxPeaks);
  }

  lemma {:induction false} RetainShort(peaks: seq<Peak>, keep: Peak -> bool)
    ensures |Retain(peaks, keep)| <= |peaks| && (|Retain(peaks, keep)| == |peaks| ==> Retain(peaks, keep) == peaks)
  {
    if peaks != [] {
      RetainShort(peaks[..|peaks| - 1], keep);
      SplitLast(peaks);
    }
  }

  lemma FloorShort(peaks: seq<Peak>, floor: real)
    ensures |DropFloor(peaks, floor)| <= |peaks| && (|DropFloor(peaks, floor)| == |peaks| ==> DropFloor(peaks, floor) == peaks)
  {
    HighestIs(peaks);
    if peaks != [] {
      RetainShort(peaks, AtLeast(Threshold(floor, Highest(peaks).value)));
    }
  }

  lemma SettledIsSelected(peaks: seq<Peak>, c: Params)
    requires Settled(peaks, c)
    ensures Ascending(peaks, C.Mz) && Selected(peaks, c) == DropFloor(peaks, c.floor)
  {
    RetainAll(peaks, AcceptUpTo(c.maxMz));
    assert Merge(peaks, c.minDistance) == peaks;
    FloorShort(peaks, c.floor);
  }

  /** A settled list keeps all its peaks exactly when it is above its own floor. */
  lemma SettledIsSelectedIff(peaks: seq<Peak>, c: Params)
    requires Settled(peaks, c) && ProperParams(c)
    ensures Ascending(peaks, C.Mz) && (|Selected(peaks, c)| == |peaks| <==> AboveFloor(peaks, c.floor))
    ensures AboveFloor(peaks, c.floor) ==> Selected(peaks, c) == peaks
  {
    SettledIsSelected(peaks, c);
    FloorShort(peaks, c.floor);
    FloorIsClean(peaks, c.maxMz, c.minDistance, c.floor);
    if AboveFloor(peaks, c.floor) {
      FloorDropsNothing(peaks, c.floor);
    }
  }

  /** A clean list is selected whole. */
  lemma CleanIsSelected(peaks: seq<Peak>, c: Params)
    requires Clean(peaks, c)
    ensures Ascending(peaks, C.Mz) && Selected(peaks, c) == peaks
  {
    SettledIsSelected(peaks, c);
    FloorDropsNothing(peaks, c.floor);
  }

  // ---------------------------------------------------------------- power and normalization

  function MapIntensity(peaks: seq<Peak>, f: real -> real): (r: seq<Peak>)
    ensures |r| == |peaks| && forall k :: 0 <= k < |r| ==> r[k] == C.Peak(peaks[k].mz, f(peaks[k].intensity))
  {
    seq(|peaks|, k requires 0 <= k < |peaks| => C.Peak(peaks[k].mz, f(peaks[k].intensity)))
  }

  function Divided(peaks: seq<Peak>, s: real): (r: seq<Peak>)
    requires s != 0.0
    ensures |r| == |peaks| && forall k :: 0 <= k < |r| ==> r[k] == C.Peak(peaks[k].mz, peaks[k].intensity / s)
  {
    seq(|peaks|, k requires 0 <= k < |peaks| => C.Peak(peaks[k].mz, peaks[k].intensity / s))
  }

  function ScaleOf(peaks: seq<Peak>, n: Normalize): Option<real> {
    match n
    case ByMax => Highest(peaks)
    case BySum => Some(SumBy(peaks, C.Intensity))
    case AsIs => None
  }

  function Normalized(peaks: seq<Peak>, n: Normalize): seq<Peak> {
    match ScaleOf(peaks, n)
    case None => peaks
    case Some(s) => if s > 0.0 then Divided(peaks, s) else peaks
  }

  function Raised(peaks: seq<Peak>, c: Params): seq<Peak> {
    if c.power == 1.0 then peaks else MapIntensity(peaks, c.raise)
  }

  /** The last two steps: raise to the power, normalize. */
  function Finished(peaks: seq<Peak>, c: Params): seq<Peak> {
    Normalized(Raised(peaks, c), c.normalize)
  }

  /** `clean`. */
  function CleanSpectrum(peaks: seq<Peak>, c: Params): Result<seq<Peak>>
    requires Ascending(peaks, C.Mz)
  {
    if !(0.0 <= c.floor <= 1.0) then Err("floor must be between 0 and 1")
    else if c.power <= 0.0 then Err("power must be a positive number")
    else if c.minDistance < 0.0 then Err("min_distance must be a non-negative number")
    else
      Ok(Finished(Selected(peaks, c), c))
  }

  lemma DividePositive(a: real, s: real)
    requires s > 0.0 && a > 0.0
    ensures a / s > 0.0
  {
    Quotient(a, s);
    if a / s <= 0.0 {
      MulMonotone(a / s, 0.0, s);
    }
  }

  lemma DivideFloor(a: real, floor: real, b: real, s: real)
    requires s > 0.0 && a >= Threshold(floor, b)
    ensures a / s >= Threshold(floor, b / s)
  {
    QuotientMonotone(floor * b, a, s);
    Quotient(b, s);
    Quotient(floor * b, s);
    SameQuotient(floor * (b / s), (floor * b) / s, s);
  }

  lemma SameQuotient(x: real, y: real, s: real)
    requires s > 0.0 && x * s == y * s
    ensures x == y
  {
    if x > y {
      PositiveProduct(x - y, s);
    } else if x < y {
      PositiveProduct(y - x, s);
    }
  }

  lemma DividedIsValid(peaks: seq<Peak>, s: real)
    requires Valid(peaks) && s > 0.0
    ensures Valid(Divided(peaks, s))
  {
    var r := Divided(peaks, s);
    forall k | 0 <= k < |r|
      ensures r[k].intensity > 0.0
    {
      DividePositive(peaks[k].intensity, s);
    }
    forall i, j | 0 <= i < j < |r|
      ensures C.Mz(r[i]) <= C.Mz(r[j])
    {
      assert C.Mz(peaks[i]) <= C.Mz(peaks[j]);
    }
  }

  lemma DividedAboveFloor(peaks: seq<Peak>, floor: real, s: real)
    requires AboveFloor(peaks, floor) && s > 0.0
    ensures AboveFloor(Divided(peaks, s), floor)
  {
    var r := Divided(peaks, s);
    forall k, m | 0 <= k < |r| && 0 <= m < |r|
      ensures r[k].intensity >= Threshold(floor, r[m].intensity)
    {
      DivideFloor(peaks[k].intensity, floor, peaks[m].intensity, s);
    }
  }

  /** What every positive power of a positive intensity is. */
  ghost predicate RaisesPositives(c: Params) {
    forall x :: x > 0.0 ==> c.raise(x) > 0.0
  }

  lemma RaisedIsSettled(peaks: seq<Peak>, c: Params)
    requires Settled(peaks, c) && (c.power == 1.0 || RaisesPositives(c))
    ensures Settled(Raised(peaks, c), c)
  {
    var r := Raised(peaks, c);
    forall i, j | 0 <= i < j < |r|
      ensures C.Mz(r[i]) <= C.Mz(r[j])
    {
      assert C.Mz(peaks[i]) <= C.Mz(peaks[j]);
    }
  }

  lemma NormalizedIsSettled(peaks: seq<Peak>, c: Params)
    requires Settled(peaks, c)
    ensures Settled(Normalized(peaks, c.normalize), c)
    ensures AboveFloor(peaks, c.floor) ==> AboveFloor(Normalized(peaks, c.normalize), c.floor)
  {
    var scale := ScaleOf(peaks, c.normalize);
    if scale.Some? && scale.value > 0.0 {
      DividedIsValid(peaks, scale.value);
      if AboveFloor(peaks, c.floor) {
        DividedAboveFloor(peaks, c.floor, scale.value);
      }
    }
  }

  lemma HighestIsUnique(peaks: seq<Peak>, h: real)
    requires peaks != [] && IsHighest(peaks, h)
    ensures Highest(peaks) == Some(h)
  {
    HighestIs(peaks);
  }

  lemma {:induction false} SumDivided(peaks: seq<Peak>, s: real)
    requires s != 0.0
    ensures SumBy(Divided(peaks, s), C.Intensity) == SumBy(peaks, C.Intensity) / s
  {
    if peaks != [] {
      var front := peaks[..|peaks| - 1];
      SumDivided(front, s);
      assert Divided(peaks, s)[..|front|] == Divided(front, s);
    }
  }

  lemma DividedByHighest(peaks: seq<Peak>, h: real)
    requires IsHighest(peaks, h) && h > 0.0
    ensures IsHighest(Divided(peaks, h), 1.0)
  {
    var r := Divided(peaks, h);
    SelfQuotient(h);
    forall k | 0 <= k < |r|
      ensures r[k].intensity <= 1.0
    {
      QuotientMonotone(peaks[k].intensity, h, h);
    }
    var k :| 0 <= k < |peaks| && peaks[k].intensity == h;
    assert r[k].intensity == 1.0;
  }

  /** After normalizing, the chosen scale is 1. */
  lemma NormalizedScale(peaks: seq<Peak>, n: Normalize)
    requires peaks != [] && forall k :: 0 <= k < |peaks| ==> peaks[k].intensity > 0.0
    ensures n != AsIs ==> ScaleOf(Normalized(peaks, n), n) == Some(1.0)
  {
    HighestIs(peaks);
    C.SumNonNegative(peaks);
    assert peaks[0].intensity > 0.0;
    if n == ByMax {
      var h := Highest(peaks).value;
      DividedByHighest(peaks, h);
      HighestIsUnique(Divided(peaks, h), 1.0);
    } else if n == BySum {
      var total := SumBy(peaks, C.Intensity);
      SumDivided(peaks, total);
      SelfQuotient(total);
    }
  }

  /** The intensity the power step makes. */
  function RaisedTo(c: Params, x: real): real {
    if c.power == 1.0 then x else c.raise(x)
  }

  lemma RaisedIs(peaks: seq<Peak>, c: Params)
    ensures |Raised(peaks, c)| == |peaks|
    ensures forall k :: 0 <= k < |peaks| ==> Raised(peaks, c)[k] == C.Peak(peaks[k].mz, RaisedTo(c, peaks[k].intensity))
  {
  }

  /** `r` is the peaks with their intensities divided by `scale`. */
  ghost predicate ScaledBy(r: seq<Peak>, peaks: seq<Peak>, scale: real) {
    |r| == |peaks| && forall k :: 0 <= k < |r| ==> r[k].mz == peaks[k].mz && r[k].intensity * scale == peaks[k].intensity
  }

  lemma DividedIsScaled(peaks: seq<Peak>, s: real)
    requires s > 0.0
    ensures ScaledBy(Divided(peaks, s), peaks, s)
  {
    forall k | 0 <= k < |peaks|
      ensures Divided(peaks, s)[k].intensity * s == peaks[k].intensity
    {
      Quotient(peaks[k].intensity, s);
    }
  }

  /** The number that normalizing divides by: the highest intensity, the sum or 1. */
  ghost predicate IsScale(peaks: seq<Peak>, n: Normalize, scale: real) {
    match n case ByMax => IsHighest(peaks, scale) case BySum => scale == SumBy(peaks, C.Intensity) case AsIs => scale == 1.0
  }

  lemma ScaleIs(peaks: seq<Peak>, n: Normalize)
    requires peaks != [] && n != AsIs && forall k :: 0 <= k < |peaks| ==> peaks[k].intensity > 0.0
    ensures ScaleOf(peaks, n).Some? && ScaleOf(peaks, n).value > 0.0 && IsScale(peaks, n, ScaleOf(peaks, n).value)
  {
    HighestIs(peaks);
    C.SumNonNegative(peaks);
    assert peaks[0].intensity > 0.0;
  }

  lemma NormalizedIs(peaks: seq<Peak>, n: Normalize) returns (scale: real)
    requires peaks != [] && forall k :: 0 <= k < |peaks| ==> peaks[k].intensity > 0.0
    ensures scale > 0.0 && IsScale(peaks, n, scale) && ScaledBy(Normalized(peaks, n), peaks, scale)
  {
    if n == AsIs {
      scale := 1.0;
    } else {
      ScaleIs(peaks, n);
      scale := ScaleOf(peaks, n).value;
      DividedIsScaled(peaks, scale);
    }
  }

  /** A cleaned spectrum is the selected peaks, raised to the power and divided by one number. */
  lemma CleanedIs(peaks: seq<Peak>, c: Params) returns (raised: seq<Peak>, scale: real)
    requires Ascending(peaks, C.Mz) && ProperParams(c) && (c.power == 1.0 || RaisesPositives(c)) && Selected(peaks, c) != []
    ensures |raised| == |Selected(peaks, c)|
    ensures forall k :: 0 <= k < |raised| ==>
              raised[k] == C.Peak(Selected(peaks, c)[k].mz, RaisedTo(c, Selected(peaks, c)[k].intensity))
    ensures scale > 0.0 && IsScale(raised, c.normalize, scale)
    ensures CleanSpectrum(peaks, c).Ok? && ScaledBy(CleanSpectrum(peaks, c).value, raised, scale)
  {
    var selected := Selected(peaks, c);
    SelectedIsClean(peaks, c);
    RaisedIsSettled(selected, c);
    RaisedIs(selected, c);
    raised := Raised(selected, c);
    scale := NormalizedIs(raised, c.normalize);
  }

  /** Parameters are refused exactly when they are out of range. */
  lemma CleanRefuses(peaks: seq<Peak>, c: Params)
    requires Ascending(peaks, C.Mz)
    ensures CleanSpectrum(peaks, c).Err? <==> c.floor < 0.0 || c.floor > 1.0 || c.power <= 0.0 || c.minDistance < 0.0
  {
  }

  lemma SelfQuotient(s: real)
    requires s > 0.0
    ensures s / s == 1.0
  {
    Quotient(s, s);
    SameQuotient(s / s, 1.0, s);
  }

  lemma DividedByOne(peaks: seq<Peak>)
    ensures Divided(peaks, 1.0) == peaks
  {
  }

  /** The result is a settled list: positive intensities, acceptable, centroided, short enough. */
  lemma CleanedIsSettled(peaks: seq<Peak>, c: Params)
    requires Ascending(peaks, C.Mz) && CleanSpectrum(peaks, c).Ok? && (c.power == 1.0 || RaisesPositives(c))
    ensures Settled(CleanSpectrum(peaks, c).value, c)
    ensures c.power == 1.0 ==> Clean(CleanSpectrum(peaks, c).value, c)
  {
    SelectedIsClean(peaks, c);
    RaisedIsSettled(Selected(peaks, c), c);
    NormalizedIsSettled(Raised(Selected(peaks, c), c), c);
  }

  /** Normalizing a second time changes nothing. */
  lemma NormalizedIsFixed(peaks: seq<Peak>, n: Normalize)
    requires forall k :: 0 <= k < |peaks| ==> peaks[k].intensity > 0.0
    ensures Normalized(Normalized(peaks, n), n) == Normalized(peaks, n)
  {
    if peaks != [] && n != AsIs {
      NormalizedScale(peaks, n);
      DividedByOne(Normalized(peaks, n));
    } else if n == BySum {
      assert ScaleOf(peaks, n) == Some(0.0);
    }
  }

  lemma FinishedIsFixed(peaks: seq<Peak>, c: Params)
    requires Settled(peaks, c) && c.power == 1.0
    ensures Finished(Finished(peaks, c), c) == Finished(peaks, c)
  {
    NormalizedIsFixed(peaks, c.normalize);
  }

  /** A settled list is cleaned to itself exactly when it is above its floor and raising and normalizing fix it. */
  lemma CleanedToItselfIff(r: seq<Peak>, c: Params)
    requires Settled(r, c) && ProperParams(c)
    ensures Ascending(r, C.Mz) && (CleanSpectrum(r, c) == Ok(r) <==> AboveFloor(r, c.floor) && Finished(r, c) == r)
  {
    SettledIsSelectedIff(r, c);
  }

  /**
   Cleaning a cleaned spectrum keeps its peaks exactly when they still reach the floor, and changes nothing
   exactly when raising and normalizing fix it as well. With power 1 it never changes anything.
   */
  lemma CleaningTwice(peaks: seq<Peak>, c: Params)
    requires Ascending(peaks, C.Mz) && CleanSpectrum(peaks, c).Ok? && (c.power == 1.0 || RaisesPositives(c))
    ensures var r := CleanSpectrum(peaks, c).value;
            && Ascending(r, C.Mz) && (Selected(r, c) == r <==> AboveFloor(r, c.floor))
            && (CleanSpectrum(r, c) == Ok(r) <==> AboveFloor(r, c.floor) && Finished(r, c) == r)
            && (c.power == 1.0 ==> Clean(r, c) && CleanSpectrum(r, c) == Ok(r))
  {
    var r := CleanSpectrum(peaks, c).value;
    CleanedIsSettled(peaks, c);
    SettledIsSelectedIff(r, c);
    CleanedToItselfIff(r, c);
    if c.power == 1.0 {
      SelectedIsClean(peaks, c);
      FinishedIsFixed(Selected(peaks, c), c);
    }
  }

  lemma CleanIsFinished(peaks: seq<Peak>, c: Params)
    requires Clean(peaks, c) && ProperParams(c)
    ensures Ascending(peaks, C.Mz) && CleanSpectrum(peaks, c) == Ok(Finished(peaks, c))
  {
    CleanIsSelected(peaks, c);
  }

  function Square(x: real): real { x * x }

  function Squaring(): Params {
    Params(10.0, 0.0, 0, 2.0, Square, AsIs, 0.0)
  }

  function TwoPeaks(y: real): seq<Peak> {
    [C.Peak(1.0, 1.0), C.Peak(2.0, y)]
  }

  lemma TwoPeaksAreClean(y: real)
    requires y > 0.0
    ensures Clean(TwoPeaks(y), Squaring())
  {
    forall k, m | 0 <= k < 2 && 0 <= m < 2
      ensures TwoPeaks(y)[k].intensity >= Threshold(0.0, TwoPeaks(y)[m].intensity)
    {
      assert Threshold(0.0, TwoPeaks(y)[m].intensity) == 0.0;
    }
  }

  lemma SquaringOnce(y: real, z: real)
    requires y > 0.0 && z == Square(y)
    ensures Ascending(TwoPeaks(y), C.Mz) && CleanSpectrum(TwoPeaks(y), Squaring()) == Ok(TwoPeaks(z))
  {
    TwoPeaksAreClean(y);
    CleanIsFinished(TwoPeaks(y), Squaring());
    assert MapIntensity(TwoPeaks(y), Square) == TwoPeaks(z);
  }

  /** With power 2 each cleaning moves two peaks of different intensity further apart. */
  lemma SquaringTwice()
    ensures Ascending(TwoPeaks(0.5), C.Mz) && CleanSpectrum(TwoPeaks(0.5), Squaring()) == Ok(TwoPeaks(0.25))
    ensures Ascending(TwoPeaks(0.25), C.Mz) && CleanSpectrum(TwoPeaks(0.25), Squaring()) == Ok(TwoPeaks(0.0625))
  {
    SquaringOnce(0.5, 0.25);
    SquaringOnce(0.25, 0.0625);
  }
}
