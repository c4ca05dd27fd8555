/**
 `cosine_greedy` of `src/core/spectral.rs`: candidate pairs sorted by weight, taken greedily
 while both peaks are unused. `powf` is opaque: a spectrum carries one weight per peak.
 */
module CosineGreedy {
  import opened CauchySchwarz
  import opened Common
  import opened RealArithmetic
  import opened PeakSweep
  import opened StableSort

  /** A peak list with the weight `mz^p * I^q` of each peak. */
  datatype Spectrum = Spectrum(mz: seq<real>, weight: seq<real>)

  ghost predicate Valid(s: Spectrum) {
    |s.mz| == |s.weight| && Sorted(s.mz)
  }

  datatype Weighted = Weighted(i: nat, j: nat, w: real)

  function WeightOf(p: Weighted): real { p.w }

  /** Plain pairs, then shifted ones when the shift exceeds the tolerance. */
  function Candidates(a: Spectrum, b: Spectrum, tolerance: real, shift: Option<real>): seq<Pair> {
    AllMatches(a.mz, b.mz, tolerance, 0.0, |a.mz|)
    + match shift
      case Some(s) => if s > tolerance || -s > tolerance then AllMatches(a.mz, b.mz, tolerance, s, |a.mz|) else []
      case None => []
  }

  /** A pair of peaks the scores may match at all. */
  predicate IsCandidate(a: Spectrum, b: Spectrum, tolerance: real, shift: Option<real>, i: nat, j: nat) {
    i < |a.mz| && j < |b.mz| &&
    (Within(a.mz, b.mz, tolerance, 0.0, i, j)
     || (shift.Some? && (shift.value > tolerance || -shift.value > tolerance) && Within(a.mz, b.mz, tolerance, shift.value, i, j)))
  }

  /** Within tolerance once the shift, if any, is applied; a shift within tolerance is not tried. */
  function Occurrences(a: Spectrum, b: Spectrum, tolerance: real, shift: Option<real>, p: Pair): nat {
    (if p.0 < |a.mz| && p.1 < |b.mz| && Within(a.mz, b.mz, tolerance, 0.0, p.0, p.1) then 1 else 0)
    + if shift.Some? && (shift.value > tolerance || -shift.value > tolerance)
         && p.0 < |a.mz| && p.1 < |b.mz| && Within(a.mz, b.mz, tolerance, shift.value, p.0, p.1) then 1 else 0
  }

  lemma LastIsNew(s: seq<Pair>)
    requires s != [] && Lexicographic(s)
    ensures s[|s| - 1] !in s[..|s| - 1]
  {
    var front, last := s[..|s| - 1], s[|s| - 1];
    forall x | 0 <= x < |front|
      ensures front[x] != last
    {
      assert Precedes(s[x], s[|s| - 1]);
    }
  }

  lemma {:induction false} OccursOnce(s: seq<Pair>, p: Pair)
    requires Lexicographic(s)
    ensures multiset(s)[p] == if p in s then 1 else 0
  {
    if s != [] {
      var front, last := s[..|s| - 1], s[|s| - 1];
      OccursOnce(front, p);
      SplitLast(s);
      LastIsNew(s);
    }
  }

  lemma MatchesOnce(a: seq<real>, b: seq<real>, tolerance: real, shift: real, p: Pair)
    ensures multiset(AllMatches(a, b, tolerance, shift, |a|))[p]
            == if p.0 < |a| && p.1 < |b| && Within(a, b, tolerance, shift, p.0, p.1) then 1 else 0
  {
    AllMatchesExact(a, b, tolerance, shift, |a|);
    OccursOnce(AllMatches(a, b, tolerance, shift, |a|), p);
  }

  /** Each candidate occurs once plain, and once more shifted, as far as it is within tolerance that way; nothing else occurs. */
  lemma CandidatesOccur(a: Spectrum, b: Spectrum, tolerance: real, shift: Option<real>, p: Pair)
    ensures multiset(Candidates(a, b, tolerance, shift))[p] == Occurrences(a, b, tolerance, shift, p)
  {
    MatchesOnce(a.mz, b.mz, tolerance, 0.0, p);
    if shift.Some? {
      MatchesOnce(a.mz, b.mz, tolerance, shift.value, p);
    }
  }

  lemma CandidatesExact(a: Spectrum, b: Spectrum, tolerance: real, shift: Option<real>)
    ensures forall p: Pair :: p in Candidates(a, b, tolerance, shift) <==> IsCandidate(a, b, tolerance, shift, p.0, p.1)
    ensures forall p: Pair :: multiset(Candidates(a, b, tolerance, shift))[p] == Occurrences(a, b, tolerance, shift, p)
  {
    AllMatchesExact(a.mz, b.mz, tolerance, 0.0, |a.mz|);
    if shift.Some? {
      AllMatchesExact(a.mz, b.mz, tolerance, shift.value, |a.mz|);
    }
    forall p: Pair
      ensures multiset(Candidates(a, b, tolerance, shift))[p] == Occurrences(a, b, tolerance, shift, p)
    {
      CandidatesOccur(a, b, tolerance, shift, p);
    }
  }

  function PairWeight(a: Spectrum, b: Spectrum, p: Pair): real
    requires p.0 < |a.weight| && p.1 < |b.weight|
  {
    a.weight[p.0] * b.weight[p.1]
  }

  function Weigh(a: Spectrum, b: Spectrum, pairs: seq<Pair>): seq<Weighted>
    requires forall p | p in pairs :: p.0 < |a.weight| && p.1 < |b.weight|
  {
    seq(|pairs|, k requires 0 <= k < |pairs| => Weighted(pairs[k].0, pairs[k].1, PairWeight(a, b, pairs[k])))
  }

  /** The order pairs are considered in: stable ascending by weight, reversed. */
  function Considered(ws: seq<Weighted>): seq<Weighted> {
    Reverse(Sort(ws, WeightOf))
  }

  ghost predicate Descending(ws: seq<Weighted>) {
    forall x, y :: 0 <= x < y < |ws| ==> ws[x].w >= ws[y].w
  }

  lemma {:induction false} ReverseMembers<T>(s: seq<T>)
    ensures forall x :: x in Reverse(s) <==> x in s
  {
    if s != [] {
      ReverseMembers(s[..|s| - 1]);
      SplitLast(s);
    }
  }

  lemma ConsideredMembers(ws: seq<Weighted>)
    ensures forall p :: p in Considered(ws) <==> p in ws
  {
    SortSorts(ws, WeightOf);
    ReverseMembers(Sort(ws, WeightOf));
    forall p ensures p in Sort(ws, WeightOf) <==> p in ws {
      assert p in ws <==> p in multiset(Sort(ws, WeightOf));
    }
  }

  /** Heaviest first, equal weights in reverse generation order, nothing lost. */
  lemma ConsideredOrder(ws: seq<Weighted>)
    ensures Descending(Considered(ws))
    ensures forall p :: p in Considered(ws) <==> p in ws
    ensures forall v :: WithKey(Considered(ws), WeightOf, v) == Reverse(WithKey(ws, WeightOf, v))
  {
    SortSorts(ws, WeightOf);
    ConsideredMembers(ws);
    forall v ensures WithKey(Considered(ws), WeightOf, v) == Reverse(WithKey(ws, WeightOf, v)) {
      SortIsStable(ws, WeightOf, v);
      ReverseReversesTies(Sort(ws, WeightOf), WeightOf, v);
    }
  }

  // ---------------------------------------------------------------- the greedy choice

  predicate Conflict(p: Weighted, q: Weighted) {
    p.i == q.i || p.j == q.j
  }

  predicate Free(taken: seq<Weighted>, p: Weighted) {
    forall k :: 0 <= k < |taken| ==> !Conflict(taken[k], p)
  }

  /** The pairs taken among the first `n` considered: each one that conflicts with none before it. */
  function Taken(ws: seq<Weighted>, n: nat): seq<Weighted>
    requires n <= |ws|
  {
    if n == 0 then []
    else
      var before := Taken(ws, n - 1);
      if Free(before, ws[n - 1]) then before + [ws[n - 1]] else before
  }

  /** Each peak of either spectrum at most once. */
  ghost predicate OneToOne(ms: seq<Weighted>) {
    forall x, y :: 0 <= x < y < |ms| ==> !Conflict(ms[x], ms[y])
  }

  lemma {:induction false} TakenIsOneToOne(ws: seq<Weighted>, n: nat)
    requires n <= |ws|
    ensures OneToOne(Taken(ws, n))
    ensures forall t | t in Taken(ws, n) :: t in ws[..n]
  {
    if n > 0 {
      TakenIsOneToOne(ws, n - 1);
      assert ws[..n] == ws[..n - 1] + [ws[n - 1]];
    }
  }

  /** Every pair considered conflicts with a taken pair of at least its weight (itself, when taken). */
  ghost predicate Blocked(taken: seq<Weighted>, p: Weighted) {
    exists t | t in taken :: Conflict(t, p) && t.w >= p.w
  }

  lemma {:induction false} RejectedIsBlocked(ws: seq<Weighted>, n: nat, k: nat)
    requires Descending(ws) && k < n <= |ws|
    ensures Blocked(Taken(ws, n), ws[k])
  {
    if k < n - 1 {
      RejectedIsBlocked(ws, n - 1, k);
    } else if Free(Taken(ws, k), ws[k]) {
      assert ws[k] in Taken(ws, n);
    } else {
      var y :| 0 <= y < |Taken(ws, k)| && Conflict(Taken(ws, k)[y], ws[k]);
      var t := Taken(ws, k)[y];
      TakenIsOneToOne(ws, k);
      assert t in Taken(ws, k);
      var x :| 0 <= x < k && ws[..k][x] == t;
      assert t in Taken(ws, n);
    }
  }

  function Total(ms: seq<Weighted>): real {
    SumBy(ms, WeightOf)
  }

  /** A side of a pair: its peak in the first spectrum or in the second. */
  function Side(p: Weighted, second: bool): nat {
    if second then p.j else p.i
  }

  /** The pairs left once those that `t` blocks on one side are gone. */
  function Without(ms: seq<Weighted>, t: Weighted, second: bool): seq<Weighted> {
    if ms == [] then []
    else
      var rest, last := Without(ms[..|ms| - 1], t, second), ms[|ms| - 1];
      if Side(last, second) == Side(t, second) && last.w <= t.w then rest else rest + [last]
  }

  lemma {:induction false} WithoutMembers(ms: seq<Weighted>, t: Weighted, second: bool)
    ensures forall p :: p in Without(ms, t, second) <==> p in ms && !(Side(p, second) == Side(t, second) && p.w <= t.w)
    ensures OneToOne(ms) ==> OneToOne(Without(ms, t, second))
  {
    if ms != [] {
      WithoutMembers(ms[..|ms| - 1], t, second);
      SplitLast(ms);
      var rest := Without(ms[..|ms| - 1], t, second);
      if OneToOne(ms) {
        forall x | 0 <= x < |rest| ensures !Conflict(rest[x], ms[|ms| - 1]) {
          assert rest[x] in rest;
        }
      }
    }
  }

  /** A matching has at most one pair on that peak, so it loses at most the weight of `t`. */
  lemma {:induction false} WithoutLoses(ms: seq<Weighted>, t: Weighted, second: bool)
    requires OneToOne(ms) && t.w >= 0.0
    ensures Total(ms) <= Total(Without(ms, t, second)) + t.w
    ensures (forall p | p in ms :: Side(p, second) != Side(t, second)) ==> Total(ms) == Total(Without(ms, t, second))
  {
    if ms != [] {
      var front, last := ms[..|ms| - 1], ms[|ms| - 1];
      var rest := Without(front, t, second);
      WithoutLoses(front, t, second);
      assert forall p | p in front :: !Conflict(p, last);
      SplitLast(ms);
      assert (rest + [last])[..|rest|] == rest;
    }
  }

  /** A matching each of whose pairs is blocked by a taken one weighs at most twice what was taken. */
  lemma {:induction false} BlockedWeighsAtMostTwice(ms: seq<Weighted>, taken: seq<Weighted>)
    requires OneToOne(ms) && forall m | m in ms :: Blocked(taken, m)
    requires forall t | t in taken :: t.w >= 0.0
    ensures Total(ms) <= 2.0 * Total(taken)
    decreases |taken|
  {
    if taken == [] {
      assert |ms| > 0 ==> ms[0] in ms && Blocked(taken, ms[0]);
    } else {
      var front, t := taken[..|taken| - 1], taken[|taken| - 1];
      var less := Without(ms, t, false);
      SplitLast(taken);
      WithoutMembers(ms, t, false);
      WithoutLoses(ms, t, false);
      WithoutMembers(less, t, true);
      WithoutLoses(less, t, true);
      forall m | m in Without(less, t, true) ensures Blocked(front, m) {
        assert Blocked(taken, m);
      }
      BlockedWeighsAtMostTwice(Without(less, t, true), front);
    }
  }

  /** Greedy takes at least half the weight of any matching among the candidates. */
  lemma GreedyIsHalfOptimal(ws: seq<Weighted>, ms: seq<Weighted>)
    requires forall p | p in ws :: p.w >= 0.0
    requires OneToOne(ms) && forall m | m in ms :: m in ws
    ensures Total(ms) <= 2.0 * Total(Taken(Considered(ws), |Considered(ws)|))
  {
    var cs := Considered(ws);
    ConsideredOrder(ws);
    forall m | m in ms ensures Blocked(Taken(cs, |cs|), m) {
      var k :| 0 <= k < |cs| && cs[k] == m;
      RejectedIsBlocked(cs, |cs|, k);
    }
    TakenIsOneToOne(cs, |cs|);
    BlockedWeighsAtMostTwice(ms, Taken(cs, |cs|));
  }

  // ---------------------------------------------------------------- the score is at most 1

  function Places(ms: seq<Weighted>, second: bool): (r: seq<nat>)
    ensures |r| == |ms| && forall k :: 0 <= k < |ms| ==> r[k] == Side(ms[k], second)
  {
    if ms == [] then [] else Places(ms[..|ms| - 1], second) + [Side(ms[|ms| - 1], second)]
  }

  ghost predicate WeighedBy(a: Spectrum, b: Spectrum, p: Weighted) {
    p.i < |a.weight| && p.j < |b.weight| && p.w == a.weight[p.i] * b.weight[p.j]
  }

  lemma PlacesBelow(a: Spectrum, b: Spectrum, ms: seq<Weighted>)
    requires forall k :: 0 <= k < |ms| ==> WeighedBy(a, b, ms[k])
    ensures AllBelow(Places(ms, false), |a.weight|) && AllBelow(Places(ms, true), |b.weight|)
  {
  }

  lemma PlacesDistinct(ms: seq<Weighted>, second: bool)
    requires OneToOne(ms)
    ensures Distinct(Places(ms, second))
  {
    var r := Places(ms, second);
    forall x, y | 0 <= x < y < |r| ensures r[x] != r[y] {
      assert !Conflict(ms[x], ms[y]);
    }
  }

  /** The sum of pair weights is Cauchy-Schwarz bounded by the squared weights of the peaks they touch. */
  lemma {:induction false} TotalIsBounded(a: Spectrum, b: Spectrum, ms: seq<Weighted>)
    requires forall k :: 0 <= k < |ms| ==> WeighedBy(a, b, ms[k])
    requires AllBelow(Places(ms, false), |a.weight|) && AllBelow(Places(ms, true), |b.weight|)
    ensures Bounded(Total(ms), SumAt(SquareAll(a.weight), Places(ms, false)), SumAt(SquareAll(b.weight), Places(ms, true)))
  {
    if ms != [] {
      var front, last := ms[..|ms| - 1], ms[|ms| - 1];
      assert Places(ms, false)[..|front|] == Places(front, false);
      assert Places(ms, true)[..|front|] == Places(front, true);
      TotalIsBounded(a, b, front);
      assert WeighedBy(a, b, last);
      BoundedPair(a.weight[last.i], b.weight[last.j]);
      BoundedSum(Total(front), SumAt(SquareAll(a.weight), Places(front, false)), SumAt(SquareAll(b.weight), Places(front, true)),
                 last.w, SquareAll(a.weight)[last.i], SquareAll(b.weight)[last.j]);
    }
  }

  /** The squared norm of a spectrum, over all its peaks. */
  function Norm2(s: Spectrum): real {
    Sum(SquareAll(s.weight))
  }

  lemma TouchedWithinNorm(s: Spectrum, ms: seq<Weighted>, second: bool)
    requires OneToOne(ms) && AllBelow(Places(ms, second), |s.weight|)
    ensures SumAt(SquareAll(s.weight), Places(ms, second)) <= Norm2(s)
  {
    var sq := SquareAll(s.weight);
    PlacesDistinct(ms, second);
    SumAtDistinct(sq, Places(ms, second), |sq|);
    assert sq[..|sq|] == sq;
  }

  /** For any one-to-one choice of pairs, the squared sum is at most the product of both spectra's squared norms. */
  lemma MatchingWithinNorms(a: Spectrum, b: Spectrum, ms: seq<Weighted>)
    requires OneToOne(ms) && forall k :: 0 <= k < |ms| ==> WeighedBy(a, b, ms[k])
    ensures Bounded(Total(ms), Norm2(a), Norm2(b))
  {
    PlacesBelow(a, b, ms);
    TotalIsBounded(a, b, ms);
    TouchedWithinNorm(a, ms, false);
    TouchedWithinNorm(b, ms, true);
    BoundedWider(Total(ms), SumAt(SquareAll(a.weight), Places(ms, false)), SumAt(SquareAll(b.weight), Places(ms, true)),
                 Norm2(a), Norm2(b));
  }

  // ---------------------------------------------------------------- the whole score

  lemma CandidatePlaces(a: Spectrum, b: Spectrum, tolerance: real, shift: Option<real>)
    requires |a.mz| == |a.weight| && |b.mz| == |b.weight|
    ensures forall p | p in Candidates(a, b, tolerance, shift) :: p.0 < |a.weight| && p.1 < |b.weight|
  {
    CandidatesExact(a, b, tolerance, shift);
  }

  /** The pairs whose weights the score sums. */
  ghost function Selected(a: Spectrum, b: Spectrum, tolerance: real, shift: Option<real>): seq<Weighted>
    requires |a.mz| == |a.weight| && |b.mz| == |b.weight|
  {
    CandidatePlaces(a, b, tolerance, shift);
    var considered := Considered(Weigh(a, b, Candidates(a, b, tolerance, shift)));
    Taken(considered, |considered|)
  }

  lemma WeighedArePairs(a: Spectrum, b: Spectrum, pairs: seq<Pair>, p: Weighted)
    requires forall p | p in pairs :: p.0 < |a.weight| && p.1 < |b.weight|
    requires p in Weigh(a, b, pairs)
    ensures WeighedBy(a, b, p) && (p.i, p.j) in pairs
  {
    var ws := Weigh(a, b, pairs);
    var y :| 0 <= y < |ws| && ws[y] == p;
    assert pairs[y] in pairs && pairs[y] == (p.i, p.j);
  }

  /** What is considered are the weighed pairs. */
  lemma ConsideredArePairs(a: Spectrum, b: Spectrum, pairs: seq<Pair>, p: Weighted)
    requires forall p | p in pairs :: p.0 < |a.weight| && p.1 < |b.weight|
    requires p in Considered(Weigh(a, b, pairs))
    ensures WeighedBy(a, b, p) && (p.i, p.j) in pairs
  {
    ConsideredMembers(Weigh(a, b, pairs));
    WeighedArePairs(a, b, pairs, p);
  }

  lemma SelectedAreWeighed(a: Spectrum, b: Spectrum, tolerance: real, shift: Option<real>)
    requires |a.mz| == |a.weight| && |b.mz| == |b.weight|
    ensures var s := Selected(a, b, tolerance, shift);
            OneToOne(s) && forall k :: 0 <= k < |s| ==>
              WeighedBy(a, b, s[k]) && IsCandidate(a, b, tolerance, shift, s[k].i, s[k].j)
  {
    CandidatePlaces(a, b, tolerance, shift);
    CandidatesExact(a, b, tolerance, shift);
    var pairs := Candidates(a, b, tolerance, shift);
    var considered := Considered(Weigh(a, b, pairs));
    var s := Selected(a, b, tolerance, shift);
    TakenIsOneToOne(considered, |considered|);
    forall k | 0 <= k < |s|
      ensures WeighedBy(a, b, s[k]) && IsCandidate(a, b, tolerance, shift, s[k].i, s[k].j)
    {
      assert s[k] in s && s[k] in considered;
      ConsideredArePairs(a, b, pairs, s[k]);
    }
  }

  /** Plain or shifted, the score `sum / (|a| |b|)` never exceeds 1. */
  lemma ScoreAtMostOne(a: Spectrum, b: Spectrum, tolerance: real, shift: Option<real>)
    requires |a.mz| == |a.weight| && |b.mz| == |b.weight|
    ensures var sum := Total(Selected(a, b, tolerance, shift));
            Bounded(sum, Norm2(a), Norm2(b)) && 0.0 <= NormalizedSquare(sum, Norm2(a), Norm2(b)) <= 1.0
  {
    SelectedAreWeighed(a, b, tolerance, shift);
    MatchingWithinNorms(a, b, Selected(a, b, tolerance, shift));
    NormalizedAtMostOne(Total(Selected(a, b, tolerance, shift)), Norm2(a), Norm2(b));
  }

  ghost predicate IsSquareRoot(sqrt: real -> real) {
    forall x :: x >= 0.0 ==> sqrt(x) >= 0.0 && sqrt(x) * sqrt(x) == x
  }

  function Norms(a: Spectrum, b: Spectrum, sqrt: real -> real): real {
    sqrt(Norm2(a)) * sqrt(Norm2(b))
  }

  /** The sum of the selected weights over the product of the norms. */
  ghost function Score(a: Spectrum, b: Spectrum, tolerance: real, shift: Option<real>, sqrt: real -> real): real
    requires |a.mz| == |a.weight| && |b.mz| == |b.weight|
  {
    if Selected(a, b, tolerance, shift) == [] || Norms(a, b, sqrt) == 0.0 then 0.0
    else Total(Selected(a, b, tolerance, shift)) / Norms(a, b, sqrt)
  }

  lemma BoundedByRoots(t: real, u: real, v: real, sqrt: real -> real)
    requires Bounded(t, u, v) && IsSquareRoot(sqrt)
    ensures 0.0 <= sqrt(u) * sqrt(v) && -(sqrt(u) * sqrt(v)) <= t <= sqrt(u) * sqrt(v)
  {
    var x, y := sqrt(u), sqrt(v);
    assert x >= 0.0 && y >= 0.0 && x * x == u && y * y == v;
    ProductOfBounds(0.0, x, 0.0, y);
    assert (x * y) * (x * y) == (x * x) * (y * y);
    SquareOrder(t, x * y);
    SquareOrder(-t, x * y);
  }

  lemma {:induction false} TotalNonNegative(ms: seq<Weighted>)
    requires forall k :: 0 <= k < |ms| ==> ms[k].w >= 0.0
    ensures Total(ms) >= 0.0
  {
    if ms != [] {
      TotalNonNegative(ms[..|ms| - 1]);
    }
  }

  lemma QuotientOfBounded(total: real, norms: real)
    requires norms > 0.0 && -norms <= total <= norms
    ensures -1.0 <= total / norms <= 1.0 && (total >= 0.0 ==> total / norms >= 0.0)
  {
    QuotientWithin(total, norms, -1.0, 1.0);
    if total >= 0.0 {
      QuotientWithin(total, norms, 0.0, 1.0);
    }
  }

  /** The score lies between -1 and 1, and between 0 and 1 when no selected weight is negative. */
  lemma ScoreInUnitInterval(a: Spectrum, b: Spectrum, tolerance: real, shift: Option<real>, sqrt: real -> real)
    requires |a.mz| == |a.weight| && |b.mz| == |b.weight| && IsSquareRoot(sqrt)
    ensures -1.0 <= Score(a, b, tolerance, shift, sqrt) <= 1.0
    ensures (forall k :: 0 <= k < |Selected(a, b, tolerance, shift)| ==> Selected(a, b, tolerance, shift)[k].w >= 0.0)
            ==> 0.0 <= Score(a, b, tolerance, shift, sqrt)
  {
    var chosen, norms := Selected(a, b, tolerance, shift), Norms(a, b, sqrt);
    ScoreAtMostOne(a, b, tolerance, shift);
    BoundedByRoots(Total(chosen), Norm2(a), Norm2(b), sqrt);
    if norms != 0.0 {
      QuotientOfBounded(Total(chosen), norms);
      if forall k :: 0 <= k < |chosen| ==> chosen[k].w >= 0.0 {
        TotalNonNegative(chosen);
      }
    }
  }

  /** A pairing of peaks the score could have summed instead. */
  ghost predicate Pairing(a: Spectrum, b: Spectrum, tolerance: real, shift: Option<real>, ms: seq<Weighted>) {
    OneToOne(ms) && forall m | m in ms :: WeighedBy(a, b, m) && IsCandidate(a, b, tolerance, shift, m.i, m.j)
  }

  /** With non-negative weights the sum is at least half that of every one-to-one pairing of candidates. */
  lemma SelectedIsHalfOptimal(a: Spectrum, b: Spectrum, tolerance: real, shift: Option<real>, ms: seq<Weighted>)
    requires |a.mz| == |a.weight| && |b.mz| == |b.weight|
    requires (forall k :: 0 <= k < |a.weight| ==> a.weight[k] >= 0.0) && (forall k :: 0 <= k < |b.weight| ==> b.weight[k] >= 0.0)
    requires Pairing(a, b, tolerance, shift, ms)
    ensures Total(ms) <= 2.0 * Total(Selected(a, b, tolerance, shift))
  {
    CandidatePlaces(a, b, tolerance, shift);
    CandidatesExact(a, b, tolerance, shift);
    var pairs := Candidates(a, b, tolerance, shift);
    var ws := Weigh(a, b, pairs);
    forall p | p in ws ensures p.w >= 0.0 {
      var y :| 0 <= y < |ws| && ws[y] == p;
      assert pairs[y] in pairs;
    }
    forall m | m in ms ensures m in ws {
      assert (m.i, m.j) in pairs;
      var y :| 0 <= y < |pairs| && pairs[y] == (m.i, m.j);
      assert ws[y] == m;
    }
    GreedyIsHalfOptimal(ws, ms);
  }

  /** The greedy loop, with a used flag per peak of either spectrum. */
  method TakeGreedily(weighted: seq<Weighted>, na: nat, nb: nat) returns (sum: real, matched: nat)
    requires forall k :: 0 <= k < |weighted| ==> weighted[k].i < na && weighted[k].j < nb
    ensures sum == Total(Taken(weighted, |weighted|)) && matched == |Taken(weighted, |weighted|)|
  {
    var usedA, usedB := new bool[na](_ => false), new bool[nb](_ => false);
    sum, matched := 0.0, 0;
    for n := 0 to |weighted|
      invariant forall i :: 0 <= i < na ==> (usedA[i] <==> Uses(Taken(weighted, n), i, false))
      invariant forall j :: 0 <= j < nb ==> (usedB[j] <==> Uses(Taken(weighted, n), j, true))
      invariant sum == Total(Taken(weighted, n)) && matched == |Taken(weighted, n)|
    {
      var p := weighted[n];
      ghost var before := Taken(weighted, n);
      FreeIffUnused(before, p);
      if !usedA[p.i] && !usedB[p.j] {
        UsesSnoc(before, p);
        sum := sum + p.w;
        usedA[p.i] := true;
        usedB[p.j] := true;
        matched := matched + 1;
      }
    }
  }

  /** Some pair uses this peak. */
  predicate Uses(taken: seq<Weighted>, peak: nat, second: bool) {
    exists k :: 0 <= k < |taken| && Side(taken[k], second) == peak
  }

  lemma FreeIffUnused(taken: seq<Weighted>, p: Weighted)
    ensures Free(taken, p) <==> !Uses(taken, p.i, false) && !Uses(taken, p.j, true)
  {
    if !Free(taken, p) {
      var k :| 0 <= k < |taken| && Conflict(taken[k], p);
      assert Side(taken[k], false) == p.i || Side(taken[k], true) == p.j;
    }
  }

  lemma UsesSnoc(taken: seq<Weighted>, p: Weighted)
    ensures forall peak, second :: Uses(taken + [p], peak, second) <==> Uses(taken, peak, second) || Side(p, second) == peak
    ensures Total(taken + [p]) == Total(taken) + p.w
  {
    assert (taken + [p])[..|taken|] == taken;
    forall peak, second
      ensures Uses(taken + [p], peak, second) <==> Uses(taken, peak, second) || Side(p, second) == peak
    {
      assert (taken + [p])[|taken|] == p;
      if Uses(taken, peak, second) {
        var k :| 0 <= k < |taken| && Side(taken[k], second) == peak;
        assert (taken + [p])[k] == taken[k];
      }
    }
  }

  /** `cosine_greedy`: match, weigh, order, take, normalize. */
  method CosineGreedy(a: Spectrum, b: Spectrum, tolerance: real, shift: Option<real>, sqrt: real -> real)
    returns (score: real, matched: nat)
    requires Valid(a) && Valid(b)
    ensures score == Score(a, b, tolerance, shift, sqrt) && matched == |Selected(a, b, tolerance, shift)|
  {
    CandidatePlaces(a, b, tolerance, shift);
    var pairs := FindMatches(a.mz, b.mz, tolerance, 0.0, []);
    if shift.Some? && (shift.value > tolerance || -shift.value > tolerance) {
      pairs := FindMatches(a.mz, b.mz, tolerance, shift.value, pairs);
    }
    assert pairs == Candidates(a, b, tolerance, shift);
    if pairs == [] {
      assert Considered(Weigh(a, b, pairs)) == [];
      return 0.0, 0;
    }
    var considered := Considered(Weigh(a, b, pairs));
    forall k | 0 <= k < |considered|
      ensures considered[k].i < |a.mz| && considered[k].j < |b.mz|
    {
      ConsideredArePairs(a, b, pairs, considered[k]);
    }
    var sum;
    sum, matched := TakeGreedily(considered, |a.mz|, |b.mz|);
    FirstIsTaken(considered, |considered|);
    var norms := Norms(a, b, sqrt);
    score := if norms == 0.0 then 0.0 else sum / norms;
  }

  lemma {:induction false} FirstIsTaken(weighted: seq<Weighted>, n: nat)
    requires 0 < n <= |weighted|
    ensures Taken(weighted, n) != []
  {
    if n > 1 {
      FirstIsTaken(weighted, n - 1);
    }
  }
}
