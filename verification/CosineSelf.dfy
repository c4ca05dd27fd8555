/**
 `cosine_greedy` of `src/core/spectral.rs` on a spectrum and itself: of the candidate pairs, many of which cross
 when peaks lie within the tolerance of each other, greedy takes every peak with itself.
 */
module CosineSelf {
  import opened CauchySchwarz
  import opened Common
  import opened RealArithmetic
  import opened PeakSweep
  import opened StableSort
  import opened CosineGreedy

  function PairOf(p: Weighted): Pair { (p.i, p.j) }

  /** `p` is considered before `q`: heavier, or as heavy and generated later. */
  ghost predicate Sooner(p: Weighted, q: Weighted) {
    p.w > q.w || (p.w == q.w && Precedes(PairOf(q), PairOf(p)))
  }

  // ---------------------------------------------------------------- the order, pair by pair

  ghost predicate TiesInOrder(s: seq<Weighted>) {
    forall x, y :: 0 <= x < y < |s| && s[x].w == s[y].w ==> Precedes(PairOf(s[x]), PairOf(s[y]))
  }

  lemma {:induction false} InsertKeepsTies(s: seq<Weighted>, p: Weighted)
    requires TiesInOrder(s) && forall x :: 0 <= x < |s| ==> Precedes(PairOf(s[x]), PairOf(p))
    ensures TiesInOrder(Insert(s, p, WeightOf))
    ensures forall x :: 0 <= x <= |s| ==> Insert(s, p, WeightOf)[x] == p || Insert(s, p, WeightOf)[x] in s
  {
    if s != [] && s[|s| - 1].w > p.w {
      var front, last := s[..|s| - 1], s[|s| - 1];
      InsertKeepsTies(front, p);
      var r := Insert(front, p, WeightOf);
      forall x | 0 <= x < |r|
        ensures r[x].w == last.w ==> Precedes(PairOf(r[x]), PairOf(last))
        ensures r[x] == p || r[x] in s
      {
        if r[x] != p {
          var y :| 0 <= y < |front| && front[y] == r[x];
          assert s[y] == r[x];
        }
      }
      assert last in s;
    }
  }

  ghost predicate InOrder(ws: seq<Weighted>) {
    forall x, y :: 0 <= x < y < |ws| ==> Precedes(PairOf(ws[x]), PairOf(ws[y]))
  }

  lemma {:induction false} SortKeepsTies(ws: seq<Weighted>)
    requires InOrder(ws)
    ensures TiesInOrder(Sort(ws, WeightOf))
  {
    if ws != [] {
      var front, last := ws[..|ws| - 1], ws[|ws| - 1];
      var sorted := Sort(front, WeightOf);
      SortKeepsTies(front);
      SortSorts(front, WeightOf);
      forall x | 0 <= x < |sorted|
        ensures Precedes(PairOf(sorted[x]), PairOf(last))
      {
        assert sorted[x] in multiset(sorted);
        var y :| 0 <= y < |front| && front[y] == sorted[x];
        assert ws[y] == sorted[x];
      }
      InsertKeepsTies(sorted, last);
    }
  }

  ghost predicate Ordered(cs: seq<Weighted>) {
    forall x, y :: 0 <= x < y < |cs| ==> Sooner(cs[x], cs[y])
  }

  /** Pairs generated in lexicographic order are considered heaviest first, the later generated first among equals. */
  lemma ConsideredIsOrdered(ws: seq<Weighted>)
    requires InOrder(ws)
    ensures Ordered(Considered(ws))
  {
    var sorted := Sort(ws, WeightOf);
    SortKeepsTies(ws);
    SortSorts(ws, WeightOf);
    forall x, y | 0 <= x < y < |sorted|
      ensures Sooner(sorted[y], sorted[x])
    {
      assert WeightOf(sorted[x]) <= WeightOf(sorted[y]);
    }
  }

  // ---------------------------------------------------------------- what is taken

  type Product = (nat, nat) -> real

  /** Of two peaks with a product, one with itself weighs more than that product, or both weigh as much. */
  ghost predicate Dominated(f: Product, i: nat, j: nat) {
    f(i, j) != 0.0 ==>
      && f(i, i) != 0.0 && f(j, j) != 0.0
      && (f(i, i) > f(i, j) || f(j, j) > f(i, j) || f(i, i) == f(i, j) == f(j, j))
  }

  ghost predicate Dominant(f: Product, n: nat) {
    && (forall i: nat :: i < n ==> f(i, i) >= 0.0)
    && forall i: nat, j: nat :: i < n && j < n ==> Dominated(f, i, j)
  }

  /** Pairs of peaks of one spectrum, each peak with itself among them. */
  ghost predicate SelfPairs(cs: seq<Weighted>, f: Product, n: nat) {
    && (forall k :: 0 <= k < |cs| ==> cs[k].i < n && cs[k].j < n && cs[k].w == f(cs[k].i, cs[k].j))
    && forall i: nat :: i < n ==> Weighted(i, i, f(i, i)) in cs
  }

  ghost predicate Diagonal(p: Weighted) {
    p.i == p.j
  }

  /** A crossing pair of some weight comes later than one of its two peaks with itself. */
  lemma CrossingComesLater(f: Product, p: Weighted) returns (i: nat)
    requires Dominated(f, p.i, p.j) && p.w == f(p.i, p.j) != 0.0 && !Diagonal(p)
    ensures (i == p.i || i == p.j) && f(i, i) != 0.0 && Sooner(Weighted(i, i, f(i, i)), p)
  {
    i := if f(p.i, p.i) > p.w then p.i else if f(p.j, p.j) > p.w then p.j else if p.i < p.j then p.j else p.i;
  }

  ghost predicate DiagonalOrNothing(taken: seq<Weighted>) {
    forall k :: 0 <= k < |taken| ==> Diagonal(taken[k]) || taken[k].w == 0.0
  }

  /** Of the first `m` pairs, those of a peak with itself are taken, and no crossing ones of any weight. */
  lemma {:induction false} DiagonalIsTaken(cs: seq<Weighted>, f: Product, n: nat, m: nat)
    requires Ordered(cs) && SelfPairs(cs, f, n) && Dominant(f, n) && m <= |cs|
    ensures DiagonalOrNothing(Taken(cs, m))
    ensures forall k :: 0 <= k < m && Diagonal(cs[k]) && cs[k].w != 0.0 ==> cs[k] in Taken(cs, m)
  {
    if m > 0 {
      DiagonalIsTaken(cs, f, n, m - 1);
      if Diagonal(cs[m - 1]) && cs[m - 1].w != 0.0 {
        DiagonalIsFree(cs, f, n, m - 1);
      } else if !Diagonal(cs[m - 1]) && cs[m - 1].w != 0.0 {
        CrossingIsBlocked(cs, f, n, m - 1);
      }
    }
  }

  lemma DiagonalIsFree(cs: seq<Weighted>, f: Product, n: nat, m: nat)
    requires Ordered(cs) && SelfPairs(cs, f, n) && Dominant(f, n) && m < |cs| && DiagonalOrNothing(Taken(cs, m))
    requires Diagonal(cs[m]) && cs[m].w != 0.0
    ensures Free(Taken(cs, m), cs[m])
  {
    var p, taken := cs[m], Taken(cs, m);
    TakenIsOneToOne(cs, m);
    forall k | 0 <= k < |taken|
      ensures !Conflict(taken[k], p)
    {
      assert taken[k] in taken;
      var x :| 0 <= x < m && cs[..m][x] == taken[k];
      assert Sooner(cs[x], cs[m]);
    }
  }

  lemma SoonerIsEarlier(cs: seq<Weighted>, k: nat, m: nat)
    requires Ordered(cs) && k < |cs| && m < |cs| && Sooner(cs[k], cs[m])
    ensures k < m
  {
  }

  lemma ComesSooner(cs: seq<Weighted>, d: Weighted, m: nat) returns (k: nat)
    requires Ordered(cs) && m < |cs| && d in cs && Sooner(d, cs[m])
    ensures k < m && cs[k] == d
  {
    k :| 0 <= k < |cs| && cs[k] == d;
    SoonerIsEarlier(cs, k, m);
  }

  lemma CrossingIsBlocked(cs: seq<Weighted>, f: Product, n: nat, m: nat)
    requires Ordered(cs) && SelfPairs(cs, f, n) && Dominant(f, n) && m < |cs| && !Diagonal(cs[m]) && cs[m].w != 0.0
    requires forall k :: 0 <= k < m && Diagonal(cs[k]) && cs[k].w != 0.0 ==> cs[k] in Taken(cs, m)
    ensures !Free(Taken(cs, m), cs[m])
  {
    assert Dominated(f, cs[m].i, cs[m].j);
    var i := CrossingComesLater(f, cs[m]);
    var k := ComesSooner(cs, Weighted(i, i, f(i, i)), m);
    var x :| 0 <= x < |Taken(cs, m)| && Taken(cs, m)[x] == cs[k];
    assert Conflict(Taken(cs, m)[x], cs[m]);
  }

  // ---------------------------------------------------------------- what it adds up to

  lemma {:induction false} SumUpdated(xs: seq<real>, k: nat, v: real)
    requires k < |xs|
    ensures Sum(xs[k := v]) == Sum(xs) - xs[k] + v
  {
    var r := xs[k := v];
    if k < |xs| - 1 {
      SumUpdated(xs[..|xs| - 1], k, v);
      assert r[..|xs| - 1] == xs[..|xs| - 1][k := v];
    } else {
      assert r[..|xs| - 1] == xs[..|xs| - 1];
    }
  }

  /** Every number that is not 0 is the weight of a pair at its place. */
  ghost predicate Covered(ms: seq<Weighted>, xs: seq<real>) {
    forall i :: 0 <= i < |xs| && xs[i] != 0.0 ==> Weighted(i, i, xs[i]) in ms
  }

  lemma {:induction false} CoveredSum(ms: seq<Weighted>, xs: seq<real>)
    requires OneToOne(ms) && Covered(ms, xs) && forall k :: 0 <= k < |ms| ==> ms[k].w >= 0.0
    ensures Sum(xs) <= Total(ms)
  {
    if ms == [] {
      NothingSums(xs);
    } else {
      var front, last := ms[..|ms| - 1], ms[|ms| - 1];
      SplitLast(ms);
      if last.i < |xs| && xs[last.i] != 0.0 && last == Weighted(last.i, last.i, xs[last.i]) {
        var less := xs[last.i := 0.0];
        SumUpdated(xs, last.i, 0.0);
        CoveredSum(front, less);
      } else {
        CoveredSum(front, xs);
      }
    }
  }

  lemma {:induction false} NothingSums(xs: seq<real>)
    requires forall i :: 0 <= i < |xs| ==> xs[i] == 0.0
    ensures Sum(xs) == 0.0
  {
    if xs != [] {
      NothingSums(xs[..|xs| - 1]);
    }
  }

  // ---------------------------------------------------------------- the score

  /** No shifted pairs are tried. */
  predicate Unshifted(tolerance: real, shift: Option<real>) {
    shift.None? || -tolerance <= shift.value <= tolerance
  }

  lemma SquareIsPositive(d: real)
    requires d != 0.0
    ensures d * d > 0.0
  {
    if d > 0.0 {
      PositiveProduct(d, d);
    } else {
      PositiveProduct(-d, -d);
      assert -d * -d == d * d;
    }
  }

  lemma SquareIsNonNegative(d: real)
    ensures d * d >= 0.0
  {
    if d != 0.0 {
      SquareIsPositive(d);
    }
  }

  lemma ProductIsDominated(x: real, y: real)
    ensures x * x >= 0.0 && (x * y != 0.0 ==> x * x != 0.0 && y * y != 0.0)
    ensures x * x > x * y || y * y > x * y || x * x == x * y == y * y
  {
    var d := x - y;
    assert d * d == (x * x - x * y) + (y * y - x * y);
    SquareIsNonNegative(x);
    if d != 0.0 {
      SquareIsPositive(d);
    }
    if x * y != 0.0 {
      FactorsCount(x, y);
    }
  }

  lemma FactorsCount(x: real, y: real)
    requires x * y != 0.0
    ensures x * x != 0.0 && y * y != 0.0
  {
    assert x != 0.0 && y != 0.0;
    SquareIsPositive(x);
    SquareIsPositive(y);
  }

  ghost function Products(w: seq<real>): Product {
    (i: nat, j: nat) => if i < |w| && j < |w| then w[i] * w[j] else 0.0
  }

  lemma ProductsAre(w: seq<real>, i: nat, j: nat)
    requires i < |w| && j < |w|
    ensures Products(w)(i, j) == w[i] * w[j] && (i == j ==> Products(w)(i, j) == SquareAll(w)[i])
  {
  }

  lemma ProductsAreDominant(w: seq<real>)
    ensures Dominant(Products(w), |w|)
  {
    var f := Products(w);
    forall i: nat, j: nat | i < |w| && j < |w|
      ensures f(i, i) >= 0.0 && Dominated(f, i, j)
    {
      PairIsDominated(w, i, j);
    }
  }

  lemma PairIsDominated(w: seq<real>, i: nat, j: nat)
    requires i < |w| && j < |w|
    ensures Products(w)(i, i) >= 0.0 && Dominated(Products(w), i, j)
  {
    var f := Products(w);
    ProductsAre(w, i, i);
    ProductsAre(w, i, j);
    ProductsAre(w, j, j);
    SameDominated(w[i], w[j], f(i, i), f(i, j), f(j, j));
  }

  lemma SameDominated(x: real, y: real, xx: real, xy: real, yy: real)
    requires xx == x * x && xy == x * y && yy == y * y
    ensures xx >= 0.0 && (xy != 0.0 ==> xx != 0.0 && yy != 0.0) && (xx > xy || yy > xy || xx == xy == yy)
  {
    ProductIsDominated(x, y);
  }

  lemma CandidatesOfSelf(a: Spectrum, tolerance: real, shift: Option<real>)
    requires |a.mz| == |a.weight| && tolerance >= 0.0 && Unshifted(tolerance, shift)
    ensures forall p | p in Candidates(a, a, tolerance, shift) :: p.0 < |a.weight| && p.1 < |a.weight|
    ensures Lexicographic(Candidates(a, a, tolerance, shift))
    ensures forall i: nat :: i < |a.weight| ==> (i, i) in Candidates(a, a, tolerance, shift)
  {
    AllMatchesExact(a.mz, a.mz, tolerance, 0.0, |a.mz|);
    var pairs := Candidates(a, a, tolerance, shift);
    assert pairs == AllMatches(a.mz, a.mz, tolerance, 0.0, |a.mz|);
  }

  lemma WeighedAreSelfPairs(a: Spectrum, pairs: seq<Pair>)
    requires forall p | p in pairs :: p.0 < |a.weight| && p.1 < |a.weight|
    requires forall i: nat :: i < |a.weight| ==> (i, i) in pairs
    ensures SelfPairs(Considered(Weigh(a, a, pairs)), Products(a.weight), |a.weight|)
  {
    var ws, f := Weigh(a, a, pairs), Products(a.weight);
    var cs := Considered(ws);
    ConsideredMembers(ws);
    forall i: nat | i < |a.weight|
      ensures Weighted(i, i, f(i, i)) in cs
    {
      var y :| 0 <= y < |pairs| && pairs[y] == (i, i);
      assert ws[y] == Weighted(i, i, f(i, i));
    }
    forall k | 0 <= k < |cs|
      ensures cs[k].i < |a.weight| && cs[k].j < |a.weight| && cs[k].w == f(cs[k].i, cs[k].j)
    {
      ConsideredArePairs(a, a, pairs, cs[k]);
    }
  }

  lemma TakenWeighs(cs: seq<Weighted>, f: Product, taken: seq<Weighted>, xs: seq<real>)
    requires SelfPairs(cs, f, |xs|) && Dominant(f, |xs|) && DiagonalOrNothing(taken) && forall t | t in taken :: t in cs
    requires forall k :: 0 <= k < |cs| && Diagonal(cs[k]) && cs[k].w != 0.0 ==> cs[k] in taken
    requires forall i :: 0 <= i < |xs| ==> xs[i] == f(i, i)
    ensures Covered(taken, xs) && forall k :: 0 <= k < |taken| ==> taken[k].w >= 0.0
  {
    forall k | 0 <= k < |taken|
      ensures taken[k].w >= 0.0
    {
      assert taken[k] in taken;
    }
    forall i | 0 <= i < |xs| && xs[i] != 0.0
      ensures Weighted(i, i, xs[i]) in taken
    {
      var m :| 0 <= m < |cs| && cs[m] == Weighted(i, i, f(i, i));
    }
  }

  /** The squares of the weights are all taken, when every peak is paired with itself. */
  lemma SelfTakesNorm(cs: seq<Weighted>, w: seq<real>)
    requires Ordered(cs) && SelfPairs(cs, Products(w), |w|)
    ensures Sum(SquareAll(w)) <= Total(Taken(cs, |cs|))
  {
    var f, taken := Products(w), Taken(cs, |cs|);
    ProductsAreDominant(w);
    DiagonalIsTaken(cs, f, |w|, |cs|);
    TakenIsOneToOne(cs, |cs|);
    forall i | 0 <= i < |w|
      ensures SquareAll(w)[i] == f(i, i)
    {
      ProductsAre(w, i, i);
    }
    TakenWeighs(cs, f, taken, SquareAll(w));
    CoveredSum(taken, SquareAll(w));
  }

  /** Against itself a spectrum keeps all its weight: the selected sum is its squared norm. */
  lemma SelfSumIsNorm(a: Spectrum, tolerance: real, shift: Option<real>)
    requires |a.mz| == |a.weight| && tolerance >= 0.0 && Unshifted(tolerance, shift)
    ensures Total(Selected(a, a, tolerance, shift)) == Norm2(a)
  {
    var pairs := Candidates(a, a, tolerance, shift);
    CandidatesOfSelf(a, tolerance, shift);
    WeighedInOrder(a, pairs);
    ConsideredIsOrdered(Weigh(a, a, pairs));
    WeighedAreSelfPairs(a, pairs);
    SelfTakesNorm(Considered(Weigh(a, a, pairs)), a.weight);
    ScoreAtMostOne(a, a, tolerance, shift);
    AtMostNorm(Total(Selected(a, a, tolerance, shift)), Norm2(a));
  }

  lemma AtMostNorm(total: real, norm: real)
    requires Bounded(total, norm, norm)
    ensures total <= norm
  {
    SquareOrder(total, norm);
  }

  lemma WeighedInOrder(a: Spectrum, pairs: seq<Pair>)
    requires Lexicographic(pairs) && forall p | p in pairs :: p.0 < |a.weight| && p.1 < |a.weight|
    ensures InOrder(Weigh(a, a, pairs))
  {
    var ws := Weigh(a, a, pairs);
    forall x, y | 0 <= x < y < |ws|
      ensures Precedes(PairOf(ws[x]), PairOf(ws[y]))
    {
      assert Precedes(pairs[x], pairs[y]);
    }
  }

  lemma NormIsNonNegative(s: Spectrum)
    ensures Norm2(s) >= 0.0
  {
    MatchingWithinNorms(s, s, []);
  }

  lemma OneTimes(x: real, norms: real)
    requires norms == x != 0.0
    ensures x / norms == 1.0
  {
  }

  /** Identical spectra score 1, however close their peaks are to each other; a spectrum of no weight scores 0. */
  lemma SelfScoresOne(a: Spectrum, tolerance: real, shift: Option<real>, sqrt: real -> real)
    requires |a.mz| == |a.weight| && tolerance >= 0.0 && Unshifted(tolerance, shift) && IsSquareRoot(sqrt)
    ensures Score(a, a, tolerance, shift, sqrt) == if Norm2(a) == 0.0 then 0.0 else 1.0
  {
    SelfSumIsNorm(a, tolerance, shift);
    NormIsNonNegative(a);
    var norms := Norms(a, a, sqrt);
    assert norms == Norm2(a);
    if Norm2(a) != 0.0 {
      OneTimes(Norm2(a), norms);
    }
  }

  /** The score is the selected sum on the scale of the norms. */
  lemma ScoreTimesNorms(a: Spectrum, b: Spectrum, tolerance: real, shift: Option<real>, sqrt: real -> real)
    requires |a.mz| == |a.weight| && |b.mz| == |b.weight| && IsSquareRoot(sqrt)
    ensures Score(a, b, tolerance, shift, sqrt) * Norms(a, b, sqrt) == Total(Selected(a, b, tolerance, shift))
  {
    ScoreAtMostOne(a, b, tolerance, shift);
    BoundedByRoots(Total(Selected(a, b, tolerance, shift)), Norm2(a), Norm2(b), sqrt);
    if Norms(a, b, sqrt) != 0.0 {
      Quotient(Total(Selected(a, b, tolerance, shift)), Norms(a, b, sqrt));
    }
  }

  /** Those are the square roots of the sums of the squared weights, multiplied. */
  lemma NormsSquared(a: Spectrum, b: Spectrum, sqrt: real -> real)
    requires IsSquareRoot(sqrt)
    ensures Norms(a, b, sqrt) >= 0.0 && Norms(a, b, sqrt) * Norms(a, b, sqrt) == Norm2(a) * Norm2(b)
  {
    NormIsNonNegative(a);
    NormIsNonNegative(b);
    ProductOfBounds(0.0, sqrt(Norm2(a)), 0.0, sqrt(Norm2(b)));
    SquareOfProduct(sqrt(Norm2(a)), sqrt(Norm2(b)), Norm2(a), Norm2(b));
  }

  lemma SquareOfProduct(x: real, y: real, u: real, v: real)
    requires x * x == u && y * y == v
    ensures (x * y) * (x * y) == u * v
  {
    assert (x * y) * (x * y) == (x * x) * (y * y);
  }
}
