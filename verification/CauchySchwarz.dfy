/**
 The Cauchy-Schwarz inequality, one term at a time, and sums over distinct places.

 `Bounded(t, u, v)` says that `t` squared is at most the product of `u` and `v`: the form in which the
 norms of `cosine_greedy` (`src/core/spectral.rs`) enter, without square roots. It survives sums, and the
 weights at distinct places never add up to more than all of them.
 */
module CauchySchwarz {
  import opened RealArithmetic

  /** `t^2 <= u v` with both factors non-negative: the Cauchy-Schwarz bound on `t`. */
  ghost predicate Bounded(t: real, u: real, v: real) {
    u >= 0.0 && v >= 0.0 && t * t <= u * v
  }

  lemma BoundedPair(x: real, y: real)
    ensures Bounded(x * y, x * x, y * y)
  {
    assert (x * y) * (x * y) == (x * x) * (y * y);
  }

  lemma BoundedWider(t: real, u: real, v: real, u': real, v': real)
    requires Bounded(t, u, v) && u <= u' && v <= v'
    ensures Bounded(t, u', v')
  {
    MulMonotone(u, u', v);
    MulMonotone(v, v', u');
  }

  /** Twice the product of two bounded terms is at most the mixed products of their bounds. */
  lemma CrossTerm(s: real, p: real, q: real, t: real, u: real, v: real)
    requires Bounded(s, p, q) && Bounded(t, u, v)
    ensures 2.0 * (s * t) <= p * v + u * q
  {
    var m, k := p * v, u * q;
    var left, right := 2.0 * (s * t), m + k;
    ProductOfBounds(s * s, p * q, t * t, u * v);
    assert left * left == 4.0 * ((s * s) * (t * t));
    assert m * k == (p * q) * (u * v);
    assert (s * s) * (t * t) <= m * k;
    SquareOfSum(m, k);
    assert m >= 0.0 && k >= 0.0;
    SquareOrder(left, right);
  }

  /** Cauchy-Schwarz is preserved by adding bounded terms. */
  lemma BoundedSum(s: real, p: real, q: real, t: real, u: real, v: real)
    requires Bounded(s, p, q) && Bounded(t, u, v)
    ensures Bounded(s + t, p + u, q + v)
  {
    CrossTerm(s, p, q, t, u, v);
    assert (s + t) * (s + t) == s * s + 2.0 * (s * t) + t * t;
    assert (p + u) * (q + v) == p * q + (p * v + u * q) + u * v;
  }

  // ---------------------------------------------------------------- sums

  function Sum(xs: seq<real>): real {
    if xs == [] then 0.0 else Sum(xs[..|xs| - 1]) + xs[|xs| - 1]
  }

  function SquareAll(xs: seq<real>): (r: seq<real>)
    ensures |r| == |xs|
  {
    seq(|xs|, k requires 0 <= k < |xs| => xs[k] * xs[k])
  }

  predicate NonNegative(xs: seq<real>) {
    forall k :: 0 <= k < |xs| ==> xs[k] >= 0.0
  }

  ghost predicate Distinct(places: seq<nat>) {
    forall x, y :: 0 <= x < y < |places| ==> places[x] != places[y]
  }

  ghost predicate AllBelow(places: seq<nat>, n: nat) {
    forall k :: 0 <= k < |places| ==> places[k] < n
  }

  function SumAt(xs: seq<real>, places: seq<nat>): real
    requires AllBelow(places, |xs|)
  {
    if places == [] then 0.0
    else SumAt(xs, places[..|places| - 1]) + xs[places[|places| - 1]]
  }

  /** The places other than `n`, in order. */
  function Except(places: seq<nat>, n: nat): seq<nat> {
    if places == [] then []
    else
      var rest, last := Except(places[..|places| - 1], n), places[|places| - 1];
      if last == n then rest else rest + [last]
  }

  lemma {:induction false} ExceptMembers(places: seq<nat>, n: nat)
    ensures forall p :: p in Except(places, n) <==> p in places && p != n
    ensures Distinct(places) ==> Distinct(Except(places, n))
  {
    if places != [] {
      var front, last := places[..|places| - 1], places[|places| - 1];
      ExceptMembers(front, n);
      assert places == front + [last];
      var rest := Except(front, n);
      if Distinct(places) {
        forall x | 0 <= x < |rest| ensures rest[x] != last {
          assert rest[x] in rest;
        }
      }
    }
  }

  lemma ExceptIsDistinct(places: seq<nat>, n: nat)
    requires Distinct(places)
    ensures Distinct(Except(places, n))
  {
    ExceptMembers(places, n);
  }

  lemma ExceptBelow(places: seq<nat>, n: nat, bound: nat)
    requires AllBelow(places, bound)
    ensures AllBelow(Except(places, n), bound)
    ensures bound == n + 1 ==> AllBelow(Except(places, n), n)
  {
    ExceptMembers(places, n);
    var r := Except(places, n);
    forall k | 0 <= k < |r| ensures r[k] < bound && r[k] != n {
      assert r[k] in r;
    }
  }

  lemma {:induction false} ExceptIsIdentity(places: seq<nat>, n: nat)
    requires forall k :: 0 <= k < |places| ==> places[k] != n
    ensures Except(places, n) == places
  {
    if places != [] {
      ExceptIsIdentity(places[..|places| - 1], n);
    }
  }

  lemma {:induction false} SumAtExcept(xs: seq<real>, places: seq<nat>, n: nat)
    requires NonNegative(xs) && Distinct(places) && n < |xs| && AllBelow(places, |xs|)
    ensures AllBelow(Except(places, n), |xs|)
    ensures SumAt(xs, places) <= SumAt(xs, Except(places, n)) + xs[n]
  {
    ExceptBelow(places, n, |xs|);
    if places != [] {
      var front, last := places[..|places| - 1], places[|places| - 1];
      if last == n {
        ExceptIsIdentity(front, n);
      } else {
        SumAtExcept(xs, front, n);
        var rest := Except(front, n);
        assert (rest + [last])[..|rest|] == rest;
      }
    }
  }

  /** Non-negative values at distinct places sum to at most all the values. */
  lemma {:induction false} SumAtDistinct(xs: seq<real>, places: seq<nat>, n: nat)
    requires NonNegative(xs) && Distinct(places) && n <= |xs| && AllBelow(places, n)
    ensures SumAt(xs, places) <= Sum(xs[..n])
    decreases n
  {
    if n == 0 {
      assert places == [];
    } else {
      var rest := Except(places, n - 1);
      ExceptBelow(places, n - 1, n);
      ExceptIsDistinct(places, n - 1);
      SumAtDistinct(xs, rest, n - 1);
      SumAtExcept(xs, places, n - 1);
      SumPrefix(xs, n);
    }
  }

  lemma SumPrefix(xs: seq<real>, n: nat)
    requires 0 < n <= |xs|
    ensures Sum(xs[..n]) == Sum(xs[..n - 1]) + xs[n - 1]
  {
    assert xs[..n][..n - 1] == xs[..n - 1];
  }

  // ---------------------------------------------------------------- quotients

  /** `x^2 / (p q)`, or 0 when that product is 0. */
  function NormalizedSquare(x: real, p: real, q: real): real {
    if p * q == 0.0 then 0.0 else (x * x) / (p * q)
  }

  lemma NormalizedAtMostOne(x: real, p: real, q: real)
    requires Bounded(x, p, q)
    ensures 0.0 <= NormalizedSquare(x, p, q) <= 1.0
  {
    if p * q != 0.0 {
      QuotientWithin(x * x, p * q, 0.0, 1.0);
    }
  }
}
