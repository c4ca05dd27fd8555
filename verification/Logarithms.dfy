/**
 The logarithms of `entropy_similarity` in `src/core/spectral.rs`: x log x, the entropy of intensities that
 sum to 1, and the gain of a pair. A logarithm is any function that turns products into sums and lies below
 one of its tangents at 1; nothing else about it is used.
 */
module Logarithms {
  import opened RealArithmetic
  import opened CauchySchwarz

  type Log = real -> real

  ghost predicate SumsProducts(log: Log, x: real, y: real) {
    x > 0.0 && y > 0.0 ==> log(x * y) == log(x) + log(y)
  }

  ghost predicate BelowTangent(log: Log, slope: real, x: real) {
    x > 0.0 ==> log(x) <= slope * (x - 1.0)
  }

  ghost predicate IsLogarithm(log: Log, slope: real) {
    slope > 0.0 && (forall x, y :: SumsProducts(log, x, y)) && forall x :: BelowTangent(log, slope, x)
  }

  /** `xlog2x`, for any logarithm. */
  function XLog(log: Log, x: real): real {
    if x > 0.0 then x * log(x) else 0.0
  }

  lemma LogOfOne(log: Log, slope: real)
    requires IsLogarithm(log, slope)
    ensures log(1.0) == 0.0
  {
    assert SumsProducts(log, 1.0, 1.0);
  }

  lemma LogOfQuotient(log: Log, slope: real, x: real, y: real)
    requires IsLogarithm(log, slope) && x > 0.0 && y > 0.0
    ensures x / y > 0.0 && log(x / y) == log(x) - log(y)
  {
    QuotientIsPositive(x, y);
    Quotient(x, y);
    assert SumsProducts(log, x / y, y);
  }

  lemma QuotientIsPositive(x: real, y: real)
    requires x > 0.0 && y > 0.0
    ensures x / y > 0.0
  {
    if x / y <= 0.0 {
      Quotient(x, y);
      MulMonotone(x / y, 0.0, y);
    }
  }

  /** The tangent inequality for a quotient, multiplied out. */
  lemma TangentAt(log: Log, slope: real, x: real, y: real)
    requires IsLogarithm(log, slope) && x > 0.0 && y > 0.0
    ensures y * (log(x) - log(y)) <= slope * (x - y)
  {
    LogOfQuotient(log, slope, x, y);
    assert BelowTangent(log, slope, x / y);
    MulMonotone(log(x / y), slope * (x / y - 1.0), y);
    Distributes(slope, x, y);
  }

  lemma Distributes(slope: real, x: real, y: real)
    requires y > 0.0
    ensures slope * (x / y - 1.0) * y == slope * (x - y)
  {
    Quotient(x, y);
    assert (x / y - 1.0) * y == x - y;
    Associates(slope, x / y - 1.0, y);
  }

  lemma Associates(a: real, b: real, c: real)
    ensures a * b * c == a * (b * c)
  {
  }

  /** Logarithms keep the order. */
  lemma LogIsMonotone(log: Log, slope: real, x: real, y: real)
    requires IsLogarithm(log, slope) && 0.0 < x <= y
    ensures log(x) <= log(y)
  {
    TangentAt(log, slope, x, y);
    MulMonotone(x - y, 0.0, slope);
    if log(x) > log(y) {
      PositiveProduct(y, log(x) - log(y));
    }
  }

  // ---------------------------------------------------------------- the gain of a pair

  type Gain = (real, real) -> real

  function GainOf(log: Log): Gain {
    (x: real, y: real) => XLog(log, x + y) - XLog(log, x) - XLog(log, y)
  }

  ghost predicate IsBinaryLogarithm(log: Log, slope: real) {
    IsLogarithm(log, slope) && log(2.0) == 1.0
  }

  lemma GainParts(log: Log, x: real, y: real)
    requires x > 0.0 && y > 0.0
    ensures GainOf(log)(x, y) == x * (log(x + y) - log(x)) + y * (log(x + y) - log(y))
  {
  }

  /** The gain of equal intensities is both of them; it never exceeds that, and is never negative. */
  lemma GainIsBounded(log: Log, slope: real, x: real, y: real)
    requires IsBinaryLogarithm(log, slope) && x >= 0.0 && y >= 0.0
    ensures 0.0 <= GainOf(log)(x, y) <= x + y
  {
    if x > 0.0 && y > 0.0 {
      GainParts(log, x, y);
      LogIsMonotone(log, slope, x, x + y);
      LogIsMonotone(log, slope, y, x + y);
      ProductOfBounds(0.0, x, 0.0, log(x + y) - log(x));
      ProductOfBounds(0.0, y, 0.0, log(x + y) - log(y));
      GainAtMost(log, slope, x, y);
    }
  }

  lemma GainAtMost(log: Log, slope: real, x: real, y: real)
    requires IsBinaryLogarithm(log, slope) && x > 0.0 && y > 0.0
    ensures x * (log(x + y) - log(x)) + y * (log(x + y) - log(y)) <= x + y
  {
    var s, half := log(x + y), (x + y) / 2.0;
    assert SumsProducts(log, 2.0, half);
    TangentAt(log, slope, half, x);
    TangentAt(log, slope, half, y);
    assert log(half) == s - 1.0;
    Shifted(x, s, log(x));
    Shifted(y, s, log(y));
    Cancels(slope, half, x, y);
  }

  lemma Shifted(x: real, s: real, l: real)
    ensures x * (s - l) == x * (s - 1.0 - l) + x
  {
  }

  lemma Cancels(slope: real, half: real, x: real, y: real)
    requires x + y == 2.0 * half
    ensures slope * (half - x) + slope * (half - y) == 0.0
  {
    assert half - y == -(half - x);
    assert slope * -(half - x) == -(slope * (half - x));
  }

  lemma LogOfTwice(log: Log, slope: real, x: real)
    requires IsBinaryLogarithm(log, slope) && x > 0.0
    ensures log(x + x) == 1.0 + log(x)
  {
    assert SumsProducts(log, 2.0, x);
    assert x + x == 2.0 * x;
  }

  lemma OneMoreEach(x: real, l: real)
    ensures (x + x) * (1.0 + l) - x * l - x * l == x + x
  {
  }

  lemma GainOfEqualPair(log: Log, slope: real, x: real)
    requires IsBinaryLogarithm(log, slope) && x >= 0.0
    ensures GainOf(log)(x, x) == x + x
  {
    if x > 0.0 {
      LogOfTwice(log, slope, x);
      OneMoreEach(x, log(x));
    }
  }

  lemma GainIsSymmetric(log: Log, x: real, y: real)
    ensures GainOf(log)(x, y) == GainOf(log)(y, x)
  {
    assert x + y == y + x;
  }

  // ---------------------------------------------------------------- entropy

  /** The entropy of intensities, zeros skipped. */
  function Entropy(ln: Log, p: seq<real>): real {
    if p == [] then 0.0 else Entropy(ln, p[..|p| - 1]) - XLog(ln, p[|p| - 1])
  }

  lemma TermWithin(ln: Log, slope: real, x: real, n: real)
    requires IsLogarithm(ln, slope) && 0.0 <= x <= 1.0 && n > 0.0
    ensures 0.0 <= -XLog(ln, x) <= ln(n) * x + slope * (1.0 / n - x)
  {
    LogOfOne(ln, slope);
    QuotientIsPositive(1.0, n);
    if x > 0.0 {
      LogIsMonotone(ln, slope, x, 1.0);
      MulMonotone(ln(x), 0.0, x);
      LogOfQuotient(ln, slope, 1.0, n);
      TangentAt(ln, slope, 1.0 / n, x);
    } else {
      PositiveProduct(slope, 1.0 / n);
    }
  }

  lemma {:induction false} EntropyWithin(ln: Log, slope: real, p: seq<real>, n: real)
    requires IsLogarithm(ln, slope) && n > 0.0
    requires forall k :: 0 <= k < |p| ==> 0.0 <= p[k] <= 1.0
    ensures 0.0 <= Entropy(ln, p) <= ln(n) * Sum(p) + slope * (|p| as real * (1.0 / n) - Sum(p))
  {
    if p == [] {
      assert |p| as real * (1.0 / n) - Sum(p) == 0.0;
    } else {
      var front, x := p[..|p| - 1], p[|p| - 1];
      EntropyWithin(ln, slope, front, n);
      TermWithin(ln, slope, x, n);
      AddTerm(ln(n), slope, Sum(front), x, |front| as real, 1.0 / n);
    }
  }

  lemma AddTerm(l: real, slope: real, sum: real, x: real, m: real, u: real)
    ensures (l * sum + slope * (m * u - sum)) + (l * x + slope * (u - x)) == l * (sum + x) + slope * ((m + 1.0) * u - (sum + x))
  {
    assert slope * (m * u - sum) + slope * (u - x) == slope * ((m * u - sum) + (u - x));
    assert (m + 1.0) * u == m * u + u;
    assert l * sum + l * x == l * (sum + x);
  }

  lemma {:induction false} SumBounds(p: seq<real>, k: nat)
    requires NonNegative(p) && k < |p|
    ensures p[k] <= Sum(p) && 0.0 <= Sum(p)
    decreases |p|
  {
    if |p| == 1 {
      assert p[..0] == [];
    } else {
      SumBounds(p[..|p| - 1], if k < |p| - 1 then k else 0);
    }
  }

  /** The entropy of intensities that sum to 1 lies between 0 and the logarithm of their number. */
  lemma EntropyIsBounded(ln: Log, slope: real, p: seq<real>)
    requires IsLogarithm(ln, slope) && NonNegative(p) && Sum(p) == 1.0
    ensures p != [] && 0.0 <= Entropy(ln, p) <= ln(|p| as real)
  {
    var n := |p| as real;
    forall k | 0 <= k < |p|
      ensures 0.0 <= p[k] <= 1.0
    {
      SumBounds(p, k);
    }
    EntropyWithin(ln, slope, p, n);
    Quotient(1.0, n);
    assert n * (1.0 / n) - 1.0 == 0.0;
  }

  function Uniform(x: real, n: nat): (p: seq<real>)
    ensures |p| == n && forall k :: 0 <= k < n ==> p[k] == x
  {
    seq(n, k => x)
  }

  lemma {:induction false} EntropyOfSame(ln: Log, x: real, n: nat)
    ensures Entropy(ln, Uniform(x, n)) == -(n as real) * XLog(ln, x)
  {
    if n > 0 {
      EntropyOfSame(ln, x, n - 1);
      assert Uniform(x, n)[..n - 1] == Uniform(x, n - 1);
    }
  }

  /** It reaches that logarithm when all intensities are equal. */
  lemma EntropyOfUniform(ln: Log, slope: real, n: nat)
    requires IsLogarithm(ln, slope) && n > 0
    ensures Entropy(ln, Uniform(1.0 / n as real, n)) == ln(n as real)
  {
    var m := n as real;
    var u := 1.0 / m;
    EntropyOfSame(ln, u, n);
    LogOfOne(ln, slope);
    LogOfQuotient(ln, slope, 1.0, m);
    Quotient(1.0, m);
    assert -m * (u * ln(u)) == -(u * m) * ln(u);
  }
}
