/**
 Products and quotients of reals, one step at a time.

 The solver is left no nonlinear goal with more than one product of variables in it: larger
 arguments chain these steps. Every fact here is elementary, and none is about
 the engine.
 */
module RealArithmetic {
  lemma MulMonotone(a: real, b: real, c: real)
    requires a <= b && c >= 0.0
    ensures a * c <= b * c
  {
  }

  lemma NegativeProduct(f: real, d: real)
    requires f < 0.0 < d
    ensures f * d < 0.0
  {
  }

  lemma PositiveProduct(a: real, b: real)
    requires a > 0.0 && b > 0.0
    ensures a * b > 0.0
  {
  }

  lemma Quotient(a: real, s: real)
    requires s != 0.0
    ensures (a / s) * s == a
  {
  }

  /** Dividing by a positive number keeps the order. */
  lemma QuotientMonotone(a: real, b: real, s: real)
    requires s > 0.0 && a <= b
    ensures a / s <= b / s
  {
    var q, r := a / s, b / s;
    Quotient(a, s);
    Quotient(b, s);
    if q > r {
      PositiveProduct(q - r, s);
    }
  }

  /** A quotient lies between two bounds when its dividend lies between their multiples. */
  lemma QuotientWithin(w: real, t: real, lo: real, hi: real)
    requires t > 0.0 && lo * t <= w <= hi * t
    ensures lo <= w / t <= hi && (w / t) * t == w
  {
    var q := w / t;
    assert q * t == w;
    if q - lo < 0.0 {
      NegativeProduct(q - lo, t);
    }
    if hi - q < 0.0 {
      NegativeProduct(hi - q, t);
    }
  }

  lemma SquareMonotone(v: real, u: real)
    requires 0.0 <= v < u
    ensures v * v < u * u
  {
    assert u * (u - v) > 0.0 && v * (u - v) >= 0.0;
  }

  lemma SquareOrder(u: real, v: real)
    requires v >= 0.0 && u * u <= v * v
    ensures u <= v
  {
    if u > v {
      SquareMonotone(v, u);
    }
  }

  lemma SquareOfSum(m: real, k: real)
    ensures (m + k) * (m + k) >= 4.0 * (m * k)
  {
    assert (m + k) * (m + k) == (m - k) * (m - k) + 4.0 * (m * k);
  }

  lemma ProductOfBounds(a: real, b: real, c: real, d: real)
    requires 0.0 <= a <= b && 0.0 <= c <= d
    ensures a * c <= b * d
  {
    MulMonotone(a, b, c);
    MulMonotone(c, d, b);
  }
}
