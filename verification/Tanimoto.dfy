/**
 Hamming distance and Tanimoto similarity of `src/core/bitvec.rs`, as functions of the sets of true
 positions: two metrics.

 Sets may hold anything; only their sizes enter.
 */
module Tanimoto {
  import opened RealArithmetic

  ghost function Difference<T>(a: set<T>, b: set<T>): set<T> {
    (a - b) + (b - a)
  }

  ghost function Distance<T>(a: set<T>, b: set<T>): nat {
    |Difference(a, b)|
  }

  lemma SubsetSize<T>(a: set<T>, b: set<T>)
    requires a <= b
    ensures |a| <= |b|
  {
    assert b == a + (b - a);
  }

  lemma UnionSize<T>(a: set<T>, b: set<T>)
    ensures |a + b| <= |a| + |b|
  {
    assert |a + b| == |a| + |b| - |a * b|;
  }

  /** |a and b| + |a or b| = |a| + |b|, and the differing positions are those in one only. */
  lemma InclusionExclusion<T>(a: set<T>, b: set<T>)
    ensures |a * b| + |a + b| == |a| + |b|
    ensures Distance(a, b) == |a + b| - |a * b|
    ensures Distance(a, b) + 2 * |a * b| == |a| + |b|
  {
    assert a + b == Difference(a, b) + a * b;
    assert Difference(a, b) !! a * b;
  }

  /** Hamming distance is a metric. */
  lemma DistanceIsMetric<T>(a: set<T>, b: set<T>, c: set<T>)
    ensures Distance(a, b) == 0 <==> a == b
    ensures Distance(a, b) == Distance(b, a)
    ensures Distance(a, c) <= Distance(a, b) + Distance(b, c)
  {
    assert Difference(a, b) == Difference(b, a);
    if Distance(a, b) == 0 {
      assert a - b == {} && b - a == {};
      assert a == b;
    }
    assert Difference(a, c) <= Difference(a, b) + Difference(b, c);
    SubsetSize(Difference(a, c), Difference(a, b) + Difference(b, c));
    UnionSize(Difference(a, b), Difference(b, c));
  }

  /** Two empty sets are fully similar. */
  ghost function Similarity<T>(a: set<T>, b: set<T>): real {
    if |a + b| == 0 then 1.0 else |a * b| as real / |a + b| as real
  }

  lemma FractionBounds(x: real, y: real)
    requires 0.0 <= x <= y && y > 0.0
    ensures 0.0 <= x / y <= 1.0
    ensures x / y == 1.0 <==> x == y
  {
  }

  lemma SimilarityBounds<T>(a: set<T>, b: set<T>)
    ensures 0.0 <= Similarity(a, b) <= 1.0
    ensures Similarity(a, b) == 1.0 <==> a == b
    ensures Similarity(a, b) == Similarity(b, a)
  {
    InclusionExclusion(a, b);
    DistanceIsMetric(a, b, b);
    assert a + b == b + a && a * b == b * a;
    if |a + b| == 0 {
      assert a + b == {};
      assert a == {} && b == {};
    } else {
      SubsetSize(a * b, a + b);
      FractionBounds(|a * b| as real, |a + b| as real);
    }
  }

  lemma SplitShare(x: real, y: real, w: real)
    requires w > 0.0
    ensures (x + y) / w == x / w + y / w
  {
  }

  lemma Complement(x: real, y: real, z: real)
    requires y > 0.0 && z == y - x
    ensures 1.0 - x / y == z / y
  {
    var q, p := x / y, z / y;
    assert q * y == x && p * y == z;
    var off := q + p - 1.0;
    assert off * y == 0.0;
    if off > 0.0 {
      PositiveProduct(off, y);
    } else if off < 0.0 {
      NegativeProduct(off, y);
    }
  }

  /** Dissimilarity is the share of positions where they differ. */
  lemma DissimilarityIsShare<T>(a: set<T>, b: set<T>)
    requires |a + b| > 0
    ensures 1.0 - Similarity(a, b) == Distance(a, b) as real / |a + b| as real
  {
    InclusionExclusion(a, b);
    Complement(|a * b| as real, |a + b| as real, Distance(a, b) as real);
  }

  lemma CrossMultiply(x: real, y: real, u: real, v: real)
    requires y > 0.0 && v > 0.0 && x * v <= u * y
    ensures x / y <= u / v
  {
    var q, r := x / y, u / v;
    assert x == q * y && u == r * v;
    assert x * v - u * y == (q - r) * (y * v);
    PositiveProduct(y, v);
    if q > r {
      PositiveProduct(q - r, y * v);
    }
  }

  /** A share grows with the distance when the common part is kept. */
  lemma ShareGrows(d: real, s: real, u: real)
    requires 0.0 <= d <= s && d <= u && u > 0.0
    ensures d / u <= s / (u + (s - d) / 2.0)
  {
    var w := u + (s - d) / 2.0;
    assert d * w == d * u + d * ((s - d) / 2.0);
    MulMonotone(d / 2.0, u, s - d);
    assert d * ((s - d) / 2.0) == (d / 2.0) * (s - d);
    assert s * u == d * u + u * (s - d);
    CrossMultiply(d, u, s, w);
  }

  lemma SmallerBelow(x: real, y: real, z: real)
    requires x >= 0.0 && 0.0 < y <= z
    ensures x / z <= x / y
  {
    MulMonotone(y, z, x);
    CrossMultiply(x, z, x, y);
  }

  /** The arithmetic of the triangle inequality, in distances and union sizes. */
  lemma ShareTriangle(ab: real, bc: real, ac: real, uab: real, ubc: real, uac: real)
    requires 0.0 <= ab && 0.0 <= bc && 0.0 <= ac <= ab + bc && ac <= uac
    requires 0.0 < uab && 0.0 < ubc && 0.0 < uac
    requires uab <= uac + (ab + bc - ac) / 2.0 && ubc <= uac + (ab + bc - ac) / 2.0
    ensures ac / uac <= ab / uab + bc / ubc
  {
    var w := uac + (ab + bc - ac) / 2.0;
    ShareGrows(ac, ab + bc, uac);
    SplitShare(ab, bc, w);
    SmallerBelow(ab, uab, w);
    SmallerBelow(bc, ubc, w);
  }

  lemma UnionSizes<T>(a: set<T>, b: set<T>, c: set<T>)
    ensures 2 * |a + b| <= 2 * |a + c| + Distance(a, b) + Distance(b, c) - Distance(a, c)
  {
    InclusionExclusion(a, b);
    InclusionExclusion(b, c);
    InclusionExclusion(a, c);
    SizeDiffers(b, c);
  }

  lemma SizeDiffers<T>(b: set<T>, c: set<T>)
    ensures |b| <= |c| + Distance(b, c)
  {
    InclusionExclusion(b, c);
    SubsetSize(b * c, c);
  }

  /** `1 - tanimoto` satisfies the triangle inequality. */
  lemma DissimilarityTriangle<T>(a: set<T>, b: set<T>, c: set<T>)
    ensures 1.0 - Similarity(a, c) <= (1.0 - Similarity(a, b)) + (1.0 - Similarity(b, c))
  {
    SimilarityBounds(a, b);
    SimilarityBounds(b, c);
    SimilarityBounds(a, c);
    if |a + b| == 0 {
      assert a + b == {};
      assert a == {} && b == {};
    } else if |b + c| == 0 {
      assert b + c == {};
      assert b == {} && c == {};
    } else if |a + c| > 0 {
      DissimilarityIsShare(a, b);
      DissimilarityIsShare(b, c);
      DissimilarityIsShare(a, c);
      DistanceIsMetric(a, b, c);
      UnionSizes(a, b, c);
      DistanceIsMetric(c, b, a);
      DistanceIsMetric(c, a, b);
      UnionSizes(c, b, a);
      assert c + b == b + c && c + a == a + c;
      InclusionExclusion(a, c);
      ShareTriangle(Distance(a, b) as real, Distance(b, c) as real, Distance(a, c) as real,
                    |a + b| as real, |b + c| as real, |a + c| as real);
    }
  }
}
