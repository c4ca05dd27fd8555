/**
 `entropy_similarity` of `src/core/spectral.rs`. The logarithms and the power function are parameters: of the
 binary logarithm it matters that it is one, of the power function that a power of a positive number is positive.
 */
module EntropyScore {
  import opened Common
  import opened RealArithmetic
  import opened CauchySchwarz
  import opened PeakSweep
  import opened EntropySweep
  import opened Logarithms

  /** Intensities scaled to sum to 1. */
  ghost predicate Distribution(p: seq<real>) {
    NonNegative(p) && Sum(p) == 1.0
  }

  ghost predicate GainBounded(gain: Gain) {
    forall x, y :: x >= 0.0 && y >= 0.0 ==> 0.0 <= gain(x, y) <= x + y
  }

  ghost predicate GainOfEqual(gain: Gain) {
    forall x :: x >= 0.0 ==> gain(x, x) == x + x
  }

  ghost predicate Symmetric(gain: Gain) {
    forall x, y :: gain(x, y) == gain(y, x)
  }

  /** The nearest number of the unit interval. */
  function Clamp(x: real): (r: real)
    ensures 0.0 <= r <= 1.0 && (r < x ==> r == 1.0) && (x < r ==> r == 0.0)
  {
    if x < 0.0 then 0.0 else if x > 1.0 then 1.0 else x
  }

  // ---------------------------------------------------------------- intensities that sum to 1

  datatype Functions = Functions(entropy: seq<real> -> real, power: (real, real) -> real, gain: Gain)

  ghost predicate PowersArePositive(f: Functions) {
    forall x, e :: x > 0.0 ==> f.power(x, e) > 0.0
  }

  /** `gain` is that of a binary logarithm. */
  ghost predicate Binary(f: Functions) {
    exists log2, slope :: IsBinaryLogarithm(log2, slope) && f.gain == GainOf(log2)
  }

  /** `entropy` is that of a natural logarithm. */
  ghost predicate Natural(f: Functions, ln: Log) {
    IsLogarithm(ln, 1.0) && forall p :: f.entropy(p) == Entropy(ln, p)
  }

  /** The gain of `x log2 x` is what the score needs. */
  lemma BinaryGain(f: Functions)
    requires Binary(f)
    ensures GainBounded(f.gain) && GainOfEqual(f.gain) && Symmetric(f.gain)
  {
    var log2, slope :| IsBinaryLogarithm(log2, slope) && f.gain == GainOf(log2);
    forall x, y
      ensures f.gain(x, y) == f.gain(y, x)
      ensures x >= 0.0 && y >= 0.0 ==> 0.0 <= f.gain(x, y) <= x + y
      ensures x >= 0.0 ==> f.gain(x, x) == x + x
    {
      GainIsSymmetric(log2, x, y);
      if x >= 0.0 {
        GainOfEqualPair(log2, slope, x);
        if y >= 0.0 {
          GainIsBounded(log2, slope, x, y);
        }
      }
    }
  }

  function DividedBy(xs: seq<real>, s: real): (r: seq<real>)
    requires s != 0.0
    ensures |r| == |xs| && forall k :: 0 <= k < |r| ==> r[k] == xs[k] / s
  {
    seq(|xs|, k requires 0 <= k < |xs| => xs[k] / s)
  }

  function RaisedTo(xs: seq<real>, f: Functions, e: real): (r: seq<real>)
    ensures |r| == |xs| && forall k :: 0 <= k < |r| ==> r[k] == if xs[k] > 0.0 then f.power(xs[k], e) else 0.0
  {
    seq(|xs|, k requires 0 <= k < |xs| => if xs[k] > 0.0 then f.power(xs[k], e) else 0.0)
  }

  lemma {:induction false} SumOfDivided(xs: seq<real>, s: real)
    requires s != 0.0
    ensures Sum(DividedBy(xs, s)) == Sum(xs) / s
  {
    if xs != [] {
      SumOfDivided(xs[..|xs| - 1], s);
      assert DividedBy(xs, s)[..|xs| - 1] == DividedBy(xs[..|xs| - 1], s);
    }
  }

  lemma DividedIsDistribution(xs: seq<real>)
    requires NonNegative(xs) && Sum(xs) > 0.0
    ensures Distribution(DividedBy(xs, Sum(xs)))
  {
    var s := Sum(xs);
    SumOfDivided(xs, s);
    Quotient(s, s);
    forall k | 0 <= k < |xs|
      ensures xs[k] / s >= 0.0
    {
      QuotientMonotone(0.0, xs[k], s);
    }
  }

  /** Non-negative numbers sum to 0 exactly when all of them are 0. */
  lemma {:induction false} SumIsPositive(xs: seq<real>)
    requires NonNegative(xs)
    ensures Sum(xs) >= 0.0 && (Sum(xs) > 0.0 <==> exists k :: 0 <= k < |xs| && xs[k] > 0.0)
  {
    if xs != [] {
      var front := xs[..|xs| - 1];
      SumIsPositive(front);
      if k :| 0 <= k < |front| && front[k] > 0.0 {
        assert xs[k] > 0.0;
      }
    }
  }

  lemma RaisedIsPositive(p: seq<real>, f: Functions, e: real)
    requires Distribution(p) && PowersArePositive(f)
    ensures NonNegative(RaisedTo(p, f, e)) && Sum(RaisedTo(p, f, e)) > 0.0
  {
    SumIsPositive(p);
    var k :| 0 <= k < |p| && p[k] > 0.0;
    assert RaisedTo(p, f, e)[k] > 0.0;
    SumIsPositive(RaisedTo(p, f, e));
  }

  /** `entropy_intensities`: scaled to sum to 1, weighted when the entropy is low and scaled again; none for silence. */
  function Intensities(xs: seq<real>, weighted: bool, f: Functions): (p: Option<seq<real>>)
    requires NonNegative(xs) && PowersArePositive(f)
    ensures p.Some? ==> |p.value| == |xs| && Distribution(p.value)
    ensures p.None? <==> forall k :: 0 <= k < |xs| ==> xs[k] == 0.0
  {
    SumIsPositive(xs);
    if Sum(xs) <= 0.0 then None
    else
      DividedIsDistribution(xs);
      var p := DividedBy(xs, Sum(xs));
      var h := f.entropy(p);
      if weighted && h < 3.0 then
        var raised := RaisedTo(p, f, 0.25 + 0.25 * h);
        RaisedIsPositive(p, f, 0.25 + 0.25 * h);
        DividedIsDistribution(raised);
        Some(DividedBy(raised, Sum(raised)))
      else Some(p)
  }

  /** In the proportions of `xs`, on a scale of `t`. */
  ghost predicate Proportional(p: seq<real>, xs: seq<real>, t: real) {
    |p| == |xs| && forall k :: 0 <= k < |xs| ==> p[k] * t == xs[k]
  }

  /** In the proportions of the powers of the `xs` that are not 0, each divided by `t` first. */
  ghost predicate Powers(p: seq<real>, s: real, xs: seq<real>, t: real, power: (real, real) -> real, e: real)
    requires t > 0.0
  {
    |p| == |xs| && forall k :: 0 <= k < |xs| ==> if xs[k] > 0.0 then p[k] * s == power(xs[k] / t, e) else p[k] == 0.0
  }

  lemma DividedIsProportional(xs: seq<real>, t: real)
    requires t != 0.0
    ensures Proportional(DividedBy(xs, t), xs, t)
  {
    forall k | 0 <= k < |xs|
      ensures DividedBy(xs, t)[k] * t == xs[k]
    {
      Quotient(xs[k], t);
    }
  }

  lemma SameSign(x: real, t: real)
    requires t > 0.0
    ensures x > 0.0 <==> x / t > 0.0
  {
    Quotient(x, t);
    if x / t > 0.0 {
      PositiveProduct(x / t, t);
    } else {
      MulMonotone(x / t, 0.0, t);
    }
  }

  lemma DividedArePowers(xs: seq<real>, t: real, f: Functions, e: real, s: real)
    requires t > 0.0 && s > 0.0
    ensures Powers(DividedBy(RaisedTo(DividedBy(xs, t), f, e), s), s, xs, t, f.power, e)
  {
    forall k | 0 <= k < |xs|
      ensures var p := DividedBy(RaisedTo(DividedBy(xs, t), f, e), s);
              if xs[k] > 0.0 then p[k] * s == f.power(xs[k] / t, e) else p[k] == 0.0
    {
      SameSign(xs[k], t);
      Quotient(RaisedTo(DividedBy(xs, t), f, e)[k], s);
    }
  }

  /** Unweighted, or at an entropy of 3 or more, the intensities keep their proportions. */
  lemma IntensitiesKeepProportions(xs: seq<real>, weighted: bool, f: Functions)
    requires NonNegative(xs) && PowersArePositive(f) && Sum(xs) > 0.0
    requires !weighted || f.entropy(DividedBy(xs, Sum(xs))) >= 3.0
    ensures Intensities(xs, weighted, f).Some? && Proportional(Intensities(xs, weighted, f).value, xs, Sum(xs))
  {
    DividedIsProportional(xs, Sum(xs));
  }

  /**
   At a lower entropy they are in the proportions of powers of the scaled intensities. The exponent grows with the
   entropy; what was 0 stays 0.
   */
  lemma IntensitiesArePowers(xs: seq<real>, f: Functions) returns (s: real)
    requires NonNegative(xs) && PowersArePositive(f) && Sum(xs) > 0.0 && f.entropy(DividedBy(xs, Sum(xs))) < 3.0
    ensures s > 0.0 && Intensities(xs, true, f).Some?
    ensures var h := f.entropy(DividedBy(xs, Sum(xs)));
            Powers(Intensities(xs, true, f).value, s, xs, Sum(xs), f.power, 0.25 + 0.25 * h)
  {
    var scaled := DividedBy(xs, Sum(xs));
    var e := 0.25 + 0.25 * f.entropy(scaled);
    DividedIsDistribution(xs);
    RaisedIsPositive(scaled, f, e);
    s := Sum(RaisedTo(scaled, f, e));
    DividedArePowers(xs, Sum(xs), f, e, s);
  }

  /** A spectrum of few peaks is always weighted: its entropy is at most the logarithm of their number. */
  lemma FewPeaksAreWeighted(xs: seq<real>, f: Functions, ln: Log)
    requires NonNegative(xs) && Natural(f, ln) && Sum(xs) > 0.0
    ensures xs != [] && 0.0 <= f.entropy(DividedBy(xs, Sum(xs))) <= ln(|xs| as real)
  {
    DividedIsDistribution(xs);
    EntropyIsBounded(ln, 1.0, DividedBy(xs, Sum(xs)));
  }

  // ---------------------------------------------------------------- the gains of the swept pairs

  function Firsts(pairs: seq<Pair>): (r: seq<nat>)
    ensures |r| == |pairs| && forall k :: 0 <= k < |r| ==> r[k] == pairs[k].0
  {
    seq(|pairs|, k requires 0 <= k < |pairs| => pairs[k].0)
  }

  function Seconds(pairs: seq<Pair>): (r: seq<nat>)
    ensures |r| == |pairs| && forall k :: 0 <= k < |r| ==> r[k] == pairs[k].1
  {
    seq(|pairs|, k requires 0 <= k < |pairs| => pairs[k].1)
  }

  ghost predicate PairsBelow(pairs: seq<Pair>, m: nat, n: nat) {
    forall k :: 0 <= k < |pairs| ==> pairs[k].0 < m && pairs[k].1 < n
  }

  /** The gains add up to at most the intensities they use. */
  lemma {:induction false} GainsWithinUsed(pairs: seq<Pair>, pa: seq<real>, pb: seq<real>, gain: Gain)
    requires GainBounded(gain) && NonNegative(pa) && NonNegative(pb) && PairsBelow(pairs, |pa|, |pb|)
    ensures 0.0 <= GainSum(pairs, pa, pb, gain) <= SumAt(pa, Firsts(pairs)) + SumAt(pb, Seconds(pairs))
  {
    if pairs != [] {
      var front, last := pairs[..|pairs| - 1], pairs[|pairs| - 1];
      GainsWithinUsed(front, pa, pb, gain);
      assert Firsts(pairs)[..|front|] == Firsts(front) && Seconds(pairs)[..|front|] == Seconds(front);
      assert 0.0 <= gain(pa[last.0], pb[last.1]) <= pa[last.0] + pb[last.1];
    }
  }

  lemma SweepBelow(a: seq<real>, b: seq<real>, tolerance: real)
    ensures PairsBelow(Sweep(a, b, tolerance, 0, 0), |a|, |b|)
    ensures Distinct(Firsts(Sweep(a, b, tolerance, 0, 0))) && Distinct(Seconds(Sweep(a, b, tolerance, 0, 0)))
  {
    SweepIsMatching(a, b, tolerance);
  }

  /** No peak counts twice, so the score lies between 0 and 1 and the final clamp never acts. */
  lemma ScoreInUnitInterval(a: seq<real>, b: seq<real>, pa: seq<real>, pb: seq<real>, tolerance: real, gain: Gain)
    requires |pa| == |a| && |pb| == |b| && Distribution(pa) && Distribution(pb) && GainBounded(gain)
    ensures PairsBelow(Sweep(a, b, tolerance, 0, 0), |pa|, |pb|)
    ensures var half := GainSum(Sweep(a, b, tolerance, 0, 0), pa, pb, gain) / 2.0;
            0.0 <= half <= 1.0 && Clamp(half) == half
  {
    var pairs := Sweep(a, b, tolerance, 0, 0);
    SweepBelow(a, b, tolerance);
    GainsWithinUsed(pairs, pa, pb, gain);
    SumAtDistinct(pa, Firsts(pairs), |pa|);
    SumAtDistinct(pb, Seconds(pairs), |pb|);
    assert pa[..|pa|] == pa && pb[..|pb|] == pb;
  }

  function Diagonal(i: nat, n: nat): (r: seq<Pair>)
    requires i <= n
    ensures |r| == n - i && forall k :: 0 <= k < |r| ==> r[k] == (i + k, i + k)
  {
    seq(n - i, k requires 0 <= k < n - i => (i + k, i + k))
  }

  /** Against itself, a spectrum pairs every peak with itself. */
  lemma {:induction false} SelfSweep(a: seq<real>, tolerance: real, i: nat)
    requires tolerance >= 0.0 && i <= |a|
    ensures Sweep(a, a, tolerance, i, i) == Diagonal(i, |a|)
    decreases |a| - i
  {
    if i < |a| {
      SelfSweep(a, tolerance, i + 1);
      assert Diagonal(i, |a|) == [(i, i)] + Diagonal(i + 1, |a|);
    }
  }

  lemma {:induction false} DiagonalGain(p: seq<real>, n: nat, gain: Gain)
    requires GainOfEqual(gain) && NonNegative(p) && n <= |p|
    ensures GainSum(Diagonal(0, n), p, p, gain) == 2.0 * Sum(p[..n])
  {
    if n > 0 {
      DiagonalGain(p, n - 1, gain);
      assert Diagonal(0, n)[..n - 1] == Diagonal(0, n - 1);
      assert p[..n][..n - 1] == p[..n - 1];
      assert gain(p[n - 1], p[n - 1]) == p[n - 1] + p[n - 1];
    }
  }

  /** Identical spectra score 1. */
  lemma IdenticalScoresOne(a: seq<real>, p: seq<real>, tolerance: real, gain: Gain)
    requires |p| == |a| && Distribution(p) && GainOfEqual(gain) && tolerance >= 0.0
    ensures PairsBelow(Sweep(a, a, tolerance, 0, 0), |p|, |p|)
    ensures Clamp(GainSum(Sweep(a, a, tolerance, 0, 0), p, p, gain) / 2.0) == 1.0
  {
    SelfSweep(a, tolerance, 0);
    DiagonalGain(p, |p|, gain);
    assert p[..|p|] == p;
  }

  // ---------------------------------------------------------------- the similarity

  datatype Spectrum = Spectrum(mz: seq<real>, intensity: seq<real>)

  predicate WellFormed(a: Spectrum) {
    |a.mz| == |a.intensity|
  }

  predicate Accepted(a: Spectrum, b: Spectrum, tolerance: real) {
    tolerance >= 0.0 && NonNegative(a.intensity) && NonNegative(b.intensity)
  }

  ghost predicate Silent(a: Spectrum) {
    forall k :: 0 <= k < |a.intensity| ==> a.intensity[k] == 0.0
  }

  /** `entropy_similarity`. */
  function Similarity(a: Spectrum, b: Spectrum, tolerance: real, weighted: bool, f: Functions): Result<real>
    requires WellFormed(a) && WellFormed(b) && PowersArePositive(f)
  {
    if tolerance < 0.0 then Err("tolerance must be a finite, non-negative number")
    else if !NonNegative(a.intensity) then Err("first spectrum has a negative intensity")
    else if !NonNegative(b.intensity) then Err("second spectrum has a negative intensity")
    else
      var pa, pb := Intensities(a.intensity, weighted, f), Intensities(b.intensity, weighted, f);
      if pa.None? || pb.None? then Ok(0.0)
      else
        SweepBelow(a.mz, b.mz, tolerance);
        Ok(Clamp(GainSum(Sweep(a.mz, b.mz, tolerance, 0, 0), pa.value, pb.value, f.gain) / 2.0))
  }

  /** The score as computed: the checks, the two scalings, the sweep loop. */
  method EntropySimilarity(a: Spectrum, b: Spectrum, tolerance: real, weighted: bool, f: Functions)
    returns (score: Result<real>)
    requires WellFormed(a) && WellFormed(b) && PowersArePositive(f)
    ensures score == Similarity(a, b, tolerance, weighted, f)
  {
    if tolerance < 0.0 {
      return Err("tolerance must be a finite, non-negative number");
    }
    if !NonNegative(a.intensity) {
      return Err("first spectrum has a negative intensity");
    }
    if !NonNegative(b.intensity) {
      return Err("second spectrum has a negative intensity");
    }
    var pa, pb := Intensities(a.intensity, weighted, f), Intensities(b.intensity, weighted, f);
    if pa.None? || pb.None? {
      return Ok(0.0);
    }
    var sum := EntropySum(a.mz, b.mz, pa.value, pb.value, tolerance, f.gain);
    score := Ok(Clamp(sum / 2.0));
  }

  /** Refused exactly for a negative tolerance or a negative intensity; 0 when a spectrum is silent. */
  lemma SimilarityRefuses(a: Spectrum, b: Spectrum, tolerance: real, weighted: bool, f: Functions)
    requires WellFormed(a) && WellFormed(b) && PowersArePositive(f)
    ensures Similarity(a, b, tolerance, weighted, f).Err? <==>
              tolerance < 0.0 || (exists k :: 0 <= k < |a.intensity| && a.intensity[k] < 0.0)
              || exists k :: 0 <= k < |b.intensity| && b.intensity[k] < 0.0
    ensures Similarity(a, b, tolerance, weighted, f).Ok? <==> Accepted(a, b, tolerance)
    ensures Accepted(a, b, tolerance) && (Silent(a) || Silent(b)) ==> Similarity(a, b, tolerance, weighted, f) == Ok(0.0)
  {
  }

  /** A score is at most 1, and the clamp never acts on it. */
  lemma SimilarityIsHalfTheGain(a: Spectrum, b: Spectrum, tolerance: real, weighted: bool, f: Functions)
    requires WellFormed(a) && WellFormed(b) && PowersArePositive(f) && GainBounded(f.gain) && Accepted(a, b, tolerance)
    ensures var pa, pb := Intensities(a.intensity, weighted, f), Intensities(b.intensity, weighted, f);
            pa.Some? && pb.Some? ==>
              PairsBelow(Sweep(a.mz, b.mz, tolerance, 0, 0), |pa.value|, |pb.value|) &&
              var half := GainSum(Sweep(a.mz, b.mz, tolerance, 0, 0), pa.value, pb.value, f.gain) / 2.0;
              0.0 <= half <= 1.0 && Similarity(a, b, tolerance, weighted, f) == Ok(half)
  {
    var pa, pb := Intensities(a.intensity, weighted, f), Intensities(b.intensity, weighted, f);
    if pa.Some? && pb.Some? {
      ScoreInUnitInterval(a.mz, b.mz, pa.value, pb.value, tolerance, f.gain);
    }
  }

  /** A spectrum scores 1 against itself, unless all its intensities are 0: then it scores 0 against everything. */
  lemma SimilarToItself(a: Spectrum, tolerance: real, weighted: bool, f: Functions)
    requires WellFormed(a) && PowersArePositive(f) && GainOfEqual(f.gain) && Accepted(a, a, tolerance)
    ensures Similarity(a, a, tolerance, weighted, f)
            == Ok(if exists k :: 0 <= k < |a.mz| && a.intensity[k] != 0.0 then 1.0 else 0.0)
  {
    var p := Intensities(a.intensity, weighted, f);
    if p.Some? {
      IdenticalScoresOne(a.mz, p.value, tolerance, f.gain);
    }
  }

  lemma GainSwaps(a: seq<real>, b: seq<real>, pa: seq<real>, pb: seq<real>, tolerance: real, gain: Gain)
    requires |pa| == |a| && |pb| == |b| && tolerance >= 0.0 && Symmetric(gain)
    ensures PairsBelow(Sweep(a, b, tolerance, 0, 0), |pa|, |pb|) && PairsBelow(Sweep(b, a, tolerance, 0, 0), |pb|, |pa|)
    ensures GainSum(Sweep(b, a, tolerance, 0, 0), pb, pa, gain) == GainSum(Sweep(a, b, tolerance, 0, 0), pa, pb, gain)
  {
    SweepBelow(a, b, tolerance);
    SweepBelow(b, a, tolerance);
    SweepSwaps(a, b, tolerance, 0, 0);
    GainSumSwaps(Sweep(a, b, tolerance, 0, 0), pa, pb, gain);
  }

  /** The score does not depend on which spectrum comes first. */
  lemma SimilaritySwaps(a: Spectrum, b: Spectrum, tolerance: real, weighted: bool, f: Functions)
    requires WellFormed(a) && WellFormed(b) && PowersArePositive(f) && Symmetric(f.gain) && Accepted(a, b, tolerance)
    ensures Similarity(a, b, tolerance, weighted, f) == Similarity(b, a, tolerance, weighted, f)
  {
    var pa, pb := Intensities(a.intensity, weighted, f), Intensities(b.intensity, weighted, f);
    if pa.Some? && pb.Some? {
      GainSwaps(a.mz, b.mz, pa.value, pb.value, tolerance, f.gain);
    }
  }
}
