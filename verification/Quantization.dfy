/**
 The I8 encoding of `src/core/quant.rs` over exact arithmetic: one scale per vector, one code per element.

 The scale is the largest magnitude over 127, so the largest element always takes the code at the end of
 the range, and codes never need to be clamped.
 */
module Quantization {
  import opened RealArithmetic

  datatype QuantVec = I8(scale: real, data: seq<int>)

  function Abs(x: real): real {
    if x >= 0.0 then x else -x
  }

  /** `f32::round`: to the nearest integer, halves away from zero. */
  function Round(x: real): int {
    if x >= 0.0 then (x + 0.5).Floor else -((-x + 0.5).Floor)
  }

  function Clamp(q: int): int {
    if q < -127 then -127 else if q > 127 then 127 else q
  }

  function MaxAbs(v: seq<real>): real {
    if v == [] then 0.0
    else
      var m := MaxAbs(v[..|v| - 1]);
      if Abs(v[|v| - 1]) > m then Abs(v[|v| - 1]) else m
  }

  function Code(x: real, scale: real): int {
    if scale == 0.0 then 0 else Clamp(Round(x / scale))
  }

  function Codes(v: seq<real>, scale: real): (c: seq<int>)
    ensures |c| == |v| && forall i :: 0 <= i < |v| ==> c[i] == Code(v[i], scale)
  {
    seq(|v|, i requires 0 <= i < |v| => Code(v[i], scale))
  }

  function Scale(v: seq<real>): real {
    MaxAbs(v) / 127.0
  }

  function Quantize(v: seq<real>): QuantVec {
    I8(Scale(v), Codes(v, Scale(v)))
  }

  /** `i8_to_f32`. */
  function Restored(q: int, scale: real): real {
    q as real * scale
  }

  function Dequantize(q: QuantVec): (v: seq<real>)
    ensures |v| == |q.data| && forall i :: 0 <= i < |q.data| ==> v[i] == Restored(q.data[i], q.scale)
  {
    seq(|q.data|, i requires 0 <= i < |q.data| => Restored(q.data[i], q.scale))
  }

  // ---------------------------------------------------------------- rounding

  lemma RoundIsNearest(x: real)
    ensures -0.5 <= Round(x) as real - x <= 0.5
    ensures Round(-x) == -Round(x)
  {
  }

  /** Halves go away from zero, and with the nearest integer that decides rounding. */
  lemma RoundIs(x: real, q: int)
    ensures Round(x) == q <==>
              -0.5 <= q as real - x <= 0.5 && (q as real - x == 0.5 ==> x > 0.0) && (q as real - x == -0.5 ==> x < 0.0)
  {
  }

  lemma RoundOfInt(q: int)
    ensures Round(q as real) == q
  {
  }

  lemma RoundIsMonotone(x: real, y: real)
    requires x <= y
    ensures Round(x) <= Round(y)
  {
  }

  lemma RoundBound(x: real)
    requires -127.0 <= x <= 127.0
    ensures -127 <= Round(x) <= 127
  {
  }

  lemma NonNegative(a: real, b: real)
    requires a >= 0.0 && b >= 0.0
    ensures a * b >= 0.0
  {
  }

  lemma Cancel(q: real, scale: real)
    requires scale != 0.0
    ensures (q * scale) / scale == q
  {
    var r := (q * scale) / scale;
    Quotient(q * scale, scale);
    var off := r - q;
    assert off * scale == 0.0;
    if off > 0.0 {
      PositiveProduct(off, if scale > 0.0 then scale else -scale);
    } else if off < 0.0 {
      PositiveProduct(-off, if scale > 0.0 then scale else -scale);
    }
  }

  lemma {:induction false} MaxAbsBounds(v: seq<real>)
    ensures MaxAbs(v) >= 0.0 && forall i :: 0 <= i < |v| ==> Abs(v[i]) <= MaxAbs(v)
    ensures MaxAbs(v) > 0.0 ==> exists i :: 0 <= i < |v| && Abs(v[i]) == MaxAbs(v)
  {
    if v != [] {
      var most := v[..|v| - 1];
      MaxAbsBounds(most);
      if MaxAbs(v) > 0.0 && Abs(v[|v| - 1]) <= MaxAbs(most) {
        var i :| 0 <= i < |most| && Abs(most[i]) == MaxAbs(most);
        assert Abs(v[i]) == MaxAbs(v);
      } else {
        assert Abs(v[|v| - 1]) <= MaxAbs(v);
      }
      forall i | 0 <= i < |v|
        ensures Abs(v[i]) <= MaxAbs(v)
      {
        if i < |v| - 1 {
          assert Abs(most[i]) <= MaxAbs(most);
        }
      }
    }
  }

  lemma ScaleIsShare(v: seq<real>)
    ensures Scale(v) >= 0.0 && 127.0 * Scale(v) == MaxAbs(v) && (Scale(v) == 0.0 <==> MaxAbs(v) == 0.0)
  {
    MaxAbsBounds(v);
  }

  lemma ElementInRange(v: seq<real>, i: nat)
    requires i < |v|
    ensures -127.0 * Scale(v) <= v[i] <= 127.0 * Scale(v)
  {
    MaxAbsBounds(v);
    ScaleIsShare(v);
    assert Abs(v[i]) <= MaxAbs(v);
  }

  // ---------------------------------------------------------------- one element

  lemma QuotientInRange(x: real, scale: real)
    requires scale > 0.0 && -127.0 * scale <= x <= 127.0 * scale
    ensures -127 <= Round(x / scale) <= 127
  {
    QuotientMonotone(-127.0 * scale, x, scale);
    QuotientMonotone(x, 127.0 * scale, scale);
    Cancel(127.0, scale);
    Cancel(-127.0, scale);
    RoundBound(x / scale);
  }

  /** The rounded quotient is already in range, so the clamp never acts. */
  lemma ClampNeverActs(v: seq<real>, i: nat)
    requires i < |v| && Scale(v) != 0.0
    ensures -127 <= Round(v[i] / Scale(v)) <= 127
    ensures Quantize(v).data[i] == Round(v[i] / Scale(v))
  {
    ScaleIsShare(v);
    ElementInRange(v, i);
    QuotientInRange(v[i], Scale(v));
  }

  lemma RoundingError(x: real, scale: real)
    requires scale > 0.0
    ensures Abs(Restored(Round(x / scale), scale) - x) <= scale / 2.0
  {
    var e := Round(x / scale) as real - x / scale;
    RoundIsNearest(x / scale);
    Quotient(x, scale);
    assert e * scale == Round(x / scale) as real * scale - (x / scale) * scale;
    NonNegative(0.5 - e, scale);
    NonNegative(0.5 + e, scale);
    assert (0.5 - e) * scale == 0.5 * scale - e * scale;
    assert (0.5 + e) * scale == 0.5 * scale + e * scale;
  }

  /** Each element is restored within half a step, which is max|x| / 254. */
  lemma ErrorIsHalfAStep(v: seq<real>, i: nat)
    requires i < |v|
    ensures Abs(Dequantize(Quantize(v))[i] - v[i]) <= Quantize(v).scale / 2.0
    ensures Quantize(v).scale / 2.0 == MaxAbs(v) / 254.0
  {
    ScaleIsShare(v);
    if Scale(v) == 0.0 {
      ElementInRange(v, i);
      assert v[i] == 0.0 && Quantize(v).data[i] == 0 && Restored(0, 0.0) == 0.0;
    } else {
      ClampNeverActs(v, i);
      RoundingError(v[i], Scale(v));
    }
  }

  /** Codes keep the order of the elements. */
  lemma CodesKeepOrder(v: seq<real>, i: nat, j: nat)
    requires i < |v| && j < |v| && v[i] <= v[j]
    ensures Quantize(v).data[i] <= Quantize(v).data[j]
  {
    ScaleIsShare(v);
    if Scale(v) != 0.0 {
      QuotientMonotone(v[i], v[j], Scale(v));
      RoundIsMonotone(v[i] / Scale(v), v[j] / Scale(v));
    }
  }

  // ---------------------------------------------------------------- stability

  lemma CodeOfMultiple(q: int, scale: real)
    requires scale != 0.0
    ensures Code(Restored(q, scale), scale) == Clamp(q)
  {
    Cancel(q as real, scale);
    var x := Restored(q, scale);
    assert x / scale == q as real;
    RoundOfInt(q);
    assert Code(x, scale) == Clamp(Round(x / scale));
  }

  lemma CodeBounds(v: seq<real>, i: nat)
    requires i < |v|
    ensures -127 <= Quantize(v).data[i] <= 127
  {
  }

  lemma EndOfRange(x: real, scale: real)
    requires Abs(x) == 127.0 * scale && scale > 0.0
    ensures x == Restored(if x >= 0.0 then 127 else -127, scale)
  {
    assert 127 as real == 127.0 && (-127) as real == -127.0;
    assert Restored(127, scale) == 127.0 * scale;
    assert Restored(-127, scale) == -(127.0 * scale);
  }

  /** The element of largest magnitude has the code 127 or -127, and is restored exactly. */
  lemma LargestIsExact(v: seq<real>, i: nat)
    requires i < |v| && MaxAbs(v) > 0.0 && Abs(v[i]) == MaxAbs(v)
    ensures Dequantize(Quantize(v))[i] == v[i]
  {
    ScaleIsShare(v);
    EndOfRange(v[i], Scale(v));
    CodeOfMultiple(if v[i] >= 0.0 then 127 else -127, Scale(v));
  }

  lemma MultipleBound(q: int, scale: real)
    requires -127 <= q <= 127 && scale >= 0.0
    ensures Abs(Restored(q, scale)) <= 127.0 * scale
  {
    NonNegative(127.0 - q as real, scale);
    NonNegative(127.0 + q as real, scale);
    assert (127.0 - q as real) * scale == 127.0 * scale - q as real * scale;
    assert (127.0 + q as real) * scale == 127.0 * scale + q as real * scale;
  }

  lemma RestoredBound(v: seq<real>, i: nat)
    requires i < |v|
    ensures Abs(Dequantize(Quantize(v))[i]) <= MaxAbs(v)
  {
    ScaleIsShare(v);
    CodeBounds(v, i);
    MultipleBound(Quantize(v).data[i], Scale(v));
  }

  lemma MaxAbsIs(v: seq<real>, m: real, i: nat)
    requires i < |v| && Abs(v[i]) == m && forall j :: 0 <= j < |v| ==> Abs(v[j]) <= m
    ensures MaxAbs(v) == m
  {
    MaxAbsBounds(v);
  }

  lemma SameMax(v: seq<real>)
    ensures MaxAbs(Dequantize(Quantize(v))) == MaxAbs(v)
  {
    var w := Dequantize(Quantize(v));
    MaxAbsBounds(v);
    forall j | 0 <= j < |w|
      ensures Abs(w[j]) <= MaxAbs(v)
    {
      RestoredBound(v, j);
    }
    if MaxAbs(v) > 0.0 {
      var i :| 0 <= i < |v| && Abs(v[i]) == MaxAbs(v);
      LargestIsExact(v, i);
      MaxAbsIs(w, MaxAbs(v), i);
    } else {
      MaxAbsBounds(w);
    }
  }

  /** Quantizing what was restored gives the same scale and the same codes. */
  lemma QuantizeIsStable(v: seq<real>)
    ensures Quantize(Dequantize(Quantize(v))) == Quantize(v)
  {
    SameMax(v);
    QuantizedSurvives(v);
  }

  // ---------------------------------------------------------------- the serialized form

  /** `QuantRepr`: the scale and the restored values. */
  datatype QuantRepr = QuantRepr(scale: real, values: seq<real>)

  function ToRepr(q: QuantVec): QuantRepr {
    QuantRepr(q.scale, Dequantize(q))
  }

  function FromRepr(r: QuantRepr): QuantVec {
    I8(r.scale, Codes(r.values, r.scale))
  }

  /** The codes the encoder can produce. */
  predicate Encodable(q: QuantVec) {
    forall i :: 0 <= i < |q.data| ==> if q.scale == 0.0 then q.data[i] == 0 else -127 <= q.data[i] <= 127
  }

  lemma CodeRestored(q: int, scale: real)
    ensures Code(Restored(q, scale), scale) == q <==> if scale == 0.0 then q == 0 else -127 <= q <= 127
  {
    if scale != 0.0 {
      CodeOfMultiple(q, scale);
    }
  }

  /** The serialized form restores exactly the vectors whose codes the encoder could have produced. */
  lemma ReprRestoresIff(q: QuantVec)
    ensures FromRepr(ToRepr(q)) == q <==> Encodable(q)
  {
    var restored := FromRepr(ToRepr(q)).data;
    forall i | 0 <= i < |q.data|
      ensures restored[i] == q.data[i] <==> if q.scale == 0.0 then q.data[i] == 0 else -127 <= q.data[i] <= 127
    {
      CodeRestored(q.data[i], q.scale);
    }
    if Encodable(q) {
      assert restored == q.data;
    }
  }

  /** Every quantized vector survives serialization. */
  lemma QuantizedSurvives(v: seq<real>)
    ensures FromRepr(ToRepr(Quantize(v))) == Quantize(v)
  {
    ReprRestoresIff(Quantize(v));
    forall i | 0 <= i < |v|
      ensures if Scale(v) == 0.0 then Quantize(v).data[i] == 0 else -127 <= Quantize(v).data[i] <= 127
    {
      CodeBounds(v, i);
    }
  }
}
