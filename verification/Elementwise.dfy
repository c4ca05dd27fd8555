/**
 Element-wise kernels of `src/engine/kernels.rs`. Their meaning is a function of dimensions and logical
 values alone; every traversal (contiguous, rank 1, rank 2, odometer) is proved to compute it, and the
 algebra of the operations is proved about that function.
 */
module Elementwise {
  import opened Common
  import opened RealArithmetic
  import opened Tensors

  /** An operation on two elements, which may refuse. */
  type BinOp = (real, real) -> Result<real>

  // ---------------------------------------------------------------- meaning

  /** The first `n` pairs combined in order, or the first refusal. */
  function Zip(x: seq<real>, y: seq<real>, op: BinOp, n: nat): (r: Result<seq<real>>)
    requires n <= |x| && n <= |y|
    ensures r.Ok? ==> |r.value| == n
  {
    if n == 0 then Ok([])
    else match Zip(x, y, op, n - 1)
      case Err(e) => Err(e)
      case Ok(values) =>
        match op(x[n - 1], y[n - 1])
        case Err(e) => Err(e)
        case Ok(v) => Ok(values + [v])
  }

  function Repeat(v: real, n: nat): (s: seq<real>)
    ensures |s| == n && forall k :: 0 <= k < n ==> s[k] == v
  {
    seq(n, _ => v)
  }

  function Pad(s: seq<real>, v: real, n: nat): (p: seq<real>)
    requires |s| <= n
    ensures |p| == n && forall k :: 0 <= k < n ==> p[k] == if k < |s| then s[k] else v
  {
    s + Repeat(v, n - |s|)
  }

  function Max(a: nat, b: nat): nat {
    if a >= b then a else b
  }

  datatype Values = Values(dims: seq<nat>, values: seq<real>) {
    ghost predicate Proper() {
      |values| == NumElements(dims)
    }
  }

  /** Same shape, a scalar on either side, or two vectors, the shorter one to be padded. */
  function CommonDims(a: seq<nat>, b: seq<nat>): Option<seq<nat>> {
    if a == b then Some(a)
    else if a == [] then Some(b)
    else if b == [] then Some(a)
    else if |a| == 1 && |b| == 1 then Some([Max(a[0], b[0])])
    else None
  }

  /** An operand brought to the common shape. */
  function Stretch(v: Values, dims: seq<nat>, neutral: real): seq<real>
    requires v.Proper()
  {
    if v.dims == dims then v.values
    else if v.dims == [] then Repeat(v.values[0], NumElements(dims))
    else Pad(v.values, neutral, Max(|v.values|, NumElements(dims)))
  }

  function Combine(a: Values, b: Values, neutralA: real, neutralB: real, op: BinOp): (r: Result<Values>)
    requires a.Proper() && b.Proper()
    ensures r.Ok? ==> r.value.Proper() && CommonDims(a.dims, b.dims) == Some(r.value.dims)
  {
    match CommonDims(a.dims, b.dims)
    case None => Err("Unsupported shapes for element-wise op")
    case Some(dims) =>
      StretchFits(a, b, dims, neutralA);
      StretchFits(b, a, dims, neutralB);
      match Zip(Stretch(a, dims, neutralA), Stretch(b, dims, neutralB), op, NumElements(dims))
      case Err(e) => Err(e)
      case Ok(values) => Ok(Values(dims, values))
  }

  lemma VectorCount(dims: seq<nat>)
    requires |dims| == 1
    ensures NumElements(dims) == dims[0]
  {
    assert dims[1..] == [] && NumElements(dims) == dims[0] * NumElements([]);
  }

  lemma StretchFits(v: Values, other: Values, dims: seq<nat>, neutral: real)
    requires v.Proper() && (CommonDims(v.dims, other.dims) == Some(dims) || CommonDims(other.dims, v.dims) == Some(dims))
    ensures |Stretch(v, dims, neutral)| == NumElements(dims)
  {
    if v.dims != dims && v.dims != [] {
      VectorCount(v.dims);
      VectorCount(dims);
    }
  }

  ghost function Meaning(t: Tensor): (v: Values)
    requires InBounds(t)
    ensures v.Proper()
  {
    Values(t.dims, Logical(t))
  }

  /** `r` is the fresh tensor, or the error, that `meaning` says. */
  ghost predicate Computes(r: Result<Tensor>, meaning: Result<Values>) {
    match meaning
    case Err(e) => r == Err(e)
    case Ok(v) => r.Ok? && InBounds(r.value) && Meaning(r.value) == v
  }

  lemma {:induction false} RefusalStays(x: seq<real>, y: seq<real>, op: BinOp, k: nat, n: nat)
    requires k <= n <= |x| && n <= |y| && Zip(x, y, op, k).Err?
    ensures Zip(x, y, op, n) == Zip(x, y, op, k)
    decreases n - k
  {
    if k < n {
      RefusalStays(x, y, op, k + 1, n);
    }
  }

  lemma {:induction false} ZipPrefix(x: seq<real>, y: seq<real>, u: seq<real>, v: seq<real>, op: BinOp, n: nat)
    requires n <= |x| && n <= |y| && n <= |u| && n <= |v|
    requires forall k :: 0 <= k < n ==> x[k] == u[k] && y[k] == v[k]
    ensures Zip(x, y, op, n) == Zip(u, v, op, n)
  {
    if n > 0 {
      ZipPrefix(x, y, u, v, op, n - 1);
    }
  }

  function Append(r: Result<seq<real>>, s: Result<seq<real>>): Result<seq<real>> {
    match r
    case Err(e) => Err(e)
    case Ok(v) => match s case Err(e) => Err(e) case Ok(w) => Ok(v + w)
  }

  /** Zipping one stretch after another. */
  lemma {:induction false} ZipStretch(x: seq<real>, y: seq<real>, op: BinOp, from: nat, n: nat)
    requires from + n <= |x| && from + n <= |y|
    ensures Zip(x, y, op, from + n) == Append(Zip(x, y, op, from), Zip(x[from..], y[from..], op, n))
  {
    if n == 0 {
      if Zip(x, y, op, from).Ok? {
        assert Zip(x, y, op, from).value + [] == Zip(x, y, op, from).value;
      }
    } else {
      ZipStretch(x, y, op, from, n - 1);
      assert x[from..][n - 1] == x[from + n - 1] && y[from..][n - 1] == y[from + n - 1];
      if Zip(x, y, op, from).Ok? && Zip(x[from..], y[from..], op, n).Ok? {
        var v, w, last := Zip(x, y, op, from).value, Zip(x[from..], y[from..], op, n - 1).value,
                          op(x[from + n - 1], y[from + n - 1]).value;
        assert (v + w) + [last] == v + (w + [last]);
      }
    }
  }

  // ---------------------------------------------------------------- traversals of two tensors

  method ZipContiguous(x: seq<real>, y: seq<real>, op: BinOp) returns (r: Result<seq<real>>)
    requires |x| == |y|
    ensures r == Zip(x, y, op, |x|)
  {
    var data := [];
    for i := 0 to |x|
      invariant Zip(x, y, op, i) == Ok(data)
    {
      var v := op(x[i], y[i]);
      if v.Err? {
        RefusalStays(x, y, op, i + 1, |x|);
        return Err(v.message);
      }
      data := data + [v.value];
    }
    return Ok(data);
  }

  /** Two strided lines side by side: a vector each, or one row of a matrix each. */
  method ZipLines(aData: seq<real>, aBase: nat, aStep: nat, bData: seq<real>, bBase: nat, bStep: nat, n: nat,
                  op: BinOp, ghost x: seq<real>, ghost y: seq<real>) returns (r: Result<seq<real>>)
    requires |x| == |y| == n && Strided(aData, aBase, aStep, x) && Strided(bData, bBase, bStep, y)
    ensures r == Zip(x, y, op, n)
  {
    var data := [];
    for i := 0 to n
      invariant Zip(x, y, op, i) == Ok(data)
    {
      assert aBase + i * aStep < |aData| && x[i] == aData[aBase + i * aStep];
      assert bBase + i * bStep < |bData| && y[i] == bData[bBase + i * bStep];
      var v := op(aData[aBase + i * aStep], bData[bBase + i * bStep]);
      if v.Err? {
        RefusalStays(x, y, op, i + 1, n);
        return Err(v.message);
      }
      data := data + [v.value];
    }
    return Ok(data);
  }

  lemma VectorIsStrided(t: Tensor)
    requires InBounds(t) && |t.dims| == 1
    ensures |Logical(t)| == t.dims[0] && Strided(t.data, t.offset, t.strides[0], Logical(t))
  {
    VectorCount(t.dims);
    forall k | 0 <= k < t.dims[0]
      ensures t.offset + k * t.strides[0] < |t.data| && Element(t, k) == t.data[t.offset + k * t.strides[0]]
    {
      RankOne(t, k);
    }
  }

  /** `x` holds the rows of a matrix one after another. */
  ghost predicate RowsOf(t: Tensor, x: seq<real>) {
    |t.dims| == |t.strides| == 2 && |x| == RowStart(t.dims[1], t.dims[0]) && forall i :: 0 <= i < t.dims[0] ==> RowAt(t, x, i)
  }

  ghost predicate RowAt(t: Tensor, x: seq<real>, i: nat)
    requires |t.dims| == |t.strides| == 2
  {
    var from := RowStart(t.dims[1], i);
    from + t.dims[1] <= |x| && Strided(t.data, t.offset + i * t.strides[0], t.strides[1], x[from..from + t.dims[1]])
  }

  lemma MatrixRows(t: Tensor)
    requires InBounds(t) && |t.dims| == 2
    ensures RowsOf(t, Logical(t))
  {
    RowsEnd(t.dims);
    forall i | 0 <= i < t.dims[0]
      ensures RowAt(t, Logical(t), i)
    {
      RowFits(t.dims, i);
      RowIsStrided(t, i, RowStart(t.dims[1], i), t.offset + i * t.strides[0]);
    }
  }

  method ZipRow(a: Tensor, b: Tensor, i: nat, op: BinOp, ghost from: nat, ghost x: seq<real>, ghost y: seq<real>)
      returns (r: Result<seq<real>>)
    requires RowsOf(a, x) && RowsOf(b, y) && a.dims == b.dims && i < a.dims[0]
    requires from == RowStart(a.dims[1], i)
    ensures from + a.dims[1] <= |x| == |y| && r == Zip(x[from..], y[from..], op, a.dims[1])
  {
    var aRow := a.offset + i * a.strides[0];
    var bRow := b.offset + i * b.strides[0];
    assert RowAt(a, x, i) && RowAt(b, y, i);
    ghost var u, v := x[from..from + a.dims[1]], y[from..from + a.dims[1]];
    r := ZipLines(a.data, aRow, a.strides[1], b.data, bRow, b.strides[1], a.dims[1], op, u, v);
    ZipPrefix(u, v, x[from..], y[from..], op, a.dims[1]);
  }

  /** The rows so far, and one more. */
  lemma RowsStep(x: seq<real>, y: seq<real>, op: BinOp, from: nat, cols: nat, data: seq<real>, row: Result<seq<real>>)
    requires from + cols <= |x| == |y| && Zip(x, y, op, from) == Ok(data) && row == Zip(x[from..], y[from..], op, cols)
    ensures row.Ok? ==> Zip(x, y, op, from + cols) == Ok(data + row.value)
    ensures row.Err? ==> Zip(x, y, op, |x|) == row
  {
    ZipStretch(x, y, op, from, cols);
    if row.Err? {
      RefusalStays(x, y, op, from + cols, |x|);
    }
  }

  method ZipMatrices(a: Tensor, b: Tensor, op: BinOp, ghost x: seq<real>, ghost y: seq<real>) returns (r: Result<seq<real>>)
    requires RowsOf(a, x) && RowsOf(b, y) && a.dims == b.dims
    ensures r == Zip(x, y, op, |x|)
  {
    var data := [];
    ghost var from := 0;
    for i := 0 to a.dims[0]
      invariant from == RowStart(a.dims[1], i) && from <= |x| && Zip(x, y, op, from) == Ok(data)
    {
      var row := ZipRow(a, b, i, op, from, x, y);
      RowsStep(x, y, op, from, a.dims[1], data, row);
      if row.Err? {
        return row;
      }
      data := data + row.value;
      from := from + a.dims[1];
    }
    return Ok(data);
  }

  /** The odometer with two offsets that move together. */
  method AdvancePair(dims: seq<nat>, aStrides: seq<nat>, bStrides: seq<nat>, idx: array<nat>, aOff: nat, bOff: nat)
      returns (aMoved: nat, bMoved: nat)
    requires |dims| == |aStrides| == |bStrides| == idx.Length
    requires Dot(idx[..], aStrides) <= aOff && Dot(idx[..], bStrides) <= bOff
    modifies idx
    ensures idx[..] == Advance(dims, old(idx[..])).0
    ensures aMoved == aOff - Dot(old(idx[..]), aStrides) + Dot(idx[..], aStrides)
    ensures bMoved == bOff - Dot(old(idx[..]), bStrides) + Dot(idx[..], bStrides)
  {
    ghost var was := idx[..];
    ghost var aBase, bBase := aOff - Dot(was, aStrides), bOff - Dot(was, bStrides);
    aMoved, bMoved := aOff, bOff;
    var j := |dims|;
    NoneWrapped(dims, was);
    while j > 0
      invariant 0 <= j <= |dims| && Wrapped(dims, was, idx[..], j)
      invariant aMoved == aBase + Dot(idx[..], aStrides) && bMoved == bBase + Dot(idx[..], bStrides)
    {
      j := j - 1;
      ghost var cur := idx[..];
      if idx[j] + 1 < dims[j] {
        StopsHere(dims, was, cur, j);
        AddressOfNext(cur, aStrides, j);
        AddressOfNext(cur, bStrides, j);
        idx[j] := idx[j] + 1;
        aMoved, bMoved := aMoved + aStrides[j], bMoved + bStrides[j];
        assert idx[..] == cur[j := cur[j] + 1];
        return;
      }
      WrapsToo(dims, was, cur, j);
      var aBack, bBack := idx[j] * aStrides[j], idx[j] * bStrides[j];
      AddressOfWrap(cur, aStrides, j, aBack);
      AddressOfWrap(cur, bStrides, j, bBack);
      aMoved, bMoved := aMoved - aBack, bMoved - bBack;
      idx[j] := 0;
      assert idx[..] == cur[j := 0];
    }
    WrappedAll(dims, was, idx[..]);
  }

  method ZipOdometer(a: Tensor, b: Tensor, op: BinOp, ghost x: seq<real>, ghost y: seq<real>) returns (r: Result<seq<real>>)
    requires Addressed(a, x) && Addressed(b, y) && a.dims == b.dims
    ensures r == Zip(x, y, op, |x|)
  {
    var data := [];
    var len := NumElements(a.dims);
    var indices := new nat[|a.dims|](_ => 0);
    var aOff, bOff := a.offset, b.offset;
    assert indices[..] == Zeros(|a.dims|);
    OdometerStart(a.dims, a.strides);
    OdometerStart(b.dims, b.strides);
    for k := 0 to len
      invariant Zip(x, y, op, k) == Ok(data)
      invariant aOff == a.offset + Dot(indices[..], a.strides) && bOff == b.offset + Dot(indices[..], b.strides)
      invariant k < len ==> indices[..] == Unravel(a.dims, k)
    {
      assert AddressedAt(a, x, k, indices[..]) && AddressedAt(b, y, k, indices[..]);
      var v := op(a.data[aOff], b.data[bOff]);
      if v.Err? {
        RefusalStays(x, y, op, k + 1, len);
        return Err(v.message);
      }
      data := data + [v.value];
      AdvanceIsNext(a.dims, k);
      aOff, bOff := AdvancePair(a.dims, a.strides, b.strides, indices, aOff, bOff);
    }
    return Ok(data);
  }

  /** Same shape: the traversal is chosen by layout and rank, the outcome is not. */
  method ZipSameShape(a: Tensor, b: Tensor, op: BinOp) returns (r: Result<seq<real>>)
    requires InBounds(a) && InBounds(b) && a.dims == b.dims
    ensures r == Zip(Logical(a), Logical(b), op, NumElements(a.dims))
  {
    var aSlice := AsContiguousSlice(a);
    var bSlice := AsContiguousSlice(b);
    if aSlice.Some? && bSlice.Some? {
      r := ZipContiguous(aSlice.value, bSlice.value, op);
    } else if |a.dims| == 1 {
      VectorIsStrided(a);
      VectorIsStrided(b);
      r := ZipLines(a.data, a.offset, a.strides[0], b.data, b.offset, b.strides[0], a.dims[0], op, Logical(a), Logical(b));
    } else if |a.dims| == 2 {
      MatrixRows(a);
      MatrixRows(b);
      r := ZipMatrices(a, b, op, Logical(a), Logical(b));
    } else {
      LogicalIsAddressed(a);
      LogicalIsAddressed(b);
      r := ZipOdometer(a, b, op, Logical(a), Logical(b));
    }
  }

  // ---------------------------------------------------------------- the kernel

  /** The values of one operand, by its slice or by the strided traversal of its rank. */
  method OperandValues(t: Tensor) returns (values: seq<real>)
    requires InBounds(t)
    ensures values == Logical(t)
  {
    var slice := AsContiguousSlice(t);
    if slice.Some? {
      values := slice.value;
    } else {
      values := StridedValues(t);
    }
  }

  lemma ScalarValue(t: Tensor)
    requires InBounds(t) && t.dims == []
    ensures t.offset < |t.data| && Logical(t) == [t.data[t.offset]]
  {
    assert ValidIndex(t.dims, []);
    assert Unravel(t.dims, 0) == [];
  }

  /** Element `i` of a vector, or the neutral element past its end. */
  method PaddedElement(data: seq<real>, base: nat, step: nat, len: nat, neutral: real, i: nat, ghost line: seq<real>)
      returns (v: real)
    requires |line| == len && Strided(data, base, step, line)
    ensures v == if i < |line| then line[i] else neutral
  {
    v := neutral;
    if i < len {
      assert base + i * step < |data| && line[i] == data[base + i * step];
      v := data[base + i * step];
    }
  }

  method PadVectors(a: Tensor, b: Tensor, neutralA: real, neutralB: real, op: BinOp, ghost x: seq<real>, ghost y: seq<real>)
      returns (r: Result<seq<real>>)
    requires |a.dims| == |a.strides| == 1 && |x| == a.dims[0] && Strided(a.data, a.offset, a.strides[0], x)
    requires |b.dims| == |b.strides| == 1 && |y| == b.dims[0] && Strided(b.data, b.offset, b.strides[0], y)
    ensures r == Zip(Pad(x, neutralA, Max(|x|, |y|)), Pad(y, neutralB, Max(|x|, |y|)), op, Max(|x|, |y|))
  {
    var n := Max(a.dims[0], b.dims[0]);
    ghost var px, py := Pad(x, neutralA, n), Pad(y, neutralB, n);
    var data := [];
    for i := 0 to n
      invariant Zip(px, py, op, i) == Ok(data)
    {
      var u := PaddedElement(a.data, a.offset, a.strides[0], a.dims[0], neutralA, i, x);
      var v := PaddedElement(b.data, b.offset, b.strides[0], b.dims[0], neutralB, i, y);
      var w := op(u, v);
      if w.Err? {
        RefusalStays(px, py, op, i + 1, n);
        return Err(w.message);
      }
      data := data + [w.value];
    }
    return Ok(data);
  }

  /** Padding to the common length is stretching. */
  lemma PadIsStretch(v: Values, dims: seq<nat>, neutral: real)
    requires v.Proper() && |v.dims| == 1 && |dims| == 1 && v.dims[0] <= dims[0]
    ensures |v.values| <= NumElements(dims) == dims[0]
    ensures Stretch(v, dims, neutral) == Pad(v.values, neutral, dims[0])
  {
    VectorCount(v.dims);
    VectorCount(dims);
  }

  lemma FreshTensor(dims: seq<nat>, values: seq<real>)
    requires |values| == NumElements(dims)
    ensures Computes(NewTensor(dims, values), Ok(Values(dims, values)))
  {
    NewTensorIsInBounds(dims, values);
  }

  /** `elementwise_binary_op`: the outcome depends on shapes and logical values only, never on layout. */
  method ElementwiseBinary(a: Tensor, b: Tensor, neutralA: real, neutralB: real, op: BinOp) returns (r: Result<Tensor>)
    requires InBounds(a) && InBounds(b)
    ensures Computes(r, Combine(Meaning(a), Meaning(b), neutralA, neutralB, op))
  {
    var dims, data;
    if a.dims == b.dims {
      dims := a.dims;
      data := ZipSameShape(a, b, op);
    } else if a.dims == [] {
      ScalarValue(a);
      dims := b.dims;
      var values := OperandValues(b);
      data := ZipContiguous(Repeat(a.data[a.offset], |values|), values, op);
    } else if b.dims == [] {
      ScalarValue(b);
      dims := a.dims;
      var values := OperandValues(a);
      data := ZipContiguous(values, Repeat(b.data[b.offset], |values|), op);
    } else if |a.dims| == 1 && |b.dims| == 1 {
      dims := [Max(a.dims[0], b.dims[0])];
      VectorIsStrided(a);
      VectorIsStrided(b);
      PadIsStretch(Meaning(a), dims, neutralA);
      PadIsStretch(Meaning(b), dims, neutralB);
      data := PadVectors(a, b, neutralA, neutralB, op, Logical(a), Logical(b));
    } else {
      return Err("Unsupported shapes for element-wise op");
    }
    if data.Err? {
      return Err(data.message);
    }
    FreshTensor(dims, data.value);
    r := NewTensor(dims, data.value);
  }

  // ---------------------------------------------------------------- one operand

  function Sum(x: seq<real>, n: nat): real
    requires n <= |x|
  {
    if n == 0 then 0.0 else Sum(x, n - 1) + x[n - 1]
  }

  method SumSlice(x: seq<real>) returns (total: real)
    ensures total == Sum(x, |x|)
  {
    total := 0.0;
    for i := 0 to |x|
      invariant total == Sum(x, i)
    {
      total := total + x[i];
    }
  }

  method SumLine(data: seq<real>, base: nat, step: nat, len: nat, ghost x: seq<real>) returns (total: real)
    requires |x| == len && Strided(data, base, step, x)
    ensures total == Sum(x, |x|)
  {
    total := 0.0;
    for i := 0 to len
      invariant total == Sum(x, i)
    {
      assert base + i * step < |data| && x[i] == data[base + i * step];
      total := total + data[base + i * step];
    }
  }

  method SumOdometer(a: Tensor, ghost x: seq<real>) returns (total: real)
    requires Addressed(a, x)
    ensures total == Sum(x, |x|)
  {
    total := 0.0;
    var len := NumElements(a.dims);
    var indices := new nat[|a.dims|](_ => 0);
    var aOff := a.offset;
    assert indices[..] == Zeros(|a.dims|);
    OdometerStart(a.dims, a.strides);
    for k := 0 to len
      invariant total == Sum(x, k) && aOff == a.offset + Dot(indices[..], a.strides)
      invariant k < len ==> indices[..] == Unravel(a.dims, k)
    {
      assert AddressedAt(a, x, k, indices[..]);
      total := total + a.data[aOff];
      AdvanceIsNext(a.dims, k);
      aOff := AdvanceInPlace(a.dims, a.strides, indices, aOff);
    }
  }

  /** `sum`: a true scalar, whatever the layout. */
  method SumTensor(a: Tensor) returns (r: Result<Tensor>)
    requires InBounds(a)
    ensures Computes(r, Ok(Values([], [Sum(Logical(a), |Logical(a)|)])))
  {
    var s := 0.0;
    var slice := AsContiguousSlice(a);
    if slice.Some? {
      s := SumSlice(slice.value);
    } else if |a.dims| == 1 {
      VectorIsStrided(a);
      s := SumLine(a.data, a.offset, a.strides[0], a.dims[0], Logical(a));
    } else {
      LogicalIsAddressed(a);
      s := SumOdometer(a, Logical(a));
    }
    FreshTensor([], [s]);
    r := NewTensor([], [s]);
  }

  function Scaled(x: seq<real>, factor: real): (s: seq<real>)
    ensures |s| == |x| && forall k :: 0 <= k < |x| ==> s[k] == factor * x[k]
  {
    seq(|x|, k requires 0 <= k < |x| => factor * x[k])
  }

  method ScaleValues(values: seq<real>, factor: real) returns (data: seq<real>)
    ensures data == Scaled(values, factor)
  {
    data := [];
    ghost var all := Scaled(values, factor);
    for i := 0 to |values|
      invariant data == all[..i]
    {
      var scaled := factor * values[i];
      assert all[i] == scaled;
      data := data + [scaled];
      assert data == all[..i + 1];
    }
  }

  /** `scalar_mul`. */
  method ScalarMul(a: Tensor, factor: real) returns (r: Result<Tensor>)
    requires InBounds(a)
    ensures Computes(r, Ok(Values(a.dims, Scaled(Logical(a), factor))))
  {
    var values := OperandValues(a);
    var data := ScaleValues(values, factor);
    FreshTensor(a.dims, data);
    r := NewTensor(a.dims, data);
  }

  // ---------------------------------------------------------------- laws

  const PLUS: BinOp := (x, y) => Ok(x + y)
  const MINUS: BinOp := (x, y) => Ok(x - y)
  const TIMES: BinOp := (x, y) => Ok(Product(x, y))
  const OVER: BinOp := (x, y) => if y == 0.0 then Err("Division by zero in element-wise divide") else Ok(Ratio(x, y))

  function Product(x: real, y: real): real { x * y }

  function Ratio(x: real, y: real): real
    requires y != 0.0
  {
    x / y
  }

  function Add(a: Values, b: Values): (r: Result<Values>)
    requires a.Proper() && b.Proper()
    ensures r.Ok? ==> r.value.Proper()
  {
    Combine(a, b, 0.0, 0.0, PLUS)
  }

  function Subtract(a: Values, b: Values): (r: Result<Values>)
    requires a.Proper() && b.Proper()
    ensures r.Ok? ==> r.value.Proper()
  {
    Combine(a, b, 0.0, 0.0, MINUS)
  }

  function Multiply(a: Values, b: Values): (r: Result<Values>)
    requires a.Proper() && b.Proper()
    ensures r.Ok? ==> r.value.Proper()
  {
    Combine(a, b, 1.0, 1.0, TIMES)
  }

  function Divide(a: Values, b: Values): (r: Result<Values>)
    requires a.Proper() && b.Proper()
    ensures r.Ok? ==> r.value.Proper()
  {
    Combine(a, b, 1.0, 1.0, OVER)
  }

  /** Zipping succeeds when every pair does, and then each value is its pair's. */
  lemma {:induction false} ZipIsPointwise(x: seq<real>, y: seq<real>, op: BinOp, n: nat)
    requires n <= |x| && n <= |y|
    ensures Zip(x, y, op, n).Ok? <==> forall k :: 0 <= k < n ==> op(x[k], y[k]).Ok?
    ensures Zip(x, y, op, n).Ok? ==> forall k :: 0 <= k < n ==> op(x[k], y[k]) == Ok(Zip(x, y, op, n).value[k])
  {
    if n > 0 {
      ZipIsPointwise(x, y, op, n - 1);
    }
  }

  /** What an operand contributes at place `k`: a scalar itself, anything else its value there or, past its end, the neutral element. */
  function Contribution(v: Values, neutral: real, k: nat): real
    requires v.Proper()
  {
    if v.dims == [] then v.values[0] else if k < |v.values| then v.values[k] else neutral
  }

  /** Equal shapes, a scalar on either side, or two vectors. */
  predicate CanCombine(a: seq<nat>, b: seq<nat>) {
    a == b || a == [] || b == [] || |a| == |b| == 1
  }

  /** As many results as the operand that is no scalar has values, or the longer of two vectors. */
  function ResultCount(a: Values, b: Values): nat {
    if a.dims == [] then |b.values| else if b.dims == [] || |a.values| >= |b.values| then |a.values| else |b.values|
  }

  lemma StretchIs(v: Values, other: Values, neutral: real)
    requires v.Proper() && other.Proper() && CanCombine(v.dims, other.dims)
    ensures CommonDims(v.dims, other.dims).Some?
    ensures var dims := CommonDims(v.dims, other.dims).value;
            && NumElements(dims) == ResultCount(v, other) == |Stretch(v, dims, neutral)|
            && forall k :: 0 <= k < NumElements(dims) ==> Stretch(v, dims, neutral)[k] == Contribution(v, neutral, k)
  {
    StretchFits(v, other, CommonDims(v.dims, other.dims).value, neutral);
    if |v.dims| == |other.dims| == 1 {
      VectorCount(v.dims);
      VectorCount(other.dims);
      VectorCount([Max(v.dims[0], other.dims[0])]);
    }
  }

  /** The shape of the operand that is no scalar, or as long as the longer of two vectors. */
  predicate ResultShape(a: Values, b: Values, dims: seq<nat>) {
    && (a.dims == [] ==> dims == b.dims) && (b.dims == [] ==> dims == a.dims) && (a.dims == b.dims ==> dims == a.dims)
    && (|a.dims| == |b.dims| == 1 ==> dims == [ResultCount(a, b)])
  }

  ghost predicate EachCombines(a: Values, b: Values, neutralA: real, neutralB: real, op: BinOp, values: seq<real>)
    requires a.Proper() && b.Proper()
  {
    |values| == ResultCount(a, b) &&
    forall k :: 0 <= k < |values| ==> op(Contribution(a, neutralA, k), Contribution(b, neutralB, k)) == Ok(values[k])
  }

  /** An elementwise operation, in full: when it succeeds, of what shape the result is, and what each of its values is. */
  lemma CombineIs(a: Values, b: Values, neutralA: real, neutralB: real, op: BinOp)
    requires a.Proper() && b.Proper()
    ensures var r := Combine(a, b, neutralA, neutralB, op);
            && (r.Ok? <==> CanCombine(a.dims, b.dims) &&
                           forall k :: 0 <= k < ResultCount(a, b) ==>
                             op(Contribution(a, neutralA, k), Contribution(b, neutralB, k)).Ok?)
            && (r.Ok? ==> ResultShape(a, b, r.value.dims) && EachCombines(a, b, neutralA, neutralB, op, r.value.values))
  {
    if CanCombine(a.dims, b.dims) {
      StretchIs(a, b, neutralA);
      StretchIs(b, a, neutralB);
      CommonDimsSwap(a.dims, b.dims);
      SameCount(a, b);
      var dims := CommonDims(a.dims, b.dims).value;
      ZipIsPointwise(Stretch(a, dims, neutralA), Stretch(b, dims, neutralB), op, NumElements(dims));
    }
  }

  lemma SameCount(a: Values, b: Values)
    requires a.Proper() && b.Proper() && CanCombine(a.dims, b.dims)
    ensures ResultCount(a, b) == ResultCount(b, a)
    ensures CommonDims(a.dims, b.dims).Some? && ResultShape(a, b, CommonDims(a.dims, b.dims).value)
  {
    StretchIs(a, b, 0.0);
    if |a.dims| == |b.dims| == 1 {
      VectorCount(CommonDims(a.dims, b.dims).value);
    }
    if a.dims == [] && b.dims == [] {
      assert |a.values| == |b.values|;
    }
  }

  lemma CommonDimsSwap(a: seq<nat>, b: seq<nat>)
    ensures CommonDims(a, b) == CommonDims(b, a)
  {
  }

  lemma {:induction false} ZipSwap(x: seq<real>, y: seq<real>, op: BinOp, n: nat)
    requires n <= |x| && n <= |y| && forall u, v :: op(u, v) == op(v, u)
    ensures Zip(x, y, op, n) == Zip(y, x, op, n)
  {
    if n > 0 {
      ZipSwap(x, y, op, n - 1);
    }
  }

  /** Addition and multiplication commute, with broadcasting and padding included. */
  lemma AddAndMultiplyCommute(a: Values, b: Values)
    requires a.Proper() && b.Proper()
    ensures Add(a, b) == Add(b, a) && Multiply(a, b) == Multiply(b, a)
  {
    CommonDimsSwap(a.dims, b.dims);
    if CommonDims(a.dims, b.dims).Some? {
      var dims := CommonDims(a.dims, b.dims).value;
      forall neutral
        ensures |Stretch(a, dims, neutral)| == |Stretch(b, dims, neutral)| == NumElements(dims)
      {
        StretchFits(a, b, dims, neutral);
        StretchFits(b, a, dims, neutral);
      }
      ZipSwap(Stretch(a, dims, 0.0), Stretch(b, dims, 0.0), PLUS, NumElements(dims));
      forall u, v
        ensures TIMES(u, v) == TIMES(v, u)
      {
        TimesIs(u, v);
        TimesIs(v, u);
        assert u * v == v * u;
      }
      ZipSwap(Stretch(a, dims, 1.0), Stretch(b, dims, 1.0), TIMES, NumElements(dims));
    }
  }

  /** Taking `b` away again leaves `a`, brought to the common shape. */
  lemma AddThenSubtract(a: Values, b: Values)
    requires a.Proper() && b.Proper() && Add(a, b).Ok?
    ensures var sum := Add(a, b).value;
            Subtract(sum, b) == Ok(Values(sum.dims, Stretch(a, sum.dims, 0.0)))
  {
    var sum := Add(a, b).value;
    var dims, n := sum.dims, NumElements(sum.dims);
    StretchFits(a, b, dims, 0.0);
    StretchFits(b, a, dims, 0.0);
    var x, y := Stretch(a, dims, 0.0), Stretch(b, dims, 0.0);
    ZipIsPointwise(x, y, PLUS, n);
    SumTakesShape(a, b);
    ZipIsPointwise(sum.values, y, MINUS, n);
    assert Zip(sum.values, y, MINUS, n).value == x;
  }

  /** Adding `b` again undoes a subtraction: the shorter operand of a difference is padded with zeros. */
  lemma SubtractThenAdd(a: Values, b: Values)
    requires a.Proper() && b.Proper() && Subtract(a, b).Ok?
    ensures var difference := Subtract(a, b).value;
            Add(difference, b) == Ok(Values(difference.dims, Stretch(a, difference.dims, 0.0)))
  {
    var difference := Subtract(a, b).value;
    var dims, n := difference.dims, NumElements(difference.dims);
    StretchFits(a, b, dims, 0.0);
    StretchFits(b, a, dims, 0.0);
    var x, y := Stretch(a, dims, 0.0), Stretch(b, dims, 0.0);
    ZipIsPointwise(x, y, MINUS, n);
    SumTakesShape(a, b);
    ZipIsPointwise(difference.values, y, PLUS, n);
    assert Zip(difference.values, y, PLUS, n).value == x;
  }

  /** Multiplying by `b` again undoes a division: a quotient is what times `b` gives `a`, brought to the common shape. */
  lemma DivideThenMultiply(a: Values, b: Values)
    requires a.Proper() && b.Proper() && Divide(a, b).Ok?
    ensures var quotient := Divide(a, b).value;
            Multiply(quotient, b) == Ok(Values(quotient.dims, Stretch(a, quotient.dims, 1.0)))
  {
    var quotient := Divide(a, b).value;
    var dims, n := quotient.dims, NumElements(quotient.dims);
    StretchFits(a, b, dims, 1.0);
    StretchFits(b, a, dims, 1.0);
    var x, y := Stretch(a, dims, 1.0), Stretch(b, dims, 1.0);
    ZipIsPointwise(x, y, OVER, n);
    SumTakesShape(a, b);
    forall k | 0 <= k < n
      ensures TIMES(quotient.values[k], y[k]) == Ok(x[k])
    {
      TimesUndoesOver(x[k], y[k], quotient.values[k]);
    }
    ZipIsPointwise(quotient.values, y, TIMES, n);
    assert Zip(quotient.values, y, TIMES, n).value == x;
  }

  lemma TimesUndoesOver(x: real, y: real, q: real)
    requires OVER(x, y) == Ok(q)
    ensures TIMES(q, y) == Ok(x)
  {
    assert y != 0.0;
    OverIs(x, y);
    QuotientTimes(x, y, q);
    TimesIs(q, y);
  }

  lemma QuotientTimes(x: real, y: real, q: real)
    requires y != 0.0 && q == x / y
    ensures q * y == x
  {
    Quotient(x, y);
  }

  lemma OverIs(x: real, y: real)
    requires y != 0.0
    ensures OVER(x, y) == Ok(x / y)
  {
    var q := Ratio(x, y);
    assert OVER(x, y) == Ok(q);
  }

  lemma TimesIs(x: real, y: real)
    ensures TIMES(x, y) == Ok(x * y)
  {
    assert Product(x, y) == x * y;
  }

  /** Multiplying by a scalar tensor is scaling. */
  lemma MultiplyByScalar(a: Values, factor: real)
    requires a.Proper()
    ensures Values([], [factor]).Proper() && Multiply(Values([], [factor]), a) == Ok(Values(a.dims, Scaled(a.values, factor)))
  {
    var b, n := Values([], [factor]), NumElements(a.dims);
    StretchFits(a, b, a.dims, 1.0);
    StretchFits(b, a, a.dims, 1.0);
    var y := Stretch(b, a.dims, 1.0);
    forall k | 0 <= k < n
      ensures TIMES(y[k], a.values[k]) == Ok(Scaled(a.values, factor)[k])
    {
      assert y[k] == factor;
      TimesIs(factor, a.values[k]);
      assert Scaled(a.values, factor)[k] == factor * a.values[k];
    }
    ZipIsPointwise(y, a.values, TIMES, n);
    assert Zip(y, a.values, TIMES, n).value == Scaled(a.values, factor);
  }

  lemma SumTakesShape(a: Values, b: Values)
    requires a.Proper() && b.Proper() && CommonDims(a.dims, b.dims).Some?
    ensures CommonDims(CommonDims(a.dims, b.dims).value, b.dims) == CommonDims(a.dims, b.dims)
  {
  }

  /** Division is refused exactly for unsupported shapes and for a zero among the divisors that are used. */
  lemma DivideRefuses(a: Values, b: Values)
    requires a.Proper() && b.Proper()
    ensures Divide(a, b).Err? <==>
            CommonDims(a.dims, b.dims).None? ||
            (NumElements(CommonDims(a.dims, b.dims).value) > 0 && exists k :: 0 <= k < |b.values| && b.values[k] == 0.0)
  {
    if CommonDims(a.dims, b.dims).Some? {
      var dims := CommonDims(a.dims, b.dims).value;
      var n := NumElements(dims);
      StretchFits(a, b, dims, 1.0);
      StretchFits(b, a, dims, 1.0);
      var x, y := Stretch(a, dims, 1.0), Stretch(b, dims, 1.0);
      ZipIsPointwise(x, y, OVER, n);
      assert Divide(a, b).Err? <==> exists k :: 0 <= k < n && y[k] == 0.0;
      ZerosKept(b, dims, 1.0);
    }
  }

  /** Stretching with a neutral element other than zero neither adds nor drops a zero. */
  lemma ZerosKept(v: Values, dims: seq<nat>, neutral: real)
    requires v.Proper() && neutral != 0.0 && |Stretch(v, dims, neutral)| == NumElements(dims)
    ensures (exists k :: 0 <= k < NumElements(dims) && Stretch(v, dims, neutral)[k] == 0.0)
            <==> NumElements(dims) > 0 && exists k :: 0 <= k < |v.values| && v.values[k] == 0.0
  {
    var y, n := Stretch(v, dims, neutral), NumElements(dims);
    if k :| 0 <= k < n && y[k] == 0.0 {
      assert v.values[if v.dims == [] then 0 else k] == 0.0;
    }
    if n > 0 && exists k :: 0 <= k < |v.values| && v.values[k] == 0.0 {
      var k :| 0 <= k < |v.values| && v.values[k] == 0.0;
      assert y[k] == 0.0;
    }
  }

  /** A value among zeros sums to itself; with the sum of sums and of multiples that decides every sum. */
  lemma {:induction false} SumOfOne(x: seq<real>, n: nat, k: nat)
    requires k < |x| && n <= |x| && forall i :: 0 <= i < |x| && i != k ==> x[i] == 0.0
    ensures Sum(x, n) == if k < n then x[k] else 0.0
  {
    if n > 0 {
      SumOfOne(x, n - 1, k);
    }
  }

  lemma {:induction false} SumOfZip(x: seq<real>, y: seq<real>, n: nat)
    requires n <= |x| && n <= |y|
    ensures Zip(x, y, PLUS, n).Ok? && Sum(Zip(x, y, PLUS, n).value, n) == Sum(x, n) + Sum(y, n)
  {
    if n > 0 {
      SumOfZip(x, y, n - 1);
      var most := Zip(x, y, PLUS, n - 1).value;
      SumPrefix(Zip(x, y, PLUS, n).value, most, n - 1);
    }
  }

  lemma {:induction false} SumPrefix(x: seq<real>, y: seq<real>, n: nat)
    requires n <= |x| && n <= |y| && forall k :: 0 <= k < n ==> x[k] == y[k]
    ensures Sum(x, n) == Sum(y, n)
  {
    if n > 0 {
      SumPrefix(x, y, n - 1);
    }
  }

  lemma {:induction false} SumOfPadded(x: seq<real>, n: nat, k: nat)
    requires |x| <= k <= n
    ensures Sum(Pad(x, 0.0, n), k) == Sum(x, |x|)
    decreases k
  {
    if k == |x| {
      SumPrefix(Pad(x, 0.0, n), x, k);
    } else {
      SumOfPadded(x, n, k - 1);
    }
  }

  lemma SumOfStretched(v: Values, other: Values, dims: seq<nat>)
    requires v.Proper() && other.Proper() && CommonDims(v.dims, other.dims) == Some(dims) && v.dims != []
    ensures |Stretch(v, dims, 0.0)| == NumElements(dims)
    ensures Sum(Stretch(v, dims, 0.0), NumElements(dims)) == Sum(v.values, |v.values|)
  {
    StretchFits(v, other, dims, 0.0);
    if v.dims != dims {
      SumOfPadded(v.values, NumElements(dims), NumElements(dims));
    }
  }

  /** Without broadcasting, the sum of a sum is the sum of the sums: padding adds nothing. */
  lemma SumOfAdd(a: Values, b: Values)
    requires a.Proper() && b.Proper() && Add(a, b).Ok? && (a.dims == b.dims || (a.dims != [] && b.dims != []))
    ensures Sum(Add(a, b).value.values, |Add(a, b).value.values|) == Sum(a.values, |a.values|) + Sum(b.values, |b.values|)
  {
    var dims := Add(a, b).value.dims;
    if a.dims != b.dims {
      SumOfStretched(a, b, dims);
      CommonDimsSwap(a.dims, b.dims);
      SumOfStretched(b, a, dims);
    }
    SumOfZip(Stretch(a, dims, 0.0), Stretch(b, dims, 0.0), NumElements(dims));
  }

  lemma {:induction false} SumOfScaled(x: seq<real>, factor: real, n: nat)
    requires n <= |x|
    ensures Sum(Scaled(x, factor), n) == factor * Sum(x, n)
  {
    if n > 0 {
      SumOfScaled(x, factor, n - 1);
    }
  }
}
