/**
 Zero-copy views and reshapes of `src/engine/kernels.rs`: `transpose`, `slice`, `index`, `reshape` and
 `flatten`. Views are built without any bounds check, so that they stay inside the buffer is proved.
 */
module Views {
  import opened Common
  import opened Tensors

  // ---------------------------------------------------------------- transpose and slice

  function Transpose(t: Tensor): (r: Result<Tensor>)
    requires |t.strides| == |t.dims|
    ensures r.Ok? <==> |t.dims| == 2
    ensures r.Ok? ==> r.value.dims == [t.dims[1], t.dims[0]]
  {
    if |t.dims| != 2 then Err("transpose expects rank-2 tensor (matrix)")
    else Ok(Tensor([t.dims[1], t.dims[0]], t.data, [t.strides[1], t.strides[0]], t.offset))
  }

  function Slice(t: Tensor, dim: nat, start: nat, end: nat): (r: Result<Tensor>)
    requires |t.strides| == |t.dims|
    ensures r.Ok? <==> dim < |t.dims| && start < end <= t.dims[dim]
    ensures r.Ok? ==> r.value.dims == t.dims[dim := end - start]
  {
    if dim >= |t.dims| then Err("Dimension out of bounds")
    else if start >= end then Err("Invalid slice range")
    else if end > t.dims[dim] then Err("Slice end exceeds dimension size")
    else Ok(Tensor(t.dims[dim := end - start], t.data, t.strides, t.offset + start * t.strides[dim]))
  }

  lemma TransposeAddress(t: Tensor, i: nat, j: nat)
    requires |t.strides| == |t.dims| == 2
    ensures Dot([j, i], [t.strides[1], t.strides[0]]) == Dot([i, j], t.strides)
  {
    TwoTerms(i, j, t.strides);
    TwoTerms(j, i, [t.strides[1], t.strides[0]]);
  }

  lemma TwoTerms(i: nat, j: nat, strides: seq<nat>)
    requires |strides| == 2
    ensures Dot([i, j], strides) == i * strides[0] + j * strides[1]
  {
    assert [i, j][1..] == [j] && [j][1..] == [] && strides[1..][1..] == [];
    assert Dot([j], strides[1..]) == j * strides[1] + Dot([], []);
  }

  /** A transposed matrix stays in bounds and swaps its indices. */
  lemma TransposeReads(t: Tensor)
    requires InBounds(t) && |t.dims| == 2
    ensures var v := Transpose(t).value;
            InBounds(v) && forall idx :: ValidIndex(v.dims, idx) ==>
              ValidIndex(t.dims, [idx[1], idx[0]]) && At(v, idx) == At(t, [idx[1], idx[0]])
  {
    var v := Transpose(t).value;
    forall idx | ValidIndex(v.dims, idx)
      ensures ValidIndex(t.dims, [idx[1], idx[0]]) && Dot(idx, v.strides) == Dot([idx[1], idx[0]], t.strides)
    {
      assert idx == [idx[0], idx[1]];
      TransposeAddress(t, idx[1], idx[0]);
    }
  }

  lemma Distribute(a: nat, b: nat, c: nat)
    ensures (a + b) * c == a * c + b * c
  {
  }

  lemma SliceAddress(strides: seq<nat>, idx: seq<nat>, dim: nat, start: nat)
    requires dim < |idx| == |strides|
    ensures start * strides[dim] + Dot(idx, strides) == Dot(idx[dim := start + idx[dim]], strides)
  {
    DotUpdate(idx, strides, dim, start + idx[dim]);
    Distribute(start, idx[dim], strides[dim]);
  }

  /** A slice stays in bounds and shifts one index. */
  lemma SliceReads(t: Tensor, dim: nat, start: nat, end: nat)
    requires InBounds(t) && Slice(t, dim, start, end).Ok?
    ensures var v := Slice(t, dim, start, end).value;
            InBounds(v) && forall idx :: ValidIndex(v.dims, idx) ==>
              ValidIndex(t.dims, idx[dim := start + idx[dim]]) && At(v, idx) == At(t, idx[dim := start + idx[dim]])
  {
    var v := Slice(t, dim, start, end).value;
    forall idx | ValidIndex(v.dims, idx)
      ensures ValidIndex(t.dims, idx[dim := start + idx[dim]])
      ensures v.offset + Dot(idx, v.strides) == t.offset + Dot(idx[dim := start + idx[dim]], t.strides)
    {
      SliceAddress(t.strides, idx, dim, start);
    }
  }

  // ---------------------------------------------------------------- chains of views

  datatype ViewOp = Transposing | Slicing(dim: nat, start: nat, end: nat)

  function ApplyOp(t: Tensor, op: ViewOp): (r: Result<Tensor>)
    requires |t.strides| == |t.dims|
    ensures r.Ok? ==> |r.value.strides| == |r.value.dims|
  {
    match op
    case Transposing => Transpose(t)
    case Slicing(dim, start, end) => Slice(t, dim, start, end)
  }

  /** A chain stops at its first refused view. */
  function ApplyAll(t: Tensor, ops: seq<ViewOp>): (r: Result<Tensor>)
    requires |t.strides| == |t.dims|
    ensures r.Ok? ==> |r.value.strides| == |r.value.dims|
  {
    if ops == [] then Ok(t)
    else match ApplyAll(t, ops[..|ops| - 1])
      case Ok(v) => ApplyOp(v, ops[|ops| - 1])
      case Err(e) => Err(e)
  }

  /** Where an index into a view points in the tensor it views. */
  ghost function Behind(op: ViewOp, idx: seq<nat>): seq<nat> {
    match op
    case Transposing => if |idx| == 2 then [idx[1], idx[0]] else idx
    case Slicing(dim, start, _) => if dim < |idx| then idx[dim := start + idx[dim]] else idx
  }

  ghost function BehindAll(ops: seq<ViewOp>, idx: seq<nat>): seq<nat> {
    if ops == [] then idx else BehindAll(ops[..|ops| - 1], Behind(ops[|ops| - 1], idx))
  }

  ghost predicate Views(v: Tensor, t: Tensor, ops: seq<ViewOp>) {
    InBounds(t) && InBounds(v) && v.data == t.data &&
    forall idx :: ValidIndex(v.dims, idx) ==>
      ValidIndex(t.dims, BehindAll(ops, idx)) && At(v, idx) == At(t, BehindAll(ops, idx))
  }

  lemma OpReads(t: Tensor, op: ViewOp)
    requires InBounds(t) && ApplyOp(t, op).Ok?
    ensures var v := ApplyOp(t, op).value;
            InBounds(v) && v.data == t.data && forall idx :: ValidIndex(v.dims, idx) ==>
              ValidIndex(t.dims, Behind(op, idx)) && At(v, idx) == At(t, Behind(op, idx))
  {
    match op
    case Transposing => TransposeReads(t);
    case Slicing(dim, start, end) => SliceReads(t, dim, start, end);
  }

  /**
   Every chain of transposes and slices that is accepted gives a tensor inside the same buffer whose
   elements are those of the source at the composed index.
   */
  lemma {:induction false} ChainReadsSource(t: Tensor, ops: seq<ViewOp>)
    requires InBounds(t) && ApplyAll(t, ops).Ok?
    ensures Views(ApplyAll(t, ops).value, t, ops)
  {
    if ops != [] {
      var most, last := ops[..|ops| - 1], ops[|ops| - 1];
      ChainReadsSource(t, most);
      var u := ApplyAll(t, most).value;
      var v := ApplyAll(t, ops).value;
      OpReads(u, last);
      forall idx | ValidIndex(v.dims, idx)
        ensures ValidIndex(t.dims, BehindAll(ops, idx)) && At(v, idx) == At(t, BehindAll(ops, idx))
      {
        assert ValidIndex(u.dims, Behind(last, idx));
        assert BehindAll(ops, idx) == BehindAll(most, Behind(last, idx));
      }
    }
  }

  /** Views of a new tensor, and nothing but the data decides their values. */
  lemma ChainOfNew(dims: seq<nat>, data: seq<real>, ops: seq<ViewOp>)
    requires NewTensor(dims, data).Ok? && ApplyAll(NewTensor(dims, data).value, ops).Ok?
    ensures var v := ApplyAll(NewTensor(dims, data).value, ops).value;
            InBounds(v) && forall idx :: ValidIndex(v.dims, idx) ==>
              ValidIndex(dims, BehindAll(ops, idx)) &&
              Ravel(dims, BehindAll(ops, idx)) < |data| && At(v, idx) == data[Ravel(dims, BehindAll(ops, idx))]
  {
    var t := NewTensor(dims, data).value;
    NewTensorIsInBounds(dims, data);
    ChainReadsSource(t, ops);
    var v := ApplyAll(t, ops).value;
    forall idx | ValidIndex(v.dims, idx)
      ensures Ravel(dims, BehindAll(ops, idx)) < |data| && At(v, idx) == data[Ravel(dims, BehindAll(ops, idx))]
    {
      assert ValidIndex(dims, BehindAll(ops, idx));
      RavelInverts(dims, BehindAll(ops, idx));
      DefaultAddress(dims, BehindAll(ops, idx));
    }
  }

  lemma TransposeTwice(t: Tensor)
    requires |t.strides| == |t.dims| == 2
    ensures ApplyAll(t, [Transposing, Transposing]) == Ok(t)
  {
    var ops := [Transposing, Transposing];
    assert ops[..1] == [Transposing] && [Transposing][..0] == [];
    assert ApplyAll(t, [Transposing]) == Transpose(t);
    var v := Transpose(Transpose(t).value).value;
    assert v.dims == t.dims && v.strides == t.strides;
  }

  /** A slice of a slice along the same dimension is one slice. */
  lemma SliceOfSlice(t: Tensor, dim: nat, start: nat, end: nat, from: nat, to: nat)
    requires |t.strides| == |t.dims| && Slice(t, dim, start, end).Ok?
    requires Slice(Slice(t, dim, start, end).value, dim, from, to).Ok?
    ensures Slice(Slice(t, dim, start, end).value, dim, from, to) == Slice(t, dim, start + from, start + to)
  {
    Distribute(start, from, t.strides[dim]);
    assert t.dims[dim := end - start][dim := to - from] == t.dims[dim := to - from];
  }

  // ---------------------------------------------------------------- index

  /** `index`: a value for exactly the valid indices, and then that element. */
  method Index(t: Tensor, indices: seq<nat>) returns (r: Result<real>)
    requires InBounds(t)
    ensures r.Ok? <==> ValidIndex(t.dims, indices)
    ensures r.Ok? ==> r.value == At(t, indices)
  {
    if |indices| != |t.dims| {
      return Err("Index dimension mismatch");
    }
    for i := 0 to |indices|
      invariant forall d :: 0 <= d < i ==> indices[d] < t.dims[d]
    {
      if indices[i] >= t.dims[i] {
        return Err("Index out of bounds");
      }
    }
    var flat := t.offset;
    for i := 0 to |indices|
      invariant flat == t.offset + Dot(indices[..i], t.strides[..i])
    {
      DotSnoc(indices, t.strides, i);
      flat := flat + indices[i] * t.strides[i];
    }
    assert indices[..|indices|] == indices && t.strides[..|indices|] == t.strides;
    r := Ok(t.data[flat]);
  }

  lemma {:induction false} DotSnoc(idx: seq<nat>, strides: seq<nat>, i: nat)
    requires i < |idx| == |strides|
    ensures Dot(idx[..i + 1], strides[..i + 1]) == Dot(idx[..i], strides[..i]) + idx[i] * strides[i]
  {
    if i == 0 {
      assert idx[..1][1..] == [] && strides[..1][1..] == [];
    } else {
      DotSnoc(idx[1..], strides[1..], i - 1);
      assert idx[..i + 1][1..] == idx[1..][..i] && strides[..i + 1][1..] == strides[1..][..i];
      assert idx[..i][1..] == idx[1..][..i - 1] && strides[..i][1..] == strides[1..][..i - 1];
    }
  }

  /** `index` at the multi-index of position `k` is the `k`-th logical value: the traversals agree with it. */
  lemma IndexIsLogical(t: Tensor, idx: seq<nat>)
    requires InBounds(t) && ValidIndex(t.dims, idx)
    ensures Ravel(t.dims, idx) < NumElements(t.dims) && Logical(t)[Ravel(t.dims, idx)] == At(t, idx)
  {
    RavelInverts(t.dims, idx);
  }

  // ---------------------------------------------------------------- flatten and reshape

  /** `flatten`: one dimension, the same values in the same order, whatever the layout. */
  method Flatten(t: Tensor) returns (r: Result<Tensor>)
    requires InBounds(t)
    ensures r.Ok? && r.value.dims == [NumElements(t.dims)] && InBounds(r.value) && Logical(r.value) == Logical(t)
  {
    var total := NumElements(t.dims);
    var data;
    var slice := AsContiguousSlice(t);
    if slice.Some? {
      data := slice.value;
    } else if |t.dims| == 2 {
      data := MatrixValues(t);
    } else {
      data := OdometerValues(t);
    }
    VectorSize(total);
    NewTensorIsInBounds([total], data);
    r := NewTensor([total], data);
  }

  lemma VectorSize(n: nat)
    ensures NumElements([n]) == n
  {
    assert [n][1..] == [];
  }

  /** `reshape`: the same buffer under default strides from offset 0. */
  function Reshape(t: Tensor, dims: seq<nat>): Result<Tensor> {
    if NumElements(t.dims) != NumElements(dims) then Err("Cannot reshape")
    else FromShared(dims, t.data)
  }

  /** A reshape is in bounds, and reads the front of the buffer, not the view. */
  lemma ReshapeReadsBuffer(t: Tensor, dims: seq<nat>)
    requires Reshape(t, dims).Ok?
    ensures InBounds(Reshape(t, dims).value) && Logical(Reshape(t, dims).value) == t.data[..NumElements(dims)]
  {
    FromSharedIsInBounds(dims, t.data);
  }

  lemma {:induction false} SmallerCount(dims: seq<nat>, d: nat, x: nat)
    requires d < |dims| && x <= dims[d]
    ensures NumElements(dims[d := x]) <= NumElements(dims)
  {
    if d == 0 {
      assert dims[0 := x][1..] == dims[1..];
      MulMonotone(x, dims[0], NumElements(dims[1..]));
    } else {
      assert dims[d := x][1..] == dims[1..][d - 1 := x];
      SmallerCount(dims[1..], d - 1, x);
      MulMonotone(NumElements(dims[1..][d - 1 := x]), NumElements(dims[1..]), dims[0]);
    }
  }

  lemma ViewIsNoLarger(t: Tensor, op: ViewOp)
    requires |t.strides| == |t.dims| && ApplyOp(t, op).Ok?
    ensures NumElements(ApplyOp(t, op).value.dims) <= NumElements(t.dims) && ApplyOp(t, op).value.data == t.data
  {
    match op
    case Transposing =>
      RankTwoSize(t.dims);
      RankTwoSize([t.dims[1], t.dims[0]]);
    case Slicing(dim, start, end) =>
      SmallerCount(t.dims, dim, end - start);
  }

  lemma {:induction false} ChainIsNoLarger(t: Tensor, ops: seq<ViewOp>)
    requires |t.strides| == |t.dims| && ApplyAll(t, ops).Ok?
    ensures NumElements(ApplyAll(t, ops).value.dims) <= NumElements(t.dims) && ApplyAll(t, ops).value.data == t.data
  {
    if ops != [] {
      ChainIsNoLarger(t, ops[..|ops| - 1]);
      ViewIsNoLarger(ApplyAll(t, ops[..|ops| - 1]).value, ops[|ops| - 1]);
    }
  }

  /** A view of a new tensor is reshaped exactly when the element counts agree: its buffer is never too short. */
  lemma ReshapeAcceptsViews(dims: seq<nat>, data: seq<real>, ops: seq<ViewOp>, shape: seq<nat>)
    requires NewTensor(dims, data).Ok? && ApplyAll(NewTensor(dims, data).value, ops).Ok?
    ensures var v := ApplyAll(NewTensor(dims, data).value, ops).value;
            Reshape(v, shape).Ok? <==> NumElements(v.dims) == NumElements(shape)
  {
    ChainIsNoLarger(NewTensor(dims, data).value, ops);
  }

  /** Row-major from offset 0, apart from the strides of dimensions of size one, which are never used. */
  predicate Packed(dims: seq<nat>, strides: seq<nat>)
    requires |strides| == |dims|
  {
    dims == [] || ((dims[0] == 1 || strides[0] == NumElements(dims[1..])) && Packed(dims[1..], strides[1..]))
  }

  lemma {:induction false} PackedAddress(dims: seq<nat>, strides: seq<nat>, idx: seq<nat>)
    requires |strides| == |dims| && Packed(dims, strides) && ValidIndex(dims, idx)
    ensures Dot(idx, strides) == Ravel(dims, idx)
  {
    if dims != [] {
      PackedAddress(dims[1..], strides[1..], idx[1..]);
    }
  }

  function Unit(n: nat, d: nat): (u: seq<nat>)
    requires d < n
    ensures |u| == n
  {
    Zeros(n)[d := 1]
  }

  lemma {:induction false} UnitAddress(strides: seq<nat>, d: nat)
    requires d < |strides|
    ensures Dot(Unit(|strides|, d), strides) == strides[d]
  {
    var unit := Unit(|strides|, d);
    if d == 0 {
      assert unit[1..] == Zeros(|strides| - 1);
      DotZero(|strides| - 1, strides[1..]);
    } else {
      assert unit[1..] == Unit(|strides| - 1, d - 1);
      UnitAddress(strides[1..], d - 1);
    }
  }

  lemma {:induction false} PositiveDims(dims: seq<nat>, d: nat)
    requires NumElements(dims) > 0 && d < |dims|
    ensures dims[d] > 0
  {
    if d > 0 {
      PositiveDims(dims[1..], d - 1);
    }
  }

  lemma UnitIsValid(dims: seq<nat>, d: nat)
    requires NumElements(dims) > 0 && d < |dims| && dims[d] > 1
    ensures ValidIndex(dims, Unit(|dims|, d))
  {
    forall e | 0 <= e < |dims|
      ensures dims[e] > 0
    {
      PositiveDims(dims, e);
    }
  }

  /** A layout that addresses every element at its position is packed. */
  ghost predicate AddressIsPosition(dims: seq<nat>, strides: seq<nat>, offset: nat)
    requires |strides| == |dims|
  {
    forall idx :: ValidIndex(dims, idx) ==> offset + Dot(idx, strides) == Ravel(dims, idx)
  }

  lemma StrideAt(dims: seq<nat>, strides: seq<nat>, d: nat)
    requires |strides| == |dims| && NumElements(dims) > 0 && AddressIsPosition(dims, strides, 0)
    requires d < |dims| && dims[d] != 1
    ensures strides[d] == DefaultStrides(dims)[d]
  {
    PositiveDims(dims, d);
    var u := Unit(|dims|, d);
    UnitIsValid(dims, d);
    UnitAddress(strides, d);
    UnitAddress(DefaultStrides(dims), d);
    DefaultAddress(dims, u);
  }

  lemma {:induction false} StridesPack(dims: seq<nat>, strides: seq<nat>)
    requires |strides| == |dims|
    requires forall d :: 0 <= d < |dims| && dims[d] != 1 ==> strides[d] == DefaultStrides(dims)[d]
    ensures Packed(dims, strides)
  {
    if dims != [] {
      forall d | 0 <= d < |dims| - 1 && dims[1..][d] != 1
        ensures strides[1..][d] == DefaultStrides(dims[1..])[d]
      {
        assert dims[d + 1] != 1 && DefaultStrides(dims)[d + 1] == DefaultStrides(dims[1..])[d];
      }
      StridesPack(dims[1..], strides[1..]);
    }
  }

  lemma OnlyPacked(dims: seq<nat>, strides: seq<nat>, offset: nat)
    requires |strides| == |dims| && NumElements(dims) > 0 && AddressIsPosition(dims, strides, offset)
    ensures offset == 0 && Packed(dims, strides)
  {
    var zero := Zeros(|dims|);
    forall d | 0 <= d < |dims|
      ensures dims[d] > 0
    {
      PositiveDims(dims, d);
    }
    DotZero(|dims|, strides);
    DotZero(|dims|, DefaultStrides(dims));
    DefaultAddress(dims, zero);
    assert ValidIndex(dims, zero);
    forall d | 0 <= d < |dims| && dims[d] != 1
      ensures strides[d] == DefaultStrides(dims)[d]
    {
      StrideAt(dims, strides, d);
    }
    StridesPack(dims, strides);
  }

  /** The reshape of this layout over this buffer keeps the logical values in order. */
  ghost predicate ReshapeKeepsValues(layout: Tensor, data: seq<real>, dims: seq<nat>) {
    var t := layout.(data := data);
    InBounds(t) && Reshape(t, dims).Ok? && InBounds(Reshape(t, dims).value) &&
    Logical(Reshape(t, dims).value) == Logical(t)
  }

  lemma PackedKeepsValues(t: Tensor, dims: seq<nat>)
    requires InBounds(t) && Reshape(t, dims).Ok?
    requires NumElements(t.dims) == 0 || (t.offset == 0 && Packed(t.dims, t.strides))
    ensures ReshapeKeepsValues(t, t.data, dims)
  {
    ReshapeReadsBuffer(t, dims);
    forall k | 0 <= k < NumElements(t.dims)
      ensures Element(t, k) == t.data[k]
    {
      UnravelIsValid(t.dims, k);
      PackedAddress(t.dims, t.strides, Unravel(t.dims, k));
      UnravelInverts(t.dims, k);
    }
  }

  function Positions(n: nat): (s: seq<real>)
    ensures |s| == n && forall k :: 0 <= k < n ==> s[k] == k as real
  {
    seq(n, k => k as real)
  }

  lemma KeptMeansPosition(t: Tensor, dims: seq<nat>)
    requires t.data == Positions(|t.data|) && ReshapeKeepsValues(t, t.data, dims)
    ensures AddressIsPosition(t.dims, t.strides, t.offset)
  {
    ReshapeReadsBuffer(t, dims);
    forall idx | ValidIndex(t.dims, idx)
      ensures t.offset + Dot(idx, t.strides) == Ravel(t.dims, idx)
    {
      IndexIsLogical(t, idx);
    }
  }

  /**
   `reshape` keeps the values of a layout, over every buffer of the given length, exactly when the layout is
   packed from offset 0 or has no elements. A transposed matrix and a slice that starts later are neither.
   */
  lemma ReshapeKeepsValuesIffPacked(t: Tensor, dims: seq<nat>)
    requires InBounds(t) && Reshape(t, dims).Ok?
    ensures (forall data: seq<real> :: |data| == |t.data| ==> ReshapeKeepsValues(t, data, dims))
            <==> NumElements(t.dims) == 0 || (t.offset == 0 && Packed(t.dims, t.strides))
  {
    var packed := NumElements(t.dims) == 0 || (t.offset == 0 && Packed(t.dims, t.strides));
    if packed {
      forall data: seq<real> | |data| == |t.data|
        ensures ReshapeKeepsValues(t, data, dims)
      {
        var u := t.(data := data);
        assert InBounds(u);
        PackedKeepsValues(u, dims);
      }
    } else {
      var data := Positions(|t.data|);
      var u := t.(data := data);
      if ReshapeKeepsValues(t, data, dims) {
        assert ReshapeKeepsValues(u, u.data, dims);
        KeptMeansPosition(u, dims);
        OnlyPacked(t.dims, t.strides, t.offset);
      }
      assert !ReshapeKeepsValues(t, data, dims);
    }
  }

  // ---------------------------------------------------------------- reads that ignore the layout

  /** What the copying arms of `slice_multi` read for an element; None: past the buffer, where the read panics. */
  function RawAt(t: Tensor, i: nat, j: nat): Option<real>
    requires |t.dims| == 2
  {
    if i * t.dims[1] + j < |t.data| then Some(t.data[i * t.dims[1] + j]) else None
  }

  /** Over this buffer every such read of a valid index gives the element. */
  ghost predicate RawReads(layout: Tensor, data: seq<real>)
    requires |layout.dims| == 2
  {
    var t := layout.(data := data);
    InBounds(t) && forall idx :: ValidIndex(t.dims, idx) ==> RawAt(t, idx[0], idx[1]) == Some(At(t, idx))
  }

  lemma TwoRavel(dims: seq<nat>, idx: seq<nat>)
    requires |dims| == 2 && |idx| == 2
    ensures Ravel(dims, idx) == idx[0] * dims[1] + idx[1]
  {
    VectorSize(dims[1]);
    assert dims[1..] == [dims[1]] && idx[1..] == [idx[1]] && [dims[1]][1..] == [] && [idx[1]][1..] == [];
    assert NumElements([]) == 1 && Ravel([], []) == 0;
    assert Ravel([dims[1]], [idx[1]]) == idx[1];
  }

  lemma PackedReadsRaw(t: Tensor, idx: seq<nat>)
    requires InBounds(t) && |t.dims| == 2 && ValidIndex(t.dims, idx) && t.offset == 0 && Packed(t.dims, t.strides)
    ensures RawAt(t, idx[0], idx[1]) == Some(At(t, idx))
  {
    PackedAddress(t.dims, t.strides, idx);
    TwoRavel(t.dims, idx);
  }

  lemma {:induction false} NothingIsValid(dims: seq<nat>, idx: seq<nat>)
    requires NumElements(dims) == 0
    ensures !ValidIndex(dims, idx)
  {
    if ValidIndex(dims, idx) {
      RavelInverts(dims, idx);
    }
  }

  lemma RawMeansPosition(t: Tensor)
    requires |t.dims| == 2 && t.data == Positions(|t.data|) && RawReads(t, t.data)
    ensures AddressIsPosition(t.dims, t.strides, t.offset)
  {
    forall idx | ValidIndex(t.dims, idx)
      ensures t.offset + Dot(idx, t.strides) == Ravel(t.dims, idx)
    {
      TwoRavel(t.dims, idx);
      assert RawAt(t, idx[0], idx[1]) == Some(At(t, idx));
    }
  }

  /** They give the elements, over every buffer of the given length, exactly when the matrix is packed from offset 0 or empty. */
  lemma RawReadsIffPacked(t: Tensor)
    requires InBounds(t) && |t.dims| == 2
    ensures (forall data: seq<real> :: |data| == |t.data| ==> RawReads(t, data))
            <==> NumElements(t.dims) == 0 || (t.offset == 0 && Packed(t.dims, t.strides))
  {
    if NumElements(t.dims) == 0 || (t.offset == 0 && Packed(t.dims, t.strides)) {
      forall data: seq<real> | |data| == |t.data|
        ensures RawReads(t, data)
      {
        PackedReadsAll(t.(data := data));
      }
    } else {
      var u := t.(data := Positions(|t.data|));
      if RawReads(t, u.data) {
        RawMeansPosition(u);
        OnlyPacked(t.dims, t.strides, t.offset);
      }
      assert !RawReads(t, u.data);
    }
  }

  lemma PackedReadsAll(t: Tensor)
    requires InBounds(t) && |t.dims| == 2 && (NumElements(t.dims) == 0 || (t.offset == 0 && Packed(t.dims, t.strides)))
    ensures RawReads(t, t.data)
  {
    forall idx | ValidIndex(t.dims, idx)
      ensures RawAt(t, idx[0], idx[1]) == Some(At(t, idx))
    {
      if NumElements(t.dims) == 0 {
        NothingIsValid(t.dims, idx);
      } else {
        PackedReadsRaw(t, idx);
      }
    }
  }

  /** A column past the end of a row is not refused: the read runs on into the next row. */
  lemma RawRunsOn(t: Tensor, i: nat, j: nat)
    requires |t.dims| == 2
    ensures RawAt(t, i, t.dims[1] + j) == RawAt(t, i + 1, j)
  {
    assert (i + 1) * t.dims[1] == i * t.dims[1] + t.dims[1];
  }

  lemma SquareLayout(data: seq<real>)
    requires |data| == 4
    ensures NewTensor([2, 2], data) == Ok(Tensor([2, 2], data, [2, 1], 0))
    ensures InBounds(Tensor([2, 2], data, [2, 1], 0))
  {
    RankTwoSize([2, 2]);
    VectorSize(2);
    assert [2, 2][1..] == [2] && [2][1..] == [];
    assert DefaultStrides([2]) == [1];
    assert DefaultStrides([2, 2]) == [2, 1];
    NewTensorIsInBounds([2, 2], data);
  }

  /** Reshaping the transpose of [[1, 2], [3, 4]] undoes the transpose. */
  lemma ReshapeOfTransposeExample()
    ensures var t := Tensor([2, 2], [1.0, 2.0, 3.0, 4.0], [2, 1], 0);
            NewTensor(t.dims, t.data) == Ok(t) && Reshape(Transpose(t).value, [2, 2]) == Ok(t) &&
            InBounds(t) && InBounds(Transpose(t).value) &&
            At(Transpose(t).value, [0, 1]) == 3.0 && At(t, [0, 1]) == 2.0
  {
    var t := Tensor([2, 2], [1.0, 2.0, 3.0, 4.0], [2, 1], 0);
    SquareLayout(t.data);
    TransposeReads(t);
    RankTwoIndex(t, 0, 1);
    RankTwoIndex(t, 1, 0);
    assert Transpose(t).value.dims == [2, 2];
    assert Reshape(Transpose(t).value, [2, 2]) == FromShared([2, 2], t.data);
    assert ValidIndex(Transpose(t).value.dims, [0, 1]) && [[0, 1][1], [0, 1][0]] == [1, 0];
    assert At(Transpose(t).value, [0, 1]) == At(t, [1, 0]);
  }

  lemma VectorSlice(data: seq<real>, start: nat, end: nat)
    requires start < end <= |data|
    ensures NewTensor([|data|], data) == Ok(Tensor([|data|], data, [1], 0))
    ensures Slice(Tensor([|data|], data, [1], 0), 0, start, end) == Ok(Tensor([end - start], data, [1], start))
    ensures InBounds(Tensor([end - start], data, [1], start))
  {
    VectorSize(|data|);
    assert [|data|][1..] == [] && DefaultStrides([|data|]) == [1];
    NewTensorIsInBounds([|data|], data);
    SliceReads(Tensor([|data|], data, [1], 0), 0, start, end);
    assert [|data|][0 := end - start] == [end - start];
  }

  /** A slice of a vector shows its own stretch; reshaped, it shows as many values from the front. */
  lemma ReshapeOfVectorSlice(data: seq<real>, start: nat, end: nat, dims: seq<nat>)
    requires start < end <= |data| && NumElements(dims) == end - start
    ensures var v := Tensor([end - start], data, [1], start);
            && InBounds(v) && Logical(v) == data[start..end]
            && Reshape(v, dims).Ok? && InBounds(Reshape(v, dims).value)
            && Logical(Reshape(v, dims).value) == data[..end - start]
  {
    VectorSlice(data, start, end);
    VectorSize(end - start);
    var v := Tensor([end - start], data, [1], start);
    forall k | 0 <= k < end - start
      ensures Element(v, k) == data[start..end][k]
    {
      RankOne(v, k);
    }
    ReshapeReadsBuffer(v, dims);
  }

  /** Elements 1 and 2 of a 3-vector, reshaped to a column, become elements 0 and 1. */
  lemma ReshapeOfSliceExample(data: seq<real>)
    requires data == [5.0, 6.0, 7.0]
    ensures var v := Tensor([2], data, [1], 1);
            && InBounds(v) && Logical(v) == [6.0, 7.0]
            && Reshape(v, [2, 1]).Ok? && InBounds(Reshape(v, [2, 1]).value)
            && Logical(Reshape(v, [2, 1]).value) == [5.0, 6.0]
  {
    RankTwoSize([2, 1]);
    ReshapeOfVectorSlice(data, 1, 3, [2, 1]);
    assert data[1..3] == [6.0, 7.0] && data[..2] == [5.0, 6.0];
  }
}
