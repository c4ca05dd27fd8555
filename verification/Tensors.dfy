/**
 Strided tensors of `src/core/tensor.rs`, a shared buffer of reals read through dimensions, strides and an
 offset: every traversal gives the logical values in row-major order.
 */
module Tensors {
  import opened Common

  datatype Tensor = Tensor(dims: seq<nat>, data: seq<real>, strides: seq<nat>, offset: nat)

  function NumElements(dims: seq<nat>): nat {
    if dims == [] then 1 else dims[0] * NumElements(dims[1..])
  }

  /** Row-major strides: each dimension steps over one block of those after it. */
  function DefaultStrides(dims: seq<nat>): (s: seq<nat>)
    ensures |s| == |dims|
  {
    if dims == [] then [] else [NumElements(dims[1..])] + DefaultStrides(dims[1..])
  }

  /** `Tensor::new`: the data must have one value per element. */
  function NewTensor(dims: seq<nat>, data: seq<real>): Result<Tensor> {
    if |data| != NumElements(dims) then Err("data length does not match shape")
    else Ok(Tensor(dims, data, DefaultStrides(dims), 0))
  }

  /** `Tensor::from_shared`: a shared buffer, which may be longer than the shape needs, read from its start. */
  function FromShared(dims: seq<nat>, data: seq<real>): Result<Tensor> {
    if |data| < NumElements(dims) then Err("data length is too small for shape")
    else Ok(Tensor(dims, data, DefaultStrides(dims), 0))
  }

  // ---------------------------------------------------------------- indices

  ghost predicate ValidIndex(dims: seq<nat>, idx: seq<nat>) {
    |idx| == |dims| && forall d :: 0 <= d < |dims| ==> idx[d] < dims[d]
  }

  function Dot(idx: seq<nat>, strides: seq<nat>): nat
    requires |idx| == |strides|
  {
    if idx == [] then 0 else idx[0] * strides[0] + Dot(idx[1..], strides[1..])
  }

  /** The multi-index of the `k`-th element in row-major order. */
  function Unravel(dims: seq<nat>, k: nat): (idx: seq<nat>)
    requires k < NumElements(dims)
    ensures |idx| == |dims|
  {
    if dims == [] then []
    else
      var block := NumElements(dims[1..]);
      BlockPositive(dims[0], block, k);
      [k / block] + Unravel(dims[1..], k % block)
  }

  lemma BlockPositive(d: nat, block: nat, k: nat)
    requires k < d * block
    ensures block > 0 && k % block < block && k / block < d
  {
    assert block == 0 ==> d * block == 0;
    assert k == (k / block) * block + k % block;
    if k / block >= d {
      MulMonotone(d, k / block, block);
    }
  }

  lemma MulMonotone(a: nat, b: nat, c: nat)
    requires a <= b
    ensures a * c <= b * c
  {
  }

  lemma {:induction false} UnravelIsValid(dims: seq<nat>, k: nat)
    requires k < NumElements(dims)
    ensures ValidIndex(dims, Unravel(dims, k))
  {
    if dims != [] {
      var block := NumElements(dims[1..]);
      BlockPositive(dims[0], block, k);
      UnravelIsValid(dims[1..], k % block);
    }
  }

  /** The position of a multi-index in row-major order. */
  function Ravel(dims: seq<nat>, idx: seq<nat>): nat
    requires |idx| == |dims|
  {
    if dims == [] then 0 else idx[0] * NumElements(dims[1..]) + Ravel(dims[1..], idx[1..])
  }

  lemma DivModOfBlock(q: nat, block: nat, r: nat)
    requires r < block
    ensures (q * block + r) / block == q && (q * block + r) % block == r
  {
    var k := q * block + r;
    assert k == (k / block) * block + k % block;
    if k / block < q {
      MulMonotone(k / block + 1, q, block);
    } else if k / block > q {
      MulMonotone(q + 1, k / block, block);
    }
  }

  lemma BlockAndRest(d: nat, q: nat, block: nat, r: nat)
    requires q < d && r < block
    ensures q * block + r < d * block && (q * block + r) / block == q && (q * block + r) % block == r
  {
    DivModOfBlock(q, block, r);
    MulMonotone(q + 1, d, block);
  }

  lemma DivMod(k: nat, block: nat)
    requires block > 0
    ensures k == (k / block) * block + k % block
  {
  }

  lemma {:induction false} RavelInverts(dims: seq<nat>, idx: seq<nat>)
    requires ValidIndex(dims, idx)
    ensures Ravel(dims, idx) < NumElements(dims) && Unravel(dims, Ravel(dims, idx)) == idx
  {
    if dims != [] {
      var block, r := NumElements(dims[1..]), Ravel(dims[1..], idx[1..]);
      RavelInverts(dims[1..], idx[1..]);
      BlockAndRest(dims[0], idx[0], block, r);
      assert [idx[0]] + idx[1..] == idx;
    }
  }

  lemma {:induction false} UnravelInverts(dims: seq<nat>, k: nat)
    requires k < NumElements(dims)
    ensures Ravel(dims, Unravel(dims, k)) == k
  {
    if dims != [] {
      var block := NumElements(dims[1..]);
      BlockPositive(dims[0], block, k);
      UnravelInverts(dims[1..], k % block);
      DivMod(k, block);
      assert Unravel(dims, k)[1..] == Unravel(dims[1..], k % block);
    }
  }

  /** Earlier elements have lexicographically smaller indices: the last index varies fastest. */
  lemma {:induction false} UnravelIsLexicographic(dims: seq<nat>, j: nat, k: nat) returns (d: nat)
    requires j < k < NumElements(dims)
    ensures d < |dims| && Unravel(dims, j)[..d] == Unravel(dims, k)[..d] && Unravel(dims, j)[d] < Unravel(dims, k)[d]
  {
    var block := NumElements(dims[1..]);
    BlockPositive(dims[0], block, j);
    BlockPositive(dims[0], block, k);
    DivMod(j, block);
    DivMod(k, block);
    if j / block < k / block {
      d := 0;
    } else {
      MulMonotone(k / block, j / block, block);
      SameBlock(j, k, block);
      d := UnravelIsLexicographic(dims[1..], j % block, k % block);
      PrefixOfCons(j / block, Unravel(dims[1..], j % block), Unravel(dims[1..], k % block), d);
      d := d + 1;
    }
  }

  lemma SameBlock(j: nat, k: nat, block: nat)
    requires block > 0 && j < k && j / block >= k / block
    ensures j / block == k / block && j % block < k % block
  {
    DivMod(j, block);
    DivMod(k, block);
    if j / block > k / block {
      MulMonotone(k / block + 1, j / block, block);
    }
  }

  lemma PrefixOfCons(head: nat, a: seq<nat>, b: seq<nat>, d: nat)
    requires d <= |a| && d <= |b| && a[..d] == b[..d]
    ensures ([head] + a)[..d + 1] == ([head] + b)[..d + 1]
  {
    assert ([head] + a)[..d + 1] == [head] + a[..d];
    assert ([head] + b)[..d + 1] == [head] + b[..d];
  }

  // ---------------------------------------------------------------- meaning

  /** Every element lies in the buffer. `from_shared_strided` does not check this. */
  ghost predicate InBounds(t: Tensor) {
    |t.strides| == |t.dims| &&
    forall idx :: ValidIndex(t.dims, idx) ==> t.offset + Dot(idx, t.strides) < |t.data|
  }

  function At(t: Tensor, idx: seq<nat>): real
    requires InBounds(t) && ValidIndex(t.dims, idx)
  {
    t.data[t.offset + Dot(idx, t.strides)]
  }

  function Element(t: Tensor, k: nat): real
    requires InBounds(t) && k < NumElements(t.dims)
  {
    UnravelIsValid(t.dims, k);
    At(t, Unravel(t.dims, k))
  }

  /** The logical values, in row-major order. */
  function Logical(t: Tensor): (r: seq<real>)
    requires InBounds(t)
    ensures |r| == NumElements(t.dims)
    ensures forall k :: 0 <= k < |r| ==> r[k] == Element(t, k)
  {
    seq(NumElements(t.dims), k requires 0 <= k < NumElements(t.dims) => Element(t, k))
  }

  /** With default strides the address of an element is its position. */
  lemma {:induction false} DefaultAddress(dims: seq<nat>, idx: seq<nat>)
    requires |idx| == |dims|
    ensures Dot(idx, DefaultStrides(dims)) == Ravel(dims, idx)
  {
    if dims != [] {
      DefaultAddress(dims[1..], idx[1..]);
    }
  }

  lemma FromSharedIsInBounds(dims: seq<nat>, data: seq<real>)
    requires NumElements(dims) <= |data|
    ensures InBounds(FromShared(dims, data).value) && Logical(FromShared(dims, data).value) == data[..NumElements(dims)]
  {
    var t := FromShared(dims, data).value;
    forall idx | ValidIndex(dims, idx)
      ensures Dot(idx, t.strides) < |data|
    {
      DefaultAddress(dims, idx);
      RavelInverts(dims, idx);
    }
    ContiguousIsPrefix(t);
  }

  lemma NewTensorIsInBounds(dims: seq<nat>, data: seq<real>)
    requires |data| == NumElements(dims)
    ensures InBounds(NewTensor(dims, data).value) && Logical(NewTensor(dims, data).value) == data
  {
    FromSharedIsInBounds(dims, data);
    assert data[..|data|] == data;
  }

  /** Default strides, offset 0: the logical values are the start of the buffer. */
  ghost predicate Contiguous(t: Tensor) {
    t.offset == 0 && t.strides == DefaultStrides(t.dims)
  }

  lemma ContiguousElement(t: Tensor, k: nat)
    requires InBounds(t) && Contiguous(t) && k < NumElements(t.dims)
    ensures k < |t.data| && Element(t, k) == t.data[k]
  {
    UnravelIsValid(t.dims, k);
    DefaultAddress(t.dims, Unravel(t.dims, k));
    UnravelInverts(t.dims, k);
  }

  lemma ContiguousIsPrefix(t: Tensor)
    requires InBounds(t) && Contiguous(t)
    ensures NumElements(t.dims) <= |t.data| && Logical(t) == t.data[..NumElements(t.dims)]
  {
    var n := NumElements(t.dims);
    if n > 0 {
      ContiguousElement(t, n - 1);
    }
    forall k | 0 <= k < n
      ensures Element(t, k) == t.data[k]
    {
      ContiguousElement(t, k);
    }
  }

  // ---------------------------------------------------------------- the odometer

  /** One step of the odometer on the indices, and whether it wrapped round. */
  function Advance(dims: seq<nat>, idx: seq<nat>): (r: (seq<nat>, bool))
    requires |idx| == |dims|
    ensures |r.0| == |dims|
  {
    if dims == [] then ([], true)
    else
      var (rest, carry) := Advance(dims[1..], idx[1..]);
      if !carry then ([idx[0]] + rest, false)
      else if idx[0] + 1 < dims[0] then ([idx[0] + 1] + rest, false)
      else ([0] + rest, true)
  }

  lemma {:induction false} AdvanceIsValid(dims: seq<nat>, idx: seq<nat>)
    requires ValidIndex(dims, idx)
    ensures ValidIndex(dims, Advance(dims, idx).0)
  {
    if dims != [] {
      AdvanceIsValid(dims[1..], idx[1..]);
    }
  }

  /** Advancing the index of element `k` gives that of element `k + 1`, and wraps exactly at the last one. */
  lemma {:induction false} AdvanceIsNext(dims: seq<nat>, k: nat)
    requires k < NumElements(dims)
    ensures Advance(dims, Unravel(dims, k)).1 <==> k + 1 == NumElements(dims)
    ensures k + 1 < NumElements(dims) ==> Advance(dims, Unravel(dims, k)).0 == Unravel(dims, k + 1)
    ensures k + 1 == NumElements(dims) ==> Advance(dims, Unravel(dims, k)).0 == Unravel(dims, 0)
  {
    if dims != [] {
      var block := NumElements(dims[1..]);
      BlockPositive(dims[0], block, k);
      var q, r := k / block, k % block;
      assert k == q * block + r;
      AdvanceIsNext(dims[1..], r);
      assert Unravel(dims, k)[1..] == Unravel(dims[1..], r);
      NextInBlock(dims[0], block, q, r);
    }
  }

  /** Counting on inside a block of `block`, or into the next one. */
  lemma NextInBlock(d: nat, block: nat, q: nat, r: nat)
    requires r < block && q < d
    ensures r + 1 < block ==> (q * block + r + 1) / block == q && (q * block + r + 1) % block == r + 1 && q * block + r + 1 < d * block
    ensures r + 1 == block ==> (q * block + r + 1) / block == q + 1 && (q * block + r + 1) % block == 0
    ensures r + 1 == block ==> (q * block + r + 1 == d * block <==> q + 1 == d) && q * block + r + 1 <= d * block
    ensures 0 / block == 0 && 0 % block == 0
  {
    MulMonotone(q + 1, d, block);
    if r + 1 < block {
      DivModOfBlock(q, block, r + 1);
    } else {
      DivModOfBlock(q + 1, block, 0);
      if q + 1 < d {
        MulMonotone(q + 2, d, block);
      }
    }
    DivModOfBlock(0, block, 0);
  }

  lemma TailStep<T>(s: seq<T>, j: nat)
    requires j < |s|
    ensures s[j..] == [s[j]] + s[j + 1..] && s[j..][1..] == s[j + 1..]
  {
  }

  lemma AdvanceStep(dims: seq<nat>, idx: seq<nat>, j: nat)
    requires j < |dims| == |idx|
    ensures var (rest, carry) := Advance(dims[j + 1..], idx[j + 1..]);
            Advance(dims[j..], idx[j..]) ==
            if !carry then ([idx[j]] + rest, false)
            else if idx[j] + 1 < dims[j] then ([idx[j] + 1] + rest, false)
            else ([0] + rest, true)
  {
    TailStep(dims, j);
    TailStep(idx, j);
  }

  /** Changing one index moves the address by that dimension's stride. */
  lemma {:induction false} DotUpdate(idx: seq<nat>, strides: seq<nat>, j: nat, x: nat)
    requires j < |idx| == |strides|
    ensures idx[j] * strides[j] <= Dot(idx, strides)
    ensures Dot(idx[j := x], strides) == Dot(idx, strides) - idx[j] * strides[j] + x * strides[j]
    decreases j
  {
    if j == 0 {
      assert idx[j := x][1..] == idx[1..];
    } else {
      DotUpdate(idx[1..], strides[1..], j - 1, x);
      assert idx[j := x][1..] == idx[1..][j - 1 := x];
    }
  }

  /** Once a dimension takes the step without wrapping, those before it keep their indices. */
  lemma {:induction false} AdvanceStops(dims: seq<nat>, idx: seq<nat>, j: nat)
    requires j <= |dims| == |idx| && !Advance(dims[j..], idx[j..]).1
    ensures Advance(dims, idx) == (idx[..j] + Advance(dims[j..], idx[j..]).0, false)
    decreases j
  {
    var moved := Advance(dims[j..], idx[j..]).0;
    if j == 0 {
      assert idx[0..] == idx && dims[0..] == dims && idx[..0] + moved == moved;
    } else {
      assert idx[1..][j - 1..] == idx[j..] && dims[1..][j - 1..] == dims[j..];
      AdvanceStops(dims[1..], idx[1..], j - 1);
      assert [idx[0]] + (idx[1..][..j - 1] + moved) == idx[..j] + moved;
    }
  }

  /** `cur` is `was` after the dimensions from `j` on have wrapped. */
  ghost predicate Wrapped(dims: seq<nat>, was: seq<nat>, cur: seq<nat>, j: nat) {
    j <= |dims| == |was| == |cur| && cur[..j] == was[..j] && Advance(dims[j..], was[j..]) == (cur[j..], true)
  }

  /** A dimension that wraps once those after it have. */
  lemma WrapsToo(dims: seq<nat>, was: seq<nat>, cur: seq<nat>, j: nat)
    requires j < |dims| && Wrapped(dims, was, cur, j + 1) && cur[j] + 1 >= dims[j]
    ensures Wrapped(dims, was, cur[j := 0], j)
  {
    AdvanceStep(dims, was, j);
    assert cur[..j + 1][j] == was[..j + 1][j];
    assert cur[j := 0][j..] == [0] + cur[j + 1..];
    assert cur[j := 0][..j] == cur[..j + 1][..j] == was[..j + 1][..j] == was[..j];
  }

  /** A dimension that takes the step once those after it have wrapped. */
  lemma StopsHere(dims: seq<nat>, was: seq<nat>, cur: seq<nat>, j: nat)
    requires j < |dims| && Wrapped(dims, was, cur, j + 1) && cur[j] + 1 < dims[j]
    ensures Advance(dims, was) == (cur[j := cur[j] + 1], false)
  {
    AdvanceStep(dims, was, j);
    assert cur[..j + 1][j] == was[..j + 1][j];
    AdvanceStops(dims, was, j);
    assert cur[..j + 1][..j] == was[..j + 1][..j] == was[..j];
    assert was[..j] + ([cur[j] + 1] + cur[j + 1..]) == cur[j := cur[j] + 1];
  }

  lemma NoneWrapped(dims: seq<nat>, was: seq<nat>)
    requires |dims| == |was|
    ensures Wrapped(dims, was, was, |dims|)
  {
    assert dims[|dims|..] == [] && was[|was|..] == [];
  }

  lemma WrappedAll(dims: seq<nat>, was: seq<nat>, cur: seq<nat>)
    requires Wrapped(dims, was, cur, 0)
    ensures Advance(dims, was) == (cur, true)
  {
    assert dims[0..] == dims && was[0..] == was && cur[0..] == cur;
  }

  lemma MulNext(a: nat, b: nat)
    ensures (a + 1) * b == a * b + b
  {
  }

  lemma AddressOfNext(idx: seq<nat>, strides: seq<nat>, j: nat)
    requires j < |idx| == |strides|
    ensures Dot(idx[j := idx[j] + 1], strides) == Dot(idx, strides) + strides[j]
  {
    DotUpdate(idx, strides, j, idx[j] + 1);
    MulNext(idx[j], strides[j]);
  }

  lemma AddressOfWrap(idx: seq<nat>, strides: seq<nat>, j: nat, back: nat)
    requires j < |idx| == |strides| && back == idx[j] * strides[j]
    ensures back <= Dot(idx, strides) && Dot(idx[j := 0], strides) == Dot(idx, strides) - back
  {
    DotUpdate(idx, strides, j, 0);
  }

  /** The inner loop: indices advance in place from the last dimension, and the offset moves along. */
  method AdvanceInPlace(dims: seq<nat>, strides: seq<nat>, idx: array<nat>, offset: nat) returns (moved: nat)
    requires |dims| == |strides| == idx.Length
    requires Dot(idx[..], strides) <= offset
    modifies idx
    ensures idx[..] == Advance(dims, old(idx[..])).0
    ensures moved == offset - Dot(old(idx[..]), strides) + Dot(idx[..], strides)
  {
    ghost var was := idx[..];
    ghost var base := offset - Dot(was, strides);
    moved := offset;
    var j := |dims|;
    NoneWrapped(dims, was);
    while j > 0
      invariant 0 <= j <= |dims| && Wrapped(dims, was, idx[..], j)
      invariant moved == base + Dot(idx[..], strides)
    {
      j := j - 1;
      ghost var cur := idx[..];
      if idx[j] + 1 < dims[j] {
        StopsHere(dims, was, cur, j);
        AddressOfNext(cur, strides, j);
        idx[j] := idx[j] + 1;
        moved := moved + strides[j];
        assert idx[..] == cur[j := cur[j] + 1];
        return;
      }
      WrapsToo(dims, was, cur, j);
      var back := idx[j] * strides[j];
      AddressOfWrap(cur, strides, j, back);
      moved := moved - back;
      idx[j] := 0;
      assert idx[..] == cur[j := 0];
    }
    WrappedAll(dims, was, idx[..]);
  }

  // ---------------------------------------------------------------- the traversals

  /** `compute_default_strides`. */
  method ComputeDefaultStrides(dims: seq<nat>) returns (strides: array<nat>)
    ensures fresh(strides) && strides[..] == DefaultStrides(dims)
  {
    strides := new nat[|dims|](_ => 0);
    var stride := 1;
    var i := |dims|;
    while i > 0
      invariant 0 <= i <= |dims| && stride == NumElements(dims[i..])
      invariant strides[i..] == DefaultStrides(dims[i..])
    {
      ghost var done := strides[i..];
      i := i - 1;
      TailStep(dims, i);
      strides[i] := stride;
      stride := stride * dims[i];
      assert strides[i..] == [strides[i]] + done;
    }
    assert dims[0..] == dims;
  }

  /** `is_contiguous`: default strides from offset 0, checked without building them. */
  method IsContiguous(t: Tensor) returns (r: bool)
    requires |t.strides| == |t.dims|
    ensures r <==> Contiguous(t)
  {
    if t.offset != 0 {
      return false;
    }
    var expected := 1;
    var i := |t.dims|;
    while i > 0
      invariant 0 <= i <= |t.dims| && expected == NumElements(t.dims[i..])
      invariant t.strides[i..] == DefaultStrides(t.dims[i..])
    {
      i := i - 1;
      TailStep(t.dims, i);
      TailStep(t.strides, i);
      if t.strides[i] != expected {
        DefaultStridesAt(t.dims, i);
        return false;
      }
      expected := expected * t.dims[i];
    }
    assert t.dims[0..] == t.dims && t.strides[0..] == t.strides;
    return true;
  }

  lemma {:induction false} DefaultStridesAt(dims: seq<nat>, i: nat)
    requires i < |dims|
    ensures DefaultStrides(dims)[i] == NumElements(dims[i + 1..])
  {
    if i > 0 {
      DefaultStridesAt(dims[1..], i - 1);
      assert dims[1..][i..] == dims[i + 1..];
    }
  }

  /** `as_contiguous_slice`. */
  method AsContiguousSlice(t: Tensor) returns (r: Option<seq<real>>)
    requires InBounds(t)
    ensures r.Some? <==> Contiguous(t)
    ensures r.Some? ==> r.value == Logical(t)
  {
    var contiguous := IsContiguous(t);
    if contiguous {
      ContiguousIsPrefix(t);
      if |t.data| >= NumElements(t.dims) {
        return Some(t.data[..NumElements(t.dims)]);
      }
    }
    return None;
  }

  lemma RankOne(t: Tensor, k: nat)
    requires InBounds(t) && |t.dims| == 1 && k < t.dims[0]
    ensures NumElements(t.dims) == t.dims[0]
    ensures t.offset + k * t.strides[0] < |t.data| && Element(t, k) == t.data[t.offset + k * t.strides[0]]
  {
    assert t.dims[1..] == [] && t.strides[1..] == [];
    var idx := [k];
    assert ValidIndex(t.dims, idx) && idx[1..] == [];
    assert Dot(idx, t.strides) == k * t.strides[0] + Dot([], []);
    assert Ravel(t.dims, idx) == k by {
      assert NumElements([]) == 1 && Ravel([], []) == 0;
    }
    RavelInverts(t.dims, idx);
  }

  lemma RankTwoIndex(t: Tensor, i: nat, j: nat)
    requires InBounds(t) && |t.dims| == 2 && i < t.dims[0] && j < t.dims[1]
    ensures ValidIndex(t.dims, [i, j])
    ensures t.offset + i * t.strides[0] + j * t.strides[1] < |t.data|
    ensures At(t, [i, j]) == t.data[t.offset + i * t.strides[0] + j * t.strides[1]]
  {
    var idx := [i, j];
    assert idx[1..] == [j] && [j][1..] == [] && t.strides[1..][1..] == [];
    assert Dot([j], t.strides[1..]) == j * t.strides[1] + Dot([], []);
    assert ValidIndex(t.dims, idx);
  }

  lemma RankTwoSize(dims: seq<nat>)
    requires |dims| == 2
    ensures NumElements(dims) == dims[0] * dims[1]
  {
    assert dims[1..][1..] == [] && NumElements(dims[1..]) == dims[1] * NumElements([]);
  }

  lemma RankTwo(t: Tensor, i: nat, j: nat)
    requires InBounds(t) && |t.dims| == 2 && i < t.dims[0] && j < t.dims[1]
    ensures i * t.dims[1] + j < NumElements(t.dims)
    ensures t.offset + i * t.strides[0] + j * t.strides[1] < |t.data|
    ensures Element(t, i * t.dims[1] + j) == t.data[t.offset + i * t.strides[0] + j * t.strides[1]]
  {
    var idx := [i, j];
    RankTwoIndex(t, i, j);
    assert idx[1..] == [j] && [j][1..] == [] && t.dims[1..][1..] == [];
    assert NumElements(t.dims[1..]) == t.dims[1] * NumElements([]);
    assert Ravel(t.dims[1..], [j]) == j * NumElements([]) + Ravel([], []);
    RavelInverts(t.dims, idx);
  }

  lemma OneMore(t: Tensor, k: nat)
    requires InBounds(t) && k < NumElements(t.dims)
    ensures Logical(t)[..k + 1] == Logical(t)[..k] + [Element(t, k)]
  {
  }

  method VectorValues(t: Tensor) returns (values: seq<real>)
    requires InBounds(t) && |t.dims| == 1
    ensures values == Logical(t)
  {
    values := [];
    assert NumElements(t.dims) == t.dims[0] by {
      assert t.dims[1..] == [];
    }
    for i := 0 to t.dims[0]
      invariant values == Logical(t)[..i]
    {
      RankOne(t, i);
      OneMore(t, i);
      values := values + [t.data[t.offset + i * t.strides[0]]];
    }
  }

  /** Position of the first element of row `i`, as the loops reach it. */
  function RowStart(cols: nat, i: nat): nat {
    if i == 0 then 0 else RowStart(cols, i - 1) + cols
  }

  lemma {:induction false} RowStartIsProduct(cols: nat, i: nat)
    ensures RowStart(cols, i) == i * cols
  {
    if i > 0 {
      RowStartIsProduct(cols, i - 1);
      MulNext(i - 1, cols);
    }
  }

  lemma RowFits(dims: seq<nat>, i: nat)
    requires |dims| == 2 && i < dims[0]
    ensures RowStart(dims[1], i + 1) == RowStart(dims[1], i) + dims[1] <= NumElements(dims)
  {
    RankTwoSize(dims);
    RowStartIsProduct(dims[1], i + 1);
    MulMonotone(i + 1, dims[0], dims[1]);
  }

  lemma RowsEnd(dims: seq<nat>)
    requires |dims| == 2
    ensures RowStart(dims[1], dims[0]) == NumElements(dims)
  {
    RankTwoSize(dims);
    RowStartIsProduct(dims[1], dims[0]);
  }

  lemma AppendRange<T>(s: seq<T>, from: nat, to: nat)
    requires from <= to <= |s|
    ensures s[..from] + s[from..to] == s[..to]
  {
  }

  lemma RowElement(t: Tensor, i: nat, j: nat, from: nat, rowBase: nat, step: nat)
    requires InBounds(t) && |t.dims| == 2 && i < t.dims[0] && j < t.dims[1]
    requires from == i * t.dims[1] && rowBase == t.offset + i * t.strides[0] && step == t.strides[1]
    ensures from + j < NumElements(t.dims) && rowBase + j * step < |t.data|
    ensures Element(t, from + j) == t.data[rowBase + j * step]
  {
    RankTwo(t, i, j);
  }

  /** `row` is read from `base` on, `step` places at a time. */
  ghost predicate Strided(data: seq<real>, base: nat, step: nat, row: seq<real>) {
    forall j :: 0 <= j < |row| ==> base + j * step < |data| && row[j] == data[base + j * step]
  }

  lemma RowIsStrided(t: Tensor, i: nat, from: nat, rowBase: nat)
    requires InBounds(t) && |t.dims| == 2 && i < t.dims[0]
    requires from == RowStart(t.dims[1], i) && from + t.dims[1] <= NumElements(t.dims) && rowBase == t.offset + i * t.strides[0]
    ensures Strided(t.data, rowBase, t.strides[1], Logical(t)[from..from + t.dims[1]])
  {
    RowStartIsProduct(t.dims[1], i);
    StridedFrom(t, i, from, rowBase);
  }

  lemma StridedFrom(t: Tensor, i: nat, from: nat, rowBase: nat)
    requires InBounds(t) && |t.dims| == 2 && i < t.dims[0]
    requires from == i * t.dims[1] && from + t.dims[1] <= NumElements(t.dims) && rowBase == t.offset + i * t.strides[0]
    ensures Strided(t.data, rowBase, t.strides[1], Logical(t)[from..from + t.dims[1]])
  {
    var row, step := Logical(t)[from..from + t.dims[1]], t.strides[1];
    forall j | 0 <= j < t.dims[1]
      ensures rowBase + j * step < |t.data| && row[j] == t.data[rowBase + j * step]
    {
      RowElement(t, i, j, from, rowBase, step);
      assert row[j] == Logical(t)[from + j] == Element(t, from + j);
    }
  }

  /** The inner loop of the rank-2 traversal: one row from its first address on. */
  method RowValues(t: Tensor, i: nat, ghost from: nat) returns (values: seq<real>)
    requires InBounds(t) && |t.dims| == 2 && i < t.dims[0]
    requires from == RowStart(t.dims[1], i) && from + t.dims[1] <= NumElements(t.dims)
    ensures values == Logical(t)[from..from + t.dims[1]]
  {
    var rowBase := t.offset + i * t.strides[0];
    RowIsStrided(t, i, from, rowBase);
    values := Gather(t.data, rowBase, t.strides[1], t.dims[1], Logical(t)[from..from + t.dims[1]]);
  }

  method Gather(data: seq<real>, base: nat, step: nat, n: nat, ghost row: seq<real>) returns (values: seq<real>)
    requires |row| == n && Strided(data, base, step, row)
    ensures values == row
  {
    values := [];
    for j := 0 to n
      invariant values == row[..j]
    {
      assert base + j * step < |data| && row[j] == data[base + j * step];
      values := values + [data[base + j * step]];
    }
  }

  method MatrixValues(t: Tensor) returns (values: seq<real>)
    requires InBounds(t) && |t.dims| == 2
    ensures values == Logical(t)
  {
    values := [];
    ghost var from := 0;
    for i := 0 to t.dims[0]
      invariant from == RowStart(t.dims[1], i) && from <= NumElements(t.dims) && values == Logical(t)[..from]
    {
      RowFits(t.dims, i);
      var row := RowValues(t, i, from);
      AppendRange(Logical(t), from, from + t.dims[1]);
      values := values + row;
      from := from + t.dims[1];
    }
    RowsEnd(t.dims);
  }

  /** The rank-specific strided traversals: one loop, two nested loops, or the odometer. */
  method StridedValues(t: Tensor) returns (values: seq<real>)
    requires InBounds(t)
    ensures values == Logical(t)
  {
    if |t.dims| == 1 {
      values := VectorValues(t);
    } else if |t.dims| == 2 {
      values := MatrixValues(t);
    } else {
      values := OdometerValues(t);
    }
  }

  function Zeros(n: nat): (z: seq<nat>)
    ensures |z| == n && forall k :: 0 <= k < n ==> z[k] == 0
  {
    if n == 0 then [] else [0] + Zeros(n - 1)
  }

  lemma {:induction false} ZeroIndex(dims: seq<nat>)
    requires NumElements(dims) > 0
    ensures Unravel(dims, 0) == Zeros(|dims|)
  {
    if dims != [] {
      var block := NumElements(dims[1..]);
      BlockPositive(dims[0], block, 0);
      DivModOfBlock(0, block, 0);
      ZeroIndex(dims[1..]);
    }
  }

  lemma {:induction false} DotZero(n: nat, strides: seq<nat>)
    requires |strides| == n
    ensures Dot(Zeros(n), strides) == 0
  {
    if n > 0 {
      DotZero(n - 1, strides[1..]);
      assert Zeros(n)[1..] == Zeros(n - 1);
    }
  }

  /** Element `k` of `x` is read at the address of the `k`-th multi-index. */
  ghost predicate Addressed(t: Tensor, x: seq<real>) {
    |t.strides| == |t.dims| && |x| == NumElements(t.dims) &&
    forall k :: 0 <= k < |x| ==> AddressedAt(t, x, k, Unravel(t.dims, k))
  }

  ghost predicate AddressedAt(t: Tensor, x: seq<real>, k: nat, idx: seq<nat>)
    requires |t.strides| == |idx| && k < |x|
  {
    t.offset + Dot(idx, t.strides) < |t.data| && t.data[t.offset + Dot(idx, t.strides)] == x[k]
  }

  lemma LogicalIsAddressed(t: Tensor)
    requires InBounds(t)
    ensures Addressed(t, Logical(t))
  {
    forall k | 0 <= k < NumElements(t.dims)
      ensures AddressedAt(t, Logical(t), k, Unravel(t.dims, k))
    {
      UnravelIsValid(t.dims, k);
    }
  }

  lemma OdometerStart(dims: seq<nat>, strides: seq<nat>)
    requires |strides| == |dims|
    ensures Dot(Zeros(|dims|), strides) == 0
    ensures NumElements(dims) > 0 ==> Unravel(dims, 0) == Zeros(|dims|)
  {
    DotZero(|dims|, strides);
    if NumElements(dims) > 0 {
      ZeroIndex(dims);
    }
  }

  /** The N-dimensional traversal that never recomputes an address from scratch. */
  method WalkOdometer(t: Tensor, ghost x: seq<real>) returns (values: seq<real>)
    requires Addressed(t, x)
    ensures values == x
  {
    values := [];
    var len := NumElements(t.dims);
    var indices := new nat[|t.dims|](_ => 0);
    var offset := t.offset;
    assert indices[..] == Zeros(|t.dims|);
    OdometerStart(t.dims, t.strides);
    for k := 0 to len
      invariant values == x[..k]
      invariant offset == t.offset + Dot(indices[..], t.strides)
      invariant k < len ==> indices[..] == Unravel(t.dims, k)
    {
      assert AddressedAt(t, x, k, indices[..]);
      values := values + [t.data[offset]];
      AdvanceIsNext(t.dims, k);
      offset := AdvanceInPlace(t.dims, t.strides, indices, offset);
    }
  }

  method OdometerValues(t: Tensor) returns (values: seq<real>)
    requires InBounds(t)
    ensures values == Logical(t)
  {
    LogicalIsAddressed(t);
    values := WalkOdometer(t, Logical(t));
  }

  /** `to_logical_vec`: every path gives the logical values. */
  method ToLogicalVec(t: Tensor) returns (values: seq<real>)
    requires InBounds(t)
    ensures values == Logical(t)
  {
    var slice := AsContiguousSlice(t);
    if slice.Some? {
      return slice.value;
    }
    if |t.dims| == 0 {
      UnravelIsValid(t.dims, 0);
      values := if t.data != [] then [t.data[t.offset]] else [];
      return;
    }
    values := StridedValues(t);
  }
}
