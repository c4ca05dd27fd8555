/**
 The built-in matrix product of `src/engine/kernels.rs` over arbitrary strided operands, with exact
 arithmetic. The guard around each term is kept, and never fails on tensors that stay in bounds.
 */
module Matmul {
  import opened Common
  import opened Tensors
  import opened Views

  // ---------------------------------------------------------------- sums of products

  type Line = int -> real

  /** The sum of the first `n` products. */
  function Inner(f: Line, g: Line, n: nat): real {
    if n == 0 then 0.0 else Inner(f, g, n - 1) + f(n - 1) * g(n - 1)
  }

  lemma {:induction false} InnerSame(f: Line, g: Line, u: Line, v: Line, n: nat)
    requires forall k :: 0 <= k < n ==> f(k) == u(k) && g(k) == v(k)
    ensures Inner(f, g, n) == Inner(u, v, n)
  {
    if n > 0 {
      InnerSame(f, g, u, v, n - 1);
    }
  }

  lemma {:induction false} InnerSwap(f: Line, g: Line, n: nat)
    ensures Inner(f, g, n) == Inner(g, f, n)
  {
    if n > 0 {
      InnerSwap(f, g, n - 1);
    }
  }

  // ---------------------------------------------------------------- matrices

  ghost predicate IsMatrix(t: Tensor) {
    InBounds(t) && |t.dims| == 2
  }

  function Entry(t: Tensor, i: nat, j: nat): real
    requires IsMatrix(t) && i < t.dims[0] && j < t.dims[1]
  {
    At(t, [i, j])
  }

  ghost function Row(t: Tensor, i: nat): Line
    requires IsMatrix(t) && i < t.dims[0]
  {
    k => if 0 <= k < t.dims[1] then Entry(t, i, k) else 0.0
  }

  ghost function Column(t: Tensor, j: nat): Line
    requires IsMatrix(t) && j < t.dims[1]
  {
    k => if 0 <= k < t.dims[0] then Entry(t, k, j) else 0.0
  }

  /** Row `i` of `a` against column `j` of `b`. */
  ghost function Cell(a: Tensor, b: Tensor, i: nat, j: nat): real
    requires IsMatrix(a) && IsMatrix(b) && i < a.dims[0] && j < b.dims[1]
  {
    Inner(Row(a, i), Column(b, j), a.dims[1])
  }

  ghost predicate Multiplicable(a: Tensor, b: Tensor) {
    IsMatrix(a) && IsMatrix(b) && a.dims[1] == b.dims[0]
  }

  ghost predicate IsProduct(c: Tensor, a: Tensor, b: Tensor) {
    Multiplicable(a, b) && IsMatrix(c) && c.dims == [a.dims[0], b.dims[1]] &&
    forall i, j :: 0 <= i < a.dims[0] && 0 <= j < b.dims[1] ==> Entry(c, i, j) == Cell(a, b, i, j)
  }

  // ---------------------------------------------------------------- the kernel

  /** `line` is read from `base` on, `step` places at a time. */
  ghost predicate Reads(data: seq<real>, base: nat, step: nat, n: nat, line: Line) {
    forall k :: 0 <= k < n ==> base + k * step < |data| && data[base + k * step] == line(k)
  }

  lemma RowReads(a: Tensor, i: nat)
    requires IsMatrix(a) && i < a.dims[0]
    ensures Reads(a.data, a.offset + i * a.strides[0], a.strides[1], a.dims[1], Row(a, i))
  {
    forall k | 0 <= k < a.dims[1]
      ensures a.offset + i * a.strides[0] + k * a.strides[1] < |a.data|
      ensures a.data[a.offset + i * a.strides[0] + k * a.strides[1]] == Row(a, i)(k)
    {
      RankTwoIndex(a, i, k);
    }
  }

  lemma ColumnReads(b: Tensor, j: nat)
    requires IsMatrix(b) && j < b.dims[1]
    ensures Reads(b.data, b.offset + j * b.strides[1], b.strides[0], b.dims[0], Column(b, j))
  {
    forall k | 0 <= k < b.dims[0]
      ensures b.offset + j * b.strides[1] + k * b.strides[0] < |b.data|
      ensures b.data[b.offset + j * b.strides[1] + k * b.strides[0]] == Column(b, j)(k)
    {
      RankTwoIndex(b, k, j);
    }
  }

  /** The inner loop: one entry of the product, with every term taken. */
  method RowByColumn(a: seq<real>, aRowBase: nat, aStep: nat, b: seq<real>, bColBase: nat, bStep: nat, n: nat,
                     ghost row: Line, ghost column: Line) returns (sum: real)
    requires Reads(a, aRowBase, aStep, n, row) && Reads(b, bColBase, bStep, n, column)
    ensures sum == Inner(row, column, n)
  {
    sum := 0.0;
    for k := 0 to n
      invariant sum == Inner(row, column, k)
    {
      var aIdx := aRowBase + k * aStep;
      var bIdx := bColBase + k * bStep;
      assert aIdx < |a| && a[aIdx] == row(k);
      assert bIdx < |b| && b[bIdx] == column(k);
      if aIdx < |a| && bIdx < |b| {
        sum := sum + a[aIdx] * b[bIdx];
      }
    }
  }

  function Spot(p: nat, x: nat, y: nat): nat {
    x * p + y
  }

  /** The first `i` rows, and the first `j` entries of row `i`, are in place. */
  ghost predicate Filled(a: Tensor, b: Tensor, data: seq<real>, i: nat, j: nat)
    requires Multiplicable(a, b)
  {
    |data| == a.dims[0] * b.dims[1] &&
    forall x, y :: 0 <= x < a.dims[0] && 0 <= y < b.dims[1] && (x < i || (x == i && y < j)) ==>
      Spot(b.dims[1], x, y) < |data| && data[Spot(b.dims[1], x, y)] == Cell(a, b, x, y)
  }

  lemma SpotFits(m: nat, p: nat, x: nat, y: nat)
    requires x < m && y < p
    ensures Spot(p, x, y) < m * p
  {
    BlockAndRest(m, x, p, y);
  }

  lemma SpotsDiffer(p: nat, x: nat, y: nat, i: nat, j: nat)
    requires y < p && j < p && (x != i || y != j)
    ensures Spot(p, x, y) != Spot(p, i, j)
  {
    DivModOfBlock(x, p, y);
    DivModOfBlock(i, p, j);
  }

  lemma FillOne(a: Tensor, b: Tensor, data: seq<real>, i: nat, j: nat)
    requires Multiplicable(a, b) && i < a.dims[0] && j < b.dims[1] && Filled(a, b, data, i, j)
    ensures Spot(b.dims[1], i, j) < |data|
    ensures Filled(a, b, data[Spot(b.dims[1], i, j) := Cell(a, b, i, j)], i, j + 1)
  {
    SpotFits(a.dims[0], b.dims[1], i, j);
    var after := data[Spot(b.dims[1], i, j) := Cell(a, b, i, j)];
    forall x, y | 0 <= x < a.dims[0] && 0 <= y < b.dims[1] && (x < i || (x == i && y < j + 1))
      ensures Spot(b.dims[1], x, y) < |after| && after[Spot(b.dims[1], x, y)] == Cell(a, b, x, y)
    {
      if x != i || y != j {
        SpotsDiffer(b.dims[1], x, y, i, j);
      }
    }
  }

  /** `matmul_data_builtin`. */
  method MatmulBuiltin(a: Tensor, b: Tensor) returns (data: array<real>)
    requires Multiplicable(a, b)
    ensures fresh(data) && Filled(a, b, data[..], a.dims[0], 0)
  {
    var m, p := a.dims[0], b.dims[1];
    data := new real[m * p](_ => 0.0);
    for i := 0 to m
      invariant Filled(a, b, data[..], i, 0)
    {
      var aRowBase := a.offset + i * a.strides[0];
      RowReads(a, i);
      for j := 0 to p
        invariant Filled(a, b, data[..], i, j)
      {
        var bColBase := b.offset + j * b.strides[1];
        ColumnReads(b, j);
        var sum := RowByColumn(a.data, aRowBase, a.strides[1], b.data, bColBase, b.strides[0], a.dims[1], Row(a, i), Column(b, j));
        ghost var before := data[..];
        FillOne(a, b, before, i, j);
        data[Spot(p, i, j)] := sum;
        assert data[..] == before[Spot(p, i, j) := sum];
      }
    }
  }

  /** `matmul`: the product of the logical matrices, whatever the layouts. */
  method Multiply(a: Tensor, b: Tensor) returns (r: Result<Tensor>)
    requires InBounds(a) && InBounds(b)
    ensures r.Ok? <==> Multiplicable(a, b)
    ensures r.Ok? ==> IsProduct(r.value, a, b)
  {
    if |a.dims| != 2 || |b.dims| != 2 {
      return Err("matmul expects a rank-2 tensor (matrix)");
    }
    if a.dims[1] != b.dims[0] {
      return Err("Matrix dimension mismatch in matmul");
    }
    var data := MatmulBuiltin(a, b);
    FilledIsProduct(a, b, data[..]);
    r := NewTensor([a.dims[0], b.dims[1]], data[..]);
  }

  lemma FilledAt(a: Tensor, b: Tensor, data: seq<real>, i: nat, j: nat)
    requires Multiplicable(a, b) && Filled(a, b, data, a.dims[0], 0) && i < a.dims[0] && j < b.dims[1]
    ensures Spot(b.dims[1], i, j) < |data| && data[Spot(b.dims[1], i, j)] == Cell(a, b, i, j)
  {
  }

  lemma FilledIsProduct(a: Tensor, b: Tensor, data: seq<real>)
    requires Multiplicable(a, b) && Filled(a, b, data, a.dims[0], 0)
    ensures NewTensor([a.dims[0], b.dims[1]], data).Ok?
    ensures IsProduct(NewTensor([a.dims[0], b.dims[1]], data).value, a, b)
  {
    var dims := [a.dims[0], b.dims[1]];
    RankTwoSize(dims);
    NewTensorIsInBounds(dims, data);
    var c := NewTensor(dims, data).value;
    forall i, j | 0 <= i < a.dims[0] && 0 <= j < b.dims[1]
      ensures Entry(c, i, j) == Cell(a, b, i, j)
    {
      EntryAtPosition(c, i, j, Spot(b.dims[1], i, j));
      FilledAt(a, b, data, i, j);
    }
  }

  lemma EntryIsLogical(t: Tensor, i: nat, j: nat)
    requires IsMatrix(t) && i < t.dims[0] && j < t.dims[1]
    ensures i * t.dims[1] + j < NumElements(t.dims) && Element(t, i * t.dims[1] + j) == Entry(t, i, j)
  {
    RankTwo(t, i, j);
    RankTwoIndex(t, i, j);
  }

  // ---------------------------------------------------------------- laws of the product

  ghost predicate SameEntries(s: Tensor, t: Tensor) {
    IsMatrix(s) && IsMatrix(t) && s.dims == t.dims &&
    forall i, j :: 0 <= i < s.dims[0] && 0 <= j < s.dims[1] ==> Entry(s, i, j) == Entry(t, i, j)
  }

  lemma SameEntriesSameValues(s: Tensor, t: Tensor)
    requires SameEntries(s, t)
    ensures Logical(s) == Logical(t)
  {
    forall k | 0 <= k < NumElements(s.dims)
      ensures Element(s, k) == Element(t, k)
    {
      UnravelIsValid(s.dims, k);
      var idx := Unravel(s.dims, k);
      assert idx == [idx[0], idx[1]];
      assert Entry(s, idx[0], idx[1]) == Entry(t, idx[0], idx[1]);
    }
  }

  lemma EntryAtPosition(t: Tensor, i: nat, j: nat, k: nat)
    requires IsMatrix(t) && i < t.dims[0] && j < t.dims[1] && k == i * t.dims[1] + j
    ensures k < |Logical(t)| && Logical(t)[k] == Entry(t, i, j)
  {
    EntryIsLogical(t, i, j);
  }

  lemma SameValuesSameEntries(s: Tensor, t: Tensor)
    requires IsMatrix(s) && IsMatrix(t) && s.dims == t.dims && Logical(s) == Logical(t)
    ensures SameEntries(s, t)
  {
    forall i, j | 0 <= i < s.dims[0] && 0 <= j < s.dims[1]
      ensures Entry(s, i, j) == Entry(t, i, j)
    {
      EntryAtPosition(s, i, j, Spot(s.dims[1], i, j));
      EntryAtPosition(t, i, j, Spot(s.dims[1], i, j));
    }
  }

  /** The product depends on the logical matrices only. */
  lemma ProductIgnoresLayout(a: Tensor, b: Tensor, u: Tensor, v: Tensor, c: Tensor, d: Tensor)
    requires IsProduct(c, a, b) && IsProduct(d, u, v)
    requires a.dims == u.dims && Logical(a) == Logical(u) && b.dims == v.dims && Logical(b) == Logical(v)
    ensures c.dims == d.dims && Logical(c) == Logical(d)
  {
    SameValuesSameEntries(a, u);
    SameValuesSameEntries(b, v);
    forall i, j | 0 <= i < c.dims[0] && 0 <= j < c.dims[1]
      ensures Entry(c, i, j) == Entry(d, i, j)
    {
      InnerSame(Row(a, i), Column(b, j), Row(u, i), Column(v, j), a.dims[1]);
    }
    SameEntriesSameValues(c, d);
  }

  lemma TransposedEntry(t: Tensor, i: nat, j: nat)
    requires IsMatrix(t) && i < t.dims[0] && j < t.dims[1]
    ensures IsMatrix(Transpose(t).value) && Entry(Transpose(t).value, j, i) == Entry(t, i, j)
  {
    TransposeReads(t);
    var idx := [j, i];
    assert ValidIndex(Transpose(t).value.dims, idx) && [idx[1], idx[0]] == [i, j];
  }

  lemma TransposedCell(a: Tensor, b: Tensor, i: nat, j: nat)
    requires Multiplicable(a, b) && i < a.dims[0] && j < b.dims[1]
    requires IsMatrix(Transpose(a).value) && IsMatrix(Transpose(b).value)
    ensures Cell(Transpose(b).value, Transpose(a).value, j, i) == Cell(a, b, i, j)
  {
    var at, bt, n := Transpose(a).value, Transpose(b).value, a.dims[1];
    forall k | 0 <= k < n
      ensures Row(bt, j)(k) == Column(b, j)(k) && Column(at, i)(k) == Row(a, i)(k)
    {
      TransposedEntry(a, i, k);
      TransposedEntry(b, k, j);
    }
    InnerSame(Row(bt, j), Column(at, i), Column(b, j), Row(a, i), n);
    InnerSwap(Row(a, i), Column(b, j), n);
  }

  /** matmul(transpose(B), transpose(A)) is transpose(matmul(A, B)). */
  lemma TransposedProduct(a: Tensor, b: Tensor, c: Tensor, d: Tensor)
    requires IsProduct(c, a, b)
    requires IsProduct(d, Transpose(b).value, Transpose(a).value)
    ensures InBounds(Transpose(c).value) && d.dims == Transpose(c).value.dims && Logical(d) == Logical(Transpose(c).value)
  {
    TransposeReads(c);
    var ct := Transpose(c).value;
    forall j, i | 0 <= j < d.dims[0] && 0 <= i < d.dims[1]
      ensures Entry(d, j, i) == Entry(ct, j, i)
    {
      TransposedCell(a, b, i, j);
      TransposedEntry(c, i, j);
    }
    SameEntriesSameValues(d, ct);
  }

  lemma SlicedEntry(t: Tensor, start: nat, end: nat, i: nat, j: nat)
    requires IsMatrix(t) && Slice(t, 0, start, end).Ok? && i < end - start && j < t.dims[1]
    ensures IsMatrix(Slice(t, 0, start, end).value)
    ensures Entry(Slice(t, 0, start, end).value, i, j) == Entry(t, start + i, j)
  {
    SliceReads(t, 0, start, end);
    var idx: seq<nat> := [i, j];
    assert ValidIndex(Slice(t, 0, start, end).value.dims, idx) && idx[0 := start + i] == [start + i, j];
  }

  lemma SlicedCell(a: Tensor, b: Tensor, start: nat, end: nat, i: nat, j: nat)
    requires Multiplicable(a, b) && Slice(a, 0, start, end).Ok? && IsMatrix(Slice(a, 0, start, end).value)
    requires i < end - start && j < b.dims[1]
    ensures Cell(Slice(a, 0, start, end).value, b, i, j) == Cell(a, b, start + i, j)
  {
    var rows := Slice(a, 0, start, end).value;
    forall k | 0 <= k < a.dims[1]
      ensures Row(rows, i)(k) == Row(a, start + i)(k)
    {
      SlicedEntry(a, start, end, i, k);
    }
    InnerSame(Row(rows, i), Column(b, j), Row(a, start + i), Column(b, j), a.dims[1]);
  }

  /** Multiplying a slice of the rows is slicing the rows of the product. */
  lemma SlicedProduct(a: Tensor, b: Tensor, start: nat, end: nat, c: Tensor, d: Tensor)
    requires IsProduct(c, a, b) && Slice(a, 0, start, end).Ok?
    requires IsProduct(d, Slice(a, 0, start, end).value, b)
    ensures Slice(c, 0, start, end).Ok? && InBounds(Slice(c, 0, start, end).value)
    ensures d.dims == Slice(c, 0, start, end).value.dims && Logical(d) == Logical(Slice(c, 0, start, end).value)
  {
    SliceReads(c, 0, start, end);
    var rows := Slice(c, 0, start, end).value;
    forall i, j | 0 <= i < d.dims[0] && 0 <= j < d.dims[1]
      ensures Entry(d, i, j) == Entry(rows, i, j)
    {
      SlicedCell(a, b, start, end, i, j);
      SlicedEntry(c, start, end, i, j);
    }
    SameEntriesSameValues(d, rows);
  }

  // ---------------------------------------------------------------- associativity

  type Table = (int, int) -> real

  function Across(g: Table, l: int): Line {
    k => g(l, k)
  }

  function Down(g: Table, k: int): Line {
    l => g(l, k)
  }

  /** Row `x` times matrix `g` times column `y`, grouped to the left. */
  ghost function Twofold(x: Line, g: Table, y: Line, m: nat, n: nat): real {
    if n == 0 then 0.0 else Twofold(x, g, y, m, n - 1) + Inner(x, Down(g, n - 1), m) * y(n - 1)
  }

  lemma Spread(s: real, x: real, y: real, z: real, r: real)
    ensures (s + x * y) * z + x * r == s * z + x * (r + y * z)
  {
  }

  lemma {:induction false} TwofoldByRows(x: Line, g: Table, y: Line, m: nat, n: nat)
    ensures Twofold(x, g, y, m + 1, n) == Twofold(x, g, y, m, n) + x(m) * Inner(Across(g, m), y, n)
  {
    if n > 0 {
      TwofoldByRows(x, g, y, m, n - 1);
      Spread(Inner(x, Down(g, n - 1), m), x(m), g(m, n - 1), y(n - 1), Inner(Across(g, m), y, n - 1));
    }
  }

  lemma {:induction false} TwofoldOfNoRows(x: Line, g: Table, y: Line, n: nat)
    ensures Twofold(x, g, y, 0, n) == 0.0
  {
    if n > 0 {
      TwofoldOfNoRows(x, g, y, n - 1);
    }
  }

  lemma {:induction false} LeftGrouping(x: Line, g: Table, y: Line, xg: Line, m: nat, n: nat)
    requires forall k :: 0 <= k < n ==> xg(k) == Inner(x, Down(g, k), m)
    ensures Inner(xg, y, n) == Twofold(x, g, y, m, n)
  {
    if n > 0 {
      LeftGrouping(x, g, y, xg, m, n - 1);
    }
  }

  lemma {:induction false} RightGrouping(x: Line, g: Table, y: Line, gy: Line, m: nat, n: nat)
    requires forall l :: 0 <= l < m ==> gy(l) == Inner(Across(g, l), y, n)
    ensures Inner(x, gy, m) == Twofold(x, g, y, m, n)
  {
    if m == 0 {
      TwofoldOfNoRows(x, g, y, n);
    } else {
      var k: nat := m - 1;
      RightGrouping(x, g, y, gy, k, n);
      TwofoldByRows(x, g, y, k, n);
      assert gy(k) == Inner(Across(g, k), y, n);
    }
  }

  ghost function Grid(t: Tensor): Table
    requires IsMatrix(t)
  {
    (i, j) => if 0 <= i < t.dims[0] && 0 <= j < t.dims[1] then Entry(t, i, j) else 0.0
  }

  lemma GroupedCell(a: Tensor, b: Tensor, c: Tensor, ab: Tensor, bc: Tensor, i: nat, j: nat)
    requires IsProduct(ab, a, b) && IsProduct(bc, b, c) && i < a.dims[0] && j < c.dims[1]
    ensures Cell(ab, c, i, j) == Cell(a, bc, i, j)
  {
    var x, g, y, m, n := Row(a, i), Grid(b), Column(c, j), b.dims[0], b.dims[1];
    forall k | 0 <= k < n
      ensures Row(ab, i)(k) == Inner(x, Down(g, k), m)
    {
      InnerSame(x, Column(b, k), x, Down(g, k), m);
    }
    LeftGrouping(x, g, y, Row(ab, i), m, n);
    forall l | 0 <= l < m
      ensures Column(bc, j)(l) == Inner(Across(g, l), y, n)
    {
      InnerSame(Row(b, l), y, Across(g, l), y, n);
    }
    RightGrouping(x, g, y, Column(bc, j), m, n);
  }

  ghost predicate IsIdentity(t: Tensor) {
    IsMatrix(t) && t.dims[0] == t.dims[1] &&
    forall i, j :: 0 <= i < t.dims[0] && 0 <= j < t.dims[1] ==> Entry(t, i, j) == if i == j then 1.0 else 0.0
  }

  lemma {:induction false} InnerOfUnit(f: Line, g: Line, n: nat, i: nat)
    requires forall k :: 0 <= k < n ==> f(k) == if k == i then 1.0 else 0.0
    ensures Inner(f, g, n) == if i < n then g(i) else 0.0
  {
    if n > 0 {
      InnerOfUnit(f, g, n - 1, i);
      assert f(n - 1) == if n - 1 == i then 1.0 else 0.0;
      UnitTerm(f(n - 1), g(n - 1));
    }
  }

  lemma UnitTerm(x: real, y: real)
    ensures x == 1.0 ==> x * y == y
    ensures x == 0.0 ==> x * y == 0.0
  {
  }

  /** Multiplying by the identity changes nothing. */
  lemma IdentityProduct(one: Tensor, b: Tensor, c: Tensor)
    requires IsIdentity(one) && IsProduct(c, one, b)
    ensures c.dims == b.dims && Logical(c) == Logical(b)
  {
    assert b.dims == [b.dims[0], b.dims[1]];
    forall i, j | 0 <= i < c.dims[0] && 0 <= j < c.dims[1]
      ensures Entry(c, i, j) == Entry(b, i, j)
    {
      InnerOfUnit(Row(one, i), Column(b, j), one.dims[1], i);
    }
    SameEntriesSameValues(c, b);
  }

  /** (AB)C and A(BC) are the same matrix. */
  lemma ProductAssociates(a: Tensor, b: Tensor, c: Tensor, ab: Tensor, bc: Tensor, left: Tensor, right: Tensor)
    requires IsProduct(ab, a, b) && IsProduct(bc, b, c) && IsProduct(left, ab, c) && IsProduct(right, a, bc)
    ensures left.dims == right.dims && Logical(left) == Logical(right)
  {
    forall i, j | 0 <= i < left.dims[0] && 0 <= j < left.dims[1]
      ensures Entry(left, i, j) == Entry(right, i, j)
    {
      GroupedCell(a, b, c, ab, bc, i, j);
    }
    SameEntriesSameValues(left, right);
  }
}
