/**
 Column values of `src/core/value.rs` as far as the zone maps of a dataset look at them: NULL, the types with an
 order, and those without one (vectors, matrices, complex numbers, bit vectors, ...). Numbers are exact.
 */
module Values {
  import opened Common

  datatype Order = Less | Equal | Greater

  datatype Value =
    | Null
    | Float(f: real)
    | Float64(d: real)
    | Int(i: int)
    | Bool(b: bool)
    | Text(s: string)
    | Unordered(kind: nat, payload: nat)

  datatype ValueType = FloatType | Float64Type | IntType | BoolType | TextType | UnorderedType(kind: nat)

  predicate HasType(v: Value, t: ValueType) {
    match v
    case Null => false
    case Float(_) => t == FloatType
    case Float64(_) => t == Float64Type
    case Int(_) => t == IntType
    case Bool(_) => t == BoolType
    case Text(_) => t == TextType
    case Unordered(kind, _) => t == UnorderedType(kind)
  }

  predicate Orderable(t: ValueType) {
    !t.UnorderedType?
  }

  // ---------------------------------------------------------------- comparison

  function CompareReal(a: real, b: real): Order {
    if a < b then Less else if a == b then Equal else Greater
  }

  function CompareText(a: string, b: string): Order {
    if a == [] then if b == [] then Equal else Less
    else if b == [] then Greater
    else if a[0] < b[0] then Less
    else if a[0] > b[0] then Greater
    else CompareText(a[1..], b[1..])
  }

  predicate IsNumber(v: Value) {
    v.Float? || v.Float64? || v.Int?
  }

  function Number(v: Value): real
    requires IsNumber(v)
  {
    match v case Float(f) => f case Float64(d) => d case Int(i) => i as real
  }

  /** A boolean, or an integer that can stand for one. */
  predicate IsTruth(v: Value) {
    v.Bool? || v == Int(0) || v == Int(1)
  }

  function TruthNumber(v: Value): real
    requires IsTruth(v)
  {
    if v == Bool(true) || v == Int(1) then 1.0 else 0.0
  }

  /** `Value::compare`: NULL comes first; other pairs compare within numbers, texts and truth values. */
  function Compare(a: Value, b: Value): Option<Order> {
    if a.Null? then Some(if b.Null? then Equal else Less)
    else if b.Null? then Some(Greater)
    else if IsNumber(a) && IsNumber(b) then Some(CompareReal(Number(a), Number(b)))
    else if a.Text? && b.Text? then Some(CompareText(a.s, b.s))
    else if IsTruth(a) && IsTruth(b) then Some(CompareReal(TruthNumber(a), TruthNumber(b)))
    else None
  }

  function Rank(o: Order): int {
    match o case Less => -1 case Equal => 0 case Greater => 1
  }

  lemma {:induction false} TextOrder(a: string, b: string)
    ensures Rank(CompareText(b, a)) == -Rank(CompareText(a, b))
    ensures CompareText(a, b) == Equal <==> a == b
    decreases a
  {
    if a != [] && b != [] {
      TextOrder(a[1..], b[1..]);
      assert a == [a[0]] + a[1..] && b == [b[0]] + b[1..];
    }
  }

  lemma {:induction false} TextTransitive(a: string, b: string, c: string)
    requires CompareText(a, b) != Greater && CompareText(b, c) != Greater
    ensures CompareText(a, c) != Greater
    ensures Rank(CompareText(a, c)) <= Rank(CompareText(a, b)) && Rank(CompareText(a, c)) <= Rank(CompareText(b, c))
    decreases a
  {
    if a != [] && b != [] && c != [] && a[0] == b[0] == c[0] {
      TextTransitive(a[1..], b[1..], c[1..]);
    }
  }

  /** `a` is at most `b` in the order of their type. */
  predicate AtMost(a: Value, b: Value) {
    Compare(a, b).Some? && Compare(a, b).value != Greater
  }

  predicate NullOr(v: Value, t: ValueType) {
    v.Null? || HasType(v, t)
  }

  /** The values of a column of one orderable type are totally ordered, NULL first, and compare equal only when equal. */
  lemma OrderOfType(t: ValueType, a: Value, b: Value)
    requires Orderable(t) && NullOr(a, t) && NullOr(b, t)
    ensures Compare(a, b).Some? && Compare(b, a).Some?
    ensures Rank(Compare(b, a).value) == -Rank(Compare(a, b).value)
    ensures Compare(a, b).value == Equal <==> a == b
    ensures a.Null? && !b.Null? ==> Compare(a, b).value == Less
  {
    if a.Text? && b.Text? {
      TextOrder(a.s, b.s);
    }
  }

  lemma AtMostTransitive(t: ValueType, a: Value, b: Value, c: Value)
    requires Orderable(t) && NullOr(a, t) && NullOr(b, t) && NullOr(c, t) && AtMost(a, b) && AtMost(b, c)
    ensures AtMost(a, c)
  {
    if a.Text? && b.Text? && c.Text? {
      TextTransitive(a.s, b.s, c.s);
    }
  }

  /** Numbers compare as numbers, whatever their types, and truth values as 0 and 1, also with these. */
  lemma NumbersCompare(i: int, j: int, x: real, y: real, p: bool)
    ensures AtMost(Int(i), Int(j)) <==> i <= j
    ensures AtMost(Float(x), Float(y)) <==> x <= y
    ensures AtMost(Float64(x), Float64(y)) <==> x <= y
    ensures AtMost(Int(i), Float(x)) <==> i as real <= x
    ensures AtMost(Int(i), Float64(x)) <==> i as real <= x
    ensures AtMost(Float(x), Float64(y)) <==> x <= y
    ensures AtMost(Bool(false), Bool(true)) && !AtMost(Bool(true), Bool(false))
    ensures Compare(Bool(p), Int(i)).Some? <==> i == 0 || i == 1
    ensures Compare(Bool(p), Int(if p then 1 else 0)) == Some(Equal)
  {
  }

  /** Texts compare as in a dictionary: at the first place where they differ, or the shorter first. */
  lemma {:induction false} TextsCompare(a: string, b: string, k: nat)
    requires k <= |a| && k < |b| && a[..k] == b[..k] && (k == |a| || a[k] < b[k])
    ensures CompareText(a, b) == Less
  {
    if k > 0 {
      assert a[0] == a[..k][0] && b[0] == b[..k][0];
      assert a[1..][..k - 1] == a[..k][1..] && b[1..][..k - 1] == b[..k][1..];
      TextsCompare(a[1..], b[1..], k - 1);
    }
  }

  /** Against any one literal, a larger value of a column never compares lower, as far as both compare. */
  lemma ComparisonIsMonotone(t: ValueType, x: Value, y: Value, literal: Value)
    requires Orderable(t) && HasType(x, t) && HasType(y, t) && AtMost(x, y)
    requires Compare(x, literal).Some? && Compare(y, literal).Some?
    ensures Rank(Compare(x, literal).value) <= Rank(Compare(y, literal).value)
  {
    if x.Text? && literal.Text? {
      TextOrder(literal.s, x.s);
      TextOrder(literal.s, y.s);
      if CompareText(y.s, literal.s) != Greater {
        TextTransitive(x.s, y.s, literal.s);
      }
    }
  }

  /** Values of an unordered type do not compare with anything but NULL. */
  lemma UnorderedNeverCompares(a: Value, b: Value)
    requires a.Unordered? && !b.Null?
    ensures Compare(a, b).None? && Compare(b, a).None?
  {
  }
}
