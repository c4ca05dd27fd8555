/**
 `sort_by` of `src/core/dataset_legacy.rs` keeps the column statistics it had: exactly for which schemas
 that is what a recomputation would give.

 The sort is stable and its comparator treats values that do not compare as equal, so it is modelled by
 insertion from the left.
 */
module SortReuse {
  import opened Common
  import opened Values
  import opened ZoneMaps
  import opened Partitions

  /** The comparator: values that do not compare count as equal. */
  predicate Precedes(fields: seq<Field>, c: string, ascending: bool, x: Row, y: Row) {
    Compare(Cell(fields, x, c), Cell(fields, y, c)) == Some(if ascending then Less else Greater)
  }

  /** A stable sort: a row goes after every row it does not precede. */
  function Insert(fields: seq<Field>, c: string, ascending: bool, s: seq<Row>, x: Row): (r: seq<Row>)
    ensures |r| == |s| + 1
  {
    if s != [] && Precedes(fields, c, ascending, x, s[|s| - 1]) then
      Insert(fields, c, ascending, s[..|s| - 1], x) + [s[|s| - 1]]
    else s + [x]
  }

  function SortRows(fields: seq<Field>, c: string, ascending: bool, rows: seq<Row>): (r: seq<Row>)
    ensures |r| == |rows|
  {
    if rows == [] then []
    else Insert(fields, c, ascending, SortRows(fields, c, ascending, rows[..|rows| - 1]), rows[|rows| - 1])
  }

  // ---------------------------------------------------------------- what sorting keeps

  lemma {:induction false} InsertPermutes(fields: seq<Field>, c: string, ascending: bool, s: seq<Row>, x: Row)
    ensures multiset(Insert(fields, c, ascending, s, x)) == multiset(s) + multiset{x}
  {
    if s != [] && Precedes(fields, c, ascending, x, s[|s| - 1]) {
      InsertPermutes(fields, c, ascending, s[..|s| - 1], x);
      SplitLast(s);
    }
  }

  lemma {:induction false} SortPermutes(fields: seq<Field>, c: string, ascending: bool, rows: seq<Row>)
    ensures multiset(SortRows(fields, c, ascending, rows)) == multiset(rows)
  {
    if rows != [] {
      var front, last := rows[..|rows| - 1], rows[|rows| - 1];
      SortPermutes(fields, c, ascending, front);
      InsertPermutes(fields, c, ascending, SortRows(fields, c, ascending, front), last);
      SplitLast(rows);
    }
  }

  lemma SortedRowsAreValid(fields: seq<Field>, c: string, ascending: bool, rows: seq<Row>)
    requires ValidRows(fields, rows)
    ensures ValidRows(fields, SortRows(fields, c, ascending, rows))
  {
    var sorted := SortRows(fields, c, ascending, rows);
    SortPermutes(fields, c, ascending, rows);
    forall r | 0 <= r < |sorted|
      ensures ValidRow(fields, sorted[r])
    {
      assert sorted[r] in multiset(sorted);
      assert sorted[r] in rows;
    }
  }

  lemma {:induction false} InsertColumn(fields: seq<Field>, c: string, ascending: bool, s: seq<Row>, x: Row, name: string)
    ensures multiset(Column(fields, Insert(fields, c, ascending, s, x), name))
            == multiset(Column(fields, s, name)) + multiset{Cell(fields, x, name)}
  {
    if s != [] && Precedes(fields, c, ascending, x, s[|s| - 1]) {
      var front, last := s[..|s| - 1], s[|s| - 1];
      InsertColumn(fields, c, ascending, front, x, name);
      SplitLast(s);
      ColumnSnoc(fields, front, last, name);
      ColumnSnoc(fields, Insert(fields, c, ascending, front, x), last, name);
    } else {
      ColumnSnoc(fields, s, x, name);
    }
  }

  lemma {:induction false} SortColumn(fields: seq<Field>, c: string, ascending: bool, rows: seq<Row>, name: string)
    ensures multiset(Column(fields, SortRows(fields, c, ascending, rows), name)) == multiset(Column(fields, rows, name))
  {
    if rows != [] {
      var front, last := rows[..|rows| - 1], rows[|rows| - 1];
      SortColumn(fields, c, ascending, front, name);
      InsertColumn(fields, c, ascending, SortRows(fields, c, ascending, front), last, name);
      SplitLast(rows);
      ColumnSnoc(fields, front, last, name);
    }
  }

  lemma FirstSnoc(vs: seq<Value>, v: Value)
    ensures FirstNonNull(vs + [v])
            == if FirstNonNull(vs).Some? then FirstNonNull(vs) else if v.Null? then None else Some(v)
  {
    assert (vs + [v])[..|vs|] == vs;
  }

  /** In the sort column itself only NULLs move past values, so its first value stays first. */
  lemma {:induction false} InsertKeepsFirst(fields: seq<Field>, c: string, ascending: bool, s: seq<Row>, x: Row)
    requires c in Names(fields) && !Orderable(TypeOf(fields, c)) && ValidRows(fields, s) && ValidRow(fields, x)
    ensures FirstNonNull(Column(fields, Insert(fields, c, ascending, s, x), c)) == FirstNonNull(Column(fields, s + [x], c))
  {
    if s != [] && Precedes(fields, c, ascending, x, s[|s| - 1]) {
      var front, last := s[..|s| - 1], s[|s| - 1];
      InsertKeepsFirst(fields, c, ascending, front, x);
      var u, v := Cell(fields, x, c), Cell(fields, last, c);
      OneIsNull(fields, c, x, last);
      SplitLast(s);
      ColumnSnoc(fields, Insert(fields, c, ascending, front, x), last, c);
      FirstSnoc(Column(fields, Insert(fields, c, ascending, front, x), c), v);
      ColumnSnoc(fields, front, x, c);
      FirstSnoc(Column(fields, front, c), u);
      ColumnSnoc(fields, front, last, c);
      FirstSnoc(Column(fields, front, c), v);
      ColumnSnoc(fields, s, x, c);
      FirstSnoc(Column(fields, s, c), u);
    }
  }

  lemma OneIsNull(fields: seq<Field>, c: string, x: Row, y: Row)
    requires c in Names(fields) && !Orderable(TypeOf(fields, c)) && ValidRow(fields, x) && ValidRow(fields, y)
    requires Compare(Cell(fields, x, c), Cell(fields, y, c)) in {Some(Less), Some(Greater)}
    ensures Cell(fields, x, c).Null? <==> !Cell(fields, y, c).Null?
  {
    NameHasIndex(fields, c);
    var i := FieldIndex(fields, c).value;
    assert Compatible(fields[i], x[i]) && Compatible(fields[i], y[i]);
  }

  lemma {:induction false} SortKeepsFirst(fields: seq<Field>, c: string, ascending: bool, rows: seq<Row>)
    requires c in Names(fields) && !Orderable(TypeOf(fields, c)) && ValidRows(fields, rows)
    ensures FirstNonNull(Column(fields, SortRows(fields, c, ascending, rows), c)) == FirstNonNull(Column(fields, rows, c))
  {
    if rows != [] {
      var front, last := rows[..|rows| - 1], rows[|rows| - 1];
      SortKeepsFirst(fields, c, ascending, front);
      SortedRowsAreValid(fields, c, ascending, front);
      var sorted := SortRows(fields, c, ascending, front);
      InsertKeepsFirst(fields, c, ascending, sorted, last);
      SplitLast(rows);
      ColumnSnoc(fields, sorted, last, c);
      ColumnSnoc(fields, front, last, c);
      FirstSnoc(Column(fields, sorted, c), Cell(fields, last, c));
      FirstSnoc(Column(fields, front, c), Cell(fields, last, c));
    }
  }

  /** Sorting by a column whose values never compare moves nothing. */
  lemma {:induction false} SortByUnorderedStays(fields: seq<Field>, c: string, ascending: bool, rows: seq<Row>)
    requires c in Names(fields) && !Orderable(TypeOf(fields, c)) && !IsNullable(fields, c) && ValidRows(fields, rows)
    ensures SortRows(fields, c, ascending, rows) == rows
  {
    if rows != [] {
      var front, last := rows[..|rows| - 1], rows[|rows| - 1];
      SortByUnorderedStays(fields, c, ascending, front);
      if front != [] && Precedes(fields, c, ascending, last, front[|front| - 1]) {
        OneIsNull(fields, c, last, front[|front| - 1]);
        CellOfValid(fields, last, c);
        CellOfValid(fields, front[|front| - 1], c);
      }
      SplitLast(rows);
    }
  }

  // ---------------------------------------------------------------- exactly when

  /** Only the sort column itself may lack an order, unless sorting by it moves nothing. */
  ghost predicate SortSafe(fields: seq<Field>, c: string)
    requires c in Names(fields)
  {
    (forall u :: u in Names(fields) && u != c ==> Orderable(TypeOf(fields, u))) ||
    (!Orderable(TypeOf(fields, c)) && !IsNullable(fields, c))
  }

  ghost predicate StatsKept(fields: seq<Field>, c: string, ascending: bool, rows: seq<Row>) {
    StatsOf(fields, SortRows(fields, c, ascending, rows)) == StatsOf(fields, rows)
  }

  lemma ColumnKept(fields: seq<Field>, c: string, ascending: bool, rows: seq<Row>, name: string)
    requires c in Names(fields) && name in Names(fields) && ValidRows(fields, rows)
    requires Orderable(TypeOf(fields, name)) || name == c
    ensures FieldStats(fields, SortRows(fields, c, ascending, rows), name) == FieldStats(fields, rows, name)
  {
    var t, us, vs := TypeOf(fields, name), Column(fields, SortRows(fields, c, ascending, rows), name), Column(fields, rows, name);
    SortedRowsAreValid(fields, c, ascending, rows);
    ColumnIsTyped(fields, SortRows(fields, c, ascending, rows), name);
    ColumnIsTyped(fields, rows, name);
    SortColumn(fields, c, ascending, rows, name);
    if Orderable(t) {
      StatsIgnoreOrder(t, us, vs);
    } else {
      SortKeepsFirst(fields, c, ascending, rows);
      CountNullsIsMultiplicity(us);
      CountNullsIsMultiplicity(vs);
      UnorderedStats(t, us);
      UnorderedStats(t, vs);
    }
  }

  lemma SortKeepsStats(fields: seq<Field>, c: string, ascending: bool, rows: seq<Row>)
    requires c in Names(fields) && SortSafe(fields, c) && ValidRows(fields, rows)
    ensures StatsKept(fields, c, ascending, rows)
  {
    if !Orderable(TypeOf(fields, c)) && !IsNullable(fields, c) {
      SortByUnorderedStays(fields, c, ascending, rows);
    } else {
      forall name | name in Names(fields)
        ensures FieldStats(fields, SortRows(fields, c, ascending, rows), name) == FieldStats(fields, rows, name)
      {
        ColumnKept(fields, c, ascending, rows, name);
      }
    }
  }

  function SomeValue(t: ValueType, high: bool): Value {
    match t
    case FloatType => Float(if high then 1.0 else 0.0)
    case Float64Type => Float64(if high then 1.0 else 0.0)
    case IntType => Int(if high then 1 else 0)
    case BoolType => Bool(high)
    case TextType => Text(if high then "b" else "a")
    case UnorderedType(kind) => Unordered(kind, if high then 1 else 0)
  }

  /** Two values a column may hold, the first below the second, when it is ordered or nullable. */
  function Low(f: Field): Value {
    if f.nullable then Null else SomeValue(f.valueType, false)
  }

  function RowWith(fields: seq<Field>, i: nat, v: Value, j: nat, w: Value): (r: Row)
    ensures |r| == |fields|
    ensures forall k :: 0 <= k < |fields| ==> r[k] == if k == i then v else if k == j then w else Default(fields[k])
  {
    seq(|fields|, k requires 0 <= k < |fields| => if k == i then v else if k == j then w else Default(fields[k]))
  }

  lemma LowPrecedesHigh(f: Field)
    requires f.nullable || Orderable(f.valueType)
    ensures Compare(Low(f), SomeValue(f.valueType, true)) == Some(Less)
    ensures Compare(SomeValue(f.valueType, true), Low(f)) == Some(Greater)
  {
    if f.valueType == TextType {
      var a, b := "a", "b";
      assert a[0] == 'a' && b[0] == 'b' && 'a' < 'b';
      assert CompareText(a, b) == Less && CompareText(b, a) == Greater;
    }
  }

  lemma TwoRows<T>(x: T, y: T)
    ensures [x, y][..1] == [x] && [x][..0] == []
  {
  }

  lemma SwappedPair(fields: seq<Field>, c: string, ascending: bool, x: Row, y: Row)
    requires Precedes(fields, c, ascending, y, x)
    ensures SortRows(fields, c, ascending, [x, y]) == [y, x]
  {
    TwoRows(x, y);
    assert Insert(fields, c, ascending, [], x) == [x] && Insert(fields, c, ascending, [], y) == [y];
    assert SortRows(fields, c, ascending, [x]) == [x];
    assert Insert(fields, c, ascending, [x], y) == [y] + [x];
  }

  lemma PairStats(fields: seq<Field>, x: Row, y: Row, u: string)
    requires u in Names(fields) && !Orderable(TypeOf(fields, u)) && ValidRow(fields, x) && ValidRow(fields, y)
    requires !Cell(fields, x, u).Null?
    ensures FieldStats(fields, [x, y], u).min == Some(Cell(fields, x, u))
  {
    assert ValidRows(fields, [x, y]);
    ColumnIsTyped(fields, [x, y], u);
    var column := Column(fields, [x, y], u);
    UnorderedStats(TypeOf(fields, u), column);
    assert column == [Cell(fields, x, u), Cell(fields, y, u)];
    TwoRows(Cell(fields, x, u), Cell(fields, y, u));
    assert FirstNonNull([Cell(fields, x, u)]) == Some(Cell(fields, x, u));
  }

  lemma RowWithIsValid(fields: seq<Field>, c: string, v: Value, u: string, w: Value)
    requires c in Names(fields) && u in Names(fields) && u != c
    requires Compatible(fields[FieldAt(fields, c)], v) && Compatible(fields[FieldAt(fields, u)], w)
    ensures var r := RowWith(fields, FieldAt(fields, c), v, FieldAt(fields, u), w);
            ValidRow(fields, r) && Cell(fields, r, c) == v && Cell(fields, r, u) == w
  {
  }

  function FieldAt(fields: seq<Field>, name: string): (i: nat)
    requires name in Names(fields)
    ensures i < |fields| && FieldIndex(fields, name) == Some(i) && fields[i].name == name
  {
    NameHasIndex(fields, name);
    FieldIndex(fields, name).value
  }

  lemma SwapChanges(fields: seq<Field>, c: string, ascending: bool, u: string, x: Row, y: Row)
    requires u in Names(fields) && !Orderable(TypeOf(fields, u)) && ValidRow(fields, x) && ValidRow(fields, y)
    requires Precedes(fields, c, ascending, y, x)
    requires !Cell(fields, x, u).Null? && !Cell(fields, y, u).Null? && Cell(fields, x, u) != Cell(fields, y, u)
    ensures !StatsKept(fields, c, ascending, [x, y])
  {
    SwappedPair(fields, c, ascending, x, y);
    PairStats(fields, x, y, u);
    PairStats(fields, y, x, u);
    assert StatsOf(fields, [x, y])[u].min != StatsOf(fields, [y, x])[u].min;
  }

  /** Otherwise two rows that change places give another first value. */
  lemma UnsafeSortChanges(fields: seq<Field>, c: string, ascending: bool, u: string) returns (rows: seq<Row>)
    requires c in Names(fields) && u in Names(fields) && u != c && !Orderable(TypeOf(fields, u))
    requires Orderable(TypeOf(fields, c)) || IsNullable(fields, c)
    ensures ValidRows(fields, rows) && !StatsKept(fields, c, ascending, rows)
  {
    var i, j := FieldAt(fields, c), FieldAt(fields, u);
    var low, high := Low(fields[i]), SomeValue(fields[i].valueType, true);
    var first, second := SomeValue(fields[j].valueType, false), SomeValue(fields[j].valueType, true);
    LowPrecedesHigh(fields[i]);
    RowWithIsValid(fields, c, low, u, first);
    RowWithIsValid(fields, c, low, u, second);
    RowWithIsValid(fields, c, high, u, first);
    RowWithIsValid(fields, c, high, u, second);
    var x := RowWith(fields, i, if ascending then high else low, j, first);
    var y := RowWith(fields, i, if ascending then low else high, j, second);
    rows := [x, y];
    SwapChanges(fields, c, ascending, u, x, y);
  }

  /** The reused statistics are right for every table of the schema exactly when the sort is safe. */
  lemma SortKeepsStatsIff(fields: seq<Field>, c: string, ascending: bool)
    requires c in Names(fields)
    ensures (forall rows: seq<Row> :: ValidRows(fields, rows) ==> StatsKept(fields, c, ascending, rows)) <==> SortSafe(fields, c)
  {
    if SortSafe(fields, c) {
      forall rows: seq<Row> | ValidRows(fields, rows)
        ensures StatsKept(fields, c, ascending, rows)
      {
        SortKeepsStats(fields, c, ascending, rows);
      }
    } else {
      var u :| u in Names(fields) && u != c && !Orderable(TypeOf(fields, u));
      var rows := UnsafeSortChanges(fields, c, ascending, u);
    }
  }
}
