/**
 What `sort_by` of `src/core/dataset_legacy.rs` promises: rows in the order of the column, rows with the same value as they were.
 */
module SortOrder {
  import opened Common
  import opened Values
  import opened ZoneMaps
  import opened Partitions
  import opened SortReuse

  /** No row precedes an earlier one. */
  ghost predicate SortedBy(fields: seq<Field>, c: string, ascending: bool, rows: seq<Row>) {
    forall i, j :: 0 <= i < j < |rows| ==> !Precedes(fields, c, ascending, rows[j], rows[i])
  }

  lemma CellIsTyped(fields: seq<Field>, c: string, x: Row)
    requires c in Names(fields) && ValidRow(fields, x)
    ensures NullOr(Cell(fields, x, c), TypeOf(fields, c))
  {
    NameHasIndex(fields, c);
    var i := FieldIndex(fields, c).value;
    assert Compatible(fields[i], x[i]);
  }

  lemma PrecedesIsAsymmetric(fields: seq<Field>, c: string, ascending: bool, x: Row, y: Row)
    requires c in Names(fields) && ValidRow(fields, x) && ValidRow(fields, y) && Precedes(fields, c, ascending, x, y)
    ensures !Precedes(fields, c, ascending, y, x)
  {
    CellIsTyped(fields, c, x);
    CellIsTyped(fields, c, y);
    if Orderable(TypeOf(fields, c)) {
      OrderOfType(TypeOf(fields, c), Cell(fields, x, c), Cell(fields, y, c));
    }
  }

  /** In a column with an order a row that does not precede comes at or after. */
  lemma NotPrecedingIsAtMost(fields: seq<Field>, c: string, ascending: bool, x: Row, y: Row)
    requires c in Names(fields) && Orderable(TypeOf(fields, c)) && ValidRow(fields, x) && ValidRow(fields, y)
    ensures !Precedes(fields, c, ascending, y, x)
            <==> if ascending then AtMost(Cell(fields, x, c), Cell(fields, y, c)) else AtMost(Cell(fields, y, c), Cell(fields, x, c))
  {
    CellIsTyped(fields, c, x);
    CellIsTyped(fields, c, y);
    OrderOfType(TypeOf(fields, c), Cell(fields, x, c), Cell(fields, y, c));
  }

  lemma NotPrecedingIsTransitive(fields: seq<Field>, c: string, ascending: bool, x: Row, y: Row, z: Row)
    requires c in Names(fields) && ValidRow(fields, x) && ValidRow(fields, y) && ValidRow(fields, z)
    requires !Precedes(fields, c, ascending, y, x) && !Precedes(fields, c, ascending, z, y)
    ensures !Precedes(fields, c, ascending, z, x)
  {
    var t, u, v, w := TypeOf(fields, c), Cell(fields, x, c), Cell(fields, y, c), Cell(fields, z, c);
    CellIsTyped(fields, c, x);
    CellIsTyped(fields, c, y);
    CellIsTyped(fields, c, z);
    if Orderable(t) {
      NotPrecedingIsAtMost(fields, c, ascending, x, y);
      NotPrecedingIsAtMost(fields, c, ascending, y, z);
      NotPrecedingIsAtMost(fields, c, ascending, x, z);
      if ascending {
        AtMostTransitive(t, u, v, w);
      } else {
        AtMostTransitive(t, w, v, u);
      }
    }
  }

  lemma {:induction false} InsertedFrom(fields: seq<Field>, c: string, ascending: bool, s: seq<Row>, x: Row, y: Row)
    requires y in Insert(fields, c, ascending, s, x)
    ensures y in s || y == x
  {
    if s != [] && Precedes(fields, c, ascending, x, s[|s| - 1]) {
      SplitLast(s);
      if y in Insert(fields, c, ascending, s[..|s| - 1], x) {
        InsertedFrom(fields, c, ascending, s[..|s| - 1], x, y);
      }
    }
  }

  lemma SortedSnoc(fields: seq<Field>, c: string, ascending: bool, s: seq<Row>, x: Row)
    requires SortedBy(fields, c, ascending, s) && forall y :: y in s ==> !Precedes(fields, c, ascending, x, y)
    ensures SortedBy(fields, c, ascending, s + [x])
  {
  }

  lemma {:induction false} InsertSorts(fields: seq<Field>, c: string, ascending: bool, s: seq<Row>, x: Row)
    requires c in Names(fields) && ValidRows(fields, s) && ValidRow(fields, x) && SortedBy(fields, c, ascending, s)
    ensures SortedBy(fields, c, ascending, Insert(fields, c, ascending, s, x))
  {
    if s == [] {
    } else if Precedes(fields, c, ascending, x, s[|s| - 1]) {
      var front, last := s[..|s| - 1], s[|s| - 1];
      InsertSorts(fields, c, ascending, front, x);
      forall y | y in Insert(fields, c, ascending, front, x)
        ensures !Precedes(fields, c, ascending, last, y)
      {
        InsertedFrom(fields, c, ascending, front, x, y);
        PrecedesIsAsymmetric(fields, c, ascending, x, last);
      }
      SortedSnoc(fields, c, ascending, Insert(fields, c, ascending, front, x), last);
    } else {
      forall y | y in s
        ensures !Precedes(fields, c, ascending, x, y)
      {
        LastIsReached(fields, c, ascending, s, x, y);
      }
      SortedSnoc(fields, c, ascending, s, x);
    }
  }

  /** What does not precede the last row precedes none. */
  lemma LastIsReached(fields: seq<Field>, c: string, ascending: bool, s: seq<Row>, x: Row, y: Row)
    requires c in Names(fields) && ValidRows(fields, s) && ValidRow(fields, x) && SortedBy(fields, c, ascending, s)
    requires y in s && !Precedes(fields, c, ascending, x, s[|s| - 1])
    ensures !Precedes(fields, c, ascending, x, y)
  {
    var i :| 0 <= i < |s| && s[i] == y;
    if i < |s| - 1 {
      NotPrecedingIsTransitive(fields, c, ascending, y, s[|s| - 1], x);
    }
  }

  /** The result is sorted, whatever the type of the column. */
  lemma {:induction false} SortSorts(fields: seq<Field>, c: string, ascending: bool, rows: seq<Row>)
    requires c in Names(fields) && ValidRows(fields, rows)
    ensures SortedBy(fields, c, ascending, SortRows(fields, c, ascending, rows))
  {
    if rows != [] {
      var front := rows[..|rows| - 1];
      SortSorts(fields, c, ascending, front);
      SortedRowsAreValid(fields, c, ascending, front);
      InsertSorts(fields, c, ascending, SortRows(fields, c, ascending, front), rows[|rows| - 1]);
    }
  }

  /** By a column with an order every value is at most every later one, or at least when descending. */
  lemma SortOrders(fields: seq<Field>, c: string, ascending: bool, rows: seq<Row>, i: nat, j: nat)
    requires c in Names(fields) && Orderable(TypeOf(fields, c)) && ValidRows(fields, rows) && i < j < |rows|
    ensures var r := SortRows(fields, c, ascending, rows);
            if ascending then AtMost(Cell(fields, r[i], c), Cell(fields, r[j], c))
            else AtMost(Cell(fields, r[j], c), Cell(fields, r[i], c))
  {
    var r := SortRows(fields, c, ascending, rows);
    SortSorts(fields, c, ascending, rows);
    SortedRowsAreValid(fields, c, ascending, rows);
    NotPrecedingIsAtMost(fields, c, ascending, r[i], r[j]);
  }

  // ---------------------------------------------------------------- ties

  /** The rows with one value in the column, in order. */
  function WithCell(fields: seq<Field>, c: string, rows: seq<Row>, v: Value): seq<Row> {
    if rows == [] then []
    else
      WithCell(fields, c, rows[..|rows| - 1], v) + if Cell(fields, rows[|rows| - 1], c) == v then [rows[|rows| - 1]] else []
  }

  lemma WithCellSnoc(fields: seq<Field>, c: string, s: seq<Row>, x: Row, v: Value)
    ensures WithCell(fields, c, s + [x], v) == WithCell(fields, c, s, v) + if Cell(fields, x, c) == v then [x] else []
  {
    assert (s + [x])[..|s|] == s;
  }

  lemma PrecedingDiffers(fields: seq<Field>, c: string, ascending: bool, x: Row, y: Row)
    requires Precedes(fields, c, ascending, x, y)
    ensures Cell(fields, x, c) != Cell(fields, y, c)
  {
    if Cell(fields, x, c).Text? && Cell(fields, y, c).Text? {
      TextOrder(Cell(fields, x, c).s, Cell(fields, y, c).s);
    }
  }

  lemma OneIsEmpty<T>(a: seq<T>, b: seq<T>, c: seq<T>)
    requires b == [] || c == []
    ensures a + b + c == a + c + b
  {
  }

  lemma {:induction false} InsertIsStable(fields: seq<Field>, c: string, ascending: bool, s: seq<Row>, x: Row, v: Value)
    ensures WithCell(fields, c, Insert(fields, c, ascending, s, x), v) == WithCell(fields, c, s + [x], v)
  {
    WithCellSnoc(fields, c, s, x, v);
    if s != [] && Precedes(fields, c, ascending, x, s[|s| - 1]) {
      var front, last := s[..|s| - 1], s[|s| - 1];
      InsertIsStable(fields, c, ascending, front, x, v);
      WithCellSnoc(fields, c, front, x, v);
      WithCellSnoc(fields, c, Insert(fields, c, ascending, front, x), last, v);
      WithCellSnoc(fields, c, front, last, v);
      SplitLast(s);
      PrecedingDiffers(fields, c, ascending, x, last);
      OneIsEmpty(WithCell(fields, c, front, v), if Cell(fields, x, c) == v then [x] else [], if Cell(fields, last, c) == v then [last] else []);
    }
  }

  /** Rows with the same value keep their order. */
  lemma {:induction false} SortIsStable(fields: seq<Field>, c: string, ascending: bool, rows: seq<Row>, v: Value)
    ensures WithCell(fields, c, SortRows(fields, c, ascending, rows), v) == WithCell(fields, c, rows, v)
  {
    if rows != [] {
      var front, last := rows[..|rows| - 1], rows[|rows| - 1];
      SortIsStable(fields, c, ascending, front, v);
      InsertIsStable(fields, c, ascending, SortRows(fields, c, ascending, front), last, v);
      WithCellSnoc(fields, c, SortRows(fields, c, ascending, front), last, v);
    }
  }
}
