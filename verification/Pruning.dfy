/**
 Partition pruning of `src/query/planner.rs` and the pruned scan of `src/query/physical.rs`: skipping the
 partitions a zone map rules out never changes the answer of the filter above the scan.
 */
module Pruning {
  import opened Common
  import opened Values
  import opened ZoneMaps
  import opened Partitions

  datatype Op = Lt | Le | Gt | Ge

  /** The predicates the pruning pass understands. */
  datatype Predicate =
    | ColumnFirst(column: string, op: Op, literal: Value)
    | LiteralFirst(literal: Value, op: Op, column: string)
    | Between(column: string, low: Value, high: Value)

  // ---------------------------------------------------------------- what the filter keeps

  predicate Allows(op: Op, o: Order) {
    match op case Lt => o == Less case Le => o != Greater case Gt => o == Greater case Ge => o != Less
  }

  /** Comparison in three-valued logic. */
  function SqlCompare(l: Value, op: Op, r: Value): Option<bool> {
    if l.Null? || r.Null? then None
    else match Compare(l, r) case None => None case Some(o) => Some(Allows(op, o))
  }

  /** False wins over unknown, unknown over true. */
  function And3(a: Option<bool>, b: Option<bool>): (r: Option<bool>)
    ensures (r == Some(true) <==> a == b == Some(true)) && (r == Some(false) <==> Some(false) in {a, b})
  {
    if a == Some(false) || b == Some(false) then Some(false)
    else if a == Some(true) && b == Some(true) then Some(true)
    else None
  }

  function Truth(p: Predicate, fields: seq<Field>, row: Row): Option<bool> {
    var v := Cell(fields, row, p.column);
    match p
    case ColumnFirst(_, op, literal) => SqlCompare(v, op, literal)
    case LiteralFirst(literal, op, _) => SqlCompare(literal, op, v)
    case Between(_, low, high) => And3(SqlCompare(v, Ge, low), SqlCompare(v, Le, high))
  }

  /** A row is kept only when the predicate is true, not when it is unknown. */
  predicate Keeps(p: Predicate, fields: seq<Field>, row: Row) {
    Truth(p, fields, row) == Some(true)
  }

  function Filtered(p: Predicate, fields: seq<Field>, rows: seq<Row>): seq<Row> {
    KeepWhere(rows, row => Keeps(p, fields, row))
  }

  /** The comparison holds in the order of one type. */
  predicate Meets(a: Value, op: Op, b: Value) {
    match op
    case Lt => AtMost(a, b) && a != b
    case Le => AtMost(a, b)
    case Gt => AtMost(b, a) && a != b
    case Ge => AtMost(b, a)
  }

  /** What a predicate asks of the cell. */
  predicate Asks(p: Predicate, v: Value) {
    match p
    case ColumnFirst(_, op, literal) => !literal.Null? && Meets(v, op, literal)
    case LiteralFirst(literal, op, _) => !literal.Null? && Meets(literal, op, v)
    case Between(_, low, high) => !low.Null? && !high.Null? && AtMost(low, v) && AtMost(v, high)
  }

  predicate LiteralsOfType(p: Predicate, t: ValueType) {
    match p
    case ColumnFirst(_, _, literal) => NullOr(literal, t)
    case LiteralFirst(literal, _, _) => NullOr(literal, t)
    case Between(_, low, high) => NullOr(low, t) && NullOr(high, t)
  }

  lemma ComparesAsMeets(t: ValueType, a: Value, op: Op, b: Value)
    requires Orderable(t) && NullOr(a, t) && NullOr(b, t)
    ensures SqlCompare(a, op, b) == Some(true) <==> !a.Null? && !b.Null? && Meets(a, op, b)
  {
    OrderOfType(t, a, b);
  }

  /** A row is kept exactly when its cell is not NULL and stands to the literals as asked. */
  lemma KeepsIs(p: Predicate, fields: seq<Field>, row: Row, t: ValueType)
    requires Orderable(t) && NullOr(Cell(fields, row, p.column), t) && LiteralsOfType(p, t)
    ensures Keeps(p, fields, row) <==> !Cell(fields, row, p.column).Null? && Asks(p, Cell(fields, row, p.column))
  {
    var v := Cell(fields, row, p.column);
    match p
    case ColumnFirst(_, op, literal) => ComparesAsMeets(t, v, op, literal);
    case LiteralFirst(literal, op, _) => ComparesAsMeets(t, literal, op, v);
    case Between(_, low, high) =>
      ComparesAsMeets(t, v, Ge, low);
      ComparesAsMeets(t, v, Le, high);
  }

  // ---------------------------------------------------------------- what the planner prunes

  function Flip(op: Op): Op {
    match op case Lt => Gt case Le => Ge case Gt => Lt case Ge => Le
  }

  /** `extract_range_constraints`: what the column must satisfy, with the column on the left. */
  function Constraints(p: Predicate): seq<(Op, Value)> {
    match p
    case ColumnFirst(_, op, literal) => [(op, literal)]
    case LiteralFirst(literal, op, _) => [(Flip(op), literal)]
    case Between(_, low, high) => [(Ge, low), (Le, high)]
  }

  /** `partition_range_could_match`: a pair that does not compare rules nothing out. */
  predicate CouldMatch(op: Op, min: Value, max: Value, literal: Value) {
    match op
    case Lt => Compare(min, literal) !in {Some(Greater), Some(Equal)}
    case Le => Compare(min, literal) != Some(Greater)
    case Gt => Compare(max, literal) !in {Some(Less), Some(Equal)}
    case Ge => Compare(max, literal) != Some(Less)
  }

  predicate Survives(p: Predicate, part: Partition) {
    p.column in part.stats && part.stats[p.column].min.Some? && part.stats[p.column].max.Some? ==>
      var s := part.stats[p.column];
      forall c <- Constraints(p) :: CouldMatch(c.0, s.min.value, s.max.value, c.1)
  }

  function Ranges(p: Predicate, parts: seq<Partition>): seq<(nat, nat)> {
    if parts == [] then []
    else
      var last := parts[|parts| - 1];
      Ranges(p, parts[..|parts| - 1]) + if Survives(p, last) then [(last.start, last.end)] else []
  }

  /** `try_prune_partitions`: the ranges to scan, or none when nothing can be skipped. */
  function TryPrune(p: Predicate, parts: seq<Partition>): Option<seq<(nat, nat)>> {
    if |parts| < 2 then None
    else if |Ranges(p, parts)| == |parts| then None
    else Some(Ranges(p, parts))
  }

  function Min(a: nat, b: nat): nat {
    if a <= b then a else b
  }

  function Stretch(rows: seq<Row>, range: (nat, nat)): seq<Row> {
    var end := Min(range.1, |rows|);
    if range.0 >= end then [] else rows[range.0..end]
  }

  function Scanned(rows: seq<Row>, ranges: seq<(nat, nat)>): seq<Row> {
    if ranges == [] then [] else Scanned(rows, ranges[..|ranges| - 1]) + Stretch(rows, ranges[|ranges| - 1])
  }

  /** `PartitionPrunedScanExec::execute`. */
  method PrunedScan(rows: seq<Row>, ranges: seq<(nat, nat)>) returns (scanned: seq<Row>)
    ensures scanned == Scanned(rows, ranges)
  {
    scanned := [];
    for i := 0 to |ranges|
      invariant scanned == Scanned(rows, ranges[..i])
    {
      var (start, end) := ranges[i];
      end := if end <= |rows| then end else |rows|;
      ScannedSnoc(rows, ranges, i);
      if start >= end {
        continue;
      }
      scanned := scanned + rows[start..end];
    }
    assert ranges[..|ranges|] == ranges;
  }

  lemma ScannedSnoc(rows: seq<Row>, ranges: seq<(nat, nat)>, i: nat)
    requires i < |ranges|
    ensures Scanned(rows, ranges[..i + 1]) == Scanned(rows, ranges[..i]) + Stretch(rows, ranges[i])
    ensures Scanned(rows, ranges[..i]) + [] == Scanned(rows, ranges[..i])
  {
    assert ranges[..i + 1][..i] == ranges[..i];
  }

  // ---------------------------------------------------------------- soundness

  lemma CompareFlips(a: Value, b: Value)
    ensures Compare(a, b).Some? == Compare(b, a).Some?
    ensures Compare(a, b).Some? ==> Rank(Compare(b, a).value) == -Rank(Compare(a, b).value)
  {
    if a.Text? && b.Text? {
      TextOrder(a.s, b.s);
    }
  }

  lemma FlippedCompare(a: Value, op: Op, b: Value)
    ensures SqlCompare(a, op, b) == SqlCompare(b, Flip(op), a)
  {
    CompareFlips(a, b);
  }

  /** A kept row satisfies every constraint. */
  lemma KeptMeetsConstraints(p: Predicate, fields: seq<Field>, row: Row, c: (Op, Value))
    requires Keeps(p, fields, row) && c in Constraints(p)
    ensures SqlCompare(Cell(fields, row, p.column), c.0, c.1) == Some(true)
  {
    if p.LiteralFirst? {
      FlippedCompare(p.literal, p.op, Cell(fields, row, p.column));
    }
  }

  /** A value within bounds that satisfies a constraint keeps the bounds from being ruled out. */
  lemma BoundsCouldMatch(t: ValueType, s: ColumnStats, v: Value, op: Op, literal: Value)
    requires Orderable(t) && Encloses(s, t, v) && SqlCompare(v, op, literal) == Some(true)
    ensures CouldMatch(op, s.min.value, s.max.value, literal)
  {
    if Compare(s.min.value, literal).Some? {
      ComparisonIsMonotone(t, s.min.value, v, literal);
    }
    if Compare(s.max.value, literal).Some? {
      ComparisonIsMonotone(t, v, s.max.value, literal);
    }
  }

  lemma KeptIsTyped(p: Predicate, fields: seq<Field>, row: Row)
    requires ValidRow(fields, row) && Keeps(p, fields, row)
    ensures p.column in Names(fields) && Orderable(TypeOf(fields, p.column)) && !Cell(fields, row, p.column).Null?
  {
    NameHasIndex(fields, p.column);
    var v := Cell(fields, row, p.column);
    assert !v.Null?;
    var i := FieldIndex(fields, p.column).value;
    assert Compatible(fields[i], row[i]);
    if v.Unordered? {
      KeptMeetsConstraints(p, fields, row, Constraints(p)[0]);
      UnorderedNeverCompares(v, Constraints(p)[0].1);
    }
  }

  /** A partition with a kept row survives. */
  lemma KeptSurvives(p: Predicate, fields: seq<Field>, rows: seq<Row>, k: nat, r: nat)
    requires ValidRows(fields, rows) && k < |PartitionsOf(fields, rows)|
    requires PartitionsOf(fields, rows)[k].start <= r < PartitionsOf(fields, rows)[k].end <= |rows|
    requires Keeps(p, fields, rows[r])
    ensures Survives(p, PartitionsOf(fields, rows)[k])
  {
    KeptIsTyped(p, fields, rows[r]);
    ZoneMapBounds(fields, rows, p.column, k, r);
    var s := PartitionsOf(fields, rows)[k].stats[p.column];
    forall c | c in Constraints(p)
      ensures CouldMatch(c.0, s.min.value, s.max.value, c.1)
    {
      KeptMeetsConstraints(p, fields, rows[r], c);
      BoundsCouldMatch(TypeOf(fields, p.column), s, Cell(fields, rows[r], p.column), c.0, c.1);
    }
  }

  lemma FilteredConcat(p: Predicate, fields: seq<Field>, a: seq<Row>, b: seq<Row>)
    ensures Filtered(p, fields, a + b) == Filtered(p, fields, a) + Filtered(p, fields, b)
  {
    KeepWhereConcat(a, b, row => Keeps(p, fields, row));
  }

  lemma {:induction false} NothingKept(p: Predicate, fields: seq<Field>, rows: seq<Row>)
    requires forall r :: 0 <= r < |rows| ==> !Keeps(p, fields, rows[r])
    ensures Filtered(p, fields, rows) == []
  {
    if rows != [] {
      NothingKept(p, fields, rows[..|rows| - 1]);
      assert rows == rows[..|rows| - 1] + [rows[|rows| - 1]];
    }
  }

  lemma SkippedRowIsDropped(p: Predicate, fields: seq<Field>, rows: seq<Row>, k: nat, r: nat)
    requires ValidRows(fields, rows) && k < |PartitionsOf(fields, rows)| && !Survives(p, PartitionsOf(fields, rows)[k])
    requires PartitionsOf(fields, rows)[k].start <= r < PartitionsOf(fields, rows)[k].end <= |rows|
    ensures !Keeps(p, fields, rows[r])
  {
    if Keeps(p, fields, rows[r]) {
      KeptSurvives(p, fields, rows, k, r);
    }
  }

  lemma NothingKeptBetween(p: Predicate, fields: seq<Field>, rows: seq<Row>, from: nat, to: nat)
    requires from <= to <= |rows| && forall r :: from <= r < to ==> !Keeps(p, fields, rows[r])
    ensures Filtered(p, fields, rows[from..to]) == []
  {
    NothingKept(p, fields, rows[from..to]);
  }

  /** The part of the answer from one partition is not lost. */
  lemma OnePartition(p: Predicate, fields: seq<Field>, rows: seq<Row>, k: nat)
    requires ValidRows(fields, rows) && k < |PartitionsOf(fields, rows)|
    ensures var part := PartitionsOf(fields, rows)[k];
            part.start <= part.end <= |rows| &&
            (!Survives(p, part) ==> Filtered(p, fields, rows[part.start..part.end]) == [])
  {
    PartitionFits(|rows|, k);
    var part := PartitionsOf(fields, rows)[k];
    if !Survives(p, part) {
      forall r | part.start <= r < part.end
        ensures !Keeps(p, fields, rows[r])
      {
        SkippedRowIsDropped(p, fields, rows, k, r);
      }
      NothingKeptBetween(p, fields, rows, part.start, part.end);
    }
  }

  lemma ScannedAppend(rows: seq<Row>, ranges: seq<(nat, nat)>, range: (nat, nat))
    ensures Scanned(rows, ranges + [range]) == Scanned(rows, ranges) + Stretch(rows, range)
  {
    assert (ranges + [range])[..|ranges|] == ranges;
  }

  function RangeOf(p: Predicate, part: Partition): seq<(nat, nat)> {
    if Survives(p, part) then [(part.start, part.end)] else []
  }

  lemma RangesSnoc(p: Predicate, parts: seq<Partition>, k: nat)
    requires k < |parts|
    ensures Ranges(p, parts[..k + 1]) == Ranges(p, parts[..k]) + RangeOf(p, parts[k])
  {
    assert parts[..k + 1][..k] == parts[..k];
  }

  /** One more partition, scanned or skipped. */
  lemma OneMorePartition(p: Predicate, fields: seq<Field>, rows: seq<Row>, before: seq<(nat, nat)>, part: Partition)
    requires part.start <= part.end <= |rows|
    requires Filtered(p, fields, Scanned(rows, before)) == Filtered(p, fields, rows[..part.start])
    requires !Survives(p, part) ==> Filtered(p, fields, rows[part.start..part.end]) == []
    ensures Filtered(p, fields, Scanned(rows, before + RangeOf(p, part))) == Filtered(p, fields, rows[..part.end])
  {
    var chunk := rows[part.start..part.end];
    assert rows[..part.start] + chunk == rows[..part.end];
    FilteredConcat(p, fields, rows[..part.start], chunk);
    if Survives(p, part) {
      ScannedAppend(rows, before, (part.start, part.end));
      assert Stretch(rows, (part.start, part.end)) == chunk;
      FilteredConcat(p, fields, Scanned(rows, before), chunk);
    } else {
      assert before + [] == before;
    }
  }

  function From(ps: seq<Partition>, k: nat): nat
    requires k <= |ps|
  {
    if k == 0 then 0 else ps[k - 1].end
  }

  /** Partition `k` starts where the one before ends, and hides no kept row when it is skipped. */
  ghost predicate SafeAt(p: Predicate, fields: seq<Field>, rows: seq<Row>, ps: seq<Partition>, k: nat)
    requires k < |ps|
  {
    var part := ps[k];
    part.start == From(ps, k) <= part.end <= |rows| &&
    (!Survives(p, part) ==> Filtered(p, fields, rows[part.start..part.end]) == [])
  }

  ghost predicate SafeToSkip(p: Predicate, fields: seq<Field>, rows: seq<Row>, ps: seq<Partition>) {
    forall k :: 0 <= k < |ps| ==> SafeAt(p, fields, rows, ps, k)
  }

  lemma PartitionsAreSafe(p: Predicate, fields: seq<Field>, rows: seq<Row>)
    requires ValidRows(fields, rows)
    ensures SafeToSkip(p, fields, rows, PartitionsOf(fields, rows))
  {
    var ps := PartitionsOf(fields, rows);
    forall k | 0 <= k < |ps|
      ensures SafeAt(p, fields, rows, ps, k)
    {
      OnePartition(p, fields, rows, k);
      PartitionFits(|rows|, k);
    }
  }

  lemma {:induction false} PartitionsSoFar(p: Predicate, fields: seq<Field>, rows: seq<Row>, ps: seq<Partition>, k: nat)
    requires SafeToSkip(p, fields, rows, ps) && k <= |ps|
    ensures From(ps, k) <= |rows|
    ensures Filtered(p, fields, Scanned(rows, Ranges(p, ps[..k]))) == Filtered(p, fields, rows[..From(ps, k)])
  {
    if k > 0 {
      var j: nat := k - 1;
      PartitionsSoFar(p, fields, rows, ps, j);
      assert SafeAt(p, fields, rows, ps, j);
      RangesSnoc(p, ps, j);
      OneMorePartition(p, fields, rows, Ranges(p, ps[..j]), ps[j]);
    }
  }

  lemma LastEnd(fields: seq<Field>, rows: seq<Row>)
    ensures PartitionsOf(fields, rows) == [] <==> rows == []
    ensures rows != [] ==> PartitionsOf(fields, rows)[|PartitionsOf(fields, rows)| - 1].end == |rows|
  {
  }

  /** The rows the filter sees: the pruned ranges, or the whole table. */
  function Seen(p: Predicate, parts: seq<Partition>, rows: seq<Row>): seq<Row> {
    match TryPrune(p, parts) case None => rows case Some(ranges) => Scanned(rows, ranges)
  }

  lemma AllPartitions(p: Predicate, fields: seq<Field>, rows: seq<Row>, ps: seq<Partition>)
    requires SafeToSkip(p, fields, rows, ps)
    requires if ps == [] then rows == [] else ps[|ps| - 1].end == |rows|
    ensures Filtered(p, fields, Scanned(rows, Ranges(p, ps))) == Filtered(p, fields, rows)
  {
    PartitionsSoFar(p, fields, rows, ps, |ps|);
    assert ps[..|ps|] == ps && rows[..|rows|] == rows;
  }

  lemma {:induction false} RangesCount(p: Predicate, parts: seq<Partition>)
    ensures |Ranges(p, parts)| <= |parts|
    ensures |Ranges(p, parts)| == |parts| <==> forall k :: 0 <= k < |parts| ==> Survives(p, parts[k])
  {
    if parts != [] {
      var front := parts[..|parts| - 1];
      RangesCount(p, front);
      assert (forall k :: 0 <= k < |parts| ==> Survives(p, parts[k]))
             <==> Survives(p, parts[|parts| - 1]) && forall k :: 0 <= k < |front| ==> Survives(p, front[k]);
    }
  }

  /** The scan is pruned exactly when there are several partitions and one of them is ruled out. */
  lemma PrunesWhen(p: Predicate, parts: seq<Partition>)
    ensures TryPrune(p, parts).Some? <==> |parts| >= 2 && exists k :: 0 <= k < |parts| && !Survives(p, parts[k])
  {
    RangesCount(p, parts);
  }

  /** A partition of ordered values is ruled out exactly when one of its bounds fails a comparison asked of its values. */
  lemma RuledOutWhen(t: ValueType, op: Op, min: Value, max: Value, literal: Value)
    requires Orderable(t) && HasType(min, t) && HasType(max, t) && HasType(literal, t)
    ensures CouldMatch(op, min, max, literal) <==> Meets(if op == Lt || op == Le then min else max, op, literal)
  {
    OrderOfType(t, min, literal);
    OrderOfType(t, max, literal);
  }

  /** Pruning never changes the answer: the same rows are kept, in the same order. */
  lemma PruningKeepsAnswer(p: Predicate, fields: seq<Field>, rows: seq<Row>)
    requires ValidRows(fields, rows)
    ensures Filtered(p, fields, Seen(p, PartitionsOf(fields, rows), rows)) == Filtered(p, fields, rows)
  {
    PartitionsAreSafe(p, fields, rows);
    LastEnd(fields, rows);
    AllPartitions(p, fields, rows, PartitionsOf(fields, rows));
  }
}
