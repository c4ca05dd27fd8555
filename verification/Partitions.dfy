/**
 Zone maps over whole tables (`src/core/dataset_legacy.rs`): the partitions a full rebuild gives, the
 row-by-row maintenance of `add_row`, and exactly when the two agree.
 */
module Partitions {
  import opened Common
  import opened Values
  import opened ZoneMaps

  datatype Field = Field(name: string, valueType: ValueType, nullable: bool)

  type Row = seq<Value>

  /** The lookup table of a schema: the last field of a name wins. */
  function FieldIndex(fields: seq<Field>, name: string): (i: Option<nat>)
    ensures i.Some? ==> i.value < |fields| && fields[i.value].name == name
    ensures i.Some? ==> forall j :: i.value < j < |fields| ==> fields[j].name != name
    ensures i.None? ==> forall j :: 0 <= j < |fields| ==> fields[j].name != name
  {
    if fields == [] then None
    else if fields[|fields| - 1].name == name then Some(|fields| - 1)
    else FieldIndex(fields[..|fields| - 1], name)
  }

  predicate Compatible(f: Field, v: Value) {
    if v.Null? then f.nullable else HasType(v, f.valueType)
  }

  ghost predicate ValidRow(fields: seq<Field>, row: Row) {
    |row| == |fields| && forall i :: 0 <= i < |fields| ==> Compatible(fields[i], row[i])
  }

  ghost predicate ValidRows(fields: seq<Field>, rows: seq<Row>) {
    forall r :: 0 <= r < |rows| ==> ValidRow(fields, rows[r])
  }

  function Names(fields: seq<Field>): set<string> {
    set i | 0 <= i < |fields| :: fields[i].name
  }

  lemma NameHasIndex(fields: seq<Field>, name: string)
    ensures FieldIndex(fields, name).Some? <==> name in Names(fields)
  {
  }

  /** `row.get(name)` of a valid row. */
  function Cell(fields: seq<Field>, row: Row, name: string): Value {
    match FieldIndex(fields, name)
    case Some(i) => if i < |row| then row[i] else Null
    case None => Null
  }

  function Column(fields: seq<Field>, rows: seq<Row>, name: string): (c: seq<Value>)
    ensures |c| == |rows| && forall r :: 0 <= r < |rows| ==> c[r] == Cell(fields, rows[r], name)
  {
    seq(|rows|, r requires 0 <= r < |rows| => Cell(fields, rows[r], name))
  }

  function TypeOf(fields: seq<Field>, name: string): ValueType
    requires name in Names(fields)
  {
    NameHasIndex(fields, name);
    fields[FieldIndex(fields, name).value].valueType
  }

  function FieldStats(fields: seq<Field>, rows: seq<Row>, name: string): ColumnStats
    requires name in Names(fields)
  {
    Compute(TypeOf(fields, name), Column(fields, rows, name))
  }

  type StatsMap = map<string, ColumnStats>

  /** What a full recomputation gives. */
  function StatsOf(fields: seq<Field>, rows: seq<Row>): (m: StatsMap)
    ensures m.Keys == Names(fields)
  {
    map name | name in Names(fields) :: FieldStats(fields, rows, name)
  }

  lemma ColumnIsTyped(fields: seq<Field>, rows: seq<Row>, name: string)
    requires ValidRows(fields, rows) && name in Names(fields)
    ensures ColumnOf(TypeOf(fields, name), Column(fields, rows, name))
  {
    NameHasIndex(fields, name);
    var i := FieldIndex(fields, name).value;
    forall r | 0 <= r < |rows|
      ensures Column(fields, rows, name)[r].Null? || HasType(Column(fields, rows, name)[r], TypeOf(fields, name))
    {
      assert ValidRow(fields, rows[r]) && Compatible(fields[i], rows[r][i]);
    }
  }

  // ---------------------------------------------------------------- merging one row

  function StatsFor(stats: StatsMap, f: Field): ColumnStats {
    if f.name in stats then stats[f.name] else Empty(f.valueType)
  }

  /** The loop of `add_row` over the first `k` fields. */
  function AddTo(fields: seq<Field>, k: nat, stats: StatsMap, row: Row): StatsMap
    requires k <= |fields|
  {
    if k == 0 then stats
    else
      var before := AddTo(fields, k - 1, stats, row);
      var f := fields[k - 1];
      before[f.name := MergeValue(StatsFor(before, f), Cell(fields, row, f.name))]
  }

  function Occurrences(fields: seq<Field>, k: nat, name: string): nat
    requires k <= |fields|
  {
    if k == 0 then 0 else Occurrences(fields, k - 1, name) + if fields[k - 1].name == name then 1 else 0
  }

  function MergeTimes(s: ColumnStats, v: Value, n: nat): ColumnStats {
    if n == 0 then s else MergeValue(MergeTimes(s, v, n - 1), v)
  }

  lemma {:induction false} MergeTimesIs(s: ColumnStats, v: Value, n: nat)
    requires n > 0
    ensures MergeTimes(s, v, n) == if v.Null? then s.(nullCount := s.nullCount + n) else MergeValue(s, v)
  {
    if n > 1 {
      MergeTimesIs(s, v, n - 1);
      MergeTwice(s, v);
    } else {
      assert MergeTimes(s, v, 0) == s;
    }
  }

  /** A column is merged once for each field of its name. */
  lemma {:induction false} AddToMergesTimes(fields: seq<Field>, k: nat, stats: StatsMap, row: Row, name: string)
    requires k <= |fields| && stats.Keys == Names(fields) && name in stats
    ensures AddTo(fields, k, stats, row).Keys == stats.Keys
    ensures AddTo(fields, k, stats, row)[name] == MergeTimes(stats[name], Cell(fields, row, name), Occurrences(fields, k, name))
  {
    if k > 0 {
      AddToMergesTimes(fields, k - 1, stats, row, name);
      assert fields[k - 1].name in Names(fields);
    }
  }

  lemma {:induction false} AddToKeys(fields: seq<Field>, k: nat, stats: StatsMap, row: Row)
    requires k <= |fields| && stats.Keys == Names(fields)
    ensures AddTo(fields, k, stats, row).Keys == stats.Keys
  {
    if k > 0 {
      AddToKeys(fields, k - 1, stats, row);
      assert fields[k - 1].name in Names(fields);
    }
  }

  lemma {:induction false} OccursAtLeastOnce(fields: seq<Field>, k: nat, i: nat)
    requires i < k <= |fields|
    ensures Occurrences(fields, k, fields[i].name) >= 1
  {
    if k - 1 != i {
      OccursAtLeastOnce(fields, k - 1, i);
    }
  }

  predicate Repeated(fields: seq<Field>, name: string) {
    Occurrences(fields, |fields|, name) > 1
  }

  lemma {:induction false} NoOccurrence(fields: seq<Field>, k: nat, name: string)
    requires k <= |fields| && Occurrences(fields, k, name) == 0
    ensures forall i :: 0 <= i < k ==> fields[i].name != name
  {
    if k > 0 {
      NoOccurrence(fields, k - 1, name);
    }
  }

  lemma ColumnSnoc(fields: seq<Field>, rows: seq<Row>, row: Row, name: string)
    ensures Column(fields, rows + [row], name) == Column(fields, rows, name) + [Cell(fields, row, name)]
  {
  }

  lemma ComputeSnoc(t: ValueType, vs: seq<Value>, v: Value)
    ensures Compute(t, vs + [v]) == MergeValue(Compute(t, vs), v)
  {
    assert (vs + [v])[..|vs|] == vs;
  }

  lemma FieldStatsSnoc(fields: seq<Field>, rows: seq<Row>, row: Row, name: string)
    requires name in Names(fields)
    ensures FieldStats(fields, rows + [row], name) == MergeValue(FieldStats(fields, rows, name), Cell(fields, row, name))
  {
    ColumnSnoc(fields, rows, row, name);
    ComputeSnoc(TypeOf(fields, name), Column(fields, rows, name), Cell(fields, row, name));
  }

  /** No repeated name belongs to a nullable column. Distinct names are the usual case. */
  ghost predicate NoRepeatedNullable(fields: seq<Field>) {
    forall name :: name in Names(fields) && Repeated(fields, name) ==> !IsNullable(fields, name)
  }

  predicate IsNullable(fields: seq<Field>, name: string) {
    match FieldIndex(fields, name) case Some(i) => fields[i].nullable case None => false
  }

  ghost predicate AddAgrees(fields: seq<Field>, rows: seq<Row>, row: Row) {
    AddTo(fields, |fields|, StatsOf(fields, rows), row) == StatsOf(fields, rows + [row])
  }

  lemma CellOfValid(fields: seq<Field>, row: Row, name: string)
    requires ValidRow(fields, row) && name in Names(fields)
    ensures Cell(fields, row, name).Null? ==> IsNullable(fields, name)
  {
    NameHasIndex(fields, name);
    var i := FieldIndex(fields, name).value;
    assert Compatible(fields[i], row[i]);
  }

  /** One column after `add_row`: right, unless a NULL was counted once for each field of its name. */
  lemma AddedColumn(fields: seq<Field>, rows: seq<Row>, row: Row, name: string)
    requires name in Names(fields)
    ensures AddTo(fields, |fields|, StatsOf(fields, rows), row).Keys == Names(fields)
    ensures AddTo(fields, |fields|, StatsOf(fields, rows), row)[name] == StatsOf(fields, rows + [row])[name]
            <==> !(Repeated(fields, name) && Cell(fields, row, name).Null?)
  {
    var n, v := Occurrences(fields, |fields|, name), Cell(fields, row, name);
    AddToMergesTimes(fields, |fields|, StatsOf(fields, rows), row, name);
    var i :| 0 <= i < |fields| && fields[i].name == name;
    OccursAtLeastOnce(fields, |fields|, i);
    MergeTimesIs(FieldStats(fields, rows, name), v, n);
    FieldStatsSnoc(fields, rows, row, name);
  }

  lemma AddRowAgrees(fields: seq<Field>, rows: seq<Row>, row: Row)
    requires ValidRow(fields, row) && NoRepeatedNullable(fields)
    ensures AddAgrees(fields, rows, row)
  {
    var added, all := AddTo(fields, |fields|, StatsOf(fields, rows), row), StatsOf(fields, rows + [row]);
    AddToKeys(fields, |fields|, StatsOf(fields, rows), row);
    forall name | name in Names(fields)
      ensures added[name] == all[name]
    {
      AddedColumn(fields, rows, row, name);
      CellOfValid(fields, row, name);
    }
  }

  function Default(f: Field): Value {
    if f.nullable then Null
    else match f.valueType
      case FloatType => Float(0.0)
      case Float64Type => Float64(0.0)
      case IntType => Int(0)
      case BoolType => Bool(false)
      case TextType => Text("")
      case UnorderedType(kind) => Unordered(kind, 0)
  }

  function DefaultRow(fields: seq<Field>): (r: Row)
    ensures |r| == |fields| && forall i :: 0 <= i < |fields| ==> r[i] == Default(fields[i])
  {
    seq(|fields|, i requires 0 <= i < |fields| => Default(fields[i]))
  }

  lemma DefaultRowIsValid(fields: seq<Field>)
    ensures ValidRow(fields, DefaultRow(fields))
  {
  }

  lemma RepeatedNullableDisagrees(fields: seq<Field>, name: string)
    requires name in Names(fields) && Repeated(fields, name) && IsNullable(fields, name)
    ensures !AddAgrees(fields, [], DefaultRow(fields))
  {
    var row := DefaultRow(fields);
    NameHasIndex(fields, name);
    assert Cell(fields, row, name).Null?;
    AddedColumn(fields, [], row, name);
  }

  /**
   Keeping the statistics row by row agrees with recomputing them, for every table and every row, exactly
   when no nullable column has a repeated name.
   */
  lemma AddRowAgreesIff(fields: seq<Field>)
    ensures (forall rows: seq<Row>, row: Row :: ValidRow(fields, row) ==> AddAgrees(fields, rows, row))
            <==> NoRepeatedNullable(fields)
  {
    if NoRepeatedNullable(fields) {
      forall rows: seq<Row>, row: Row | ValidRow(fields, row)
        ensures AddAgrees(fields, rows, row)
      {
        AddRowAgrees(fields, rows, row);
      }
    } else {
      var name :| name in Names(fields) && Repeated(fields, name) && IsNullable(fields, name);
      DefaultRowIsValid(fields);
      RepeatedNullableDisagrees(fields, name);
    }
  }

  // ---------------------------------------------------------------- partitions

  const BATCH_SIZE := 1024

  datatype Partition = Partition(start: nat, end: nat, stats: StatsMap)

  function PartitionCount(n: nat): nat {
    (n + BATCH_SIZE - 1) / BATCH_SIZE
  }

  function EndOf(n: nat, k: nat): nat {
    if BATCH_SIZE * (k + 1) <= n then BATCH_SIZE * (k + 1) else n
  }

  lemma PartitionFits(n: nat, k: nat)
    requires k < PartitionCount(n)
    ensures BATCH_SIZE * k < EndOf(n, k) <= n
  {
  }

  function PartitionAt(fields: seq<Field>, rows: seq<Row>, k: nat): Partition
    requires k < PartitionCount(|rows|)
  {
    PartitionFits(|rows|, k);
    Partition(BATCH_SIZE * k, EndOf(|rows|, k), StatsOf(fields, rows[BATCH_SIZE * k..EndOf(|rows|, k)]))
  }

  /** What `rebuild_partitions` gives. */
  function PartitionsOf(fields: seq<Field>, rows: seq<Row>): (ps: seq<Partition>)
    ensures |ps| == PartitionCount(|rows|) && forall k :: 0 <= k < |ps| ==> ps[k] == PartitionAt(fields, rows, k)
  {
    seq(PartitionCount(|rows|), k requires 0 <= k < PartitionCount(|rows|) => PartitionAt(fields, rows, k))
  }

  /** The partitions tile the rows: every row lies in exactly one, and none is larger than a batch. */
  lemma PartitionsTile(fields: seq<Field>, rows: seq<Row>, r: nat, k: nat)
    requires r < |rows| && k < |PartitionsOf(fields, rows)|
    ensures r / BATCH_SIZE < |PartitionsOf(fields, rows)|
    ensures PartitionsOf(fields, rows)[k].start <= r < PartitionsOf(fields, rows)[k].end <==> k == r / BATCH_SIZE
    ensures 0 < PartitionsOf(fields, rows)[k].end - PartitionsOf(fields, rows)[k].start <= BATCH_SIZE
    ensures k + 1 < |PartitionsOf(fields, rows)| ==> PartitionsOf(fields, rows)[k].end == PartitionsOf(fields, rows)[k + 1].start
  {
    PartitionFits(|rows|, k);
  }

  /** Statistics whose bounds are values of the type on either side of `v`. */
  ghost predicate Encloses(s: ColumnStats, t: ValueType, v: Value) {
    s.min.Some? && s.max.Some? && HasType(s.min.value, t) && HasType(s.max.value, t) &&
    HasType(v, t) && AtMost(s.min.value, v) && AtMost(v, s.max.value)
  }

  lemma BoundsOfChunk(fields: seq<Field>, chunk: seq<Row>, name: string, r: nat)
    requires ValidRows(fields, chunk) && name in Names(fields) && Orderable(TypeOf(fields, name))
    requires r < |chunk| && !Cell(fields, chunk[r], name).Null?
    ensures Encloses(StatsOf(fields, chunk)[name], TypeOf(fields, name), Cell(fields, chunk[r], name))
  {
    var column := Column(fields, chunk, name);
    ColumnIsTyped(fields, chunk, name);
    StatsDescribe(TypeOf(fields, name), column);
    assert column[r] == Cell(fields, chunk[r], name);
  }

  lemma SliceIsValid(fields: seq<Field>, rows: seq<Row>, from: nat, to: nat)
    requires ValidRows(fields, rows) && from <= to <= |rows|
    ensures ValidRows(fields, rows[from..to])
  {
  }

  /** Each non-null value of an ordered column lies within the bounds of its partition. */
  lemma ZoneMapBounds(fields: seq<Field>, rows: seq<Row>, name: string, k: nat, r: nat)
    requires ValidRows(fields, rows) && name in Names(fields) && Orderable(TypeOf(fields, name))
    requires k < |PartitionsOf(fields, rows)|
    requires PartitionsOf(fields, rows)[k].start <= r < PartitionsOf(fields, rows)[k].end <= |rows|
    requires !Cell(fields, rows[r], name).Null?
    ensures Encloses(PartitionsOf(fields, rows)[k].stats[name], TypeOf(fields, name), Cell(fields, rows[r], name))
  {
    var p := PartitionAt(fields, rows, k);
    SliceIsValid(fields, rows, p.start, p.end);
    assert rows[p.start..p.end][r - p.start] == rows[r];
    BoundsOfChunk(fields, rows[p.start..p.end], name, r - p.start);
  }

  /** The partition that `add_row` opens for one row. */
  function FreshStats(fields: seq<Field>, k: nat, row: Row): StatsMap
    requires k <= |fields|
  {
    if k == 0 then map[]
    else
      var f := fields[k - 1];
      FreshStats(fields, k - 1, row)[f.name := MergeValue(Empty(f.valueType), Cell(fields, row, f.name))]
  }

  /** The statistics loop over the first `k` fields: a later field of the same name replaces an earlier one. */
  function StatsUpTo(fields: seq<Field>, k: nat, rows: seq<Row>): StatsMap
    requires k <= |fields|
  {
    if k == 0 then map[]
    else
      var f := fields[k - 1];
      StatsUpTo(fields, k - 1, rows)[f.name := Compute(f.valueType, Column(fields, rows, f.name))]
  }

  lemma {:induction false} StatsUpToKeys(fields: seq<Field>, k: nat, rows: seq<Row>, name: string)
    requires k <= |fields|
    ensures name in StatsUpTo(fields, k, rows) <==> exists i :: 0 <= i < k && fields[i].name == name
  {
    if k > 0 {
      StatsUpToKeys(fields, k - 1, rows, name);
    }
  }

  /** The last field of a name decides. */
  lemma {:induction false} StatsUpToAt(fields: seq<Field>, k: nat, rows: seq<Row>, i: nat)
    requires i < k <= |fields| && forall j :: i < j < k ==> fields[j].name != fields[i].name
    ensures fields[i].name in StatsUpTo(fields, k, rows)
    ensures StatsUpTo(fields, k, rows)[fields[i].name] == Compute(fields[i].valueType, Column(fields, rows, fields[i].name))
  {
    if k - 1 != i {
      StatsUpToAt(fields, k - 1, rows, i);
    }
  }

  lemma StatsUpToAll(fields: seq<Field>, rows: seq<Row>)
    ensures StatsUpTo(fields, |fields|, rows) == StatsOf(fields, rows)
  {
    var a, b := StatsUpTo(fields, |fields|, rows), StatsOf(fields, rows);
    forall name
      ensures name in a <==> name in Names(fields)
      ensures name in Names(fields) ==> a[name] == b[name]
    {
      StatsUpToKeys(fields, |fields|, rows, name);
      NameHasIndex(fields, name);
      if name in Names(fields) {
        StatsUpToAt(fields, |fields|, rows, FieldIndex(fields, name).value);
      }
    }
    assert a.Keys == b.Keys;
  }

  lemma SingleRowStats(fields: seq<Field>, row: Row, t: ValueType, name: string)
    ensures Compute(t, Column(fields, [row], name)) == MergeValue(Empty(t), Cell(fields, row, name))
  {
    assert Column(fields, [row], name) == [] + [Cell(fields, row, name)];
    ComputeSnoc(t, [], Cell(fields, row, name));
  }

  lemma {:induction false} FreshStatsAre(fields: seq<Field>, k: nat, row: Row)
    requires k <= |fields|
    ensures FreshStats(fields, k, row) == StatsUpTo(fields, k, [row])
  {
    if k > 0 {
      FreshStatsAre(fields, k - 1, row);
      SingleRowStats(fields, row, fields[k - 1].valueType, fields[k - 1].name);
    }
  }

  lemma FreshStatsAreStats(fields: seq<Field>, row: Row)
    ensures FreshStats(fields, |fields|, row) == StatsOf(fields, [row])
  {
    FreshStatsAre(fields, |fields|, row);
    StatsUpToAll(fields, [row]);
  }

  /** What `add_row` does to the partitions. */
  function AddToPartitions(fields: seq<Field>, ps: seq<Partition>, row: Row, rowId: nat): seq<Partition> {
    if ps == [] || ps[|ps| - 1].end - ps[|ps| - 1].start >= BATCH_SIZE then
      ps + [Partition(rowId, rowId + 1, FreshStats(fields, |fields|, row))]
    else
      var last := ps[|ps| - 1];
      ps[|ps| - 1 := Partition(last.start, rowId + 1, AddTo(fields, |fields|, last.stats, row))]
  }

  lemma EarlierPartitionsStay(fields: seq<Field>, rows: seq<Row>, row: Row, k: nat)
    requires k < PartitionCount(|rows|) && BATCH_SIZE * (k + 1) <= |rows|
    ensures PartitionAt(fields, rows + [row], k) == PartitionAt(fields, rows, k)
  {
    var all := rows + [row];
    assert all[BATCH_SIZE * k..BATCH_SIZE * (k + 1)] == rows[BATCH_SIZE * k..BATCH_SIZE * (k + 1)];
  }

  lemma CountWhenFull(n: nat)
    requires n % BATCH_SIZE == 0
    ensures PartitionCount(n + 1) == PartitionCount(n) + 1 && BATCH_SIZE * PartitionCount(n) == n
    ensures EndOf(n + 1, PartitionCount(n)) == n + 1
  {
  }

  lemma CountWhenOpen(n: nat)
    requires n % BATCH_SIZE != 0
    ensures PartitionCount(n + 1) == PartitionCount(n) > 0
    ensures var k := PartitionCount(n) - 1;
            BATCH_SIZE * k <= n < BATCH_SIZE * (k + 1) && EndOf(n, k) == n && EndOf(n + 1, k) == n + 1
  {
  }

  lemma LastPartitionOpens(fields: seq<Field>, rows: seq<Row>, row: Row)
    requires |rows| % BATCH_SIZE == 0
    ensures PartitionCount(|rows| + 1) == PartitionCount(|rows|) + 1
    ensures PartitionAt(fields, rows + [row], PartitionCount(|rows|)) == Partition(|rows|, |rows| + 1, FreshStats(fields, |fields|, row))
  {
    FreshStatsAreStats(fields, row);
    CountWhenFull(|rows|);
    assert (rows + [row])[|rows|..|rows| + 1] == [row];
  }

  lemma SliceSnoc<T>(s: seq<T>, x: T, from: nat)
    requires from <= |s|
    ensures s[from..|s|] + [x] == (s + [x])[from..|s| + 1]
  {
  }

  lemma GrownStats(fields: seq<Field>, rows: seq<Row>, row: Row, from: nat)
    requires ValidRow(fields, row) && NoRepeatedNullable(fields) && from <= |rows|
    ensures StatsOf(fields, (rows + [row])[from..|rows| + 1]) == AddTo(fields, |fields|, StatsOf(fields, rows[from..|rows|]), row)
  {
    SliceSnoc(rows, row, from);
    AddRowAgrees(fields, rows[from..|rows|], row);
  }

  lemma PartitionAtIs(fields: seq<Field>, rows: seq<Row>, k: nat, from: nat, to: nat)
    requires k < PartitionCount(|rows|) && from == BATCH_SIZE * k && to == EndOf(|rows|, k)
    ensures from <= to <= |rows| && PartitionAt(fields, rows, k) == Partition(from, to, StatsOf(fields, rows[from..to]))
  {
    PartitionFits(|rows|, k);
  }

  lemma OpenPartition(fields: seq<Field>, rows: seq<Row>, n: nat, k: nat, from: nat)
    requires |rows| == n && n % BATCH_SIZE != 0 && k + 1 == PartitionCount(n) && from == BATCH_SIZE * k
    ensures from <= n < from + BATCH_SIZE && PartitionAt(fields, rows, k) == Partition(from, n, StatsOf(fields, rows[from..n]))
  {
    CountWhenOpen(n);
    PartitionAtIs(fields, rows, k, from, n);
  }

  lemma OpenedPartition(fields: seq<Field>, all: seq<Row>, n: nat, k: nat, from: nat)
    requires |all| == n + 1 && n % BATCH_SIZE != 0 && k + 1 == PartitionCount(n) && from == BATCH_SIZE * k
    ensures PartitionCount(n + 1) == PartitionCount(n) && from <= n + 1
    ensures PartitionAt(fields, all, k) == Partition(from, n + 1, StatsOf(fields, all[from..n + 1]))
  {
    CountWhenOpen(n);
    PartitionAtIs(fields, all, k, from, n + 1);
  }

  lemma LastPartitionGrows(fields: seq<Field>, rows: seq<Row>, row: Row, k: nat, last: Partition, n: nat, all: seq<Row>)
    requires ValidRow(fields, row) && NoRepeatedNullable(fields) && |rows| == n && all == rows + [row]
    requires n % BATCH_SIZE != 0 && k + 1 == PartitionCount(n) && last == PartitionAt(fields, rows, k)
    ensures PartitionCount(n + 1) == PartitionCount(n) && last.end - last.start < BATCH_SIZE
    ensures PartitionAt(fields, all, k) == Partition(last.start, n + 1, AddTo(fields, |fields|, last.stats, row))
  {
    var from := BATCH_SIZE * k;
    OpenPartition(fields, rows, n, k, from);
    OpenedPartition(fields, all, n, k, from);
    GrownStats(fields, rows, row, from);
  }

  lemma OpeningAgrees(fields: seq<Field>, rows: seq<Row>, row: Row)
    requires |rows| % BATCH_SIZE == 0
    ensures PartitionsOf(fields, rows) + [Partition(|rows|, |rows| + 1, FreshStats(fields, |fields|, row))]
            == PartitionsOf(fields, rows + [row])
  {
    var ps, qs := PartitionsOf(fields, rows), PartitionsOf(fields, rows + [row]);
    CountWhenFull(|rows|);
    LastPartitionOpens(fields, rows, row);
    forall k | 0 <= k < |ps|
      ensures qs[k] == ps[k]
    {
      EarlierPartitionsStay(fields, rows, row, k);
    }
  }

  lemma GrowingAgrees(fields: seq<Field>, rows: seq<Row>, row: Row)
    requires ValidRow(fields, row) && NoRepeatedNullable(fields) && |rows| % BATCH_SIZE != 0
    ensures var ps := PartitionsOf(fields, rows);
            ps != [] &&
            var last := ps[|ps| - 1];
            last.end - last.start < BATCH_SIZE &&
            ps[|ps| - 1 := Partition(last.start, |rows| + 1, AddTo(fields, |fields|, last.stats, row))]
            == PartitionsOf(fields, rows + [row])
  {
    var ps, qs := PartitionsOf(fields, rows), PartitionsOf(fields, rows + [row]);
    CountWhenOpen(|rows|);
    LastPartitionGrows(fields, rows, row, |ps| - 1, ps[|ps| - 1], |rows|, rows + [row]);
    forall k | 0 <= k < |ps| - 1
      ensures qs[k] == ps[k]
    {
      EarlierPartitionsStay(fields, rows, row, k);
    }
  }

  /** Keeping the partitions row by row agrees with rebuilding them. */
  lemma AddToPartitionsAgrees(fields: seq<Field>, rows: seq<Row>, row: Row)
    requires ValidRow(fields, row) && NoRepeatedNullable(fields)
    ensures AddToPartitions(fields, PartitionsOf(fields, rows), row, |rows|) == PartitionsOf(fields, rows + [row])
  {
    if |rows| % BATCH_SIZE == 0 {
      CountWhenFull(|rows|);
      OpeningAgrees(fields, rows, row);
    } else {
      GrowingAgrees(fields, rows, row);
    }
  }

  // ---------------------------------------------------------------- filtering

  function KeepWhere(rows: seq<Row>, keep: Row -> bool): seq<Row> {
    if rows == [] then []
    else KeepWhere(rows[..|rows| - 1], keep) + if keep(rows[|rows| - 1]) then [rows[|rows| - 1]] else []
  }

  /** `at` names rows in order: exactly those of the first `n` that are kept; `kept` are these rows. */
  ghost predicate NamesKept(rows: seq<Row>, keep: Row -> bool, n: nat, at: seq<nat>, kept: seq<Row>)
    requires n <= |rows|
  {
    && (forall i, j :: 0 <= i < j < |at| ==> at[i] < at[j])
    && |at| == |kept| && (forall m :: 0 <= m < |at| ==> at[m] < n && kept[m] == rows[at[m]])
    && forall r: nat :: r in at <==> r < n && keep(rows[r])
  }

  lemma OneMoreKept(rows: seq<Row>, keep: Row -> bool, n: nat, at: seq<nat>, kept: seq<Row>)
    requires n < |rows| && NamesKept(rows, keep, n, at, kept) && keep(rows[n])
    ensures NamesKept(rows, keep, n + 1, at + [n], kept + [rows[n]])
  {
    forall r: nat
      ensures r in at + [n] <==> r < n + 1 && keep(rows[r])
    {
      assert r in at + [n] <==> r in at || r == n;
    }
  }

  lemma KeepNext(rows: seq<Row>, keep: Row -> bool, n: nat)
    requires n < |rows|
    ensures KeepWhere(rows[..n + 1], keep) == KeepWhere(rows[..n], keep) + if keep(rows[n]) then [rows[n]] else []
  {
    assert rows[..n + 1][..n] == rows[..n];
  }

  lemma {:induction false} KeepFirst(rows: seq<Row>, keep: Row -> bool, n: nat) returns (at: seq<nat>)
    requires n <= |rows|
    ensures NamesKept(rows, keep, n, at, KeepWhere(rows[..n], keep))
  {
    if n == 0 {
      at := [];
    } else {
      at := KeepFirst(rows, keep, n - 1);
      KeepNext(rows, keep, n - 1);
      if keep(rows[n - 1]) {
        OneMoreKept(rows, keep, n - 1, at, KeepWhere(rows[..n - 1], keep));
        at := at + [n - 1];
      }
    }
  }

  /** The rows kept are exactly those that satisfy the predicate, in order. */
  lemma KeepWhereIs(rows: seq<Row>, keep: Row -> bool) returns (at: seq<nat>)
    ensures NamesKept(rows, keep, |rows|, at, KeepWhere(rows, keep))
  {
    at := KeepFirst(rows, keep, |rows|);
    assert rows[..|rows|] == rows;
  }

  lemma {:induction false} KeepWhereConcat(a: seq<Row>, b: seq<Row>, keep: Row -> bool)
    ensures KeepWhere(a + b, keep) == KeepWhere(a, keep) + KeepWhere(b, keep)
  {
    if b == [] {
      assert a + b == a;
    } else {
      assert (a + b)[..|a + b| - 1] == a + b[..|b| - 1];
      KeepWhereConcat(a, b[..|b| - 1], keep);
    }
  }

  lemma {:induction false} KeptRowsAreValid(fields: seq<Field>, rows: seq<Row>, keep: Row -> bool)
    requires ValidRows(fields, rows)
    ensures ValidRows(fields, KeepWhere(rows, keep))
  {
    if rows != [] {
      KeptRowsAreValid(fields, rows[..|rows| - 1], keep);
    }
  }
}
