/**
 `Dataset` of `src/core/dataset_legacy.rs`: a table whose statistics and zone maps are fields kept in step
 with its rows.
 */
module Datasets {
  import opened Common
  import opened Values
  import opened ZoneMaps
  import opened Partitions
  import opened SortReuse

  /** A shared schema: two references are the same schema when their identities are. */
  datatype Schema = Schema(identity: nat, fields: seq<Field>)

  /** A row with the schema it was validated against. */
  datatype Tuple = Tuple(schema: Schema, values: Row)

  class Dataset {
    const schema: Schema
    var rows: seq<Row>
    var rowCount: nat
    var columnStats: StatsMap
    var partitions: seq<Partition>

    ghost predicate Valid()
      reads this
    {
      ValidRows(schema.fields, rows)
    }

    /** Everything derived is what a full recomputation would give. */
    ghost predicate Synced()
      reads this
    {
      rowCount == |rows| && columnStats == StatsOf(schema.fields, rows) && partitions == PartitionsOf(schema.fields, rows)
    }

    constructor (schema: Schema)
      ensures this.schema == schema && rows == [] && Valid() && Synced()
    {
      this.schema := schema;
      rows, rowCount, columnStats, partitions := [], 0, map[], [];
      new;
      UpdateStats();
      assert PartitionsOf(schema.fields, []) == [];
    }

    /** `ColumnStats::compute` over a stretch of rows. */
    method ComputeStats(f: Field, stretch: seq<Row>) returns (stats: ColumnStats)
      ensures stats == Compute(f.valueType, Column(schema.fields, stretch, f.name))
    {
      stats := Empty(f.valueType);
      for r := 0 to |stretch|
        invariant stats == Compute(f.valueType, Column(schema.fields, stretch[..r], f.name))
      {
        assert stretch[..r + 1] == stretch[..r] + [stretch[r]];
        ColumnSnoc(schema.fields, stretch[..r], stretch[r], f.name);
        ComputeSnoc(f.valueType, Column(schema.fields, stretch[..r], f.name), Cell(schema.fields, stretch[r], f.name));
        stats := MergeValue(stats, Cell(schema.fields, stretch[r], f.name));
      }
      assert stretch[..|stretch|] == stretch;
    }

    /** One summary per column name, over a stretch of rows. */
    method SummarizeColumns(stretch: seq<Row>) returns (stats: StatsMap)
      ensures stats == StatsOf(schema.fields, stretch)
    {
      stats := map[];
      for i := 0 to |schema.fields|
        invariant stats == StatsUpTo(schema.fields, i, stretch)
      {
        var column := ComputeStats(schema.fields[i], stretch);
        stats := stats[schema.fields[i].name := column];
      }
      StatsUpToAll(schema.fields, stretch);
    }

    /** `update_stats`. */
    method UpdateStats()
      modifies `rowCount, `columnStats
      ensures rowCount == |rows| && columnStats == StatsOf(schema.fields, rows)
    {
      rowCount := |rows|;
      columnStats := SummarizeColumns(rows);
    }

    /** `rebuild_partitions`. */
    method RebuildPartitions()
      modifies `partitions
      ensures partitions == PartitionsOf(schema.fields, rows)
    {
      partitions := [];
      var start := 0;
      while start < |rows|
        invariant start == |rows| || start == BATCH_SIZE * |partitions|
        invariant start <= |rows| && |partitions| == PartitionCount(start)
        invariant |partitions| <= PartitionCount(|rows|) && partitions == PartitionsOf(schema.fields, rows)[..|partitions|]
      {
        var end := if start + BATCH_SIZE <= |rows| then start + BATCH_SIZE else |rows|;
        var stats := SummarizeColumns(rows[start..end]);
        NextPartition(schema.fields, rows, |partitions|, start, end);
        partitions := partitions + [Partition(start, end, stats)];
        start := end;
      }
    }

    /** `refresh_stats`. */
    method RefreshStats()
      modifies `rowCount, `columnStats, `partitions
      ensures Synced()
    {
      UpdateStats();
      RebuildPartitions();
    }

    /** `add_row`: merge one row instead of rescanning; refused for a row of another schema object. */
    method AddRow(t: Tuple) returns (ok: bool)
      requires Valid() && ValidRow(t.schema.fields, t.values)
      requires t.schema.identity == schema.identity ==> t.schema == schema
      modifies `rows, `rowCount, `columnStats, `partitions
      ensures ok <==> t.schema.identity == schema.identity
      ensures !ok ==> rows == old(rows) && rowCount == old(rowCount) && columnStats == old(columnStats) && partitions == old(partitions)
      ensures ok ==> rows == old(rows) + [t.values] && Valid() && rowCount == old(rowCount) + 1
      ensures ok ==> columnStats == AddTo(schema.fields, |schema.fields|, old(columnStats), t.values)
      ensures ok ==> partitions == AddToPartitions(schema.fields, old(partitions), t.values, |old(rows)|)
      ensures old(Synced()) && NoRepeatedNullable(schema.fields) ==> Synced()
    {
      if t.schema.identity != schema.identity {
        return false;
      }
      if NoRepeatedNullable(schema.fields) {
        AddRowAgrees(schema.fields, rows, t.values);
        AddToPartitionsAgrees(schema.fields, rows, t.values);
      }
      rowCount := rowCount + 1;
      columnStats := MergeRow(columnStats, t.values);
      partitions := ExtendPartitions(partitions, t.values, |rows|);
      rows := rows + [t.values];
      return true;
    }

    /** The row joins the last partition, or opens the next one when that is full. */
    method ExtendPartitions(ps: seq<Partition>, row: Row, rowId: nat) returns (extended: seq<Partition>)
      ensures extended == AddToPartitions(schema.fields, ps, row, rowId)
    {
      if ps == [] || ps[|ps| - 1].end - ps[|ps| - 1].start >= BATCH_SIZE {
        var stats: StatsMap := map[];
        for i := 0 to |schema.fields|
          invariant stats == FreshStats(schema.fields, i, row)
        {
          var f := schema.fields[i];
          stats := stats[f.name := MergeValue(Empty(f.valueType), Cell(schema.fields, row, f.name))];
        }
        extended := ps + [Partition(rowId, rowId + 1, stats)];
      } else {
        var last := ps[|ps| - 1];
        var stats := MergeRow(last.stats, row);
        extended := ps[|ps| - 1 := Partition(last.start, rowId + 1, stats)];
      }
    }

    method MergeRow(stats: StatsMap, row: Row) returns (merged: StatsMap)
      ensures merged == AddTo(schema.fields, |schema.fields|, stats, row)
    {
      merged := stats;
      for i := 0 to |schema.fields|
        invariant merged == AddTo(schema.fields, i, stats, row)
      {
        var f := schema.fields[i];
        var known := if f.name in merged then merged[f.name] else Empty(f.valueType);
        merged := merged[f.name := MergeValue(known, Cell(schema.fields, row, f.name))];
      }
    }

    /** `filter_batched`: batch by batch, the same rows as one pass. */
    method FilterBatched(keep: Row -> bool) returns (d: Dataset)
      requires Valid()
      ensures fresh(d) && d.schema == schema && d.rows == KeepWhere(rows, keep) && d.Valid() && d.Synced()
    {
      var kept: seq<Row> := [];
      var start := 0;
      while start < |rows|
        invariant start <= |rows| && kept == KeepWhere(rows[..start], keep)
      {
        var end := if start + BATCH_SIZE <= |rows| then start + BATCH_SIZE else |rows|;
        for r := start to end
          invariant kept == KeepWhere(rows[..r], keep)
        {
          assert rows[..r + 1][..r] == rows[..r];
          if keep(rows[r]) {
            kept := kept + [rows[r]];
          }
        }
        start := end;
      }
      assert rows[..|rows|] == rows;
      KeptRowsAreValid(schema.fields, rows, keep);
      d := new Dataset(schema);
      d.rows := kept;
      d.RefreshStats();
    }

    /** `sort_by`: the zone maps are rebuilt, the column statistics reused. */
    method SortBy(c: string, ascending: bool) returns (r: Result<Dataset>)
      requires Valid()
      ensures r.Ok? <==> c in Names(schema.fields)
      ensures r.Ok? ==> fresh(r.value) && r.value.schema == schema && r.value.Valid()
      ensures r.Ok? ==> r.value.rows == SortRows(schema.fields, c, ascending, rows)
      ensures r.Ok? ==> r.value.rowCount == rowCount && r.value.columnStats == columnStats
      ensures r.Ok? ==> r.value.partitions == PartitionsOf(schema.fields, r.value.rows)
      ensures r.Ok? && Synced() && SortSafe(schema.fields, c) ==> r.value.Synced()
    {
      if c !in Names(schema.fields) {
        return Err("Column not found");
      }
      var sorted := SortRows(schema.fields, c, ascending, rows);
      SortedRowsAreValid(schema.fields, c, ascending, rows);
      SafeSortKeepsStats(schema.fields, c, ascending, rows, sorted);
      var d := new Dataset(schema);
      d.rows, d.rowCount, d.columnStats := sorted, rowCount, columnStats;
      d.RebuildPartitions();
      return Ok(d);
    }
  }

  /** `with_rows`: every row must have the schema's fields, whichever object holds them. */
  method WithRows(schema: Schema, tuples: seq<Tuple>) returns (r: Result<Dataset>)
    requires forall i :: 0 <= i < |tuples| ==> ValidRow(tuples[i].schema.fields, tuples[i].values)
    ensures r.Ok? <==> forall i :: 0 <= i < |tuples| ==> tuples[i].schema.fields == schema.fields
    ensures r.Ok? ==> fresh(r.value) && r.value.schema == schema && r.value.Valid() && r.value.Synced()
    ensures r.Ok? ==> |r.value.rows| == |tuples| && forall i :: 0 <= i < |tuples| ==> r.value.rows[i] == tuples[i].values
  {
    var rows: seq<Row> := [];
    for i := 0 to |tuples|
      invariant |rows| == i && forall j :: 0 <= j < i ==> tuples[j].schema.fields == schema.fields && rows[j] == tuples[j].values
    {
      if tuples[i].schema.fields != schema.fields {
        return Err("Row has incompatible schema");
      }
      rows := rows + [tuples[i].values];
    }
    var d := new Dataset(schema);
    d.rows := rows;
    d.RefreshStats();
    return Ok(d);
  }

  lemma SafeSortKeepsStats(fields: seq<Field>, c: string, ascending: bool, rows: seq<Row>, sorted: seq<Row>)
    requires c in Names(fields) && ValidRows(fields, rows) && sorted == SortRows(fields, c, ascending, rows)
    ensures SortSafe(fields, c) ==> StatsOf(fields, sorted) == StatsOf(fields, rows)
  {
    if SortSafe(fields, c) {
      SortKeepsStats(fields, c, ascending, rows);
    }
  }

  lemma NextPartition(fields: seq<Field>, rows: seq<Row>, k: nat, start: nat, end: nat)
    requires start == BATCH_SIZE * k < |rows| && end == if start + BATCH_SIZE <= |rows| then start + BATCH_SIZE else |rows|
    ensures k < PartitionCount(|rows|) && PartitionCount(end) == k + 1
    ensures PartitionsOf(fields, rows)[..k + 1]
            == PartitionsOf(fields, rows)[..k] + [Partition(start, end, StatsOf(fields, rows[start..end]))]
  {
  }
}
