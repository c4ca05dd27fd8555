/**
 Column statistics and partition zone maps of `src/core/dataset_legacy.rs`: what they say about the rows,
 and when keeping them row by row agrees with computing them again.
 */
module ZoneMaps {
  import opened Common
  import opened Values

  // ---------------------------------------------------------------- statistics of one column

  datatype ColumnStats = ColumnStats(valueType: ValueType, nullCount: nat, min: Option<Value>, max: Option<Value>)

  function Empty(t: ValueType): ColumnStats {
    ColumnStats(t, 0, None, None)
  }

  function MergeValue(s: ColumnStats, v: Value): ColumnStats {
    if v.Null? then s.(nullCount := s.nullCount + 1)
    else s.(
      min := if s.min.Some? && Compare(v, s.min.value) != Some(Less) then s.min else Some(v),
      max := if s.max.Some? && Compare(v, s.max.value) != Some(Greater) then s.max else Some(v))
  }

  function Merged(s: ColumnStats, vs: seq<Value>): ColumnStats {
    if vs == [] then s else MergeValue(Merged(s, vs[..|vs| - 1]), vs[|vs| - 1])
  }

  function Compute(t: ValueType, vs: seq<Value>): ColumnStats {
    Merged(Empty(t), vs)
  }

  function CountNulls(vs: seq<Value>): nat {
    if vs == [] then 0 else CountNulls(vs[..|vs| - 1]) + if vs[|vs| - 1].Null? then 1 else 0
  }

  function FirstNonNull(vs: seq<Value>): Option<Value> {
    if vs == [] then None
    else if FirstNonNull(vs[..|vs| - 1]).Some? then FirstNonNull(vs[..|vs| - 1])
    else if vs[|vs| - 1].Null? then None
    else Some(vs[|vs| - 1])
  }

  ghost predicate ColumnOf(t: ValueType, vs: seq<Value>) {
    forall i :: 0 <= i < |vs| ==> NullOr(vs[i], t)
  }

  /** `m` is a value of the column that is at most every other. */
  ghost predicate IsMin(vs: seq<Value>, m: Option<Value>) {
    (m.Some? ==> !m.value.Null? && m.value in vs) &&
    forall i :: 0 <= i < |vs| && !vs[i].Null? ==> m.Some? && AtMost(m.value, vs[i])
  }

  ghost predicate IsMax(vs: seq<Value>, m: Option<Value>) {
    (m.Some? ==> !m.value.Null? && m.value in vs) &&
    forall i :: 0 <= i < |vs| && !vs[i].Null? ==> m.Some? && AtMost(vs[i], m.value)
  }

  lemma MinStep(t: ValueType, vs: seq<Value>, v: Value, m: Option<Value>)
    requires Orderable(t) && ColumnOf(t, vs + [v]) && IsMin(vs, m)
    ensures IsMin(vs + [v], MergeValue(ColumnStats(t, 0, m, None), v).min)
  {
    var all, r := vs + [v], MergeValue(ColumnStats(t, 0, m, None), v).min;
    assert all[|vs|] == v && forall i :: 0 <= i < |vs| ==> all[i] == vs[i];
    forall i | 0 <= i < |all| && !all[i].Null?
      ensures r.Some? && AtMost(r.value, all[i])
    {
      if !v.Null? {
        OrderOfType(t, v, v);
        if m.Some? {
          OrderOfType(t, v, m.value);
          if i < |vs| && Compare(v, m.value) == Some(Less) {
            assert all[i] == vs[i];
            AtMostTransitive(t, v, m.value, vs[i]);
          }
        }
      }
    }
  }

  lemma MaxStep(t: ValueType, vs: seq<Value>, v: Value, m: Option<Value>)
    requires Orderable(t) && ColumnOf(t, vs + [v]) && IsMax(vs, m)
    ensures IsMax(vs + [v], MergeValue(ColumnStats(t, 0, None, m), v).max)
  {
    var all, r := vs + [v], MergeValue(ColumnStats(t, 0, None, m), v).max;
    assert all[|vs|] == v && forall i :: 0 <= i < |vs| ==> all[i] == vs[i];
    forall i | 0 <= i < |all| && !all[i].Null?
      ensures r.Some? && AtMost(all[i], r.value)
    {
      if !v.Null? {
        OrderOfType(t, v, v);
        if m.Some? {
          OrderOfType(t, v, m.value);
          if i < |vs| && Compare(v, m.value) == Some(Greater) {
            assert all[i] == vs[i];
            OrderOfType(t, m.value, v);
            AtMostTransitive(t, vs[i], m.value, v);
          }
        }
      }
    }
  }

  /** In an ordered column the statistics are the null count, the least and the greatest value. */
  lemma {:induction false} StatsDescribe(t: ValueType, vs: seq<Value>)
    requires Orderable(t) && ColumnOf(t, vs)
    ensures Compute(t, vs).valueType == t && Compute(t, vs).nullCount == CountNulls(vs)
    ensures IsMin(vs, Compute(t, vs).min) && IsMax(vs, Compute(t, vs).max)
  {
    if vs != [] {
      var most, last := vs[..|vs| - 1], vs[|vs| - 1];
      StatsDescribe(t, most);
      SplitLast(vs);
      var s := Compute(t, most);
      MinStep(t, most, last, s.min);
      MaxStep(t, most, last, s.max);
    }
  }

  /** In a column without an order both bounds are the first non-null value. */
  lemma {:induction false} UnorderedStats(t: ValueType, vs: seq<Value>)
    requires !Orderable(t) && ColumnOf(t, vs)
    ensures Compute(t, vs) == ColumnStats(t, CountNulls(vs), FirstNonNull(vs), FirstNonNull(vs))
    ensures FirstNonNull(vs).Some? ==> HasType(FirstNonNull(vs).value, t)
  {
    if vs != [] {
      UnorderedStats(t, vs[..|vs| - 1]);
    }
  }

  lemma MinExists(vs: seq<Value>, a: Option<Value>, b: Option<Value>)
    requires IsMin(vs, a) && IsMin(vs, b) && a.Some?
    ensures b.Some?
  {
    var i :| 0 <= i < |vs| && vs[i] == a.value;
  }

  lemma MinIsUnique(t: ValueType, vs: seq<Value>, a: Option<Value>, b: Option<Value>)
    requires Orderable(t) && ColumnOf(t, vs) && IsMin(vs, a) && IsMin(vs, b)
    ensures a == b
  {
    if a.Some? {
      MinExists(vs, a, b);
      var i :| 0 <= i < |vs| && vs[i] == a.value;
      var j :| 0 <= j < |vs| && vs[j] == b.value;
      OrderOfType(t, a.value, b.value);
    } else if b.Some? {
      MinExists(vs, b, a);
    }
  }

  lemma MaxExists(vs: seq<Value>, a: Option<Value>, b: Option<Value>)
    requires IsMax(vs, a) && IsMax(vs, b) && a.Some?
    ensures b.Some?
  {
    var i :| 0 <= i < |vs| && vs[i] == a.value;
  }

  lemma MaxIsUnique(t: ValueType, vs: seq<Value>, a: Option<Value>, b: Option<Value>)
    requires Orderable(t) && ColumnOf(t, vs) && IsMax(vs, a) && IsMax(vs, b)
    ensures a == b
  {
    if a.Some? {
      MaxExists(vs, a, b);
      var i :| 0 <= i < |vs| && vs[i] == a.value;
      var j :| 0 <= j < |vs| && vs[j] == b.value;
      OrderOfType(t, a.value, b.value);
    } else if b.Some? {
      MaxExists(vs, b, a);
    }
  }

  lemma {:induction false} CountNullsIsMultiplicity(vs: seq<Value>)
    ensures CountNulls(vs) == multiset(vs)[Null]
  {
    if vs != [] {
      CountNullsIsMultiplicity(vs[..|vs| - 1]);
      SplitLast(vs);
      assert multiset(vs) == multiset(vs[..|vs| - 1]) + multiset{vs[|vs| - 1]};
    }
  }

  lemma PermutedMember(us: seq<Value>, vs: seq<Value>, i: nat)
    requires multiset(us) == multiset(vs) && i < |us|
    ensures us[i] in vs
  {
    assert us[i] in multiset(us);
  }

  /** In an ordered column the statistics do not depend on the order of the rows. */
  lemma StatsIgnoreOrder(t: ValueType, us: seq<Value>, vs: seq<Value>)
    requires Orderable(t) && ColumnOf(t, us) && multiset(us) == multiset(vs)
    ensures Compute(t, us) == Compute(t, vs)
  {
    forall i | 0 <= i < |vs|
      ensures vs[i] in us
    {
      PermutedMember(vs, us, i);
    }
    forall i | 0 <= i < |us|
      ensures us[i] in vs
    {
      PermutedMember(us, vs, i);
    }
    StatsDescribe(t, us);
    StatsDescribe(t, vs);
    CountNullsIsMultiplicity(us);
    CountNullsIsMultiplicity(vs);
    var s := Compute(t, us);
    assert IsMin(vs, s.min) && IsMax(vs, s.max);
    MinIsUnique(t, vs, s.min, Compute(t, vs).min);
    MaxIsUnique(t, vs, s.max, Compute(t, vs).max);
  }

  lemma ComparesEqualToItself(v: Value)
    ensures Compare(v, v) in {Some(Equal), None}
  {
    if v.Text? {
      TextOrder(v.s, v.s);
    }
  }

  /** Merging a non-null value a second time changes nothing. */
  lemma MergeTwice(s: ColumnStats, v: Value)
    ensures MergeValue(MergeValue(s, v), v) == if v.Null? then s.(nullCount := s.nullCount + 2) else MergeValue(s, v)
  {
    ComparesEqualToItself(v);
  }
}
