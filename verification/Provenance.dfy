/**
 The provenance log of `src/core/provenance.rs`: ancestry by content hash with a name tiebreak, the
 worklist of what live entities need, and pruning, which rewrites the log.
 */
module Provenance {
  import opened Common

  datatype Entity =
    | TensorEntity(id: nat, tensorName: Option<string>, contentHash: string)
    | DatasetEntity(name: string, contentHash: string)
  {
    function Label(): Option<string> {
      match this
      case TensorEntity(_, n, _) => n
      case DatasetEntity(n, _) => Some(n)
    }
  }

  datatype Record = Record(
    id: nat,
    operation: string,
    parameters: map<string, string>,
    inputs: seq<Entity>,
    outputs: seq<Entity>,
    timestamp: int,
    executionId: nat)

  datatype Tree = Tree(
    entity: Entity,
    operation: string,
    parameters: map<string, string>,
    timestamp: Option<int>,
    executionId: Option<nat>,
    inputs: seq<Tree>)

  datatype PruneReport = PruneReport(
    totalBefore: nat,
    totalAfter: nat,
    pruned: nat,
    retainedBecauseLive: nat)

  const MAX_ANCESTRY_DEPTH: nat := 256

  // ---------------------------------------------------------------- producers

  /** Some output of `r` has this content hash and, when a name is asked for, that name. */
  predicate Produces(r: Record, hash: string, wanted: Option<string>) {
    exists o | o in r.outputs :: o.contentHash == hash && (wanted == None || o.Label() == wanted)
  }

  /** The latest record below `before` that produces the hash (and name). */
  function LatestProducer(log: seq<Record>, hash: string, wanted: Option<string>, before: nat): (r: Option<nat>)
    requires before <= |log|
    ensures r.Some? ==>
              && r.value < before && Produces(log[r.value], hash, wanted)
              && forall k :: r.value < k < before ==> !Produces(log[k], hash, wanted)
    ensures r == None ==> forall k :: 0 <= k < before ==> !Produces(log[k], hash, wanted)
  {
    if before == 0 then None
    else if Produces(log[before - 1], hash, wanted) then Some(before - 1)
    else LatestProducer(log, hash, wanted, before - 1)
  }

  /** Record `k` lies below `before` and has an output with the entity's hash. */
  predicate Candidate(log: seq<Record>, e: Entity, before: nat, k: nat) {
    k < before && k < |log| && Produces(log[k], e.contentHash, None)
  }

  /** A candidate whose matching output also carries the entity's name. */
  predicate NamedCandidate(log: seq<Record>, e: Entity, before: nat, k: nat) {
    e.Label().Some? && k < before && k < |log| && Produces(log[k], e.contentHash, e.Label())
  }

  /** `find_producer_before`: first the name match, then the hash alone. */
  function FindProducerBefore(log: seq<Record>, e: Entity, before: nat): (r: Option<nat>)
    ensures r.Some? ==> r.value < before && r.value < |log|
  {
    var n := if before <= |log| then before else |log|;
    var byName := if e.Label().Some? then LatestProducer(log, e.contentHash, e.Label(), n) else None;
    if byName.Some? then byName else LatestProducer(log, e.contentHash, None, n)
  }

  /**
   The producer found is the latest named candidate or, when no candidate carries the name,
   the latest candidate; there is none exactly when no earlier record produced the content.
   */
  lemma ProducerIsLatestMatch(log: seq<Record>, e: Entity, before: nat)
    ensures var r := FindProducerBefore(log, e, before);
            match r
            case None => forall k: nat :: !Candidate(log, e, before, k)
            case Some(idx) =>
              && Candidate(log, e, before, idx)
              && if exists k: nat :: NamedCandidate(log, e, before, k)
                 then NamedCandidate(log, e, before, idx) && forall k: nat :: k > idx ==> !NamedCandidate(log, e, before, k)
                 else forall k: nat :: k > idx ==> !Candidate(log, e, before, k)
  {
    var r := FindProducerBefore(log, e, before);
    if r.Some? && e.Label().Some? && LatestProducer(log, e.contentHash, e.Label(), if before <= |log| then before else |log|).Some? {
      assert NamedCandidate(log, e, before, r.value);
    }
    forall k: nat | NamedCandidate(log, e, before, k)
      ensures Candidate(log, e, before, k)
    {
      var o :| o in log[k].outputs && o.contentHash == e.contentHash && o.Label() == e.Label();
    }
  }

  // ---------------------------------------------------------------- ancestry

  function Leaf(e: Entity, operation: string): Tree {
    Tree(e, operation, map[], None, None, [])
  }

  /** `resolve_ancestry_bounded`. */
  function ResolveBounded(log: seq<Record>, e: Entity, before: nat, depth: nat): Tree
    decreases before, 0
  {
    if depth >= MAX_ANCESTRY_DEPTH then Leaf(e, "TRUNCATED (max ancestry depth reached)")
    else
      match FindProducerBefore(log, e, before)
      case None => Leaf(e, "ROOT")
      case Some(idx) => Node(e, log[idx], ResolveAll(log, log[idx].inputs, idx, depth + 1))
  }

  function ResolveAll(log: seq<Record>, es: seq<Entity>, before: nat, depth: nat): seq<Tree>
    decreases before, 1, |es|
  {
    if es == [] then []
    else [ResolveBounded(log, es[0], before, depth)] + ResolveAll(log, es[1..], before, depth)
  }

  /** The node for an entity that `r` produced. */
  function Node(e: Entity, r: Record, inputs: seq<Tree>): Tree {
    Tree(e, r.operation, r.parameters, Some(r.timestamp), Some(r.executionId), inputs)
  }

  function Resolve(log: seq<Record>, e: Entity): Tree {
    ResolveBounded(log, e, |log|, 0)
  }

  /** Record `idx` is the latest below `before` with the hash and name or, if none has the name, with the hash. */
  ghost predicate IsProducer(log: seq<Record>, e: Entity, before: nat, idx: nat) {
    if exists k: nat :: NamedCandidate(log, e, before, k)
    then NamedCandidate(log, e, before, idx) && forall k: nat :: k > idx ==> !NamedCandidate(log, e, before, k)
    else Candidate(log, e, before, idx) && forall k: nat :: k > idx ==> !Candidate(log, e, before, k)
  }

  /** What a tree for `e` says: a root nobody produced, or the producer's data over the trees of its inputs. */
  ghost predicate IsAncestry(log: seq<Record>, e: Entity, before: nat, depth: nat, t: Tree)
    decreases before, 0
  {
    if depth >= MAX_ANCESTRY_DEPTH then t == Leaf(e, "TRUNCATED (max ancestry depth reached)")
    else if forall k: nat :: !Candidate(log, e, before, k) then t == Leaf(e, "ROOT")
    else exists idx: nat | idx < before && idx < |log| && IsProducer(log, e, before, idx) :: ShowsRecord(log, e, idx, depth, t)
  }

  ghost predicate ShowsRecord(log: seq<Record>, e: Entity, idx: nat, depth: nat, t: Tree)
    requires idx < |log|
    decreases idx, 2
  {
    t == Node(e, log[idx], t.inputs) && AreAncestries(log, log[idx].inputs, idx, depth + 1, t.inputs)
  }

  ghost predicate AreAncestries(log: seq<Record>, es: seq<Entity>, before: nat, depth: nat, ts: seq<Tree>)
    decreases before, 1
  {
    |ts| == |es| && forall i :: 0 <= i < |es| ==> IsAncestry(log, es[i], before, depth, ts[i])
  }

  lemma ProducerIs(log: seq<Record>, e: Entity, before: nat)
    ensures var p := FindProducerBefore(log, e, before);
            if p.None? then forall k: nat :: !Candidate(log, e, before, k)
            else IsProducer(log, e, before, p.value) && Candidate(log, e, before, p.value)
  {
    ProducerIsLatestMatch(log, e, before);
  }

  lemma {:induction false} ResolveAllAt(log: seq<Record>, es: seq<Entity>, before: nat, depth: nat)
    ensures |ResolveAll(log, es, before, depth)| == |es|
    ensures forall i :: 0 <= i < |es| ==> ResolveAll(log, es, before, depth)[i] == ResolveBounded(log, es[i], before, depth)
  {
    if es != [] {
      ResolveAllAt(log, es[1..], before, depth);
    }
  }

  /** The resolved tree is an ancestry. */
  lemma {:induction false} ResolveIsAncestry(log: seq<Record>, e: Entity, before: nat, depth: nat)
    ensures IsAncestry(log, e, before, depth, ResolveBounded(log, e, before, depth))
    decreases before, 0
  {
    ProducerIs(log, e, before);
    var p := FindProducerBefore(log, e, before);
    if depth < MAX_ANCESTRY_DEPTH && p.Some? {
      ResolveAreAncestries(log, log[p.value].inputs, p.value, depth + 1);
      assert ShowsRecord(log, e, p.value, depth, ResolveBounded(log, e, before, depth));
    }
  }

  lemma {:induction false} ResolveAreAncestries(log: seq<Record>, es: seq<Entity>, before: nat, depth: nat)
    ensures AreAncestries(log, es, before, depth, ResolveAll(log, es, before, depth))
    decreases before, 1
  {
    ResolveAllAt(log, es, before, depth);
    forall i | 0 <= i < |es|
      ensures IsAncestry(log, es[i], before, depth, ResolveAll(log, es, before, depth)[i])
    {
      ResolveIsAncestry(log, es[i], before, depth);
    }
  }

  lemma SameProducer(log: seq<Record>, e: Entity, before: nat, i: nat, j: nat)
    requires IsProducer(log, e, before, i) && IsProducer(log, e, before, j)
    ensures i == j
  {
  }

  /** There is no other: the definition decides the tree. */
  lemma {:induction false} AncestryIsUnique(log: seq<Record>, e: Entity, before: nat, depth: nat, t: Tree)
    requires IsAncestry(log, e, before, depth, t)
    ensures t == ResolveBounded(log, e, before, depth)
    decreases before, 0
  {
    ProducerIs(log, e, before);
    var p := FindProducerBefore(log, e, before);
    if depth < MAX_ANCESTRY_DEPTH && p.Some? {
      var idx: nat :| idx < before && idx < |log| && IsProducer(log, e, before, idx) && ShowsRecord(log, e, idx, depth, t);
      SameProducer(log, e, before, idx, p.value);
      AncestriesAreUnique(log, log[idx].inputs, idx, depth + 1, t.inputs);
    }
  }

  lemma {:induction false} AncestriesAreUnique(log: seq<Record>, es: seq<Entity>, before: nat, depth: nat, ts: seq<Tree>)
    requires AreAncestries(log, es, before, depth, ts)
    ensures ts == ResolveAll(log, es, before, depth)
    decreases before, 1
  {
    ResolveAllAt(log, es, before, depth);
    forall i | 0 <= i < |es|
      ensures ts[i] == ResolveAll(log, es, before, depth)[i]
    {
      AncestryIsUnique(log, es[i], before, depth, ts[i]);
    }
  }

  /** The ancestry trees with no depth limit at all. */
  function ResolveFully(log: seq<Record>, es: seq<Entity>, before: nat): seq<Tree>
    decreases before, |es|
  {
    if es == [] then []
    else
      var first :=
        match FindProducerBefore(log, es[0], before)
        case None => Leaf(es[0], "ROOT")
        case Some(idx) => Node(es[0], log[idx], ResolveFully(log, log[idx].inputs, idx));
      [first] + ResolveFully(log, es[1..], before)
  }

  /** The depth limit is only a safety net: it cannot fire on a log of fewer records than the limit. */
  lemma {:induction false} NeverTruncated(log: seq<Record>, es: seq<Entity>, before: nat, depth: nat)
    requires before + depth < MAX_ANCESTRY_DEPTH
    ensures ResolveAll(log, es, before, depth) == ResolveFully(log, es, before)
    decreases before, |es|
  {
    if es != [] {
      NeverTruncated(log, es[1..], before, depth);
      var p := FindProducerBefore(log, es[0], before);
      if p.Some? {
        NeverTruncated(log, log[p.value].inputs, p.value, depth + 1);
      }
    }
  }

  /** The record indices an unbounded ancestry walk of `e` below `before` visits. */
  ghost function Uses(log: seq<Record>, e: Entity, before: nat): set<nat>
    decreases before, 0
  {
    match FindProducerBefore(log, e, before)
    case None => {}
    case Some(idx) => {idx} + UsesAll(log, log[idx].inputs, idx)
  }

  ghost function UsesAll(log: seq<Record>, es: seq<Entity>, before: nat): (s: set<nat>)
    ensures forall i :: 0 <= i < |es| ==> Uses(log, es[i], before) <= s
    decreases before, 1, |es|
  {
    if es == [] then {}
    else
      assert forall i :: 1 <= i < |es| ==> es[i] == es[1..][i - 1];
      Uses(log, es[0], before) + UsesAll(log, es[1..], before)
  }

  lemma {:induction false} UsesInRange(log: seq<Record>, es: seq<Entity>, before: nat)
    ensures forall k :: k in UsesAll(log, es, before) ==> k < before && k < |log|
    decreases before, |es|
  {
    if es != [] {
      UsesInRange(log, es[1..], before);
      var p := FindProducerBefore(log, es[0], before);
      if p.Some? {
        UsesInRange(log, log[p.value].inputs, p.value);
        assert Uses(log, es[0], before) == {p.value} + UsesAll(log, log[p.value].inputs, p.value);
      }
    }
  }

  // ---------------------------------------------------------------- reachability

  datatype Pending = Pending(entity: Entity, before: nat)

  /** The producer of `e` below `before` is visited already or still on the worklist. */
  ghost predicate Covered(log: seq<Record>, e: Entity, before: nat, visited: set<nat>, stack: seq<Pending>) {
    var p := FindProducerBefore(log, e, before);
    p == None || p.value in visited || Pending(e, before) in stack
  }

  ghost predicate InputsCovered(log: seq<Record>, k: nat, visited: set<nat>, stack: seq<Pending>)
    requires k < |log|
  {
    forall e | e in log[k].inputs :: Covered(log, e, k, visited, stack)
  }

  /** Everything found still to be followed: the roots and the inputs of visited records are covered. */
  ghost predicate Closing(log: seq<Record>, roots: seq<Entity>, visited: set<nat>, stack: seq<Pending>) {
    && (forall e | e in roots :: Covered(log, e, |log|, visited, stack))
    && (forall k | k in visited :: k < |log| && InputsCovered(log, k, visited, stack))
  }

  lemma PopKeepsClosing(
    log: seq<Record>, roots: seq<Entity>, seen: set<nat>, stack: seq<Pending>, item: Pending, visited: set<nat>, rest: seq<Pending>)
    requires Closing(log, roots, seen, stack) && seen <= visited
    requires forall p | p in stack :: p == item || p in rest
    requires var p := FindProducerBefore(log, item.entity, item.before); p.Some? ==> p.value in visited
    requires forall k | k in visited && k !in seen :: k < |log| && InputsCovered(log, k, visited, rest)
    ensures Closing(log, roots, visited, rest)
  {
    forall e | e in roots
      ensures Covered(log, e, |log|, visited, rest)
    {
      assert Covered(log, e, |log|, seen, stack);
    }
    forall k | k in seen
      ensures InputsCovered(log, k, visited, rest)
    {
      forall e | e in log[k].inputs
        ensures Covered(log, e, k, visited, rest)
      {
        assert InputsCovered(log, k, seen, stack);
        assert Covered(log, e, k, seen, stack);
      }
    }
  }

  /** What is pushed for a visited record: its inputs, to be looked up below it. */
  function PendingAll(es: seq<Entity>, before: nat): (r: seq<Pending>)
    ensures forall p | p in r :: p.before == before && p.entity in es
    ensures forall e | e in es :: Pending(e, before) in r
  {
    if es == [] then [] else [Pending(es[0], before)] + PendingAll(es[1..], before)
  }

  /** Everything the worklist will still look at is used by the roots. */
  ghost predicate Sound(log: seq<Record>, goal: set<nat>, visited: set<nat>, stack: seq<Pending>) {
    visited <= goal && forall p | p in stack :: Uses(log, p.entity, p.before) <= goal
  }

  lemma PushKeepsSound(log: seq<Record>, goal: set<nat>, visited: set<nat>, rest: seq<Pending>, item: Pending)
    requires Sound(log, goal, visited, rest) && Uses(log, item.entity, item.before) <= goal
    requires FindProducerBefore(log, item.entity, item.before).Some?
    ensures var idx := FindProducerBefore(log, item.entity, item.before).value;
            Sound(log, goal, visited + {idx}, rest + PendingAll(log[idx].inputs, idx))
  {
    var idx := FindProducerBefore(log, item.entity, item.before).value;
    var inputs := log[idx].inputs;
    forall p | p in PendingAll(inputs, idx)
      ensures Uses(log, p.entity, p.before) <= goal
    {
      assert Uses(log, p.entity, idx) <= UsesAll(log, inputs, idx);
    }
  }

  /** A set that holds the producers of `es` and, with a record, those of its inputs, holds the whole walk. */
  lemma {:induction false} ClosedHoldsUses(log: seq<Record>, es: seq<Entity>, before: nat, s: set<nat>)
    requires forall k | k in s :: k < |log| && InputsCovered(log, k, s, [])
    requires forall e | e in es :: Covered(log, e, before, s, [])
    ensures UsesAll(log, es, before) <= s
    decreases before, |es|
  {
    if es != [] {
      ClosedHoldsUses(log, es[1..], before, s);
      assert Covered(log, es[0], before, s, []);
      var p := FindProducerBefore(log, es[0], before);
      if p.Some? {
        assert InputsCovered(log, p.value, s, []);
        ClosedHoldsUses(log, log[p.value].inputs, p.value, s);
      }
    }
  }

  // ---------------------------------------------------------------- pruning

  /** The records below `n` that are not dropped, in order. */
  function Kept(log: seq<Record>, drop: set<nat>, n: nat): (r: seq<Record>)
    requires n <= |log|
    ensures |r| <= n
  {
    if n == 0 then []
    else if n - 1 in drop then Kept(log, drop, n - 1)
    else Kept(log, drop, n - 1) + [log[n - 1]]
  }

  /** The index a kept record has after the dropped ones are gone. */
  function Rank(log: seq<Record>, drop: set<nat>, n: nat): nat
    requires n <= |log|
  {
    |Kept(log, drop, n)|
  }

  function RankOption(log: seq<Record>, drop: set<nat>, r: Option<nat>): Option<nat>
    requires r.Some? ==> r.value <= |log|
  {
    match r
    case None => None
    case Some(k) => Some(Rank(log, drop, k))
  }

  lemma {:induction false} KeptIsPrefix(log: seq<Record>, drop: set<nat>, m: nat, n: nat)
    requires m <= n <= |log|
    ensures Kept(log, drop, m) <= Kept(log, drop, n)
    decreases n - m
  {
    if m < n {
      KeptIsPrefix(log, drop, m, n - 1);
    }
  }

  /** A kept record sits at its rank in the pruned log. */
  lemma KeptAt(log: seq<Record>, drop: set<nat>, k: nat)
    requires k < |log| && k !in drop
    ensures Rank(log, drop, k) < Rank(log, drop, |log|)
    ensures Kept(log, drop, |log|)[Rank(log, drop, k)] == log[k]
  {
    KeptIsPrefix(log, drop, k + 1, |log|);
  }

  /** Dropping records other than the latest producer only renumbers it. */
  lemma {:induction false} LatestProducerRenumbered(
    log: seq<Record>, drop: set<nat>, hash: string, wanted: Option<string>, n: nat)
    requires n <= |log|
    requires var p := LatestProducer(log, hash, wanted, n); p.Some? ==> p.value !in drop
    ensures Rank(log, drop, n) <= Rank(log, drop, |log|)
    ensures LatestProducer(Kept(log, drop, |log|), hash, wanted, Rank(log, drop, n))
            == RankOption(log, drop, LatestProducer(log, hash, wanted, n))
  {
    KeptIsPrefix(log, drop, n, |log|);
    if n > 0 {
      var m := n - 1;
      if m !in drop {
        KeptAt(log, drop, m);
      }
      if !Produces(log[m], hash, wanted) {
        LatestProducerRenumbered(log, drop, hash, wanted, m);
      }
      LatestProducerStep(log, drop, hash, wanted, m);
    }
  }

  /** One more record: dropped and no producer, or kept at its rank. */
  lemma LatestProducerStep(log: seq<Record>, drop: set<nat>, hash: string, wanted: Option<string>, m: nat)
    requires m < |log| && (Produces(log[m], hash, wanted) ==> m !in drop)
    requires m !in drop ==> Rank(log, drop, m) < Rank(log, drop, |log|) && Kept(log, drop, |log|)[Rank(log, drop, m)] == log[m]
    requires Rank(log, drop, m + 1) <= Rank(log, drop, |log|)
    requires !Produces(log[m], hash, wanted) ==>
               && Rank(log, drop, m) <= Rank(log, drop, |log|)
               && LatestProducer(Kept(log, drop, |log|), hash, wanted, Rank(log, drop, m))
                  == RankOption(log, drop, LatestProducer(log, hash, wanted, m))
    ensures LatestProducer(Kept(log, drop, |log|), hash, wanted, Rank(log, drop, m + 1))
            == RankOption(log, drop, LatestProducer(log, hash, wanted, m + 1))
  {
    if m !in drop {
      assert Rank(log, drop, m + 1) == Rank(log, drop, m) + 1;
    }
  }

  lemma FindProducerRenumbered(log: seq<Record>, drop: set<nat>, e: Entity, n: nat)
    requires n <= |log|
    requires var p := FindProducerBefore(log, e, n); p.Some? ==> p.value !in drop
    ensures FindProducerBefore(Kept(log, drop, |log|), e, Rank(log, drop, n))
            == RankOption(log, drop, FindProducerBefore(log, e, n))
  {
    if e.Label().Some? {
      LatestProducerRenumbered(log, drop, e.contentHash, e.Label(), n);
    }
    if e.Label() == None || LatestProducer(log, e.contentHash, e.Label(), n) == None {
      LatestProducerRenumbered(log, drop, e.contentHash, None, n);
    }
  }

  /** The record indices that the tree of `e` shows: those its walk visits above the depth limit. */
  ghost function Shows(log: seq<Record>, e: Entity, before: nat, depth: nat): set<nat>
    decreases before, 0
  {
    if depth >= MAX_ANCESTRY_DEPTH then {}
    else
      match FindProducerBefore(log, e, before)
      case None => {}
      case Some(idx) => {idx} + ShowsAll(log, log[idx].inputs, idx, depth + 1)
  }

  ghost function ShowsAll(log: seq<Record>, es: seq<Entity>, before: nat, depth: nat): set<nat>
    decreases before, 1, |es|
  {
    if es == [] then {} else Shows(log, es[0], before, depth) + ShowsAll(log, es[1..], before, depth)
  }

  lemma {:induction false} ShownAreUsed(log: seq<Record>, es: seq<Entity>, before: nat, depth: nat)
    ensures ShowsAll(log, es, before, depth) <= UsesAll(log, es, before)
    decreases before, |es|
  {
    if es != [] {
      ShownAreUsed(log, es[1..], before, depth);
      var p := FindProducerBefore(log, es[0], before);
      if p.Some? {
        ShownAreUsed(log, log[p.value].inputs, p.value, depth + 1);
      }
    }
  }

  /** Trees that show no dropped record are the same after renumbering. */
  lemma {:induction false} ShownRenumbered(log: seq<Record>, drop: set<nat>, es: seq<Entity>, n: nat, depth: nat)
    requires n <= |log|
    requires ShowsAll(log, es, n, depth) !! drop
    ensures ResolveAll(Kept(log, drop, |log|), es, Rank(log, drop, n), depth) == ResolveAll(log, es, n, depth)
    decreases n, |es|
  {
    if es != [] {
      ShownRenumbered(log, drop, es[1..], n, depth);
      var p := FindProducerBefore(log, es[0], n);
      if depth < MAX_ANCESTRY_DEPTH {
        FindProducerRenumbered(log, drop, es[0], n);
        if p.Some? {
          KeptAt(log, drop, p.value);
          ShownRenumbered(log, drop, log[p.value].inputs, p.value, depth + 1);
        }
      }
    }
  }

  /** Walks that touch no dropped record yield the same trees, at the same depth, after renumbering. */
  lemma ResolveRenumbered(log: seq<Record>, drop: set<nat>, es: seq<Entity>, n: nat, depth: nat)
    requires n <= |log|
    requires UsesAll(log, es, n) !! drop
    ensures ResolveAll(Kept(log, drop, |log|), es, Rank(log, drop, n), depth) == ResolveAll(log, es, n, depth)
  {
    ShownAreUsed(log, es, n, depth);
    ShownRenumbered(log, drop, es, n, depth);
  }

  lemma ResolveOne(log: seq<Record>, e: Entity)
    ensures ResolveAll(log, [e], |log|, 0) == [Resolve(log, e)]
  {
    assert [e][1..] == [];
  }

  lemma ResolveOneRenumbered(log: seq<Record>, drop: set<nat>, e: Entity)
    requires Uses(log, e, |log|) !! drop
    ensures Resolve(Kept(log, drop, |log|), e) == Resolve(log, e)
  {
    ResolveOne(log, e);
    ResolveOne(Kept(log, drop, |log|), e);
    assert [e][1..] == [];
    ResolveRenumbered(log, drop, [e], |log|, 0);
  }

  /** The records a walk uses are, renumbered, among those it uses in the pruned log. */
  lemma {:induction false} UsesRenumbered(log: seq<Record>, drop: set<nat>, es: seq<Entity>, n: nat, k: nat)
    requires n <= |log|
    requires UsesAll(log, es, n) !! drop
    requires k in UsesAll(log, es, n) && k < |log|
    ensures Rank(log, drop, k) in UsesAll(Kept(log, drop, |log|), es, Rank(log, drop, n))
    decreases n, |es|
  {
    if k in UsesAll(log, es[1..], n) {
      UsesRenumbered(log, drop, es[1..], n, k);
    } else {
      FindProducerRenumbered(log, drop, es[0], n);
      var idx := FindProducerBefore(log, es[0], n).value;
      KeptAt(log, drop, idx);
      if k != idx {
        UsesRenumbered(log, drop, log[idx].inputs, idx, k);
      }
    }
  }

  ghost function Reachable(log: seq<Record>, roots: seq<Entity>): set<nat> {
    UsesAll(log, roots, |log|)
  }

  predicate Stale(log: seq<Record>, cutoff: int, k: nat) {
    k < |log| && log[k].timestamp < cutoff
  }

  /** What `prune_before` drops: stale records no live root needs. */
  ghost function Dropped(log: seq<Record>, cutoff: int, roots: seq<Entity>): set<nat> {
    set k: nat | 0 <= k < |log| && Stale(log, cutoff, k) && k !in Reachable(log, roots)
  }

  ghost function Pruned(log: seq<Record>, cutoff: int, roots: seq<Entity>): seq<Record> {
    Kept(log, Dropped(log, cutoff, roots), |log|)
  }

  /** Pruning never changes the ancestry tree of a live root, whatever the cutoff. */
  lemma PruneKeepsAncestry(log: seq<Record>, cutoff: int, roots: seq<Entity>, e: Entity)
    requires e in roots
    ensures Resolve(Pruned(log, cutoff, roots), e) == Resolve(log, e)
  {
    ResolveOneRenumbered(log, Dropped(log, cutoff, roots), e);
  }

  lemma {:induction false} KeptAll(log: seq<Record>, drop: set<nat>, n: nat)
    requires n <= |log|
    requires forall k :: 0 <= k < n ==> k !in drop
    ensures Kept(log, drop, n) == log[..n]
  {
    if n > 0 {
      KeptAll(log, drop, n - 1);
    }
  }

  /** Every place in the pruned log is the rank of one kept record. */
  lemma {:induction false} RankOnto(log: seq<Record>, drop: set<nat>, n: nat, j: nat) returns (k: nat)
    requires n <= |log| && j < Rank(log, drop, n)
    ensures k < n && k !in drop && Rank(log, drop, k) == j
  {
    if n - 1 !in drop && j == Rank(log, drop, n - 1) {
      k := n - 1;
    } else {
      k := RankOnto(log, drop, n - 1, j);
    }
  }

  /** A second prune with the same arguments removes nothing. */
  lemma PruneIsIdempotent(log: seq<Record>, cutoff: int, roots: seq<Entity>)
    ensures Pruned(Pruned(log, cutoff, roots), cutoff, roots) == Pruned(log, cutoff, roots)
  {
    var drop := Dropped(log, cutoff, roots);
    var after := Pruned(log, cutoff, roots);
    forall j | 0 <= j < |after|
      ensures j !in Dropped(after, cutoff, roots)
    {
      var k := RankOnto(log, drop, |log|, j);
      KeptAt(log, drop, k);
      if Stale(after, cutoff, j) {
        UsesRenumbered(log, drop, roots, |log|, k);
      }
    }
    KeptAll(after, Dropped(after, cutoff, roots), |after|);
  }

  ghost predicate Increasing(at: seq<nat>) {
    forall m, n :: 0 <= m < n < |at| ==> at[m] < at[n]
  }

  /** `at` names the records kept among the first `n`, in order. */
  ghost predicate Names(log: seq<Record>, drop: set<nat>, n: nat, at: seq<nat>)
    requires n <= |log|
  {
    && Increasing(at) && |at| == |Kept(log, drop, n)|
    && (forall m :: 0 <= m < |at| ==> at[m] < n && Kept(log, drop, n)[m] == log[at[m]])
    && forall k: nat :: k in at <==> k < n && k !in drop
  }

  lemma OneMoreNamed(log: seq<Record>, drop: set<nat>, n: nat, at: seq<nat>)
    requires 0 < n <= |log| && n - 1 !in drop && Names(log, drop, n - 1, at)
    ensures Names(log, drop, n, at + [n - 1])
  {
    var more := at + [n - 1];
    forall k: nat
      ensures k in more <==> k < n && k !in drop
    {
      assert k in more <==> k in at || k == n - 1;
    }
  }

  lemma {:induction false} KeptPositions(log: seq<Record>, drop: set<nat>, n: nat) returns (at: seq<nat>)
    requires n <= |log|
    ensures Names(log, drop, n, at)
  {
    if n == 0 {
      at := [];
    } else {
      at := KeptPositions(log, drop, n - 1);
      if n - 1 !in drop {
        OneMoreNamed(log, drop, n, at);
        at := at + [n - 1];
      }
    }
  }

  /** What is left are, in order, the records from the cutoff on and those that some live root's walk uses. */
  lemma PrunedIs(log: seq<Record>, cutoff: int, roots: seq<Entity>) returns (at: seq<nat>)
    ensures Increasing(at) && |at| == |Pruned(log, cutoff, roots)|
    ensures forall m :: 0 <= m < |at| ==> at[m] < |log| && Pruned(log, cutoff, roots)[m] == log[at[m]]
    ensures forall k: nat :: k in at <==>
              k < |log| && (log[k].timestamp >= cutoff || exists i :: 0 <= i < |roots| && k in Uses(log, roots[i], |log|))
  {
    at := KeptPositions(log, Dropped(log, cutoff, roots), |log|);
    forall k: nat | k < |log|
      ensures k in UsesAll(log, roots, |log|) <==> exists i :: 0 <= i < |roots| && k in Uses(log, roots[i], |log|)
    {
      UsedByOne(log, roots, |log|, k);
    }
  }

  lemma {:induction false} UsedByOne(log: seq<Record>, es: seq<Entity>, before: nat, k: nat)
    ensures k in UsesAll(log, es, before) <==> exists i :: 0 <= i < |es| && k in Uses(log, es[i], before)
  {
    if es != [] {
      UsedByOne(log, es[1..], before, k);
      if i :| 0 <= i < |es[1..]| && k in Uses(log, es[1..][i], before) {
        assert es[1..][i] == es[i + 1];
      }
      if i :| 0 <= i < |es| && k in Uses(log, es[i], before) {
        assert i == 0 || es[i] == es[1..][i - 1];
      }
    }
  }

  /** Record `k` made an input of record `j`. */
  ghost predicate Feeds(log: seq<Record>, k: nat, j: nat) {
    j < |log| && exists i :: 0 <= i < |log[j].inputs| && FindProducerBefore(log, log[j].inputs[i], j) == Some(k)
  }

  /** From the producer of `e` back, each record made an input of the one before it. */
  ghost predicate Chain(log: seq<Record>, e: Entity, before: nat, c: seq<nat>) {
    c != [] && FindProducerBefore(log, e, before) == Some(c[0]) && forall m :: 0 < m < |c| ==> Feeds(log, c[m], c[m - 1])
  }

  lemma ChainStep(log: seq<Record>, e: Entity, before: nat, k: nat, i: nat, c: seq<nat>)
    requires FindProducerBefore(log, e, before) == Some(k) && i < |log[k].inputs| && Chain(log, log[k].inputs[i], k, c)
    ensures Chain(log, e, before, [k] + c)
  {
    var longer := [k] + c;
    forall m | 0 < m < |longer|
      ensures Feeds(log, longer[m], longer[m - 1])
    {
      if m > 1 {
        assert Feeds(log, c[m - 1], c[m - 2]);
      }
    }
  }

  lemma {:induction false} UsedIsChained(log: seq<Record>, e: Entity, before: nat, k: nat) returns (c: seq<nat>)
    requires k in Uses(log, e, before)
    ensures Chain(log, e, before, c) && c[|c| - 1] == k
    decreases before
  {
    var idx := FindProducerBefore(log, e, before).value;
    if k == idx {
      c := [k];
    } else {
      UsedByOne(log, log[idx].inputs, idx, k);
      var i :| 0 <= i < |log[idx].inputs| && k in Uses(log, log[idx].inputs[i], idx);
      var rest := UsedIsChained(log, log[idx].inputs[i], idx, k);
      ChainStep(log, e, before, idx, i, rest);
      c := [idx] + rest;
    }
  }

  lemma {:induction false} ChainedIsUsed(log: seq<Record>, e: Entity, before: nat, c: seq<nat>)
    requires Chain(log, e, before, c)
    ensures c[|c| - 1] in Uses(log, e, before)
    decreases before
  {
    if |c| > 1 {
      var idx, rest := c[0], c[1..];
      assert Feeds(log, c[1], c[0]);
      var i :| 0 <= i < |log[idx].inputs| && FindProducerBefore(log, log[idx].inputs[i], idx) == Some(c[1]);
      forall m | 0 < m < |rest|
        ensures Feeds(log, rest[m], rest[m - 1])
      {
        assert Feeds(log, c[m + 1], c[m]);
      }
      ChainedIsUsed(log, log[idx].inputs[i], idx, rest);
    }
  }

  /** A walk uses exactly the records that a chain of producers of inputs leads to from its entity. */
  lemma UsesIsChains(log: seq<Record>, e: Entity, before: nat, k: nat)
    ensures k in Uses(log, e, before) <==> exists c :: Chain(log, e, before, c) && c[|c| - 1] == k
  {
    if k in Uses(log, e, before) {
      var c := UsedIsChained(log, e, before, k);
    }
    if c :| Chain(log, e, before, c) && c[|c| - 1] == k {
      ChainedIsUsed(log, e, before, c);
    }
  }

  // ---------------------------------------------------------------- whole histories

  /** One record, a change of the entities that exist (a literal, an alias, a removal), or a prune. */
  datatype Step =
    | Append(record: Record, live: seq<Entity>)
    | Exist(live: seq<Entity>)
    | Prune(cutoff: int)

  /** The log and the live entities after the steps; `pruning` says whether prunes are carried out. */
  ghost function RunSteps(steps: seq<Step>, pruning: bool): (seq<Record>, seq<Entity>)
  {
    if steps == [] then ([], [])
    else
      var (log, live) := RunSteps(steps[..|steps| - 1], pruning);
      match steps[|steps| - 1]
      case Append(r, live') => (log + [r], live')
      case Exist(live') => (log, live')
      case Prune(cutoff) => (if pruning then Pruned(log, cutoff, live) else log, live)
  }

  /** The records of the never-pruned log that the run's prunes have dropped so far. */
  ghost function DropOf(steps: seq<Step>): set<nat>
  {
    if steps == [] then {}
    else
      var init := steps[..|steps| - 1];
      var (full, live) := RunSteps(init, false);
      var drop := DropOf(init);
      match steps[|steps| - 1]
      case Prune(cutoff) => DropMore(full, drop, Dropped(Kept(full, drop, |full|), cutoff, live))
      case _ => drop
  }

  ghost function DropMore(full: seq<Record>, drop: set<nat>, again: set<nat>): set<nat> {
    set k: nat | 0 <= k < |full| && (k in drop || Rank(full, drop, k) in again)
  }

  /** Nothing produced it, or what produced it is the producer of an entity that was live. */
  ghost predicate Admissible(log: seq<Record>, live: seq<Entity>, e: Entity) {
    var p := FindProducerBefore(log, e, |log|);
    p.None? || exists l | l in live :: FindProducerBefore(log, l, |log|) == p
  }

  /** After one more record: also its own outputs, and whatever it is the producer of. */
  ghost predicate AdmissibleAfter(log: seq<Record>, r: Record, live: seq<Entity>, e: Entity) {
    var p := FindProducerBefore(log + [r], e, |log| + 1);
    p.None? || p == Some(|log|) || exists l | l in live :: FindProducerBefore(log, l, |log|) == p
  }

  /**
   What is consumed and what newly exists is admissible in the never-pruned log: live already, an output of the
   record, content without a producer (a literal), or content whose producer a live entity has too (an alias).
   */
  ghost predicate StepIsAdmissible(full: seq<Record>, live: seq<Entity>, step: Step) {
    match step
    case Prune(_) => true
    case Exist(live') => forall e | e in live' :: Admissible(full, live, e)
    case Append(r, live') =>
      && (forall e | e in r.inputs :: Admissible(full, live, e))
      && (forall e | e in live' :: AdmissibleAfter(full, r, live, e))
  }

  ghost predicate WellFormedRun(steps: seq<Step>)
  {
    steps == [] ||
    (&& WellFormedRun(steps[..|steps| - 1])
     && var (full, live) := RunSteps(steps[..|steps| - 1], false);
        StepIsAdmissible(full, live, steps[|steps| - 1]))
  }

  /** Record `k` is dropped at once exactly when one of the two stages drops it. */
  ghost predicate DroppedInEither(log: seq<Record>, drop: set<nat>, again: set<nat>, both: set<nat>, k: nat)
    requires k <= |log|
  {
    k in both <==> k in drop || Rank(log, drop, k) in again
  }

  lemma KeptStep(log: seq<Record>, drop: set<nat>, k: nat)
    requires k < |log|
    ensures Kept(log, drop, k + 1) == if k in drop then Kept(log, drop, k) else Kept(log, drop, k) + [log[k]]
  {
  }

  /** Dropping in two stages is dropping once. */
  lemma {:induction false} KeptComposes(log: seq<Record>, drop: set<nat>, again: set<nat>, both: set<nat>, n: nat)
    requires n <= |log|
    requires forall k :: 0 <= k < n ==> DroppedInEither(log, drop, again, both, k)
    ensures Rank(log, drop, n) <= Rank(log, drop, |log|)
    ensures Kept(log, both, n) == Kept(Kept(log, drop, |log|), again, Rank(log, drop, n))
  {
    KeptIsPrefix(log, drop, n, |log|);
    if n > 0 {
      var m := n - 1;
      KeptComposes(log, drop, again, both, m);
      assert DroppedInEither(log, drop, again, both, m);
      KeptStep(log, drop, m);
      KeptStep(log, both, m);
      if m !in drop {
        KeptAt(log, drop, m);
        KeptStep(Kept(log, drop, |log|), again, Rank(log, drop, m));
      }
    }
  }

  lemma {:induction false} KeptOfPrefix(log: seq<Record>, longer: seq<Record>, drop: set<nat>, n: nat)
    requires log <= longer && n <= |log|
    ensures Kept(longer, drop, n) == Kept(log, drop, n)
  {
    if n > 0 {
      KeptOfPrefix(log, longer, drop, n - 1);
    }
  }

  lemma {:induction false} LatestProducerOfPrefix(
    log: seq<Record>, longer: seq<Record>, hash: string, wanted: Option<string>, n: nat)
    requires log <= longer && n <= |log|
    ensures LatestProducer(longer, hash, wanted, n) == LatestProducer(log, hash, wanted, n)
  {
    if n > 0 {
      LatestProducerOfPrefix(log, longer, hash, wanted, n - 1);
    }
  }

  lemma FindProducerOfPrefix(log: seq<Record>, longer: seq<Record>, e: Entity, n: nat)
    requires log <= longer && n <= |log|
    ensures FindProducerBefore(longer, e, n) == FindProducerBefore(log, e, n)
  {
    LatestProducerOfPrefix(log, longer, e.contentHash, e.Label(), n);
    LatestProducerOfPrefix(log, longer, e.contentHash, None, n);
  }

  lemma {:induction false} UsesOfPrefix(log: seq<Record>, longer: seq<Record>, es: seq<Entity>, n: nat)
    requires log <= longer && n <= |log|
    ensures UsesAll(longer, es, n) == UsesAll(log, es, n)
    decreases n, |es|
  {
    if es != [] {
      UsesOfPrefix(log, longer, es[1..], n);
      FindProducerOfPrefix(log, longer, es[0], n);
      var p := FindProducerBefore(log, es[0], n);
      if p.Some? {
        UsesOfPrefix(log, longer, log[p.value].inputs, p.value);
      }
    }
  }

  lemma {:induction false} UsesAllDisjoint(log: seq<Record>, es: seq<Entity>, n: nat, drop: set<nat>)
    requires forall e | e in es :: Uses(log, e, n) !! drop
    ensures UsesAll(log, es, n) !! drop
    decreases |es|
  {
    if es != [] {
      UsesAllDisjoint(log, es[1..], n, drop);
    }
  }

  /** Entities that exist already and the outputs of the record are always admissible. */
  lemma LiveAndOutputsAreAdmissible(log: seq<Record>, r: Record, live: seq<Entity>, e: Entity)
    requires e in live || e in r.outputs
    ensures e in live ==> Admissible(log, live, e)
    ensures AdmissibleAfter(log, r, live, e)
  {
    var longer := log + [r];
    if e in r.outputs {
      assert Produces(longer[|log|], e.contentHash, e.Label()) && Produces(longer[|log|], e.contentHash, None);
    } else {
      FindProducerOfPrefix(log, longer, e, |log|);
      assert longer[|log|] == r;
      if FindProducerBefore(longer, e, |log| + 1) != Some(|log|) {
        assert FindProducerBefore(longer, e, |log| + 1) == FindProducerBefore(longer, e, |log|);
      }
    }
  }

  lemma AdmissibleIsClear(log: seq<Record>, live: seq<Entity>, e: Entity, drop: set<nat>)
    requires UsesAll(log, live, |log|) !! drop && Admissible(log, live, e)
    ensures Uses(log, e, |log|) !! drop
  {
    if FindProducerBefore(log, e, |log|).Some? {
      var l :| l in live && FindProducerBefore(log, l, |log|) == FindProducerBefore(log, e, |log|);
      assert Uses(log, l, |log|) <= UsesAll(log, live, |log|);
    }
  }

  /** Appending a record keeps the walks of live entities clear of what pruning dropped. */
  lemma AppendKeepsClear(log: seq<Record>, r: Record, live: seq<Entity>, live': seq<Entity>, drop: set<nat>)
    requires UsesAll(log, live, |log|) !! drop
    requires forall k :: k in drop ==> k < |log|
    requires forall e | e in r.inputs :: Admissible(log, live, e)
    requires forall e | e in live' :: AdmissibleAfter(log, r, live, e)
    ensures UsesAll(log + [r], live', |log| + 1) !! drop
  {
    var n, longer := |log|, log + [r];
    forall e | e in live'
      ensures Uses(longer, e, n + 1) !! drop
    {
      var p := FindProducerBefore(longer, e, n + 1);
      if p == Some(n) {
        UsesOfPrefix(log, longer, r.inputs, n);
        forall i | i in r.inputs ensures Uses(log, i, n) !! drop {
          AdmissibleIsClear(log, live, i, drop);
        }
        UsesAllDisjoint(log, r.inputs, n, drop);
      } else if p.Some? {
        var l :| l in live && FindProducerBefore(log, l, n) == p;
        assert Uses(log, l, n) <= UsesAll(log, live, n);
        UsesOfPrefix(log, longer, log[p.value].inputs, p.value);
      }
    }
    UsesAllDisjoint(longer, live', n + 1, drop);
  }

  /** Whatever the run, the pruned log is the never-pruned one without the dropped records. */
  lemma {:induction false} RunIsKept(steps: seq<Step>)
    ensures var (full, live) := RunSteps(steps, false);
            && RunSteps(steps, true) == (Kept(full, DropOf(steps), |full|), live)
            && forall k :: k in DropOf(steps) ==> k < |full|
  {
    if steps != [] {
      var init := steps[..|steps| - 1];
      RunIsKept(init);
      var full, drop := RunSteps(init, false).0, DropOf(init);
      match steps[|steps| - 1]
      case Append(r, _) => KeptOfPrefix(full, full + [r], drop, |full|);
      case Exist(_) =>
      case Prune(cutoff) => KeptMore(full, drop, Dropped(Kept(full, drop, |full|), cutoff, RunSteps(init, false).1));
    }
  }

  lemma KeptMore(full: seq<Record>, drop: set<nat>, again: set<nat>)
    requires forall k :: k in drop ==> k < |full|
    ensures Kept(full, DropMore(full, drop, again), |full|) == Kept(Kept(full, drop, |full|), again, Rank(full, drop, |full|))
  {
    var both := DropMore(full, drop, again);
    assert forall k :: 0 <= k < |full| ==> DroppedInEither(full, drop, again, both, k);
    KeptComposes(full, drop, again, both, |full|);
  }

  /** One more prune drops nothing that a live walk of the never-pruned log uses. */
  lemma PruneKeepsClear(full: seq<Record>, drop: set<nat>, live: seq<Entity>, cutoff: int)
    requires UsesAll(full, live, |full|) !! drop
    ensures UsesAll(full, live, |full|) !! DropMore(full, drop, Dropped(Kept(full, drop, |full|), cutoff, live))
  {
    UsesInRange(full, live, |full|);
    forall k | k in UsesAll(full, live, |full|)
      ensures Rank(full, drop, k) in Reachable(Kept(full, drop, |full|), live)
    {
      UsesRenumbered(full, drop, live, |full|, k);
    }
  }

  /** One step of a well-formed history. */
  lemma StepKeepsClear(full: seq<Record>, live: seq<Entity>, drop: set<nat>, step: Step)
    requires UsesAll(full, live, |full|) !! drop && forall k :: k in drop ==> k < |full|
    requires StepIsAdmissible(full, live, step)
    ensures match step
            case Append(r, live') => UsesAll(full + [r], live', |full| + 1) !! drop
            case Exist(live') => UsesAll(full, live', |full|) !! drop
            case Prune(cutoff) => UsesAll(full, live, |full|) !! DropMore(full, drop, Dropped(Kept(full, drop, |full|), cutoff, live))
  {
    match step
    case Append(r, live') => AppendKeepsClear(full, r, live, live', drop);
    case Exist(live') =>
      forall e | e in live' ensures Uses(full, e, |full|) !! drop {
        AdmissibleIsClear(full, live, e, drop);
      }
      UsesAllDisjoint(full, live', |full|, drop);
    case Prune(cutoff) => PruneKeepsClear(full, drop, live, cutoff);
  }

  /** Over a well-formed history nothing dropped is used by a live walk of the never-pruned log. */
  lemma {:induction false} RunDropsOnlyUnused(steps: seq<Step>)
    requires WellFormedRun(steps)
    ensures var (full, live) := RunSteps(steps, false); UsesAll(full, live, |full|) !! DropOf(steps)
  {
    if steps != [] {
      var init := steps[..|steps| - 1];
      RunDropsOnlyUnused(init);
      RunIsKept(init);
      var (full, live) := RunSteps(init, false);
      StepKeepsClear(full, live, DropOf(init), steps[|steps| - 1]);
    }
  }

  /** However often a well-formed history prunes, the ancestry of every live entity is what it is without pruning. */
  lemma PruningIsInvisible(steps: seq<Step>, e: Entity)
    requires WellFormedRun(steps)
    requires e in RunSteps(steps, false).1
    ensures Resolve(RunSteps(steps, true).0, e) == Resolve(RunSteps(steps, false).0, e)
  {
    RunIsKept(steps);
    RunDropsOnlyUnused(steps);
    var (full, live) := RunSteps(steps, false);
    assert Uses(full, e, |full|) <= UsesAll(full, live, |full|);
    ResolveOneRenumbered(full, DropOf(steps), e);
  }

  // ---------------------------------------------------------------- newcomers to a pruned log

  /** The record that place `j` of the pruned log holds. */
  ghost function Unrank(log: seq<Record>, drop: set<nat>, n: nat, j: nat): nat
    requires n <= |log|
  {
    if n == 0 then 0
    else if n - 1 !in drop && j == Rank(log, drop, n - 1) then n - 1
    else Unrank(log, drop, n - 1, j)
  }

  lemma {:induction false} UnrankIs(log: seq<Record>, drop: set<nat>, n: nat, j: nat)
    requires n <= |log| && j < Rank(log, drop, n)
    ensures var k := Unrank(log, drop, n, j); k < n && k !in drop && Rank(log, drop, k) == j
  {
    if !(n - 1 !in drop && j == Rank(log, drop, n - 1)) {
      UnrankIs(log, drop, n - 1, j);
    }
  }

  lemma RankInjective(log: seq<Record>, drop: set<nat>, i: nat, k: nat)
    requires i < k < |log| && i !in drop
    ensures Rank(log, drop, i) < Rank(log, drop, k)
  {
    KeptIsPrefix(log, drop, i + 1, k);
  }

  /** Any entity finds its producer again in the pruned log exactly when it has none or its producer was kept. */
  lemma ProducerSurvivesIff(log: seq<Record>, drop: set<nat>, e: Entity)
    ensures var kept := Kept(log, drop, |log|);
            var p, q := FindProducerBefore(log, e, |log|), FindProducerBefore(kept, e, |kept|);
            (if q.None? then p.None? else p == Some(Unrank(log, drop, |log|, q.value)))
            <==> p.None? || p.value !in drop
  {
    var kept := Kept(log, drop, |log|);
    var p, q := FindProducerBefore(log, e, |log|), FindProducerBefore(kept, e, |kept|);
    if p.None? || p.value !in drop {
      FindProducerRenumbered(log, drop, e, |log|);
    }
    if q.Some? {
      UnrankIs(log, drop, |log|, q.value);
      var k := Unrank(log, drop, |log|, q.value);
      if p.Some? && p.value !in drop && k != p.value {
        RankInjective(log, drop, if k < p.value then k else p.value, if k < p.value then p.value else k);
      }
    }
  }

  /** No two records of the log show as the same node. */
  ghost predicate Distinct(log: seq<Record>) {
    forall i, j :: 0 <= i < j < |log| ==> !SameNode(log[i], log[j])
  }

  ghost predicate SameNode(r: Record, s: Record) {
    r.operation == s.operation && r.parameters == s.parameters && r.timestamp == s.timestamp && r.executionId == s.executionId
  }

  lemma HeadAndTail<T>(x: T, xs: seq<T>, y: T, ys: seq<T>)
    requires [x] + xs == [y] + ys
    ensures x == y && xs == ys
  {
    assert ([x] + xs)[0] == x && ([y] + ys)[0] == y;
    assert ([x] + xs)[1..] == xs && ([y] + ys)[1..] == ys;
  }

  /** Where records are told apart, trees survive renumbering only if they show no dropped record. */
  lemma {:induction false} SameTreesUseKept(log: seq<Record>, drop: set<nat>, es: seq<Entity>, n: nat, depth: nat)
    requires n <= |log| && Distinct(log)
    requires ResolveAll(Kept(log, drop, |log|), es, Rank(log, drop, n), depth) == ResolveAll(log, es, n, depth)
    ensures ShowsAll(log, es, n, depth) !! drop
    decreases n, |es|
  {
    if es != [] {
      var kept, m := Kept(log, drop, |log|), Rank(log, drop, n);
      HeadAndTail(ResolveBounded(kept, es[0], m, depth), ResolveAll(kept, es[1..], m, depth),
                  ResolveBounded(log, es[0], n, depth), ResolveAll(log, es[1..], n, depth));
      SameTreesUseKept(log, drop, es[1..], n, depth);
      var p := FindProducerBefore(log, es[0], n);
      if p.Some? && depth < MAX_ANCESTRY_DEPTH {
        SameNodeIsKept(log, drop, es[0], n, depth);
        SameTreesUseKept(log, drop, log[p.value].inputs, p.value, depth + 1);
      }
    }
  }

  lemma SameNodeIsSame(log: seq<Record>, j: nat, k: nat)
    requires Distinct(log) && j < |log| && k < |log| && SameNode(log[j], log[k])
    ensures j == k
  {
    assert SameNode(log[k], log[j]);
  }

  lemma SameNodeIsKept(log: seq<Record>, drop: set<nat>, e: Entity, n: nat, depth: nat)
    requires n <= |log| && depth < MAX_ANCESTRY_DEPTH && Distinct(log)
    requires ResolveBounded(Kept(log, drop, |log|), e, Rank(log, drop, n), depth) == ResolveBounded(log, e, n, depth)
    requires FindProducerBefore(log, e, n).Some?
    ensures var k := FindProducerBefore(log, e, n).value;
            && k !in drop
            && ResolveAll(Kept(log, drop, |log|), log[k].inputs, Rank(log, drop, k), depth + 1)
               == ResolveAll(log, log[k].inputs, k, depth + 1)
  {
    var kept := Kept(log, drop, |log|);
    var k := FindProducerBefore(log, e, n).value;
    var q := FindProducerBefore(kept, e, Rank(log, drop, n));
    var there := ResolveBounded(kept, e, Rank(log, drop, n), depth);
    assert there == Node(e, log[k], ResolveAll(log, log[k].inputs, k, depth + 1));
    assert q.Some?;
    UnrankIs(log, drop, |log|, q.value);
    var j := Unrank(log, drop, |log|, q.value);
    KeptAt(log, drop, j);
    assert there == Node(e, log[j], ResolveAll(kept, log[j].inputs, q.value, depth + 1));
    SameNodeIsSame(log, j, k);
  }

  /** An entity of any kind sees the prunes of a run exactly when its tree over the never-pruned log shows what they dropped. */
  lemma PruningIsInvisibleIff(steps: seq<Step>, e: Entity)
    requires Distinct(RunSteps(steps, false).0)
    ensures Resolve(RunSteps(steps, true).0, e) == Resolve(RunSteps(steps, false).0, e)
            <==> Shows(RunSteps(steps, false).0, e, |RunSteps(steps, false).0|, 0) !! DropOf(steps)
  {
    RunIsKept(steps);
    var full, drop := RunSteps(steps, false).0, DropOf(steps);
    var kept := Kept(full, drop, |full|);
    ResolveOne(full, e);
    ResolveOne(kept, e);
    ShowsOne(full, e);
    if Shows(full, e, |full|, 0) !! drop {
      ShownRenumbered(full, drop, [e], |full|, 0);
    }
    if Resolve(kept, e) == Resolve(full, e) {
      SameTreesUseKept(full, drop, [e], |full|, 0);
    }
  }

  lemma ShowsOne(log: seq<Record>, e: Entity)
    ensures ShowsAll(log, [e], |log|, 0) == Shows(log, e, |log|, 0)
  {
    assert [e][1..] == [];
  }

  /**
   A run in which pruning shows: `a` is loaded, a filter that removes nothing makes `b` of the same content, `b`
   goes and its record is pruned, then `c` is bound to `a`. Without the prune `c` is traced to the filter.
   */
  lemma AliasSeesPruning(h: string, load: Record, filter: Record)
    returns (steps: seq<Step>, c: Entity)
    requires load.operation == "LOAD" && load.inputs == [] && load.outputs == [DatasetEntity("a", h)]
    requires filter.operation == "FILTER" && filter.inputs == [DatasetEntity("a", h)] && filter.outputs == [DatasetEntity("b", h)]
    ensures c == DatasetEntity("c", h)
    ensures exists cutoff :: steps == [Append(load, load.outputs), Append(filter, load.outputs + filter.outputs),
                                       Exist(load.outputs), Prune(cutoff), Exist(load.outputs + [c])]
    ensures Resolve(RunSteps(steps, false).0, c).operation == "FILTER"
    ensures Resolve(RunSteps(steps, true).0, c).operation == "LOAD"
  {
    c := DatasetEntity("c", h);
    var a := DatasetEntity("a", h);
    var cutoff := filter.timestamp + if load.timestamp > filter.timestamp then load.timestamp - filter.timestamp + 1 else 1;
    var log := [load, filter];
    var s1 := [Append(load, load.outputs), Append(filter, load.outputs + filter.outputs)];
    var s2 := s1 + [Exist(load.outputs)];
    var s3 := s2 + [Prune(cutoff)];
    steps := s3 + [Exist(load.outputs + [c])];
    RunOfFirst(load, filter, s1);
    RunSnoc(s1, Exist(load.outputs));
    RunSnoc(s2, Prune(cutoff));
    RunSnoc(s3, Exist(load.outputs + [c]));
    FilterIsDropped(log, cutoff, a);
    assert !Produces(load, h, Some("c")) && !Produces(filter, h, Some("c"));
    assert Produces(filter, h, None) && Produces(load, h, None);
    LookupInTwo(log, c);
  }

  lemma RunSnoc(steps: seq<Step>, step: Step)
    ensures forall pruning :: RunSteps(steps + [step], pruning) ==
                              var (log, live) := RunSteps(steps, pruning);
                              match step
                              case Append(r, live') => (log + [r], live')
                              case Exist(live') => (log, live')
                              case Prune(cutoff) => (if pruning then Pruned(log, cutoff, live) else log, live)
  {
    assert (steps + [step])[..|steps|] == steps;
  }

  lemma RunOfFirst(load: Record, filter: Record, steps: seq<Step>)
    requires steps == [Append(load, load.outputs), Append(filter, load.outputs + filter.outputs)]
    ensures forall pruning :: RunSteps(steps, pruning) == ([load, filter], load.outputs + filter.outputs)
  {
    RunSnoc([], Append(load, load.outputs));
    assert [] + [Append(load, load.outputs)] == [Append(load, load.outputs)];
    RunSnoc([Append(load, load.outputs)], Append(filter, load.outputs + filter.outputs));
    assert [Append(load, load.outputs)] + [Append(filter, load.outputs + filter.outputs)] == steps;
    assert [] + [load] == [load] && [load] + [filter] == [load, filter];
  }

  lemma FilterIsDropped(log: seq<Record>, cutoff: int, a: Entity)
    requires |log| == 2 && a.DatasetEntity? && log[0].inputs == [] && log[0].outputs == [a]
    requires log[1].outputs == [DatasetEntity("b", a.contentHash)] && a.name == "a"
    requires log[0].timestamp < cutoff && log[1].timestamp < cutoff
    ensures Pruned(log, cutoff, [a]) == [log[0]]
  {
    assert Produces(log[0], a.contentHash, Some("a")) && !Produces(log[1], a.contentHash, Some("a"));
    assert LatestProducer(log, a.contentHash, Some("a"), 1) == Some(0);
    assert FindProducerBefore(log, a, 2) == Some(0);
    assert UsesAll(log, [a], 2) == Uses(log, a, 2) + UsesAll(log, [a][1..], 2) && [a][1..] == [];
    assert Reachable(log, [a]) == {0};
    assert Dropped(log, cutoff, [a]) == {1};
    KeptStep(log, {1}, 0);
    KeptStep(log, {1}, 1);
  }

  lemma LookupInTwo(log: seq<Record>, c: Entity)
    requires |log| == 2 && c.Label().Some?
    requires forall k :: 0 <= k < 2 ==> Produces(log[k], c.contentHash, None) && !Produces(log[k], c.contentHash, c.Label())
    ensures Resolve(log, c).operation == log[1].operation
    ensures Resolve([log[0]], c).operation == log[0].operation
  {
    assert FindProducerBefore(log, c, 2) == Some(1);
    assert [log[0]][0] == log[0];
    assert FindProducerBefore([log[0]], c, 1) == Some(0);
  }

  // ---------------------------------------------------------------- the store

  ghost function Below(n: nat): (s: set<nat>)
    ensures forall k: nat :: k in s <==> k < n
  {
    if n == 0 then {} else Below(n - 1) + {n - 1}
  }

  ghost function Members(s: set<nat>, n: nat): set<nat> {
    set k | k in s && k < n
  }

  lemma MembersStep(s: set<nat>, n: nat)
    ensures |Members(s, n + 1)| == |Members(s, n)| + if n in s then 1 else 0
  {
    assert Members(s, n + 1) == if n in s then Members(s, n) + {n} else Members(s, n);
  }

  /** The stale records a live root still needs. */
  ghost function Spared(log: seq<Record>, cutoff: int, roots: seq<Entity>): set<nat> {
    set k: nat | 0 <= k < |log| && Stale(log, cutoff, k) && k in Reachable(log, roots)
  }

  class ProvenanceStore {
    var records: seq<Record>

    constructor ()
      ensures records == []
    {
      records := [];
    }

    method Append(record: Record)
      modifies this
      ensures records == old(records) + [record]
    {
      records := records + [record];
    }

    /** The tree is the one ancestry of `e` that the whole log describes. */
    method ResolveAncestry(e: Entity) returns (tree: Tree)
      ensures IsAncestry(records, e, |records|, 0, tree)
      ensures forall t :: IsAncestry(records, e, |records|, 0, t) ==> t == tree
    {
      tree := ResolveBounded(records, e, |records|, 0);
      ResolveIsAncestry(records, e, |records|, 0);
      forall t | IsAncestry(records, e, |records|, 0, t)
        ensures t == tree
      {
        AncestryIsUnique(records, e, |records|, 0, t);
      }
    }

    /** The worklist terminates and visits exactly the records the roots' unbounded walks use. */
    method ReachableIndices(roots: seq<Entity>) returns (visited: set<nat>)
      ensures visited == Reachable(records, roots)
    {
      visited := {};
      var log := records;
      ghost var goal := Reachable(log, roots);
      var stack := PendingAll(roots, |log|);
      while stack != []
        invariant visited <= Below(|log|)
        invariant Sound(log, goal, visited, stack)
        invariant Closing(log, roots, visited, stack)
        decreases Below(|log|) - visited, |stack|
      {
        var item, rest := stack[|stack| - 1], stack[..|stack| - 1];
        assert forall p | p in stack :: p in rest || p == item;
        var producer := FindProducerBefore(log, item.entity, item.before);
        if producer.Some? && producer.value !in visited {
          var idx := producer.value;
          var pushed := rest + PendingAll(log[idx].inputs, idx);
          PushKeepsSound(log, goal, visited, rest, item);
          assert InputsCovered(log, idx, visited + {idx}, pushed);
          PopKeepsClosing(log, roots, visited, stack, item, visited + {idx}, pushed);
          visited, stack := visited + {idx}, pushed;
        } else {
          PopKeepsClosing(log, roots, visited, stack, item, visited, rest);
          stack := rest;
        }
      }
      ClosedHoldsUses(log, roots, |log|, visited);
    }

    /** Drops exactly the stale records no live root needs and reports what happened. */
    method PruneBefore(cutoff: int, liveRoots: seq<Entity>) returns (report: PruneReport)
      modifies this
      ensures records == Pruned(old(records), cutoff, liveRoots)
      ensures report.totalBefore == |old(records)| && report.totalAfter == |records|
      ensures report.pruned == |Dropped(old(records), cutoff, liveRoots)|
      ensures report.retainedBecauseLive == |Spared(old(records), cutoff, liveRoots)|
    {
      var reachable := ReachableIndices(liveRoots);
      var totalBefore := |records|;
      var retained := 0;
      var kept: seq<Record> := [];
      ghost var drop, spared := Dropped(records, cutoff, liveRoots), Spared(records, cutoff, liveRoots);
      for idx := 0 to |records|
        invariant records == old(records)
        invariant kept == Kept(records, drop, idx)
        invariant |kept| == idx - |Members(drop, idx)|
        invariant retained == |Members(spared, idx)|
      {
        MembersStep(drop, idx);
        MembersStep(spared, idx);
        var isStale := records[idx].timestamp < cutoff;
        var isReachable := idx in reachable;
        if isStale && !isReachable {
        } else {
          if isStale && isReachable {
            retained := retained + 1;
          }
          kept := kept + [records[idx]];
        }
      }
      assert Members(drop, |records|) == drop && Members(spared, |records|) == spared;
      records := kept;
      report := PruneReport(totalBefore, |kept|, totalBefore - |kept|, retained);
    }
  }
}
