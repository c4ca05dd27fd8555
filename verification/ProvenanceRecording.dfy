/**
 `record_provenance` of `src/engine/db.rs`: which records reach the log, during replay and outside it, and
 what that does to the ancestry of content the log already knows.
 */
module ProvenanceRecording {
  import opened Common
  import opened Provenance

  /** `find_producer` knows a record for this content. */
  predicate Known(log: seq<Record>, hash: string) {
    LatestProducer(log, hash, None, |log|).Some?
  }

  predicate AllKnown(log: seq<Record>, r: Record) {
    forall o <- r.outputs :: Known(log, o.contentHash)
  }

  /** A root for content that already has a history. */
  predicate Redundant(log: seq<Record>, r: Record) {
    r.inputs == [] && r.outputs != [] && AllKnown(log, r)
  }

  /** Whether the record is appended; `replayingRecords` says that the replay is of log records, not of a checkpoint. */
  predicate IsRecorded(log: seq<Record>, r: Record, replaying: bool, replayingRecords: bool) {
    !(replaying && (!replayingRecords || AllKnown(log, r))) && !Redundant(log, r)
  }

  function Recorded(log: seq<Record>, r: Record, replaying: bool, replayingRecords: bool): seq<Record> {
    if IsRecorded(log, r, replaying, replayingRecords) then log + [r] else log
  }

  method RecordProvenance(store: ProvenanceStore, r: Record, replaying: bool, replayingRecords: bool)
    modifies store
    ensures store.records == Recorded(old(store.records), r, replaying, replayingRecords)
  {
    if replaying && (!replayingRecords || AllKnown(store.records, r)) {
      return;
    }
    if Redundant(store.records, r) {
      return;
    }
    store.Append(r);
  }

  /** No record of the log has an output with this content. */
  ghost predicate IsNew(log: seq<Record>, hash: string) {
    forall k, o :: 0 <= k < |log| && o in log[k].outputs ==> o.contentHash != hash
  }

  lemma KnownIsNotNew(log: seq<Record>, hash: string)
    ensures Known(log, hash) <==> !IsNew(log, hash)
  {
    var producer := LatestProducer(log, hash, None, |log|);
    if producer.Some? {
      var o :| o in log[producer.value].outputs && o.contentHash == hash;
    } else {
      forall k, o | 0 <= k < |log| && o in log[k].outputs
        ensures o.contentHash != hash
      {
        assert !Produces(log[k], hash, None);
      }
    }
  }

  /**
   While statements are replayed, a record is kept exactly if some output is new; while a checkpoint is restored or
   written, none is. Otherwise one is skipped exactly if it has no inputs, and outputs none of which is new.
   */
  lemma RecordedWhen(log: seq<Record>, r: Record, replaying: bool, replayingRecords: bool)
    ensures var gains := exists o :: o in r.outputs && IsNew(log, o.contentHash);
            Recorded(log, r, replaying, replayingRecords)
            == if (if replaying then replayingRecords && gains else r.inputs != [] || r.outputs == [] || gains) then log + [r] else log
  {
    forall o | o in r.outputs
      ensures Known(log, o.contentHash) <==> !IsNew(log, o.contentHash)
    {
      KnownIsNotNew(log, o.contentHash);
    }
    if r.outputs != [] {
      assert r.outputs[0] in r.outputs;
    }
  }

  /** Replaying a record that the log holds adds nothing, however often. */
  lemma ReplayAddsNothing(log: seq<Record>, r: Record, replayingRecords: bool)
    requires r in log
    ensures Recorded(log, r, true, replayingRecords) == log
  {
    var k :| 0 <= k < |log| && log[k] == r;
    forall o | o in r.outputs
      ensures !IsNew(log, o.contentHash)
    {
      assert o in log[k].outputs;
    }
    RecordedWhen(log, r, true, replayingRecords);
  }

  /** The producer of an entity after one more record. */
  lemma ProducerAfterAppend(log: seq<Record>, r: Record, e: Entity)
    ensures FindProducerBefore(log + [r], e, |log| + 1)
            == if Produces(r, e.contentHash, e.Label()) && e.Label().Some? then Some(|log|)
               else if e.Label().Some? && LatestProducer(log, e.contentHash, e.Label(), |log|).Some?
                 then LatestProducer(log, e.contentHash, e.Label(), |log|)
               else if Produces(r, e.contentHash, None) then Some(|log|)
               else FindProducerBefore(log, e, |log|)
  {
    assert (log + [r])[|log|] == r;
    LatestProducerOfPrefix(log, log + [r], e.contentHash, e.Label(), |log|);
    LatestProducerOfPrefix(log, log + [r], e.contentHash, None, |log|);
  }

  /** The entity's own node names inputs. */
  predicate HasHistory(log: seq<Record>, e: Entity) {
    var p := FindProducerBefore(log, e, |log|);
    p.Some? && log[p.value].inputs != []
  }

  /** It is what the resolved tree shows. */
  lemma HistoryIsShown(log: seq<Record>, e: Entity)
    ensures HasHistory(log, e) <==> Resolve(log, e).inputs != []
  {
    var p := FindProducerBefore(log, e, |log|);
    if p.Some? {
      ResolveAllAt(log, log[p.value].inputs, p.value, 1);
    }
  }

  lemma ProducerIsKnown(log: seq<Record>, e: Entity)
    requires FindProducerBefore(log, e, |log|).Some?
    ensures Known(log, e.contentHash)
  {
    var k := FindProducerBefore(log, e, |log|).value;
    assert Produces(log[k], e.contentHash, None);
  }

  /** The same content under no name. */
  function Unnamed(e: Entity): Entity {
    TensorEntity(0, None, e.contentHash)
  }

  /** A recorded root one of whose outputs has a history, under its name or under none. */
  ghost predicate Hides(log: seq<Record>, r: Record, replaying: bool, replayingRecords: bool) {
    && IsRecorded(log, r, replaying, replayingRecords) && r.inputs == []
    && exists o | o in r.outputs :: HasHistory(log, o) || HasHistory(log, Unnamed(o))
  }

  /** A record turns the shown ancestry of an entity into a bare root only if it hides it. */
  lemma RecordingKeepsHistory(log: seq<Record>, r: Record, replaying: bool, replayingRecords: bool, e: Entity)
    requires !Hides(log, r, replaying, replayingRecords) && HasHistory(log, e)
    ensures HasHistory(Recorded(log, r, replaying, replayingRecords), e)
  {
    if IsRecorded(log, r, replaying, replayingRecords) {
      ProducerAfterAppend(log, r, e);
      var after := log + [r];
      var p := FindProducerBefore(after, e, |after|).value;
      if p == |log| {
        var wanted := if Produces(r, e.contentHash, e.Label()) && e.Label().Some? then e.Label() else None;
        var o :| o in r.outputs && o.contentHash == e.contentHash && (wanted.Some? ==> o.Label() == wanted);
        assert HasHistory(log, o) || HasHistory(log, Unnamed(o));
      } else {
        assert after[p] == log[p];
      }
    }
  }

  /** Recording hides the history of some entity exactly when a recorded root has an output with a history. */
  lemma RecordingHidesIff(log: seq<Record>, r: Record, replaying: bool, replayingRecords: bool)
    ensures (exists e :: HasHistory(log, e) && !HasHistory(Recorded(log, r, replaying, replayingRecords), e))
            <==> Hides(log, r, replaying, replayingRecords)
  {
    if Hides(log, r, replaying, replayingRecords) {
      var o :| o in r.outputs && (HasHistory(log, o) || HasHistory(log, Unnamed(o)));
      var e := if HasHistory(log, o) then o else Unnamed(o);
      assert Produces(r, o.contentHash, o.Label()) && Produces(r, o.contentHash, None);
      ProducerAfterAppend(log, r, e);
      assert (log + [r])[|log|] == r;
      assert HasHistory(log, e) && !HasHistory(Recorded(log, r, replaying, replayingRecords), e);
    } else {
      forall e | HasHistory(log, e)
        ensures HasHistory(Recorded(log, r, replaying, replayingRecords), e)
      {
        RecordingKeepsHistory(log, r, replaying, replayingRecords, e);
      }
    }
  }

  lemma HistoryIsKnown(log: seq<Record>, o: Entity)
    requires HasHistory(log, o) || HasHistory(log, Unnamed(o))
    ensures Known(log, o.contentHash)
  {
    ProducerIsKnown(log, if HasHistory(log, o) then o else Unnamed(o));
  }

  /** A root with at most one output never hides anything: the guard refuses it. */
  lemma OneOutputHidesNothing(log: seq<Record>, r: Record, replaying: bool, replayingRecords: bool)
    requires |r.outputs| <= 1
    ensures !Hides(log, r, replaying, replayingRecords)
  {
    if |r.outputs| == 1 {
      var o := r.outputs[0];
      if HasHistory(log, o) || HasHistory(log, Unnamed(o)) {
        HistoryIsKnown(log, o);
        assert AllKnown(log, r);
      }
    }
  }

  /** With several outputs the guard looks at all of them, so one new output lets a root hide another's history. */
  lemma TwoOutputsHideHistory(log: seq<Record>, r: Record, e: Entity, other: Entity)
    requires HasHistory(log, e) && r.inputs == [] && r.outputs == [e, other] && !Known(log, other.contentHash)
    ensures IsRecorded(log, r, false, false) && !HasHistory(Recorded(log, r, false, false), e)
  {
    assert other in r.outputs && e in r.outputs;
    ProducerAfterAppend(log, r, e);
    assert Produces(r, e.contentHash, e.Label());
    assert (log + [r])[|log|] == r;
  }
}
