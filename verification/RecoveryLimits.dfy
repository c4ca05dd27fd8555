/**
 Where the durability promise ends: for each kind of event the safe runs exclude, the exact
 condition under which the database still comes back as promised.
 */
module RecoveryLimits {
  import opened Common
  import opened WalCodec
  import opened WriteAheadLog
  import opened Recovery

  /** A running database whose log is in place, in step with its memory and ends in a whole line. */
  ghost predicate Ready<S(!new)>(e: Engine<S>, db: Db<S>, h: History, w: Layout) {
    Inv(e, db, h, w) && db.process.Running? && !db.process.broken && !db.process.detached && EndsLine(db.disk.log)
  }

  /** In a ready database the records replayed over the checkpoint give back the memory. */
  lemma ReplayGivesMemory<S(!new)>(e: Engine<S>, db: Db<S>, h: History, w: Layout)
    requires Ready(e, db, h, w)
    ensures db.disk.log == Encoded(w.rs) && Consecutive(w.rs) && w.tail == Torn([])
    ensures Apply(e, Base(e, db.disk).state, Uncovered(w.rs, Base(e, db.disk).seqNo)) == Some(db.process.memory)
  {
    TailIsEmpty(db.disk, w);
    assert Encoded(w.rs) + [] == Encoded(w.rs);
    var logged := w.covered + Uncovered(w.rs, Base(e, db.disk).seqNo);
    assert logged + [] == logged;
    ReplayGives(e, Base(e, db.disk), h, w);
  }

  /** The same with one more record. */
  lemma ReplayOneMore<S(!new)>(e: Engine<S>, db: Db<S>, h: History, w: Layout, statement: Statement)
    requires Ready(e, db, h, w) && e.step(db.process.memory, statement).Some?
    ensures var base, r := Base(e, db.disk), WalRecord(db.process.nextSeq, statement);
            && Apply(e, base.state, Uncovered(w.rs + [r], base.seqNo)) == e.step(db.process.memory, statement)
            && LastSeq(w.rs + [r], base.seqNo) == r.seqNo
            && LastSeq(w.rs, base.seqNo) == r.seqNo - 1
            && (w.rs != [] ==> w.rs[|w.rs| - 1].seqNo + 1 == r.seqNo)
            && Consecutive(w.rs + [r])
  {
    var base, r := Base(e, db.disk), WalRecord(db.process.nextSeq, statement);
    ReplayGivesMemory(e, db, h, w);
    UncoveredAppend(w.rs, r, base.seqNo);
    ApplyOne(e, base.state, Uncovered(w.rs, base.seqNo), statement);
  }

  /** The record a ready database writes for its next statement. */
  function NextRecord<S>(db: Db<S>, statement: Statement): WalRecord
    requires db.process.Running?
  {
    WalRecord(db.process.nextSeq, statement)
  }

  /** The disk after the next append got as far as `k` bytes. */
  function TornAt<S>(db: Db<S>, statement: Statement, k: nat): Disk<S>
    requires db.process.Running? && k <= |Entry(NextRecord(db, statement))|
  {
    db.disk.(log := db.disk.log + Entry(NextRecord(db, statement))[..k])
  }

  lemma CoveredThenOne<S>(e: Engine<S>, rs: seq<WalRecord>, r: WalRecord, m: S)
    requires Consecutive(rs + [r]) && r.seqNo > 0
    ensures Uncovered(rs, r.seqNo - 1) == []
    ensures Apply(e, m, Uncovered(rs + [r], r.seqNo - 1)) == e.step(m, r.statement)
  {
    ConsecutivePrefix(rs, [r]);
    assert rs != [] ==> (rs + [r])[|rs|] == r && (rs + [r])[|rs| - 1] == rs[|rs| - 1];
    AllCovered(rs, r.seqNo - 1);
    UncoveredAppend(rs, r, r.seqNo - 1);
    ApplyOne(e, m, [], r.statement);
    assert [] + [r.statement] == [r.statement];
  }

  /** A checkpoint that already holds the statement, replayed over a log that may hold it too. */
  lemma ReplayOverCovering<S>(e: Engine<S>, rs: seq<WalRecord>, r: WalRecord, k: nat, m: S)
    requires Consecutive(rs + [r]) && k <= |Entry(r)| && r.seqNo > 0
    ensures var back := ReplayOver(e, Checkpoint(r.seqNo - 1, m), CutOutcome(rs, r, k));
            back.Running? && back.memory == m <==>
            if k < |Line(r)| then WholeCharacters(r, k) else e.step(m, r.statement) == Some(m)
  {
    NothingIsWhole(r);
    CutOutcomeIs(rs, r, k);
    CoveredThenOne(e, rs, r, m);
    if k < |Line(r)| {
      if WholeCharacters(r, k) {
        ReplaysNothing(e, rs, r.seqNo - 1, m);
      }
    } else {
      assert CutOutcome(rs, r, k).value.records == rs + [r];
    }
  }

  lemma ReplaysNothing<S>(e: Engine<S>, rs: seq<WalRecord>, seqNo: nat, m: S)
    requires Uncovered(rs, seqNo) == []
    ensures forall warned :: ReplayOver(e, Checkpoint(seqNo, m), Ok(Replay(rs, warned))).Running?
                             && ReplayOver(e, Checkpoint(seqNo, m), Ok(Replay(rs, warned))).memory == m
  {
  }

  lemma NothingIsWhole(r: WalRecord)
    ensures WholeCharacters(r, 0)
  {
    assert Line(r)[..0] == [];
  }

  /** The process after an append that fails after `k` bytes, a checkpoint that dies before truncating, and a recovery. */
  function AfterFailedAppend<S>(e: Engine<S>, db: Db<S>, statement: Statement, k: nat): Process<S> {
    var failed := Step(e, db, Execute(statement, WriteFails(k)));
    var died := Step(e, failed, TakeCheckpoint(Stops(Installed, true)));
    Step(e, died, Recover).process
  }

  /**
   An append error with a checkpoint that dies between its installation and the truncation of
   the log. The state comes back as it was exactly when the failed append left an incomplete
   record of whole characters, or left a complete one that changes nothing when run again.
   */
  lemma FailedAppendThenCheckpoint<S(!new)>(e: Engine<S>, db: Db<S>, h: History, w: Layout, statement: Statement, k: nat)
    requires Ready(e, db, h, w) && e.step(db.process.memory, statement).Some?
    requires k <= |Entry(NextRecord(db, statement))|
    ensures var r, m := NextRecord(db, statement), e.step(db.process.memory, statement).value;
            var back := AfterFailedAppend(e, db, statement, k);
            back.Running? && back.memory == m <==>
            if k < |Line(r)| then WholeCharacters(r, k) else e.step(m, statement) == Some(m)
  {
    var r, m := NextRecord(db, statement), e.step(db.process.memory, statement).value;
    ReadyWrites(e, db, h, w, statement);
    FailsThenRecovers(e, db, statement, k);
    ReadTornAt(db, w.rs, statement, k);
    ReplayOverCovering(e, w.rs, r, k, m);
  }

  lemma ReadyWrites<S(!new)>(e: Engine<S>, db: Db<S>, h: History, w: Layout, statement: Statement)
    requires Ready(e, db, h, w) && e.step(db.process.memory, statement).Some?
    ensures db.disk.log == Encoded(w.rs) && Consecutive(w.rs + [NextRecord(db, statement)]) && db.process.nextSeq > 0
  {
    ReplayGivesMemory(e, db, h, w);
    ReplayOneMore(e, db, h, w, statement);
  }

  lemma ReadTornAt<S>(db: Db<S>, rs: seq<WalRecord>, statement: Statement, k: nat)
    requires db.process.Running? && k <= |Entry(NextRecord(db, statement))|
    requires db.disk.log == Encoded(rs) && Consecutive(rs + [NextRecord(db, statement)])
    ensures ReadFile(TornAt(db, statement, k).log) == CutOutcome(rs, NextRecord(db, statement), k)
  {
    ReadCutEntry(rs, NextRecord(db, statement), k);
  }

  lemma FailsThenRecovers<S>(e: Engine<S>, db: Db<S>, statement: Statement, k: nat)
    requires db.process.Running? && !db.process.broken && !db.process.detached && db.process.nextSeq > 0
    requires e.step(db.process.memory, statement).Some? && k <= |Entry(NextRecord(db, statement))|
    ensures AfterFailedAppend(e, db, statement, k)
            == ReplayOver(e, Checkpoint(db.process.nextSeq - 1, e.step(db.process.memory, statement).value),
                          ReadFile(TornAt(db, statement, k).log))
  {
    var failed := Step(e, db, Execute(statement, WriteFails(k)));
    var m := e.step(db.process.memory, statement).value;
    assert failed == Db(TornAt(db, statement, k), Running(m, db.process.nextSeq, true, false));
    var died := Step(e, failed, TakeCheckpoint(Stops(Installed, true)));
    assert died == Db(MovedAside(failed.disk).(current := Some(Checkpoint(db.process.nextSeq - 1, m))), Down);
  }

  /** The database after a crash inside an append and the recovery from it. */
  function AfterTornAppend<S>(e: Engine<S>, db: Db<S>, statement: Statement, k: nat): Db<S> {
    Step(e, Step(e, db, Execute(statement, DiesWriting(k))), Recover)
  }

  /** A statement acknowledged after recovery, then a crash and recovery again. */
  function AcknowledgeThenCrash<S>(e: Engine<S>, db: Db<S>, next: Statement): Db<S> {
    Step(e, Step(e, Step(e, db, Execute(next, Written)), Crash), Recover)
  }

  /** The memory the first recovery gives: the torn statement counts when its line is complete. */
  function FoundMemory<S>(e: Engine<S>, db: Db<S>, statement: Statement, k: nat): S
    requires db.process.Running? && e.step(db.process.memory, statement).Some?
  {
    if k >= |Line(NextRecord(db, statement))| then e.step(db.process.memory, statement).value else db.process.memory
  }

  /** Sequence number of the first record appended after that recovery. */
  function ResumeSeq<S>(db: Db<S>, statement: Statement, k: nat): nat
    requires db.process.Running?
  {
    if k >= |Line(NextRecord(db, statement))| then db.process.nextSeq + 1 else db.process.nextSeq
  }

  lemma ReplayCut<S(!new)>(e: Engine<S>, db: Db<S>, h: History, w: Layout, statement: Statement, k: nat)
    requires Ready(e, db, h, w) && k <= |Entry(NextRecord(db, statement))|
    requires e.step(db.process.memory, statement).Some?
    ensures var r := NextRecord(db, statement);
            ReplayOver(e, Base(e, db.disk), CutOutcome(w.rs, r, k))
            == if SplitsCharacter(r, k) then Refusing("invalid UTF-8")
               else Running(FoundMemory(e, db, statement, k), ResumeSeq(db, statement, k), false, false)
  {
    var r := NextRecord(db, statement);
    CutOutcomeIs(w.rs, r, k);
    ReplayKept(e, db, h, w, statement, k);
    if !SplitsCharacter(r, k) {
      ReplayOfRecords(e, Base(e, db.disk), CutOutcome(w.rs, r, k));
      ResumesAfter(e, db, h, w, statement, k);
    }
  }

  lemma ReplayOfRecords<S>(e: Engine<S>, base: Checkpoint<S>, read: Result<Replay>)
    requires read.Ok? && Apply(e, base.state, Uncovered(read.value.records, base.seqNo)).Some?
    ensures ReplayOver(e, base, read)
            == Running(Apply(e, base.state, Uncovered(read.value.records, base.seqNo)).value,
                       LastSeq(read.value.records, base.seqNo) + 1, false, false)
  {
  }

  lemma ResumesAfter<S(!new)>(e: Engine<S>, db: Db<S>, h: History, w: Layout, statement: Statement, k: nat)
    requires Ready(e, db, h, w) && e.step(db.process.memory, statement).Some?
    ensures LastSeq(KeptRecords(w.rs, NextRecord(db, statement), k), Base(e, db.disk).seqNo) + 1 == ResumeSeq(db, statement, k)
  {
    ReplayOneMore(e, db, h, w, statement);
  }

  lemma CutOutcomeIs(rs: seq<WalRecord>, r: WalRecord, k: nat)
    requires k <= |Entry(r)|
    ensures if SplitsCharacter(r, k) then CutOutcome(rs, r, k) == Err("invalid UTF-8")
            else CutOutcome(rs, r, k).Ok? && CutOutcome(rs, r, k).value.records == KeptRecords(rs, r, k)
  {
    LineShape(r);
  }

  lemma FirstRecovery<S(!new)>(e: Engine<S>, db: Db<S>, h: History, w: Layout, statement: Statement, k: nat)
    requires Ready(e, db, h, w) && k <= |Entry(NextRecord(db, statement))|
    requires e.step(db.process.memory, statement).Some?
    ensures var r := NextRecord(db, statement);
            var torn := TornAt(db, statement, k);
            AfterTornAppend(e, db, statement, k)
            == Db(torn.(log := Repaired(torn.log)), ReplayOver(e, Base(e, db.disk), CutOutcome(w.rs, r, k)))
  {
    ReadyWrites(e, db, h, w, statement);
    ReadTornAt(db, w.rs, statement, k);
    DiesThenRecovers(e, db, statement, k);
  }

  lemma DiesThenRecovers<S>(e: Engine<S>, db: Db<S>, statement: Statement, k: nat)
    requires db.process.Running? && !db.process.broken && !db.process.detached && k <= |Entry(NextRecord(db, statement))|
    requires e.step(db.process.memory, statement).Some?
    ensures var torn := TornAt(db, statement, k);
            AfterTornAppend(e, db, statement, k)
            == Db(torn.(log := Repaired(torn.log)), ReplayOver(e, Base(e, db.disk), ReadFile(torn.log)))
  {
    assert Step(e, db, Execute(statement, DiesWriting(k))) == Db(TornAt(db, statement, k), Down);
  }

  /** The records kept by the first recovery and their replay. */
  lemma ReplayKept<S(!new)>(e: Engine<S>, db: Db<S>, h: History, w: Layout, statement: Statement, k: nat)
    requires Ready(e, db, h, w) && e.step(db.process.memory, statement).Some?
    ensures var base := Base(e, db.disk);
            var kept := KeptRecords(w.rs, NextRecord(db, statement), k);
            && base.seqNo < ResumeSeq(db, statement, k)
            && Apply(e, base.state, Uncovered(kept, base.seqNo)) == Some(FoundMemory(e, db, statement, k))
  {
    ReplayGivesMemory(e, db, h, w);
    ReplayOneMore(e, db, h, w, statement);
  }

  lemma ConsecutiveSnoc(rs: seq<WalRecord>, n: WalRecord)
    requires Consecutive(rs) && (rs != [] ==> rs[|rs| - 1].seqNo + 1 == n.seqNo)
    ensures Consecutive(rs + [n])
  {
  }

  lemma KeptIsConsecutive(rs: seq<WalRecord>, r: WalRecord, k: nat, n: WalRecord)
    requires Consecutive(rs + [r]) && (rs != [] ==> rs[|rs| - 1].seqNo + 1 == r.seqNo)
    requires n.seqNo == if k >= |Line(r)| then r.seqNo + 1 else r.seqNo
    ensures Consecutive(KeptRecords(rs, r, k) + [n])
  {
    ConsecutivePrefix(rs, [r]);
    ConsecutiveSnoc(KeptRecords(rs, r, k), n);
  }

  lemma KeptThenNext<S(!new)>(e: Engine<S>, db: Db<S>, h: History, w: Layout, statement: Statement, k: nat, n: WalRecord)
    requires Ready(e, db, h, w) && e.step(db.process.memory, statement).Some? && n.seqNo == ResumeSeq(db, statement, k)
    ensures Consecutive(KeptRecords(w.rs, NextRecord(db, statement), k) + [n])
  {
    ReplayOneMore(e, db, h, w, statement);
    KeptIsConsecutive(w.rs, NextRecord(db, statement), k, n);
  }

  /** Replaying whole records and one more. */
  lemma ReplayWithNext<S>(e: Engine<S>, base: Checkpoint<S>, kept: seq<WalRecord>, found: S, n: WalRecord)
    requires n.seqNo > base.seqNo && e.step(found, n.statement).Some?
    requires Apply(e, base.state, Uncovered(kept, base.seqNo)) == Some(found)
    ensures forall warned :: ReplayOver(e, base, Ok(Replay(kept + [n], warned)))
                             == Running(e.step(found, n.statement).value, n.seqNo + 1, false, false)
  {
    UncoveredAppend(kept, n, base.seqNo);
    ApplyOne(e, base.state, Uncovered(kept, base.seqNo), n.statement);
  }

  /** What replaying the resumed log gives: the acknowledged statement, or, when it was glued, neither it nor the torn one. */
  lemma ReplayResumed<S(!new)>(
    e: Engine<S>, db: Db<S>, h: History, w: Layout, statement: Statement, k: nat, next: Statement)
    requires Ready(e, db, h, w) && e.step(db.process.memory, statement).Some?
    requires e.step(FoundMemory(e, db, statement, k), next).Some?
    ensures var r, n := NextRecord(db, statement), WalRecord(ResumeSeq(db, statement, k), next);
            ReplayOver(e, Base(e, db.disk), Ok(ResumedOutcome(w.rs, r, k, n)))
            == if k == |Line(r)| then Running(db.process.memory, r.seqNo, false, false)
               else Running(e.step(FoundMemory(e, db, statement, k), next).value, n.seqNo + 1, false, false)
  {
    var r, n := NextRecord(db, statement), WalRecord(ResumeSeq(db, statement, k), next);
    if k == |Line(r)| {
      ReplayGivesMemory(e, db, h, w);
      ReplayOneMore(e, db, h, w, statement);
    } else {
      ReplayKept(e, db, h, w, statement, k);
      ReplayWithNext(e, Base(e, db.disk), KeptRecords(w.rs, r, k), FoundMemory(e, db, statement, k), n);
    }
  }

  lemma AcknowledgeUnfolds<S>(e: Engine<S>, d: Disk<S>, found: S, n: WalRecord)
    requires e.step(found, n.statement).Some?
    ensures AcknowledgeThenCrash(e, Db(d, Running(found, n.seqNo, false, false)), n.statement).process
            == ReplayOver(e, Base(e, d), ReadFile(d.log + Entry(n)))
  {
  }

  /**
   A crash inside an append, recovery, one more append that returns, a crash and recovery: the
   acknowledged statement is there, after everything the first recovery found, exactly when the
   cut was clean.
   */
  lemma AppendAfterTornAppend<S(!new)>(
    e: Engine<S>, db: Db<S>, h: History, w: Layout, statement: Statement, k: nat, next: Statement)
    requires Ready(e, db, h, w) && k <= |Entry(NextRecord(db, statement))|
    requires e.step(db.process.memory, statement).Some?
    requires e.step(FoundMemory(e, db, statement, k), next).Some?
    ensures AcknowledgeThenCrash(e, AfterTornAppend(e, db, statement, k), next).process
            == Running(e.step(FoundMemory(e, db, statement, k), next).value, ResumeSeq(db, statement, k) + 1, false, false)
            <==> CleanCut(NextRecord(db, statement), k)
  {
    var r, n := NextRecord(db, statement), WalRecord(ResumeSeq(db, statement, k), next);
    var first := AfterTornAppend(e, db, statement, k);
    FirstRecovery(e, db, h, w, statement, k);
    ReplayCut(e, db, h, w, statement, k);
    NothingIsWhole(r);
    if SplitsCharacter(r, k) {
      UnreadableStays(e, db, h, w, statement, k);
      RefusesAgain(e, first, next);
    } else {
      AcknowledgeUnfolds(e, first.disk, FoundMemory(e, db, statement, k), n);
      ResumedLog(e, db, h, w, statement, k, n);
      ReplayResumed(e, db, h, w, statement, k, next);
    }
  }

  lemma UnreadableStays<S(!new)>(e: Engine<S>, db: Db<S>, h: History, w: Layout, statement: Statement, k: nat)
    requires Ready(e, db, h, w) && k <= |Entry(NextRecord(db, statement))|
    requires e.step(db.process.memory, statement).Some? && SplitsCharacter(NextRecord(db, statement), k)
    ensures ReadFile(Repaired(TornAt(db, statement, k).log)).Err?
  {
    ReplayGivesMemory(e, db, h, w);
    ReplayOneMore(e, db, h, w, statement);
    ReadCutEntry(w.rs, NextRecord(db, statement), k);
  }

  lemma ResumedLog<S(!new)>(e: Engine<S>, db: Db<S>, h: History, w: Layout, statement: Statement, k: nat, n: WalRecord)
    requires Ready(e, db, h, w) && k <= |Entry(NextRecord(db, statement))|
    requires e.step(db.process.memory, statement).Some? && !SplitsCharacter(NextRecord(db, statement), k)
    requires n.seqNo == ResumeSeq(db, statement, k)
    ensures ReadFile(Repaired(TornAt(db, statement, k).log) + Entry(n)) == Ok(ResumedOutcome(w.rs, NextRecord(db, statement), k, n))
  {
    ReplayGivesMemory(e, db, h, w);
    ReplayOneMore(e, db, h, w, statement);
    KeptThenNext(e, db, h, w, statement, k, n);
    ReadResumed(w.rs, NextRecord(db, statement), k, n);
  }

  lemma RefusesAgain<S>(e: Engine<S>, first: Db<S>, next: Statement)
    requires first.process.Refusing? && ReadFile(first.disk.log).Err?
    ensures AcknowledgeThenCrash(e, first, next).process.Refusing?
  {
  }

  /** A statement with one two-byte character: cutting its record after four bytes splits the character. */
  lemma SplitCharacterExample()
    ensures !WholeCharacters(WalRecord(1, [0xE9]), 4)
  {
    var r := WalRecord(1, [0xE9]);
    var rest: seq<Scalar> := [QUOTE, CLOSE];
    assert Escape([0xE9]) == [0xE9] by {
      assert [0xE9][1..] == [];
    }
    assert RecordText(r) == [OPEN, 49, QUOTE, 0xE9] + rest;
    assert Utf8All([0xE9] + rest) == [0xC3, 0xA9] + Utf8All(rest) by {
      assert ([0xE9] + rest)[1..] == rest;
    }
    Utf8AllConcat([OPEN, 49, QUOTE], [0xE9] + rest);
    assert RecordText(r) == [OPEN, 49, QUOTE] + ([0xE9] + rest);
    assert [OPEN, 49, QUOTE][1..] == [49, QUOTE] && [49, QUOTE][1..] == [QUOTE] && [QUOTE][1..] == [];
    assert Utf8All([QUOTE]) == [34] && Utf8All([49, QUOTE]) == [49] + [34];
    assert Utf8All([OPEN, 49, QUOTE]) == [123] + ([49] + [34]);
    var cut: seq<Byte> := [123, 49, 34, 0xC3];
    assert Line(r)[..4] == cut;
    assert cut[1..] == [49, 34, 0xC3] && [49, 34, 0xC3][1..] == [34, 0xC3] && [34, 0xC3][1..] == [0xC3];
    assert Decode([0xC3]) == None;
    assert Decode([34, 0xC3]) == None;
    assert Decode([49, 34, 0xC3]) == None;
  }

  // ---------------------------------------------------------------- the directory swap

  /** Until the new checkpoint is in place, a swap leaves one to restore from exactly outside its window. */
  lemma SwapLeavesCheckpoint<S>(d: Disk<S>, cp: Checkpoint<S>, phase: Phase)
    requires Existing(d).Some?
    ensures Existing(Swap(d, cp, phase)).Some? <==> !SwapWindow(d, phase)
    ensures Existing(Swap(d, cp, phase)).Some? ==> Existing(Swap(d, cp, phase)) == Existing(d) || Existing(Swap(d, cp, phase)) == Some(cp)
  {
  }

  lemma RunSnoc<S>(e: Engine<S>, events: seq<Event>, ev: Event)
    ensures Run(e, events + [ev]) == Step(e, Run(e, events), ev)
  {
    assert (events + [ev])[..|events|] == events;
  }

  /**
   Two crashes, each inside a checkpoint, lose everything: the first leaves only
   `checkpoint.old/`, and the second checkpoint removes that before its own is in place. The
   statement had been logged and checkpointed.
   */
  lemma TwoCrashedCheckpointsLoseAll<S(!new)>(e: Engine<S>, statement: Statement) returns (events: seq<Event>)
    requires e.step(e.initial, statement).Some?
    ensures events == [Execute(statement, Written), TakeCheckpoint(Completes(false)),
                       TakeCheckpoint(Stops(CurrentMoved, true)), Recover,
                       TakeCheckpoint(Stops(OldRemoved, true)), Recover]
    ensures Run(e, events).process == Running(e.initial, 1, false, false)
  {
    var m := e.step(e.initial, statement).value;
    var onlyPrevious := Disk([], None, Some(Checkpoint(1, m)));
    var three := CrashBetweenRenames(e, statement);
    var four := three + [Recover];
    assert Run(e, four) == Db(onlyPrevious, Running(m, 2, false, false)) by {
      RunSnoc(e, three, Recover);
      RecoverEmptyLog(e, onlyPrevious);
    }
    var five := four + [TakeCheckpoint(Stops(OldRemoved, true))];
    events := five + [Recover];
    RunSnoc(e, four, TakeCheckpoint(Stops(OldRemoved, true)));
    RunSnoc(e, five, Recover);
    RecoverEmptyLog(e, Disk([], None, None));
  }

  /** A checkpoint that dies between its two renames leaves only `checkpoint.old/`. */
  lemma CrashBetweenRenames<S(!new)>(e: Engine<S>, statement: Statement) returns (events: seq<Event>)
    requires e.step(e.initial, statement).Some?
    ensures events == [Execute(statement, Written), TakeCheckpoint(Completes(false)), TakeCheckpoint(Stops(CurrentMoved, true))]
    ensures Run(e, events) == Db(Disk([], None, Some(Checkpoint(1, e.step(e.initial, statement).value))), Down)
  {
    var one := [Execute(statement, Written)];
    RunSnoc(e, [], Execute(statement, Written));
    assert [] + [Execute(statement, Written)] == one;
    RunSnoc(e, one, TakeCheckpoint(Completes(false)));
    events := one + [TakeCheckpoint(Completes(false))] + [TakeCheckpoint(Stops(CurrentMoved, true))];
    RunSnoc(e, one + [TakeCheckpoint(Completes(false))], TakeCheckpoint(Stops(CurrentMoved, true)));
  }

  lemma RecoverEmptyLog<S>(e: Engine<S>, d: Disk<S>)
    requires d.log == []
    ensures RecoverStep(e, Db(d, Down)) == Db(d, Running(Base(e, d).state, Base(e, d).seqNo + 1, false, false))
  {
    ReadEncoded([]);
    assert Encoded([]) == [];
  }

  // ---------------------------------------------------------------- a detached log

  /** Statements executed and acknowledged one after another. */
  function Acknowledge<S>(e: Engine<S>, db: Db<S>, statements: seq<Statement>): Db<S>
    decreases |statements|
  {
    if statements == [] then db
    else Acknowledge(e, Step(e, db, Execute(statements[0], Written)), statements[1..])
  }

  /** On a detached log they are applied, and nothing of them reaches the disk. */
  lemma {:induction false} DetachedLeavesDisk<S>(e: Engine<S>, db: Db<S>, statements: seq<Statement>)
    requires db.process.Running? && !db.process.broken && db.process.detached
    requires Apply(e, db.process.memory, statements).Some?
    ensures Acknowledge(e, db, statements)
            == Db(db.disk, Running(Apply(e, db.process.memory, statements).value, db.process.nextSeq + |statements|, false, true))
    decreases |statements|
  {
    if statements != [] {
      DetachedLeavesDisk(e, Step(e, db, Execute(statements[0], Written)), statements[1..]);
    }
  }

  /** A detached database recovers what it had when its log was detached. */
  lemma DetachedBase<S(!new)>(e: Engine<S>, db: Db<S>, h: History, w: Layout)
    requires Inv(e, db, h, w) && db.process.Running? && !db.process.broken && db.process.detached
    ensures db.disk.log == [] && Base(e, db.disk).state == db.process.memory && db.process.nextSeq == Base(e, db.disk).seqNo + 1
  {
    assert Encoded([]) + [] == [];
    assert w.covered + [] + [] == w.covered;
  }

  /** The process after a checkpoint that gets as far as `upTo`, a crash and a recovery. */
  function CheckpointThenCrash<S>(e: Engine<S>, db: Db<S>, upTo: CheckpointOutcome): Process<S> {
    Step(e, Step(e, Step(e, db, TakeCheckpoint(upTo)), Crash), Recover).process
  }

  /** Statements acknowledged on a detached log are gone after a crash. */
  lemma DetachedAppendsAreLost<S(!new)>(e: Engine<S>, db: Db<S>, h: History, w: Layout, statements: seq<Statement>)
    requires Inv(e, db, h, w) && db.process.Running? && !db.process.broken && db.process.detached
    requires Apply(e, db.process.memory, statements).Some?
    ensures Step(e, Step(e, Acknowledge(e, db, statements), Crash), Recover).process
            == Running(db.process.memory, db.process.nextSeq, false, false)
  {
    DetachedLeavesDisk(e, db, statements);
    DetachedBase(e, db, h, w);
    RecoverEmptyLog(e, db.disk);
  }

  /**
   They survive exactly when a checkpoint has been installed since, or they changed nothing. (A swap from
   `checkpoint.old/` alone loses more.)
   */
  lemma DetachedAppendsSurviveIff<S(!new)>(
    e: Engine<S>, db: Db<S>, h: History, w: Layout, statements: seq<Statement>, upTo: CheckpointOutcome)
    requires Inv(e, db, h, w) && db.process.Running? && !db.process.broken && db.process.detached
    requires Apply(e, db.process.memory, statements).Some? && !(upTo.Stops? && SwapWindow(db.disk, upTo.phase))
    ensures var m, back := Apply(e, db.process.memory, statements).value, CheckpointThenCrash(e, Acknowledge(e, db, statements), upTo);
            back.Running? && (back.memory == m <==> Installs(upTo) || m == db.process.memory)
  {
    var after := Acknowledge(e, db, statements);
    DetachedLeavesDisk(e, db, statements);
    DetachedBase(e, db, h, w);
    CrashAfterCheckpoint(e, after, upTo);
  }

  /** Over an empty log recovery gives the checkpoint found: the new one if it was installed. */
  lemma CrashAfterCheckpoint<S>(e: Engine<S>, db: Db<S>, upTo: CheckpointOutcome)
    requires db.process.Running? && db.process.nextSeq > 0 && db.disk.log == []
    requires !(upTo.Stops? && SwapWindow(db.disk, upTo.phase))
    ensures var back := CheckpointThenCrash(e, db, upTo);
            back.Running? && back.memory == if Installs(upTo) then db.process.memory else Base(e, db.disk).state
  {
    var cp := Checkpoint(db.process.nextSeq - 1, db.process.memory);
    var d := CheckpointStep(db, upTo).disk;
    if upTo.Stops? {
      SwapKeepsBase(e, db.disk, cp, upTo.phase);
    } else {
      CompletesLeaves(db, upTo.keepsOld);
    }
    RecoverEmptyLog(e, d);
  }

  /** No history explains that run: the promise is broken whenever the statement changed anything. */
  lemma LostCheckpointsBreakPromise<S(!new)>(e: Engine<S>, statement: Statement, hs: seq<History>) returns (events: seq<Event>)
    requires e.step(e.initial, statement).Some? && e.step(e.initial, statement).value != e.initial
    ensures Run(e, events).process.Running? && !Explains(e, events, hs)
  {
    events := TwoCrashedCheckpointsLoseAll(e, statement);
    ApplyOne(e, e.initial, [], statement);
    assert [] + [statement] == [statement];
    if Explains(e, events, hs) {
      KeepsFirst(e, events, hs, statement);
    }
  }

  /** Once the first statement is logged, every explanation keeps it first. */
  lemma {:induction false} KeepsFirst<S(!new)>(e: Engine<S>, events: seq<Event>, hs: seq<History>, statement: Statement)
    requires Explains(e, events, hs) && events != []
    requires events[0] == Execute(statement, Written) && e.step(e.initial, statement).Some?
    requires forall i :: 0 < i < |events| ==> !events[i].Execute?
    ensures hs[|events|].applied == [statement] && hs[|events|].acked == 1
  {
    var n := |events|;
    if n == 1 {
      assert Run(e, events[..0]) == Fresh(e);
      assert [] + [statement] == [statement];
    } else {
      KeepsFirst(e, events[..n - 1], hs[..n], statement);
    }
  }
}
