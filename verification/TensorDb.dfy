/** The database process itself: its methods carry out the steps of the protocol, one disk operation at a time. */
module TensorDb {
  import opened Common
  import opened WalCodec
  import opened WriteAheadLog
  import opened Recovery

  /** Replaying from record `i` on: nothing for a covered record, else its statement first. */
  lemma ReplayOne<S>(engine: Engine<S>, state: S, records: seq<WalRecord>, i: nat, seqNo: nat)
    requires i < |records|
    ensures var rest := Uncovered(records[i + 1..], seqNo);
            Apply(engine, state, Uncovered(records[i..], seqNo))
            == if records[i].seqNo <= seqNo then Apply(engine, state, rest)
               else if engine.step(state, records[i].statement).None? then None
               else Apply(engine, engine.step(state, records[i].statement).value, rest)
  {
    var rest := Uncovered(records[i + 1..], seqNo);
    assert records[i..][1..] == records[i + 1..];
    assert [] + rest == rest && ([records[i].statement] + rest)[1..] == rest;
  }

  class TensorDb<S(!new)> {
    const engine: Engine<S>
    const wal: Wal
    var memory: S
    var broken: bool
    var current: Option<Checkpoint<S>>
    var previous: Option<Checkpoint<S>>

    constructor (engine: Engine<S>)
      ensures View() == Fresh(engine) && this.engine == engine && fresh(wal)
    {
      this.engine, memory, broken, current, previous := engine, engine.initial, false, None, None;
      wal := new Wal.Open([], 1);
    }

    ghost function View(): Db<S>
      reads this, wal
    {
      Db(Disk(wal.file, current, previous), Running(memory, wal.nextSeq, broken, wal.detached))
    }

    /** After a step the process is alive exactly when the protocol says so, and the disk is as it says either way. */
    ghost predicate Follows(next: Db<S>, alive: bool)
      reads this, wal
    {
      && View().disk == next.disk
      && (if alive then View() == next else next.process.Down?)
    }

    /** `execute_logged`: refuse when the log is broken, execute, then append. */
    method ExecuteLogged(statement: Statement, outcome: WriteOutcome) returns (r: Result<nat>, alive: bool)
      modifies this, wal
      ensures Follows(ExecuteStep(engine, old(View()), statement, outcome), alive)
      ensures r.Ok? <==> !old(broken) && engine.step(old(memory), statement).Some? && outcome == Written
    {
      alive := true;
      if broken {
        return Err("run CHECKPOINT to resume logging"), true;
      }
      var next := engine.step(memory, statement);
      if next.None? {
        return Err("statement failed"), true;
      }
      memory := next.value;
      r := wal.Append(statement, outcome);
      if r.Err? {
        broken := outcome.WriteFails?;
        alive := outcome.WriteFails?;
      }
    }

    /** `checkpoint`: write, swap the directories, truncate the log; it may stop after any step. */
    method TakeCheckpoint(upTo: CheckpointOutcome) returns (alive: bool)
      requires wal.nextSeq > 0
      modifies this, wal
      ensures Follows(CheckpointStep(old(View()), upTo), alive)
    {
      var seqNo := wal.LastSeq();
      var cp := Checkpoint(seqNo, memory);
      alive := !upTo.Stops? || !upTo.dies;
      if upTo.Stops? && upTo.phase == TmpWritten {
        return;
      }
      previous := None;
      if upTo.Stops? && upTo.phase == OldRemoved {
        return;
      }
      if current.Some? {
        current, previous := None, current;
      }
      if upTo.Stops? && upTo.phase == CurrentMoved {
        return;
      }
      current := Some(cp);
      if upTo.Stops? && upTo.phase == Installed {
        return;
      }
      if upTo.Stops? || !upTo.keepsOld {
        previous := None;
      }
      if upTo.Stops? {
        return;
      }
      var reopened := wal.Truncate(upTo.Completes?);
      if reopened {
        broken := false;
      }
    }

    /** The replay loop over a checkpoint: skip what it covers, execute the rest, stop at a failure. */
    static method Replay(engine: Engine<S>, base: Checkpoint<S>, records: seq<WalRecord>) returns (process: Process<S>)
      requires Consecutive(records)
      ensures forall warned :: process == ReplayOver(engine, base, Ok(WalCodec.Replay(records, warned)))
    {
      var state, last := base.state, base.seqNo;
      for i := 0 to |records|
        invariant Apply(engine, base.state, Uncovered(records, base.seqNo)) == Apply(engine, state, Uncovered(records[i..], base.seqNo))
        invariant last == if i > 0 && records[i - 1].seqNo > base.seqNo then records[i - 1].seqNo else base.seqNo
      {
        ReplayOne(engine, state, records, i, base.seqNo);
        if records[i].seqNo > base.seqNo {
          var next := engine.step(state, records[i].statement);
          if next.None? {
            return Refusing("replay failed");
          }
          state, last := next.value, records[i].seqNo;
        }
      }
      return Running(state, last + 1, false, false);
    }

    /** `replay_active` in a new process over the same disk: None, or why the database refuses. */
    method Restart() returns (error: Option<string>)
      modifies this, wal
      ensures var next := RecoverStep(engine, Db(old(View()).disk, Down));
              if error.None? then View() == next else next.process == Refusing(error.value)
    {
      var base := if current.Some? then current.value
                  else if previous.Some? then previous.value
                  else Checkpoint(0, engine.initial);
      var read := ReadRecords(wal.file);
      if read.Err? {
        return Some(read.message);
      }
      var records := read.value.records;
      ReadIsConsecutive(DecodeLines(Lines(wal.file)).value, 0, WalCodec.Replay([], false));
      if read.value.warned {
        wal.file := Rewrite(records);
      }
      wal.detached := false;
      var process := Replay(engine, base, records);
      if process.Refusing? {
        return Some(process.recoveryError);
      }
      memory, broken := process.memory, false;
      wal.nextSeq := process.nextSeq;
      return None;
    }
  }
}
