/**
 The durability protocol of one database: execute a statement and then log it
 (`src/dsl/mod.rs`), checkpoint by directory swap, and restore plus replay at start-up
 (`src/engine/db/snapshot.rs`). Statements are deterministic: an engine is a step function.

 A run is a sequence of events, each of which may fail or end the process part of the way; a safe
 run leaves out only those whose exact conditions `RecoveryLimits` gives.
 */
module Recovery {
  import opened Common
  import opened WalCodec
  import opened WriteAheadLog

  /** What executing a mutating statement does to the in-memory state; None is a failed statement. */
  datatype Engine<!S> = Engine(initial: S, step: (S, Statement) -> Option<S>)

  datatype Checkpoint<S> = Checkpoint(seqNo: nat, state: S)

  /** `wal.log`, `checkpoint/` and `checkpoint.old/`. */
  datatype Disk<S> = Disk(log: seq<Byte>, current: Option<Checkpoint<S>>, previous: Option<Checkpoint<S>>)

  datatype Process<S> =
    /** `detached`: the open log file is no longer the one at its path. */
    | Running(memory: S, nextSeq: nat, broken: bool, detached: bool)
    | Down
    | Refusing(recoveryError: string)

  datatype Db<S> = Db(disk: Disk<S>, process: Process<S>)

  /** How far `write_checkpoint` and the truncation after it got. */
  datatype Phase = TmpWritten | OldRemoved | CurrentMoved | Installed | OldCleared
  /**
   A checkpoint that completes may keep `checkpoint.old/`: failing to clear it goes unnoticed. One that detaches has put
   the empty log in place and then fails to open it.
   */
  datatype CheckpointOutcome = Completes(keepsOld: bool) | Stops(phase: Phase, dies: bool) | Detaches(keepsOld: bool)

  datatype Event =
    | Execute(statement: Statement, outcome: WriteOutcome)
    | TakeCheckpoint(upTo: CheckpointOutcome)
    | Crash
    | Recover
    /** Recovery itself dies, after any rewrite of the log. */
    | RecoverDies

  // ---------------------------------------------------------------- steps

  function Apply<S>(e: Engine<S>, s: S, statements: seq<Statement>): Option<S> {
    if statements == [] then Some(s)
    else
      match e.step(s, statements[0])
      case None => None
      case Some(next) => Apply(e, next, statements[1..])
  }

  /** `existing_checkpoint`. */
  function Existing<S>(d: Disk<S>): Option<Checkpoint<S>> {
    if d.current.Some? then d.current else d.previous
  }

  /** What recovery starts from: the checkpoint found, or the empty database at sequence 0. */
  function Base<S>(e: Engine<S>, d: Disk<S>): Checkpoint<S> {
    if Existing(d).Some? then Existing(d).value else Checkpoint(0, e.initial)
  }

  /** `checkpoint.old/` removed and `checkpoint/` renamed to it. */
  function MovedAside<S>(d: Disk<S>): Disk<S> {
    d.(current := None, previous := d.current)
  }

  /** The directories after the swap got as far as `phase`. */
  function Swap<S>(d: Disk<S>, cp: Checkpoint<S>, phase: Phase): Disk<S> {
    match phase
    case TmpWritten => d
    case OldRemoved => d.(previous := None)
    case CurrentMoved => MovedAside(d)
    case Installed => MovedAside(d).(current := Some(cp))
    case OldCleared => d.(current := Some(cp), previous := None)
  }

  /** Statements of the records the checkpoint does not cover. */
  function Uncovered(rs: seq<WalRecord>, seqNo: nat): seq<Statement> {
    if rs == [] then []
    else (if rs[0].seqNo <= seqNo then [] else [rs[0].statement]) + Uncovered(rs[1..], seqNo)
  }

  /** The highest sequence number the log and the checkpoint know. */
  function LastSeq(rs: seq<WalRecord>, seqNo: nat): nat {
    if rs != [] && rs[|rs| - 1].seqNo > seqNo then rs[|rs| - 1].seqNo else seqNo
  }

  function ExecuteStep<S>(e: Engine<S>, db: Db<S>, statement: Statement, outcome: WriteOutcome): Db<S> {
    if !db.process.Running? || db.process.broken then db
    else
      match e.step(db.process.memory, statement)
      case None => db
      case Some(m) =>
        var n, detached := db.process.nextSeq, db.process.detached;
        Db(if detached then db.disk else db.disk.(log := db.disk.log + Persisted(WalRecord(n, statement), outcome)),
           match outcome
           case Written => Running(m, n + 1, false, detached)
           case WriteFails(_) => Running(m, n, true, detached)
           case DiesWriting(_) => Down)
  }

  function CheckpointStep<S>(db: Db<S>, upTo: CheckpointOutcome): Db<S> {
    if !db.process.Running? || db.process.nextSeq == 0 then db
    else
      var cp := Checkpoint(db.process.nextSeq - 1, db.process.memory);
      match upTo
      case Completes(keepsOld) =>
        Db(Swap(db.disk, cp, if keepsOld then Installed else OldCleared).(log := []),
           db.process.(broken := false, detached := false))
      case Detaches(keepsOld) =>
        Db(Swap(db.disk, cp, if keepsOld then Installed else OldCleared).(log := []), db.process.(detached := true))
      case Stops(phase, dies) => Db(Swap(db.disk, cp, phase), if dies then Down else db.process)
  }

  /** The process that replaying what was read over a checkpoint gives. */
  function ReplayOver<S>(e: Engine<S>, base: Checkpoint<S>, read: Result<Replay>): Process<S> {
    match read
    case Err(m) => Refusing(m)
    case Ok(replay) =>
      match Apply(e, base.state, Uncovered(replay.records, base.seqNo))
      case None => Refusing("replay failed")
      case Some(m) => Running(m, LastSeq(replay.records, base.seqNo) + 1, false, false)
  }

  /** `replay_active`: restore, read, repair, replay. */
  function RecoverStep<S>(e: Engine<S>, db: Db<S>): Db<S> {
    if !db.process.Down? then db
    else Db(db.disk.(log := Repaired(db.disk.log)), ReplayOver(e, Base(e, db.disk), ReadFile(db.disk.log)))
  }

  function Step<S>(e: Engine<S>, db: Db<S>, ev: Event): Db<S> {
    match ev
    case Execute(statement, outcome) => ExecuteStep(e, db, statement, outcome)
    case TakeCheckpoint(upTo) => CheckpointStep(db, upTo)
    case Crash => db.(process := Down)
    case Recover => RecoverStep(e, db)
    case RecoverDies => if db.process.Down? then db.(disk := db.disk.(log := Repaired(db.disk.log))) else db
  }

  function Fresh<S>(e: Engine<S>): Db<S> {
    Db(Disk([], None, None), Running(e.initial, 1, false, false))
  }

  function Run<S>(e: Engine<S>, events: seq<Event>): Db<S> {
    if events == [] then Fresh(e) else Step(e, Run(e, events[..|events| - 1]), events[|events| - 1])
  }

  // ---------------------------------------------------------------- the promise

  /** The successful mutating statements the state reflects, and how many of them are safe on disk. */
  datatype History = History(applied: seq<Statement>, acked: nat)

  predicate Installs(upTo: CheckpointOutcome) {
    upTo.Completes? || upTo.Detaches? || (upTo.Stops? && (upTo.phase == Installed || upTo.phase == OldCleared))
  }

  /**
   What each event may do to the history. Only recovery may lose anything: at most the last
   statement, and none whose append returned or that a checkpoint holds.
   */
  predicate HistoryStep<S>(e: Engine<S>, db: Db<S>, h: History, ev: Event, h': History) {
    match ev
    case Execute(statement, outcome) =>
      if db.process.Running? && !db.process.broken && e.step(db.process.memory, statement).Some?
      then h' == History(h.applied + [statement], if outcome == Written then |h.applied| + 1 else h.acked)
      else h' == h
    case TakeCheckpoint(upTo) =>
      if db.process.Running? && Installs(upTo) then h' == History(h.applied, |h.applied|) else h' == h
    case Crash => h' == h
    case RecoverDies => h' == h
    case Recover =>
      if db.process.Down?
      then h'.applied <= h.applied && h'.acked == |h'.applied| && |h'.applied| >= h.acked && |h'.applied| + 1 >= |h.applied|
      else h' == h
  }

  /** A running database's memory is the state after its history; no database refuses. */
  ghost predicate Reflects<S(!new)>(e: Engine<S>, db: Db<S>, h: History) {
    && !db.process.Refusing?
    && (db.process.Running? ==> Apply(e, e.initial, h.applied) == Some(db.process.memory))
  }

  /** No checkpoint but `checkpoint.old/`, which the swap removes before it installs the new one. */
  predicate SwapWindow<S>(d: Disk<S>, phase: Phase) {
    (phase == OldRemoved || phase == CurrentMoved) && d.current.None? && d.previous.Some?
  }

  /** The last append failed although its record is complete: the log is ahead of the process. */
  predicate FailedWhole<S>(db: Db<S>) {
    && db.process.Running? && db.process.broken
    && var read := ReadFile(db.disk.log);
       read.Ok? && read.value.records != [] && read.value.records[|read.value.records| - 1].seqNo >= db.process.nextSeq
  }

  /**
   The events that keep the promise. Appends may fail or die anywhere, but then: no process dies leaving a log that
   cannot be read, no checkpoint stops between its installation and the truncation while the log is ahead of it,
   nothing is appended to an unfinished line, and no append is acknowledged while the log is detached. No swap starts
   from `checkpoint.old/` alone.
   */
  predicate SafeStep<S>(e: Engine<S>, db: Db<S>, ev: Event) {
    db.process.Running? ==>
      var after := Step(e, db, ev);
      && (after.process.Down? ==> ReadFile(after.disk.log).Ok?)
      && match ev
         case Execute(statement, outcome) =>
           !db.process.broken && e.step(db.process.memory, statement).Some? ==>
             EndsLine(db.disk.log) && !(db.process.detached && outcome == Written)
         case TakeCheckpoint(Stops(phase, dies)) => !SwapWindow(db.disk, phase) && (Installs(Stops(phase, dies)) ==> !FailedWhole(db))
         case _ => true
  }

  predicate SafeRun<S>(e: Engine<S>, events: seq<Event>) {
    events == [] ||
    (&& SafeRun(e, events[..|events| - 1])
     && SafeStep(e, Run(e, events[..|events| - 1]), events[|events| - 1]))
  }

  // ---------------------------------------------------------------- the invariant

  /**
   How the disk accounts for the history: statements the checkpoint covers, whole records
   (those past the checkpoint are replayed), how the log ends, and what never reached it.
   */
  datatype Layout = Layout(covered: seq<Statement>, rs: seq<WalRecord>, tail: Tail, unlogged: seq<Statement>)

  function Records(w: Layout): seq<WalRecord> {
    WithTail(w.rs, w.tail)
  }

  ghost predicate LogHolds<S(!new)>(d: Disk<S>, rs: seq<WalRecord>, t: Tail) {
    Consecutive(WithTail(rs, t)) && ProperTail(t) && d.log == Encoded(rs) + TailBytes(t)
  }

  ghost predicate Accounts<S(!new)>(e: Engine<S>, base: Checkpoint<S>, h: History, w: Layout) {
    var todo := Uncovered(Records(w), base.seqNo);
    && (Records(w) != [] ==> base.seqNo <= Records(w)[|Records(w)| - 1].seqNo)
    && h.applied == w.covered + todo + w.unlogged && |w.unlogged| <= 1
    && h.acked <= |w.covered + todo|
    && Apply(e, e.initial, w.covered) == Some(base.state)
    && Apply(e, e.initial, h.applied).Some?
  }

  ghost predicate Durable<S(!new)>(e: Engine<S>, d: Disk<S>, h: History, w: Layout) {
    LogHolds(d, w.rs, w.tail) && Accounts(e, Base(e, d), h, w)
  }

  /** The process numbers its next record after the last it knows; only a failed whole record is ahead of it. */
  ghost predicate Numbers<S(!new)>(base: Checkpoint<S>, w: Layout, n: nat, broken: bool) {
    var last := LastSeq(Records(w), base.seqNo);
    n == last + 1 || (broken && n == last > base.seqNo && (w.tail == Torn([]) || w.tail.Bare?))
  }

  ghost predicate Inv<S(!new)>(e: Engine<S>, db: Db<S>, h: History, w: Layout) {
    && Durable(e, db.disk, h, w)
    && match db.process
       case Refusing(_) => false
       case Down => !w.tail.Unreadable?
       case Running(m, n, broken, detached) =>
         && Apply(e, e.initial, h.applied) == Some(m)
         && Numbers(Base(e, db.disk), w, n, broken)
         && (!broken ==> w.unlogged == [] && (w.tail == Torn([]) || w.tail.Bare?))
         && (detached ==> w.rs == [] && w.tail == Torn([]))
  }

  lemma {:induction false} ApplyConcat<S>(e: Engine<S>, s: S, a: seq<Statement>, b: seq<Statement>)
    ensures Apply(e, s, a + b) == if Apply(e, s, a) == None then None else Apply(e, Apply(e, s, a).value, b)
  {
    if a == [] {
      assert a + b == b;
    } else {
      assert (a + b)[1..] == a[1..] + b;
      match e.step(s, a[0])
      case None =>
      case Some(next) => ApplyConcat(e, next, a[1..], b);
    }
  }

  lemma ApplyOne<S>(e: Engine<S>, s: S, a: seq<Statement>, statement: Statement)
    requires Apply(e, s, a).Some?
    ensures Apply(e, s, a + [statement]) == e.step(Apply(e, s, a).value, statement)
  {
    ApplyConcat(e, s, a, [statement]);
    assert [statement][1..] == [];
  }

  lemma {:induction false} UncoveredAppend(rs: seq<WalRecord>, r: WalRecord, seqNo: nat)
    requires r.seqNo > seqNo
    ensures Uncovered(rs + [r], seqNo) == Uncovered(rs, seqNo) + [r.statement]
  {
    if rs == [] {
      assert [r][1..] == [];
    } else {
      assert (rs + [r])[1..] == rs[1..] + [r];
      UncoveredAppend(rs[1..], r, seqNo);
    }
  }

  lemma {:induction false} AllCovered(rs: seq<WalRecord>, seqNo: nat)
    requires Consecutive(rs) && (rs != [] ==> rs[|rs| - 1].seqNo <= seqNo)
    ensures Uncovered(rs, seqNo) == []
  {
    if rs != [] {
      forall i | 0 < i < |rs[1..]| ensures rs[1..][i].seqNo == rs[1..][i - 1].seqNo + 1 {
        assert rs[1..][i] == rs[i + 1] && rs[1..][i - 1] == rs[i];
      }
      AllCovered(rs[1..], seqNo);
      FirstBelowLast(rs);
    }
  }

  lemma {:induction false} FirstBelowLast(rs: seq<WalRecord>)
    requires Consecutive(rs) && rs != []
    ensures rs[0].seqNo <= rs[|rs| - 1].seqNo
  {
    if |rs| > 1 {
      FirstBelowLast(rs[..|rs| - 1]);
    }
  }

  /** One more record, with or without its newline. */
  lemma LoggedAccounts<S(!new)>(e: Engine<S>, base: Checkpoint<S>, h: History, w: Layout, r: WalRecord, acked: nat, w': Layout)
    requires Accounts(e, base, h, w) && w.unlogged == [] && r.seqNo == LastSeq(Records(w), base.seqNo) + 1
    requires Apply(e, e.initial, h.applied + [r.statement]).Some? && acked <= |h.applied| + 1
    requires w'.covered == w.covered && w'.unlogged == [] && Records(w') == Records(w) + [r]
    ensures Accounts(e, base, History(h.applied + [r.statement], acked), w')
    ensures LastSeq(Records(w'), base.seqNo) == r.seqNo
  {
    var todo := Uncovered(Records(w), base.seqNo);
    UncoveredAppend(Records(w), r, base.seqNo);
    assert (w.covered + todo + []) + [r.statement] == w.covered + (todo + [r.statement]) + [];
  }

  /** The layout after an append got as far as `k` bytes. */
  function AfterAppend(w: Layout, r: WalRecord, k: nat): Layout {
    if k > |Line(r)| then w.(rs := w.rs + [r])
    else w.(tail := CutTail(r, k), unlogged := if k == |Line(r)| then [] else [r.statement])
  }

  lemma WholeAppendHolds<S(!new)>(d: Disk<S>, rs: seq<WalRecord>, r: WalRecord)
    requires LogHolds(d, rs, Torn([])) && Consecutive(rs + [r])
    ensures LogHolds(d.(log := d.log + Entry(r)), rs + [r], Torn([]))
  {
    EncodedAppend(rs, r);
    assert Encoded(rs) + [] == Encoded(rs) && Encoded(rs + [r]) + [] == Encoded(rs + [r]);
  }

  lemma CutAppendHolds<S(!new)>(d: Disk<S>, rs: seq<WalRecord>, r: WalRecord, k: nat)
    requires LogHolds(d, rs, Torn([])) && Consecutive(rs + [r]) && k <= |Line(r)|
    ensures LogHolds(d.(log := d.log + Entry(r)[..k]), rs, CutTail(r, k))
  {
    assert Encoded(rs) + [] == Encoded(rs);
    CutTailIsProper(r, k);
    ConsecutivePrefix(rs, [r]);
  }

  lemma AppendHolds<S(!new)>(d: Disk<S>, w: Layout, r: WalRecord, k: nat)
    requires LogHolds(d, w.rs, Torn([])) && w.tail == Torn([]) && Consecutive(w.rs + [r])
    ensures var w' := AfterAppend(w, r, k);
            LogHolds(d.(log := d.log + if k <= |Entry(r)| then Entry(r)[..k] else Entry(r)), w'.rs, w'.tail)
  {
    if k > |Line(r)| {
      WholeAppendHolds(d, w.rs, r);
      TakeAll(Entry(r));
    } else {
      CutAppendHolds(d, w.rs, r, k);
    }
  }

  /** The history after an append, and how the disk accounts for it. */
  lemma AppendAccounts<S(!new)>(e: Engine<S>, base: Checkpoint<S>, h: History, w: Layout, r: WalRecord, k: nat, acked: nat)
    requires Accounts(e, base, h, w) && w.unlogged == [] && w.tail == Torn([])
    requires r.seqNo == LastSeq(w.rs, base.seqNo) + 1
    requires Apply(e, e.initial, h.applied + [r.statement]).Some?
    requires acked == h.acked || (acked == |h.applied| + 1 && k > |Line(r)|)
    ensures var w' := AfterAppend(w, r, k);
            && Accounts(e, base, History(h.applied + [r.statement], acked), w')
            && LastSeq(Records(w'), base.seqNo) == if k >= |Line(r)| then r.seqNo else r.seqNo - 1
  {
    var w' := AfterAppend(w, r, k);
    if k >= |Line(r)| {
      LoggedAccounts(e, base, h, w, r, acked, w');
    } else {
      var logged := w.covered + Uncovered(w.rs, base.seqNo);
      assert logged + [] == logged;
      assert h.applied == logged;
    }
  }

  /** The bytes an outcome leaves of one entry. */
  function Reached(r: WalRecord, outcome: WriteOutcome): nat {
    match outcome case Written => |Entry(r)| case WriteFails(k) => k case DiesWriting(k) => k
  }

  lemma ReachedIsPersisted(r: WalRecord, outcome: WriteOutcome)
    ensures var k := Reached(r, outcome); Persisted(r, outcome) == if k <= |Entry(r)| then Entry(r)[..k] else Entry(r)
  {
    assert Entry(r)[..|Entry(r)|] == Entry(r);
  }

  lemma NextIsConsecutive(rs: seq<WalRecord>, r: WalRecord, seqNo: nat)
    requires Consecutive(rs) && (rs != [] ==> seqNo <= rs[|rs| - 1].seqNo) && r.seqNo == LastSeq(rs, seqNo) + 1
    ensures Consecutive(rs + [r])
  {
  }

  /** A process may go down whenever the log can be read. */
  lemma CrashKeepsInv<S(!new)>(e: Engine<S>, db: Db<S>, h: History, w: Layout)
    requires Inv(e, db, h, w) && ReadFile(db.disk.log).Ok?
    ensures Inv(e, Db(db.disk, Down), h, w)
  {
    ReadTail(w.rs, w.tail);
  }

  /** The disk after one append accounts for the statement. */
  lemma AppendIsDurable<S(!new)>(e: Engine<S>, d: Disk<S>, h: History, w: Layout, r: WalRecord, outcome: WriteOutcome, acked: nat)
    requires Durable(e, d, h, w) && w.tail == Torn([]) && w.unlogged == []
    requires r.seqNo == LastSeq(w.rs, Base(e, d).seqNo) + 1 && Apply(e, e.initial, h.applied + [r.statement]).Some?
    requires acked == if outcome == Written then |h.applied| + 1 else h.acked
    ensures var k := Reached(r, outcome);
            && Durable(e, d.(log := d.log + Persisted(r, outcome)), History(h.applied + [r.statement], acked), AfterAppend(w, r, k))
            && LastSeq(Records(AfterAppend(w, r, k)), Base(e, d).seqNo) == if k >= |Line(r)| then r.seqNo else r.seqNo - 1
  {
    var k := Reached(r, outcome);
    NextIsConsecutive(w.rs, r, Base(e, d).seqNo);
    ReachedIsPersisted(r, outcome);
    AppendHolds(d, w, r, k);
    AppendAccounts(e, Base(e, d), h, w, r, k, acked);
  }

  lemma NothingWritten<S(!new)>(d: Disk<S>, w: Layout, r: WalRecord)
    requires w.rs == [] && w.tail == Torn([])
    ensures d.(log := d.log + Persisted(r, WriteFails(0))) == d
    ensures AfterAppend(w, r, 0).rs == [] && AfterAppend(w, r, 0).tail == Torn([])
  {
    LineShape(r);
    assert Entry(r)[..0] == [] && Line(r)[..0] == [];
    assert d.log + [] == d.log;
  }

  /** On a detached log it makes no difference how far a write that is not acknowledged got. */
  function Hushed(detached: bool, outcome: WriteOutcome): WriteOutcome {
    if !detached then outcome
    else match outcome case Written => Written case WriteFails(_) => WriteFails(0) case DiesWriting(_) => DiesWriting(0)
  }

  lemma HushedIsSame<S>(e: Engine<S>, db: Db<S>, statement: Statement, outcome: WriteOutcome)
    requires db.process.Running?
    ensures ExecuteStep(e, db, statement, Hushed(db.process.detached, outcome)) == ExecuteStep(e, db, statement, outcome)
  {
  }

  /** One append after which the process goes on or is broken. */
  lemma AppendKeepsInv<S(!new)>(e: Engine<S>, db: Db<S>, h: History, w: Layout, statement: Statement, outcome: WriteOutcome, acked: nat)
    requires Inv(e, db, h, w) && db.process.Running? && !db.process.broken && w.tail == Torn([])
    requires e.step(db.process.memory, statement).Some? && !outcome.DiesWriting?
    requires db.process.detached ==> outcome == WriteFails(0)
    requires acked == if outcome == Written then |h.applied| + 1 else h.acked
    ensures var r := WalRecord(db.process.nextSeq, statement);
            Inv(e, ExecuteStep(e, db, statement, outcome), History(h.applied + [statement], acked), AfterAppend(w, r, Reached(r, outcome)))
  {
    var r := WalRecord(db.process.nextSeq, statement);
    ApplyOne(e, e.initial, h.applied, statement);
    AppendIsDurable(e, db.disk, h, w, r, outcome, acked);
    var after := ExecuteStep(e, db, statement, outcome);
    assert Base(e, after.disk) == Base(e, db.disk);
    if db.process.detached {
      NothingWritten(db.disk, w, r);
    }
  }

  /** Dying in an append is failing in it and going down. */
  lemma DyingAppendKeepsInv<S(!new)>(e: Engine<S>, db: Db<S>, h: History, w: Layout, statement: Statement, k: nat)
    requires Inv(e, db, h, w) && db.process.Running? && !db.process.broken && w.tail == Torn([])
    requires e.step(db.process.memory, statement).Some? && (db.process.detached ==> k == 0)
    requires ReadFile(ExecuteStep(e, db, statement, DiesWriting(k)).disk.log).Ok?
    ensures Inv(e, ExecuteStep(e, db, statement, DiesWriting(k)), History(h.applied + [statement], h.acked),
                AfterAppend(w, WalRecord(db.process.nextSeq, statement), k))
  {
    AppendKeepsInv(e, db, h, w, statement, WriteFails(k), h.acked);
    var failed := ExecuteStep(e, db, statement, WriteFails(k));
    assert ExecuteStep(e, db, statement, DiesWriting(k)) == Db(failed.disk, Down);
    CrashKeepsInv(e, failed, History(h.applied + [statement], h.acked), AfterAppend(w, WalRecord(db.process.nextSeq, statement), k));
  }

  lemma ExecuteKeepsInv<S(!new)>(e: Engine<S>, db: Db<S>, h: History, w: Layout, statement: Statement, outcome: WriteOutcome)
    returns (h': History, w': Layout)
    requires Inv(e, db, h, w) && SafeStep(e, db, Execute(statement, outcome))
    ensures HistoryStep(e, db, h, Execute(statement, outcome), h')
    ensures Inv(e, ExecuteStep(e, db, statement, outcome), h', w')
  {
    h', w' := h, w;
    if db.process.Running? && !db.process.broken && e.step(db.process.memory, statement).Some? {
      var r := WalRecord(db.process.nextSeq, statement);
      h' := History(h.applied + [statement], if outcome == Written then |h.applied| + 1 else h.acked);
      var hushed := Hushed(db.process.detached, outcome);
      w' := AfterAppend(w, r, Reached(r, hushed));
      TailIsEmpty(db.disk, w);
      HushedIsSame(e, db, statement, outcome);
      if outcome.DiesWriting? {
        DyingAppendKeepsInv(e, db, h, w, statement, hushed.written);
      } else {
        AppendKeepsInv(e, db, h, w, statement, hushed, h'.acked);
      }
    }
  }

  lemma TailIsEmpty<S(!new)>(d: Disk<S>, w: Layout)
    requires LogHolds(d, w.rs, w.tail) && (w.tail == Torn([]) || w.tail.Bare?) && EndsLine(d.log)
    ensures w.tail == Torn([])
  {
    EndsLineMeans(w.rs, w.tail);
    if w.tail.Bare? {
      LineShape(w.tail.record);
    }
  }

  /** Where the swap keeps a checkpoint it had, restoring finds the same one until the new one is in place. */
  lemma SwapKeepsBase<S>(e: Engine<S>, d: Disk<S>, cp: Checkpoint<S>, phase: Phase)
    requires !SwapWindow(d, phase)
    ensures Base(e, Swap(d, cp, phase)) == if phase == Installed || phase == OldCleared then cp else Base(e, d)
    ensures Swap(d, cp, phase).log == d.log
  {
  }

  /** A checkpoint of the whole state covers every record logged before it. */
  lemma InstalledAccounts<S(!new)>(e: Engine<S>, base: Checkpoint<S>, h: History, w: Layout, m: S)
    requires Accounts(e, base, h, w) && Consecutive(Records(w)) && Apply(e, e.initial, h.applied) == Some(m)
    ensures var cp := Checkpoint(LastSeq(Records(w), base.seqNo), m);
            && Accounts(e, cp, History(h.applied, |h.applied|), Layout(h.applied, w.rs, w.tail, []))
            && LastSeq(Records(w), cp.seqNo) == cp.seqNo
  {
    AllCovered(Records(w), LastSeq(Records(w), base.seqNo));
    assert h.applied + [] + [] == h.applied;
  }

  /** With the log empty, a checkpoint accounts for everything, whatever its number. */
  lemma TruncatedAccounts<S(!new)>(e: Engine<S>, h: History, cp: Checkpoint<S>, previous: Option<Checkpoint<S>>)
    requires Apply(e, e.initial, h.applied) == Some(cp.state)
    ensures Accounts(e, cp, History(h.applied, |h.applied|), Layout(h.applied, [], Torn([]), []))
    ensures LogHolds(Disk([], Some(cp), previous), [], Torn([]))
  {
    assert h.applied + [] + [] == h.applied;
  }

  lemma LogAheadIsSeen<S(!new)>(e: Engine<S>, db: Db<S>, h: History, w: Layout)
    requires Inv(e, db, h, w) && db.process.Running? && !FailedWhole(db)
    ensures db.process.nextSeq == LastSeq(Records(w), Base(e, db.disk).seqNo) + 1
  {
    if db.process.nextSeq == LastSeq(Records(w), Base(e, db.disk).seqNo) {
      ReadTail(w.rs, w.tail);
    }
  }

  lemma NumberIsPositive<S(!new)>(e: Engine<S>, db: Db<S>, h: History, w: Layout)
    requires Inv(e, db, h, w) && db.process.Running?
    ensures db.process.nextSeq > 0
  {
  }

  lemma CompletesLeaves<S>(db: Db<S>, keepsOld: bool)
    requires db.process.Running? && db.process.nextSeq > 0
    ensures CheckpointStep(db, Completes(keepsOld))
            == Db(Disk([], Some(Checkpoint(db.process.nextSeq - 1, db.process.memory)), if keepsOld then db.disk.current else None),
                  db.process.(broken := false, detached := false))
    ensures CheckpointStep(db, Detaches(keepsOld))
            == Db(CheckpointStep(db, Completes(keepsOld)).disk, db.process.(detached := true))
  {
  }

  /** A checkpoint that gets past the truncation accounts for any state, whatever was lost before it. */
  lemma CompletesRestoresInv<S(!new)>(e: Engine<S>, db: Db<S>, h: History, keepsOld: bool)
    requires db.process.Running? && db.process.nextSeq > 0 && Apply(e, e.initial, h.applied) == Some(db.process.memory)
    ensures var h', w' := History(h.applied, |h.applied|), Layout(h.applied, [], Torn([]), []);
            Inv(e, CheckpointStep(db, Completes(keepsOld)), h', w') && Inv(e, CheckpointStep(db, Detaches(keepsOld)), h', w')
  {
    CompletesLeaves(db, keepsOld);
    TruncatedAccounts(e, h, Checkpoint(db.process.nextSeq - 1, db.process.memory), if keepsOld then db.disk.current else None);
  }

  /** Once the new checkpoint is in place it accounts for everything, unless the log is ahead of it. */
  lemma InPlaceKeepsInv<S(!new)>(e: Engine<S>, db: Db<S>, h: History, w: Layout, d: Disk<S>, cp: Checkpoint<S>)
    requires Inv(e, db, h, w) && db.process.Running? && !FailedWhole(db)
    requires cp == Checkpoint(db.process.nextSeq - 1, db.process.memory) && Base(e, d) == cp && d.log == db.disk.log
    ensures Inv(e, Db(d, db.process), History(h.applied, |h.applied|), Layout(h.applied, w.rs, w.tail, []))
  {
    LogAheadIsSeen(e, db, h, w);
    InstalledAccounts(e, Base(e, db.disk), h, w, db.process.memory);
  }

  lemma StopsLeaves<S>(db: Db<S>, phase: Phase)
    requires db.process.Running? && db.process.nextSeq > 0
    ensures CheckpointStep(db, Stops(phase, false))
            == Db(Swap(db.disk, Checkpoint(db.process.nextSeq - 1, db.process.memory), phase), db.process)
  {
  }

  lemma InstallKeepsInv<S(!new)>(e: Engine<S>, db: Db<S>, h: History, w: Layout, phase: Phase)
    requires Inv(e, db, h, w) && db.process.Running? && Installs(Stops(phase, false))
    requires !SwapWindow(db.disk, phase) && !FailedWhole(db)
    ensures Inv(e, CheckpointStep(db, Stops(phase, false)), History(h.applied, |h.applied|), Layout(h.applied, w.rs, w.tail, []))
  {
    NumberIsPositive(e, db, h, w);
    var cp := Checkpoint(db.process.nextSeq - 1, db.process.memory);
    SwapKeepsBase(e, db.disk, cp, phase);
    InPlaceKeepsInv(e, db, h, w, Swap(db.disk, cp, phase), cp);
    StopsLeaves(db, phase);
  }

  lemma EarlyStopKeepsInv<S(!new)>(e: Engine<S>, db: Db<S>, h: History, w: Layout, phase: Phase)
    requires Inv(e, db, h, w) && db.process.Running? && !Installs(Stops(phase, false))
    requires !SwapWindow(db.disk, phase)
    ensures Inv(e, CheckpointStep(db, Stops(phase, false)), h, w)
  {
    var cp := Checkpoint(db.process.nextSeq - 1, db.process.memory);
    SwapKeepsBase(e, db.disk, cp, phase);
    assert CheckpointStep(db, Stops(phase, false)) == Db(Swap(db.disk, cp, phase), db.process);
  }

  lemma StopsKeepsInv<S(!new)>(e: Engine<S>, db: Db<S>, h: History, w: Layout, phase: Phase, dies: bool) returns (h': History, w': Layout)
    requires Inv(e, db, h, w) && db.process.Running? && SafeStep(e, db, TakeCheckpoint(Stops(phase, dies)))
    ensures Inv(e, CheckpointStep(db, Stops(phase, dies)), h', w')
    ensures h' == if Installs(Stops(phase, dies)) then History(h.applied, |h.applied|) else h
  {
    h', w' := h, w;
    if Installs(Stops(phase, false)) {
      InstallKeepsInv(e, db, h, w, phase);
      h', w' := History(h.applied, |h.applied|), Layout(h.applied, w.rs, w.tail, []);
    } else {
      EarlyStopKeepsInv(e, db, h, w, phase);
    }
    if dies {
      var stopped := CheckpointStep(db, Stops(phase, false));
      assert CheckpointStep(db, Stops(phase, true)) == Db(stopped.disk, Down);
      CrashKeepsInv(e, stopped, h', w');
    }
  }

  lemma CheckpointKeepsInv<S(!new)>(e: Engine<S>, db: Db<S>, h: History, w: Layout, upTo: CheckpointOutcome)
    returns (h': History, w': Layout)
    requires Inv(e, db, h, w) && SafeStep(e, db, TakeCheckpoint(upTo))
    ensures HistoryStep(e, db, h, TakeCheckpoint(upTo), h')
    ensures Inv(e, CheckpointStep(db, upTo), h', w')
  {
    h', w' := h, w;
    if db.process.Running? {
      match upTo
      case Completes(keepsOld) =>
        NumberIsPositive(e, db, h, w);
        CompletesRestoresInv(e, db, h, keepsOld);
        h', w' := History(h.applied, |h.applied|), Layout(h.applied, [], Torn([]), []);
      case Detaches(keepsOld) =>
        NumberIsPositive(e, db, h, w);
        CompletesRestoresInv(e, db, h, keepsOld);
        h', w' := History(h.applied, |h.applied|), Layout(h.applied, [], Torn([]), []);
      case Stops(phase, dies) =>
        h', w' := StopsKeepsInv(e, db, h, w, phase, dies);
    }
  }

  /** A tail that recovery drops is gone after it; a bare record stays as it is. */
  function RepairedTail(t: Tail): Tail {
    match t case Torn(_) => Torn([]) case _ => t
  }

  lemma RepairHolds<S(!new)>(d: Disk<S>, rs: seq<WalRecord>, t: Tail)
    requires LogHolds(d, rs, t) && !t.Unreadable?
    ensures LogHolds(d.(log := Repaired(d.log)), rs, RepairedTail(t))
    ensures ReadFile(d.log).Ok? && ReadFile(d.log).value.records == WithTail(rs, t)
  {
    ReadTail(rs, t);
    assert Repaired(d.log) == Encoded(rs) + TailBytes(RepairedTail(t));
  }

  /** Replaying over the checkpoint gives the state after everything but what never reached the log. */
  lemma ReplayGives<S(!new)>(e: Engine<S>, base: Checkpoint<S>, h: History, w: Layout)
    requires Accounts(e, base, h, w)
    ensures var todo := Uncovered(Records(w), base.seqNo);
            && Apply(e, base.state, todo).Some?
            && Apply(e, base.state, todo) == Apply(e, e.initial, w.covered + todo)
  {
    var todo := Uncovered(Records(w), base.seqNo);
    ApplyConcat(e, e.initial, w.covered, todo);
    ApplyConcat(e, e.initial, w.covered + todo, w.unlogged);
  }

  lemma RecoverKeepsInv<S(!new)>(e: Engine<S>, db: Db<S>, h: History, w: Layout) returns (h': History, w': Layout)
    requires Inv(e, db, h, w) && db.process.Down?
    ensures HistoryStep(e, db, h, Recover, h')
    ensures Inv(e, RecoverStep(e, db), h', w')
  {
    var base := Base(e, db.disk);
    var logged := w.covered + Uncovered(Records(w), base.seqNo);
    h' := History(logged, |logged|);
    w' := w.(tail := RepairedTail(w.tail), unlogged := []);
    assert logged + [] == logged;
    ReplayGives(e, base, h, w);
    RepairHolds(db.disk, w.rs, w.tail);
  }

  lemma DyingRecoveryKeepsInv<S(!new)>(e: Engine<S>, db: Db<S>, h: History, w: Layout)
    requires Inv(e, db, h, w) && db.process.Down?
    ensures Inv(e, Step(e, db, RecoverDies), h, w.(tail := RepairedTail(w.tail)))
  {
    RepairHolds(db.disk, w.rs, w.tail);
  }

  lemma StepKeepsInv<S(!new)>(e: Engine<S>, db: Db<S>, h: History, w: Layout, ev: Event) returns (h': History, w': Layout)
    requires Inv(e, db, h, w) && SafeStep(e, db, ev)
    ensures HistoryStep(e, db, h, ev, h')
    ensures Inv(e, Step(e, db, ev), h', w')
  {
    h', w' := h, w;
    match ev
    case Execute(statement, outcome) => h', w' := ExecuteKeepsInv(e, db, h, w, statement, outcome);
    case TakeCheckpoint(upTo) => h', w' := CheckpointKeepsInv(e, db, h, w, upTo);
    case Crash =>
      if db.process.Running? {
        CrashKeepsInv(e, db, h, w);
      }
    case Recover =>
      if db.process.Down? {
        h', w' := RecoverKeepsInv(e, db, h, w);
      }
    case RecoverDies =>
      if db.process.Down? {
        DyingRecoveryKeepsInv(e, db, h, w);
        w' := w.(tail := RepairedTail(w.tail));
      }
  }

  /** The histories `hs` account for the run: each event changed them only as promised, and the database reflects each. */
  ghost predicate Explains<S(!new)>(e: Engine<S>, events: seq<Event>, hs: seq<History>) {
    var n := |events|;
    && |hs| == n + 1
    && Reflects(e, Run(e, events), hs[n])
    && if n == 0 then hs[0] == History([], 0)
       else
         && Explains(e, events[..n - 1], hs[..n])
         && HistoryStep(e, Run(e, events[..n - 1]), hs[n - 1], events[n - 1], hs[n])
  }

  /**
   Every safe run keeps the promise: some histories account for it, so only recovery loses
   anything, and then at most the one statement whose append had not returned.
   */
  lemma {:induction false} SafeRunsAreDurable<S(!new)>(e: Engine<S>, events: seq<Event>) returns (hs: seq<History>, w: Layout)
    requires SafeRun(e, events)
    ensures Explains(e, events, hs)
    ensures Inv(e, Run(e, events), hs[|events|], w)
  {
    var n := |events|;
    if n == 0 {
      hs, w := [History([], 0)], Layout([], [], Torn([]), []);
    } else {
      hs, w := SafeRunsAreDurable(e, events[..n - 1]);
      var h', w' := StepKeepsInv(e, Run(e, events[..n - 1]), hs[n - 1], w, events[n - 1]);
      assert (hs + [h'])[..n] == hs;
      hs, w := hs + [h'], w';
    }
  }
}
