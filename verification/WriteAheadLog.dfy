/** The open log of one database, its repair after a torn write, and which torn writes are harmless. */
module WriteAheadLog {
  import opened Common
  import opened WalCodec

  type Statement = seq<Scalar>

  /** What became of one `write_all` of a record: all of it, or an error or death after `written` bytes. */
  datatype WriteOutcome = Written | WriteFails(written: nat) | DiesWriting(written: nat)

  function Persisted(r: WalRecord, outcome: WriteOutcome): seq<Byte> {
    match outcome
    case Written => Entry(r)
    case WriteFails(k) => if k <= |Entry(r)| then Entry(r)[..k] else Entry(r)
    case DiesWriting(k) => if k <= |Entry(r)| then Entry(r)[..k] else Entry(r)
  }

  /** `file` is what the log's path holds; a detached log writes to a file no path leads to. */
  class Wal {
    var file: seq<Byte>
    var nextSeq: nat
    var detached: bool

    constructor Open(file: seq<Byte>, nextSeq: nat)
      ensures this.file == file && this.nextSeq == nextSeq && !detached
    {
      this.file, this.nextSeq, detached := file, nextSeq, false;
    }

    method Append(statement: Statement, outcome: WriteOutcome) returns (r: Result<nat>)
      modifies this`file, this`nextSeq
      ensures file == old(file) + if detached then [] else Persisted(WalRecord(old(nextSeq), statement), outcome)
      ensures outcome == Written ==> r == Ok(old(nextSeq)) && nextSeq == old(nextSeq) + 1
      ensures outcome != Written ==> r.Err? && nextSeq == old(nextSeq)
    {
      var record := WalRecord(nextSeq, statement);
      if !detached {
        file := file + Persisted(record, outcome);
      }
      if outcome != Written {
        return Err("write failed");
      }
      nextSeq := nextSeq + 1;
      return Ok(record.seqNo);
    }

    method LastSeq() returns (s: nat)
      requires nextSeq > 0
      ensures s + 1 == nextSeq
    {
      s := nextSeq - 1;
    }

    /** `truncate`: the empty file is in place before the log is opened again, which may fail. */
    method Truncate(opens: bool) returns (ok: bool)
      modifies this
      ensures file == [] && nextSeq == old(nextSeq) && ok == opens
      ensures detached == !opens
    {
      file := [];
      detached := !opens;
      ok := opens;
    }
  }

  /** `rewrite`: the log becomes exactly these records. */
  method Rewrite(records: seq<WalRecord>) returns (out: seq<Byte>)
    ensures out == Encoded(records)
  {
    out := [];
    for i := 0 to |records|
      invariant out == Encoded(records[..i])
    {
      EncodedAppend(records[..i], records[i]);
      assert records[..i] + [records[i]] == records[..i + 1];
      out := out + Entry(records[i]);
    }
    assert records[..|records|] == records;
  }

  /** The log after recovery read it: rewritten when a truncated tail was dropped, else untouched. */
  function Repaired(f: seq<Byte>): seq<Byte> {
    match ReadFile(f)
    case Ok(Replay(records, true)) => Encoded(records)
    case _ => f
  }

  // ---------------------------------------------------------------- torn writes

  /** The cut leaves whole characters and neither a record without its newline nor half of one. */
  predicate CleanCut(r: WalRecord, k: nat) {
    k > |Line(r)| || (k < |Line(r)| && WholeCharacters(r, k))
  }

  /** What a reader drops, leaving the records before it: nothing, or text that is no record. */
  predicate DroppedTail(tail: seq<Byte>) {
    tail == [] ||
    (&& NEWLINE !in tail && Decode(tail).Some?
     && !Blank(Decode(tail).value) && ParseText(Decode(tail).value) == None)
  }

  /** How a log may end after its whole records. */
  datatype Tail = Torn(bytes: seq<Byte>) | Bare(record: WalRecord) | Unreadable(bytes: seq<Byte>)

  function TailBytes(t: Tail): seq<Byte> {
    match t case Torn(b) => b case Bare(r) => Line(r) case Unreadable(b) => b
  }

  /** The records a reader finds before or at this end. */
  function WithTail(rs: seq<WalRecord>, t: Tail): seq<WalRecord> {
    match t case Bare(r) => rs + [r] case _ => rs
  }

  /** Nothing or text that is dropped, a record that lacks only its newline, or half a character. */
  ghost predicate ProperTail(t: Tail) {
    match t
    case Torn(b) => DroppedTail(b)
    case Bare(_) => true
    case Unreadable(b) => b != [] && NEWLINE !in b && Decode(b).None?
  }

  /** Every way a record can be cut leaves one of these ends. */
  function CutTail(r: WalRecord, k: nat): Tail
    requires k <= |Line(r)|
  {
    if k == |Line(r)| then Bare(r)
    else if WholeCharacters(r, k) then Torn(Line(r)[..k])
    else Unreadable(Line(r)[..k])
  }

  lemma ShortCutIsDropped(r: WalRecord, k: nat)
    requires k < |Line(r)| && WholeCharacters(r, k)
    ensures DroppedTail(Line(r)[..k])
  {
    LineShape(r);
    if k > 0 {
      var j := DecodeCut(RecordText(r), k);
      NotBlank(RecordText(r)[..j]);
      RecordTextCut(r, j);
    }
  }

  lemma ReadDroppedTail(rs: seq<WalRecord>, tail: seq<Byte>)
    requires Consecutive(rs) && DroppedTail(tail)
    ensures ReadFile(Encoded(rs) + tail) == Ok(Replay(rs, tail != []))
    ensures Repaired(Encoded(rs) + tail) == Encoded(rs)
  {
    ReadWithTail(rs, tail);
    assert Encoded(rs) + [] == Encoded(rs);
  }

  lemma CutTailIsProper(r: WalRecord, k: nat)
    requires k <= |Line(r)|
    ensures ProperTail(CutTail(r, k)) && TailBytes(CutTail(r, k)) == Entry(r)[..k]
  {
    LineShape(r);
    CutConcat(Line(r), [NEWLINE], k);
    if k < |Line(r)| {
      if WholeCharacters(r, k) {
        ShortCutIsDropped(r, k);
      } else {
        assert k > 0;
        assert forall i :: 0 <= i < k ==> Line(r)[i] in Line(r);
      }
    } else {
      assert Line(r)[..k] == Line(r);
    }
  }

  /** Reading a log with any such end, and what repairing it leaves. */
  lemma ReadTail(rs: seq<WalRecord>, t: Tail)
    requires Consecutive(WithTail(rs, t)) && ProperTail(t)
    ensures var f := Encoded(rs) + TailBytes(t);
            if t.Unreadable? then ReadFile(f).Err? && Repaired(f) == f
            else
              && ReadFile(f) == Ok(Replay(WithTail(rs, t), t.Torn? && t.bytes != []))
              && Repaired(f) == if t.Torn? then Encoded(rs) else f
  {
    match t
    case Torn(b) => ReadDroppedTail(rs, b);
    case Bare(r) =>
      ConsecutivePrefix(rs, [r]);
      ReadAfterCut(rs, r, |Line(r)|);
      LineShape(r);
      assert Line(r)[..|Line(r)|] == Line(r);
    case Unreadable(b) => ReadWithTail(rs, b);
  }

  /** The next append starts on a line of its own. */
  predicate EndsLine(f: seq<Byte>) {
    f == [] || f[|f| - 1] == NEWLINE
  }

  lemma EndsLineMeans(rs: seq<WalRecord>, t: Tail)
    requires ProperTail(t)
    ensures EndsLine(Encoded(rs) + TailBytes(t)) <==> TailBytes(t) == []
  {
    var f := Encoded(rs) + TailBytes(t);
    if t.Bare? {
      LineShape(t.record);
    }
    if TailBytes(t) != [] {
      assert f[|f| - 1] == TailBytes(t)[|TailBytes(t)| - 1];
      assert TailBytes(t)[|TailBytes(t)| - 1] in TailBytes(t);
    } else if rs != [] {
      var front, last := rs[..|rs| - 1], rs[|rs| - 1];
      assert rs == front + [last];
      EncodedAppend(front, last);
      assert f == Encoded(front) + Line(last) + [NEWLINE];
    }
  }

  /** What reading finds after an append was cut to `k` bytes. */
  function CutOutcome(rs: seq<WalRecord>, r: WalRecord, k: nat): Result<Replay>
    requires k <= |Entry(r)|
  {
    if k == 0 then Ok(Replay(rs, false))
    else if k >= |Line(r)| then Ok(Replay(rs + [r], false))
    else if WholeCharacters(r, k) then Ok(Replay(rs, true))
    else Err("invalid UTF-8")
  }

  lemma TakeAll<T>(s: seq<T>)
    ensures s[..|s|] == s && s[..0] == []
  {
  }

  lemma ReadWholeEntry(rs: seq<WalRecord>, r: WalRecord)
    requires Consecutive(rs + [r])
    ensures ReadFile(Encoded(rs) + Entry(r)) == Ok(Replay(rs + [r], false))
  {
    EncodedAppend(rs, r);
    ReadEncoded(rs + [r]);
  }

  /** The end that a cut record leaves reads as its outcome says. */
  lemma ReadCutTail(rs: seq<WalRecord>, r: WalRecord, k: nat)
    requires Consecutive(rs + [r]) && k <= |Line(r)|
    ensures ReadFile(Encoded(rs) + TailBytes(CutTail(r, k))) == CutOutcome(rs, r, k)
  {
    CutTailIsProper(r, k);
    LineShape(r);
    ReadAfterCut(rs, r, k);
    TakeAll(Line(r));
  }

  lemma ReadCutEntry(rs: seq<WalRecord>, r: WalRecord, k: nat)
    requires Consecutive(rs + [r]) && k <= |Entry(r)|
    ensures ReadFile(Encoded(rs) + Entry(r)[..k]) == CutOutcome(rs, r, k)
  {
    if k <= |Line(r)| {
      CutTailIsProper(r, k);
      ReadCutTail(rs, r, k);
    } else {
      TakeAll(Entry(r));
      ReadWholeEntry(rs, r);
    }
  }

  /** Reopening the file after a crash finds `kept`, and later appends read back after them. */
  ghost predicate Resumes(f: seq<Byte>, kept: seq<WalRecord>, more: seq<WalRecord>) {
    && ReadFile(f).Ok? && ReadFile(f).value.records == kept
    && ReadFile(Repaired(f) + Encoded(more)) == Ok(Replay(kept + more, false))
  }

  lemma ConsecutivePrefix(a: seq<WalRecord>, b: seq<WalRecord>)
    requires Consecutive(a + b)
    ensures Consecutive(a)
  {
    forall i | 0 < i < |a| ensures a[i].seqNo == a[i - 1].seqNo + 1 {
      assert (a + b)[i] == a[i] && (a + b)[i - 1] == a[i - 1];
    }
  }

  lemma SurvivesWhole(kept: seq<WalRecord>, tail: seq<Byte>, more: seq<WalRecord>)
    requires Consecutive(kept + more) && DroppedTail(tail)
    ensures Resumes(Encoded(kept) + tail, kept, more)
  {
    ConsecutivePrefix(kept, more);
    ReadDroppedTail(kept, tail);
    EncodedConcat(kept, more);
    ReadEncoded(kept + more);
  }

  lemma GluedDoesNotSurvive(rs: seq<WalRecord>, r: WalRecord, more: seq<WalRecord>)
    requires Consecutive(rs + [r]) && more != []
    ensures !Resumes(Encoded(rs) + Line(r), rs + [r], more)
  {
    ConsecutivePrefix(rs, [r]);
    ReadAfterCut(rs, r, |Line(r)|);
    LineShape(r);
    assert Line(r)[..|Line(r)|] == Line(r);
    EncodedConcat([more[0]], more[1..]);
    assert [more[0]] + more[1..] == more;
    assert Encoded([more[0]]) == Entry(more[0]) by {
      EncodedAppend([], more[0]);
      assert [] + [more[0]] == [more[0]];
    }
    Associative(Encoded(rs), Line(r), Encoded(more));
    ReadGlued(rs, r, more[0], more[1..]);
  }

  /** Appends after a torn write survive, together with all that was read, exactly when the cut was clean. */
  lemma AppendsSurviveCut(rs: seq<WalRecord>, r: WalRecord, k: nat, more: seq<WalRecord>)
    requires Consecutive(rs + [r]) && k <= |Entry(r)| && more != []
    requires Consecutive((if k >= |Line(r)| then rs + [r] else rs) + more)
    ensures Resumes(Encoded(rs) + Entry(r)[..k], if k >= |Line(r)| then rs + [r] else rs, more) <==> CleanCut(r, k)
  {
    if k > |Line(r)| {
      EncodedAppend(rs, r);
      assert Encoded(rs) + Entry(r)[..k] == Encoded(rs + [r]) + [];
      SurvivesWhole(rs + [r], [], more);
    } else {
      CutConcat(Line(r), [NEWLINE], k);
      if k == |Line(r)| {
        assert Entry(r)[..k] == Line(r);
        GluedDoesNotSurvive(rs, r, more);
      } else if WholeCharacters(r, k) {
        ShortCutIsDropped(r, k);
        SurvivesWhole(rs, Line(r)[..k], more);
      } else {
        ReadCutEntry(rs, r, k);
      }
    }
  }

  /** The cut left half a character: the log can no longer be read. */
  predicate SplitsCharacter(r: WalRecord, k: nat) {
    0 < k < |Line(r)| && !WholeCharacters(r, k)
  }

  /** The records the first reader after the cut finds. */
  function KeptRecords(rs: seq<WalRecord>, r: WalRecord, k: nat): seq<WalRecord> {
    if k >= |Line(r)| then rs + [r] else rs
  }

  /** What a reader finds once recovery has been through the cut log and `n` was appended. */
  function ResumedOutcome(rs: seq<WalRecord>, r: WalRecord, k: nat, n: WalRecord): Replay {
    if k == |Line(r)| then Replay(rs, true) else Replay(KeptRecords(rs, r, k) + [n], false)
  }

  lemma ReadResumed(rs: seq<WalRecord>, r: WalRecord, k: nat, n: WalRecord)
    requires Consecutive(rs + [r]) && k <= |Entry(r)| && !SplitsCharacter(r, k)
    requires Consecutive(KeptRecords(rs, r, k) + [n])
    ensures ReadFile(Repaired(Encoded(rs) + Entry(r)[..k]) + Entry(n)) == Ok(ResumedOutcome(rs, r, k, n))
  {
    LineShape(r);
    EncodedAppend([], n);
    assert [] + [n] == [n] && Encoded([]) + Entry(n) == Entry(n);
    if k == |Line(r)| {
      ConsecutivePrefix(rs, [r]);
      CutConcat(Line(r), [NEWLINE], k);
      assert Line(r)[..k] == Line(r);
      ReadAfterCut(rs, r, k);
      Associative(Encoded(rs), Line(r), Entry(n));
      ReadGlued(rs, r, n, []);
      assert Entry(n) + Encoded([]) == Entry(n);
    } else {
      AppendsSurviveCut(rs, r, k, [n]);
      assert k == 0 ==> Line(r)[..k] == [];
    }
  }
}
