/** The log file of `src/engine/wal.rs` as bytes, and `read_records`, which turns it back into records. */
module WalCodec {
  import opened Common

  /*
   One record is one line of UTF-8 text that holds no newline. The text of a record is a small stand-in for
   its JSON object: `{`, the sequence number in decimal, `"`, the escaped statement, `"}`. Like JSON it is
   newline-free, escapes quotes, backslashes and control characters, and stops parsing when it is cut short
   or continued.
   */

  newtype Byte = b: int | 0 <= b < 256
  /** A Unicode code point. */
  newtype Scalar = c: int | 0 <= c < 0x110000

  datatype WalRecord = WalRecord(seqNo: nat, statement: seq<Scalar>)

  const NEWLINE: Byte := 10
  const NEWLINE_CHAR: Scalar := 10
  const QUOTE: Scalar := 34
  const BACKSLASH: Scalar := 92
  const OPEN: Scalar := 123
  const CLOSE: Scalar := 125

  // ---------------------------------------------------------------- UTF-8

  function Utf8(c: Scalar): (b: seq<Byte>) {
    var n := c as int;
    if n < 0x80 then [n as Byte]
    else if n < 0x800 then [(0xC0 + n / 64) as Byte, Trailing(n)]
    else if n < 0x10000 then [(0xE0 + n / 4096) as Byte, Trailing(n / 64), Trailing(n)]
    else [(0xF0 + n / 262144) as Byte, Trailing(n / 4096), Trailing(n / 64), Trailing(n)]
  }

  /** A continuation byte carrying the low six bits. */
  function Trailing(n: nat): Byte { (0x80 + n % 64) as Byte }

  function Utf8All(s: seq<Scalar>): seq<Byte> {
    if s == [] then [] else Utf8(s[0]) + Utf8All(s[1..])
  }

  /** Bytes a character starting with `lead` takes, 0 when no character starts so. */
  function Width(lead: Byte): nat {
    if lead < 0x80 then 1
    else if lead < 0xC0 then 0
    else if lead < 0xE0 then 2
    else if lead < 0xF0 then 3
    else if lead < 0xF8 then 4
    else 0
  }

  /** The six bits a continuation byte carries, outside 0..64 for any other byte. */
  function Continuation(b: Byte): int { b as int - 0x80 }

  /** The first character, when it is complete and well formed. */
  function DecodeHead(b: seq<Byte>): Option<Scalar>
    requires b != []
  {
    var w := Width(b[0]);
    if w == 0 || |b| < w || (exists k | 1 <= k < w :: !(0 <= Continuation(b[k]) < 64)) then None
    else
      var c := match w
        case 1 => b[0] as int
        case 2 => (b[0] as int - 0xC0) * 64 + Continuation(b[1])
        case 3 => (b[0] as int - 0xE0) * 4096 + Continuation(b[1]) * 64 + Continuation(b[2])
        case _ => (b[0] as int - 0xF0) * 262144 + Continuation(b[1]) * 4096 + Continuation(b[2]) * 64 + Continuation(b[3]);
      if c < 0x110000 then Some(c as Scalar) else None
  }

  /** What reading a line as a string yields: None is the "invalid UTF-8" error. */
  function Decode(b: seq<Byte>): Option<seq<Scalar>> {
    if b == [] then Some([])
    else
      match DecodeHead(b)
      case None => None
      case Some(c) =>
        var rest := Decode(b[Width(b[0])..]);
        if rest == None then None else Some([c] + rest.value)
  }

  lemma SixBits(n: nat)
    ensures n == n / 64 * 64 + n % 64 && n / 64 / 64 == n / 4096 && n / 4096 / 64 == n / 262144
  {
  }

  lemma AssembleUtf8(n: nat)
    ensures n == n / 4096 * 4096 + n / 64 % 64 * 64 + n % 64
    ensures n == n / 262144 * 262144 + n / 4096 % 64 * 4096 + n / 64 % 64 * 64 + n % 64
  {
    SixBits(n);
    SixBits(n / 64);
    SixBits(n / 4096);
  }

  lemma DecodeHeadOfUtf8(c: Scalar, rest: seq<Byte>)
    ensures |Utf8(c)| == Width(Utf8(c)[0])
    ensures DecodeHead(Utf8(c) + rest) == Some(c)
  {
    var b, head := Utf8(c) + rest, Utf8(c);
    AssembleUtf8(c as int);
    assert forall k :: 0 <= k < |head| ==> b[k] == head[k];
    assert forall k :: 1 <= k < |head| ==> 0 <= Continuation(head[k]) < 64;
  }

  lemma DecodeCons(c: Scalar, rest: seq<Byte>)
    ensures Decode(Utf8(c) + rest) == if Decode(rest) == None then None else Some([c] + Decode(rest).value)
  {
    DecodeHeadOfUtf8(c, rest);
    assert (Utf8(c) + rest)[0] == Utf8(c)[0];
    assert (Utf8(c) + rest)[|Utf8(c)|..] == rest;
  }

  lemma DecodePartOfCharacter(c: Scalar, k: nat)
    requires 0 < k < |Utf8(c)|
    ensures Decode(Utf8(c)[..k]) == None
  {
    DecodeHeadOfUtf8(c, []);
  }

  lemma {:induction false} DecodeRoundTrip(s: seq<Scalar>)
    ensures Decode(Utf8All(s)) == Some(s)
  {
    if s != [] {
      DecodeRoundTrip(s[1..]);
      DecodeCons(s[0], Utf8All(s[1..]));
      assert [s[0]] + s[1..] == s;
    }
  }

  lemma Associative<T>(x: seq<T>, y: seq<T>, z: seq<T>)
    ensures x + (y + z) == (x + y) + z
  {
  }

  lemma CutConcat<T>(x: seq<T>, y: seq<T>, k: nat)
    requires k <= |x| + |y|
    ensures (x + y)[..k] == if k < |x| then x[..k] else x + y[..k - |x|]
  {
  }

  /** Cut anywhere, encoded text decodes to a prefix of it or, inside a character, not at all. */
  lemma {:induction false} DecodeCut(s: seq<Scalar>, k: nat) returns (j: nat)
    requires k <= |Utf8All(s)|
    ensures j <= |s|
    ensures Decode(Utf8All(s)[..k]).Some? ==> Decode(Utf8All(s)[..k]) == Some(s[..j])
    ensures k < |Utf8All(s)| && Decode(Utf8All(s)[..k]).Some? ==> j < |s|
    ensures k > 0 && Decode(Utf8All(s)[..k]).Some? ==> j > 0
  {
    j := 0;
    if k > 0 {
      var head, tail := Utf8(s[0]), Utf8All(s[1..]);
      CutConcat(head, tail, k);
      if k < |head| {
        DecodePartOfCharacter(s[0], k);
      } else {
        j := DecodeCut(s[1..], k - |head|);
        DecodeCons(s[0], tail[..k - |head|]);
        assert [s[0]] + s[1..][..j] == s[..j + 1];
        j := j + 1;
      }
    }
  }

  predicate OneLine(s: seq<Scalar>) {
    NEWLINE_CHAR !in s
  }

  lemma {:induction false} Utf8HasNoNewline(s: seq<Scalar>)
    requires OneLine(s)
    ensures NEWLINE !in Utf8All(s)
  {
    if s != [] {
      assert NEWLINE !in Utf8(s[0]);
      Utf8HasNoNewline(s[1..]);
    }
  }

  // ---------------------------------------------------------------- text of a record

  function Digits(n: nat): (d: seq<Scalar>)
    ensures d != [] && forall k :: 0 <= k < |d| ==> 48 <= d[k] < 58
  {
    if n < 10 then [(48 + n) as Scalar] else Digits(n / 10) + [(48 + n % 10) as Scalar]
  }

  function ParseNumber(s: seq<Scalar>): Option<nat> {
    if s == [] then None
    else
      var d := s[|s| - 1];
      if !(48 <= d < 58) then None
      else if |s| == 1 then Some((d - 48) as nat)
      else
        var front := ParseNumber(s[..|s| - 1]);
        if front == None then None else Some(front.value * 10 + (d - 48) as nat)
  }

  lemma {:induction false} NumberRoundTrip(n: nat)
    ensures ParseNumber(Digits(n)) == Some(n)
  {
    if n >= 10 {
      NumberRoundTrip(n / 10);
      assert Digits(n)[..|Digits(n)| - 1] == Digits(n / 10);
    }
  }

  function EscapeOne(c: Scalar): seq<Scalar> {
    if c == QUOTE || c == BACKSLASH then [BACKSLASH, c]
    else if c < 32 then [BACKSLASH, 0x60 + c]
    else [c]
  }

  function Escape(s: seq<Scalar>): seq<Scalar> {
    if s == [] then [] else EscapeOne(s[0]) + Escape(s[1..])
  }

  /** The string up to its closing quote, and what follows the quote. */
  function ParseString(s: seq<Scalar>): Option<(seq<Scalar>, seq<Scalar>)> {
    if s == [] || (s[0] < 32) then None
    else if s[0] == QUOTE then Some(([], s[1..]))
    else if s[0] == BACKSLASH then
      if |s| < 2 then None
      else if s[1] == QUOTE || s[1] == BACKSLASH then Push(s[1], ParseString(s[2..]))
      else if 0x60 <= s[1] < 0x80 then Push(s[1] - 0x60, ParseString(s[2..]))
      else None
    else Push(s[0], ParseString(s[1..]))
  }

  function Push(c: Scalar, tail: Option<(seq<Scalar>, seq<Scalar>)>): Option<(seq<Scalar>, seq<Scalar>)> {
    if tail == None then None else Some(([c] + tail.value.0, tail.value.1))
  }

  lemma {:induction false} StringRoundTrip(s: seq<Scalar>, rest: seq<Scalar>)
    ensures ParseString(Escape(s) + [QUOTE] + rest) == Some((s, rest))
  {
    var text := Escape(s) + [QUOTE] + rest;
    if s == [] {
      assert text[1..] == rest;
    } else {
      StringRoundTrip(s[1..], rest);
      assert text[|EscapeOne(s[0])|..] == Escape(s[1..]) + [QUOTE] + rest;
      assert [s[0]] + s[1..] == s;
    }
  }

  lemma {:induction false} UnterminatedString(s: seq<Scalar>, k: nat)
    requires k <= |Escape(s)|
    ensures ParseString(Escape(s)[..k]) == None
  {
    if k > 0 {
      var text, w := Escape(s)[..k], |EscapeOne(s[0])|;
      if k >= w {
        UnterminatedString(s[1..], k - w);
        assert text[w..] == Escape(s[1..])[..k - w];
      }
    }
  }

  function FirstQuote(s: seq<Scalar>, from: nat): (r: Option<nat>)
    ensures r.Some? ==> from <= r.value < |s| && s[r.value] == QUOTE && forall k :: from <= k < r.value ==> s[k] != QUOTE
    ensures r == None ==> forall k :: from <= k < |s| ==> s[k] != QUOTE
    decreases |s| - from
  {
    if from >= |s| then None else if s[from] == QUOTE then Some(from) else FirstQuote(s, from + 1)
  }

  function RecordText(r: WalRecord): seq<Scalar> {
    [OPEN] + Digits(r.seqNo) + [QUOTE] + Escape(r.statement) + [QUOTE, CLOSE]
  }

  function ParseText(s: seq<Scalar>): Option<WalRecord> {
    if s == [] || s[0] != OPEN then None
    else
      var q := FirstQuote(s, 1);
      if q == None then None
      else
        var n := ParseNumber(s[1..q.value]);
        var body := ParseString(s[q.value + 1..]);
        if n == None || body == None || body.value.1 != [CLOSE] then None
        else Some(WalRecord(n.value, body.value.0))
  }

  /** Text that starts with a whole record parses only if nothing follows it. */
  lemma RecordTextParses(r: WalRecord, rest: seq<Scalar>)
    ensures ParseText(RecordText(r) + rest) == if rest == [] then Some(r) else None
  {
    var d := Digits(r.seqNo);
    var text := RecordText(r) + rest;
    var tail := Escape(r.statement) + [QUOTE] + ([CLOSE] + rest);
    assert text == [OPEN] + d + [QUOTE] + tail;
    var q := 1 + |d|;
    assert text[q] == QUOTE;
    assert forall k :: 1 <= k < q ==> text[k] == d[k - 1];
    assert FirstQuote(text, 1) == Some(q);
    assert text[1..q] == d && text[q + 1..] == tail;
    NumberRoundTrip(r.seqNo);
    StringRoundTrip(r.statement, [CLOSE] + rest);
    assert rest != [] ==> |[CLOSE] + rest| > 1;
  }

  /** No proper prefix of a record's text parses. */
  lemma RecordTextCut(r: WalRecord, j: nat)
    requires j < |RecordText(r)|
    ensures ParseText(RecordText(r)[..j]) == None
  {
    var d, body := Digits(r.seqNo), Escape(r.statement);
    var text, cut := RecordText(r), RecordText(r)[..j];
    var q := 1 + |d|;
    assert text == [OPEN] + d + [QUOTE] + body + [QUOTE, CLOSE];
    assert forall k :: 1 <= k < q ==> text[k] == d[k - 1];
    if j > q {
      assert cut[q] == QUOTE && forall k :: 1 <= k < q ==> cut[k] == text[k];
      assert FirstQuote(cut, 1) == Some(q);
      var ending: seq<Scalar>, left := body + [QUOTE, CLOSE], j - q - 1;
      assert text == ([OPEN] + d + [QUOTE]) + ending;
      assert cut[q + 1..] == ending[..left];
      if left <= |body| {
        assert ending[..left] == body[..left];
        UnterminatedString(r.statement, left);
      } else {
        assert ending[..left] == body + [QUOTE] + [];
        StringRoundTrip(r.statement, []);
      }
    }
  }

  lemma {:induction false} EscapeHasNoControl(s: seq<Scalar>)
    ensures forall c | c in Escape(s) :: c >= 32
  {
    if s != [] {
      EscapeHasNoControl(s[1..]);
    }
  }

  /** A record's line, without its newline. */
  function Line(r: WalRecord): seq<Byte> {
    Utf8All(RecordText(r))
  }

  /** The bytes one append writes. */
  function Entry(r: WalRecord): seq<Byte> {
    Line(r) + [NEWLINE]
  }

  lemma LineShape(r: WalRecord)
    ensures OneLine(RecordText(r)) && NEWLINE !in Line(r)
    ensures |Line(r)| > 0
    ensures Decode(Line(r)) == Some(RecordText(r))
  {
    EscapeHasNoControl(r.statement);
    Utf8HasNoNewline(RecordText(r));
    DecodeRoundTrip(RecordText(r));
  }

  // ---------------------------------------------------------------- reading a file

  /** Rust's `char::is_whitespace`. */
  predicate IsSpace(c: Scalar) {
    9 <= c <= 13 || c == 32 || c == 0x85 || c == 0xA0 || c == 0x1680 || 0x2000 <= c <= 0x200A
    || c == 0x2028 || c == 0x2029 || c == 0x202F || c == 0x205F || c == 0x3000
  }

  predicate Blank(s: seq<Scalar>) {
    forall c | c in s :: IsSpace(c)
  }

  function FirstNewline(f: seq<Byte>): (i: nat)
    ensures i <= |f|
    ensures i < |f| ==> f[i] == NEWLINE
    ensures forall k :: 0 <= k < i ==> f[k] != NEWLINE
  {
    if f == [] || f[0] == NEWLINE then 0 else 1 + FirstNewline(f[1..])
  }

  /** The file split at newlines; an unterminated last line counts, an empty one does not. */
  function Lines(f: seq<Byte>): seq<seq<Byte>>
    decreases |f|
  {
    if f == [] then []
    else
      var i := FirstNewline(f);
      if i == |f| then [f] else [f[..i]] + Lines(f[i + 1..])
  }

  function DecodeLines(ls: seq<seq<Byte>>): Option<seq<seq<Scalar>>> {
    if ls == [] then Some([])
    else
      var head := Decode(ls[0]);
      var rest := DecodeLines(ls[1..]);
      if head == None || rest == None then None else Some([head.value] + rest.value)
  }

  datatype Replay = Replay(records: seq<WalRecord>, warned: bool)

  /** One line of the file: its effect on what has been read so far. */
  function ReadLine(acc: Replay, line: seq<Scalar>, last: bool): Result<Replay> {
    if Blank(line) then Ok(acc)
    else
      match ParseText(line)
      case Some(r) =>
        if acc.records != [] && r.seqNo != acc.records[|acc.records| - 1].seqNo + 1 then Err("gap in sequence numbers")
        else Ok(acc.(records := acc.records + [r]))
      case None => if last then Ok(acc.(warned := true)) else Err("corrupt record")
  }

  function ReadLines(lines: seq<seq<Scalar>>, i: nat, acc: Replay): Result<Replay>
    requires i <= |lines|
    decreases |lines| - i
  {
    if i == |lines| then Ok(acc)
    else
      match ReadLine(acc, lines[i], i == |lines| - 1)
      case Err(m) => Err(m)
      case Ok(next) => ReadLines(lines, i + 1, next)
  }

  function ReadFile(f: seq<Byte>): Result<Replay> {
    match DecodeLines(Lines(f))
    case None => Err("invalid UTF-8")
    case Some(lines) => ReadLines(lines, 0, Replay([], false))
  }

  /** `read_records`: a loop over the lines with a running sequence check. */
  method ReadRecords(f: seq<Byte>) returns (result: Result<Replay>)
    ensures result == ReadFile(f)
  {
    var decoded := DecodeLines(Lines(f));
    if decoded == None {
      return Err("invalid UTF-8");
    }
    var lines := decoded.value;
    var records: seq<WalRecord> := [];
    var warned := false;
    for i := 0 to |lines|
      invariant ReadLines(lines, 0, Replay([], false)) == ReadLines(lines, i, Replay(records, warned))
    {
      if !Blank(lines[i]) {
        match ParseText(lines[i])
        case Some(r) =>
          if records != [] && r.seqNo != records[|records| - 1].seqNo + 1 {
            return Err("gap in sequence numbers");
          }
          records := records + [r];
        case None =>
          if i != |lines| - 1 {
            return Err("corrupt record");
          }
          warned := true;
      }
    }
    return Ok(Replay(records, warned));
  }

  predicate Consecutive(rs: seq<WalRecord>) {
    forall i :: 0 < i < |rs| ==> rs[i].seqNo == rs[i - 1].seqNo + 1
  }

  /** Whatever the file holds, what is read has no gap and no repeat in its sequence numbers. */
  lemma {:induction false} ReadIsConsecutive(lines: seq<seq<Scalar>>, i: nat, acc: Replay)
    requires i <= |lines| && Consecutive(acc.records)
    ensures ReadLines(lines, i, acc).Ok? ==> Consecutive(ReadLines(lines, i, acc).value.records)
    decreases |lines| - i
  {
    if i < |lines| {
      var next := ReadLine(acc, lines[i], i == |lines| - 1);
      if next.Ok? {
        ReadIsConsecutive(lines, i + 1, next.value);
      }
    }
  }

  // ---------------------------------------------------------------- what a file holds

  /** The bytes of newline-terminated lines. */
  function TextFile(ts: seq<seq<Scalar>>): seq<Byte> {
    if ts == [] then [] else Utf8All(ts[0]) + [NEWLINE] + TextFile(ts[1..])
  }

  function Texts(rs: seq<WalRecord>): (ts: seq<seq<Scalar>>)
    ensures |ts| == |rs|
  {
    seq(|rs|, i requires 0 <= i < |rs| => RecordText(rs[i]))
  }

  /** The bytes of complete, newline-terminated records. */
  function Encoded(rs: seq<WalRecord>): seq<Byte> {
    if rs == [] then [] else Encoded(rs[..|rs| - 1]) + Entry(rs[|rs| - 1])
  }

  lemma {:induction false} TextFileConcat(a: seq<seq<Scalar>>, b: seq<seq<Scalar>>)
    ensures TextFile(a + b) == TextFile(a) + TextFile(b)
  {
    if a == [] {
      assert a + b == b;
    } else {
      TextFileConcat(a[1..], b);
      assert (a + b)[1..] == a[1..] + b && (a + b)[0] == a[0];
      var head := Utf8All(a[0]) + [NEWLINE];
      assert head + (TextFile(a[1..]) + TextFile(b)) == (head + TextFile(a[1..])) + TextFile(b);
    }
  }

  lemma EncodedAppend(rs: seq<WalRecord>, r: WalRecord)
    ensures Encoded(rs + [r]) == Encoded(rs) + Entry(r)
  {
    assert (rs + [r])[..|rs|] == rs;
  }

  lemma {:induction false} EncodedConcat(a: seq<WalRecord>, b: seq<WalRecord>)
    ensures Encoded(a + b) == Encoded(a) + Encoded(b)
  {
    if b == [] {
      assert a + b == a;
    } else {
      var front, last := b[..|b| - 1], b[|b| - 1];
      EncodedConcat(a, front);
      EncodedAppend(a + front, last);
      EncodedAppend(front, last);
      assert b == front + [last];
      assert a + b == (a + front) + [last];
      Associative(Encoded(a), Encoded(front), Entry(last));
    }
  }

  /** The same bytes as lines of text. */
  lemma {:induction false} EncodedIsTextFile(rs: seq<WalRecord>)
    ensures Encoded(rs) == TextFile(Texts(rs))
  {
    if rs != [] {
      var front, last := rs[..|rs| - 1], rs[|rs| - 1];
      EncodedIsTextFile(front);
      TextFileConcat(Texts(front), [RecordText(last)]);
      assert Texts(rs) == Texts(front) + [RecordText(last)];
      assert [RecordText(last)][1..] == [];
      assert TextFile([RecordText(last)]) == Line(last) + [NEWLINE] + [];
    }
  }

  /** Lines split off one by one: the file is its first line and the file of the rest. */
  lemma SplitLine(t: seq<Scalar>, rest: seq<Byte>)
    requires OneLine(t)
    ensures DecodeLines(Lines(Utf8All(t) + [NEWLINE] + rest)) ==
            var ls := DecodeLines(Lines(rest));
            if ls == None then None else Some([t] + ls.value)
  {
    var head := Utf8All(t);
    Utf8HasNoNewline(t);
    DecodeRoundTrip(t);
    var f := head + [NEWLINE] + rest;
    assert f[|head|] == NEWLINE && forall k :: 0 <= k < |head| ==> f[k] == head[k];
    assert FirstNewline(f) == |head|;
    assert f[..|head|] == head && f[|head| + 1..] == rest;
    assert ([head] + Lines(rest))[1..] == Lines(rest);
  }

  /** Complete lines followed by an unterminated tail, as the reader sees them. */
  function LinesThenTail(ts: seq<seq<Scalar>>, tail: seq<Byte>): Option<seq<seq<Scalar>>> {
    if tail == [] then Some(ts)
    else if Decode(tail) == None then None
    else Some(ts + [Decode(tail).value])
  }

  lemma LinesOfTail(tail: seq<Byte>)
    requires NEWLINE !in tail
    ensures DecodeLines(Lines(tail)) == LinesThenTail([], tail)
  {
    if tail != [] {
      assert FirstNewline(tail) == |tail|;
      assert Lines(tail) == [tail] && [tail][1..] == [];
      if Decode(tail).Some? {
        assert [] + [Decode(tail).value] == [Decode(tail).value] + [];
      }
    }
  }

  lemma LinesThenTailCons(t: seq<Scalar>, ts: seq<seq<Scalar>>, tail: seq<Byte>)
    ensures LinesThenTail([t] + ts, tail)
            == if LinesThenTail(ts, tail) == None then None else Some([t] + LinesThenTail(ts, tail).value)
  {
    if tail != [] && Decode(tail).Some? {
      var last := [Decode(tail).value];
      assert [t] + (ts + last) == ([t] + ts) + last;
    }
  }

  lemma LinesOfTextsStep(t: seq<Scalar>, ts: seq<seq<Scalar>>, tail: seq<Byte>)
    requires OneLine(t) && DecodeLines(Lines(TextFile(ts) + tail)) == LinesThenTail(ts, tail)
    ensures DecodeLines(Lines(TextFile([t] + ts) + tail)) == LinesThenTail([t] + ts, tail)
  {
    SplitLine(t, TextFile(ts) + tail);
    LinesThenTailCons(t, ts, tail);
    TextFileCons(t, ts);
    Associative(Utf8All(t) + [NEWLINE], TextFile(ts), tail);
  }

  lemma {:induction false} LinesOfTexts(ts: seq<seq<Scalar>>, tail: seq<Byte>)
    requires NEWLINE !in tail && forall i :: 0 <= i < |ts| ==> OneLine(ts[i])
    ensures DecodeLines(Lines(TextFile(ts) + tail)) == LinesThenTail(ts, tail)
  {
    if ts == [] {
      assert TextFile(ts) + tail == tail;
      LinesOfTail(tail);
    } else {
      LinesOfTexts(ts[1..], tail);
      LinesOfTextsStep(ts[0], ts[1..], tail);
      assert [ts[0]] + ts[1..] == ts;
    }
  }

  lemma NotBlank(s: seq<Scalar>)
    requires s != [] && s[0] == OPEN
    ensures !Blank(s)
  {
    assert s[0] in s;
  }

  lemma {:induction false} ReadTexts(rs: seq<WalRecord>, more: seq<seq<Scalar>>, i: nat)
    requires Consecutive(rs) && i <= |rs|
    ensures ReadLines(Texts(rs) + more, i, Replay(rs[..i], false)) == ReadLines(Texts(rs) + more, |rs|, Replay(rs, false))
    decreases |rs| - i
  {
    if i == |rs| {
      assert rs[..i] == rs;
    } else {
      var text := RecordText(rs[i]);
      assert (Texts(rs) + more)[i] == text;
      NotBlank(text);
      RecordTextParses(rs[i], []);
      assert text + [] == text;
      assert rs[..i] + [rs[i]] == rs[..i + 1];
      ReadTexts(rs, more, i + 1);
    }
  }

  /** Reading complete records followed by an unterminated tail: everything depends on the tail. */
  lemma ReadWithTail(rs: seq<WalRecord>, tail: seq<Byte>)
    requires Consecutive(rs) && NEWLINE !in tail
    ensures ReadFile(Encoded(rs) + tail) ==
            if tail == [] then Ok(Replay(rs, false))
            else if Decode(tail) == None then Err("invalid UTF-8")
            else ReadLine(Replay(rs, false), Decode(tail).value, true)
  {
    forall i | 0 <= i < |rs| ensures OneLine(Texts(rs)[i]) {
      LineShape(rs[i]);
    }
    LinesOfTexts(Texts(rs), tail);
    EncodedIsTextFile(rs);
    if tail == [] {
      ReadTexts(rs, [], 0);
      assert Texts(rs) + [] == Texts(rs);
    } else if Decode(tail).Some? {
      var t := Decode(tail).value;
      ReadTexts(rs, [t], 0);
      assert (Texts(rs) + [t])[|rs|] == t;
    }
  }

  /** A log of consecutive records reads back as exactly those records. */
  lemma ReadEncoded(rs: seq<WalRecord>)
    requires Consecutive(rs)
    ensures ReadFile(Encoded(rs)) == Ok(Replay(rs, false))
  {
    ReadWithTail(rs, []);
    assert Encoded(rs) + [] == Encoded(rs);
  }

  /** The cut `k` of the line of `r` falls on a character boundary. */
  predicate WholeCharacters(r: WalRecord, k: nat)
    requires k <= |Line(r)|
  {
    Decode(Line(r)[..k]).Some?
  }

  /**
   A log whose next append was cut after `k` bytes of its line: the record counts exactly when
   its line is complete, a shorter cut is dropped with a warning, and a cut inside a multi-byte
   character makes the whole file unreadable.
   */
  lemma ReadAfterCut(rs: seq<WalRecord>, r: WalRecord, k: nat)
    requires Consecutive(rs + [r]) && k <= |Line(r)|
    ensures ReadFile(Encoded(rs) + Line(r)[..k]) ==
            if k == 0 then Ok(Replay(rs, false))
            else if k == |Line(r)| then Ok(Replay(rs + [r], false))
            else if WholeCharacters(r, k) then Ok(Replay(rs, true))
            else Err("invalid UTF-8")
  {
    LineShape(r);
    var tail := Line(r)[..k];
    assert NEWLINE !in tail;
    assert forall i :: 0 <= i < |rs| ==> (rs + [r])[i] == rs[i];
    assert (rs + [r])[|rs|] == r;
    ReadWithTail(rs, tail);
    if k == |Line(r)| {
      assert tail == Line(r);
      NotBlank(RecordText(r));
      RecordTextParses(r, []);
      assert RecordText(r) + [] == RecordText(r);
    } else if k > 0 && WholeCharacters(r, k) {
      var j := DecodeCut(RecordText(r), k);
      NotBlank(RecordText(r)[..j]);
      RecordTextCut(r, j);
    }
  }

  /** Text that holds two records on one line is no record. */
  function Glued(r: WalRecord, next: WalRecord): seq<Scalar> {
    RecordText(r) + RecordText(next)
  }

  lemma Regroup<T>(a: seq<T>, b: seq<T>, c: seq<T>, d: seq<T>)
    ensures a + ((b + c) + d) == ((a + b) + c) + d
  {
  }

  lemma TextFileCons(t: seq<Scalar>, ts: seq<seq<Scalar>>)
    ensures TextFile([t] + ts) == Utf8All(t) + [NEWLINE] + TextFile(ts)
  {
    assert ([t] + ts)[1..] == ts;
  }

  lemma GluedIsLine(rs: seq<WalRecord>, r: WalRecord, next: WalRecord, more: seq<WalRecord>)
    ensures Encoded(rs) + (Line(r) + (Entry(next) + Encoded(more))) == TextFile(Texts(rs) + ([Glued(r, next)] + Texts(more)))
  {
    Utf8AllConcat(RecordText(r), RecordText(next));
    EncodedIsTextFile(rs);
    EncodedIsTextFile(more);
    TextFileConcat(Texts(rs), [Glued(r, next)] + Texts(more));
    TextFileCons(Glued(r, next), Texts(more));
    Regroup(Line(r), Line(next), [NEWLINE], Encoded(more));
  }

  lemma GluedIsOneLine(rs: seq<WalRecord>, r: WalRecord, next: WalRecord, more: seq<WalRecord>, i: nat)
    requires i < |rs| + 1 + |more|
    ensures OneLine((Texts(rs) + ([Glued(r, next)] + Texts(more)))[i])
  {
    if i < |rs| {
      LineShape(rs[i]);
    } else if i == |rs| {
      LineShape(r);
      LineShape(next);
    } else {
      LineShape(more[i - |rs| - 1]);
    }
  }

  /**
   Appending to a log whose last line lost only its newline glues two records together: both
   are dropped with a warning, and once another record follows the log is refused as corrupt.
   */
  lemma ReadGlued(rs: seq<WalRecord>, r: WalRecord, next: WalRecord, more: seq<WalRecord>)
    requires Consecutive(rs)
    ensures ReadFile(Encoded(rs) + (Line(r) + (Entry(next) + Encoded(more)))) ==
            if more == [] then Ok(Replay(rs, true)) else Err("corrupt record")
  {
    var glued := Glued(r, next);
    var ts := Texts(rs) + ([glued] + Texts(more));
    GluedIsLine(rs, r, next, more);
    forall i | 0 <= i < |ts| ensures OneLine(ts[i]) {
      GluedIsOneLine(rs, r, next, more, i);
    }
    LinesOfTexts(ts, []);
    assert TextFile(ts) + [] == TextFile(ts);
    ReadTexts(rs, [glued] + Texts(more), 0);
    assert ts[|rs|] == glued;
    NotBlank(glued);
    RecordTextParses(r, RecordText(next));
  }

  lemma Utf8AllCons(c: Scalar, s: seq<Scalar>)
    ensures Utf8All([c] + s) == Utf8(c) + Utf8All(s)
  {
    assert ([c] + s)[1..] == s;
  }

  lemma {:induction false} Utf8AllConcat(a: seq<Scalar>, b: seq<Scalar>)
    ensures Utf8All(a + b) == Utf8All(a) + Utf8All(b)
  {
    if a == [] {
      assert a + b == b;
    } else {
      Utf8AllConcat(a[1..], b);
      Utf8AllCons(a[0], a[1..] + b);
      assert [a[0]] + (a[1..] + b) == a + b;
      Associative(Utf8(a[0]), Utf8All(a[1..]), Utf8All(b));
    }
  }
}
