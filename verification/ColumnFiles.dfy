/**
 The memory-mapped column files of `src/core/colbuf.rs` as bytes: an 80-byte header, one validity byte a row,
 the scales of an I8 column, and the payload, each section padded to a multiple of 8.

 The digest of the body is an arbitrary function to 32 bytes, and a scale is the 32 bits it is stored in.
 Offsets are products of row counts and strides; `Times` is the same product as a repeated sum, in which
 appended rows are counted.

 A written file is accepted and reads back; an accepted file whose sizes do not wrap is never read outside its bounds.
 */
module ColumnFiles {
  import opened Common

  type Digest = seq<nat> -> seq<nat>

  ghost predicate IsDigest(digest: Digest) {
    forall body :: |digest(body)| == 32
  }

  // ---------------------------------------------------------------- little-endian numbers

  function Pow256(k: nat): nat {
    if k == 0 then 1 else 256 * Pow256(k - 1)
  }

  function ToLe(n: nat, k: nat): (b: seq<nat>)
    ensures |b| == k
  {
    if k == 0 then [] else [n % 256] + ToLe(n / 256, k - 1)
  }

  function FromLe(b: seq<nat>): nat {
    if b == [] then 0 else b[0] + 256 * FromLe(b[1..])
  }

  lemma {:induction false} LeRoundTrip(n: nat, k: nat)
    requires n < Pow256(k)
    ensures FromLe(ToLe(n, k)) == n
  {
    if k > 0 {
      LeRoundTrip(n / 256, k - 1);
      assert ToLe(n, k)[1..] == ToLe(n / 256, k - 1);
    }
  }

  // ---------------------------------------------------------------- cells

  datatype Kind = BitVectorKind | F16Kind | I8Kind

  /** `Foreign` stands for every value that no column file can hold. */
  datatype Cell =
    | Null
    | BitVector(len: nat, words: seq<nat>)
    | F16(halves: seq<nat>)
    | I8(scale: nat, codes: seq<int>)
    | Foreign

  function CeilDiv(n: nat, d: nat): nat
    requires d > 0
  {
    (n + d - 1) / d
  }

  /** The machine widths of a cell. */
  ghost predicate WellFormed(c: Cell) {
    match c
    case BitVector(len, words) => |words| == CeilDiv(len, 64) && forall i :: 0 <= i < |words| ==> words[i] < Pow256(8)
    case F16(halves) => forall i :: 0 <= i < |halves| ==> halves[i] < Pow256(2)
    case I8(scale, codes) => scale < Pow256(4) && forall i :: 0 <= i < |codes| ==> -128 <= codes[i] < 128
    case _ => true
  }

  predicate Fits(c: Cell, kind: Kind, dim: nat) {
    match c
    case Null => true
    case BitVector(len, _) => kind == BitVectorKind && len == dim
    case F16(halves) => kind == F16Kind && |halves| == dim
    case I8(_, codes) => kind == I8Kind && |codes| == dim
    case Foreign => false
  }

  function Code(kind: Kind): nat {
    match kind case BitVectorKind => 1 case F16Kind => 2 case I8Kind => 3
  }

  function FromCode(c: nat): Option<Kind> {
    if c == 1 then Some(BitVectorKind) else if c == 2 then Some(F16Kind) else if c == 3 then Some(I8Kind) else None
  }

  function Pad8(n: nat): nat {
    CeilDiv(n, 8) * 8
  }

  /** Bytes of one cell before padding. */
  function Width(kind: Kind, dim: nat): nat {
    match kind case BitVectorKind => CeilDiv(dim, 64) * 8 case F16Kind => dim * 2 case I8Kind => dim
  }

  function Stride(kind: Kind, dim: nat): nat {
    Pad8(Width(kind, dim))
  }

  lemma PaddingFacts(n: nat)
    ensures n <= Pad8(n) < n + 8 && Pad8(n) % 8 == 0
  {
  }

  // ---------------------------------------------------------------- the written file

  function Zeros(n: nat): (z: seq<nat>)
    ensures |z| == n && forall i :: 0 <= i < n ==> z[i] == 0
  {
    seq(n, _ => 0)
  }

  /** `Vec::resize` with zeros. */
  function Resize(s: seq<nat>, n: nat): (r: seq<nat>)
    ensures |r| == n
  {
    if n <= |s| then s[..n] else s + Zeros(n - |s|)
  }

  /** The length of `n` entries of `k` bytes. */
  function Times(n: nat, k: nat): nat {
    if n == 0 then 0 else Times(n - 1, k) + k
  }

  lemma {:induction false} TimesIsProduct(n: nat, k: nat)
    ensures Times(n, k) == n * k
  {
    if n > 0 {
      TimesIsProduct(n - 1, k);
      assert n * k == (n - 1) * k + k;
    }
  }

  lemma {:induction false} TimesInside(r: nat, n: nat, k: nat)
    requires r < n
    ensures Times(r, k) + k <= Times(n, k)
  {
    if r < n - 1 {
      TimesInside(r, n - 1, k);
    }
  }

  function Numbers(ns: seq<nat>, k: nat, n: nat): (b: seq<nat>)
    requires n <= |ns|
    ensures |b| == Times(n, k)
  {
    if n == 0 then [] else Numbers(ns, k, n - 1) + ToLe(ns[n - 1], k)
  }

  function ToByte(q: int): nat
    requires -128 <= q < 128
  {
    if q < 0 then q + 256 else q
  }

  function FromByte(b: nat): int {
    if b >= 128 then b - 256 else b
  }

  function CodeBytes(codes: seq<int>): (b: seq<nat>)
    requires forall i :: 0 <= i < |codes| ==> -128 <= codes[i] < 128
    ensures |b| == |codes| && forall i :: 0 <= i < |b| ==> b[i] == ToByte(codes[i])
  {
    seq(|codes|, i requires 0 <= i < |codes| => ToByte(codes[i]))
  }

  /** The bytes of one cell before padding. */
  ghost function Content(c: Cell): seq<nat>
    requires WellFormed(c)
  {
    match c
    case BitVector(_, words) => Numbers(words, 8, |words|)
    case F16(halves) => Numbers(halves, 2, |halves|)
    case I8(_, codes) => CodeBytes(codes)
    case _ => []
  }

  lemma ContentFits(c: Cell, kind: Kind, dim: nat)
    requires WellFormed(c) && Fits(c, kind, dim)
    ensures |Content(c)| == (if c.Null? then 0 else Width(kind, dim)) <= Stride(kind, dim)
  {
    PaddingFacts(Width(kind, dim));
    match c
    case BitVector(_, words) => TimesIsProduct(|words|, 8);
    case F16(halves) => TimesIsProduct(|halves|, 2);
    case _ =>
  }

  ghost function Payload(c: Cell, kind: Kind, dim: nat): (p: seq<nat>)
    requires WellFormed(c)
    ensures |p| == Stride(kind, dim)
  {
    Resize(Content(c), Stride(kind, dim))
  }

  function Validity(cells: seq<Cell>): (b: seq<nat>)
    ensures |b| == |cells| && forall r :: 0 <= r < |b| ==> b[r] == if cells[r].Null? then 0 else 1
  {
    seq(|cells|, r requires 0 <= r < |cells| => if cells[r].Null? then 0 else 1)
  }

  function ScaleOf(c: Cell): nat {
    if c.I8? then c.scale else 0
  }

  function Scales(cells: seq<Cell>): (s: seq<nat>)
    ensures |s| == |cells| && forall r :: 0 <= r < |s| ==> s[r] == ScaleOf(cells[r])
  {
    seq(|cells|, r requires 0 <= r < |cells| => ScaleOf(cells[r]))
  }

  ghost predicate AllWellFormed(cells: seq<Cell>) {
    forall r :: 0 <= r < |cells| ==> WellFormed(cells[r])
  }

  /** The payload of each row. */
  ghost function Payloads(cells: seq<Cell>, kind: Kind, dim: nat): (b: seq<seq<nat>>)
    requires AllWellFormed(cells)
    ensures |b| == |cells|
  {
    seq(|cells|, r requires 0 <= r < |cells| => Payload(cells[r], kind, dim))
  }

  ghost function Joined(blocks: seq<seq<nat>>, n: nat): seq<nat>
    requires n <= |blocks|
  {
    if n == 0 then [] else Joined(blocks, n - 1) + blocks[n - 1]
  }

  ghost predicate AllOf(blocks: seq<seq<nat>>, stride: nat) {
    forall i :: 0 <= i < |blocks| ==> |blocks[i]| == stride
  }

  lemma {:induction false} JoinedLength(blocks: seq<seq<nat>>, stride: nat, n: nat)
    requires AllOf(blocks, stride) && n <= |blocks|
    ensures |Joined(blocks, n)| == Times(n, stride)
  {
    if n > 0 {
      JoinedLength(blocks, stride, n - 1);
    }
  }

  function ScaleSection(cells: seq<Cell>, kind: Kind): seq<nat> {
    if kind == I8Kind then Resize(Numbers(Scales(cells), 4, |cells|), Pad8(4 * |cells|)) else []
  }

  ghost function Body(cells: seq<Cell>, kind: Kind, dim: nat): seq<nat>
    requires AllWellFormed(cells)
  {
    Resize(Validity(cells), Pad8(|cells|)) + ScaleSection(cells, kind) + Joined(Payloads(cells, kind, dim), |cells|)
  }

  const MAGIC: seq<nat> := [76, 78, 76, 67, 79, 76, 48, 49]
  const HEADER := 80

  /** The header, field by field. */
  function FieldBytes(kind: Kind, rows: nat, dim: nat, hash: seq<nat>, field: nat): seq<nat> {
    match field
    case 0 => MAGIC
    case 1 => ToLe(Code(kind), 4)
    case 2 => ToLe(0, 4)
    case 3 => ToLe(rows, 8)
    case 4 => ToLe(dim, 8)
    case 5 => ToLe(Stride(kind, dim), 8)
    case 6 => hash
    case _ => ToLe(0, 8)
  }

  function HeaderUpTo(kind: Kind, rows: nat, dim: nat, hash: seq<nat>, fields: nat): seq<nat> {
    if fields == 0 then FieldBytes(kind, rows, dim, hash, 0)
    else HeaderUpTo(kind, rows, dim, hash, fields - 1) + FieldBytes(kind, rows, dim, hash, fields)
  }

  function Header(kind: Kind, rows: nat, dim: nat, hash: seq<nat>): seq<nat> {
    HeaderUpTo(kind, rows, dim, hash, 7)
  }

  ghost function Written(digest: Digest, cells: seq<Cell>, kind: Kind, dim: nat): seq<nat>
    requires AllWellFormed(cells)
  {
    var body := Body(cells, kind, dim);
    Header(kind, |cells|, dim, digest(body)) + body
  }

  // ---------------------------------------------------------------- writing

  method AppendNumbers(body: seq<nat>, ns: seq<nat>, k: nat) returns (grown: seq<nat>)
    ensures grown == body + Numbers(ns, k, |ns|)
  {
    grown := body;
    for i := 0 to |ns|
      invariant grown == body + Numbers(ns, k, i)
    {
      grown := grown + ToLe(ns[i], k);
    }
  }

  /** One row of payload, padded to the stride. */
  method AppendPayload(body: seq<nat>, c: Cell, kind: Kind, dim: nat) returns (r: Result<seq<nat>>)
    requires WellFormed(c)
    ensures r.Ok? <==> Fits(c, kind, dim)
    ensures r.Ok? ==> r.value == body + Payload(c, kind, dim)
  {
    var grown := body;
    if c.Null? {
    } else if kind == BitVectorKind && c.BitVector? && c.len == dim {
      grown := AppendNumbers(body, c.words, 8);
    } else if kind == F16Kind && c.F16? && |c.halves| == dim {
      grown := AppendNumbers(body, c.halves, 2);
    } else if kind == I8Kind && c.I8? && |c.codes| == dim {
      grown := body + CodeBytes(c.codes);
    } else {
      return Err("row is not the column's type");
    }
    ContentFits(c, kind, dim);
    ResizeTail(body, Content(c), Stride(kind, dim));
    return Ok(Resize(grown, |body| + Stride(kind, dim)));
  }

  lemma ResizeTail(body: seq<nat>, content: seq<nat>, n: nat)
    requires |content| <= n
    ensures Resize(body + content, |body| + n) == body + Resize(content, n)
    ensures body + [] == body
  {
  }

  /** The scale section of an I8 column. */
  method AppendScales(validity: seq<nat>, cells: seq<Cell>) returns (front: seq<nat>)
    requires |validity| % 8 == 0
    ensures front == validity + ScaleSection(cells, I8Kind)
  {
    front := AppendNumbers(validity, Scales(cells), 4);
    TimesIsProduct(|cells|, 4);
    PadAligned(validity, Numbers(Scales(cells), 4, |cells|));
    front := Resize(front, Pad8(|front|));
  }

  ghost predicate Holds(body: seq<nat>, front: seq<nat>, blocks: seq<seq<nat>>, n: nat)
    requires n <= |blocks|
  {
    body == front + Joined(blocks, n)
  }

  lemma HoldsNext(body: seq<nat>, front: seq<nat>, blocks: seq<seq<nat>>, i: nat)
    requires i < |blocks| && Holds(body, front, blocks, i)
    ensures Holds(body + blocks[i], front, blocks, i + 1)
  {
  }

  ghost predicate AllFit(cells: seq<Cell>, kind: Kind, dim: nat, n: nat)
    requires n <= |cells|
  {
    forall i :: 0 <= i < n ==> Fits(cells[i], kind, dim)
  }

  lemma OnePayload(cells: seq<Cell>, kind: Kind, dim: nat, i: nat)
    requires AllWellFormed(cells) && i < |cells|
    ensures WellFormed(cells[i]) && Payloads(cells, kind, dim)[i] == Payload(cells[i], kind, dim)
  {
  }

  lemma OneMoreFits(cells: seq<Cell>, kind: Kind, dim: nat, i: nat)
    requires i < |cells| && AllFit(cells, kind, dim, i)
    ensures Fits(cells[i], kind, dim) ==> AllFit(cells, kind, dim, i + 1)
    ensures !Fits(cells[i], kind, dim) ==> !AllFit(cells, kind, dim, |cells|)
  {
  }

  /** What one more row does, whether it fits or not. */
  lemma NextRow(front: seq<nat>, body: seq<nat>, kind: Kind, dim: nat, cells: seq<Cell>, i: nat)
    requires AllWellFormed(cells) && i < |cells| && AllFit(cells, kind, dim, i)
    requires Holds(body, front, Payloads(cells, kind, dim), i)
    ensures WellFormed(cells[i])
    ensures Fits(cells[i], kind, dim) ==>
              AllFit(cells, kind, dim, i + 1) && Holds(body + Payload(cells[i], kind, dim), front, Payloads(cells, kind, dim), i + 1)
    ensures !Fits(cells[i], kind, dim) ==> !AllFit(cells, kind, dim, |cells|)
  {
    OnePayload(cells, kind, dim, i);
    HoldsNext(body, front, Payloads(cells, kind, dim), i);
    OneMoreFits(cells, kind, dim, i);
  }

  /** The loop over the rows. */
  method AppendRows(front: seq<nat>, kind: Kind, dim: nat, cells: seq<Cell>) returns (r: Result<seq<nat>>)
    requires AllWellFormed(cells)
    ensures r.Ok? <==> AllFit(cells, kind, dim, |cells|)
    ensures r.Ok? ==> Holds(r.value, front, Payloads(cells, kind, dim), |cells|)
  {
    ghost var blocks := Payloads(cells, kind, dim);
    r := Ok(front);
    assert Holds(front, front, blocks, 0);
    for i := 0 to |cells|
      invariant r.Ok? && AllFit(cells, kind, dim, i) && Holds(r.value, front, blocks, i)
    {
      NextRow(front, r.value, kind, dim, cells, i);
      r := AppendPayload(r.value, cells[i], kind, dim);
      if r.Err? {
        return;
      }
    }
  }

  /** `write_column`: the bytes of the file, or an error for the first row that does not belong. */
  method WriteColumn(digest: Digest, kind: Kind, dim: nat, cells: seq<Cell>) returns (r: Result<seq<nat>>)
    requires AllWellFormed(cells)
    ensures r.Ok? <==> forall i :: 0 <= i < |cells| ==> Fits(cells[i], kind, dim)
    ensures r.Ok? ==> r.value == Written(digest, cells, kind, dim)
  {
    var body := Resize(Validity(cells), Pad8(|cells|));
    PaddingFacts(|cells|);
    if kind == I8Kind {
      body := AppendScales(body, cells);
    } else {
      assert body + ScaleSection(cells, kind) == body;
    }
    var grown := AppendRows(body, kind, dim, cells);
    if grown.Err? {
      return Err(grown.message);
    }
    r := Ok(Header(kind, |cells|, dim, digest(grown.value)) + grown.value);
  }

  /** Padding a buffer whose front is aligned pads what follows. */
  lemma PadAligned(front: seq<nat>, tail: seq<nat>)
    requires |front| % 8 == 0
    ensures Resize(front + tail, Pad8(|front + tail|)) == front + Resize(tail, Pad8(|tail|))
  {
    PaddingFacts(|tail|);
    assert Pad8(|front| + |tail|) == |front| + Pad8(|tail|);
    ResizeTail(front, tail, Pad8(|tail|));
  }

  // ---------------------------------------------------------------- opening and reading

  datatype ColumnFile = ColumnFile(bytes: seq<nat>, kind: Kind, rows: nat, dim: nat)

  function At(bytes: seq<nat>, from: nat, n: nat): seq<nat>
    requires from + n <= |bytes|
  {
    bytes[from..from + n]
  }

  function ScalesAt(rows: nat): nat {
    HEADER + Pad8(rows)
  }

  function PayloadAt(kind: Kind, rows: nat): nat {
    if kind == I8Kind then ScalesAt(rows) + Pad8(rows * 4) else ScalesAt(rows)
  }

  // Sizes as the code computes them, in 64-bit words that wrap.

  const WORD := 0x1_0000_0000_0000_0000

  function Wrap(n: nat): nat {
    n % WORD
  }

  function StrideWord(kind: Kind, dim: nat): nat {
    Wrap(Pad8(Wrap(Width(kind, dim))))
  }

  function ScalesWord(rows: nat): nat {
    Wrap(HEADER + Wrap(Pad8(rows)))
  }

  function PayloadWord(kind: Kind, rows: nat): nat {
    if kind == I8Kind then Wrap(ScalesWord(rows) + Wrap(Pad8(Wrap(rows * 4)))) else ScalesWord(rows)
  }

  /** `open`: magic, kind, stride, length and digest must all agree; only the total is checked for overflow. */
  function Open(digest: Digest, bytes: seq<nat>): Result<ColumnFile> {
    if |bytes| < HEADER || bytes[..8] != MAGIC then Err("bad header")
    else
      var kind := FromCode(FromLe(At(bytes, 8, 4)));
      if kind.None? then Err("unknown kind")
      else
        var rows, dim, stride := FromLe(At(bytes, 16, 8)), FromLe(At(bytes, 24, 8)), FromLe(At(bytes, 32, 8));
        if stride != StrideWord(kind.value, dim) then Err("stride does not match the dimension")
        else if RowAt(PayloadWord(kind.value, rows), rows, stride) >= WORD then Err("sizes overflow")
        else if |bytes| != RowAt(PayloadWord(kind.value, rows), rows, stride) then Err("truncated or extended")
        else if digest(bytes[HEADER..]) != At(bytes, 40, 32) then Err("content hash mismatch")
        else Ok(ColumnFile(bytes, kind.value, rows, dim))
  }

  /** Neither the stride nor the start of the payload passes the size of a word. */
  predicate NothingWraps(kind: Kind, rows: nat, dim: nat) {
    Stride(kind, dim) < WORD && PayloadAt(kind, rows) < WORD
  }

  /** The length is the one of the layout without wrapping. */
  ghost predicate Opened(f: ColumnFile) {
    |f.bytes| == RowAt(PayloadAt(f.kind, f.rows), f.rows, Stride(f.kind, f.dim))
  }

  lemma WordsAreExact(kind: Kind, rows: nat, dim: nat)
    requires NothingWraps(kind, rows, dim)
    ensures StrideWord(kind, dim) == Stride(kind, dim) && ScalesWord(rows) == ScalesAt(rows)
    ensures PayloadWord(kind, rows) == PayloadAt(kind, rows)
  {
    PaddingFacts(Width(kind, dim));
    WrapSmall(Width(kind, dim));
    WrapSmall(Stride(kind, dim));
    ScalesAreExact(kind, rows);
    if kind == I8Kind {
      PaddingFacts(rows * 4);
      WrapSmall(rows * 4);
      WrapSmall(Pad8(rows * 4));
      WrapSmall(PayloadAt(kind, rows));
    }
  }

  lemma ScalesAreExact(kind: Kind, rows: nat)
    requires PayloadAt(kind, rows) < WORD
    ensures ScalesWord(rows) == ScalesAt(rows) && rows < WORD
  {
    PaddingFacts(rows);
    WrapSmall(Pad8(rows));
    WrapSmall(ScalesAt(rows));
  }

  lemma WrapSmall(n: nat)
    ensures n < WORD ==> Wrap(n) == n
    ensures Wrap(n) < WORD
  {
  }

  lemma OpenIsOpened(digest: Digest, bytes: seq<nat>)
    requires Open(digest, bytes).Ok?
    requires var f := Open(digest, bytes).value; NothingWraps(f.kind, f.rows, f.dim)
    ensures Opened(Open(digest, bytes).value)
  {
    var f := Open(digest, bytes).value;
    WordsAreExact(f.kind, f.rows, f.dim);
  }

  lemma RowInside(r: nat, rows: nat, stride: nat)
    requires r < rows
    ensures r * stride + stride <= rows * stride
  {
    TimesInside(r, rows, stride);
    TimesIsProduct(r, stride);
    TimesIsProduct(rows, stride);
  }

  lemma ScaleInside(r: nat, rows: nat)
    requires r < rows
    ensures r < Pad8(rows) && r * 4 + 4 <= Pad8(rows * 4) && Pad8(rows) % 8 == 0 && Pad8(rows * 4) % 8 == 0
  {
    PaddingFacts(rows);
    PaddingFacts(rows * 4);
  }

  /** Where the payload of row `r` starts. */
  function RowAt(payload: nat, r: nat, stride: nat): nat {
    payload + r * stride
  }

  lemma PayloadInside(r: nat, rows: nat, payload: nat, stride: nat, width: nat)
    requires r < rows && payload % 8 == 0 && width <= stride && stride % 8 == 0
    ensures RowAt(payload, r, stride) + width <= RowAt(payload, rows, stride) && RowAt(payload, r, stride) % 8 == 0
  {
    RowInside(r, rows, stride);
    MultipleOf8(r, stride);
  }

  lemma AlignedSum(a: nat, b: nat)
    requires a % 8 == 0 && b % 8 == 0
    ensures (a + b) % 8 == 0
  {
  }

  lemma SectionsAligned(kind: Kind, rows: nat)
    ensures ScalesAt(rows) % 8 == 0 && PayloadAt(kind, rows) % 8 == 0
  {
    PaddingFacts(rows);
    AlignedSum(HEADER, Pad8(rows));
    PaddingFacts(rows * 4);
    AlignedSum(ScalesAt(rows), Pad8(rows * 4));
  }

  lemma MarkInside(kind: Kind, rows: nat, r: nat)
    requires r < rows
    ensures HEADER + r < ScalesAt(rows) && (kind == I8Kind ==> ScalesAt(rows) + r * 4 + 4 <= PayloadAt(kind, rows))
  {
    ScaleInside(r, rows);
  }

  lemma StrideFacts(kind: Kind, dim: nat)
    ensures Width(kind, dim) <= Stride(kind, dim) && Stride(kind, dim) % 8 == 0
  {
    PaddingFacts(Width(kind, dim));
  }

  /** Reading any row of an accepted file stays inside it, at aligned addresses. */
  lemma ReadsInside(f: ColumnFile, r: nat)
    requires Opened(f) && r < f.rows
    ensures HEADER + r < ScalesAt(f.rows)
    ensures f.kind == I8Kind ==> ScalesAt(f.rows) + r * 4 + 4 <= PayloadAt(f.kind, f.rows)
    ensures RowAt(PayloadAt(f.kind, f.rows), r, Stride(f.kind, f.dim)) + Width(f.kind, f.dim) <= |f.bytes|
    ensures ScalesAt(f.rows) % 8 == 0 && PayloadAt(f.kind, f.rows) % 8 == 0
    ensures RowAt(PayloadAt(f.kind, f.rows), r, Stride(f.kind, f.dim)) % 8 == 0
  {
    SectionsAligned(f.kind, f.rows);
    MarkInside(f.kind, f.rows, r);
    StrideFacts(f.kind, f.dim);
    PayloadInside(r, f.rows, PayloadAt(f.kind, f.rows), Stride(f.kind, f.dim), Width(f.kind, f.dim));
  }

  lemma MultipleOf8(r: nat, stride: nat)
    requires stride % 8 == 0
    ensures (r * stride) % 8 == 0
  {
    var s := stride / 8;
    assert r * stride == (r * s) * 8;
  }

  function NumbersAt(bytes: seq<nat>, from: nat, k: nat, n: nat): (ns: seq<nat>)
    requires from + Times(n, k) <= |bytes|
    ensures |ns| == n
  {
    if n == 0 then [] else NumbersAt(bytes, from, k, n - 1) + [FromLe(At(bytes, from + Times(n - 1, k), k))]
  }

  function CodesAt(bytes: seq<nat>): (cs: seq<int>)
    ensures |cs| == |bytes| && forall i :: 0 <= i < |cs| ==> cs[i] == FromByte(bytes[i])
  {
    seq(|bytes|, i requires 0 <= i < |bytes| => FromByte(bytes[i]))
  }

  /** The slices that `value(r)` borrows exist. */
  lemma SlicesExist(f: ColumnFile, r: nat, offset: nat)
    requires Opened(f) && r < f.rows && offset == RowAt(PayloadAt(f.kind, f.rows), r, Stride(f.kind, f.dim))
    ensures HEADER + r < |f.bytes|
    ensures f.kind == BitVectorKind ==> offset + Times(CeilDiv(f.dim, 64), 8) <= |f.bytes|
    ensures f.kind == F16Kind ==> offset + Times(f.dim, 2) <= |f.bytes|
    ensures f.kind == I8Kind ==> offset + f.dim <= |f.bytes| && ScalesAt(f.rows) + r * 4 + 4 <= |f.bytes|
  {
    ReadsInside(f, r);
    PayloadFollows(f, r);
    TimesIsProduct(CeilDiv(f.dim, 64), 8);
    TimesIsProduct(f.dim, 2);
  }

  lemma PayloadFollows(f: ColumnFile, r: nat)
    requires Opened(f) && r < f.rows
    ensures ScalesAt(f.rows) <= PayloadAt(f.kind, f.rows) <= RowAt(PayloadAt(f.kind, f.rows), r, Stride(f.kind, f.dim))
  {
    TimesIsProduct(r, Stride(f.kind, f.dim));
  }

  /** `value(r)`. */
  function ValueAt(f: ColumnFile, r: nat): Cell
    requires Opened(f) && r < f.rows
  {
    var offset := RowAt(PayloadAt(f.kind, f.rows), r, Stride(f.kind, f.dim));
    SlicesExist(f, r, offset);
    if f.bytes[HEADER + r] == 0 then Null
    else match f.kind
      case BitVectorKind => BitVector(f.dim, NumbersAt(f.bytes, offset, 8, CeilDiv(f.dim, 64)))
      case F16Kind => F16(NumbersAt(f.bytes, offset, 2, f.dim))
      case I8Kind => I8(FromLe(At(f.bytes, ScalesAt(f.rows) + r * 4, 4)), CodesAt(At(f.bytes, offset, f.dim)))
  }

  // ---------------------------------------------------------------- round trip

  function Ends(field: nat): nat {
    match field case 0 => 8 case 1 => 12 case 2 => 16 case 3 => 24 case 4 => 32 case 5 => 40 case 6 => 72 case _ => 80
  }

  lemma {:induction false} HeaderLength(kind: Kind, rows: nat, dim: nat, hash: seq<nat>, fields: nat)
    requires |hash| == 32 && fields <= 7
    ensures |HeaderUpTo(kind, rows, dim, hash, fields)| == Ends(fields)
  {
    if fields > 0 {
      HeaderLength(kind, rows, dim, hash, fields - 1);
    }
  }

  lemma SliceOfFirst<T>(a: seq<T>, b: seq<T>, from: nat, to: nat)
    requires from <= to <= |a|
    ensures (a + b)[from..to] == a[from..to]
  {
  }

  lemma SliceOfSecond<T>(a: seq<T>, b: seq<T>, from: nat, to: nat)
    requires from <= to <= |b|
    ensures (a + b)[|a| + from..|a| + to] == b[from..to]
  {
  }

  lemma HeaderStep(kind: Kind, rows: nat, dim: nat, hash: seq<nat>, fields: nat) returns (front: seq<nat>, last: seq<nat>)
    requires |hash| == 32 && 0 < fields <= 7
    ensures HeaderUpTo(kind, rows, dim, hash, fields) == front + last
    ensures front == HeaderUpTo(kind, rows, dim, hash, fields - 1) && last == FieldBytes(kind, rows, dim, hash, fields)
    ensures |front| == Ends(fields - 1) && |front| + |last| == Ends(fields)
  {
    HeaderLength(kind, rows, dim, hash, fields - 1);
    HeaderLength(kind, rows, dim, hash, fields);
    front, last := HeaderUpTo(kind, rows, dim, hash, fields - 1), FieldBytes(kind, rows, dim, hash, fields);
  }

  /** Each field is found where the reader looks. */
  lemma {:induction false} FieldFound(kind: Kind, rows: nat, dim: nat, hash: seq<nat>, field: nat, fields: nat)
    requires |hash| == 32 && 0 < field <= fields <= 7
    ensures |HeaderUpTo(kind, rows, dim, hash, fields)| == Ends(fields)
    ensures Ends(field - 1) <= Ends(field) <= Ends(fields)
    ensures HeaderUpTo(kind, rows, dim, hash, fields)[Ends(field - 1)..Ends(field)] == FieldBytes(kind, rows, dim, hash, field)
    decreases fields
  {
    var front, last := HeaderStep(kind, rows, dim, hash, fields);
    if field == fields {
      SliceOfSecond(front, last, 0, |last|);
    } else {
      FieldFound(kind, rows, dim, hash, field, fields - 1);
      SliceOfFirst(front, last, Ends(field - 1), Ends(field));
    }
  }

  lemma FieldOfFile(kind: Kind, rows: nat, dim: nat, hash: seq<nat>, body: seq<nat>, field: nat)
    requires |hash| == 32 && 0 < field <= 7
    ensures |Header(kind, rows, dim, hash)| == HEADER
    ensures (Header(kind, rows, dim, hash) + body)[Ends(field - 1)..Ends(field)] == FieldBytes(kind, rows, dim, hash, field)
  {
    FieldFound(kind, rows, dim, hash, field, 7);
    SliceOfFirst(Header(kind, rows, dim, hash), body, Ends(field - 1), Ends(field));
  }

  lemma {:induction false} MagicFound(kind: Kind, rows: nat, dim: nat, hash: seq<nat>, fields: nat)
    requires |hash| == 32 && fields <= 7
    ensures |HeaderUpTo(kind, rows, dim, hash, fields)| >= 8 && HeaderUpTo(kind, rows, dim, hash, fields)[..8] == MAGIC
  {
    HeaderLength(kind, rows, dim, hash, fields);
    if fields > 0 {
      MagicFound(kind, rows, dim, hash, fields - 1);
      SliceOfFirst(HeaderUpTo(kind, rows, dim, hash, fields - 1), FieldBytes(kind, rows, dim, hash, fields), 0, 8);
    }
  }

  lemma SmallCode(kind: Kind)
    ensures Code(kind) < Pow256(4) && FromCode(Code(kind)) == Some(kind)
  {
    assert Pow256(4) == 256 * (256 * (256 * (256 * Pow256(0))));
  }

  /** The sizes that fit 64 bits: those of the header, the sections and the file. */
  ghost predicate Storable(rows: nat, kind: Kind, dim: nat) {
    && rows < WORD && dim < WORD && NothingWraps(kind, rows, dim)
    && RowAt(PayloadAt(kind, rows), rows, Stride(kind, dim)) < WORD
  }

  lemma WordIsPower()
    ensures Pow256(8) == WORD
  {
    assert Pow256(4) == 256 * (256 * (256 * (256 * Pow256(0))));
    assert Pow256(8) == 256 * (256 * (256 * (256 * Pow256(4))));
  }

  /** A number too large for its field is stored modulo the size of the field. */
  lemma {:induction false} ToLeWraps(n: nat, k: nat)
    ensures Pow256(k) > 0 && ToLe(n % Pow256(k), k) == ToLe(n, k)
  {
    if k > 0 {
      ToLeWraps(n / 256, k - 1);
      DivModStep(n, Pow256(k - 1));
    }
  }

  lemma DivModStep(n: nat, p: nat)
    requires p > 0
    ensures n % (256 * p) % 256 == n % 256 && n % (256 * p) / 256 == n / 256 % p
  {
    var q, r := n / 256 / p, n / 256 % p;
    assert n / 256 == q * p + r && n == 256 * (n / 256) + n % 256;
    assert n == q * (256 * p) + (256 * r + n % 256);
    assert 256 * r + n % 256 < 256 * p;
    ModOf(n, q, 256 * p, 256 * r + n % 256);
  }

  lemma Multiple(e: int, d: nat)
    ensures e >= 1 ==> e * d >= d
    ensures e <= -1 ==> e * d + d <= 0
  {
    if e >= 1 {
      assert (e - 1) * d >= 0 && e * d == (e - 1) * d + d;
    } else if e <= -1 {
      assert (-1 - e) * d >= 0 && e * d == -((-1 - e) * d) - d;
    }
  }

  lemma ModOf(n: nat, q: nat, d: nat, r: nat)
    requires d > 0 && r < d && n == q * d + r
    ensures n % d == r
  {
    var e := n / d - q;
    assert e * d == (n / d) * d - q * d;
    assert (n / d) * d == n - n % d;
    assert e * d == r - n % d;
    Multiple(e, d);
  }

  lemma BodyLength(cells: seq<Cell>, kind: Kind, dim: nat)
    requires AllWellFormed(cells)
    ensures HEADER + |Body(cells, kind, dim)| == RowAt(PayloadAt(kind, |cells|), |cells|, Stride(kind, dim))
  {
    var n, stride := |cells|, Stride(kind, dim);
    TimesIsProduct(n, stride);
    assert AllOf(Payloads(cells, kind, dim), stride);
    JoinedLength(Payloads(cells, kind, dim), stride, n);
    assert 4 * n == n * 4 && Pad8(4 * n) == Pad8(n * 4);
    assert |ScaleSection(cells, kind)| == if kind == I8Kind then Pad8(n * 4) else 0;
    assert |Body(cells, kind, dim)| == Pad8(n) + |ScaleSection(cells, kind)| + n * stride;
  }

  lemma Decoded(bytes: seq<nat>, from: nat, k: nat, n: nat)
    requires from + k <= |bytes| && bytes[from..from + k] == ToLe(n, k) && n < Pow256(k)
    ensures FromLe(At(bytes, from, k)) == n
  {
    LeRoundTrip(n, k);
  }

  ghost predicate Starts(bytes: seq<nat>, kind: Kind, rows: nat, dim: nat, hash: seq<nat>, body: seq<nat>) {
    |hash| == 32 && bytes == Header(kind, rows, dim, hash) + body
  }

  lemma KindDecoded(bytes: seq<nat>, kind: Kind, rows: nat, dim: nat, hash: seq<nat>, body: seq<nat>)
    requires Starts(bytes, kind, rows, dim, hash, body)
    ensures |bytes| == HEADER + |body| && FromCode(FromLe(At(bytes, 8, 4))) == Some(kind)
  {
    FieldOfFile(kind, rows, dim, hash, body, 1);
    SmallCode(kind);
    Decoded(bytes, 8, 4, Code(kind));
  }

  lemma RowsDecoded(bytes: seq<nat>, kind: Kind, rows: nat, dim: nat, hash: seq<nat>, body: seq<nat>)
    requires Starts(bytes, kind, rows, dim, hash, body) && rows < WORD
    ensures |bytes| == HEADER + |body| && FromLe(At(bytes, 16, 8)) == rows
  {
    FieldOfFile(kind, rows, dim, hash, body, 3);
    WordIsPower();
    Decoded(bytes, 16, 8, rows);
  }

  lemma DimDecoded(bytes: seq<nat>, kind: Kind, rows: nat, dim: nat, hash: seq<nat>, body: seq<nat>)
    requires Starts(bytes, kind, rows, dim, hash, body) && dim < WORD
    ensures |bytes| == HEADER + |body| && FromLe(At(bytes, 24, 8)) == dim
  {
    FieldOfFile(kind, rows, dim, hash, body, 4);
    WordIsPower();
    Decoded(bytes, 24, 8, dim);
  }

  lemma StrideDecoded(bytes: seq<nat>, kind: Kind, rows: nat, dim: nat, hash: seq<nat>, body: seq<nat>)
    requires Starts(bytes, kind, rows, dim, hash, body)
    ensures |bytes| == HEADER + |body| && FromLe(At(bytes, 32, 8)) == StrideWord(kind, dim)
  {
    FieldOfFile(kind, rows, dim, hash, body, 5);
    WordIsPower();
    ToLeWraps(Stride(kind, dim), 8);
    PadOfWrapped(Width(kind, dim));
    Decoded(bytes, 32, 8, StrideWord(kind, dim));
  }

  lemma WrapMultiple(q: nat, p: nat)
    ensures Wrap(q * WORD + p) == Wrap(p)
  {
    var t, r := p / WORD, p % WORD;
    assert q * WORD + p == (q + t) * WORD + r;
    ModOf(q * WORD + p, q + t, WORD, r);
  }

  /** Wrapping before the padding makes no difference to the padded word. */
  lemma PadOfWrapped(n: nat)
    ensures Wrap(Pad8(Wrap(n))) == Wrap(Pad8(n))
  {
    var q, r := n / WORD, n % WORD;
    assert n == q * WORD + r;
    assert Pad8(n) == q * WORD + Pad8(r);
    WrapMultiple(q, Pad8(r));
  }

  lemma HashStored(bytes: seq<nat>, kind: Kind, rows: nat, dim: nat, hash: seq<nat>, body: seq<nat>)
    requires Starts(bytes, kind, rows, dim, hash, body)
    ensures |bytes| == HEADER + |body| && At(bytes, 40, 32) == hash && bytes[HEADER..] == body && bytes[..8] == MAGIC
  {
    FieldOfFile(kind, rows, dim, hash, body, 6);
    MagicFound(kind, rows, dim, hash, 7);
    SliceOfFirst(Header(kind, rows, dim, hash), body, 0, 8);
  }

  lemma HeaderIsFixed(kind: Kind, rows: nat, dim: nat, hash: seq<nat>)
    requires |hash| == 32
    ensures |Header(kind, rows, dim, hash)| == HEADER
  {
    HeaderLength(kind, rows, dim, hash, 7);
  }

  /** The file of the announced length, by the words of the code. */
  ghost predicate HasLength(bytes: seq<nat>, kind: Kind, rows: nat, dim: nat) {
    |bytes| == RowAt(PayloadWord(kind, rows), rows, StrideWord(kind, dim)) < WORD
  }

  lemma AcceptedWhen(digest: Digest, bytes: seq<nat>, kind: Kind, rows: nat, dim: nat)
    requires |bytes| >= HEADER && bytes[..8] == MAGIC && FromCode(FromLe(At(bytes, 8, 4))) == Some(kind)
    requires FromLe(At(bytes, 16, 8)) == rows && FromLe(At(bytes, 24, 8)) == dim && FromLe(At(bytes, 32, 8)) == StrideWord(kind, dim)
    requires HasLength(bytes, kind, rows, dim) && digest(bytes[HEADER..]) == At(bytes, 40, 32)
    ensures Open(digest, bytes) == Ok(ColumnFile(bytes, kind, rows, dim))
  {
  }

  lemma StartsAccepted(digest: Digest, bytes: seq<nat>, kind: Kind, rows: nat, dim: nat, body: seq<nat>)
    requires Starts(bytes, kind, rows, dim, digest(body), body) && rows < WORD && dim < WORD
    requires HasLength(bytes, kind, rows, dim)
    ensures Open(digest, bytes) == Ok(ColumnFile(bytes, kind, rows, dim))
  {
    KindDecoded(bytes, kind, rows, dim, digest(body), body);
    RowsDecoded(bytes, kind, rows, dim, digest(body), body);
    DimDecoded(bytes, kind, rows, dim, digest(body), body);
    StrideDecoded(bytes, kind, rows, dim, digest(body), body);
    HashStored(bytes, kind, rows, dim, digest(body), body);
    AcceptedWhen(digest, bytes, kind, rows, dim);
  }

  /** A written file is accepted, with the kind, row count and dimension it was written with. */
  lemma WrittenIsAccepted(digest: Digest, cells: seq<Cell>, kind: Kind, dim: nat)
    requires IsDigest(digest) && AllWellFormed(cells) && Storable(|cells|, kind, dim)
    ensures Open(digest, Written(digest, cells, kind, dim)) == Ok(ColumnFile(Written(digest, cells, kind, dim), kind, |cells|, dim))
  {
    BodyLength(cells, kind, dim);
    WordsAreExact(kind, |cells|, dim);
    HeaderIsFixed(kind, |cells|, dim, digest(Body(cells, kind, dim)));
    StartsAccepted(digest, Written(digest, cells, kind, dim), kind, |cells|, dim, Body(cells, kind, dim));
  }

  lemma {:induction false} NumberFound(ns: seq<nat>, k: nat, n: nat, i: nat)
    requires i < n <= |ns|
    ensures Times(i, k) + k <= Times(n, k)
    ensures Numbers(ns, k, n)[Times(i, k)..Times(i, k) + k] == ToLe(ns[i], k)
    decreases n
  {
    TimesInside(i, n, k);
    if i == n - 1 {
      SliceOfSecond(Numbers(ns, k, n - 1), ToLe(ns[n - 1], k), 0, k);
    } else {
      NumberFound(ns, k, n - 1, i);
      SliceOfFirst(Numbers(ns, k, n - 1), ToLe(ns[n - 1], k), Times(i, k), Times(i, k) + k);
    }
  }

  lemma NestedSlice<T>(s: seq<T>, from: nat, len: nat, lo: nat, hi: nat)
    requires from + len <= |s| && lo <= hi <= len
    ensures s[from..from + len][lo..hi] == s[from + lo..from + hi]
  {
    var a, b := s[from..from + len][lo..hi], s[from + lo..from + hi];
    forall i | 0 <= i < hi - lo
      ensures a[i] == b[i]
    {
      assert a[i] == s[from..from + len][lo + i];
    }
  }

  /** Reading numbers looks at their stretch of the bytes alone. */
  lemma {:induction false} NumbersShift(bytes: seq<nat>, from: nat, len: nat, k: nat, n: nat)
    requires from + len <= |bytes| && Times(n, k) <= len
    ensures NumbersAt(bytes, from, k, n) == NumbersAt(At(bytes, from, len), 0, k, n)
    decreases n
  {
    if n > 0 {
      NumbersShift(bytes, from, len, k, n - 1);
      NestedSlice(bytes, from, len, Times(n - 1, k), Times(n - 1, k) + k);
    }
  }

  lemma LastNumber(front: seq<nat>, number: nat, k: nat)
    requires number < Pow256(k)
    ensures At(front + ToLe(number, k), 0, |front|) == front
    ensures FromLe(At(front + ToLe(number, k), |front|, k)) == number
  {
    LeRoundTrip(number, k);
    SliceOfSecond(front, ToLe(number, k), 0, k);
    assert At(front + ToLe(number, k), |front|, k) == ToLe(number, k);
  }

  lemma NumbersGrow(front: seq<nat>, number: nat, k: nat, n: nat)
    requires number < Pow256(k) && |front| == Times(n, k)
    ensures NumbersAt(front + ToLe(number, k), 0, k, n + 1) == NumbersAt(front, 0, k, n) + [number]
  {
    LastNumber(front, number, k);
    NumbersShift(front + ToLe(number, k), 0, |front|, k, n);
  }

  lemma {:induction false} NumbersRead(ns: seq<nat>, k: nat, n: nat)
    requires n <= |ns| && forall i :: 0 <= i < |ns| ==> ns[i] < Pow256(k)
    ensures NumbersAt(Numbers(ns, k, n), 0, k, n) == ns[..n]
    decreases n
  {
    if n > 0 {
      NumbersRead(ns, k, n - 1);
      NumbersGrow(Numbers(ns, k, n - 1), ns[n - 1], k, n - 1);
      assert ns[..n] == ns[..n - 1] + [ns[n - 1]];
    }
  }

  lemma {:induction false} BlockFound(blocks: seq<seq<nat>>, stride: nat, n: nat, r: nat)
    requires AllOf(blocks, stride) && r < n <= |blocks|
    ensures Times(r, stride) + stride <= Times(n, stride) == |Joined(blocks, n)|
    ensures Joined(blocks, n)[Times(r, stride)..Times(r, stride) + stride] == blocks[r]
    decreases n
  {
    TimesInside(r, n, stride);
    JoinedLength(blocks, stride, n);
    JoinedLength(blocks, stride, n - 1);
    if r == n - 1 {
      SliceOfSecond(Joined(blocks, n - 1), blocks[n - 1], 0, stride);
    } else {
      BlockFound(blocks, stride, n - 1, r);
      SliceOfFirst(Joined(blocks, n - 1), blocks[n - 1], Times(r, stride), Times(r, stride) + stride);
    }
  }

  // The parts of a written file, by the positions the reader computes.

  lemma ResizeKeeps(s: seq<nat>, n: nat)
    requires |s| <= n
    ensures Resize(s, n)[..|s|] == s
  {
  }

  ghost predicate FileOf(bytes: seq<nat>, header: seq<nat>, validity: seq<nat>, scales: seq<nat>, payload: seq<nat>) {
    |header| == HEADER && bytes == header + (validity + scales + payload)
  }

  lemma WrittenParts(digest: Digest, cells: seq<Cell>, kind: Kind, dim: nat)
    requires IsDigest(digest) && AllWellFormed(cells)
    ensures FileOf(Written(digest, cells, kind, dim), Header(kind, |cells|, dim, digest(Body(cells, kind, dim))),
                   Resize(Validity(cells), Pad8(|cells|)), ScaleSection(cells, kind),
                   Joined(Payloads(cells, kind, dim), |cells|))
  {
    var body := Body(cells, kind, dim);
    HeaderIsFixed(kind, |cells|, dim, digest(body));
    assert Written(digest, cells, kind, dim) == Header(kind, |cells|, dim, digest(body)) + body;
  }

  lemma ValidityAt(bytes: seq<nat>, header: seq<nat>, validity: seq<nat>, scales: seq<nat>, payload: seq<nat>, i: nat)
    requires FileOf(bytes, header, validity, scales, payload) && i < |validity|
    ensures HEADER + i < |bytes| && bytes[HEADER + i] == validity[i]
  {
  }

  lemma ScaleSliceAt(bytes: seq<nat>, header: seq<nat>, validity: seq<nat>, scales: seq<nat>, payload: seq<nat>, from: nat, to: nat)
    requires FileOf(bytes, header, validity, scales, payload) && from <= to <= |scales|
    ensures HEADER + |validity| + to <= |bytes|
    ensures bytes[HEADER + |validity| + from..HEADER + |validity| + to] == scales[from..to]
  {
    var body := validity + scales + payload;
    SliceOfSecond(header, body, |validity| + from, |validity| + to);
    SliceOfFirst(validity + scales, payload, |validity| + from, |validity| + to);
    SliceOfSecond(validity, scales, from, to);
  }

  lemma PayloadSliceAt(bytes: seq<nat>, header: seq<nat>, validity: seq<nat>, scales: seq<nat>, payload: seq<nat>, from: nat, to: nat)
    requires FileOf(bytes, header, validity, scales, payload) && from <= to <= |payload|
    ensures HEADER + |validity| + |scales| + to <= |bytes|
    ensures bytes[HEADER + |validity| + |scales| + from..HEADER + |validity| + |scales| + to] == payload[from..to]
  {
    var body := validity + scales + payload;
    SliceOfSecond(header, body, |validity + scales| + from, |validity + scales| + to);
    SliceOfSecond(validity + scales, payload, from, to);
  }

  lemma NullMark(digest: Digest, cells: seq<Cell>, kind: Kind, dim: nat, r: nat)
    requires IsDigest(digest) && AllWellFormed(cells) && r < |cells|
    ensures var bytes := Written(digest, cells, kind, dim);
            HEADER + r < |bytes| && (bytes[HEADER + r] == 0 <==> cells[r].Null?)
  {
    WrittenParts(digest, cells, kind, dim);
    PaddingFacts(|cells|);
    ResizeKeeps(Validity(cells), Pad8(|cells|));
    var validity := Resize(Validity(cells), Pad8(|cells|));
    assert validity[r] == validity[..|cells|][r];
    ValidityAt(Written(digest, cells, kind, dim), Header(kind, |cells|, dim, digest(Body(cells, kind, dim))),
               validity, ScaleSection(cells, kind), Joined(Payloads(cells, kind, dim), |cells|), r);
  }

  lemma ScaleSectionSize(cells: seq<Cell>, kind: Kind)
    ensures HEADER + |Resize(Validity(cells), Pad8(|cells|))| == ScalesAt(|cells|)
    ensures ScalesAt(|cells|) + |ScaleSection(cells, kind)| == PayloadAt(kind, |cells|)
  {
    assert 4 * |cells| == |cells| * 4;
  }

  lemma ScaleInSection(cells: seq<Cell>, r: nat)
    requires r < |cells|
    ensures r * 4 + 4 <= |ScaleSection(cells, I8Kind)|
    ensures ScaleSection(cells, I8Kind)[r * 4..r * 4 + 4] == ToLe(ScaleOf(cells[r]), 4)
  {
    var n, numbers := |cells|, Numbers(Scales(cells), 4, |cells|);
    PaddingFacts(4 * n);
    TimesIsProduct(n, 4);
    TimesIsProduct(r, 4);
    NumberFound(Scales(cells), 4, n, r);
    ResizeKeeps(numbers, Pad8(4 * n));
    SliceOfPrefix(ScaleSection(cells, I8Kind), |numbers|, r * 4, r * 4 + 4);
  }

  lemma PartOfScales(bytes: seq<nat>, header: seq<nat>, validity: seq<nat>, scales: seq<nat>, payload: seq<nat>,
                     lo: nat, entry: seq<nat>, offset: nat)
    requires FileOf(bytes, header, validity, scales, payload) && offset == HEADER + |validity| + lo
    requires lo + |entry| <= |scales| && scales[lo..lo + |entry|] == entry
    ensures offset + |entry| <= |bytes| && At(bytes, offset, |entry|) == entry
  {
    ScaleSliceAt(bytes, header, validity, scales, payload, lo, lo + |entry|);
  }

  lemma SectionStored(digest: Digest, cells: seq<Cell>, dim: nat, lo: nat, entry: seq<nat>, offset: nat)
    requires IsDigest(digest) && AllWellFormed(cells) && offset == ScalesAt(|cells|) + lo
    requires lo + |entry| <= |ScaleSection(cells, I8Kind)| && ScaleSection(cells, I8Kind)[lo..lo + |entry|] == entry
    ensures var bytes := Written(digest, cells, I8Kind, dim);
            offset + |entry| <= |bytes| && At(bytes, offset, |entry|) == entry
  {
    WrittenParts(digest, cells, I8Kind, dim);
    ScaleSectionSize(cells, I8Kind);
    PartOfScales(Written(digest, cells, I8Kind, dim), Header(I8Kind, |cells|, dim, digest(Body(cells, I8Kind, dim))),
                 Resize(Validity(cells), Pad8(|cells|)), ScaleSection(cells, I8Kind),
                 Joined(Payloads(cells, I8Kind, dim), |cells|), lo, entry, offset);
  }

  lemma ScaleStored(digest: Digest, cells: seq<Cell>, dim: nat, r: nat)
    requires IsDigest(digest) && AllWellFormed(cells) && r < |cells|
    ensures var bytes := Written(digest, cells, I8Kind, dim);
            ScalesAt(|cells|) + r * 4 + 4 <= |bytes| &&
            At(bytes, ScalesAt(|cells|) + r * 4, 4) == ToLe(ScaleOf(cells[r]), 4)
  {
    ScaleInSection(cells, r);
    SectionStored(digest, cells, dim, r * 4, ToLe(ScaleOf(cells[r]), 4), ScalesAt(|cells|) + r * 4);
  }

  lemma SliceOfPrefix<T>(s: seq<T>, len: nat, from: nat, to: nat)
    requires from <= to <= len <= |s|
    ensures s[..len][from..to] == s[from..to]
  {
  }

  lemma BlocksFill(cells: seq<Cell>, kind: Kind, dim: nat)
    requires AllWellFormed(cells)
    ensures AllOf(Payloads(cells, kind, dim), Stride(kind, dim))
  {
  }

  lemma BlockSlice(cells: seq<Cell>, kind: Kind, dim: nat, stride: nat, r: nat)
    requires AllWellFormed(cells) && r < |cells| && stride == Stride(kind, dim)
    ensures Times(r, stride) + stride <= |Joined(Payloads(cells, kind, dim), |cells|)|
    ensures Joined(Payloads(cells, kind, dim), |cells|)[Times(r, stride)..Times(r, stride) + stride] == Payload(cells[r], kind, dim)
  {
    BlocksFill(cells, kind, dim);
    BlockFound(Payloads(cells, kind, dim), stride, |cells|, r);
  }

  lemma SliceStored(bytes: seq<nat>, header: seq<nat>, validity: seq<nat>, scales: seq<nat>, payload: seq<nat>,
                    from: nat, block: seq<nat>, offset: nat)
    requires FileOf(bytes, header, validity, scales, payload) && offset == HEADER + |validity| + |scales| + from
    requires from + |block| <= |payload| && payload[from..from + |block|] == block
    ensures offset + |block| <= |bytes| && At(bytes, offset, |block|) == block
  {
    PayloadSliceAt(bytes, header, validity, scales, payload, from, from + |block|);
  }

  lemma RowOffset(cells: seq<Cell>, kind: Kind, r: nat, stride: nat)
    ensures RowAt(PayloadAt(kind, |cells|), r, stride)
            == HEADER + |Resize(Validity(cells), Pad8(|cells|))| + |ScaleSection(cells, kind)| + Times(r, stride)
  {
    ScaleSectionSize(cells, kind);
    TimesIsProduct(r, stride);
  }

  lemma PayloadStored(digest: Digest, cells: seq<Cell>, kind: Kind, dim: nat, r: nat, offset: nat)
    requires IsDigest(digest) && AllWellFormed(cells) && r < |cells|
    requires offset == RowAt(PayloadAt(kind, |cells|), r, Stride(kind, dim))
    ensures var bytes := Written(digest, cells, kind, dim);
            offset + Stride(kind, dim) <= |bytes| && At(bytes, offset, Stride(kind, dim)) == Payload(cells[r], kind, dim)
  {
    WrittenParts(digest, cells, kind, dim);
    RowOffset(cells, kind, r, Stride(kind, dim));
    BlockSlice(cells, kind, dim, Stride(kind, dim), r);
    SliceStored(Written(digest, cells, kind, dim), Header(kind, |cells|, dim, digest(Body(cells, kind, dim))),
                Resize(Validity(cells), Pad8(|cells|)), ScaleSection(cells, kind), Joined(Payloads(cells, kind, dim), |cells|),
                Times(r, Stride(kind, dim)), Payload(cells[r], kind, dim), offset);
  }

  lemma ContentStored(digest: Digest, cells: seq<Cell>, kind: Kind, dim: nat, r: nat, offset: nat)
    requires IsDigest(digest) && AllWellFormed(cells) && r < |cells| && Fits(cells[r], kind, dim)
    requires offset == RowAt(PayloadAt(kind, |cells|), r, Stride(kind, dim))
    ensures var bytes, content := Written(digest, cells, kind, dim), Content(cells[r]);
            offset + |content| <= |bytes| && At(bytes, offset, |content|) == content
  {
    var bytes, content, stride := Written(digest, cells, kind, dim), Content(cells[r]), Stride(kind, dim);
    ContentFits(cells[r], kind, dim);
    PayloadStored(digest, cells, kind, dim, r, offset);
    ResizeKeeps(content, stride);
    assert At(bytes, offset, stride)[..|content|] == content;
    NestedSlice(bytes, offset, stride, 0, |content|);
  }

  lemma CodesRead(codes: seq<int>)
    requires forall i :: 0 <= i < |codes| ==> -128 <= codes[i] < 128
    ensures CodesAt(CodeBytes(codes)) == codes
  {
  }

  lemma NumbersReadAll(bytes: seq<nat>, from: nat, ns: seq<nat>, k: nat)
    requires from + Times(|ns|, k) <= |bytes| && At(bytes, from, Times(|ns|, k)) == Numbers(ns, k, |ns|)
    requires forall i :: 0 <= i < |ns| ==> ns[i] < Pow256(k)
    ensures NumbersAt(bytes, from, k, |ns|) == ns
  {
    NumbersRead(ns, k, |ns|);
    NumbersShift(bytes, from, Times(|ns|, k), k, |ns|);
    assert ns[..|ns|] == ns;
  }

  lemma NullReads(f: ColumnFile, r: nat)
    requires Opened(f) && r < f.rows && HEADER + r < |f.bytes| && f.bytes[HEADER + r] == 0
    ensures ValueAt(f, r) == Null
  {
  }

  lemma BitVectorReads(f: ColumnFile, r: nat, offset: nat, words: seq<nat>)
    requires Opened(f) && r < f.rows && HEADER + r < |f.bytes| && f.bytes[HEADER + r] != 0 && f.kind == BitVectorKind
    requires offset == RowAt(PayloadAt(f.kind, f.rows), r, Stride(f.kind, f.dim))
    requires WellFormed(BitVector(f.dim, words)) && offset + Times(|words|, 8) <= |f.bytes|
    requires At(f.bytes, offset, Times(|words|, 8)) == Numbers(words, 8, |words|)
    ensures ValueAt(f, r) == BitVector(f.dim, words)
  {
    NumbersReadAll(f.bytes, offset, words, 8);
  }

  lemma HalvesRead(f: ColumnFile, r: nat, offset: nat, halves: seq<nat>)
    requires Opened(f) && r < f.rows && HEADER + r < |f.bytes| && f.bytes[HEADER + r] != 0 && f.kind == F16Kind
    requires offset == RowAt(PayloadAt(f.kind, f.rows), r, Stride(f.kind, f.dim))
    requires WellFormed(F16(halves)) && |halves| == f.dim && offset + Times(|halves|, 2) <= |f.bytes|
    requires At(f.bytes, offset, Times(|halves|, 2)) == Numbers(halves, 2, |halves|)
    ensures ValueAt(f, r) == F16(halves)
  {
    NumbersReadAll(f.bytes, offset, halves, 2);
  }

  lemma CodesReadBack(f: ColumnFile, r: nat, offset: nat, scale: nat, codes: seq<int>)
    requires Opened(f) && r < f.rows && HEADER + r < |f.bytes| && f.bytes[HEADER + r] != 0 && f.kind == I8Kind
    requires offset == RowAt(PayloadAt(f.kind, f.rows), r, Stride(f.kind, f.dim))
    requires WellFormed(I8(scale, codes)) && |codes| == f.dim && offset + |codes| <= |f.bytes|
    requires At(f.bytes, offset, |codes|) == CodeBytes(codes)
    requires ScalesAt(f.rows) + r * 4 + 4 <= |f.bytes| && At(f.bytes, ScalesAt(f.rows) + r * 4, 4) == ToLe(scale, 4)
    ensures ValueAt(f, r) == I8(scale, codes)
  {
    LeRoundTrip(scale, 4);
    CodesRead(codes);
  }

  lemma WrittenIsOpened(digest: Digest, cells: seq<Cell>, kind: Kind, dim: nat)
    requires IsDigest(digest) && AllWellFormed(cells)
    ensures Opened(ColumnFile(Written(digest, cells, kind, dim), kind, |cells|, dim))
  {
    HeaderIsFixed(kind, |cells|, dim, digest(Body(cells, kind, dim)));
    BodyLength(cells, kind, dim);
  }

  ghost predicate MarkStored(f: ColumnFile, r: nat, c: Cell) {
    HEADER + r < |f.bytes| && (f.bytes[HEADER + r] == 0 <==> c.Null?)
  }

  ghost predicate ContentHeld(f: ColumnFile, r: nat, c: Cell) {
    var offset := RowAt(PayloadAt(f.kind, f.rows), r, Stride(f.kind, f.dim));
    WellFormed(c) && Fits(c, f.kind, f.dim) &&
    offset + |Content(c)| <= |f.bytes| && At(f.bytes, offset, |Content(c)|) == Content(c)
  }

  ghost predicate ScaleHeld(f: ColumnFile, r: nat, c: Cell) {
    f.kind == I8Kind ==>
      ScalesAt(f.rows) + r * 4 + 4 <= |f.bytes| && At(f.bytes, ScalesAt(f.rows) + r * 4, 4) == ToLe(ScaleOf(c), 4)
  }

  /** What the reader needs to find for row `r` to give `c`. */
  ghost predicate Stored(f: ColumnFile, r: nat, c: Cell) {
    MarkStored(f, r, c) && ContentHeld(f, r, c) && ScaleHeld(f, r, c)
  }

  lemma StoredReads(f: ColumnFile, r: nat, c: Cell)
    requires Opened(f) && r < f.rows && Stored(f, r, c)
    ensures ValueAt(f, r) == c
  {
    var offset := RowAt(PayloadAt(f.kind, f.rows), r, Stride(f.kind, f.dim));
    match c
    case Null => NullReads(f, r);
    case BitVector(_, words) => BitVectorReads(f, r, offset, words);
    case F16(halves) => HalvesRead(f, r, offset, halves);
    case I8(scale, codes) => CodesReadBack(f, r, offset, scale, codes);
  }

  lemma MarkIsStored(digest: Digest, cells: seq<Cell>, kind: Kind, dim: nat, r: nat)
    requires IsDigest(digest) && AllWellFormed(cells) && r < |cells|
    ensures MarkStored(ColumnFile(Written(digest, cells, kind, dim), kind, |cells|, dim), r, cells[r])
  {
    NullMark(digest, cells, kind, dim, r);
  }

  lemma ContentIsHeld(digest: Digest, cells: seq<Cell>, kind: Kind, dim: nat, r: nat)
    requires IsDigest(digest) && AllWellFormed(cells) && r < |cells| && Fits(cells[r], kind, dim)
    ensures ContentHeld(ColumnFile(Written(digest, cells, kind, dim), kind, |cells|, dim), r, cells[r])
  {
    ContentStored(digest, cells, kind, dim, r, RowAt(PayloadAt(kind, |cells|), r, Stride(kind, dim)));
  }

  lemma ScaleIsHeld(digest: Digest, cells: seq<Cell>, kind: Kind, dim: nat, r: nat)
    requires IsDigest(digest) && AllWellFormed(cells) && r < |cells|
    ensures ScaleHeld(ColumnFile(Written(digest, cells, kind, dim), kind, |cells|, dim), r, cells[r])
  {
    if kind == I8Kind {
      ScaleStored(digest, cells, dim, r);
    }
  }

  /** Every cell of a written file reads back as it was, NULLs and scales included. */
  lemma WrittenReadsBack(digest: Digest, cells: seq<Cell>, kind: Kind, dim: nat, r: nat)
    requires IsDigest(digest) && AllWellFormed(cells) && r < |cells| && Fits(cells[r], kind, dim)
    ensures var f := ColumnFile(Written(digest, cells, kind, dim), kind, |cells|, dim);
            Opened(f) && ValueAt(f, r) == cells[r]
  {
    WrittenIsOpened(digest, cells, kind, dim);
    MarkIsStored(digest, cells, kind, dim, r);
    ContentIsHeld(digest, cells, kind, dim, r);
    ScaleIsHeld(digest, cells, kind, dim, r);
    StoredReads(ColumnFile(Written(digest, cells, kind, dim), kind, |cells|, dim), r, cells[r]);
  }

  // ---------------------------------------------------------------- truncated and extended files

  lemma PrefixSharesSizes(x: seq<nat>, y: seq<nat>)
    requires x < y && HEADER <= |x|
    ensures At(x, 8, 4) == At(y, 8, 4) && At(x, 16, 8) == At(y, 16, 8) && At(x, 24, 8) == At(y, 24, 8)
  {
  }

  /** No proper prefix and no proper extension of an accepted file is accepted. */
  lemma TruncatedOrExtendedIsRefused(digest: Digest, x: seq<nat>, y: seq<nat>)
    requires x < y
    ensures !(Open(digest, x).Ok? && Open(digest, y).Ok?)
  {
    if Open(digest, x).Ok? && Open(digest, y).Ok? {
      PrefixSharesSizes(x, y);
    }
  }
}
