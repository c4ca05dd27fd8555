/**
 Where every byte of a column file of `src/core/colbuf.rs` lies, said without the functions that write it. Numbers are
 little-endian: byte `i` of a number is its digit `i` to the base 256, counted from the least.
 */
module ColumnLayout {
  import opened ColumnFiles

  ghost function Digit(n: nat, i: nat): nat {
    if i == 0 then n % 256 else Digit(n / 256, i - 1)
  }

  lemma {:induction false} LeDigit(n: nat, k: nat, i: nat)
    requires i < k
    ensures ToLe(n, k)[i] == Digit(n, i)
  {
    if i > 0 {
      LeDigit(n / 256, k - 1, i - 1);
    }
  }

  /** Where entry `i` lies when entries of `k` bytes follow one another. */
  function Place(from: nat, i: nat, k: nat): nat {
    from + i * k
  }

  ghost predicate HoldsNumber(bytes: seq<nat>, from: nat, k: nat, n: nat) {
    from + k <= |bytes| && forall i :: 0 <= i < k ==> bytes[from + i] == Digit(n, i)
  }

  lemma NumberHeld(bytes: seq<nat>, from: nat, k: nat, n: nat)
    requires from + k <= |bytes| && bytes[from..from + k] == ToLe(n, k)
    ensures HoldsNumber(bytes, from, k, n)
  {
    forall i | 0 <= i < k
      ensures bytes[from + i] == Digit(n, i)
    {
      LeDigit(n, k, i);
      assert bytes[from + i] == bytes[from..from + k][i];
    }
  }

  // ---------------------------------------------------------------- sizes

  /** `m` is `n` rounded up to a multiple of 8. */
  ghost predicate Padded(m: nat, n: nat) {
    n <= m < n + 8 && m % 8 == 0
  }

  lemma PaddedIsPad8(m: nat, n: nat)
    requires Padded(m, n)
    ensures m == Pad8(n)
  {
    PaddingFacts(n);
  }

  /** The bytes of one row: whole words of bits, two bytes a half, one byte a code; then padding. */
  ghost predicate IsStride(stride: nat, kind: Kind, dim: nat) {
    match kind
    case BitVectorKind => dim <= 8 * stride < dim + 64 && stride % 8 == 0
    case F16Kind => Padded(stride, 2 * dim)
    case I8Kind => Padded(stride, dim)
  }

  lemma StrideIs(stride: nat, kind: Kind, dim: nat)
    ensures IsStride(stride, kind, dim) <==> stride == Stride(kind, dim)
  {
    PaddingFacts(Width(kind, dim));
    if kind != BitVectorKind && IsStride(stride, kind, dim) {
      PaddedIsPad8(stride, Width(kind, dim));
    }
  }

  /** NULL belongs in every column; any other cell in one of its kind and length. */
  lemma FitsWhen(c: Cell, kind: Kind, dim: nat)
    ensures Fits(c, kind, dim) <==>
            || c.Null?
            || (c.BitVector? && kind.BitVectorKind? && c.len == dim)
            || (c.F16? && kind.F16Kind? && |c.halves| == dim)
            || (c.I8? && kind.I8Kind? && |c.codes| == dim)
  {
  }

  // ---------------------------------------------------------------- the header

  /** Eight letters, the kind, zeros, rows, dimension, stride, the digest of all that follows, zeros. */
  ghost predicate HeaderHolds(bytes: seq<nat>, digest: Digest, kind: Kind, rows: nat, dim: nat, stride: nat) {
    && |bytes| >= 80
    && bytes[..8] == [76, 78, 76, 67, 79, 76, 48, 49]
    && HoldsNumber(bytes, 8, 4, match kind case BitVectorKind => 1 case F16Kind => 2 case I8Kind => 3)
    && HoldsNumber(bytes, 12, 4, 0)
    && HoldsNumber(bytes, 16, 8, rows)
    && HoldsNumber(bytes, 24, 8, dim)
    && HoldsNumber(bytes, 32, 8, stride)
    && bytes[40..72] == digest(bytes[80..])
    && HoldsNumber(bytes, 72, 8, 0)
  }

  lemma FieldHeld(kind: Kind, rows: nat, dim: nat, hash: seq<nat>, body: seq<nat>, field: nat, k: nat, n: nat)
    requires |hash| == 32 && 0 < field <= 7 && Ends(field) == Ends(field - 1) + k
    requires FieldBytes(kind, rows, dim, hash, field) == ToLe(n, k)
    ensures HoldsNumber(Header(kind, rows, dim, hash) + body, Ends(field - 1), k, n)
  {
    FieldOfFile(kind, rows, dim, hash, body, field);
    NumberHeld(Header(kind, rows, dim, hash) + body, Ends(field - 1), k, n);
  }

  lemma WrittenHeader(digest: Digest, cells: seq<Cell>, kind: Kind, dim: nat, stride: nat)
    requires IsDigest(digest) && AllWellFormed(cells) && IsStride(stride, kind, dim)
    ensures HeaderHolds(Written(digest, cells, kind, dim), digest, kind, |cells|, dim, stride)
  {
    var body := Body(cells, kind, dim);
    var hash := digest(body);
    var header := Header(kind, |cells|, dim, hash);
    StrideIs(stride, kind, dim);
    HeaderIsFixed(kind, |cells|, dim, hash);
    FieldHeld(kind, |cells|, dim, hash, body, 1, 4, Code(kind));
    FieldHeld(kind, |cells|, dim, hash, body, 2, 4, 0);
    FieldHeld(kind, |cells|, dim, hash, body, 3, 8, |cells|);
    FieldHeld(kind, |cells|, dim, hash, body, 4, 8, dim);
    FieldHeld(kind, |cells|, dim, hash, body, 5, 8, stride);
    FieldHeld(kind, |cells|, dim, hash, body, 7, 8, 0);
    FieldOfFile(kind, |cells|, dim, hash, body, 6);
    MagicFound(kind, |cells|, dim, hash, 7);
    SliceOfFirst(header, body, 0, 8);
    assert (header + body)[80..] == body;
  }

  // ---------------------------------------------------------------- the rows

  /** Entry after entry from a given byte on, `k` bytes each. */
  ghost predicate HoldsAll(bytes: seq<nat>, from: nat, k: nat, ns: seq<nat>) {
    forall i: nat :: i < |ns| ==> HoldsNumber(bytes, Place(from, i, k), k, ns[i])
  }

  lemma PartHeld(bytes: seq<nat>, from: nat, content: seq<nat>, lo: nat, k: nat, n: nat)
    requires from + |content| <= |bytes| && bytes[from..from + |content|] == content
    requires lo + k <= |content| && content[lo..lo + k] == ToLe(n, k)
    ensures HoldsNumber(bytes, from + lo, k, n)
  {
    NestedSlice(bytes, from, |content|, lo, lo + k);
    NumberHeld(bytes, from + lo, k, n);
  }

  lemma EntryHeld(bytes: seq<nat>, from: nat, k: nat, ns: seq<nat>, i: nat)
    requires from + Times(|ns|, k) <= |bytes| && At(bytes, from, Times(|ns|, k)) == Numbers(ns, k, |ns|) && i < |ns|
    ensures HoldsNumber(bytes, Place(from, i, k), k, ns[i])
  {
    NumberFound(ns, k, |ns|, i);
    PartHeld(bytes, from, Numbers(ns, k, |ns|), Times(i, k), k, ns[i]);
    TimesIsProduct(i, k);
  }

  lemma AllHeld(bytes: seq<nat>, from: nat, k: nat, ns: seq<nat>)
    requires from + Times(|ns|, k) <= |bytes| && At(bytes, from, Times(|ns|, k)) == Numbers(ns, k, |ns|)
    ensures HoldsAll(bytes, from, k, ns)
  {
    forall i: nat | i < |ns|
      ensures HoldsNumber(bytes, Place(from, i, k), k, ns[i])
    {
      EntryHeld(bytes, from, k, ns, i);
    }
  }

  /** What the row holds from `offset` on. */
  ghost predicate CellHeld(bytes: seq<nat>, offset: nat, c: Cell) {
    match c
    case BitVector(_, words) => HoldsAll(bytes, offset, 8, words)
    case F16(halves) => HoldsAll(bytes, offset, 2, halves)
    case I8(_, codes) => offset + |codes| <= |bytes| && forall i :: 0 <= i < |codes| ==> bytes[offset + i] == codes[i] % 256
    case _ => true
  }

  lemma ContentHeld(bytes: seq<nat>, offset: nat, c: Cell)
    requires WellFormed(c) && offset + |Content(c)| <= |bytes| && At(bytes, offset, |Content(c)|) == Content(c)
    ensures CellHeld(bytes, offset, c)
  {
    match c
    case BitVector(_, words) => AllHeld(bytes, offset, 8, words);
    case F16(halves) => AllHeld(bytes, offset, 2, halves);
    case I8(_, codes) =>
      forall i | 0 <= i < |codes|
        ensures bytes[offset + i] == codes[i] % 256
      {
        assert At(bytes, offset, |codes|)[i] == ToByte(codes[i]);
      }
    case _ =>
  }

  lemma MarkByte(digest: Digest, cells: seq<Cell>, kind: Kind, dim: nat, r: nat)
    requires IsDigest(digest) && AllWellFormed(cells) && r < |cells|
    ensures var bytes := Written(digest, cells, kind, dim);
            80 + r < |bytes| && bytes[80 + r] == if cells[r].Null? then 0 else 1
  {
    WrittenParts(digest, cells, kind, dim);
    PaddingFacts(|cells|);
    ResizeKeeps(Validity(cells), Pad8(|cells|));
    var validity := Resize(Validity(cells), Pad8(|cells|));
    assert validity[r] == validity[..|cells|][r];
    ValidityAt(Written(digest, cells, kind, dim), Header(kind, |cells|, dim, digest(Body(cells, kind, dim))),
               validity, ScaleSection(cells, kind), Joined(Payloads(cells, kind, dim), |cells|), r);
  }

  lemma NumberAt(bytes: seq<nat>, from: nat, k: nat, n: nat)
    requires from + k <= |bytes| && At(bytes, from, k) == ToLe(n, k)
    ensures HoldsNumber(bytes, from, k, n)
  {
    NumberHeld(bytes, from, k, n);
  }

  lemma ScaleHeld(digest: Digest, cells: seq<Cell>, dim: nat, r: nat, marks: nat)
    requires IsDigest(digest) && AllWellFormed(cells) && r < |cells| && marks == Pad8(|cells|)
    ensures HoldsNumber(Written(digest, cells, I8Kind, dim), Place(80 + marks, r, 4), 4, if cells[r].I8? then cells[r].scale else 0)
  {
    ScaleStored(digest, cells, dim, r);
    var from := ScalesAt(|cells|) + r * 4;
    NumberAt(Written(digest, cells, I8Kind, dim), from, 4, if cells[r].I8? then cells[r].scale else 0);
    FourEach(80 + marks, r, from);
  }

  lemma FourEach(start: nat, r: nat, from: nat)
    requires from == start + r * 4
    ensures Place(start, r, 4) == from
  {
  }

  /** The bytes of a cell: eight a word, two a half, one a code. */
  function Size(c: Cell): nat {
    match c case BitVector(_, words) => 8 * |words| case F16(halves) => 2 * |halves| case I8(_, codes) => |codes| case _ => 0
  }

  lemma SizeIs(c: Cell)
    requires WellFormed(c)
    ensures |Content(c)| == Size(c)
  {
    match c
    case BitVector(_, words) => TimesIsProduct(|words|, 8);
    case F16(halves) => TimesIsProduct(|halves|, 2);
    case _ =>
  }

  ghost predicate ZerosBetween(bytes: seq<nat>, from: nat, to: nat) {
    to <= |bytes| && forall i :: from <= i < to ==> bytes[i] == 0
  }

  lemma TailIsZero(bytes: seq<nat>, offset: nat, content: seq<nat>, n: nat)
    requires |content| <= n && offset + n <= |bytes| && bytes[offset..offset + n] == Resize(content, n)
    ensures ZerosBetween(bytes, offset + |content|, offset + n)
  {
    forall i | offset + |content| <= i < offset + n
      ensures bytes[i] == 0
    {
      assert bytes[i] == bytes[offset..offset + n][i - offset];
    }
  }

  lemma RowHeld(digest: Digest, cells: seq<Cell>, kind: Kind, dim: nat, r: nat, offset: nat)
    requires IsDigest(digest) && AllWellFormed(cells) && r < |cells| && Fits(cells[r], kind, dim)
    requires offset == RowAt(PayloadAt(kind, |cells|), r, Stride(kind, dim))
    ensures CellHeld(Written(digest, cells, kind, dim), offset, cells[r])
    ensures ZerosBetween(Written(digest, cells, kind, dim), offset + Size(cells[r]), offset + Stride(kind, dim))
  {
    ContentStored(digest, cells, kind, dim, r, offset);
    ContentHeld(Written(digest, cells, kind, dim), offset, cells[r]);
    PayloadStored(digest, cells, kind, dim, r, offset);
    ContentFits(cells[r], kind, dim);
    SizeIs(cells[r]);
    TailIsZero(Written(digest, cells, kind, dim), offset, Content(cells[r]), Stride(kind, dim));
  }

  /** After the header one mark a row, padded; for codes then one scale a row, padded; then the rows, one stride each. */
  lemma WrittenRow(digest: Digest, cells: seq<Cell>, kind: Kind, dim: nat, r: nat, marks: nat, scales: nat, stride: nat)
    requires IsDigest(digest) && AllWellFormed(cells) && r < |cells| && Fits(cells[r], kind, dim)
    requires Padded(marks, |cells|) && Padded(scales, if kind == I8Kind then 4 * |cells| else 0) && IsStride(stride, kind, dim)
    ensures var bytes, offset := Written(digest, cells, kind, dim), Place(80 + marks + scales, r, stride);
            && 80 + r < |bytes| && bytes[80 + r] == (if cells[r].Null? then 0 else 1)
            && (kind == I8Kind ==> HoldsNumber(bytes, Place(80 + marks, r, 4), 4, if cells[r].I8? then cells[r].scale else 0))
            && CellHeld(bytes, offset, cells[r]) && ZerosBetween(bytes, offset + Size(cells[r]), offset + stride)
  {
    MarkByte(digest, cells, kind, dim, r);
    SectionsAre(kind, dim, |cells|, marks, scales, stride);
    if kind == I8Kind {
      ScaleHeld(digest, cells, dim, r, marks);
    }
    RowHeld(digest, cells, kind, dim, r, Place(80 + marks + scales, r, stride));
  }

  lemma SectionsAre(kind: Kind, dim: nat, rows: nat, marks: nat, scales: nat, stride: nat)
    requires Padded(marks, rows) && Padded(scales, if kind == I8Kind then 4 * rows else 0) && IsStride(stride, kind, dim)
    ensures marks == Pad8(rows) && 80 + marks + scales == PayloadAt(kind, rows) && stride == Stride(kind, dim)
  {
    StrideIs(stride, kind, dim);
    PaddedIsPad8(marks, rows);
    PaddedIsPad8(scales, if kind == I8Kind then 4 * rows else 0);
  }
}
