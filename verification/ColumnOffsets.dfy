/**
 The offsets that `ColumnFile::value` of `src/core/colbuf.rs` reads at, in 64-bit arithmetic that wraps: exactly
 which accepted files keep every row inside the file, and one accepted file that does not.
 */
module ColumnOffsets {
  import opened Common
  import opened ColumnFiles

  /** The mark of row `r`, at the offset the code computes, lies inside the file. */
  ghost predicate MarkIn(f: ColumnFile, r: nat) {
    Wrap(HEADER + r) < |f.bytes|
  }

  ghost predicate ScaleIn(f: ColumnFile, r: nat) {
    Wrap(ScalesWord(f.rows) + Wrap(r * 4)) + 4 <= |f.bytes|
  }

  ghost predicate PayloadIn(f: ColumnFile, r: nat) {
    Wrap(PayloadWord(f.kind, f.rows) + Wrap(r * StrideWord(f.kind, f.dim))) + Width(f.kind, f.dim) <= |f.bytes|
  }

  /** What `value` reads of row `r` lies inside the file: the mark and, unless it says NULL, the scale and the payload. */
  ghost predicate RowStays(f: ColumnFile, r: nat) {
    MarkIn(f, r) && (f.bytes[Wrap(HEADER + r)] != 0 ==> PayloadIn(f, r) && (f.kind == I8Kind ==> ScaleIn(f, r)))
  }

  ghost predicate RowsStay(f: ColumnFile) {
    forall r: nat | r < f.rows :: RowStays(f, r)
  }

  /** What `open` has checked of the sizes. */
  ghost predicate Accepted(f: ColumnFile) {
    HEADER <= |f.bytes| && f.rows < WORD && f.dim < WORD && HasLength(f.bytes, f.kind, f.rows, f.dim)
  }

  ghost predicate AreBytes(bytes: seq<nat>) {
    forall i :: 0 <= i < |bytes| ==> bytes[i] < 256
  }

  lemma {:induction false} FromLeFits(b: seq<nat>)
    requires AreBytes(b)
    ensures FromLe(b) < Pow256(|b|)
  {
    if b != [] {
      FromLeFits(b[1..]);
    }
  }

  lemma NumberFits(bytes: seq<nat>, from: nat)
    requires AreBytes(bytes) && from + 8 <= |bytes|
    ensures FromLe(At(bytes, from, 8)) < WORD
  {
    FromLeFits(At(bytes, from, 8));
    WordIsPower();
  }

  lemma OpenIsAccepted(digest: Digest, bytes: seq<nat>)
    requires AreBytes(bytes) && Open(digest, bytes).Ok?
    ensures Accepted(Open(digest, bytes).value)
  {
    NumberFits(bytes, 16);
    NumberFits(bytes, 24);
  }

  // ---------------------------------------------------------------- nothing wraps

  lemma RowStaysUnwrapped(f: ColumnFile, r: nat)
    requires Accepted(f) && r < f.rows && NothingWraps(f.kind, f.rows, f.dim)
    ensures RowStays(f, r)
  {
    WordsAreExact(f.kind, f.rows, f.dim);
    ReadsInside(f, r);
    PayloadFollows(f, r);
    WrapSmall(HEADER + r);
    WrapSmall(r * 4);
    WrapSmall(ScalesAt(f.rows) + r * 4);
    WrapSmall(r * Stride(f.kind, f.dim));
    WrapSmall(RowAt(PayloadAt(f.kind, f.rows), r, Stride(f.kind, f.dim)));
  }

  // ---------------------------------------------------------------- every row stays

  lemma RowIsIn(f: ColumnFile, r: nat)
    requires RowsStay(f) && r < f.rows
    ensures RowStays(f, r)
  {
  }

  lemma MarksStay(f: ColumnFile)
    requires Accepted(f) && RowsStay(f)
    ensures HEADER + f.rows <= |f.bytes|
  {
    if |f.bytes| < HEADER + f.rows {
      var r := |f.bytes| - HEADER;
      WrapSmall(|f.bytes|);
      RowIsIn(f, r);
    }
  }

  /** Padding is to the next multiple of 8, so it passes a word only by reaching it. */
  lemma PadReachesWord(n: nat)
    requires n < WORD
    ensures n <= Pad8(n) <= WORD && Pad8(n) % 8 == 0
    ensures Wrap(Pad8(n)) == if Pad8(n) == WORD then 0 else Pad8(n)
    ensures Wrap(Pad8(n)) % 8 == 0 && Wrap(Pad8(n)) <= n + 7
  {
    PaddingFacts(n);
    WrapSmall(Pad8(n));
  }

  /** The payload of one row that is not NULL keeps the stride from wrapping. */
  lemma StrideStays(f: ColumnFile, r: nat)
    requires Accepted(f) && r < f.rows && PayloadIn(f, r)
    ensures Stride(f.kind, f.dim) < WORD && StrideWord(f.kind, f.dim) == Stride(f.kind, f.dim)
  {
    var width, payload := Width(f.kind, f.dim), PayloadWord(f.kind, f.rows);
    PayloadIsWord(f.kind, f.rows);
    WrapSmall(0);
    WrapSmall(payload);
    WrapSmall(width);
    PadReachesWord(width);
    assert r * 0 == 0;
    if Pad8(width) == WORD {
      NoStride(f);
    }
  }

  lemma PayloadIsWord(kind: Kind, rows: nat)
    ensures PayloadWord(kind, rows) < WORD && ScalesWord(rows) < WORD
  {
    WrapSmall(HEADER + Wrap(Pad8(rows)));
    WrapSmall(ScalesWord(rows) + Wrap(Pad8(Wrap(rows * 4))));
  }

  /** With stride 0 the file ends where the payload starts. */
  lemma NoStride(f: ColumnFile)
    requires HasLength(f.bytes, f.kind, f.rows, f.dim) && StrideWord(f.kind, f.dim) == 0
    ensures |f.bytes| == PayloadWord(f.kind, f.rows)
  {
    assert f.rows * 0 == 0;
  }

  /** With any other stride there are fewer rows than an eighth of a word. */
  lemma SomeStride(f: ColumnFile)
    requires HasLength(f.bytes, f.kind, f.rows, f.dim) && StrideWord(f.kind, f.dim) >= 8
    ensures f.rows * 8 <= |f.bytes|
  {
    ManyRows(f.rows, StrideWord(f.kind, f.dim));
  }

  lemma ManyRows(rows: nat, stride: nat)
    requires stride >= 8
    ensures rows * 8 <= rows * stride
  {
    assert rows * stride == rows * 8 + rows * (stride - 8);
  }

  /** The bytes of scales that the code sets aside. */
  function ScaleBytes(rows: nat): nat {
    Wrap(Pad8(Wrap(rows * 4)))
  }

  lemma StrideIsNoneOrEight(kind: Kind, dim: nat)
    ensures StrideWord(kind, dim) == 0 || StrideWord(kind, dim) >= 8
  {
    WrapSmall(Width(kind, dim));
    PadReachesWord(Wrap(Width(kind, dim)));
  }

  lemma ScalesMissWord(f: ColumnFile)
    requires Accepted(f) && f.rows > 0 && HEADER + f.rows <= |f.bytes|
    ensures ScalesAt(f.rows) != WORD
  {
    StrideIsNoneOrEight(f.kind, f.dim);
    if ScalesAt(f.rows) == WORD {
      ScalesAtWord(f.rows);
      if StrideWord(f.kind, f.dim) >= 8 {
        SomeStride(f);
      } else {
        NoStride(f);
        LateScales(f.rows);
      }
      assert false;
    }
  }

  lemma ScalesAtWord(rows: nat)
    requires rows < WORD && ScalesAt(rows) == WORD
    ensures ScalesWord(rows) == 0 && rows * 8 >= WORD
  {
    PadReachesWord(rows);
  }

  lemma ScalesStay(f: ColumnFile)
    requires Accepted(f) && f.rows > 0 && HEADER + f.rows <= |f.bytes|
    ensures ScalesAt(f.rows) < WORD && ScalesWord(f.rows) == ScalesAt(f.rows)
  {
    ScalesMissWord(f);
    PadReachesWord(f.rows);
    WrapSmall(ScalesAt(f.rows));
  }

  /** So many rows that the scales wrap leave their bytes below the marks. */
  lemma LateScales(rows: nat)
    requires HEADER + rows < WORD && ScalesAt(rows) == WORD
    ensures ScaleBytes(rows) < rows && Wrap(ScaleBytes(rows)) == ScaleBytes(rows)
  {
    PaddingFacts(rows);
    var c := WORD - rows;
    assert rows * 4 == 3 * WORD + (WORD - 4 * c);
    assert Wrap(rows * 4) == WORD - 4 * c;
    PadReachesWord(WORD - 4 * c);
    WrapSmall(ScaleBytes(rows));
  }

  /** Where the marks are inside and the stride is not 0, the payload does not wrap; nor does it without scales. */
  lemma PayloadStays(f: ColumnFile)
    requires Accepted(f) && f.rows > 0 && HEADER + f.rows <= |f.bytes|
    requires f.kind == I8Kind ==> StrideWord(f.kind, f.dim) > 0
    ensures PayloadAt(f.kind, f.rows) < WORD
  {
    ScalesStay(f);
    if f.kind == I8Kind {
      PaddingFacts(f.rows);
      PaddingFacts(f.rows * 4);
      StrideIsNoneOrEight(f.kind, f.dim);
      SomeStride(f);
    }
  }

  /** A row that is not NULL leaves one way for sizes to wrap: scales without codes. */
  lemma MarkedRow(f: ColumnFile, r: nat)
    requires Accepted(f) && r < f.rows && HEADER + f.rows <= |f.bytes| && PayloadIn(f, r)
    ensures NothingWraps(f.kind, f.rows, f.dim) || (f.kind == I8Kind && f.dim == 0)
  {
    StrideStays(f, r);
    PaddingFacts(Width(f.kind, f.dim));
    if f.kind != I8Kind || f.dim > 0 {
      PayloadStays(f);
    }
  }

  /** The scale of the row just past the bytes set aside would lie past the end. */
  lemma ScalePastEnd(f: ColumnFile, r: nat, q: nat)
    requires r * 4 == q && ScalesWord(f.rows) + q == |f.bytes| < WORD
    ensures !ScaleIn(f, r)
  {
    WrapSmall(q);
    WrapSmall(|f.bytes|);
  }

  lemma ScaleOfRow(f: ColumnFile, r: nat)
    requires r < f.rows && forall r: nat | r < f.rows :: ScaleIn(f, r)
    ensures ScaleIn(f, r)
  {
  }

  lemma ScaleBytesSuffice(f: ColumnFile, r: nat)
    requires ScalesWord(f.rows) + ScaleBytes(f.rows) == |f.bytes| < WORD && r * 4 == ScaleBytes(f.rows)
    requires forall r: nat | r < f.rows :: ScaleIn(f, r)
    ensures r >= f.rows
  {
    if r < f.rows {
      ScalePastEnd(f, r, ScaleBytes(f.rows));
      ScaleOfRow(f, r);
    }
  }

  lemma ScaleBytesPad(rows: nat)
    ensures ScaleBytes(rows) % 8 == 0 && ScaleBytes(rows) < WORD && ScaleBytes(rows) <= Wrap(rows * 4) + 7
  {
    WrapSmall(rows * 4);
    PadReachesWord(Wrap(rows * 4));
    WrapSmall(Pad8(Wrap(rows * 4)));
  }

  lemma WrapOnce(n: nat)
    requires WORD <= n < 2 * WORD
    ensures Wrap(n) == n - WORD
  {
  }

  /** Scales that leave room for the marks do not wrap the payload's offset. */
  lemma SumStays(rows: nat)
    requires ScalesAt(rows) < WORD && HEADER + rows <= Wrap(ScalesAt(rows) + ScaleBytes(rows))
    ensures ScalesAt(rows) + ScaleBytes(rows) < WORD
  {
    ScaleBytesPad(rows);
    PaddingFacts(rows);
    if ScalesAt(rows) + ScaleBytes(rows) >= WORD {
      WrapOnce(ScalesAt(rows) + ScaleBytes(rows));
    }
  }

  lemma WrapBelow(n: nat)
    ensures n >= WORD ==> Wrap(n) + WORD <= n
  {
  }

  /** Bytes enough for all scales are the bytes of all scales. */
  lemma ExactScales(rows: nat)
    requires ScaleBytes(rows) >= rows * 4
    ensures Pad8(rows * 4) == ScaleBytes(rows)
  {
    ScaleBytesPad(rows);
    WrapBelow(rows * 4);
    WrapSmall(rows * 4);
    PadReachesWord(rows * 4);
  }

  lemma PayloadAfterScales(rows: nat)
    requires ScalesWord(rows) == ScalesAt(rows) < WORD && HEADER + rows <= PayloadWord(I8Kind, rows)
    ensures PayloadWord(I8Kind, rows) == ScalesAt(rows) + ScaleBytes(rows) < WORD
  {
    SumStays(rows);
    WrapSmall(ScalesAt(rows) + ScaleBytes(rows));
  }

  lemma Quarter(q: nat)
    requires q % 8 == 0
    ensures q / 4 * 4 == q
  {
  }

  lemma ScaleBytesStay(f: ColumnFile)
    requires f.rows > 0 && f.kind == I8Kind && forall r: nat | r < f.rows :: ScaleIn(f, r)
    requires ScalesWord(f.rows) == ScalesAt(f.rows) < WORD && |f.bytes| == PayloadWord(I8Kind, f.rows)
    requires HEADER + f.rows <= |f.bytes|
    ensures PayloadAt(I8Kind, f.rows) < WORD
  {
    var r := ScaleBytes(f.rows) / 4;
    PayloadAfterScales(f.rows);
    ScaleBytesPad(f.rows);
    Quarter(ScaleBytes(f.rows));
    ScaleBytesSuffice(f, r);
    ExactScales(f.rows);
  }

  // ---------------------------------------------------------------- exactly when every row stays

  /** Row `r` is not NULL. */
  ghost predicate Marked(f: ColumnFile, r: nat) {
    HEADER + r < |f.bytes| && f.bytes[HEADER + r] != 0
  }

  /** The marks lie inside, and every row is NULL but for rows of scales alone that lie inside. */
  ghost predicate OnlyNulls(f: ColumnFile) {
    HEADER + f.rows <= |f.bytes| &&
    forall r: nat | r < f.rows && Marked(f, r) :: f.kind == I8Kind && f.dim == 0 && ScaleIn(f, r)
  }

  lemma StaysAtMark(f: ColumnFile, r: nat)
    requires HEADER + r < |f.bytes| < WORD
    ensures RowStays(f, r) <==> (Marked(f, r) ==> PayloadIn(f, r) && (f.kind == I8Kind ==> ScaleIn(f, r)))
  {
    WrapSmall(HEADER + r);
  }

  lemma StayingIsOnlyNulls(f: ColumnFile)
    requires Accepted(f) && RowsStay(f) && !NothingWraps(f.kind, f.rows, f.dim)
    ensures OnlyNulls(f)
  {
    MarksStay(f);
    forall r: nat | r < f.rows && Marked(f, r)
      ensures f.kind == I8Kind && f.dim == 0 && ScaleIn(f, r)
    {
      RowIsIn(f, r);
      StaysAtMark(f, r);
      MarkedRow(f, r);
    }
  }

  lemma OnlyNullsStays(f: ColumnFile, r: nat)
    requires Accepted(f) && r < f.rows && OnlyNulls(f)
    ensures RowStays(f, r)
  {
    StaysAtMark(f, r);
    if Marked(f, r) {
      NoCodes(f, r);
    }
  }

  /** Rows without codes have a payload of nothing, at the end of the file. */
  lemma NoCodes(f: ColumnFile, r: nat)
    requires Accepted(f) && f.kind == I8Kind && f.dim == 0
    ensures PayloadIn(f, r)
  {
    WrapSmall(0);
    assert StrideWord(f.kind, f.dim) == 0;
    NoStride(f);
    assert r * 0 == 0;
    PayloadIsWord(f.kind, f.rows);
    WrapSmall(PayloadWord(f.kind, f.rows));
  }

  /**
   In an accepted file every row is read inside the file exactly when there is no row, or neither the stride nor
   the offset of the payload wraps, or the marks lie inside and say NULL.
   */
  lemma RowsStayIff(f: ColumnFile)
    requires Accepted(f)
    ensures RowsStay(f)
            <==> f.rows == 0 || NothingWraps(f.kind, f.rows, f.dim) || OnlyNulls(f)
  {
    if NothingWraps(f.kind, f.rows, f.dim) {
      forall r: nat | r < f.rows
        ensures RowStays(f, r)
      {
        RowStaysUnwrapped(f, r);
      }
    } else if RowsStay(f) {
      StayingIsOnlyNulls(f);
    } else if OnlyNulls(f) {
      forall r: nat | r < f.rows
        ensures RowStays(f, r)
      {
        OnlyNullsStays(f, r);
      }
    }
  }

  /** The same of what `open` accepts. */
  lemma OpenedRowsStayIff(digest: Digest, bytes: seq<nat>)
    requires AreBytes(bytes) && Open(digest, bytes).Ok?
    ensures var f := Open(digest, bytes).value;
            RowsStay(f)
            <==> f.rows == 0 || NothingWraps(f.kind, f.rows, f.dim) || OnlyNulls(f)
  {
    OpenIsAccepted(digest, bytes);
    RowsStayIff(Open(digest, bytes).value);
  }

  /**
   Below 2^61 bytes only the stride matters: the marks must lie inside, and if the stride wraps every row must be NULL.
   */
  lemma SmallFileStaysIff(f: ColumnFile)
    requires Accepted(f) && f.rows > 0 && |f.bytes| < 0x2000_0000_0000_0000
    ensures RowsStay(f)
            <==> HEADER + f.rows <= |f.bytes| && (Stride(f.kind, f.dim) < WORD || forall r: nat | r < f.rows :: !Marked(f, r))
  {
    RowsStayIff(f);
    if RowsStay(f) {
      MarksStay(f);
    }
    if HEADER + f.rows <= |f.bytes| {
      FewRows(f.kind, f.rows);
      WideStride(f.kind, f.dim);
    }
  }

  lemma FewRows(kind: Kind, rows: nat)
    requires HEADER + rows < 0x2000_0000_0000_0000
    ensures PayloadAt(kind, rows) < WORD
  {
    PaddingFacts(rows);
    PaddingFacts(rows * 4);
  }

  lemma WideStride(kind: Kind, dim: nat)
    ensures Stride(kind, dim) >= WORD ==> dim > 0
  {
  }

  // ---------------------------------------------------------------- whatever the contents

  /** A file with this header and body. */
  function FileWith(digest: Digest, kind: Kind, rows: nat, dim: nat, body: seq<nat>): ColumnFile {
    ColumnFile(Header(kind, rows, dim, digest(body)) + body, kind, rows, dim)
  }

  lemma FileIsAccepted(digest: Digest, kind: Kind, rows: nat, dim: nat, body: seq<nat>)
    requires IsDigest(digest) && rows < WORD && dim < WORD
    requires HEADER + |body| == RowAt(PayloadWord(kind, rows), rows, StrideWord(kind, dim)) < WORD
    ensures Accepted(FileWith(digest, kind, rows, dim, body))
    ensures Open(digest, FileWith(digest, kind, rows, dim, body).bytes) == Ok(FileWith(digest, kind, rows, dim, body))
    ensures forall i :: 0 <= i < |body| ==> FileWith(digest, kind, rows, dim, body).bytes[HEADER + i] == body[i]
  {
    HeaderIsFixed(kind, rows, dim, digest(body));
    StartsAccepted(digest, FileWith(digest, kind, rows, dim, body).bytes, kind, rows, dim, body);
  }

  function Ones(n: nat): (r: seq<nat>)
    ensures |r| == n && forall i :: 0 <= i < n ==> r[i] == 1
  {
    seq(n, _ => 1)
  }

  lemma AllScales(f: ColumnFile)
    requires OnlyNulls(f) && f.rows > 0 && forall r: nat | r < f.rows :: Marked(f, r)
    ensures f.kind == I8Kind && f.dim == 0 && HEADER + f.rows <= |f.bytes|
    ensures forall r: nat | r < f.rows :: ScaleIn(f, r)
  {
    assert Marked(f, 0);
  }

  lemma NoDimNoStride(f: ColumnFile)
    requires Accepted(f) && f.kind == I8Kind && f.dim == 0
    ensures Stride(f.kind, f.dim) == 0 && |f.bytes| == PayloadWord(f.kind, f.rows)
  {
    WrapSmall(0);
    NoStride(f);
  }

  /** A file with a value in every row stays inside only if nothing wraps. */
  lemma AllMarkedStays(f: ColumnFile)
    requires Accepted(f) && f.rows > 0 && RowsStay(f) && forall r: nat | r < f.rows :: Marked(f, r)
    ensures NothingWraps(f.kind, f.rows, f.dim)
  {
    if !NothingWraps(f.kind, f.rows, f.dim) {
      StayingIsOnlyNulls(f);
      AllScales(f);
      NoDimNoStride(f);
      ScalesStay(f);
      ScaleBytesStay(f);
    }
  }

  /** All files that open with this header and body length are read inside exactly when there is no row or nothing wraps. */
  lemma HeaderStaysIff(digest: Digest, kind: Kind, rows: nat, dim: nat, n: nat)
    requires IsDigest(digest) && rows < WORD && dim < WORD
    requires HEADER + n == RowAt(PayloadWord(kind, rows), rows, StrideWord(kind, dim)) < WORD
    ensures (forall body: seq<nat> | |body| == n && AreBytes(body) :: RowsStay(FileWith(digest, kind, rows, dim, body)))
            <==> rows == 0 || NothingWraps(kind, rows, dim)
  {
    if rows == 0 || NothingWraps(kind, rows, dim) {
      forall body: seq<nat> | |body| == n && AreBytes(body)
        ensures RowsStay(FileWith(digest, kind, rows, dim, body))
      {
        FileIsAccepted(digest, kind, rows, dim, body);
        RowsStayIff(FileWith(digest, kind, rows, dim, body));
      }
    } else if forall body: seq<nat> | |body| == n && AreBytes(body) :: RowsStay(FileWith(digest, kind, rows, dim, body)) {
      var f := FileWith(digest, kind, rows, dim, Ones(n));
      FileIsAccepted(digest, kind, rows, dim, Ones(n));
      MarksStay(f);
      forall r: nat | r < f.rows
        ensures Marked(f, r)
      {
        assert f.bytes[HEADER + r] == Ones(n)[r];
      }
      AllMarkedStays(f);
    }
  }

  // ---------------------------------------------------------------- a file that is accepted and read past its end

  /** 88 bytes: one row of 2^63 half-precision elements, whose stride wraps to 0, with this mark. */
  function WrappedFile(digest: Digest, mark: nat): ColumnFile {
    FileWith(digest, F16Kind, 1, 0x8000_0000_0000_0000, [mark, 0, 0, 0, 0, 0, 0, 0])
  }

  lemma WrappedSizes()
    ensures Stride(F16Kind, 0x8000_0000_0000_0000) == WORD && StrideWord(F16Kind, 0x8000_0000_0000_0000) == 0
    ensures PayloadWord(F16Kind, 1) == 88
  {
    assert Pad8(1) == 8;
  }

  lemma OneRowStays(f: ColumnFile)
    requires Accepted(f) && f.rows == 1 && |f.bytes| == 88 && Stride(f.kind, f.dim) >= WORD
    ensures RowsStay(f) <==> f.bytes[HEADER] == 0
  {
    SmallFileStaysIff(f);
    assert Marked(f, 0) <==> f.bytes[HEADER + 0] != 0;
  }

  /** It is accepted whatever the mark; marked NULL it is read inside, otherwise past its end. */
  lemma WrappedFileIsAccepted(digest: Digest, mark: nat)
    requires IsDigest(digest)
    ensures var f := WrappedFile(digest, mark);
            && |f.bytes| == 88 && Open(digest, f.bytes) == Ok(f) && f.rows == 1
            && (RowsStay(f) <==> mark == 0)
  {
    var f, body := WrappedFile(digest, mark), [mark, 0, 0, 0, 0, 0, 0, 0];
    WrappedSizes();
    FileIsAccepted(digest, F16Kind, 1, 0x8000_0000_0000_0000, body);
    assert f.bytes[HEADER + 0] == body[0];
    OneRowStays(f);
  }
}
