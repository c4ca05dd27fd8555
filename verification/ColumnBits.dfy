/**
 Bit vectors that a mapped column hands out: `ColumnFile::value` of `src/core/colbuf.rs` takes the words of a row as
 they are (`BitVec::from_words` of `src/core/bitvec.rs`), so whether the bits past the end are clear is up to the file.
 */
module ColumnBits {
  import opened Common
  import opened Words
  import B = BitVectors
  import opened ColumnFiles
  import opened ColumnOffsets

  /** The last word has nothing past the end. */
  predicate LastWordFits(words: seq<nat>, len: nat) {
    len % 64 == 0 || words == [] || words[|words| - 1] < Pow2(len % 64)
  }

  lemma PastTheEnd(words: seq<nat>, len: nat, i: nat)
    requires |words| == B.WordCount(len) && len <= i < 64 * |words|
    ensures len % 64 != 0 && i / 64 == |words| - 1 && i % 64 >= len % 64
  {
  }

  /** Words represent a bit vector exactly when the last one does not reach past its length. */
  lemma HoldsIffLastWordFits(words: seq<nat>, len: nat)
    requires |words| == B.WordCount(len) && forall k :: 0 <= k < |words| ==> words[k] < Pow2(64)
    ensures B.Holds(words, len) <==> LastWordFits(words, len)
  {
    if LastWordFits(words, len) {
      forall i | len <= i < 64 * |words|
        ensures !B.BitAt(words, i)
      {
        PastTheEnd(words, len, i);
        HighBitsClear(words[|words| - 1], len % 64, i % 64);
      }
    }
    if B.Holds(words, len) && len % 64 != 0 {
      var last, n := words[|words| - 1], len % 64;
      forall j | j >= n
        ensures !Bit(last, j)
      {
        LastBitClear(words, len, j);
      }
      FitsByBits(last, n);
    }
  }

  lemma LastBitClear(words: seq<nat>, len: nat, j: nat)
    requires B.Holds(words, len) && len % 64 != 0 && j >= len % 64
    ensures |words| > 0 && !Bit(words[|words| - 1], j)
  {
    if j < 64 {
      var i := 64 * (|words| - 1) + j;
      assert i / 64 == |words| - 1 && i % 64 == j;
      assert !B.BitAt(words, i);
    } else {
      HighBitsClear(words[|words| - 1], 64, j);
    }
  }

  lemma SameWordSize()
    ensures Pow256(8) == Pow2(64)
  {
    WordIsPower();
    PowerOfWord();
  }

  /** 2^64, a byte at a time. */
  lemma PowerOfWord()
    ensures Pow2(64) == WORD
  {
    EightTimes(56);
    EightTimes(48);
    EightTimes(40);
    EightTimes(32);
    EightTimes(24);
    EightTimes(16);
    EightTimes(8);
    EightTimes(0);
  }

  lemma EightTimes(n: nat)
    ensures Pow2(n + 8) == 256 * Pow2(n)
  {
    assert Pow2(n + 1) == 2 * Pow2(n) && Pow2(n + 2) == 2 * Pow2(n + 1);
    assert Pow2(n + 3) == 2 * Pow2(n + 2) && Pow2(n + 4) == 2 * Pow2(n + 3);
    assert Pow2(n + 5) == 2 * Pow2(n + 4) && Pow2(n + 6) == 2 * Pow2(n + 5);
    assert Pow2(n + 7) == 2 * Pow2(n + 6) && Pow2(n + 8) == 2 * Pow2(n + 7);
  }

  lemma {:induction false} WordsFit(bytes: seq<nat>, from: nat, n: nat)
    requires AreBytes(bytes) && from + Times(n, 8) <= |bytes|
    ensures forall k :: 0 <= k < n ==> NumbersAt(bytes, from, 8, n)[k] < Pow2(64)
  {
    if n > 0 {
      WordsFit(bytes, from, n - 1);
      FromLeFits(At(bytes, from + Times(n - 1, 8), 8));
      SameWordSize();
    }
  }

  /** A row of an accepted file is a proper bit vector exactly when its last word does not reach past the dimension. */
  lemma ReadHoldsIff(f: ColumnFile, r: nat)
    requires Opened(f) && AreBytes(f.bytes) && r < f.rows && f.kind == BitVectorKind && ValueAt(f, r) != Null
    ensures ValueAt(f, r).BitVector? && ValueAt(f, r).len == f.dim && |ValueAt(f, r).words| == B.WordCount(f.dim)
    ensures B.Holds(ValueAt(f, r).words, f.dim) <==> LastWordFits(ValueAt(f, r).words, f.dim)
  {
    var offset := RowAt(PayloadAt(f.kind, f.rows), r, Stride(f.kind, f.dim));
    SlicesExist(f, r, offset);
    WordsFit(f.bytes, offset, CeilDiv(f.dim, 64));
    HoldsIffLastWordFits(ValueAt(f, r).words, f.dim);
  }

  /** A proper bit vector that was written reads back as one. */
  lemma WrittenHolds(digest: Digest, cells: seq<Cell>, dim: nat, r: nat)
    requires IsDigest(digest) && AllWellFormed(cells) && r < |cells| && Fits(cells[r], BitVectorKind, dim)
    requires cells[r].BitVector? && B.Holds(cells[r].words, dim)
    ensures var f := ColumnFile(Written(digest, cells, BitVectorKind, dim), BitVectorKind, |cells|, dim);
            Opened(f) && ValueAt(f, r).BitVector? && B.Holds(ValueAt(f, r).words, dim)
  {
    WrittenReadsBack(digest, cells, BitVectorKind, dim, r);
  }

  /** One row of one bit whose word has eight: such a file opens, and its vector counts eight true bits. */
  lemma LongBitsExample(digest: Digest)
    requires IsDigest(digest)
    ensures var cells := [BitVector(1, [255])];
            var f := ColumnFile(Written(digest, cells, BitVectorKind, 1), BitVectorKind, 1, 1);
            AllWellFormed(cells) && Open(digest, f.bytes) == Ok(f) && Opened(f) && ValueAt(f, 0) == BitVector(1, [255])
    ensures !B.Holds([255], 1)
  {
    var cells := [BitVector(1, [255])];
    SameWordSize();
    PowerOfWord();
    assert AllWellFormed(cells);
    assert Pad8(1) == 8;
    WrittenIsAccepted(digest, cells, BitVectorKind, 1);
    WrittenReadsBack(digest, cells, BitVectorKind, 1, 0);
    HoldsIffLastWordFits([255], 1);
  }
}
