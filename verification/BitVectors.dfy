/**
 `BitVec` of `src/core/bitvec.rs`: an array of 64-bit words that refines a sequence of booleans, with the
 bits past the end always clear.
 */
module BitVectors {
  import opened Common
  import opened Tanimoto
  import opened Words

  function WordCount(len: nat): (n: nat)
    ensures len <= 64 * n < len + 64
  {
    (len + 63) / 64
  }

  function BitAt(words: seq<nat>, i: nat): bool
    requires i / 64 < |words|
  {
    Bit(words[i / 64], i % 64)
  }

  /** The representation of `len` bits. */
  ghost predicate Holds(words: seq<nat>, len: nat) {
    |words| == WordCount(len) && (forall k :: 0 <= k < |words| ==> words[k] < Pow2(64)) &&
    forall i :: len <= i < 64 * |words| ==> !BitAt(words, i)
  }

  ghost function BitsOf(words: seq<nat>, len: nat): (s: seq<bool>)
    requires |words| == WordCount(len)
    ensures |s| == len && forall i :: 0 <= i < len ==> s[i] == BitAt(words, i)
  {
    seq(len, i requires 0 <= i < len => BitAt(words, i))
  }

  /** Equal bits have equal words: comparing words compares bit vectors. */
  lemma SameBitsSameWords(x: seq<nat>, y: seq<nat>, len: nat)
    requires Holds(x, len) && Holds(y, len) && BitsOf(x, len) == BitsOf(y, len)
    ensures x == y
  {
    forall k | 0 <= k < |x|
      ensures x[k] == y[k]
    {
      forall b | 0 <= b < 64
        ensures Bit(x[k], b) == Bit(y[k], b)
      {
        var i := 64 * k + b;
        assert i / 64 == k && i % 64 == b;
        assert BitAt(x, i) == BitAt(y, i) by {
          if i < len {
            assert BitsOf(x, len)[i] == BitsOf(y, len)[i];
          }
        }
      }
      SameBitsSameWord(x[k], y[k], 64);
    }
  }

  lemma ZeroWords(words: seq<nat>, len: nat)
    requires |words| == WordCount(len) && forall k :: 0 <= k < |words| ==> words[k] == 0
    ensures Holds(words, len) && forall i :: 0 <= i < len ==> !BitsOf(words, len)[i]
  {
    Pow2Positive(64);
    forall i | 0 <= i < 64 * |words|
      ensures !BitAt(words, i)
    {
      BitOfZero(i % 64);
    }
  }

  // ---------------------------------------------------------------- setting a bit

  function WithBit(w: nat, b: nat, on: bool): nat {
    if on then Or(w, Pow2(b)) else And(w, Not(Pow2(b), 64))
  }

  lemma BitOfWithBit(w: nat, b: nat, on: bool, j: nat)
    requires w < Pow2(64) && b < 64
    ensures Bit(WithBit(w, b, on), j) == if j == b then on else Bit(w, j)
  {
    BitOfPow2(b, j);
    if on {
      BitOfOr(w, Pow2(b), j);
    } else {
      BitOfAnd(w, Not(Pow2(b), 64), j);
      BitOfNot(Pow2(b), 64, j);
      if j >= 64 {
        HighBitsClear(w, 64, j);
      }
    }
  }

  lemma WithBitFits(w: nat, b: nat, on: bool)
    requires w < Pow2(64) && b < 64
    ensures WithBit(w, b, on) < Pow2(64)
  {
    forall j | j >= 64
      ensures !Bit(WithBit(w, b, on), j)
    {
      BitOfWithBit(w, b, on, j);
      HighBitsClear(w, 64, j);
    }
    FitsByBits(WithBit(w, b, on), 64);
  }

  lemma SetKeeps(words: seq<nat>, len: nat, i: nat, on: bool)
    requires Holds(words, len) && i < len
    ensures i / 64 < |words|
    ensures var after := words[i / 64 := WithBit(words[i / 64], i % 64, on)];
            Holds(after, len) && BitsOf(after, len) == BitsOf(words, len)[i := on]
  {
    var after := words[i / 64 := WithBit(words[i / 64], i % 64, on)];
    WithBitFits(words[i / 64], i % 64, on);
    forall j | 0 <= j < 64 * |words|
      ensures BitAt(after, j) == if j == i then on else BitAt(words, j)
    {
      if j / 64 == i / 64 {
        BitOfWithBit(words[i / 64], i % 64, on, j % 64);
        assert j % 64 == i % 64 ==> j == i;
      }
    }
  }

  // ---------------------------------------------------------------- members and counts

  ghost function Members(bits: seq<bool>): set<nat> {
    set i | 0 <= i < |bits| && bits[i]
  }

  ghost function MembersUpTo(words: seq<nat>, k: nat): set<nat>
    requires k <= |words|
  {
    set i | 0 <= i < 64 * k && BitAt(words, i)
  }

  function SumOnes(words: seq<nat>, k: nat): nat
    requires k <= |words|
  {
    if k == 0 then 0 else SumOnes(words, k - 1) + CountOnes(words[k - 1])
  }

  lemma OneMoreWord(words: seq<nat>, k: nat)
    requires k < |words|
    ensures MembersUpTo(words, k + 1) == MembersUpTo(words, k) + Positions(words[k], 64 * k, 64)
    ensures MembersUpTo(words, k) !! Positions(words[k], 64 * k, 64)
  {
    forall i | i in MembersUpTo(words, k + 1) && i !in MembersUpTo(words, k)
      ensures i in Positions(words[k], 64 * k, 64)
    {
      assert i / 64 == k && i == 64 * k + i % 64;
    }
    forall i | i in Positions(words[k], 64 * k, 64)
      ensures i in MembersUpTo(words, k + 1) && i !in MembersUpTo(words, k)
    {
      var j :| 0 <= j < 64 && Bit(words[k], j) && i == 64 * k + j;
      assert i / 64 == k && i % 64 == j;
    }
  }

  lemma DisjointSum<T>(a: set<T>, b: set<T>)
    requires a !! b
    ensures |a + b| == |a| + |b|
  {
  }

  lemma {:induction false} SumOnesCounts(words: seq<nat>, k: nat)
    requires k <= |words| && forall j :: 0 <= j < |words| ==> words[j] < Pow2(64)
    ensures SumOnes(words, k) == |MembersUpTo(words, k)|
  {
    if k == 0 {
      assert MembersUpTo(words, 0) == {};
    } else {
      var added := Positions(words[k - 1], 64 * (k - 1), 64);
      SumOnesCounts(words, k - 1);
      OneMoreWord(words, k - 1);
      CountOnesIsCardinality(words[k - 1], 64 * (k - 1), 64);
      DisjointSum(MembersUpTo(words, k - 1), added);
    }
  }

  /** Counting words counts the true bits: the padding adds nothing. */
  lemma CountIsCardinality(words: seq<nat>, len: nat)
    requires Holds(words, len)
    ensures SumOnes(words, |words|) == |Members(BitsOf(words, len))|
  {
    SumOnesCounts(words, |words|);
    assert MembersUpTo(words, |words|) == Members(BitsOf(words, len));
  }

  datatype Gate = AndGate | OrGate | XorGate

  function Through(g: Gate, a: nat, b: nat): nat {
    match g case AndGate => And(a, b) case OrGate => Or(a, b) case XorGate => Xor(a, b)
  }

  predicate Truth(g: Gate, a: bool, b: bool) {
    match g case AndGate => a && b case OrGate => a || b case XorGate => a != b
  }

  lemma BitThrough(g: Gate, a: nat, b: nat, i: nat)
    ensures Bit(Through(g, a, b), i) <==> Truth(g, Bit(a, i), Bit(b, i))
  {
    BitOfAnd(a, b, i);
    BitOfOr(a, b, i);
    BitOfXor(a, b, i);
  }

  lemma ThroughFits(g: Gate, a: nat, b: nat)
    requires a < Pow2(64) && b < Pow2(64)
    ensures Through(g, a, b) < Pow2(64)
  {
    forall i | i >= 64
      ensures !Bit(Through(g, a, b), i)
    {
      BitThrough(g, a, b, i);
      HighBitsClear(a, 64, i);
      HighBitsClear(b, 64, i);
    }
    FitsByBits(Through(g, a, b), 64);
  }

  function Zipped(g: Gate, x: seq<nat>, y: seq<nat>): (z: seq<nat>)
    requires |x| == |y|
    ensures |z| == |x| && forall k :: 0 <= k < |z| ==> z[k] == Through(g, x[k], y[k])
  {
    seq(|x|, k requires 0 <= k < |x| => Through(g, x[k], y[k]))
  }

  /** Word by word is bit by bit. */
  lemma ZippedBits(g: Gate, x: seq<nat>, y: seq<nat>, len: nat)
    requires Holds(x, len) && Holds(y, len)
    ensures Holds(Zipped(g, x, y), len)
    ensures forall i :: 0 <= i < len ==> BitsOf(Zipped(g, x, y), len)[i] == Truth(g, BitsOf(x, len)[i], BitsOf(y, len)[i])
  {
    forall k | 0 <= k < |x|
      ensures Zipped(g, x, y)[k] < Pow2(64)
    {
      ThroughFits(g, x[k], y[k]);
    }
    forall i | 0 <= i < 64 * |x|
      ensures BitAt(Zipped(g, x, y), i) == Truth(g, BitAt(x, i), BitAt(y, i))
    {
      BitThrough(g, x[i / 64], y[i / 64], i % 64);
    }
  }

  ghost function Joined(g: Gate, a: set<nat>, b: set<nat>): set<nat> {
    match g case AndGate => a * b case OrGate => a + b case XorGate => (a - b) + (b - a)
  }

  /** Counting the words of a gate counts the corresponding set of positions. */
  lemma ZippedCount(g: Gate, x: seq<nat>, y: seq<nat>, len: nat)
    requires Holds(x, len) && Holds(y, len)
    ensures SumOnes(Zipped(g, x, y), |x|) == |Joined(g, Members(BitsOf(x, len)), Members(BitsOf(y, len)))|
  {
    ZippedBits(g, x, y, len);
    CountIsCardinality(Zipped(g, x, y), len);
    assert Members(BitsOf(Zipped(g, x, y), len)) == Joined(g, Members(BitsOf(x, len)), Members(BitsOf(y, len)));
  }

  // ---------------------------------------------------------------- the dot product with a dense vector

  function Term(on: bool, v: seq<real>, i: nat): real {
    if on && i < |v| then v[i] else 0.0
  }

  /** The weights of the set bits among the first `n` of a word that starts at position `base`. */
  function WordSum(w: nat, v: seq<real>, base: nat, n: nat): real {
    if n == 0 then 0.0 else WordSum(w, v, base, n - 1) + Term(Bit(w, n - 1), v, base + n - 1)
  }

  /** The weights of the true bits among the first `n`. */
  function BitSum(bits: seq<bool>, v: seq<real>, n: nat): real
    requires n <= |bits|
  {
    if n == 0 then 0.0 else BitSum(bits, v, n - 1) + Term(bits[n - 1], v, n - 1)
  }

  lemma {:induction false} WordSumWithout(w: nat, u: nat, v: seq<real>, base: nat, t: nat, n: nat)
    requires Bit(w, t) && forall i: nat :: Bit(u, i) <==> Bit(w, i) && i != t
    ensures WordSum(w, v, base, n) == WordSum(u, v, base, n) + (if t < n then Term(true, v, base + t) else 0.0)
  {
    if n > 0 {
      WordSumWithout(w, u, v, base, t, n - 1);
    }
  }

  lemma {:induction false} WordSumOfZero(v: seq<real>, base: nat, n: nat)
    ensures WordSum(0, v, base, n) == 0.0
  {
    if n > 0 {
      WordSumOfZero(v, base, n - 1);
      BitOfZero(n - 1);
    }
  }

  /** The loop over one word: clear the lowest bit until none is left. */
  method SumSetBits(word: nat, v: seq<real>, base: nat, sum0: real) returns (sum: real)
    requires word < Pow2(64) && forall b :: 0 <= b < 64 && Bit(word, b) ==> base + b < |v|
    ensures sum == sum0 + WordSum(word, v, base, 64)
  {
    sum := sum0;
    var bits := word;
    while bits != 0
      invariant sum + WordSum(bits, v, base, 64) == sum0 + WordSum(word, v, base, 64)
      invariant forall b: nat :: Bit(bits, b) ==> Bit(word, b)
      decreases bits
    {
      var t := TrailingZeros(bits);
      HasBit(bits);
      if t >= 64 {
        HighBitsClear(word, 64, t);
      }
      ghost var cleared := And(bits, bits - 1);
      forall i: nat
        ensures Bit(cleared, i) <==> Bit(bits, i) && i != t
      {
        ClearLowest(bits, i);
      }
      ClearLowest(bits, 0);
      WordSumWithout(bits, cleared, v, base, t, 64);
      sum := sum + v[base + t];
      bits := And(bits, bits - 1);
    }
    WordSumOfZero(v, base, 64);
  }

  /** The sum over the bits of the first `k` words, as far as the vector reaches. */
  function SumUpTo(words: seq<nat>, v: seq<real>, k: nat): real
    requires k <= |words|
  {
    if k == 0 then 0.0 else SumUpTo(words, v, k - 1) + WordSum(words[k - 1], v, 64 * (k - 1), 64)
  }

  function FlatSum(words: seq<nat>, v: seq<real>, n: nat): real
    requires n <= 64 * |words|
  {
    if n == 0 then 0.0 else FlatSum(words, v, n - 1) + Term(BitAt(words, n - 1), v, n - 1)
  }

  lemma {:induction false} FlatWord(words: seq<nat>, v: seq<real>, k: nat, n: nat)
    requires k < |words| && n <= 64
    ensures FlatSum(words, v, 64 * k + n) == FlatSum(words, v, 64 * k) + WordSum(words[k], v, 64 * k, n)
  {
    if n > 0 {
      FlatWord(words, v, k, n - 1);
      var i := 64 * k + (n - 1);
      assert i / 64 == k && i % 64 == n - 1;
      assert 64 * k + n - 1 == i;
    }
  }

  lemma {:induction false} FlatWords(words: seq<nat>, v: seq<real>, k: nat)
    requires k <= |words|
    ensures SumUpTo(words, v, k) == FlatSum(words, v, 64 * k)
  {
    if k > 0 {
      FlatWords(words, v, k - 1);
      FlatWord(words, v, k - 1, 64);
      assert 64 * (k - 1) + 64 == 64 * k;
    }
  }

  lemma {:induction false} FlatIsBitSum(words: seq<nat>, v: seq<real>, len: nat, n: nat)
    requires Holds(words, len) && |v| == len && len <= 64 * |words| && n <= 64 * |words|
    ensures FlatSum(words, v, n) == BitSum(BitsOf(words, len), v, if n <= len then n else len)
  {
    if n > 0 {
      FlatIsBitSum(words, v, len, n - 1);
      if n > len {
        assert !BitAt(words, n - 1);
      } else {
        assert BitsOf(words, len)[n - 1] == BitAt(words, n - 1);
      }
    }
  }

  // ---------------------------------------------------------------- packed bytes

  /** Bit `i` of the packed bytes, most significant bit of each byte first. */
  function ByteBit(bytes: seq<nat>, i: nat): bool
    requires i / 8 < |bytes|
  {
    Bit(bytes[i / 8], 7 - i % 8)
  }

  function ByteCount(len: nat): (n: nat)
    ensures len <= 8 * n < len + 8
  {
    (len + 7) / 8
  }

  ghost predicate AreBytes(bytes: seq<nat>) {
    forall k :: 0 <= k < |bytes| ==> bytes[k] < Pow2(8)
  }

  /** `bytes` is the external form of `bits`: right length, right bits, clear padding. */
  ghost predicate Packs(bytes: seq<nat>, bits: seq<bool>) {
    AreBytes(bytes) && |bytes| == ByteCount(|bits|) &&
    forall i :: 0 <= i < 8 * |bytes| ==> (ByteBit(bytes, i) <==> i < |bits| && bits[i])
  }

  /** Each vector has one packed form. */
  lemma PackedFormIsUnique(x: seq<nat>, y: seq<nat>, bits: seq<bool>)
    requires Packs(x, bits) && Packs(y, bits)
    ensures x == y
  {
    forall k | 0 <= k < |x|
      ensures x[k] == y[k]
    {
      forall b | 0 <= b < 8
        ensures Bit(x[k], b) == Bit(y[k], b)
      {
        var i := 8 * k + (7 - b);
        assert i / 8 == k && i % 8 == 7 - b;
        assert ByteBit(x, i) == ByteBit(y, i);
      }
      SameBitsSameWord(x[k], y[k], 8);
    }
  }

  /** Each packed form of a given length has one vector. */
  lemma PackedBitsAreUnique(bytes: seq<nat>, a: seq<bool>, b: seq<bool>)
    requires Packs(bytes, a) && Packs(bytes, b) && |a| == |b|
    ensures a == b
  {
    forall i | 0 <= i < |a|
      ensures a[i] == b[i]
    {
      assert ByteBit(bytes, i) <==> a[i];
      assert ByteBit(bytes, i) <==> b[i];
    }
  }

  function BinaryDigit(bits: seq<bool>, i: nat): nat {
    if i < |bits| && bits[i] then 1 else 0
  }

  /** The bits from `i` on, `n` of them, read as a binary number. */
  function BinaryNumber(bits: seq<bool>, i: nat, n: nat): nat {
    if n == 0 then 0 else 2 * BinaryNumber(bits, i, n - 1) + BinaryDigit(bits, i + n - 1)
  }

  lemma {:induction false} NumeralOf(w: nat, bits: seq<bool>, i: nat, n: nat)
    requires w < Pow2(n) && forall b :: 0 <= b < n ==> (Bit(w, b) <==> BinaryDigit(bits, i + n - 1 - b) == 1)
    ensures w == BinaryNumber(bits, i, n)
  {
    if n > 0 {
      assert Bit(w, 0) <==> BinaryDigit(bits, i + n - 1) == 1;
      forall b | 0 <= b < n - 1
        ensures Bit(w / 2, b) <==> BinaryDigit(bits, i + (n - 1) - 1 - b) == 1
      {
        assert Bit(w, b + 1) <==> BinaryDigit(bits, i + n - 1 - (b + 1)) == 1;
      }
      NumeralOf(w / 2, bits, i, n - 1);
    }
  }

  lemma PackedBit(bytes: seq<nat>, bits: seq<bool>, k: nat, b: nat)
    requires Packs(bytes, bits) && k < |bytes| && b < 8
    ensures Bit(bytes[k], b) <==> BinaryDigit(bits, 8 * k + 7 - b) == 1
  {
    var i := 8 * k + (7 - b);
    assert i / 8 == k && i % 8 == 7 - b;
    assert ByteBit(bytes, i) <==> i < |bits| && bits[i];
  }

  /** A packed byte is eight bits read as a binary number, the first bit the highest; bits past the end are 0. */
  lemma PackedByteIs(bytes: seq<nat>, bits: seq<bool>, k: nat)
    requires Packs(bytes, bits) && k < |bytes|
    ensures bytes[k] == BinaryNumber(bits, 8 * k, 8)
  {
    forall b | 0 <= b < 8
      ensures Bit(bytes[k], b) <==> BinaryDigit(bits, 8 * k + 8 - 1 - b) == 1
    {
      PackedBit(bytes, bits, k, b);
    }
    NumeralOf(bytes[k], bits, 8 * k, 8);
  }

  lemma SetByteBit(bytes: seq<nat>, i: nat)
    requires AreBytes(bytes) && i / 8 < |bytes|
    ensures var after := bytes[i / 8 := Or(bytes[i / 8], Pow2(7 - i % 8))];
            AreBytes(after) && forall j :: 0 <= j < 8 * |bytes| ==> ByteBit(after, j) == (j == i || ByteBit(bytes, j))
  {
    var was, mask := bytes[i / 8], Pow2(7 - i % 8);
    var after := bytes[i / 8 := Or(was, mask)];
    forall b | b >= 8
      ensures !Bit(Or(was, mask), b)
    {
      BitOfOr(was, mask, b);
      HighBitsClear(was, 8, b);
      BitOfPow2(7 - i % 8, b);
    }
    FitsByBits(Or(was, mask), 8);
    forall j | 0 <= j < 8 * |bytes|
      ensures ByteBit(after, j) == (j == i || ByteBit(bytes, j))
    {
      BitOfOr(was, mask, 7 - j % 8);
      BitOfPow2(7 - i % 8, 7 - j % 8);
    }
  }

  /** The first `n` bits are packed, and nothing else. */
  ghost predicate PackedUpTo(bytes: seq<nat>, bits: seq<bool>, n: nat) {
    AreBytes(bytes) && |bytes| == ByteCount(|bits|) && n <= |bits| &&
    forall j :: 0 <= j < 8 * |bytes| ==> (ByteBit(bytes, j) <==> j < n && bits[j])
  }

  lemma NothingPacked(bytes: seq<nat>, bits: seq<bool>)
    requires |bytes| == ByteCount(|bits|) && forall k :: 0 <= k < |bytes| ==> bytes[k] == 0
    ensures PackedUpTo(bytes, bits, 0)
  {
    Pow2Positive(8);
    forall j | 0 <= j < 8 * |bytes|
      ensures !ByteBit(bytes, j)
    {
      BitOfZero(7 - j % 8);
    }
  }

  lemma PackNext(bytes: seq<nat>, bits: seq<bool>, i: nat)
    requires PackedUpTo(bytes, bits, i) && i < |bits| && bits[i]
    ensures i / 8 < |bytes| && PackedUpTo(bytes[i / 8 := Or(bytes[i / 8], Pow2(7 - i % 8))], bits, i + 1)
  {
    SetByteBit(bytes, i);
  }

  lemma PackSkip(bytes: seq<nat>, bits: seq<bool>, i: nat)
    requires PackedUpTo(bytes, bits, i) && i < |bits| && !bits[i]
    ensures PackedUpTo(bytes, bits, i + 1)
  {
  }

  /** Sets the bit of the packed bytes. */
  method PackBit(out: array<nat>, ghost bits: seq<bool>, i: nat)
    requires PackedUpTo(out[..], bits, i) && i < |bits| && bits[i]
    modifies out
    ensures PackedUpTo(out[..], bits, i + 1)
  {
    ghost var before := out[..];
    PackNext(before, bits, i);
    out[i / 8] := Or(out[i / 8], Pow2(7 - i % 8));
    assert out[..] == before[i / 8 := Or(before[i / 8], Pow2(7 - i % 8))];
  }

  // ---------------------------------------------------------------- the object

  class BitVec {
    const len: nat
    const words: array<nat>

    ghost predicate Valid()
      reads words
    {
      Holds(words[..], len)
    }

    ghost function Bits(): (s: seq<bool>)
      requires Valid()
      reads words
      ensures |s| == len
    {
      BitsOf(words[..], len)
    }

    constructor Zeros(len: nat)
      ensures Valid() && fresh(words) && this.len == len && forall i :: 0 <= i < len ==> !Bits()[i]
    {
      this.len := len;
      words := new nat[WordCount(len)](_ => 0);
      new;
      ZeroWords(words[..], len);
    }

    method Get(i: nat) returns (on: bool)
      requires Valid()
      ensures on <==> i < len && Bits()[i]
    {
      on := i < len && Bit(words[i / 64], i % 64);
    }

    /** `set` refuses positions past the end. */
    method Set(i: nat, on: bool)
      requires Valid() && i < len
      modifies words
      ensures Valid() && Bits() == old(Bits())[i := on]
    {
      SetKeeps(words[..], len, i, on);
      ghost var after := words[..][i / 64 := WithBit(words[i / 64], i % 64, on)];
      var mask := Pow2(i % 64);
      if on {
        words[i / 64] := Or(words[i / 64], mask);
      } else {
        words[i / 64] := And(words[i / 64], Not(mask, 64));
      }
      assert words[..] == after;
    }

    static method FromBitString(s: string) returns (r: Result<BitVec>)
      ensures r.Ok? <==> forall i :: 0 <= i < |s| ==> s[i] in "01"
      ensures r.Ok? ==> fresh(r.value) && fresh(r.value.words) && r.value.Valid() && r.value.len == |s|
      ensures r.Ok? ==> forall i :: 0 <= i < |s| ==> (r.value.Bits()[i] <==> s[i] == '1')
    {
      var bv := new BitVec.Zeros(|s|);
      for i := 0 to |s|
        invariant bv.Valid() && forall j :: 0 <= j < i ==> s[j] in "01"
        invariant forall j :: 0 <= j < |s| ==> (bv.Bits()[j] <==> j < i && s[j] == '1')
      {
        if s[i] == '1' {
          bv.Set(i, true);
        } else if s[i] != '0' {
          return Err("a bit string may only contain '0' and '1'");
        }
      }
      return Ok(bv);
    }

    method ToBitString() returns (s: string)
      requires Valid()
      ensures |s| == len && forall i :: 0 <= i < len ==> s[i] == if Bits()[i] then '1' else '0'
    {
      s := "";
      for i := 0 to len
        invariant |s| == i && forall j :: 0 <= j < i ==> s[j] == if Bits()[j] then '1' else '0'
      {
        var on := Get(i);
        s := s + [if on then '1' else '0'];
      }
    }

    /** `from_bytes` accepts exactly the packed forms of `len` bits. */
    static method FromBytes(bytes: seq<nat>, len: nat) returns (r: Result<BitVec>)
      requires AreBytes(bytes)
      ensures r.Ok? <==> |bytes| == ByteCount(len) && forall i :: len <= i < 8 * |bytes| ==> !ByteBit(bytes, i)
      ensures r.Ok? ==> fresh(r.value) && fresh(r.value.words) && r.value.Valid() && r.value.len == len
      ensures r.Ok? ==> Packs(bytes, r.value.Bits())
    {
      if |bytes| != ByteCount(len) {
        return Err("wrong number of bytes");
      }
      var bv := new BitVec.Zeros(len);
      for i := 0 to |bytes|
        invariant bv.Valid() && Unpacked(bytes, bv.Bits(), 8 * i)
      {
        var ok := bv.UnpackByte(bytes, i);
        if !ok {
          return Err("padding bit is set");
        }
      }
      UnpackedIsPacked(bytes, bv.Bits());
      return Ok(bv);
    }

    /** The inner loop over one byte. */
    method UnpackByte(bytes: seq<nat>, i: nat) returns (ok: bool)
      requires Valid() && i < |bytes| && Unpacked(bytes, Bits(), 8 * i)
      modifies words
      ensures Valid()
      ensures ok ==> Unpacked(bytes, Bits(), 8 * (i + 1))
      ensures !ok ==> exists j :: len <= j < 8 * |bytes| && ByteBit(bytes, j)
    {
      for b := 0 to 8
        invariant Valid() && Unpacked(bytes, Bits(), 8 * i + b)
      {
        ok := UnpackBit(bytes, i, b);
        if !ok {
          return;
        }
      }
      return true;
    }

    method UnpackBit(bytes: seq<nat>, i: nat, b: nat) returns (ok: bool)
      requires Valid() && i < |bytes| && b < 8 && Unpacked(bytes, Bits(), 8 * i + b)
      modifies words
      ensures Valid()
      ensures ok ==> Unpacked(bytes, Bits(), 8 * i + b + 1)
      ensures !ok ==> len <= 8 * i + b && ByteBit(bytes, 8 * i + b)
    {
      var bit := i * 8 + b;
      assert bit / 8 == i && bit % 8 == b;
      if Bit(bytes[i], 7 - b) {
        if bit >= len {
          return false;
        }
        UnpackedNext(bytes, Bits(), bit);
        Set(bit, true);
      } else {
        UnpackedSkip(bytes, Bits(), bit);
      }
      return true;
    }

    /** `to_bytes` gives the packed form. */
    method ToBytes() returns (out: array<nat>)
      requires Valid()
      ensures fresh(out) && Packs(out[..], Bits())
    {
      ghost var bits := Bits();
      out := new nat[ByteCount(len)](_ => 0);
      NothingPacked(out[..], bits);
      for i := 0 to len
        invariant Bits() == bits && PackedUpTo(out[..], bits, i)
      {
        var on := Get(i);
        if on {
          PackBit(out, bits, i);
        } else {
          PackSkip(out[..], bits, i);
        }
      }
    }

    method CountOnes() returns (n: nat)
      requires Valid()
      ensures n == |Members(Bits())|
    {
      n := 0;
      for k := 0 to words.Length
        invariant n == SumOnes(words[..], k)
      {
        n := n + Words.CountOnes(words[k]);
      }
      CountIsCardinality(words[..], len);
    }

    method AndOr(other: BitVec) returns (both: nat, either: nat)
      requires Valid() && other.Valid() && len == other.len
      ensures both == |Members(Bits()) * Members(other.Bits())|
      ensures either == |Members(Bits()) + Members(other.Bits())|
    {
      both, either := 0, 0;
      ghost var x, y := words[..], other.words[..];
      for k := 0 to words.Length
        invariant both == SumOnes(Zipped(AndGate, x, y), k) && either == SumOnes(Zipped(OrGate, x, y), k)
      {
        both := both + Words.CountOnes(And(words[k], other.words[k]));
        either := either + Words.CountOnes(Or(words[k], other.words[k]));
      }
      ZippedCount(AndGate, x, y, len);
      ZippedCount(OrGate, x, y, len);
    }

    /** `tanimoto`. */
    method TanimotoWith(other: BitVec) returns (r: Result<real>)
      requires Valid() && other.Valid()
      ensures r.Ok? <==> len == other.len
      ensures r.Ok? ==> r.value == Similarity(Members(Bits()), Members(other.Bits()))
    {
      if len != other.len {
        return Err("TANIMOTO: BitVector lengths differ");
      }
      var both, either := AndOr(other);
      r := Ok(if either == 0 then 1.0 else both as real / either as real);
    }

    /** `hamming`. */
    method HammingTo(other: BitVec) returns (r: Result<nat>)
      requires Valid() && other.Valid()
      ensures r.Ok? <==> len == other.len
      ensures r.Ok? ==> r.value == Distance(Members(Bits()), Members(other.Bits()))
    {
      if len != other.len {
        return Err("HAMMING: BitVector lengths differ");
      }
      var n := 0;
      ghost var x, y := words[..], other.words[..];
      for k := 0 to words.Length
        invariant n == SumOnes(Zipped(XorGate, x, y), k)
      {
        n := n + Words.CountOnes(Xor(words[k], other.words[k]));
      }
      ZippedCount(XorGate, x, y, len);
      r := Ok(n);
    }

    /** `dot_dense`: the sum of the vector over the set bits. */
    method DotDense(v: seq<real>) returns (r: Result<real>)
      requires Valid()
      ensures r.Ok? <==> |v| == len
      ensures r.Ok? ==> r.value == BitSum(Bits(), v, len)
    {
      if |v| != len {
        return Err("DOT: lengths differ");
      }
      var sum := 0.0;
      for w := 0 to words.Length
        invariant sum == SumUpTo(words[..], v, w)
      {
        forall b | 0 <= b < 64 && Bit(words[w], b)
          ensures 64 * w + b < |v|
        {
          assert (64 * w + b) / 64 == w && (64 * w + b) % 64 == b;
          assert BitAt(words[..], 64 * w + b);
        }
        sum := SumSetBits(words[w], v, 64 * w, sum);
      }
      FlatWords(words[..], v, words.Length);
      FlatIsBitSum(words[..], v, len, 64 * words.Length);
      r := Ok(sum);
    }
  }

  lemma UnpackedNext(bytes: seq<nat>, bits: seq<bool>, n: nat)
    requires Unpacked(bytes, bits, n) && n < |bits| && n / 8 < |bytes| && ByteBit(bytes, n)
    ensures Unpacked(bytes, bits[n := true], n + 1)
  {
  }

  lemma UnpackedSkip(bytes: seq<nat>, bits: seq<bool>, n: nat)
    requires Unpacked(bytes, bits, n) && n / 8 < |bytes| && !ByteBit(bytes, n)
    ensures Unpacked(bytes, bits, n + 1)
  {
  }

  lemma UnpackedIsPacked(bytes: seq<nat>, bits: seq<bool>)
    requires AreBytes(bytes) && |bytes| == ByteCount(|bits|) && Unpacked(bytes, bits, 8 * |bytes|)
    ensures Packs(bytes, bits)
  {
    forall i | 0 <= i < 8 * |bytes|
      ensures ByteBit(bytes, i) <==> i < |bits| && bits[i]
    {
      if i < |bits| {
        assert bits[i] <==> ByteBit(bytes, i);
      }
    }
  }

  /** The first `n` packed bits have been set, none of them past the end. */
  ghost predicate Unpacked(bytes: seq<nat>, bits: seq<bool>, n: nat) {
    n <= 8 * |bytes| && (forall i :: |bits| <= i < n ==> !ByteBit(bytes, i)) &&
    forall i :: 0 <= i < |bits| ==> (bits[i] <==> i < n && i / 8 < |bytes| && ByteBit(bytes, i))
  }
}
