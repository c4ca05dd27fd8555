/**
 Machine words as natural numbers: the bit operations of `src/core/bitvec.rs`, and the loop that visits the
 set bits of a word by clearing the lowest one.

 A word is read from its lowest bit up: its parity is bit 0, and half of it holds the rest. Each
 operation recurses along that.
 */
module Words {
  function Pow2(n: nat): nat {
    if n == 0 then 1 else 2 * Pow2(n - 1)
  }

  lemma {:induction false} Pow2Positive(n: nat)
    ensures Pow2(n) > 0
  {
    if n > 0 {
      Pow2Positive(n - 1);
    }
  }

  function Bit(w: nat, i: nat): bool {
    if i == 0 then w % 2 == 1 else Bit(w / 2, i - 1)
  }

  function Join(low: bool, high: nat): nat {
    2 * high + (if low then 1 else 0)
  }

  function And(a: nat, b: nat): nat {
    if a == 0 || b == 0 then 0 else Join(a % 2 == 1 && b % 2 == 1, And(a / 2, b / 2))
  }

  function Or(a: nat, b: nat): nat
    decreases a + b
  {
    if a == 0 && b == 0 then 0 else Join(a % 2 == 1 || b % 2 == 1, Or(a / 2, b / 2))
  }

  function Xor(a: nat, b: nat): nat
    decreases a + b
  {
    if a == 0 && b == 0 then 0 else Join((a % 2 == 1) != (b % 2 == 1), Xor(a / 2, b / 2))
  }

  /** The complement within `n` bits. */
  function Not(a: nat, n: nat): nat {
    if n == 0 then 0 else Join(a % 2 == 0, Not(a / 2, n - 1))
  }

  function CountOnes(w: nat): nat {
    if w == 0 then 0 else (if w % 2 == 1 then 1 else 0) + CountOnes(w / 2)
  }

  function TrailingZeros(w: nat): nat
    requires w > 0
  {
    if w % 2 == 1 then 0 else 1 + TrailingZeros(w / 2)
  }

  // ---------------------------------------------------------------- single bits

  lemma {:induction false} BitOfZero(i: nat)
    ensures !Bit(0, i)
  {
    if i > 0 {
      BitOfZero(i - 1);
    }
  }

  lemma JoinParts(low: bool, high: nat)
    ensures Join(low, high) / 2 == high && (Join(low, high) % 2 == 1 <==> low)
  {
  }

  lemma {:induction false} BitOfAnd(a: nat, b: nat, i: nat)
    ensures Bit(And(a, b), i) <==> Bit(a, i) && Bit(b, i)
    decreases i
  {
    if a == 0 || b == 0 {
      BitOfZero(i);
    } else {
      JoinParts(a % 2 == 1 && b % 2 == 1, And(a / 2, b / 2));
      if i > 0 {
        BitOfAnd(a / 2, b / 2, i - 1);
      }
    }
  }

  lemma {:induction false} BitOfOr(a: nat, b: nat, i: nat)
    ensures Bit(Or(a, b), i) <==> Bit(a, i) || Bit(b, i)
    decreases i
  {
    if a == 0 && b == 0 {
      BitOfZero(i);
    } else {
      JoinParts(a % 2 == 1 || b % 2 == 1, Or(a / 2, b / 2));
      if i > 0 {
        BitOfOr(a / 2, b / 2, i - 1);
      }
    }
  }

  lemma {:induction false} BitOfXor(a: nat, b: nat, i: nat)
    ensures Bit(Xor(a, b), i) <==> Bit(a, i) != Bit(b, i)
    decreases i
  {
    if a == 0 && b == 0 {
      BitOfZero(i);
    } else {
      JoinParts((a % 2 == 1) != (b % 2 == 1), Xor(a / 2, b / 2));
      if i > 0 {
        BitOfXor(a / 2, b / 2, i - 1);
      }
    }
  }

  lemma {:induction false} BitOfNot(a: nat, n: nat, i: nat)
    ensures Bit(Not(a, n), i) <==> i < n && !Bit(a, i)
    decreases i
  {
    if n == 0 {
      BitOfZero(i);
    } else {
      JoinParts(a % 2 == 0, Not(a / 2, n - 1));
      if i > 0 {
        BitOfNot(a / 2, n - 1, i - 1);
      }
    }
  }

  lemma {:induction false} BitOfPow2(n: nat, i: nat)
    ensures Bit(Pow2(n), i) <==> i == n
    decreases i
  {
    if n == 0 {
      if i > 0 {
        BitOfZero(i - 1);
      }
    } else if i > 0 {
      BitOfPow2(n - 1, i - 1);
    }
  }

  /** Words are decided by their bits. */
  lemma {:induction false} SameBitsSameWord(a: nat, b: nat, n: nat)
    requires a < Pow2(n) && b < Pow2(n) && forall i :: 0 <= i < n ==> Bit(a, i) == Bit(b, i)
    ensures a == b
    decreases n
  {
    if n > 0 {
      forall i | 0 <= i < n - 1
        ensures Bit(a / 2, i) == Bit(b / 2, i)
      {
        assert Bit(a, i + 1) == Bit(b, i + 1);
      }
      SameBitsSameWord(a / 2, b / 2, n - 1);
      assert Bit(a, 0) == Bit(b, 0);
    }
  }

  /** A word fits in `n` bits when no bit from `n` on is set. */
  lemma {:induction false} HighBitsClear(w: nat, n: nat, i: nat)
    requires w < Pow2(n) && i >= n
    ensures !Bit(w, i)
    decreases i
  {
    if i > 0 {
      if n > 0 {
        HighBitsClear(w / 2, n - 1, i - 1);
      } else {
        BitOfZero(i);
      }
    }
  }

  lemma {:induction false} FitsByBits(w: nat, n: nat)
    requires forall i :: i >= n ==> !Bit(w, i)
    ensures w < Pow2(n)
    decreases n
  {
    if n == 0 {
      if w > 0 {
        HasBit(w);
      }
    } else {
      forall i | i >= n - 1
        ensures !Bit(w / 2, i)
      {
        assert !Bit(w, i + 1);
      }
      FitsByBits(w / 2, n - 1);
    }
  }

  lemma {:induction false} HasBit(w: nat)
    requires w > 0
    ensures Bit(w, TrailingZeros(w))
    ensures forall i :: 0 <= i < TrailingZeros(w) ==> !Bit(w, i)
  {
    if w % 2 == 0 {
      HasBit(w / 2);
      forall i | 0 <= i < TrailingZeros(w)
        ensures !Bit(w, i)
      {
        if i > 0 {
          assert !Bit(w / 2, i - 1);
        }
      }
    }
  }

  // ---------------------------------------------------------------- clearing the lowest bit

  lemma {:induction false} AndSelf(w: nat)
    ensures And(w, w) == w
  {
    if w > 0 {
      AndSelf(w / 2);
    }
  }

  /** `w & (w - 1)` drops exactly the lowest set bit. */
  lemma {:induction false} ClearLowest(w: nat, i: nat)
    requires w > 0
    ensures And(w, w - 1) < w
    ensures Bit(And(w, w - 1), i) <==> Bit(w, i) && i != TrailingZeros(w)
    decreases w
  {
    if w % 2 == 1 {
      AndSelf(w / 2);
      assert And(w, w - 1) == w - 1;
      if i > 0 {
        assert (w - 1) / 2 == w / 2;
      }
    } else {
      var h := w / 2;
      ClearLowest(h, if i > 0 then i - 1 else 0);
      assert (w - 1) / 2 == h - 1;
      assert And(w, w - 1) == 2 * And(h, h - 1);
    }
  }

  // ---------------------------------------------------------------- counting

  /** The positions of the set bits among the first `n`, counted from `base`. */
  ghost function Positions(w: nat, base: nat, n: nat): set<nat> {
    set j | 0 <= j < n && Bit(w, j) :: base + j
  }

  ghost function CountBits(w: nat, n: nat): nat {
    if n == 0 then 0 else CountBits(w, n - 1) + (if Bit(w, n - 1) then 1 else 0)
  }

  lemma {:induction false} PositionsCount(w: nat, base: nat, n: nat)
    ensures |Positions(w, base, n)| == CountBits(w, n)
  {
    if n == 0 {
      assert Positions(w, base, 0) == {};
    } else {
      PositionsCount(w, base, n - 1);
      if Bit(w, n - 1) {
        assert Positions(w, base, n) == Positions(w, base, n - 1) + {base + (n - 1)};
      } else {
        assert Positions(w, base, n) == Positions(w, base, n - 1);
      }
    }
  }

  lemma {:induction false} CountBitsShift(w: nat, n: nat)
    requires n > 0
    ensures CountBits(w, n) == (if w % 2 == 1 then 1 else 0) + CountBits(w / 2, n - 1)
  {
    if n == 1 {
      assert CountBits(w, 0) == 0 && CountBits(w / 2, 0) == 0;
    } else {
      CountBitsShift(w, n - 1);
    }
  }

  lemma {:induction false} CountIsCountBits(w: nat, n: nat)
    requires w < Pow2(n)
    ensures CountOnes(w) == CountBits(w, n)
    decreases n
  {
    if n > 0 {
      CountIsCountBits(w / 2, n - 1);
      CountBitsShift(w, n);
    }
  }

  /** `count_ones` counts the positions of the set bits. */
  lemma CountOnesIsCardinality(w: nat, base: nat, n: nat)
    requires w < Pow2(n)
    ensures CountOnes(w) == |Positions(w, base, n)|
  {
    CountIsCountBits(w, n);
    PositionsCount(w, base, n);
  }
}
