/**
  Machine words and the bit operations the library performs on them.

  A word is a natural number below 2^WORD_BITS, and every C operator is given
  its arithmetic meaning on such numbers. Shift amounts are preconditions: C11
  section 6.5.7 leaves a shift by the operand width or more undefined, so every
  caller has to prove that its shift is in range.
 */
module Bits {

  /** BITS_PER_WORD on a 64-bit target, and BITS_PER_ENTROPY_WORD everywhere. */
  const WORD_BITS: nat := 64

  const WORD_LIMIT: nat := 0x1_0000_0000_0000_0000

  type Word = w: nat | w < WORD_LIMIT

  const WORD_MAX: Word := WORD_LIMIT - 1

  // ----- Meaning of bits -----

  /** The `i`-th bit of `w`, counting from the least significant one. */
  predicate Bit(w: nat, i: nat) {
    if i == 0 then w % 2 == 1 else Bit(w / 2, i - 1)
  }

  /** `w * 2^k` */
  function Shl(w: nat, k: nat): nat {
    if k == 0 then w else 2 * Shl(w, k - 1)
  }

  /** `w / 2^k` */
  function Shr(w: nat, k: nat): nat {
    if k == 0 then w else Shr(w / 2, k - 1)
  }

  /** `w mod 2^n` */
  function Low(w: nat, n: nat): nat {
    if n == 0 then 0 else w % 2 + 2 * Low(w / 2, n - 1)
  }

  function And(a: nat, b: nat): nat {
    if a == 0 || b == 0 then 0 else (a % 2) * (b % 2) + 2 * And(a / 2, b / 2)
  }

  function Or(a: nat, b: nat): nat {
    if a == 0 then b
    else if b == 0 then a
    else (if a % 2 + b % 2 == 0 then 0 else 1) + 2 * Or(a / 2, b / 2)
  }

  /** Complement of the `n` low-order bits; the others become zero. */
  function Not(a: nat, n: nat): nat {
    if n == 0 then 0 else (1 - a % 2) + 2 * Not(a / 2, n - 1)
  }

  /** 2^n */
  function Pow2(n: nat): (r: nat)
    ensures r >= 1
  {
    ShlPositive(1, n);
    Shl(1, n)
  }

  lemma {:induction false} ShlPositive(w: nat, k: nat)
    requires w >= 1
    ensures Shl(w, k) >= 1
  {
    if k > 0 { ShlPositive(w, k - 1); }
  }

  lemma HalfOf(low: nat, rest: nat)
    requires low < 2
    ensures (low + 2 * rest) % 2 == low && (low + 2 * rest) / 2 == rest
  {
  }

  lemma {:induction false} BitShl(w: nat, k: nat, i: nat)
    ensures Bit(Shl(w, k), i) <==> i >= k && Bit(w, i - k)
  {
    if k > 0 && i > 0 {
      BitShl(w, k - 1, i - 1);
    }
  }

  lemma {:induction false} BitShr(w: nat, k: nat, i: nat)
    ensures Bit(Shr(w, k), i) <==> Bit(w, i + k)
  {
    if k > 0 {
      BitShr(w / 2, k - 1, i);
    }
  }

  lemma {:induction false} BitLow(w: nat, n: nat, i: nat)
    ensures Bit(Low(w, n), i) <==> i < n && Bit(w, i)
  {
    if n == 0 {
      BitZero(i);
    } else {
      HalfOf(w % 2, Low(w / 2, n - 1));
      if i > 0 { BitLow(w / 2, n - 1, i - 1); }
    }
  }

  lemma {:induction false} BitZero(i: nat)
    ensures !Bit(0, i)
  {
    if i > 0 { BitZero(i - 1); }
  }

  lemma {:induction false} BitAnd(a: nat, b: nat, i: nat)
    ensures Bit(And(a, b), i) <==> Bit(a, i) && Bit(b, i)
  {
    if a == 0 || b == 0 {
      BitZero(i);
    } else {
      var low, rest := (a % 2) * (b % 2), And(a / 2, b / 2);
      HalfOf(low, rest);
      if i > 0 { BitAnd(a / 2, b / 2, i - 1); }
    }
  }

  lemma {:induction false} BitOr(a: nat, b: nat, i: nat)
    ensures Bit(Or(a, b), i) <==> Bit(a, i) || Bit(b, i)
  {
    if a == 0 || b == 0 {
      BitZero(i);
    } else {
      var low, rest := if a % 2 + b % 2 == 0 then 0 else 1, Or(a / 2, b / 2);
      HalfOf(low, rest);
      if i > 0 { BitOr(a / 2, b / 2, i - 1); }
    }
  }

  lemma {:induction false} BitNot(a: nat, n: nat, i: nat)
    ensures Bit(Not(a, n), i) <==> i < n && !Bit(a, i)
  {
    if n == 0 {
      BitZero(i);
    } else {
      HalfOf(1 - a % 2, Not(a / 2, n - 1));
      if i > 0 { BitNot(a / 2, n - 1, i - 1); }
    }
  }

  /** `2^k - 1` has exactly the bits below `k`. */
  lemma {:induction false} BitMask(k: nat, i: nat)
    ensures Bit(Pow2(k) - 1, i) <==> i < k
  {
    if k == 0 {
      BitZero(i);
    } else if i > 0 {
      BitMask(k - 1, i - 1);
    }
  }

  lemma BitOne(i: nat)
    ensures Bit(1, i) <==> i == 0
  {
    if i > 0 { BitZero(i - 1); }
  }

  /** Numbers of `n` bits are determined by those bits. */
  lemma {:induction false} SameBits(a: nat, b: nat, n: nat)
    requires a < Pow2(n) && b < Pow2(n)
    requires forall i: nat :: i < n ==> Bit(a, i) == Bit(b, i)
    ensures a == b
  {
    if n > 0 {
      assert Bit(a, 0) == Bit(b, 0);
      forall i: nat | i < n - 1
        ensures Bit(a / 2, i) == Bit(b / 2, i)
      {
        assert Bit(a, i + 1) == Bit(b, i + 1);
      }
      SameBits(a / 2, b / 2, n - 1);
    }
  }

  /** A number whose bits at and above `n` are clear is below `2^n`. */
  lemma {:induction false} HighBitsClear(a: nat, n: nat)
    requires forall i: nat :: i >= n ==> !Bit(a, i)
    ensures a < Pow2(n)
    decreases n, a
  {
    if n > 0 {
      forall i: nat | i >= n - 1
        ensures !Bit(a / 2, i)
      {
        assert !Bit(a, i + 1);
      }
      HighBitsClear(a / 2, n - 1);
    } else if a > 0 {
      assert !Bit(a, 0);
      forall i: nat
        ensures !Bit(a / 2, i)
      {
        assert !Bit(a, i + 1);
      }
      HighBitsClear(a / 2, 0);
    }
  }

  lemma {:induction false} BitAbove(a: nat, n: nat, i: nat)
    requires a < Pow2(n) && i >= n
    ensures !Bit(a, i)
  {
    if n == 0 {
      BitZero(i);
    } else {
      BitAbove(a / 2, n - 1, i - 1);
    }
  }

  /** A nonzero number has a set bit. */
  lemma {:induction false} SomeBit(a: nat, n: nat) returns (i: nat)
    requires 0 < a < Pow2(n)
    ensures i < n && Bit(a, i)
  {
    if a % 2 == 1 {
      i := 0;
    } else {
      i := SomeBit(a / 2, n - 1);
      i := i + 1;
    }
  }

  /** Placing `b` above the `k` bits of `a` keeps both readable. */
  lemma {:induction false} BitConcat(a: nat, b: nat, k: nat, i: nat)
    requires a < Pow2(k)
    ensures Bit(a + Shl(b, k), i) <==> if i < k then Bit(a, i) else Bit(b, i - k)
  {
    if k > 0 {
      var sum := a + Shl(b, k);
      assert sum == a % 2 + 2 * (a / 2 + Shl(b, k - 1));
      assert sum / 2 == a / 2 + Shl(b, k - 1);
      if i > 0 {
        BitConcat(a / 2, b, k - 1, i - 1);
      }
    }
  }

  lemma Pow2Word()
    ensures Pow2(32) == 0x1_0000_0000
    ensures Pow2(64) == WORD_LIMIT
  {
    assert Pow2(8) == 0x100;
    Pow2Add(8, 8);
    assert Pow2(16) == 0x1_0000;
    Pow2Add(16, 16);
    Pow2Add(32, 32);
  }

  lemma {:induction false} Pow2Add(m: nat, n: nat)
    ensures Pow2(m + n) == Pow2(m) * Pow2(n)
  {
    if n > 0 { Pow2Add(m, n - 1); }
  }

  lemma {:induction false} Pow2Monotone(m: nat, n: nat)
    requires m <= n
    ensures Pow2(m) <= Pow2(n)
  {
    if m < n { Pow2Monotone(m, n - 1); }
  }

  // ----- C operators on words -----

  lemma WordBound(w: nat)
    requires forall i: nat :: i >= WORD_BITS ==> !Bit(w, i)
    ensures w < WORD_LIMIT
  {
    HighBitsClear(w, WORD_BITS);
    Pow2Word();
  }

  /** `w << k` */
  function ShiftLeft(w: Word, k: nat): (r: Word)
    requires k < WORD_BITS
    ensures forall i: nat :: Bit(r, i) <==> k <= i < WORD_BITS && Bit(w, i - k)
  {
    var r := Low(Shl(w, k), WORD_BITS);
    assert forall i: nat :: Bit(r, i) <==> k <= i < WORD_BITS && Bit(w, i - k) by {
      forall i: nat
        ensures Bit(r, i) <==> k <= i < WORD_BITS && Bit(w, i - k)
      {
        BitLow(Shl(w, k), WORD_BITS, i);
        BitShl(w, k, i);
      }
    }
    WordBound(r);
    r
  }

  /** `w >> k` */
  function ShiftRight(w: Word, k: nat): (r: Word)
    requires k < WORD_BITS
    ensures forall i: nat :: Bit(r, i) <==> Bit(w, i + k)
  {
    var r := Shr(w, k);
    assert forall i: nat :: Bit(r, i) <==> Bit(w, i + k) by {
      forall i: nat
        ensures Bit(r, i) <==> Bit(w, i + k)
      {
        BitShr(w, k, i);
      }
    }
    WordBits(w);
    WordBound(r);
    r
  }

  lemma WordBits(w: Word)
    ensures forall i: nat :: i >= WORD_BITS ==> !Bit(w, i)
  {
    Pow2Word();
    forall i: nat | i >= WORD_BITS
      ensures !Bit(w, i)
    {
      BitAbove(w, WORD_BITS, i);
    }
  }

  /** `a & b` */
  function WordAnd(a: Word, b: Word): (r: Word)
    ensures forall i: nat :: Bit(r, i) <==> Bit(a, i) && Bit(b, i)
  {
    var r := And(a, b);
    assert forall i: nat :: Bit(r, i) <==> Bit(a, i) && Bit(b, i) by {
      forall i: nat
        ensures Bit(r, i) <==> Bit(a, i) && Bit(b, i)
      {
        BitAnd(a, b, i);
      }
    }
    WordBits(a);
    WordBound(r);
    r
  }

  /** `a | b` */
  function WordOr(a: Word, b: Word): (r: Word)
    ensures forall i: nat :: Bit(r, i) <==> Bit(a, i) || Bit(b, i)
  {
    var r := Or(a, b);
    assert forall i: nat :: Bit(r, i) <==> Bit(a, i) || Bit(b, i) by {
      forall i: nat
        ensures Bit(r, i) <==> Bit(a, i) || Bit(b, i)
      {
        BitOr(a, b, i);
      }
    }
    WordBits(a);
    WordBits(b);
    WordBound(r);
    r
  }

  /** `~a` */
  function WordNot(a: Word): (r: Word)
    ensures forall i: nat :: Bit(r, i) <==> i < WORD_BITS && !Bit(a, i)
  {
    var r := Not(a, WORD_BITS);
    assert forall i: nat :: Bit(r, i) <==> i < WORD_BITS && !Bit(a, i) by {
      forall i: nat
        ensures Bit(r, i) <==> i < WORD_BITS && !Bit(a, i)
      {
        BitNot(a, WORD_BITS, i);
      }
    }
    WordBound(r);
    r
  }

  /** `((word_t)1 << k) - 1`, the word in which exactly the bits below `k` are set. */
  function LowMask(k: nat): (r: Word)
    requires k < WORD_BITS
    ensures forall i: nat :: Bit(r, i) <==> i < k
  {
    assert ShiftLeft(1, k) == Pow2(k) by {
      ShiftedOne(k);
    }
    var r := ShiftLeft(1, k) - 1;
    assert forall i: nat :: Bit(r, i) <==> i < k by {
      forall i: nat
        ensures Bit(r, i) <==> i < k
      {
        BitMask(k, i);
      }
    }
    r
  }

  lemma ShiftedOne(k: nat)
    requires k < WORD_BITS
    ensures ShiftLeft(1, k) == Pow2(k)
  {
    Pow2Word();
    Pow2Monotone(k + 1, WORD_BITS);
    forall i: nat | i < WORD_BITS
      ensures Bit(ShiftLeft(1, k), i) == Bit(Pow2(k), i)
    {
      BitShl(1, k, i);
    }
    SameBits(ShiftLeft(1, k), Pow2(k), WORD_BITS);
  }

  /** Words with the same bits are equal. */
  lemma WordExt(a: Word, b: Word)
    requires forall i: nat :: i < WORD_BITS ==> Bit(a, i) == Bit(b, i)
    ensures a == b
  {
    Pow2Word();
    SameBits(a, b, WORD_BITS);
  }

  /** A nonzero word has a set bit. */
  lemma SomeWordBit(w: Word) returns (i: nat)
    requires w != 0
    ensures i < WORD_BITS && Bit(w, i)
  {
    Pow2Word();
    i := SomeBit(w, WORD_BITS);
  }

  /** bit_broadcast() */
  function Broadcast(value: bool): (r: Word)
    ensures forall i: nat :: Bit(r, i) <==> value && i < WORD_BITS
  {
    assert forall i: nat :: Bit(WORD_MAX, i) <==> i < WORD_BITS by {
      Pow2Word();
      forall i: nat
        ensures Bit(WORD_MAX, i) <==> i < WORD_BITS
      {
        BitMask(WORD_BITS, i);
      }
    }
    assert forall i: nat :: !Bit(0, i) by {
      forall i: nat
        ensures !Bit(0, i)
      {
        BitZero(i);
      }
    }
    if value then WORD_MAX else 0
  }

  // ----- Counting and searching within one word -----

  /** How many of the bits of `w` below `n` are set. */
  function Ones(w: nat, n: nat): nat {
    if n == 0 then 0 else Ones(w, n - 1) + (if Bit(w, n - 1) then 1 else 0)
  }

  lemma {:induction false} OnesHalf(w: nat, n: nat)
    requires n > 0
    ensures Ones(w, n) == w % 2 + Ones(w / 2, n - 1)
  {
    if n > 1 { OnesHalf(w, n - 1); }
  }

  /** population_count(), the portable loop. */
  method PopulationCount(word: Word) returns (population: nat)
    ensures population == Ones(word, WORD_BITS)
  {
    population := 0;
    var rest: Word := word;
    for bit := 0 to WORD_BITS
      invariant population + Ones(rest, WORD_BITS - bit) == Ones(word, WORD_BITS)
    {
      OnesHalf(rest, WORD_BITS - bit);
      population := population + rest % 2;
      rest := rest / 2;
    }
  }

  /** count_trailing_zeros(), the portable loop: the index of the lowest set bit. */
  method CountTrailingZeros(word: Word) returns (zeros: nat)
    requires word != 0
    ensures zeros < WORD_BITS && Bit(word, zeros)
    ensures forall i: nat :: i < zeros ==> !Bit(word, i)
  {
    var rest: Word := word;
    for bit := 0 to WORD_BITS
      invariant rest == Shr(word, bit)
      invariant forall i: nat :: i < bit ==> !Bit(word, i)
    {
      BitShr(word, bit, 0);
      if rest % 2 == 1 {
        return bit;
      }
      ShrStep(word, bit);
      rest := rest / 2;
    }
    var witnessBit := SomeWordBit(word);
    assert false;
  }

  lemma {:induction false} ShrStep(w: nat, k: nat)
    ensures Shr(w, k + 1) == Shr(w, k) / 2
  {
    if k > 0 { ShrStep(w / 2, k - 1); }
  }

  /** DIV_CEIL() */
  function DivCeil(num: nat, denom: nat): (r: nat)
    requires denom > 0
    ensures num <= r * denom < num + denom
  {
    num / denom + (if num % denom != 0 then 1 else 0)
  }

  lemma {:induction false} OnesAboveGap(m: nat, a: nat, z: nat)
    requires forall i: nat :: a <= i < z ==> !Bit(m, i)
    requires a <= z
    ensures Ones(m, z) == Ones(m, a)
  {
    if a < z { OnesAboveGap(m, a, z - 1); }
  }
}
