/** The word layer of the bignum engine: 32-bit unsigned limbs and the
    double-width primitives of bigmath.cpp. The 64-bit DoubleWordType
    accumulator is an unbounded integer here; every truncation the C++ code
    performs with a cast or a mask is written out as a remainder. */
module Words {
  import opened Numbers

  const BITS: nat := 32
  const BASE: nat := 0x1_0000_0000
  const WORD_MAX: nat := 0xFFFF_FFFF

  /** WordType: a 32-bit unsigned limb. */
  type Word = x: int | 0 <= x < 0x1_0000_0000
  /** An 8-bit byte, 0..255 whatever the platform's char signedness. */
  type Byte = x: int | 0 <= x < 0x100

  /** 1 << n */
  function Pow2(n: nat): (r: nat)
    ensures r >= 1
  {
    PowPositive(2, n);
    Pow(2, n)
  }

  lemma Pow2Positive(n: nat)
    ensures Pow2(n) >= 1
  {
    PowPositive(2, n);
  }

  lemma Pow2Word()
    ensures Pow2(BITS) == BASE
    ensures Pow2(BITS - 1) == 0x8000_0000
  {
    assert Pow(2, 16) == 0x1_0000;
    assert Pow(2, 15) == 0x8000;
    PowAdd(2, 16, 16);
    PowAdd(2, 16, 15);
  }

  lemma Pow2Bits()
    ensures Pow2(BITS) == BASE
  {
    Pow2Word();
  }

  lemma Pow2Split(s: nat)
    requires s <= BITS
    ensures Pow2(s) * Pow2(BITS - s) == BASE
  {
    PowAdd(2, s, BITS - s);
    Pow2Word();
  }

  function Bit(b: bool): nat
  {
    if b then 1 else 0
  }

  /** addWithCarry: a + b + carryIn split into a word and a carry-out. */
  function AddWithCarry(a: Word, b: Word, carryIn: bool): (r: (Word, bool))
    ensures a + b + Bit(carryIn) == r.0 + Bit(r.1) * BASE
  {
    var v := a + b + Bit(carryIn);
    (v % BASE, v > WORD_MAX)
  }

  /** subtractWithBorrow: the accumulator is preloaded with 2^32 (a | 2^32,
      which is a + 2^32 because a is a word), so the borrow-out is read off
      as "bit 32 was consumed". */
  function SubtractWithBorrow(a: Word, b: Word, borrowIn: bool): (r: (Word, bool))
    ensures a - b - Bit(borrowIn) == r.0 - Bit(r.1) * BASE
  {
    Pow2Word();
    OrDisjoint(1, a, BITS);
    var v := Or(BASE, a) - b - Bit(borrowIn);
    (v % BASE, v <= WORD_MAX)
  }

  /** A 64-bit accumulator split into its high and low words. */
  lemma SplitDoubleWord(v: nat)
    requires v < BASE * BASE
    ensures v / BASE < BASE && v == (v / BASE) * BASE + v % BASE
  {
  }

  lemma ProductBound(a: Word, b: Word, t1: Word, t2: Word)
    ensures a * b + t1 + t2 < BASE * BASE
  {
    MulBound(a, b, BASE, BASE);
  }

  /** multiplyDoubleWord: the 64-bit product split into high and low words. */
  function MultiplyDoubleWord(a: Word, b: Word): (r: (Word, Word))
    ensures a * b == r.0 * BASE + r.1
  {
    ProductBound(a, b, 0, 0);
    var v := a * b;
    SplitDoubleWord(v);
    (v / BASE, v % BASE)
  }

  /** multiplyDoubleWordAndAdd: a * b + term never overflows 64 bits. */
  function MultiplyDoubleWordAndAdd(a: Word, b: Word, term: Word): (r: (Word, Word))
    ensures a * b + term == r.0 * BASE + r.1
  {
    ProductBound(a, b, term, 0);
    var v := a * b + term;
    SplitDoubleWord(v);
    (v / BASE, v % BASE)
  }

  /** multiplyDoubleWordAndAddTwo: a * b + term1 + term2 still fits 64 bits. */
  function MultiplyDoubleWordAndAddTwo(a: Word, b: Word, term1: Word, term2: Word): (r: (Word, Word))
    ensures a * b + term1 + term2 == r.0 * BASE + r.1
  {
    ProductBound(a, b, term1, term2);
    var v := a * b + term1 + term2;
    SplitDoubleWord(v);
    (v / BASE, v % BASE)
  }

  /** divideDoubleWord: the 64-bit dividend hi:lo divided by a word. The
      quotient is cast back to a word, so it is exact only when hi < divisor. */
  function DivideDoubleWord(hi: Word, lo: Word, divisor: Word): (r: (Word, Word))
    requires divisor != 0
    ensures r.1 < divisor
    ensures hi < divisor ==> r.0 * divisor + r.1 == hi * BASE + lo
  {
    var v := hi * BASE + lo;
    if hi < divisor then
      MulLeftMonotone(BASE, hi + 1, divisor);
      DivBound(v, divisor, BASE);
      (v / divisor, v % divisor)
    else
      ((v / divisor) % BASE, v % divisor)
  }

  /** lshiftDoubleWord: the high word of (hi:lo) << s in a 64-bit
      accumulator, s in 1..31: the low 32 - s bits of hi move up by s and
      the top s bits of lo fill the bottom; the rest of hi is shifted out. */
  function LshiftDoubleWord(hi: Word, lo: Word, s: nat): (r: Word)
    requires 0 < s < BITS
    ensures r + (hi / Pow2(BITS - s)) * BASE == hi * Pow2(s) + lo / Pow2(BITS - s)
  {
    Pow2Split(s);
    LshiftPack(hi, lo, Pow2(s), Pow2(BITS - s));
    (hi % Pow2(BITS - s)) * Pow2(s) + lo / Pow2(BITS - s)
  }

  /** The word that (hi:lo) << s leaves on top, with p = 2^s and q = 2^(32-s). */
  lemma LshiftPack(hi: Word, lo: Word, p: nat, q: nat)
    requires p >= 1 && q >= 1 && p * q == BASE
    ensures 0 <= (hi % q) * p + lo / q < BASE
    ensures (hi % q) * p + lo / q + (hi / q) * BASE == hi * p + lo / q
  {
    QuotientBelow(lo, q, p);
    PackBound(hi % q, lo / q, p, q);
    SplitScaled(hi, q, p);
  }

  /** rshiftDoubleWord: the low word of (hi:lo) >> s in a 64-bit
      accumulator, s in 1..31: the low s bits of hi move into the top of the
      word, above the top 32 - s bits of lo. */
  function RshiftDoubleWord(hi: Word, lo: Word, s: nat): (r: Word)
    requires 0 < s < BITS
    ensures r * Pow2(s) + lo % Pow2(s) == (hi % Pow2(s)) * BASE + lo
  {
    Pow2Split(s);
    RshiftPack(hi, lo, Pow2(s), Pow2(BITS - s));
    (hi % Pow2(s)) * Pow2(BITS - s) + lo / Pow2(s)
  }

  /** The word that (hi:lo) >> s leaves at the bottom, with p = 2^s and
      q = 2^(32-s). */
  lemma RshiftPack(hi: Word, lo: Word, p: nat, q: nat)
    requires p >= 1 && q >= 1 && p * q == BASE
    ensures 0 <= (hi % p) * q + lo / p < BASE
    ensures ((hi % p) * q + lo / p) * p + lo % p == (hi % p) * BASE + lo
  {
    QuotientBelow(lo, p, q);
    PackBound(hi % p, lo / p, q, p);
    var x := hi % p;
    assert (x * q) * p == x * (p * q);
  }

  /** x * p split at q: the part above q lands in the next word. */
  lemma SplitScaled(x: nat, q: nat, p: nat)
    requires q >= 1 && p * q == BASE
    ensures x * p == (x / q) * BASE + (x % q) * p
  {
    var a, b := x / q, x % q;
    assert x == a * q + b;
    assert (a * q) * p == a * (p * q);
  }

  lemma QuotientBelow(x: nat, q: nat, p: nat)
    requires q >= 1 && x < p * q
    ensures x / q < p
  {
    DivBound(x, q, p);
  }

  /** x * p + y with x < q and y < p stays below p * q. */
  lemma PackBound(x: nat, y: nat, p: nat, q: nat)
    requires x < q && y < p
    ensures x * p + y < p * q
  {
    MulLeftMonotone(p, x, q - 1);
    assert p * (q - 1) + p == p * q;
  }

  /* ---------- Bitwise operations, defined bit by bit on naturals ---------- */

  /** a & b */
  function And(a: nat, b: nat): nat
    decreases a + b
  {
    if a == 0 && b == 0 then 0
    else 2 * And(a / 2, b / 2) + (if a % 2 == 1 && b % 2 == 1 then 1 else 0)
  }

  /** a | b */
  function Or(a: nat, b: nat): nat
    decreases a + b
  {
    if a == 0 && b == 0 then 0
    else 2 * Or(a / 2, b / 2) + (if a % 2 == 1 || b % 2 == 1 then 1 else 0)
  }

  /** a ^ b */
  function Xor(a: nat, b: nat): nat
    decreases a + b
  {
    if a == 0 && b == 0 then 0
    else 2 * Xor(a / 2, b / 2) + (if a % 2 != b % 2 then 1 else 0)
  }

  /** The three operations never leave k bits, so they map words to words. */
  lemma {:induction false} BitwiseBound(a: nat, b: nat, k: nat)
    requires a < Pow2(k) && b < Pow2(k)
    ensures And(a, b) < Pow2(k) && Or(a, b) < Pow2(k) && Xor(a, b) < Pow2(k)
    decreases k
  {
    if a + b != 0 {
      BitwiseBound(a / 2, b / 2, k - 1);
    }
  }

  lemma WordBitwise(a: Word, b: Word)
    ensures And(a, b) < BASE && Or(a, b) < BASE && Xor(a, b) < BASE
  {
    Pow2Word();
    BitwiseBound(a, b, BITS);
  }

  /** a | b keeps every bit of both operands, a & b only common ones. */
  lemma {:induction false} OrAndBounds(a: nat, b: nat)
    ensures Or(a, b) >= a && Or(a, b) >= b
    ensures And(a, b) <= a && And(a, b) <= b
    decreases a + b
  {
    if a + b != 0 {
      OrAndBounds(a / 2, b / 2);
    }
  }

  lemma {:induction false} XorZero(a: nat, b: nat)
    ensures Xor(a, b) == 0 <==> a == b
    decreases a + b
  {
    if a + b != 0 {
      XorZero(a / 2, b / 2);
    }
  }

  /** Applying the same XOR mask twice restores the value. */
  lemma {:induction false} XorInvolution(a: nat, b: nat)
    ensures Xor(Xor(a, b), b) == a
    decreases a + b
  {
    if a + b != 0 {
      var x := Xor(a, b);
      XorInvolution(a / 2, b / 2);
      assert x / 2 == Xor(a / 2, b / 2);
      assert x % 2 == (if a % 2 != b % 2 then 1 else 0);
      if x + b == 0 {
        XorZero(a, b);
      }
    }
  }

  lemma {:induction false} OrAndIdempotent(a: nat)
    ensures Or(a, a) == a && And(a, a) == a
  {
    if a != 0 {
      OrAndIdempotent(a / 2);
    }
  }

  /** OR-ing a value below 2^k into a multiple of 2^k adds it. */
  lemma {:induction false} OrDisjoint(x: nat, y: nat, k: nat)
    requires y < Pow2(k)
    ensures Or(x * Pow2(k), y) == x * Pow2(k) + y
  {
    if k == 0 {
      assert y == 0;
      OrZero(x);
    } else {
      var m := x * Pow2(k - 1);
      assert x * Pow2(k) == 2 * m;
      OrDisjoint(x, y / 2, k - 1);
      if 2 * m + y != 0 {
        assert (2 * m) / 2 == m && (2 * m) % 2 == 0;
      }
    }
  }

  lemma {:induction false} OrZero(x: nat)
    ensures Or(x, 0) == x
  {
    if x != 0 {
      OrZero(x / 2);
    }
  }

  /* The lemmas below take the mask as a parameter M tied to its value by a
     requires, so that every And term the solver sees has a plain mask
     argument. */

  /** Masking with 2^k - 1 keeps the low k bits. */
  lemma {:induction false} AndLowMask(v: nat, k: nat, M: nat)
    requires M == Pow2(k) - 1
    ensures And(v, M) == v % Pow2(k)
  {
    if k == 0 {
      AndZero(v);
    } else {
      var p := Pow2(k - 1);
      Pow2Succ(k - 1);
      AndLowMask(v / 2, k - 1, p - 1);
      MaskStep(v, M, p - 1, 1);
      DivDiv(v, 2, p);
    }
  }

  lemma {:induction false} AndZero(x: nat)
    ensures And(x, 0) == 0
  {
    if x != 0 {
      AndZero(x / 2);
    }
  }

  /** Masking with 1 << k isolates bit k. */
  lemma {:induction false} AndSingleBit(v: nat, k: nat, M: nat)
    requires M == Pow2(k)
    ensures And(v, M) == Pow2(k) * ((v / Pow2(k)) % 2)
  {
    if k == 0 {
      MaskStep(v, M, 0, 1);
      AndZero(v / 2);
    } else {
      var p := Pow2(k - 1);
      Pow2Succ(k - 1);
      AndSingleBit(v / 2, k - 1, p);
      MaskStep(v, M, p, 0);
      DivDiv(v, 2, p);
      Double(p, (v / 2 / p) % 2);
    }
  }

  lemma AndStep(a: nat, b: nat)
    ensures And(a, b) == 2 * And(a / 2, b / 2) + (if a % 2 == 1 && b % 2 == 1 then 1 else 0)
  {
  }

  /** The bit recursion of a & M for a mask M = 2 m + low: the low bit of
      the mask decides whether the low bit of v survives. */
  lemma MaskStep(v: nat, M: nat, m: nat, low: nat)
    requires low <= 1 && M == 2 * m + low
    ensures And(v, M) == 2 * And(v / 2, m) + (if low == 1 then v % 2 else 0)
  {
    AndStep(v, M);
    assert M / 2 == m && M % 2 == low;
  }

  lemma Pow2Succ(n: nat)
    ensures Pow2(n + 1) == 2 * Pow2(n)
  {
  }

  lemma Double(h: nat, bit: nat)
    ensures (2 * h) * bit == 2 * (h * bit)
  {
  }

  /** Masking with ~(1 << k) inside n bits clears bit k. */
  lemma {:induction false} AndClearBit(v: nat, k: nat, n: nat, M: nat)
    requires k < n && v < Pow2(n) && M == Pow2(n) - 1 - Pow2(k)
    ensures And(v, M) == v - Pow2(k) * ((v / Pow2(k)) % 2)
    decreases n
  {
    PowStrict(2, k, n);
    Pow2Succ(n - 1);
    var p := Pow2(n - 1);
    assert v / 2 < p;
    if k == 0 {
      AndLowMask(v / 2, n - 1, p - 1);
      DivModUnique(v / 2, p, 0, v / 2);
      MaskStep(v, M, p - 1, 0);
    } else {
      var h := Pow2(k - 1);
      Pow2Succ(k - 1);
      AndClearBit(v / 2, k - 1, n - 1, p - 1 - h);
      DivDiv(v, 2, h);
      MaskStep(v, M, p - 1 - h, 1);
      Double(h, (v / 2 / h) % 2);
    }
  }

  /** countLeadingZeros (bigmath.cpp:409-418): shifts v left until its top
      bit is set. The source loops forever on 0, so callers pass a nonzero
      word (the top word of a normalized divisor). */
  method CountLeadingZeros(v0: Word) returns (n: nat)
    requires v0 != 0
    ensures n < BITS
    ensures 0x8000_0000 <= v0 * Pow2(n) < BASE
  {
    n := 0;
    var v: Word := v0;
    TopBit(v);
    while And(v, Pow2(BITS - 1)) == 0
      invariant n < BITS && v == v0 * Pow2(n)
      decreases BITS - n
    {
      TopBit(v);
      ShiftStep(v0, n, v);
      n := n + 1;
      v := v * 2;
    }
    TopBit(v);
  }

  /** The mask 1 << 31 tests the top bit of a word. */
  lemma TopBit(v: Word)
    ensures And(v, Pow2(BITS - 1)) == 0 <==> v < 0x8000_0000
  {
    Pow2Word();
    AndSingleBit(v, BITS - 1, Pow2(BITS - 1));
    TopBitValue(v);
  }

  lemma TopBitValue(v: Word)
    ensures 0x8000_0000 * ((v / 0x8000_0000) % 2) == 0 <==> v < 0x8000_0000
  {
    var d := v / 0x8000_0000;
    assert d < 2;
    assert d % 2 == d;
  }

  lemma ShiftStep(v0: nat, n: nat, v: nat)
    requires v0 >= 1 && v == v0 * Pow2(n) && v < 0x8000_0000
    ensures n + 1 < BITS && v0 * Pow2(n + 1) == 2 * v
  {
    Pow2Succ(n);
    calc {
      v0 * Pow2(n + 1);
      v0 * (2 * Pow2(n));
      2 * (v0 * Pow2(n));
    }
    Pow2Large(n + 1);
    MulLeftMonotone(Pow2(n + 1), 1, v0);
  }

  lemma Pow2Large(n: nat)
    ensures n >= BITS ==> Pow2(n) >= BASE
  {
    if n >= BITS {
      PowMonotone(2, BITS, n);
      Pow2Word();
    }
  }
}
