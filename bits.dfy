/**
 * 32-bit word primitives shared by both ECC layouts: single-bit tests,
 * the compiler builtins `__builtin_parity` and `__builtin_clz`, the
 * `is_power_of_2` test, and the split of a 64-bit double pattern into the
 * two 32-bit words the codecs read through a `uint32_t *` cast.
 *
 * Every bitwise operation that a proof has to see through is routed through
 * the named functions `Xor` and `And`, so the facts below are stated and used
 * on the same terms.
 */
module Bits {

  /** Bit `i` of `x` is set: bit 0 is the lowest, bit i is bit i-1 of `x >> 1`. */
  predicate Bit(x: bv32, i: bv32)
    requires i < 32
    decreases i
  {
    if i == 0 then x & 1 == 1 else Bit(x >> 1, i - 1)
  }

  function Xor(a: bv32, b: bv32): bv32 { a ^ b }

  function And(a: bv32, b: bv32): bv32 { a & b }

  lemma XorTwice(a: bv32, b: bv32)
    ensures Xor(Xor(a, b), b) == a
  {
    assert (a ^ b) ^ b == a;
  }

  /** Setting a clear bit k is toggling it; `w` words on, the same bit is `(32 * w + k) % 32`. */
  lemma SetClearBit(a: bv32, k: bv32, w: bv32)
    requires k < 32 && w < 4 && a & (1 << k) == 0
    ensures a | (1 << k) == Xor(a, 1 << ((32 * w + k) % 32))
  {
    assert (32 * w + k) % 32 == k;
  }

  /** OR-ing a 0/1 flag into a reserved column bit 24..31 keeps the index bits 0..23. */
  lemma FlagKeepsIndex(c: bv32, q: bv32, k: bv32)
    requires q <= 1 && 24 <= k < 32
    ensures (c | (q << k)) & 0x00FF_FFFF == c & 0x00FF_FFFF
  {}

  /** Codeword bit `bit` lies in word `bit / 32`, the 32-bit slice holding it. */
  lemma WordOf(bit: bv32)
    requires bit < 128
    ensures (bit / 32 == 0) == (bit < 32) && (bit / 32 == 1) == (32 <= bit < 64)
    ensures (bit / 32 == 2) == (64 <= bit < 96) && (bit / 32 == 3) == (96 <= bit)
  {}

  lemma XorZero(a: bv32)
    ensures Xor(a, 0) == a
  {
    assert a ^ 0 == a;
  }

  lemma ShiftStep(x: bv32, i: bv32)
    requires 0 < i < 32
    ensures (x >> 1) >> (i - 1) == x >> i
  {}

  /** Bit i of `x` is the lowest bit of `x >> i`. */
  lemma {:induction false} BitShift(x: bv32, i: bv32)
    requires i < 32
    decreases i
    ensures Bit(x, i) == ((x >> i) & 1 == 1)
  {
    if i != 0 {
      BitShift(x >> 1, i - 1);
      ShiftStep(x, i);
    }
  }

  /** Masking with the all-ones word keeps every bit. */
  lemma AndOnes(a: bv32)
    ensures And(a, 0xFFFF_FFFF) == a
  {}

  /** Every bit of the all-ones word is set. */
  lemma AllOnes(i: bv32)
    requires i < 32
    ensures Bit(0xFFFF_FFFF, i)
  {
    BitShift(0xFFFF_FFFF, i);
  }

  lemma ShiftXor(a: bv32, b: bv32, i: bv32)
    requires i < 32
    ensures (((a ^ b) >> i) & 1 == 1) == (((a >> i) & 1 == 1) != ((b >> i) & 1 == 1))
  {}

  lemma ShiftAnd(a: bv32, b: bv32, i: bv32)
    requires i < 32
    ensures (((a & b) >> i) & 1 == 1) == (((a >> i) & 1 == 1) && ((b >> i) & 1 == 1))
  {
    if i == 0 {
    } else if i == 1 {
    } else if i == 2 {
    } else if i == 3 {
    } else if i == 4 {
    } else if i == 5 {
    } else if i == 6 {
    } else if i == 7 {
    } else if i == 8 {
    } else if i == 9 {
    } else if i == 10 {
    } else if i == 11 {
    } else if i == 12 {
    } else if i == 13 {
    } else if i == 14 {
    } else if i == 15 {
    } else if i == 16 {
    } else if i == 17 {
    } else if i == 18 {
    } else if i == 19 {
    } else if i == 20 {
    } else if i == 21 {
    } else if i == 22 {
    } else if i == 23 {
    } else if i == 24 {
    } else if i == 25 {
    } else if i == 26 {
    } else if i == 27 {
    } else if i == 28 {
    } else if i == 29 {
    } else if i == 30 {
    } else {
    }
  }

  lemma ShiftOr(a: bv32, b: bv32, i: bv32)
    requires i < 32
    ensures (((a | b) >> i) & 1 == 1) == (((a >> i) & 1 == 1) || ((b >> i) & 1 == 1))
  {}

  lemma ShiftUnit(j: bv32, i: bv32)
    requires j < 32 && i < 32
    ensures ((((1 as bv32) << j) >> i) & 1 == 1) == (i == j)
  {}

  /** Bit i of an exclusive or, on the operator itself. */
  lemma XorBitOp(a: bv32, b: bv32, i: bv32)
    requires i < 32
    ensures Bit(a ^ b, i) == (Bit(a, i) != Bit(b, i))
  {
    BitShift(a ^ b, i);
    BitShift(a, i);
    BitShift(b, i);
    ShiftXor(a, b, i);
  }

  lemma XorBit(a: bv32, b: bv32, i: bv32)
    requires i < 32
    ensures Bit(Xor(a, b), i) == (Bit(a, i) != Bit(b, i))
  {
    XorBitOp(a, b, i);
  }

  /** Bit i of a conjunction, on the operator itself. */
  lemma AndBitOp(a: bv32, b: bv32, i: bv32)
    requires i < 32
    ensures Bit(a & b, i) == (Bit(a, i) && Bit(b, i))
  {
    BitShift(a & b, i);
    BitShift(a, i);
    BitShift(b, i);
    ShiftAnd(a, b, i);
  }

  lemma AndBit(a: bv32, b: bv32, i: bv32)
    requires i < 32
    ensures Bit(And(a, b), i) == (Bit(a, i) && Bit(b, i))
  {
    AndBitOp(a, b, i);
  }

  /** Bit i of a disjunction. */
  lemma OrBit(a: bv32, b: bv32, i: bv32)
    requires i < 32
    ensures Bit(a | b, i) == (Bit(a, i) || Bit(b, i))
  {
    BitShift(a | b, i);
    BitShift(a, i);
    BitShift(b, i);
    ShiftOr(a, b, i);
  }

  lemma UnitBit(j: bv32, i: bv32)
    requires j < 32 && i < 32
    ensures Bit(1 << j, i) == (i == j)
  {
    BitShift(1 << j, i);
    ShiftUnit(j, i);
  }

  /** The exclusive or of bits 0 .. n-1 of `x`. */
  function XorBits(x: bv32, n: bv32): bool
    requires n <= 32
    decreases n
  {
    if n == 0 then false else XorBits(x, n - 1) != Bit(x, n - 1)
  }

  /** The number of set bits among bits 0 .. n-1 of `x`. */
  function CountBits(x: bv32, n: bv32): nat
    requires n <= 32
    decreases n
  {
    if n == 0 then 0 else CountBits(x, n - 1) + (if Bit(x, n - 1) then 1 else 0)
  }

  /** `x` has an odd number of set bits: the lowest bit against the parity of the rest. */
  predicate Odd(x: bv32)
    decreases x
  {
    if x == 0 then false else (x & 1 == 1) != Odd(x >> 1)
  }

  /** Dropping the lowest bit of a bit range. */
  lemma {:induction false} XorBitsShift(x: bv32, n: bv32)
    requires 0 < n <= 32
    decreases n
    ensures XorBits(x, n) == (Bit(x, 0) != XorBits(x >> 1, n - 1))
  {
    if n != 1 {
      XorBitsShift(x, n - 1);
    }
  }

  lemma ShiftDown(x: bv32, n: bv32)
    requires 0 < n <= 32 && x >> n == 0
    ensures (x >> 1) >> (n - 1) == 0
  {}

  /** `Odd` is the exclusive or of every bit below a bound the word does not reach. */
  lemma {:induction false} OddBits(x: bv32, n: bv32)
    requires n <= 32 && x >> n == 0
    decreases n
    ensures Odd(x) == XorBits(x, n)
  {
    if x == 0 {
      XorBitsZero(n);
    } else if n != 0 {
      ShiftDown(x, n);
      OddBits(x >> 1, n - 1);
      XorBitsShift(x, n);
    }
  }

  lemma OddWidth(x: bv32)
    ensures Odd(x) == XorBits(x, 32)
  {
    OddBits(x, 32);
  }

  /** `__builtin_parity`: 1 when the population count of `x` is odd, else 0. */
  function Parity(x: bv32): bv32
  {
    if Odd(x) then 1 else 0
  }

  /** `Parity` is a single bit, set exactly for odd words. */
  lemma ParityOdd(x: bv32)
    ensures Parity(x) <= 1 && (Parity(x) == 1) == Odd(x)
  {}

  /** `Parity` counts: it is 1 exactly when the population count is odd. */
  lemma ParityCount(x: bv32)
    ensures Parity(x) == 1 <==> CountBits(x, 32) % 2 == 1
  {
    OddWidth(x);
    XorBitsCount(x, 32);
  }

  lemma {:induction false} XorBitsCount(x: bv32, n: bv32)
    requires n <= 32
    decreases n
    ensures XorBits(x, n) <==> CountBits(x, n) % 2 == 1
  {
    if n != 0 {
      XorBitsCount(x, n - 1);
    }
  }

  lemma {:induction false} XorBitsLinear(a: bv32, b: bv32, n: bv32)
    requires n <= 32
    decreases n
    ensures XorBits(Xor(a, b), n) == (XorBits(a, n) != XorBits(b, n))
  {
    if n != 0 {
      XorBitsLinear(a, b, n - 1);
      XorBit(a, b, n - 1);
    }
  }

  lemma AndXorDistOp(a: bv32, b: bv32, m: bv32)
    ensures (a ^ b) & m == (a & m) ^ (b & m)
  {}

  lemma {:induction false} XorBitsAndUnit(j: bv32, m: bv32, n: bv32)
    requires j < 32 && n <= 32
    decreases n
    ensures XorBits(And(1 << j, m), n) == (j < n && Bit(m, j))
  {
    if n != 0 {
      XorBitsAndUnit(j, m, n - 1);
      AndBit(1 << j, m, n - 1);
      UnitBit(j, n - 1);
    }
  }

  lemma {:induction false} XorBitsZero(n: bv32)
    requires n <= 32
    decreases n
    ensures !XorBits(0, n)
  {
    if n != 0 {
      XorBitsZero(n - 1);
      BitShift(0, n - 1);
    }
  }

  /** The empty word has even parity. */
  lemma OddZero()
    ensures !Odd(0)
  {}

  /** Parity is linear: the parity of `a ^ b` is the sum of the parities. */
  lemma OddXor(a: bv32, b: bv32)
    ensures Odd(Xor(a, b)) == (Odd(a) != Odd(b))
  {
    OddWidth(a);
    OddWidth(b);
    OddWidth(Xor(a, b));
    XorBitsLinear(a, b, 32);
  }

  /** Masking distributes over the parity of an exclusive or. */
  lemma OddAndXor(a: bv32, b: bv32, m: bv32)
    ensures Odd(And(Xor(a, b), m)) == (Odd(And(a, m)) != Odd(And(b, m)))
  {
    AndXorDistOp(a, b, m);
    assert And(Xor(a, b), m) == Xor(And(a, m), And(b, m));
    OddXor(And(a, m), And(b, m));
  }

  /** A single bit seen through a mask has odd parity exactly when the mask holds it. */
  lemma OddAndUnit(j: bv32, m: bv32)
    requires j < 32
    ensures Odd(And(1 << j, m)) == Bit(m, j)
  {
    OddWidth(And(1 << j, m));
    XorBitsAndUnit(j, m, 32);
  }

  /** A single set bit has odd parity. */
  lemma OddUnit(j: bv32)
    requires j < 32
    ensures Odd(1 << j)
  {
    OddAndUnit(j, 0xFFFF_FFFF);
    BitShift(0xFFFF_FFFF, j);
    assert And(1 << j, 0xFFFF_FFFF) == 1 << j;
  }

  lemma OddXor3(p: bv32, q: bv32, r: bv32)
    ensures Odd(Xor(Xor(p, q), r)) == ((Odd(p) != Odd(q)) != Odd(r))
  {
    OddXor(Xor(p, q), r);
    OddXor(p, q);
  }

  lemma OddXor4(p: bv32, q: bv32, r: bv32, s: bv32)
    ensures Odd(Xor(Xor(Xor(p, q), r), s)) == (((Odd(p) != Odd(q)) != Odd(r)) != Odd(s))
  {
    OddXor(Xor(Xor(p, q), r), s);
    OddXor3(p, q, r);
  }

  /** `__builtin_clz` for a non-zero word: the number of zero bits above the highest set bit,
      found by comparing against each power of two from the top down. */
  function Clz(x: bv32): (r: bv32)
    requires x != 0
    ensures r < 32 && x >> (31 - r) == 1
  {
    if x >= 0x8000_0000 then 0
    else if x >= 0x4000_0000 then 1
    else if x >= 0x2000_0000 then 2
    else if x >= 0x1000_0000 then 3
    else if x >= 0x0800_0000 then 4
    else if x >= 0x0400_0000 then 5
    else if x >= 0x0200_0000 then 6
    else if x >= 0x0100_0000 then 7
    else if x >= 0x0080_0000 then 8
    else if x >= 0x0040_0000 then 9
    else if x >= 0x0020_0000 then 10
    else if x >= 0x0010_0000 then 11
    else if x >= 0x0008_0000 then 12
    else if x >= 0x0004_0000 then 13
    else if x >= 0x0002_0000 then 14
    else if x >= 0x0001_0000 then 15
    else if x >= 0x0000_8000 then 16
    else if x >= 0x0000_4000 then 17
    else if x >= 0x0000_2000 then 18
    else if x >= 0x0000_1000 then 19
    else if x >= 0x0000_0800 then 20
    else if x >= 0x0000_0400 then 21
    else if x >= 0x0000_0200 then 22
    else if x >= 0x0000_0100 then 23
    else if x >= 0x0000_0080 then 24
    else if x >= 0x0000_0040 then 25
    else if x >= 0x0000_0020 then 26
    else if x >= 0x0000_0010 then 27
    else if x >= 0x0000_0008 then 28
    else if x >= 0x0000_0004 then 29
    else if x >= 0x0000_0002 then 30
    else 31
  }

  /** `is_power_of_2`: non-zero, and clearing the lowest set bit leaves nothing. */
  predicate IsPowerOf2(x: bv32)
  {
    x != 0 && x & (x - 1) == 0
  }

  /** A power of two is exactly a word whose only set bit is its highest one. */
  lemma PowerOf2Single(x: bv32)
    ensures IsPowerOf2(x) <==> x != 0 && x == 1 << (31 - Clz(x))
  {}

  /** The bit `Clz` points at is set. */
  lemma ClzBit(x: bv32)
    requires x != 0
    ensures Bit(x, 31 - Clz(x))
  {
    BitShift(x, 31 - Clz(x));
  }

  /** Two different words differ in some bit. */
  lemma DiffBit(a: bv32, b: bv32) returns (j: bv32)
    requires a != b
    ensures j < 32 && Bit(a, j) != Bit(b, j)
  {
    ClzBit(Xor(a, b));
    j := 31 - Clz(Xor(a, b));
    XorBit(a, b, j);
  }

  /** The low and high 32-bit words of a 64-bit pattern (little-endian layout). */
  function Lo(v: bv64): bv32 { (v & 0xFFFF_FFFF) as bv32 }

  function Hi(v: bv64): bv32 { (v >> 32) as bv32 }

  function Pack(lo: bv32, hi: bv32): (v: bv64)
    ensures Lo(v) == lo && Hi(v) == hi
  {
    (lo as bv64) | ((hi as bv64) << 32)
  }

  lemma PackSplit(v: bv64)
    ensures Pack(Lo(v), Hi(v)) == v
  {}

  /** Unreserved column words are their own index bits. */
  lemma UnreservedIndex(c: bv32)
    requires c & 0xFF00_0000 == 0
    ensures c & 0x00FF_FFFF == c && c & 0x8000_0000 == 0
  {}

  lemma BelowBound(v: bv32)
    requires v as int < 0x7FFF_FFFF
    ensures v < 0x7FFF_FFFF
  {}

  lemma WidenValue(v: bv32)
    ensures (v as bv33) as int == v as int
  {}

  lemma WideIncrement(v: bv32)
    requires v < 0x7FFF_FFFF
    ensures (v + 1) as bv33 == (v as bv33) + 1 && ((v as bv33) + 1) as int == v as int + 1
  {}

  /** A `uint32_t` counter below 2^31 - 1 counts on without wrapping. */
  lemma CounterStep(v: bv32)
    requires v as int < 0x7FFF_FFFF
    ensures (v + 1) as int == v as int + 1
  {
    BelowBound(v);
    WideIncrement(v);
    WidenValue(v + 1);
  }

  /** A 32-bit counter stepped below 2^31 - 1: one more, with no wrap-around. */
  method Increment(v: bv32) returns (w: bv32)
    requires v as int < 0x7FFF_FFFF
    ensures w as int == v as int + 1
  {
    CounterStep(v);
    w := v + 1;
  }
}
