/**
 * The Hamming machinery both codeword layouts share: the seven check bits
 * of a syndrome word (check bit p at bit 32-p, bits 31..25), the
 * `hamm_bit` position a syndrome names (check bit p weighted 2^(p-1)), and
 * the numbering of data bits by the positions that are not powers of two.
 */
module Syndrome {
  import opened Bits

  /** The k-th position, from 0, that is neither 0, 1 nor a power of two. */
  function NonPow(k: bv32): (r: bv32)
    requires k < 120
    ensures 3 <= r <= 127 && !IsPowerOf2(r)
  {
    if k < 1 then k + 3 else if k < 4 then k + 4 else if k < 11 then k + 5
    else if k < 26 then k + 6 else if k < 57 then k + 7 else k + 8
  }

  /** A truth value placed at bit `k` of a word. */
  function Place(g: bool, k: bv32): bv32
    requires k < 32
  {
    if g then 1 << k else 0
  }

  /** The seven check bits g1 .. g7, check bit p at bit 32-p. */
  function CheckBits(g1: bool, g2: bool, g3: bool, g4: bool, g5: bool, g6: bool, g7: bool): bv32
  {
    Place(g1, 31) | Place(g2, 30) | Place(g3, 29) | Place(g4, 28) | Place(g5, 27) | Place(g6, 26) | Place(g7, 25)
  }

  /** Check bits only occupy bits 25..31. */
  lemma CheckBitsLow(g1: bool, g2: bool, g3: bool, g4: bool, g5: bool, g6: bool, g7: bool)
    ensures CheckBits(g1, g2, g3, g4, g5, g6, g7) & 0x01FF_FFFF == 0
  {}

  /** A word of check bits is zero exactly when every check bit is clear. */
  lemma CheckBitsZero(g1: bool, g2: bool, g3: bool, g4: bool, g5: bool, g6: bool, g7: bool)
    ensures (CheckBits(g1, g2, g3, g4, g5, g6, g7) == 0) == (!g1 && !g2 && !g3 && !g4 && !g5 && !g6 && !g7)
  {}

  lemma CheckBitsShift(g1: bool, g2: bool, g3: bool, g4: bool, g5: bool, g6: bool, g7: bool)
    ensures (CheckBits(g1, g2, g3, g4, g5, g6, g7) >> 31) & 1 == 1 <==> g1
    ensures (CheckBits(g1, g2, g3, g4, g5, g6, g7) >> 30) & 1 == 1 <==> g2
    ensures (CheckBits(g1, g2, g3, g4, g5, g6, g7) >> 29) & 1 == 1 <==> g3
    ensures (CheckBits(g1, g2, g3, g4, g5, g6, g7) >> 28) & 1 == 1 <==> g4
    ensures (CheckBits(g1, g2, g3, g4, g5, g6, g7) >> 27) & 1 == 1 <==> g5
    ensures (CheckBits(g1, g2, g3, g4, g5, g6, g7) >> 26) & 1 == 1 <==> g6
    ensures (CheckBits(g1, g2, g3, g4, g5, g6, g7) >> 25) & 1 == 1 <==> g7
  {}

  /** The seven check bits read back from the positions `CheckBits` puts them at. */
  lemma CheckBitsBit(g1: bool, g2: bool, g3: bool, g4: bool, g5: bool, g6: bool, g7: bool)
    ensures Bit(CheckBits(g1, g2, g3, g4, g5, g6, g7), 31) == g1
    ensures Bit(CheckBits(g1, g2, g3, g4, g5, g6, g7), 30) == g2
    ensures Bit(CheckBits(g1, g2, g3, g4, g5, g6, g7), 29) == g3
    ensures Bit(CheckBits(g1, g2, g3, g4, g5, g6, g7), 28) == g4
    ensures Bit(CheckBits(g1, g2, g3, g4, g5, g6, g7), 27) == g5
    ensures Bit(CheckBits(g1, g2, g3, g4, g5, g6, g7), 26) == g6
    ensures Bit(CheckBits(g1, g2, g3, g4, g5, g6, g7), 25) == g7
  {
    var c := CheckBits(g1, g2, g3, g4, g5, g6, g7);
    CheckBitsShift(g1, g2, g3, g4, g5, g6, g7);
    BitShift(c, 31); BitShift(c, 30); BitShift(c, 29); BitShift(c, 28);
    BitShift(c, 27); BitShift(c, 26); BitShift(c, 25);
  }

  /** Bits 0 .. 6 of `h` in their shifted form. */
  lemma LowBits(h: bv32)
    ensures Bit(h, 0) == (h & 1 == 1) && Bit(h, 1) == ((h >> 1) & 1 == 1)
    ensures Bit(h, 2) == ((h >> 2) & 1 == 1) && Bit(h, 3) == ((h >> 3) & 1 == 1)
    ensures Bit(h, 4) == ((h >> 4) & 1 == 1) && Bit(h, 5) == ((h >> 5) & 1 == 1)
    ensures Bit(h, 6) == ((h >> 6) & 1 == 1)
  {
    BitShift(h, 0); BitShift(h, 1); BitShift(h, 2); BitShift(h, 3);
    BitShift(h, 4); BitShift(h, 5); BitShift(h, 6);
  }

  lemma PlaceParity(x: bv32, k: bv32)
    requires k < 32
    ensures Parity(x) << k == Place(Odd(x), k)
  {}

  /** The seven parities of the group words x1 .. x7, parity p at bit 32-p. */
  function ParityBits(x1: bv32, x2: bv32, x3: bv32, x4: bv32, x5: bv32, x6: bv32, x7: bv32): bv32
  {
    (Parity(x1) << 31) | (Parity(x2) << 30) | (Parity(x3) << 29) | (Parity(x4) << 28) |
    (Parity(x5) << 27) | (Parity(x6) << 26) | (Parity(x7) << 25)
  }

  /** The shifted parities are the check bits of the seven odd/even verdicts. */
  lemma ParityBitsCheck(x1: bv32, x2: bv32, x3: bv32, x4: bv32, x5: bv32, x6: bv32, x7: bv32)
    ensures ParityBits(x1, x2, x3, x4, x5, x6, x7) == CheckBits(Odd(x1), Odd(x2), Odd(x3), Odd(x4), Odd(x5), Odd(x6), Odd(x7))
  {
    PlaceParity(x1, 31); PlaceParity(x2, 30); PlaceParity(x3, 29); PlaceParity(x4, 28);
    PlaceParity(x5, 27); PlaceParity(x6, 26); PlaceParity(x7, 25);
  }

  /** Seven truth values as the bits 0..6 of a word. */
  function Weights(g1: bool, g2: bool, g3: bool, g4: bool, g5: bool, g6: bool, g7: bool): (r: bv32)
    ensures r <= 127
    ensures (r == 0) == (!g1 && !g2 && !g3 && !g4 && !g5 && !g6 && !g7)
  {
    Place(g1, 0) | Place(g2, 1) | Place(g3, 2) | Place(g4, 3) | Place(g5, 4) | Place(g6, 5) | Place(g7, 6)
  }

  /**
   * The Hamming position named by syndrome bits 31 .. 32-k, 0 <= k <= 7:
   * syndrome bit 32-p carries weight 2^(p-1), p <= k.
   */
  function HammUpTo(s: bv32, k: bv32): bv32
    requires k <= 7
  {
    Weights((s >> 31) & 1 == 1 && 1 <= k, (s >> 30) & 1 == 1 && 2 <= k, (s >> 29) & 1 == 1 && 3 <= k,
            (s >> 28) & 1 == 1 && 4 <= k, (s >> 27) & 1 == 1 && 5 <= k, (s >> 26) & 1 == 1 && 6 <= k,
            (s >> 25) & 1 == 1 && 7 <= k)
  }

  /** One round of the `hamm_bit` loop adds the weight of syndrome bit 32-p. */
  lemma HammStep(s: bv32, p: bv32)
    requires 1 <= p <= 7
    ensures HammUpTo(s, p) == HammUpTo(s, p - 1) + (if (s >> (32 - p)) & 1 == 1 then 1 << (p - 1) else 0)
  {
    if p == 1 {
    } else if p == 2 {
    } else if p == 3 {
    } else if p == 4 {
    } else if p == 5 {
    } else if p == 6 {
    } else {
    }
  }

  /** The Hamming position named by the whole syndrome. */
  function HammBit(s: bv32): bv32
  {
    HammUpTo(s, 7)
  }

  /** A syndrome names a Hamming position in 1..127 exactly when one of its check bits is set. */
  lemma HammBitRange(s: bv32)
    ensures s >> 25 != 0 <==> HammBit(s) != 0
    ensures HammBit(s) <= 127
  {}

  /** The syndrome that names Hamming position `h`: bit k of h at syndrome bit 31-k. */
  function HammSyndrome(h: bv32): bv32
  {
    CheckBits(h & 1 == 1, (h >> 1) & 1 == 1, (h >> 2) & 1 == 1, (h >> 3) & 1 == 1,
              (h >> 4) & 1 == 1, (h >> 5) & 1 == 1, (h >> 6) & 1 == 1)
  }

  /** `hamm_bit` reads back the position a syndrome names. */
  lemma HammBitSyndrome(h: bv32)
    requires h <= 127
    ensures HammBit(HammSyndrome(h)) == h
  {}

  /** Two positions in 0..127 that agree on bits 0..6 are equal. */
  lemma SevenBits(a: bv32, b: bv32)
    requires a <= 127 && b <= 127
    requires Bit(a, 0) == Bit(b, 0) && Bit(a, 1) == Bit(b, 1) && Bit(a, 2) == Bit(b, 2) && Bit(a, 3) == Bit(b, 3)
    requires Bit(a, 4) == Bit(b, 4) && Bit(a, 5) == Bit(b, 5) && Bit(a, 6) == Bit(b, 6)
    ensures a == b
  {
    LowBits(a);
    LowBits(b);
  }

}
