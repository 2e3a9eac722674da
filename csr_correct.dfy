/**
 * What the CSR codeword promises: a single flipped bit other than the
 * overall parity bit is located and undone, the overall parity notices any
 * single flip, and two flips are told apart from one.
 */
module CsrCorrect {
  import opened Bits
  import opened Syndrome
  import opened CsrEcc
  import opened CsrMasks

  /** Toggling `u` in word 0 changes the group parity by the parity of `u` under the group's mask. */
  lemma FlipGroupWord0(a: bv32, b: bv32, c: bv32, u: bv32, m0: bv32, m1: bv32, m2: bv32)
    ensures GroupOddOf(Xor(a, u), b, c, m0, m1, m2) == (GroupOddOf(a, b, c, m0, m1, m2) != Odd(And(u, m0)))
  {
    OddAndXor(a, u, m0);
  }

  lemma FlipGroupWord1(a: bv32, b: bv32, c: bv32, u: bv32, m0: bv32, m1: bv32, m2: bv32)
    ensures GroupOddOf(a, Xor(b, u), c, m0, m1, m2) == (GroupOddOf(a, b, c, m0, m1, m2) != Odd(And(u, m1)))
  {
    OddAndXor(b, u, m1);
  }

  lemma FlipGroupWord2(a: bv32, b: bv32, c: bv32, u: bv32, m0: bv32, m1: bv32, m2: bv32)
    ensures GroupOddOf(a, b, Xor(c, u), m0, m1, m2) == (GroupOddOf(a, b, c, m0, m1, m2) != Odd(And(u, m2)))
  {
    OddAndXor(c, u, m2);
  }

  /** Flipping a bit of the value's low word toggles the parity of the group (m0, m1, m2) by the bit of m0. */
  lemma FlipOddLow(c: Colval, bit: bv32, m0: bv32, m1: bv32, m2: bv32)
    requires bit < 32
    ensures GroupOddOf(FlipBit(c, bit).Low(), FlipBit(c, bit).High(), FlipBit(c, bit).col, m0, m1, m2)
            == (GroupOddOf(c.Low(), c.High(), c.col, m0, m1, m2) != Bit(m0, bit % 32))
  {
    FlipGroupWord0(c.Low(), c.High(), c.col, 1 << (bit % 32), m0, m1, m2);
    OddAndUnit(bit % 32, m0);
  }

  /** Flipping a bit of the value's high word toggles the parity of the group by the bit of m1. */
  lemma FlipOddHigh(c: Colval, bit: bv32, m0: bv32, m1: bv32, m2: bv32)
    requires 32 <= bit < 64
    ensures GroupOddOf(FlipBit(c, bit).Low(), FlipBit(c, bit).High(), FlipBit(c, bit).col, m0, m1, m2)
            == (GroupOddOf(c.Low(), c.High(), c.col, m0, m1, m2) != Bit(m1, bit % 32))
  {
    FlipGroupWord1(c.Low(), c.High(), c.col, 1 << (bit % 32), m0, m1, m2);
    OddAndUnit(bit % 32, m1);
  }

  /** Flipping a column bit toggles the parity of the group by the bit of m2. */
  lemma FlipOddCol(c: Colval, bit: bv32, m0: bv32, m1: bv32, m2: bv32)
    requires 64 <= bit < 96
    ensures GroupOddOf(FlipBit(c, bit).Low(), FlipBit(c, bit).High(), FlipBit(c, bit).col, m0, m1, m2)
            == (GroupOddOf(c.Low(), c.High(), c.col, m0, m1, m2) != Bit(m2, bit % 32))
  {
    FlipGroupWord2(c.Low(), c.High(), c.col, 1 << (bit % 32), m0, m1, m2);
    OddAndUnit(bit % 32, m2);
  }

  /** Flipping codeword bit `bit` toggles group p exactly when the group's mask holds that bit. */
  lemma FlipGroupMask(c: Colval, bit: bv32, p: bv32)
    requires bit < 96 && 1 <= p <= 7
    ensures Group(FlipBit(c, bit), p) == (Group(c, p) != Bit(MaskWord(p, bit / 32), bit % 32))
  {
    if bit < 32 {
      FlipOddLow(c, bit, MaskWord(p, 0), MaskWord(p, 1), MaskWord(p, 2));
    } else if bit < 64 {
      FlipOddHigh(c, bit, MaskWord(p, 0), MaskWord(p, 1), MaskWord(p, 2));
    } else {
      FlipOddCol(c, bit, MaskWord(p, 0), MaskWord(p, 1), MaskWord(p, 2));
    }
  }

  /** Flipping codeword bit `bit` toggles group p exactly when that bit's position has bit p-1. */
  lemma FlipGroup(c: Colval, bit: bv32, p: bv32)
    requires bit < 96 && 1 <= p <= 7
    ensures Group(FlipBit(c, bit), p) == (Group(c, p) != Bit(HammIndex(bit), p - 1))
  {
    FlipGroupMask(c, bit, p);
    MaskIndex(bit, p);
  }

  /** In a codeword whose group p is even, a flip makes the group odd exactly when the bit's position has bit p-1. */
  lemma CleanFlipGroup(c: Colval, bit: bv32, p: bv32)
    requires bit < 96 && 1 <= p <= 7 && !Group(c, p)
    ensures Group(FlipBit(c, bit), p) == Bit(HammIndex(bit), p - 1)
  {
    FlipGroup(c, bit, p);
  }

  /** Flipping codeword bit `bit` of a clean codeword makes the syndrome name the bit's position. */
  lemma CleanFlipSyndrome(c: Colval, bit: bv32)
    requires bit < 96 && ComputeCol8(c) == 0
    ensures ComputeCol8(FlipBit(c, bit)) == HammSyndrome(HammIndex(bit))
  {
    Col8Zero(c);
    Col8Groups(FlipBit(c, bit));
    CleanFlipGroup(c, bit, 1); CleanFlipGroup(c, bit, 2); CleanFlipGroup(c, bit, 3); CleanFlipGroup(c, bit, 4);
    CleanFlipGroup(c, bit, 5); CleanFlipGroup(c, bit, 6); CleanFlipGroup(c, bit, 7);
    LowBits(HammIndex(bit));
  }

  /** Toggling the same bit twice restores the codeword. */
  lemma FlipBitTwice(c: Colval, bit: bv32)
    requires bit < 96
    ensures FlipBit(FlipBit(c, bit), bit) == c
  {
    var u := 1 << (bit % 32);
    XorTwice(c.Low(), u); XorTwice(c.High(), u); XorTwice(c.col, u);
    PackSplit(c.value);
  }

  /** Word w of the flipped codeword: word `bit / 32` is toggled by `1 << (bit % 32)`, the others are kept. */
  lemma FlipWord(c: Colval, bit: bv32, w: bv32)
    requires bit < 96 && w < 3
    ensures Word(FlipBit(c, bit), w) == if bit / 32 == w then Xor(Word(c, w), 1 << (bit % 32)) else Word(c, w)
  {}

  /** Flipping codeword bit `bit` changes bit i of word w exactly when that is bit `bit`. */
  lemma FlipBitWord(c: Colval, bit: bv32, w: bv32, i: bv32)
    requires bit < 96 && w < 3 && i < 32
    ensures Bit(Word(FlipBit(c, bit), w), i) == (Bit(Word(c, w), i) != (32 * w + i == bit))
  {
    FlipWord(c, bit, w);
    if bit / 32 == w {
      XorBit(Word(c, w), 1 << (bit % 32), i);
      UnitBit(bit % 32, i);
    }
  }

  /** `flip_bit` toggles codeword bit `bit` and no other of the 96. */
  lemma FlipBitExact(c: Colval, bit: bv32, j: bv32)
    requires bit < 96 && j < 96
    ensures BitAt(FlipBit(c, bit), j) == (BitAt(c, j) != (j == bit))
  {
    FlipBitWord(c, bit, j / 32, j % 32);
  }

  /**
   * Single-error correction: in a codeword that checks clean, flip any bit
   * in 0..87 or 89..95. The syndrome is then non-zero, names a position in
   * 1..95 that maps back to that bit, and `flip_bit` on it restores the
   * codeword.
   */
  lemma SingleErrorCorrected(c: Colval, bit: bv32)
    requires ComputeCol8(c) == 0 && bit < 96 && bit != 88
    ensures ComputeCol8(FlipBit(c, bit)) >> 25 != 0
    ensures 1 <= HammBit(ComputeCol8(FlipBit(c, bit))) <= 95
    ensures DataBit(HammBit(ComputeCol8(FlipBit(c, bit)))) == bit
    ensures FlipBit(FlipBit(c, bit), DataBit(HammBit(ComputeCol8(FlipBit(c, bit))))) == c
  {
    CleanFlipSyndrome(c, bit);
    DecodeIndex(bit);
    HammBitSyndrome(HammIndex(bit));
    HammBitRange(ComputeCol8(FlipBit(c, bit)));
    FlipBitTwice(c, bit);
  }

  /** Column bit 24, codeword bit 88, lies in no parity group. */
  lemma Mask88(p: bv32)
    requires 1 <= p <= 7
    ensures !Bit(MaskWord(p, 2), 24)
  {
    BitShift(MaskWord(p, 2), 24);
  }

  /** Toggling bit 88 leaves group p alone. */
  lemma Flip88Group(c: Colval, p: bv32)
    requires 1 <= p <= 7
    ensures Group(FlipBit(c, 88), p) == Group(c, p)
  {
    FlipGroupMask(c, 88, p);
    Mask88(p);
  }

  /** Bit 88 is in no parity group, so toggling it leaves the syndrome alone. */
  lemma Flip88Syndrome(c: Colval)
    ensures ComputeCol8(FlipBit(c, 88)) == ComputeCol8(c)
  {
    Col8Groups(c);
    Col8Groups(FlipBit(c, 88));
    Flip88Group(c, 1); Flip88Group(c, 2); Flip88Group(c, 3); Flip88Group(c, 4);
    Flip88Group(c, 5); Flip88Group(c, 6); Flip88Group(c, 7);
  }

  /** The parity of all three words is the parity group whose masks keep every bit. */
  lemma AllWordsGroup(c: Colval)
    ensures Odd(AllWords(c)) == GroupOddOf(c.Low(), c.High(), c.col, 0xFFFF_FFFF, 0xFFFF_FFFF, 0xFFFF_FFFF)
  {
    var m: bv32 := 0xFFFF_FFFF;
    GroupOddOfXor(c.Low(), c.High(), c.col, m, m, m);
    AndOnes(c.Low()); AndOnes(c.High()); AndOnes(c.col);
  }

  /** Flipping any one of the 96 bits toggles the parity of the three words together. */
  lemma AllWordsFlip(c: Colval, bit: bv32)
    requires bit < 96
    ensures Odd(AllWords(FlipBit(c, bit))) == !Odd(AllWords(c))
  {
    var m: bv32 := 0xFFFF_FFFF;
    AllWordsGroup(c);
    AllWordsGroup(FlipBit(c, bit));
    AllOnes(bit % 32);
    if bit < 32 {
      FlipOddLow(c, bit, m, m, m);
    } else if bit < 64 {
      FlipOddHigh(c, bit, m, m, m);
    } else {
      FlipOddCol(c, bit, m, m, m);
    }
  }

  /** Flipping any one of the 96 bits toggles the overall parity. */
  lemma ParityFlip(c: Colval, bit: bv32)
    requires bit < 96
    ensures OverallParity(FlipBit(c, bit)) == 1 - OverallParity(c)
  {
    AllWordsFlip(c, bit);
    OverallParityOdd(c);
    OverallParityOdd(FlipBit(c, bit));
  }

  /** Two different codeword bits have different Hamming positions. */
  lemma HammIndexInjective(b1: bv32, b2: bv32)
    requires b1 < 96 && b2 < 96 && b1 != b2
    ensures HammIndex(b1) != HammIndex(b2)
  {
    DecodeIndex(b1);
    DecodeIndex(b2);
  }

  /** Flipping two bits toggles group p by the sum of their memberships. */
  lemma DoubleFlipGroup(c: Colval, b1: bv32, b2: bv32, p: bv32)
    requires b1 < 96 && b2 < 96 && 1 <= p <= 7
    ensures Group(FlipBit(FlipBit(c, b1), b2), p)
            == (Group(c, p) != (Bit(HammIndex(b1), p - 1) != Bit(HammIndex(b2), p - 1)))
  {
    FlipGroup(c, b1, p);
    FlipGroup(FlipBit(c, b1), b2, p);
  }

  /** Two flips at different bits leave the overall parity as it was. */
  lemma DoubleFlipParity(c: Colval, b1: bv32, b2: bv32)
    requires b1 < 96 && b2 < 96
    ensures OverallParity(FlipBit(FlipBit(c, b1), b2)) == OverallParity(c)
  {
    ParityFlip(c, b1);
    ParityFlip(FlipBit(c, b1), b2);
    OverallParityFlag(c);
  }

  /** Two flips at different bits of a clean codeword leave a non-zero syndrome. */
  lemma DoubleFlipSyndrome(c: Colval, b1: bv32, b2: bv32)
    requires ComputeCol8(c) == 0 && b1 < 96 && b2 < 96 && b1 != b2
    ensures ComputeCol8(FlipBit(FlipBit(c, b1), b2)) != 0
  {
    var f := FlipBit(FlipBit(c, b1), b2);
    Col8Groups(c);
    Col8Zero(f);
    DoubleFlipGroup(c, b1, b2, 1); DoubleFlipGroup(c, b1, b2, 2); DoubleFlipGroup(c, b1, b2, 3);
    DoubleFlipGroup(c, b1, b2, 4); DoubleFlipGroup(c, b1, b2, 5); DoubleFlipGroup(c, b1, b2, 6);
    DoubleFlipGroup(c, b1, b2, 7);
    HammIndexInjective(b1, b2);
    DecodeIndex(b1);
    DecodeIndex(b2);
    if ComputeCol8(f) == 0 {
      SevenBits(HammIndex(b1), HammIndex(b2));
      assert false;
    }
  }

  /**
   * Double-error detection: two flips at different bits of a codeword whose
   * syndrome and overall parity are both clean leave the parity even but the
   * syndrome non-zero, the combination SECDED reports as uncorrectable.
   */
  lemma DoubleErrorDetected(c: Colval, b1: bv32, b2: bv32)
    requires ComputeCol8(c) == 0 && OverallParity(c) == 0
    requires b1 < 96 && b2 < 96 && b1 != b2
    ensures OverallParity(FlipBit(FlipBit(c, b1), b2)) == 0
    ensures ComputeCol8(FlipBit(FlipBit(c, b1), b2)) != 0
  {
    DoubleFlipParity(c, b1, b2);
    DoubleFlipSyndrome(c, b1, b2);
  }
}
