/**
 * What the COO codeword promises: a single flipped bit is located and
 * undone, the overall parity notices any single flip, two flips are told
 * apart from one, and a freshly encoded element checks clean.
 */
module CooCorrect {
  import opened Bits
  import opened Syndrome
  import opened CooEcc
  import opened CooMasks

  /** Toggling `u` in word 0 changes the group parity by the parity of `u` under the group's mask. */
  lemma FlipGroupWord0(a: bv32, b: bv32, c: bv32, d: bv32, u: bv32, m0: bv32, m1: bv32, m2: bv32, m3: bv32)
    ensures GroupOddOf(Xor(a, u), b, c, d, m0, m1, m2, m3) == (GroupOddOf(a, b, c, d, m0, m1, m2, m3) != Odd(And(u, m0)))
  {
    OddAndXor(a, u, m0);
  }

  lemma FlipGroupWord1(a: bv32, b: bv32, c: bv32, d: bv32, u: bv32, m0: bv32, m1: bv32, m2: bv32, m3: bv32)
    ensures GroupOddOf(a, Xor(b, u), c, d, m0, m1, m2, m3) == (GroupOddOf(a, b, c, d, m0, m1, m2, m3) != Odd(And(u, m1)))
  {
    OddAndXor(b, u, m1);
  }

  lemma FlipGroupWord2(a: bv32, b: bv32, c: bv32, d: bv32, u: bv32, m0: bv32, m1: bv32, m2: bv32, m3: bv32)
    ensures GroupOddOf(a, b, Xor(c, u), d, m0, m1, m2, m3) == (GroupOddOf(a, b, c, d, m0, m1, m2, m3) != Odd(And(u, m2)))
  {
    OddAndXor(c, u, m2);
  }

  lemma FlipGroupWord3(a: bv32, b: bv32, c: bv32, d: bv32, u: bv32, m0: bv32, m1: bv32, m2: bv32, m3: bv32)
    ensures GroupOddOf(a, b, c, Xor(d, u), m0, m1, m2, m3) == (GroupOddOf(a, b, c, d, m0, m1, m2, m3) != Odd(And(u, m3)))
  {
    OddAndXor(d, u, m3);
  }

  /** Flipping a column bit toggles the parity of the group (m0, m1, m2, m3) by the bit of m0. */
  lemma FlipOddCol(e: Element, bit: bv32, m0: bv32, m1: bv32, m2: bv32, m3: bv32)
    requires bit < 32
    ensures GroupOddOf(FlipBit(e, bit).col, FlipBit(e, bit).row, FlipBit(e, bit).Low(), FlipBit(e, bit).High(), m0, m1, m2, m3)
            == (GroupOddOf(e.col, e.row, e.Low(), e.High(), m0, m1, m2, m3) != Bit(m0, bit % 32))
  {
    FlipGroupWord0(e.col, e.row, e.Low(), e.High(), 1 << (bit % 32), m0, m1, m2, m3);
    OddAndUnit(bit % 32, m0);
  }

  /** Flipping a row bit toggles the parity of the group by the bit of m1. */
  lemma FlipOddRow(e: Element, bit: bv32, m0: bv32, m1: bv32, m2: bv32, m3: bv32)
    requires 32 <= bit < 64
    ensures GroupOddOf(FlipBit(e, bit).col, FlipBit(e, bit).row, FlipBit(e, bit).Low(), FlipBit(e, bit).High(), m0, m1, m2, m3)
            == (GroupOddOf(e.col, e.row, e.Low(), e.High(), m0, m1, m2, m3) != Bit(m1, bit % 32))
  {
    FlipGroupWord1(e.col, e.row, e.Low(), e.High(), 1 << (bit % 32), m0, m1, m2, m3);
    OddAndUnit(bit % 32, m1);
  }

  /** Flipping a bit of the value's low word toggles the parity of the group by the bit of m2. */
  lemma FlipOddLow(e: Element, bit: bv32, m0: bv32, m1: bv32, m2: bv32, m3: bv32)
    requires 64 <= bit < 96
    ensures GroupOddOf(FlipBit(e, bit).col, FlipBit(e, bit).row, FlipBit(e, bit).Low(), FlipBit(e, bit).High(), m0, m1, m2, m3)
            == (GroupOddOf(e.col, e.row, e.Low(), e.High(), m0, m1, m2, m3) != Bit(m2, bit % 32))
  {
    FlipGroupWord2(e.col, e.row, e.Low(), e.High(), 1 << (bit % 32), m0, m1, m2, m3);
    OddAndUnit(bit % 32, m2);
  }

  /** Flipping a bit of the value's high word toggles the parity of the group by the bit of m3. */
  lemma FlipOddHigh(e: Element, bit: bv32, m0: bv32, m1: bv32, m2: bv32, m3: bv32)
    requires 96 <= bit < 128
    ensures GroupOddOf(FlipBit(e, bit).col, FlipBit(e, bit).row, FlipBit(e, bit).Low(), FlipBit(e, bit).High(), m0, m1, m2, m3)
            == (GroupOddOf(e.col, e.row, e.Low(), e.High(), m0, m1, m2, m3) != Bit(m3, bit % 32))
  {
    FlipGroupWord3(e.col, e.row, e.Low(), e.High(), 1 << (bit % 32), m0, m1, m2, m3);
    OddAndUnit(bit % 32, m3);
  }

  /** Flipping codeword bit `bit` toggles group p exactly when the group's mask holds that bit. */
  lemma FlipGroup(e: Element, bit: bv32, p: bv32)
    requires bit < 128 && 1 <= p <= 7
    ensures Group(FlipBit(e, bit), p) == (Group(e, p) != Bit(MaskWord(p, bit / 32), bit % 32))
  {
    if bit < 32 {
      FlipOddCol(e, bit, MaskWord(p, 0), MaskWord(p, 1), MaskWord(p, 2), MaskWord(p, 3));
    } else if bit < 64 {
      FlipOddRow(e, bit, MaskWord(p, 0), MaskWord(p, 1), MaskWord(p, 2), MaskWord(p, 3));
    } else if bit < 96 {
      FlipOddLow(e, bit, MaskWord(p, 0), MaskWord(p, 1), MaskWord(p, 2), MaskWord(p, 3));
    } else {
      FlipOddHigh(e, bit, MaskWord(p, 0), MaskWord(p, 1), MaskWord(p, 2), MaskWord(p, 3));
    }
  }

  /** The syndrome of a lone error at codeword bit `bit`: which masks hold that bit. */
  function UnitSyndrome(bit: bv32): bv32
    requires bit < 128
  {
    var w := bit / 32;
    var i := bit % 32;
    CheckBits(Bit(MaskWord(1, w), i), Bit(MaskWord(2, w), i), Bit(MaskWord(3, w), i), Bit(MaskWord(4, w), i),
              Bit(MaskWord(5, w), i), Bit(MaskWord(6, w), i), Bit(MaskWord(7, w), i))
  }

  /** In a codeword whose group p is even, a flip makes the group odd exactly when its mask holds the bit. */
  lemma CleanFlipGroup(e: Element, bit: bv32, p: bv32)
    requires bit < 128 && 1 <= p <= 7 && !Group(e, p)
    ensures Group(FlipBit(e, bit), p) == Bit(MaskWord(p, bit / 32), bit % 32)
  {
    FlipGroup(e, bit, p);
  }

  /** A single flip in a codeword that checks clean leaves the syndrome of that bit alone. */
  lemma CleanFlipSyndrome(e: Element, bit: bv32)
    requires bit < 128 && ComputeCol8(e) == 0
    ensures ComputeCol8(FlipBit(e, bit)) == UnitSyndrome(bit)
  {
    Col8Zero(e);
    Col8Groups(FlipBit(e, bit));
    CleanFlipGroup(e, bit, 1); CleanFlipGroup(e, bit, 2); CleanFlipGroup(e, bit, 3); CleanFlipGroup(e, bit, 4);
    CleanFlipGroup(e, bit, 5); CleanFlipGroup(e, bit, 6); CleanFlipGroup(e, bit, 7);
  }

  /** Codeword bit `bit` is in mask p exactly when its Hamming position has bit p-1. */
  lemma MaskIndex(bit: bv32, p: bv32)
    requires bit < 128 && 1 <= p <= 7
    ensures Bit(MaskWord(p, bit / 32), bit % 32) == Bit(HammIndex(bit), p - 1)
  {
    MaskRule(bit / 32, bit % 32, p);
    assert 32 * (bit / 32) + bit % 32 == bit;
    RuleBitIndex(bit, p);
  }

  /** A lone error at bit `bit` has the syndrome of that bit's Hamming position. */
  lemma UnitSyndromeIndex(bit: bv32)
    requires bit < 128
    ensures UnitSyndrome(bit) == HammSyndrome(HammIndex(bit))
  {
    MaskIndex(bit, 1); MaskIndex(bit, 2); MaskIndex(bit, 3); MaskIndex(bit, 4);
    MaskIndex(bit, 5); MaskIndex(bit, 6); MaskIndex(bit, 7);
  }

  /** Toggling the same bit twice restores the codeword. */
  lemma FlipBitTwice(e: Element, bit: bv32)
    requires bit < 128
    ensures FlipBit(FlipBit(e, bit), bit) == e
  {
    var u := 1 << (bit % 32);
    XorTwice(e.col, u); XorTwice(e.row, u); XorTwice(e.Low(), u); XorTwice(e.High(), u);
    PackSplit(e.value);
  }

  /** Word w of the flipped codeword: word `bit / 32` is toggled by `1 << (bit % 32)`, the others are kept. */
  lemma FlipWord(e: Element, bit: bv32, w: bv32)
    requires bit < 128 && w < 4
    ensures Word(FlipBit(e, bit), w) == if bit / 32 == w then Xor(Word(e, w), 1 << (bit % 32)) else Word(e, w)
  {}

  /** Flipping codeword bit `bit` changes bit i of word w exactly when that is bit `bit`. */
  lemma FlipBitWord(e: Element, bit: bv32, w: bv32, i: bv32)
    requires bit < 128 && w < 4 && i < 32
    ensures Bit(Word(FlipBit(e, bit), w), i) == (Bit(Word(e, w), i) != (32 * w + i == bit))
  {
    FlipWord(e, bit, w);
    if bit / 32 == w {
      XorBit(Word(e, w), 1 << (bit % 32), i);
      UnitBit(bit % 32, i);
    }
  }

  /** `data[bit / 32] ^= 1 << (bit % 32)` toggles codeword bit `bit` and no other. */
  lemma FlipBitExact(e: Element, bit: bv32, j: bv32)
    requires bit < 128 && j < 128
    ensures BitAt(FlipBit(e, bit), j) == (BitAt(e, j) != (j == bit))
  {
    FlipBitWord(e, bit, j / 32, j % 32);
  }

  /**
   * Single-error correction: in a codeword that checks clean, flip any bit
   * but the overall parity bit. The syndrome is then non-zero, names that
   * bit, and toggling the named bit restores the codeword.
   */
  lemma SingleErrorCorrected(e: Element, bit: bv32)
    requires ComputeCol8(e) == 0 && bit < 128 && bit != 24
    ensures ComputeCol8(FlipBit(e, bit)) >> 25 != 0
    ensures DataBit(HammBit(ComputeCol8(FlipBit(e, bit)))) == bit
    ensures FlipBit(FlipBit(e, bit), DataBit(HammBit(ComputeCol8(FlipBit(e, bit))))) == e
  {
    CleanFlipSyndrome(e, bit);
    UnitSyndromeIndex(bit);
    DecodeIndex(bit);
    HammBitSyndrome(HammIndex(bit));
    HammBitRange(ComputeCol8(FlipBit(e, bit)));
    FlipBitTwice(e, bit);
  }

  /** Column bit 24, the overall parity bit, lies in no parity group. */
  lemma Mask24(p: bv32)
    requires 1 <= p <= 7
    ensures !Bit(MaskWord(p, 0), 24)
  {
    BitShift(MaskWord(p, 0), 24);
  }

  /** Toggling bit 24 leaves group p alone. */
  lemma Flip24Group(e: Element, p: bv32)
    requires 1 <= p <= 7
    ensures Group(FlipBit(e, 24), p) == Group(e, p)
  {
    FlipGroup(e, 24, p);
    Mask24(p);
  }

  /** Bit 24 is in no parity group, so toggling it leaves every group parity alone. */
  lemma Flip24Syndrome(e: Element)
    ensures ComputeCol8(FlipBit(e, 24)) == ComputeCol8(e)
  {
    Col8Groups(e);
    Col8Groups(FlipBit(e, 24));
    Flip24Group(e, 1); Flip24Group(e, 2); Flip24Group(e, 3); Flip24Group(e, 4);
    Flip24Group(e, 5); Flip24Group(e, 6); Flip24Group(e, 7);
  }

  /** The parity of all four words is the parity group whose masks keep every bit. */
  lemma AllWordsGroup(e: Element)
    ensures Odd(AllWords(e)) == GroupOddOf(e.col, e.row, e.Low(), e.High(), 0xFFFF_FFFF, 0xFFFF_FFFF, 0xFFFF_FFFF, 0xFFFF_FFFF)
  {
    var m: bv32 := 0xFFFF_FFFF;
    GroupOddOfXor(e.col, e.row, e.Low(), e.High(), m, m, m, m);
    AndOnes(e.col); AndOnes(e.row); AndOnes(e.Low()); AndOnes(e.High());
  }

  /** Flipping any one of the 128 bits toggles the parity of all four words together. */
  lemma AllWordsFlip(e: Element, bit: bv32)
    requires bit < 128
    ensures Odd(AllWords(FlipBit(e, bit))) == !Odd(AllWords(e))
  {
    var m: bv32 := 0xFFFF_FFFF;
    AllWordsGroup(e);
    AllWordsGroup(FlipBit(e, bit));
    AllOnes(bit % 32);
    if bit < 32 {
      FlipOddCol(e, bit, m, m, m, m);
    } else if bit < 64 {
      FlipOddRow(e, bit, m, m, m, m);
    } else if bit < 96 {
      FlipOddLow(e, bit, m, m, m, m);
    } else {
      FlipOddHigh(e, bit, m, m, m, m);
    }
  }

  /** Flipping any one of the 128 bits toggles the overall parity. */
  lemma ParityFlip(e: Element, bit: bv32)
    requires bit < 128
    ensures OverallParity(FlipBit(e, bit)) == 1 - OverallParity(e)
  {
    AllWordsFlip(e, bit);
    OverallParityOdd(e);
    OverallParityOdd(FlipBit(e, bit));
  }

  /** Two different codeword bits have different Hamming positions. */
  lemma HammIndexInjective(b1: bv32, b2: bv32)
    requires b1 < 128 && b2 < 128 && b1 != b2
    ensures HammIndex(b1) != HammIndex(b2)
  {
    DecodeIndex(b1);
    DecodeIndex(b2);
  }

  /** Flipping two bits toggles group p by the sum of their memberships. */
  lemma DoubleFlipGroup(e: Element, b1: bv32, b2: bv32, p: bv32)
    requires b1 < 128 && b2 < 128 && 1 <= p <= 7
    ensures Group(FlipBit(FlipBit(e, b1), b2), p)
            == (Group(e, p) != (Bit(HammIndex(b1), p - 1) != Bit(HammIndex(b2), p - 1)))
  {
    FlipGroup(e, b1, p);
    FlipGroup(FlipBit(e, b1), b2, p);
    MaskIndex(b1, p);
    MaskIndex(b2, p);
  }

  /**
   * Double-error detection: two flips at different bits of a codeword whose
   * syndrome and overall parity are both clean leave the parity even but the
   * syndrome non-zero, the combination the SECDED check reports as uncorrectable.
   */
  lemma DoubleErrorDetected(e: Element, b1: bv32, b2: bv32)
    requires ComputeCol8(e) == 0 && OverallParity(e) == 0
    requires b1 < 128 && b2 < 128 && b1 != b2
    ensures OverallParity(FlipBit(FlipBit(e, b1), b2)) == 0
    ensures ComputeCol8(FlipBit(FlipBit(e, b1), b2)) != 0
  {
    var f := FlipBit(FlipBit(e, b1), b2);
    ParityFlip(e, b1);
    ParityFlip(FlipBit(e, b1), b2);
    Col8Groups(e);
    Col8Groups(f);
    DoubleFlipGroup(e, b1, b2, 1); DoubleFlipGroup(e, b1, b2, 2); DoubleFlipGroup(e, b1, b2, 3);
    DoubleFlipGroup(e, b1, b2, 4); DoubleFlipGroup(e, b1, b2, 5); DoubleFlipGroup(e, b1, b2, 6);
    DoubleFlipGroup(e, b1, b2, 7);
    HammIndexInjective(b1, b2);
    DecodeIndex(b1);
    DecodeIndex(b2);
    if ComputeCol8(f) == 0 {
      SevenBits(HammIndex(b1), HammIndex(b2));
      assert false;
    }
  }
}
