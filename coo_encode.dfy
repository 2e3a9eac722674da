/**
 * The encode passes of the COO layout: `generate_ecc_bits` of each context
 * class and the `init_matrix_ecc` of each per-mode C file. Each writes check
 * bits into the reserved column bits 24..31 of an element whose column index
 * leaves them clear, after which the decoder sees a clean codeword.
 */
module CooEncode {
  import opened Bits
  import opened Syndrome
  import opened CooEcc
  import opened CooMasks
  import opened CooCorrect

  /** Column bits 24..31 are clear: the column index is below 2^24. */
  predicate Unreserved(e: Element)
  {
    e.col & 0xFF00_0000 == 0
  }

  /**
   * `col |= parity << k`: the overall parity written into column bit k.
   * When that bit was clear this flips it exactly when the parity is odd.
   */
  function WithParity(e: Element, k: bv32): (r: Element)
    requires k < 32
    ensures e.col & (1 << k) == 0 ==> r == if OverallParity(e) == 1 then FlipBit(e, k) else e
  {
    ParityFlipCol(e, k);
    Element(e.col | (OverallParity(e) << k), e.row, e.value)
  }

  /** SED: `col |= parity << 31`, which keeps the column's index bits. */
  function EncodeSed(e: Element): (r: Element)
    ensures r.col & 0x00FF_FFFF == e.col & 0x00FF_FFFF
  {
    ParityIndex(e, 31);
    WithParity(e, 31)
  }

  /** SEC7: `col |= ecc_compute_col8(element)`. */
  function EncodeSec7(e: Element): Element
  {
    Element(e.col | ComputeCol8(e), e.row, e.value)
  }

  /** SEC8 and SECDED: the SEC7 check bits, then `col |= parity << 24` over the result. */
  function EncodeSec8(e: Element): Element
  {
    WithParity(EncodeSec7(e), 24)
  }

  /** The encoders write the column word only. */
  lemma EncodeFields(e: Element)
    ensures EncodeSed(e).row == e.row && EncodeSed(e).value == e.value
    ensures EncodeSec7(e).row == e.row && EncodeSec7(e).value == e.value
    ensures EncodeSec8(e).row == e.row && EncodeSec8(e).value == e.value
  {}

  /**
   * Among column bits 25..31, the word-0 mask of group p holds only check
   * bit p at bit 32-p, so a word of check bits is seen by group p through
   * that bit alone.
   */
  lemma CheckMask(s: bv32, p: bv32)
    requires 1 <= p <= 7 && s & 0x01FF_FFFF == 0
    ensures And(s, MaskWord(p, 0)) == And(1 << (32 - p), s)
  {
    if p == 1 {
    } else if p == 2 {
    } else if p == 3 {
    } else if p == 4 {
    } else if p == 5 {
    } else if p == 6 {
    } else {
    }
  }

  /** A word of check bits `s` is odd under the word-0 mask of group p exactly when check bit p is set. */
  lemma CheckOdd(s: bv32, p: bv32)
    requires 1 <= p <= 7 && s & 0x01FF_FFFF == 0
    ensures Odd(And(s, MaskWord(p, 0))) == Bit(s, 32 - p)
  {
    CheckMask(s, p);
    OddAndUnit(32 - p, s);
  }

  /** OR-ing check bits into a clear column toggles exactly those bits. */
  lemma OrXor(c: bv32, s: bv32)
    requires c & 0xFF00_0000 == 0 && s & 0x01FF_FFFF == 0
    ensures c | s == Xor(c, s)
  {}

  /** OR-ing check bits into a clear column keeps the index bits and leaves bit 24 clear. */
  lemma OrIndex(c: bv32, s: bv32)
    requires c & 0xFF00_0000 == 0 && s & 0x01FF_FFFF == 0
    ensures (c | s) & 0x00FF_FFFF == c && (c | s) & (1 << 24) == 0
  {}

  /** SEC7 encoding of a clear column toggles exactly the check bits of the column word. */
  lemma Sec7Xor(e: Element)
    requires Unreserved(e)
    ensures EncodeSec7(e).col == Xor(e.col, ComputeCol8(e))
    ensures EncodeSec7(e).row == e.row && EncodeSec7(e).value == e.value
  {
    Col8Low(e);
    OrXor(e.col, ComputeCol8(e));
  }

  /** OR-ing the check bits of `e` into its clear column makes group p even. */
  lemma Sec7Group(e: Element, p: bv32)
    requires Unreserved(e) && 1 <= p <= 7
    ensures !Group(EncodeSec7(e), p)
  {
    Sec7Xor(e);
    FlipGroupWord0(e.col, e.row, e.Low(), e.High(), ComputeCol8(e),
                   MaskWord(p, 0), MaskWord(p, 1), MaskWord(p, 2), MaskWord(p, 3));
    Col8Low(e);
    CheckOdd(ComputeCol8(e), p);
    Col8Bit(e, p);
  }

  /** Check bit p of `ComputeCol8(e)`, at column bit 32-p, is the parity of group p. */
  lemma Col8Bit(e: Element, p: bv32)
    requires 1 <= p <= 7
    ensures Bit(ComputeCol8(e), 32 - p) == Group(e, p)
  {
    Col8Groups(e);
    CheckBitsBit(Group(e, 1), Group(e, 2), Group(e, 3), Group(e, 4), Group(e, 5), Group(e, 6), Group(e, 7));
    if p == 1 {
    } else if p == 2 {
    } else if p == 3 {
    } else if p == 4 {
    } else if p == 5 {
    } else if p == 6 {
    } else {
    }
  }

  /** Encode/check round trip for SEC7: the syndrome of a freshly encoded element is zero. */
  lemma Sec7Clean(e: Element)
    requires Unreserved(e)
    ensures ComputeCol8(EncodeSec7(e)) == 0
  {
    Sec7Group(e, 1); Sec7Group(e, 2); Sec7Group(e, 3); Sec7Group(e, 4);
    Sec7Group(e, 5); Sec7Group(e, 6); Sec7Group(e, 7);
    Col8Zero(EncodeSec7(e));
  }

  /** SEC7 encoding keeps the column's index bits and leaves bit 24 clear. */
  lemma Sec7Index(e: Element)
    requires Unreserved(e)
    ensures EncodeSec7(e).col & 0x00FF_FFFF == e.col && EncodeSec7(e).col & (1 << 24) == 0
  {
    Col8Low(e);
    OrIndex(e.col, ComputeCol8(e));
  }

  /** Setting a clear column bit flips it. */
  lemma SetBitFlip(e: Element, k: bv32)
    requires k < 32 && e.col & (1 << k) == 0
    ensures Element(e.col | (1 << k), e.row, e.value) == FlipBit(e, k)
  {
    SetClearBit(e.col, k, 0);
  }

  /** Writing the overall parity into clear column bit k flips that bit when the parity is odd. */
  lemma ParityFlipCol(e: Element, k: bv32)
    requires k < 32
    ensures e.col & (1 << k) == 0 ==>
      Element(e.col | (OverallParity(e) << k), e.row, e.value) == if OverallParity(e) == 1 then FlipBit(e, k) else e
  {
    OverallParityFlag(e);
    ShiftFlag(OverallParity(e), e.col, k);
    if e.col & (1 << k) == 0 && OverallParity(e) == 1 {
      SetBitFlip(e, k);
    }
  }

  /** OR-ing a 0/1 flag shifted to bit k sets bit k when the flag is 1 and does nothing otherwise. */
  lemma ShiftFlag(q: bv32, c: bv32, k: bv32)
    requires q <= 1 && k < 32
    ensures c | (q << k) == if q == 1 then c | (1 << k) else c
  {
    if q == 0 {
      assert q << k == 0;
    }
  }

  /** Writing the parity into a reserved column bit keeps the index bits. */
  lemma ParityIndex(e: Element, k: bv32)
    requires 24 <= k < 32
    ensures (e.col | (OverallParity(e) << k)) & 0x00FF_FFFF == e.col & 0x00FF_FFFF
  {
    OverallParityFlag(e);
    FlagKeepsIndex(e.col, OverallParity(e), k);
  }

  /** SEC8 encoding is SEC7 encoding followed, when the parity is odd, by a flip of bit 24. */
  lemma Sec8Flip(e: Element)
    requires Unreserved(e)
    ensures EncodeSec8(e) == if OverallParity(EncodeSec7(e)) == 1 then FlipBit(EncodeSec7(e), 24) else EncodeSec7(e)
  {
    Sec7Index(e);
  }

  /** Encode/check round trip for SEC8 and SECDED: the syndrome is zero once both are written. */
  lemma Sec8Clean(e: Element)
    requires Unreserved(e)
    ensures ComputeCol8(EncodeSec8(e)) == 0
  {
    Sec7Clean(e);
    Sec8Flip(e);
    Flip24Syndrome(EncodeSec7(e));
  }

  /** Encode/check round trip for SEC8 and SECDED: the overall parity is even once both are written. */
  lemma Sec8Parity(e: Element)
    requires Unreserved(e)
    ensures OverallParity(EncodeSec8(e)) == 0
  {
    Sec8Flip(e);
    ParityFlip(EncodeSec7(e), 24);
  }

  /** SEC8 encoding keeps the column's index bits. */
  lemma Sec8Index(e: Element)
    requires Unreserved(e)
    ensures EncodeSec8(e).col & 0x00FF_FFFF == e.col
  {
    Sec7Index(e);
    ParityIndex(EncodeSec7(e), 24);
  }

  /** SED encoding is a flip of bit 31 when the parity is odd. */
  lemma SedFlip(e: Element)
    requires e.col & 0x8000_0000 == 0
    ensures EncodeSed(e) == if OverallParity(e) == 1 then FlipBit(e, 31) else e
  {
    assert 1 << 31 == 0x8000_0000 as bv32;
  }

  /** Encode/check round trip for SED: once bit 31 holds the parity of the rest, the parity is even. */
  lemma SedClean(e: Element)
    requires e.col & 0x8000_0000 == 0
    ensures OverallParity(EncodeSed(e)) == 0
  {
    SedFlip(e);
    ParityFlip(e, 31);
  }
}
