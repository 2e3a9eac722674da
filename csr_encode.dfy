/**
 * The encode passes of the CSR layout: the mode switch at the end of
 * `load_sparse_matrix`, `generate_ecc_bits` of each context class and the
 * `init_matrix_ecc` of each per-mode C file. Each writes check bits into the
 * reserved column bits 24..31 of a colval whose column index leaves them
 * clear, after which the decoder sees a clean codeword. Column bit k is
 * codeword bit 64+k.
 */
module CsrEncode {
  import opened Bits
  import opened Syndrome
  import opened CsrEcc
  import opened CsrMasks
  import opened CsrCorrect

  /** Column bits 24..31 are clear: the column index is below 2^24. */
  predicate Unreserved(c: Colval)
  {
    c.col & 0xFF00_0000 == 0
  }

  /**
   * `col |= parity << k`: the overall parity written into column bit k.
   * When that bit was clear this flips it, codeword bit 64 + k, exactly when the parity is odd.
   */
  function WithParity(c: Colval, k: bv32): (r: Colval)
    requires k < 32
    ensures c.col & (1 << k) == 0 ==> r == if OverallParity(c) == 1 then FlipBit(c, 64 + k) else c
  {
    ParityFlipCol(c, k);
    Colval(c.value, c.col | (OverallParity(c) << k))
  }

  /** SED: `col |= parity << 31`, which keeps the column's index bits. */
  function EncodeSed(c: Colval): (r: Colval)
    ensures r.col & 0x00FF_FFFF == c.col & 0x00FF_FFFF
  {
    ParityIndex(c, 31);
    WithParity(c, 31)
  }

  /** SEC7: `col |= ecc_compute_col8(element)`. */
  function EncodeSec7(c: Colval): Colval
  {
    Colval(c.value, c.col | ComputeCol8(c))
  }

  /** SEC8 and SECDED: the SEC7 check bits, then `col |= parity << 24` over the result. */
  function EncodeSec8(c: Colval): Colval
  {
    WithParity(EncodeSec7(c), 24)
  }

  /** The encoders write the column word only. */
  lemma EncodeFields(c: Colval)
    ensures EncodeSed(c).value == c.value && EncodeSec7(c).value == c.value && EncodeSec8(c).value == c.value
  {}

  /**
   * Among column bits 25..31, the column mask (word 2) of group p holds only check
   * bit p at bit 32-p, so a word of check bits is seen by group p through
   * that bit alone.
   */
  lemma CheckMask(s: bv32, p: bv32)
    requires 1 <= p <= 7 && s & 0x01FF_FFFF == 0
    ensures And(s, MaskWord(p, 2)) == And(1 << (32 - p), s)
  {
    if p == 1 {
    } else if p == 2 {
    } else if p == 3 {
    } else if p == 4 {
    } else if p == 5 {
    } else if p == 6 {
    } else {
    }
  }

  /** A word of check bits `s` is odd under the column mask of group p exactly when check bit p is set. */
  lemma CheckOdd(s: bv32, p: bv32)
    requires 1 <= p <= 7 && s & 0x01FF_FFFF == 0
    ensures Odd(And(s, MaskWord(p, 2))) == Bit(s, 32 - p)
  {
    CheckMask(s, p);
    OddAndUnit(32 - p, s);
  }

  /** OR-ing check bits into a clear column toggles exactly those bits. */
  lemma OrXor(c: bv32, s: bv32)
    requires c & 0xFF00_0000 == 0 && s & 0x01FF_FFFF == 0
    ensures c | s == Xor(c, s)
  {}

  /** OR-ing check bits into a clear column keeps the index bits and leaves bit 24 clear. */
  lemma OrIndex(c: bv32, s: bv32)
    requires c & 0xFF00_0000 == 0 && s & 0x01FF_FFFF == 0
    ensures (c | s) & 0x00FF_FFFF == c && (c | s) & (1 << 24) == 0
  {}

  /** SEC7 encoding of a clear column toggles exactly the check bits of the column word. */
  lemma Sec7Xor(c: Colval)
    requires Unreserved(c)
    ensures EncodeSec7(c).col == Xor(c.col, ComputeCol8(c)) && EncodeSec7(c).value == c.value
  {
    Col8Low(c);
    OrXor(c.col, ComputeCol8(c));
  }

  /** OR-ing the check bits of `c` into its clear column makes group p even. */
  lemma Sec7Group(c: Colval, p: bv32)
    requires Unreserved(c) && 1 <= p <= 7
    ensures !Group(EncodeSec7(c), p)
  {
    Sec7Xor(c);
    FlipGroupWord2(c.Low(), c.High(), c.col, ComputeCol8(c), MaskWord(p, 0), MaskWord(p, 1), MaskWord(p, 2));
    Col8Low(c);
    CheckOdd(ComputeCol8(c), p);
    Col8Bit(c, p);
  }

  /** Check bit p of `ComputeCol8(c)`, at column bit 32-p, is the parity of group p. */
  lemma Col8Bit(c: Colval, p: bv32)
    requires 1 <= p <= 7
    ensures Bit(ComputeCol8(c), 32 - p) == Group(c, p)
  {
    Col8Groups(c);
    CheckBitsBit(Group(c, 1), Group(c, 2), Group(c, 3), Group(c, 4), Group(c, 5), Group(c, 6), Group(c, 7));
    if p == 1 {
    } else if p == 2 {
    } else if p == 3 {
    } else if p == 4 {
    } else if p == 5 {
    } else if p == 6 {
    } else {
    }
  }

  /** Encode/check round trip for SEC7: the syndrome of a freshly encoded element is zero. */
  lemma Sec7Clean(c: Colval)
    requires Unreserved(c)
    ensures ComputeCol8(EncodeSec7(c)) == 0
  {
    Sec7Group(c, 1); Sec7Group(c, 2); Sec7Group(c, 3); Sec7Group(c, 4);
    Sec7Group(c, 5); Sec7Group(c, 6); Sec7Group(c, 7);
    Col8Zero(EncodeSec7(c));
  }

  /** SEC7 encoding keeps the column's index bits and leaves bit 24 clear. */
  lemma Sec7Index(c: Colval)
    requires Unreserved(c)
    ensures EncodeSec7(c).col & 0x00FF_FFFF == c.col && EncodeSec7(c).col & (1 << 24) == 0
  {
    Col8Low(c);
    OrIndex(c.col, ComputeCol8(c));
  }

  /** Setting a clear column bit flips it. */
  lemma SetBitFlip(c: Colval, k: bv32)
    requires k < 32 && c.col & (1 << k) == 0
    ensures Colval(c.value, c.col | (1 << k)) == FlipBit(c, 64 + k)
  {
    SetClearBit(c.col, k, 2);
  }

  /** Writing the overall parity into clear column bit k flips that bit when the parity is odd. */
  lemma ParityFlipCol(c: Colval, k: bv32)
    requires k < 32
    ensures c.col & (1 << k) == 0 ==>
      Colval(c.value, c.col | (OverallParity(c) << k)) == if OverallParity(c) == 1 then FlipBit(c, 64 + k) else c
  {
    OverallParityFlag(c);
    ShiftFlag(OverallParity(c), c.col, k);
    if c.col & (1 << k) == 0 && OverallParity(c) == 1 {
      SetBitFlip(c, k);
    }
  }

  /** OR-ing a 0/1 flag shifted to bit k sets bit k when the flag is 1 and does nothing otherwise. */
  lemma ShiftFlag(q: bv32, c: bv32, k: bv32)
    requires q <= 1 && k < 32
    ensures c | (q << k) == if q == 1 then c | (1 << k) else c
  {
    if q == 0 {
      assert q << k == 0;
    }
  }

  /** Writing the parity into a reserved column bit keeps the index bits. */
  lemma ParityIndex(c: Colval, k: bv32)
    requires 24 <= k < 32
    ensures (c.col | (OverallParity(c) << k)) & 0x00FF_FFFF == c.col & 0x00FF_FFFF
  {
    OverallParityFlag(c);
    FlagKeepsIndex(c.col, OverallParity(c), k);
  }

  /** SEC8 encoding is SEC7 encoding followed, when the parity is odd, by a flip of bit 24. */
  lemma Sec8Flip(c: Colval)
    requires Unreserved(c)
    ensures EncodeSec8(c) == if OverallParity(EncodeSec7(c)) == 1 then FlipBit(EncodeSec7(c), 88) else EncodeSec7(c)
  {
    Sec7Index(c);
  }

  /** Encode/check round trip for SEC8 and SECDED: the syndrome is zero once both are written. */
  lemma Sec8Clean(c: Colval)
    requires Unreserved(c)
    ensures ComputeCol8(EncodeSec8(c)) == 0
  {
    Sec7Clean(c);
    Sec8Flip(c);
    Flip88Syndrome(EncodeSec7(c));
  }

  /** Encode/check round trip for SEC8 and SECDED: the overall parity is even once both are written. */
  lemma Sec8Parity(c: Colval)
    requires Unreserved(c)
    ensures OverallParity(EncodeSec8(c)) == 0
  {
    Sec8Flip(c);
    ParityFlip(EncodeSec7(c), 88);
  }

  /** SEC8 encoding keeps the column's index bits. */
  lemma Sec8Index(c: Colval)
    requires Unreserved(c)
    ensures EncodeSec8(c).col & 0x00FF_FFFF == c.col
  {
    Sec7Index(c);
    ParityIndex(EncodeSec7(c), 24);
  }

  /** SED encoding is a flip of bit 31 when the parity is odd. */
  lemma SedFlip(c: Colval)
    requires c.col & 0x8000_0000 == 0
    ensures EncodeSed(c) == if OverallParity(c) == 1 then FlipBit(c, 95) else c
  {
    assert 1 << 31 == 0x8000_0000 as bv32;
  }

  /** Encode/check round trip for SED: once bit 31 holds the parity of the rest, the parity is even. */
  lemma SedClean(c: Colval)
    requires c.col & 0x8000_0000 == 0
    ensures OverallParity(EncodeSed(c)) == 0
  {
    SedFlip(c);
    ParityFlip(c, 95);
  }
}
