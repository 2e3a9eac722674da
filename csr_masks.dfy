/**
 * Where the CSR mask table comes from: every codeword bit has a Hamming
 * position, and mask p holds exactly the bits whose position has bit p-1
 * set. Check bit p, at codeword bit 96-p, has position 2^(p-1); the overall
 * parity bit 88 has none; the 88 data bits 0..87 get the positions that are
 * not powers of two, 3, 5, 6, 7, 9, ..., 95, in order.
 */
module CsrMasks {
  import opened Bits
  import opened Syndrome
  import opened CsrEcc

  /** The Hamming position of codeword bit `bit`; 0 for the overall parity bit. */
  function HammIndex(bit: bv32): bv32
    requires bit < 96
  {
    if bit == 88 then 0
    else if 88 < bit then 1 << (95 - bit)
    else NonPow(bit)
  }

  lemma MaskRule0(b: bv32, p: bv32)
    requires b < 32 && 1 <= p <= 7
    ensures Bit(MaskWord(p, 0), b) == Bit(HammIndex(0 + b), p - 1)
  {
    BitShift(MaskWord(p, 0), b);
    BitShift(HammIndex(0 + b), p - 1);
    if p == 1 {} else if p == 2 {} else if p == 3 {} else if p == 4 {} else if p == 5 {} else if p == 6 {} else {}
  }

  lemma MaskRule1(b: bv32, p: bv32)
    requires b < 32 && 1 <= p <= 7
    ensures Bit(MaskWord(p, 1), b) == Bit(HammIndex(32 + b), p - 1)
  {
    BitShift(MaskWord(p, 1), b);
    BitShift(HammIndex(32 + b), p - 1);
    if p == 1 {} else if p == 2 {} else if p == 3 {} else if p == 4 {} else if p == 5 {} else if p == 6 {} else {}
  }

  lemma MaskRule2(b: bv32, p: bv32)
    requires b < 32 && 1 <= p <= 7
    ensures Bit(MaskWord(p, 2), b) == Bit(HammIndex(64 + b), p - 1)
  {
    BitShift(MaskWord(p, 2), b);
    BitShift(HammIndex(64 + b), p - 1);
    if p == 1 {} else if p == 2 {} else if p == 3 {} else if p == 4 {} else if p == 5 {} else if p == 6 {} else {}
  }

  /**
   * The CSR table is the Hamming code of the layout: bit `bit` of the
   * codeword is in mask p exactly when its position has bit p-1 set. In
   * particular word 2 of mask p holds column bit 32-p and not bit 24.
   */
  lemma MaskIndex(bit: bv32, p: bv32)
    requires bit < 96 && 1 <= p <= 7
    ensures Bit(MaskWord(p, bit / 32), bit % 32) == Bit(HammIndex(bit), p - 1)
  {
    if bit < 32 {
      MaskRule0(bit % 32, p);
    } else if bit < 64 {
      MaskRule1(bit % 32, p);
    } else {
      MaskRule2(bit % 32, p);
    }
  }

  lemma DecodeIndexData(bit: bv32)
    requires bit < 88
    ensures DataBit(HammIndex(bit)) == bit
  {}

  lemma DecodeIndexCheck(bit: bv32)
    requires 88 < bit < 96
    ensures DataBit(HammIndex(bit)) == bit
  {}

  /**
   * The Hamming positions of all bits but 88 are 1..95, and the mapping of
   * `ecc_get_flipped_bit_col8` sends each position back to its bit; bit 88
   * has none.
   */
  lemma DecodeIndex(bit: bv32)
    requires bit < 96
    ensures HammIndex(bit) <= 95
    ensures (HammIndex(bit) == 0) == (bit == 88)
    ensures bit != 88 ==> DataBit(HammIndex(bit)) == bit
  {
    if bit < 88 {
      DecodeIndexData(bit);
    } else if 88 < bit {
      DecodeIndexCheck(bit);
    }
  }
}
