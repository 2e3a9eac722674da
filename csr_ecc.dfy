/**
 * The 96-bit codeword of a CSR nonzero (CSR/ecc.h): the packed `csr_colval`
 * holds the double value first and the column index after it, so the three
 * 32-bit words are the value's low word, its high word and the column.
 * Seven Hamming check bits live in column bits 25..31 (check bit p at
 * codeword bit 96-p) and an optional overall parity bit in column bit 24
 * (codeword bit 88); the 88 data bits are codeword bits 0..87.
 */
module CsrEcc {
  import opened Bits
  import opened Syndrome

  /**
   * `csr_colval`: the bit pattern of the value, read as its low and high
   * words, and the column.
   */
  datatype Colval = Colval(value: bv64, col: bv32)
  {
    /** Word 0 of the codeword, the low half of the value. */
    function Low(): bv32 { Lo(value) }

    /** Word 1 of the codeword, the high half of the value. */
    function High(): bv32 { Hi(value) }
  }

  /** Word `w` of mask `ECC7_Pp_w`, 1 <= p <= 7, 0 <= w < 3. */
  function MaskWord(p: bv32, w: bv32): bv32
    requires 1 <= p <= 7 && w < 3
  {
    if p == 1 then (if w == 0 then 0x56AAAD5B else if w == 1 then 0xAB555555 else 0x80AAAAAA)
    else if p == 2 then (if w == 0 then 0x9B33366D else if w == 1 then 0xCD999999 else 0x40CCCCCC)
    else if p == 3 then (if w == 0 then 0xE3C3C78E else if w == 1 then 0xF1E1E1E1 else 0x20F0F0F0)
    else if p == 4 then (if w == 0 then 0x03FC07F0 else if w == 1 then 0x01FE01FE else 0x10FF00FF)
    else if p == 5 then (if w == 0 then 0x03FFF800 else if w == 1 then 0x01FFFE00 else 0x08FFFF00)
    else if p == 6 then (if w == 0 then 0xFC000000 else if w == 1 then 0x01FFFFFF else 0x04000000)
    else (if w == 0 then 0x00000000 else if w == 1 then 0xFE000000 else 0x02FFFFFF)
  }

  /** Word `w` of the codeword, as `((uint32_t*)&colval)[w]` reads it. */
  function Word(c: Colval, w: bv32): bv32
    requires w < 3
  {
    if w == 0 then c.Low() else if w == 1 then c.High() else c.col
  }

  /** Bit `j` of the codeword, 0 <= j < 96: bit `j % 32` of word `j / 32`. */
  predicate BitAt(c: Colval, j: bv32)
    requires j < 96
  {
    Bit(Word(c, j / 32), j % 32)
  }

  /** The group word of `c` for group `p`, as `ecc_compute_col8` forms it. */
  function Masked(c: Colval, p: bv32): bv32
    requires 1 <= p <= 7
  {
    Xor(Xor(And(c.Low(), MaskWord(p, 0)), And(c.High(), MaskWord(p, 1))), And(c.col, MaskWord(p, 2)))
  }

  /** The exclusive or of three truth values. */
  predicate Xor3(p: bool, q: bool, r: bool)
  {
    (p != q) != r
  }

  /** Parity group (m0, m1, m2) of the words a, b, c has an odd number of set bits. */
  predicate GroupOddOf(a: bv32, b: bv32, c: bv32, m0: bv32, m1: bv32, m2: bv32)
  {
    Xor3(Odd(And(a, m0)), Odd(And(b, m1)), Odd(And(c, m2)))
  }

  /** Parity group p of the codeword `c` is odd. */
  predicate Group(c: Colval, p: bv32)
    requires 1 <= p <= 7
  {
    GroupOddOf(c.Low(), c.High(), c.col, MaskWord(p, 0), MaskWord(p, 1), MaskWord(p, 2))
  }

  /** The source's form, the parity of the exclusive or of the masked words, is `Group`. */
  lemma MaskedOdd(c: Colval, p: bv32)
    requires 1 <= p <= 7
    ensures Odd(Masked(c, p)) == Group(c, p)
  {
    GroupOddOfXor(c.Low(), c.High(), c.col, MaskWord(p, 0), MaskWord(p, 1), MaskWord(p, 2));
  }

  lemma GroupOddOfXor(a: bv32, b: bv32, c: bv32, m0: bv32, m1: bv32, m2: bv32)
    ensures Odd(Xor(Xor(And(a, m0), And(b, m1)), And(c, m2))) == GroupOddOf(a, b, c, m0, m1, m2)
  {
    OddXor3(And(a, m0), And(b, m1), And(c, m2));
  }

  /**
   * `ecc_compute_col8`: the seven group parities at bits 31..25; the check
   * bits to store for a colval whose column bits 24..31 are clear, the
   * error syndrome for a stored codeword.
   */
  function ComputeCol8(c: Colval): bv32
  {
    ParityBits(Masked(c, 1), Masked(c, 2), Masked(c, 3), Masked(c, 4),
               Masked(c, 5), Masked(c, 6), Masked(c, 7))
  }

  /** The syndrome in terms of the seven group parities. */
  lemma Col8Groups(c: Colval)
    ensures ComputeCol8(c) == CheckBits(Group(c, 1), Group(c, 2), Group(c, 3), Group(c, 4),
                                        Group(c, 5), Group(c, 6), Group(c, 7))
  {
    ParityBitsCheck(Masked(c, 1), Masked(c, 2), Masked(c, 3), Masked(c, 4),
                    Masked(c, 5), Masked(c, 6), Masked(c, 7));
    MaskedOdd(c, 1); MaskedOdd(c, 2); MaskedOdd(c, 3); MaskedOdd(c, 4);
    MaskedOdd(c, 5); MaskedOdd(c, 6); MaskedOdd(c, 7);
  }

  /** `ecc_compute_col8` only ever sets bits 25..31. */
  lemma Col8Low(c: Colval)
    ensures ComputeCol8(c) & 0x01FF_FFFF == 0
  {
    Col8Groups(c);
    CheckBitsLow(Group(c, 1), Group(c, 2), Group(c, 3), Group(c, 4), Group(c, 5), Group(c, 6), Group(c, 7));
  }

  /** The syndrome is zero exactly when every group is even. */
  lemma Col8Zero(c: Colval)
    ensures (ComputeCol8(c) == 0) == (!Group(c, 1) && !Group(c, 2) && !Group(c, 3) && !Group(c, 4) &&
                                      !Group(c, 5) && !Group(c, 6) && !Group(c, 7))
  {
    Col8Groups(c);
    CheckBitsZero(Group(c, 1), Group(c, 2), Group(c, 3), Group(c, 4), Group(c, 5), Group(c, 6), Group(c, 7));
  }

  /** The exclusive or of the three words. */
  function AllWords(c: Colval): bv32
  {
    Xor(Xor(c.Low(), c.High()), c.col)
  }

  /** `ecc_compute_overall_parity`: the parity of all 96 bits. */
  function OverallParity(c: Colval): bv32
  {
    Parity(AllWords(c))
  }

  /** The overall parity is a 0/1 flag. */
  lemma OverallParityFlag(c: Colval)
    ensures OverallParity(c) == 0 || OverallParity(c) == 1
  {}

  /** The overall parity is a single bit, set exactly when the three words together are odd. */
  lemma OverallParityOdd(c: Colval)
    ensures OverallParity(c) <= 1 && (OverallParity(c) == 1) == Odd(AllWords(c))
  {
    ParityOdd(AllWords(c));
  }

  /**
   * `flip_bit` (CSR/common.c): `data[bit / 32] ^= 1 << (bit % 32)`. Word
   * `bit / 32` is the low or high half of the value, or the column.
   */
  function FlipBit(c: Colval, bit: bv32): Colval
    requires bit < 96
  {
    var u := 1 << (bit % 32);
    if bit < 32 then Colval(Pack(Xor(c.Low(), u), c.High()), c.col)
    else if bit < 64 then Colval(Pack(c.Low(), Xor(c.High(), u)), c.col)
    else Colval(c.value, Xor(c.col, u))
  }

  /**
   * The codeword bit `ecc_get_flipped_bit_col8` names for Hamming position
   * h != 0: a power of two 2^k is check bit k+1 at codeword bit 95-k
   * (`clz + 64`); any other position is counted among the non-powers of
   * two, with no reserved bits to skip.
   */
  function DataBit(h: bv32): bv32
    requires h != 0
  {
    if IsPowerOf2(h) then Clz(h) + 64 else h - (32 - Clz(h)) - 1
  }

  /**
   * `ecc_get_flipped_bit_col8`: accumulate the Hamming position from the
   * syndrome's check bits and map it to a codeword bit. The syndrome must
   * name a position (`__builtin_clz(0)` is undefined).
   */
  method GetFlippedBit(syndrome: bv32) returns (bit: bv32)
    requires syndrome >> 25 != 0
    ensures HammBit(syndrome) != 0 && bit == DataBit(HammBit(syndrome))
  {
    var hamm: bv32 := 0;
    var p: bv32 := 1;
    while p <= 7
      invariant 1 <= p <= 8
      invariant hamm == HammUpTo(syndrome, p - 1)
    {
      HammStep(syndrome, p);
      if (syndrome >> (32 - p)) & 1 == 1 {
        hamm := hamm + (1 << (p - 1));
      }
      p := p + 1;
    }
    HammBitRange(syndrome);
    bit := DataBit(hamm);
  }

  /**
   * Positions 1..95 map inside the 96-bit codeword and never onto the
   * overall parity bit 88.
   */
  lemma DataBitRange(h: bv32)
    requires 1 <= h <= 95
    ensures DataBit(h) < 96 && DataBit(h) != 88
  {
    PowerOf2Single(h);
  }

  /** Hamming position 2^k, the position of check bit k+1, maps to codeword bit 95-k. */
  lemma DataBitPow(k: bv32)
    requires k < 7
    ensures DataBit(1 << k) == 95 - k
  {}

  /**
   * Positions 96..127 name no bit of the codeword: they map to bit h-8,
   * from the overall parity bit 88 (h = 96) up to 119, past its end.
   */
  lemma DataBitHigh(h: bv32)
    requires 96 <= h <= 127
    ensures DataBit(h) == h - 8 && 88 <= DataBit(h) < 120
  {}
}
