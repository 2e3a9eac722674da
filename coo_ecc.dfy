/**
 * The 128-bit codeword of a COO matrix element (ecc.c). Its four 32-bit
 * words are the column index, the row index, and the low and high words of
 * the double value. Seven Hamming check bits live in column bits 25..31
 * (check bit p at column bit 32-p) and an optional overall parity bit in
 * column bit 24, so the column index proper is limited to bits 0..23.
 */
module CooEcc {
  import opened Bits
  import opened Syndrome

  /**
   * `matrix_entry`: the column and row indices and the bit pattern of the
   * double value, which the codec reads as its low and high 32-bit words.
   */
  datatype Element = Element(col: bv32, row: bv32, value: bv64)
  {
    /** Word 2 of the codeword, the low half of the value. */
    function Low(): bv32 { Lo(value) }

    /** Word 3 of the codeword, the high half of the value. */
    function High(): bv32 { Hi(value) }
  }

  /** Word `w` of mask `ECC7_Pp_w`, 1 <= p <= 7, 0 <= w < 4. */
  function MaskWord(p: bv32, w: bv32): bv32
    requires 1 <= p <= 7 && w < 4
  {
    if p == 1 then (if w == 0 then 0x80AAAD5B else if w == 1 then 0x55555556 else if w == 2 then 0xAAAAAAAB else 0xAAAAAAAA)
    else if p == 2 then (if w == 0 then 0x4033366D else if w == 1 then 0x9999999B else if w == 2 then 0xCCCCCCCD else 0xCCCCCCCC)
    else if p == 3 then (if w == 0 then 0x20C3C78E else if w == 1 then 0xE1E1E1E3 else if w == 2 then 0xF0F0F0F1 else 0xF0F0F0F0)
    else if p == 4 then (if w == 0 then 0x10FC07F0 else if w == 1 then 0xFE01FE03 else if w == 2 then 0xFF00FF01 else 0xFF00FF00)
    else if p == 5 then (if w == 0 then 0x08FFF800 else if w == 1 then 0xFFFE0003 else if w == 2 then 0xFFFF0001 else 0xFFFF0000)
    else if p == 6 then (if w == 0 then 0x04000000 else if w == 1 then 0xFFFFFFFC else if w == 2 then 0x00000001 else 0xFFFFFFFF)
    else (if w == 0 then 0x02000000 else if w == 1 then 0x00000000 else if w == 2 then 0xFFFFFFFE else 0xFFFFFFFF)
  }

  /** Word `w` of the codeword, as `((uint32_t*)&element)[w]` reads it. */
  function Word(e: Element, w: bv32): bv32
    requires w < 4
  {
    if w == 0 then e.col else if w == 1 then e.row else if w == 2 then e.Low() else e.High()
  }

  /** Bit `j` of the codeword, 0 <= j < 128: bit `j % 32` of word `j / 32`. */
  predicate BitAt(e: Element, j: bv32)
    requires j < 128
  {
    Bit(Word(e, j / 32), j % 32)
  }

  /** The group word of `e` for group `p`, as `ecc_compute_col8` forms it. */
  function Masked(e: Element, p: bv32): bv32
    requires 1 <= p <= 7
  {
    Xor(Xor(Xor(And(e.col, MaskWord(p, 0)), And(e.row, MaskWord(p, 1))),
            And(e.Low(), MaskWord(p, 2))), And(e.High(), MaskWord(p, 3)))
  }

  /** The exclusive or of four truth values. */
  predicate Xor4(p: bool, q: bool, r: bool, s: bool)
  {
    ((p != q) != r) != s
  }

  /**
   * Parity group (m0, m1, m2, m3) of the words a, b, c, d has an odd number
   * of set bits, taken word by word.
   */
  predicate GroupOddOf(a: bv32, b: bv32, c: bv32, d: bv32, m0: bv32, m1: bv32, m2: bv32, m3: bv32)
  {
    Xor4(Odd(And(a, m0)), Odd(And(b, m1)), Odd(And(c, m2)), Odd(And(d, m3)))
  }

  /** Parity group p of the codeword `e` is odd. */
  predicate Group(e: Element, p: bv32)
    requires 1 <= p <= 7
  {
    GroupOddOf(e.col, e.row, e.Low(), e.High(), MaskWord(p, 0), MaskWord(p, 1), MaskWord(p, 2), MaskWord(p, 3))
  }

  lemma GroupOddOfXor(a: bv32, b: bv32, c: bv32, d: bv32, m0: bv32, m1: bv32, m2: bv32, m3: bv32)
    ensures Odd(Xor(Xor(Xor(And(a, m0), And(b, m1)), And(c, m2)), And(d, m3)))
            == GroupOddOf(a, b, c, d, m0, m1, m2, m3)
  {
    var x, y := Xor(Xor(And(a, m0), And(b, m1)), And(c, m2)), And(d, m3);
    OddXor(x, y);
    OddXor3(And(a, m0), And(b, m1), And(c, m2));
  }

  /** The source's form, the parity of the exclusive or of the masked words, is `Group`. */
  lemma MaskedOdd(e: Element, p: bv32)
    requires 1 <= p <= 7
    ensures Odd(Masked(e, p)) == Group(e, p)
  {
    GroupOddOfXor(e.col, e.row, e.Low(), e.High(), MaskWord(p, 0), MaskWord(p, 1), MaskWord(p, 2), MaskWord(p, 3));
  }

  /**
   * `ecc_compute_col8`: the seven group parities at bits 31..25. Applied to an
   * element whose check bits are clear it yields the check bits to store;
   * applied to a stored codeword it yields the error syndrome.
   */
  function ComputeCol8(e: Element): bv32
  {
    ParityBits(Masked(e, 1), Masked(e, 2), Masked(e, 3), Masked(e, 4),
               Masked(e, 5), Masked(e, 6), Masked(e, 7))
  }

  /** The syndrome in terms of the seven group parities. */
  lemma Col8Groups(e: Element)
    ensures ComputeCol8(e) == CheckBits(Group(e, 1), Group(e, 2), Group(e, 3), Group(e, 4),
                                        Group(e, 5), Group(e, 6), Group(e, 7))
  {
    ParityBitsCheck(Masked(e, 1), Masked(e, 2), Masked(e, 3), Masked(e, 4),
                    Masked(e, 5), Masked(e, 6), Masked(e, 7));
    MaskedOdd(e, 1); MaskedOdd(e, 2); MaskedOdd(e, 3); MaskedOdd(e, 4);
    MaskedOdd(e, 5); MaskedOdd(e, 6); MaskedOdd(e, 7);
  }

  /** `ecc_compute_col8` only ever sets bits 25..31. */
  lemma Col8Low(e: Element)
    ensures ComputeCol8(e) & 0x01FF_FFFF == 0
  {
    Col8Groups(e);
    CheckBitsLow(Group(e, 1), Group(e, 2), Group(e, 3), Group(e, 4), Group(e, 5), Group(e, 6), Group(e, 7));
  }

  /** The syndrome is zero exactly when every group is even. */
  lemma Col8Zero(e: Element)
    ensures (ComputeCol8(e) == 0) == (!Group(e, 1) && !Group(e, 2) && !Group(e, 3) && !Group(e, 4) &&
                                      !Group(e, 5) && !Group(e, 6) && !Group(e, 7))
  {
    Col8Groups(e);
    CheckBitsZero(Group(e, 1), Group(e, 2), Group(e, 3), Group(e, 4), Group(e, 5), Group(e, 6), Group(e, 7));
  }

  /** The exclusive or of all four words. */
  function AllWords(e: Element): bv32
  {
    Xor(Xor(Xor(e.col, e.row), e.Low()), e.High())
  }

  /** `ecc_compute_overall_parity`: the parity of all 128 bits. */
  function OverallParity(e: Element): bv32
  {
    Parity(AllWords(e))
  }

  /** The overall parity is a 0/1 flag. */
  lemma OverallParityFlag(e: Element)
    ensures OverallParity(e) == 0 || OverallParity(e) == 1
  {}

  /** The overall parity is a single bit, set exactly when the four words together are odd. */
  lemma OverallParityOdd(e: Element)
    ensures OverallParity(e) <= 1 && (OverallParity(e) == 1) == Odd(AllWords(e))
  {
    ParityOdd(AllWords(e));
  }

  /** Two codewords are equal when their four words are. */
  lemma WordsEqual(e: Element, d: Element)
    requires e.col == d.col && e.row == d.row && e.Low() == d.Low() && e.High() == d.High()
    ensures e == d
  {
    PackSplit(e.value);
    PackSplit(d.value);
  }

  /**
   * Toggle bit `bit` of the codeword: `data[bit / 32] ^= 1 << (bit % 32)`, as
   * `ecc_correct_col8` and the kernels' inline correction do. Word `bit / 32`
   * is the column, the row, or the low or high half of the value.
   */
  function FlipBit(e: Element, bit: bv32): Element
    requires bit < 128
  {
    var u := 1 << (bit % 32);
    if bit < 32 then Element(Xor(e.col, u), e.row, e.value)
    else if bit < 64 then Element(e.col, Xor(e.row, u), e.value)
    else if bit < 96 then Element(e.col, e.row, Pack(Xor(e.Low(), u), e.High()))
    else Element(e.col, e.row, Pack(e.Low(), Xor(e.High(), u)))
  }

  /**
   * The codeword bit at Hamming position h != 0: a power of two 2^k is
   * check bit k+1, stored at column bit 31-k; any other position is counted
   * among the non-powers of two, skipping the reserved column bits 24..31.
   */
  function DataBit(h: bv32): bv32
    requires h != 0
  {
    var d := h - (32 - Clz(h)) - 1;
    if IsPowerOf2(h) then Clz(h) else if d >= 24 then d + 8 else d
  }

  /**
   * `ecc_correct_col8`: locate the flipped bit from the syndrome and toggle
   * it. The syndrome must name a position (`__builtin_clz(0)` is undefined).
   */
  method CorrectCol8(e: Element, syndrome: bv32) returns (r: Element, bit: bv32)
    requires syndrome >> 25 != 0
    ensures HammBit(syndrome) != 0 && bit == DataBit(HammBit(syndrome))
    ensures bit < 128 && r == FlipBit(e, bit)
  {
    var hamm: bv32 := 0;
    var p: bv32 := 1;
    while p <= 7
      invariant 1 <= p <= 8
      invariant hamm == HammUpTo(syndrome, p - 1)
    {
      HammStep(syndrome, p);
      if (syndrome >> (32 - p)) & 1 == 1 {
        hamm := hamm + (1 << (p - 1));
      }
      p := p + 1;
    }
    HammBitRange(syndrome);
    DataBitRange(hamm);
    bit := DataBit(hamm);
    r := FlipBit(e, bit);
  }

  /**
   * The mapping of `ecc_correct_col8`: every position in 1..127 lands
   * inside the codeword but never on the overall parity bit 24.
   */
  lemma DataBitRange(h: bv32)
    requires 1 <= h <= 127
    ensures DataBit(h) < 128 && DataBit(h) != 24
  {
    PowerOf2Single(h);
  }

  /** Hamming position 2^k, the position of check bit k+1, maps to column bit 31-k. */
  lemma DataBitPow(k: bv32)
    requires k < 7
    ensures DataBit(1 << k) == 31 - k
  {}
}
