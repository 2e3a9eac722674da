/**
 * Where the COO mask table comes from (`gen_ecc7_masks` in ecc.c): every
 * codeword bit gets a Hamming position, and mask p holds exactly the bits
 * whose position has bit p-1 set. Check bit p, at column bit 32-p, has
 * position 2^(p-1); the overall parity bit 24 has none; the 120 data bits,
 * taken in order and skipping column bits 24..31, get the positions that
 * are not powers of two, 3, 5, 6, 7, 9, ...
 */
module CooMasks {
  import opened Bits
  import opened Syndrome
  import opened CooEcc

  /** The number of data bits before codeword bit `bit`. */
  function DataIndex(bit: bv32): (k: bv32)
    requires bit <= 128
    ensures k <= 120
  {
    if bit <= 24 then bit else if bit <= 32 then 24 else bit - 8
  }

  /** The Hamming position of codeword bit `bit`; 0 for the overall parity bit. */
  function HammIndex(bit: bv32): bv32
    requires bit < 128
  {
    if bit == 24 then 0
    else if 24 < bit < 32 then 1 << (31 - bit)
    else NonPow(DataIndex(bit))
  }

  /** The rule `gen_ecc7_masks` applies to bit `bit` of mask p. */
  predicate RuleBit(bit: bv32, p: bv32)
    requires bit < 128 && 1 <= p <= 7
  {
    if 24 <= bit < 32 then 32 - bit == p else Bit(HammIndex(bit), p - 1)
  }

  /** The rule is the Hamming position read bit by bit, reserved bits included. */
  lemma RuleBitIndex(bit: bv32, p: bv32)
    requires bit < 128 && 1 <= p <= 7
    ensures RuleBit(bit, p) == Bit(HammIndex(bit), p - 1)
  {
    if bit == 24 {
      BitShift(0, p - 1);
    } else if 24 < bit < 32 {
      UnitBit(31 - bit, p - 1);
    }
  }

  lemma MaskRule0(b: bv32, p: bv32)
    requires b < 32 && 1 <= p <= 7
    ensures Bit(MaskWord(p, 0), b) == RuleBit(0 + b, p)
  {
    BitShift(MaskWord(p, 0), b);
    RuleBitIndex(0 + b, p);
    BitShift(HammIndex(0 + b), p - 1);
    if p == 1 {} else if p == 2 {} else if p == 3 {} else if p == 4 {} else if p == 5 {} else if p == 6 {} else {}
  }

  lemma MaskRule1(b: bv32, p: bv32)
    requires b < 32 && 1 <= p <= 7
    ensures Bit(MaskWord(p, 1), b) == RuleBit(32 + b, p)
  {
    BitShift(MaskWord(p, 1), b);
    RuleBitIndex(32 + b, p);
    BitShift(HammIndex(32 + b), p - 1);
    if p == 1 {} else if p == 2 {} else if p == 3 {} else if p == 4 {} else if p == 5 {} else if p == 6 {} else {}
  }

  lemma MaskRule2(b: bv32, p: bv32)
    requires b < 32 && 1 <= p <= 7
    ensures Bit(MaskWord(p, 2), b) == RuleBit(64 + b, p)
  {
    BitShift(MaskWord(p, 2), b);
    RuleBitIndex(64 + b, p);
    BitShift(HammIndex(64 + b), p - 1);
    if p == 1 {} else if p == 2 {} else if p == 3 {} else if p == 4 {} else if p == 5 {} else if p == 6 {} else {}
  }

  lemma MaskRule3(b: bv32, p: bv32)
    requires b < 32 && 1 <= p <= 7
    ensures Bit(MaskWord(p, 3), b) == RuleBit(96 + b, p)
  {
    BitShift(MaskWord(p, 3), b);
    RuleBitIndex(96 + b, p);
    BitShift(HammIndex(96 + b), p - 1);
    if p == 1 {} else if p == 2 {} else if p == 3 {} else if p == 4 {} else if p == 5 {} else if p == 6 {} else {}
  }

  /** The ECC7 table is the one the rule generates: bit b of word w of mask p is set exactly when the rule says so. */
  lemma MaskRule(w: bv32, b: bv32, p: bv32)
    requires w < 4 && b < 32 && 1 <= p <= 7
    ensures Bit(MaskWord(p, w), b) == RuleBit(32 * w + b, p)
  {
    if w == 0 {
      MaskRule0(b, p);
    } else if w == 1 {
      MaskRule1(b, p);
    } else if w == 2 {
      MaskRule2(b, p);
    } else {
      MaskRule3(b, p);
    }
  }

  /** The value of the running position `x` when data bit k is next, before the power-of-two skip. */
  function XBefore(k: bv32): bv32
    requires k <= 120
  {
    if k == 0 then 3 else NonPow(k - 1) + 1
  }

  /** Skipping a power of two from `XBefore(k)` lands on the k-th non-power. */
  lemma SkipPow(k: bv32)
    requires k < 120
    ensures (if IsPowerOf2(XBefore(k)) then XBefore(k) + 1 else XBefore(k)) == NonPow(k)
  {}

  /** A reserved bit leaves the running position alone. */
  lemma ReservedPosition(w: bv32, b: bv32, x: bv32)
    requires w < 4 && b < 32 && 24 <= 32 * w + b < 32 && x == XBefore(DataIndex(32 * w + b))
    ensures !IsPowerOf2(x) && XBefore(DataIndex(32 * w + (b + 1))) == x
  {}

  /** A data bit is given the running position, after the skip, and moves it on by one. */
  lemma DataPosition(w: bv32, b: bv32, x: bv32)
    requires w < 4 && b < 32 && !(24 <= 32 * w + b < 32) && x == XBefore(DataIndex(32 * w + b))
    ensures (if IsPowerOf2(x) then x + 1 else x) == HammIndex(32 * w + b)
    ensures XBefore(DataIndex(32 * w + (b + 1))) == (if IsPowerOf2(x) then x + 1 else x) + 1
  {
    DataNext(w, b);
    SkipPow(DataIndex(32 * w + b));
  }

  /** Past a data bit the count of data bits grows by one. */
  lemma DataNext(w: bv32, b: bv32)
    requires w < 4 && b < 32 && !(24 <= 32 * w + b < 32)
    ensures DataIndex(32 * w + b) < 120 && DataIndex(32 * w + (b + 1)) == DataIndex(32 * w + b) + 1
  {}

  /** `mask` holds the bits of `t` below `b` and nothing else. */
  ghost predicate LowBitsOf(mask: bv32, t: bv32, b: bv32)
    requires b <= 32
  {
    forall j: bv32 :: j < 32 ==> Bit(mask, j) == (j < b && Bit(t, j))
  }

  /** Setting bit `b` of `mask` changes bit `b` only. */
  lemma SetBit(mask: bv32, b: bv32, j: bv32)
    requires b < 32 && j < 32
    ensures Bit(mask | (1 << b), j) == (Bit(mask, j) || j == b)
  {
    OrBit(mask, 1 << b, j);
    UnitBit(b, j);
  }

  /** The empty mask holds no bits of `t`. */
  lemma LowBitsNone(t: bv32)
    ensures LowBitsOf(0, t, 0)
  {
    forall j: bv32 | j < 32
      ensures !Bit(0, j)
    {
      BitShift(0, j);
    }
  }

  /** Copying bit `b` of `t` extends the low bits by one. */
  lemma LowBitsStep(mask: bv32, t: bv32, b: bv32)
    requires b < 32 && LowBitsOf(mask, t, b)
    ensures LowBitsOf(if Bit(t, b) then mask | (1 << b) else mask, t, b + 1)
  {
    var next := if Bit(t, b) then mask | (1 << b) else mask;
    forall j: bv32 | j < 32
      ensures Bit(next, j) == (j < b + 1 && Bit(t, j))
    {
      SetBit(mask, b, j);
    }
  }

  /** All 32 low bits of `t` are `t`. */
  lemma LowBitsAll(mask: bv32, t: bv32)
    requires LowBitsOf(mask, t, 32)
    ensures mask == t
  {
    if mask != t {
      var j := DiffBit(mask, t);
      assert false;
    }
  }

  /** A reserved bit joins mask p exactly when it is check bit p. */
  lemma ReservedMask(p: bv32, w: bv32, b: bv32, mask: bv32)
    requires 1 <= p <= 7 && w < 4 && b < 32 && 24 <= 32 * w + b < 32
    requires LowBitsOf(mask, MaskWord(p, w), b)
    ensures LowBitsOf(if 32 - (32 * w + b) == p then mask | (1 << b) else mask, MaskWord(p, w), b + 1)
  {
    MaskRule(w, b, p);
    LowBitsStep(mask, MaskWord(p, w), b);
  }

  /** A data bit joins mask p exactly when its position `y` has bit p-1. */
  lemma DataMask(p: bv32, w: bv32, b: bv32, y: bv32, mask: bv32)
    requires 1 <= p <= 7 && w < 4 && b < 32 && !(24 <= 32 * w + b < 32)
    requires y == HammIndex(32 * w + b) && LowBitsOf(mask, MaskWord(p, w), b)
    ensures LowBitsOf(if y & (1 << (p - 1)) != 0 then mask | (1 << b) else mask, MaskWord(p, w), b + 1)
  {
    MaskRule(w, b, p);
    LowBitsStep(mask, MaskWord(p, w), b);
  }

  /** A reserved bit, 24..31: it joins mask p only as check bit p and leaves the position alone. */
  method GenReservedBit(p: bv32, w: bv32, b: bv32, x0: bv32, mask0: bv32) returns (x: bv32, mask: bv32)
    requires 1 <= p <= 7 && w < 4 && b < 32 && 24 <= 32 * w + b < 32
    requires x0 == XBefore(DataIndex(32 * w + b)) && LowBitsOf(mask0, MaskWord(p, w), b)
    ensures x == XBefore(DataIndex(32 * w + (b + 1)))
    ensures LowBitsOf(mask, MaskWord(p, w), b + 1)
  {
    x, mask := x0, mask0;
    ReservedPosition(w, b, x0);
    ReservedMask(p, w, b, mask);
    if IsPowerOf2(x) {
      x := x + 1;
    }
    if 32 - (32 * w + b) == p {
      mask := mask | (1 << b);
    }
  }

  /** A data bit at position `y` joins mask p when `y` has bit p-1. */
  method GenDataMask(p: bv32, w: bv32, b: bv32, y: bv32, mask0: bv32) returns (mask: bv32)
    requires 1 <= p <= 7 && w < 4 && b < 32 && !(24 <= 32 * w + b < 32)
    requires y == HammIndex(32 * w + b) && LowBitsOf(mask0, MaskWord(p, w), b)
    ensures LowBitsOf(mask, MaskWord(p, w), b + 1)
  {
    DataMask(p, w, b, y, mask0);
    mask := mask0;
    if y & (1 << (p - 1)) != 0 {
      mask := mask | (1 << b);
    }
  }

  /** A data bit: it takes the next non-power position and joins mask p when that position has bit p-1. */
  method GenDataBit(p: bv32, w: bv32, b: bv32, x0: bv32, mask0: bv32) returns (x: bv32, mask: bv32)
    requires 1 <= p <= 7 && w < 4 && b < 32 && !(24 <= 32 * w + b < 32)
    requires x0 == XBefore(DataIndex(32 * w + b)) && LowBitsOf(mask0, MaskWord(p, w), b)
    ensures x == XBefore(DataIndex(32 * w + (b + 1)))
    ensures LowBitsOf(mask, MaskWord(p, w), b + 1)
  {
    DataPosition(w, b, x0);
    x := (if IsPowerOf2(x0) then x0 + 1 else x0) + 1;
    mask := GenDataMask(p, w, b, if IsPowerOf2(x0) then x0 + 1 else x0, mask0);
  }

  /**
   * The body of the innermost loop of `gen_ecc7_masks`, bit b of word w:
   * skip a power of two; a reserved bit joins mask p only as check bit p,
   * a data bit joins when the position has bit p-1 set and consumes it.
   */
  method GenMaskBit(p: bv32, w: bv32, b: bv32, x0: bv32, mask0: bv32) returns (x: bv32, mask: bv32)
    requires 1 <= p <= 7 && w < 4 && b < 32
    requires x0 == XBefore(DataIndex(32 * w + b)) && LowBitsOf(mask0, MaskWord(p, w), b)
    ensures x == XBefore(DataIndex(32 * w + (b + 1)))
    ensures LowBitsOf(mask, MaskWord(p, w), b + 1)
  {
    if 24 <= 32 * w + b < 32 {
      x, mask := GenReservedBit(p, w, b, x0, mask0);
    } else {
      x, mask := GenDataBit(p, w, b, x0, mask0);
    }
  }

  /** The innermost loop of `gen_ecc7_masks`: word `w` of mask p. */
  method GenMaskWord(p: bv32, w: bv32, x0: bv32) returns (mask: bv32, x: bv32)
    requires 1 <= p <= 7 && w < 4 && x0 == XBefore(DataIndex(32 * w))
    ensures mask == MaskWord(p, w)
    ensures x == XBefore(DataIndex(32 * (w + 1)))
  {
    x := x0;
    mask := 0;
    LowBitsNone(MaskWord(p, w));
    var b: bv32 := 0;
    while b < 32
      invariant b <= 32
      invariant x == XBefore(DataIndex(32 * w + b))
      invariant LowBitsOf(mask, MaskWord(p, w), b)
    {
      x, mask := GenMaskBit(p, w, b, x, mask);
      b := b + 1;
    }
    LowBitsAll(mask, MaskWord(p, w));
  }

  /**
   * `gen_ecc7_masks`: for each group p the running position `x` starts at
   * 3 and skips powers of two; a reserved bit 24..31 joins group p only
   * when it is check bit p, any other bit joins when its position has bit
   * p-1 hit and consumes that position. Row p-1 of the result holds the
   * four words the source prints as `ECC7_Pp_0` .. `ECC7_Pp_3`, and they
   * are the table.
   */
  method GenEcc7Masks() returns (masks: map<(bv32, bv32), bv32>)
    ensures forall p: bv32, w: bv32 :: 1 <= p <= 7 && w < 4 ==> (p, w) in masks && masks[(p, w)] == MaskWord(p, w)
  {
    masks := map[];
    var p: bv32 := 1;
    while p <= 7
      invariant 1 <= p <= 8
      invariant forall q: bv32, v: bv32 :: 1 <= q < p && v < 4 ==> (q, v) in masks && masks[(q, v)] == MaskWord(q, v)
    {
      masks := GenMaskRow(p, masks);
      p := p + 1;
    }
  }

  /** One pass of the outer loop of `gen_ecc7_masks`: the four words of mask p, the other rows kept. */
  method GenMaskRow(p: bv32, masks0: map<(bv32, bv32), bv32>) returns (masks: map<(bv32, bv32), bv32>)
    requires 1 <= p <= 7
    ensures forall v: bv32 :: v < 4 ==> (p, v) in masks && masks[(p, v)] == MaskWord(p, v)
    ensures forall q: bv32, v: bv32 :: q != p && (q, v) in masks0 ==> (q, v) in masks && masks[(q, v)] == masks0[(q, v)]
  {
    masks := masks0;
    var x: bv32 := 3;
    var w: bv32 := 0;
    while w < 4
      invariant w <= 4
      invariant x == XBefore(DataIndex(32 * w))
      invariant forall v: bv32 :: v < w ==> (p, v) in masks && masks[(p, v)] == MaskWord(p, v)
      invariant forall q: bv32, v: bv32 :: q != p && (q, v) in masks0 ==> (q, v) in masks && masks[(q, v)] == masks0[(q, v)]
    {
      var mask;
      mask, x := GenMaskWord(p, w, x);
      masks := masks[(p, w) := mask];
      w := w + 1;
    }
  }

  lemma DecodeIndexLow(bit: bv32)
    requires bit < 24
    ensures DataBit(HammIndex(bit)) == bit
  {}

  lemma DecodeIndexCheck(bit: bv32)
    requires 24 < bit < 32
    ensures DataBit(HammIndex(bit)) == bit
  {}

  lemma DecodeIndexHigh(bit: bv32)
    requires 32 <= bit < 128
    ensures DataBit(HammIndex(bit)) == bit
  {}

  /**
   * The Hamming positions of all bits but 24 are 1..127, and the mapping of
   * `ecc_correct_col8` sends each position back to its bit; bit 24 has none.
   */
  lemma DecodeIndex(bit: bv32)
    requires bit < 128
    ensures HammIndex(bit) <= 127
    ensures (HammIndex(bit) == 0) == (bit == 24)
    ensures bit != 24 ==> DataBit(HammIndex(bit)) == bit
  {
    if bit < 24 {
      DecodeIndexLow(bit);
    } else if 24 < bit < 32 {
      DecodeIndexCheck(bit);
    } else if 32 <= bit {
      DecodeIndexHigh(bit);
    }
  }
}
