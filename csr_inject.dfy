/**
 * The fault injector of the CSR layout (`inject_bitflip` in
 * CSR/CPUContext.cpp) and `flip_bit` (CSR/common.c). The injector picks one
 * nonzero and toggles bits of it inside a region of its 96-bit codeword:
 * the value bits 0..63, the column bits 64..95, or all of it. The values
 * `rand()` returns are parameters.
 *
 * As written, a value bit is toggled by `*((uint64_t*)values + index) ^=
 * 0x1 << (bit % 32)`: the shift is an `int`, so bits 32..63 of the value
 * can never be reached (bit b lands on bit b - 32), and for `bit % 32 == 31`
 * the shift yields `INT_MIN`, which the conversion to `uint64_t` sign-extends
 * into a mask of 33 set bits. `InjectBitflipAsWritten` models that code;
 * `InjectBitflip` toggles the drawn codeword bit, as `flip_bit` does and as
 * the message the injector prints says.
 */
module CsrInject {
  import opened Bits
  import opened Modes
  import opened CsrEcc
  import opened CsrCorrect

  /** The first codeword bit the injector may pick. */
  function RegionStart(kind: FlipKind): nat
  {
    if kind == IndexBit then 64 else 0
  }

  /** One past the last codeword bit the injector may pick. */
  function RegionEnd(kind: FlipKind): nat
  {
    if kind == ValueBit then 64 else 96
  }

  /** `(rand() % (end - start)) + start` for the value `draw` of `rand()`: a bit inside the region. */
  function DrawnBit(kind: FlipKind, draw: nat): (bit: bv32)
    ensures bit < 96
    ensures kind == ValueBit ==> bit < 64
    ensures kind == IndexBit ==> 64 <= bit
  {
    (draw % (RegionEnd(kind) - RegionStart(kind)) + RegionStart(kind)) as bv32
  }

  /** `flip_bit`: `((uint32_t*)element)[bit / 32] ^= 0x1 << (bit % 32)`. */
  method ToggleBit(c: Colval, bit: bv32) returns (r: Colval)
    requires bit < 96
    ensures r == FlipBit(c, bit)
  {
    var w := bit / 32;
    var u: bv32 := 1 << (bit % 32);
    WordOf(bit);
    if w == 0 {
      r := Colval(Pack(Xor(c.Low(), u), c.High()), c.col);
    } else if w == 1 {
      r := Colval(Pack(c.Low(), Xor(c.High(), u)), c.col);
    } else {
      r := Colval(c.value, Xor(c.col, u));
    }
  }

  /**
   * The 64-bit mask `0x1 << (bit % 32)` becomes on its way to `uint64_t`:
   * the `int` power of two, or, for a shift by 31, `INT_MIN` sign-extended.
   */
  function ValueMaskAsWritten(bit: bv32): bv64
  {
    if bit % 32 == 31 then 0xFFFF_FFFF_8000_0000 else 1 << (bit % 32)
  }

  /** One round of the injector's loop as written, on value `v` and column `col`. */
  function ToggleAsWritten(v: bv64, col: bv32, bit: bv32): Colval
  {
    if bit < 64 then Colval(v ^ ValueMaskAsWritten(bit), col)
    else Colval(v, col ^ (1 << ((bit - 64) % 32)))
  }

  /** `c` with the bits `bits` toggled one after the other. */
  function FlipAll(c: Colval, bits: seq<bv32>): Colval
    requires forall i :: 0 <= i < |bits| ==> bits[i] < 96
  {
    if |bits| == 0 then c else FlipBit(FlipAll(c, bits[..|bits| - 1]), bits[|bits| - 1])
  }

  /** `c` after the injector's loop as written, one round per bit. */
  function ToggleAllAsWritten(c: Colval, bits: seq<bv32>): Colval
  {
    if |bits| == 0 then c
    else
      var d := ToggleAllAsWritten(c, bits[..|bits| - 1]);
      ToggleAsWritten(d.value, d.col, bits[|bits| - 1])
  }

  /** The bits picked by successive draws. */
  function DrawnBits(kind: FlipKind, draws: seq<nat>): (bits: seq<bv32>)
    ensures |bits| == |draws| && forall i :: 0 <= i < |draws| ==> bits[i] == DrawnBit(kind, draws[i])
  {
    seq(|draws|, i requires 0 <= i < |draws| => DrawnBit(kind, draws[i]))
  }

  /**
   * `inject_bitflip` as written: nonzero `rand() % nnz` gets one round of
   * `ToggleAsWritten` per further draw; no other nonzero changes.
   */
  method InjectBitflipAsWritten(cols: array<bv32>, values: array<bv64>, kind: FlipKind, indexDraw: nat, draws: seq<nat>)
    returns (index: nat)
    requires cols.Length > 0 && values.Length == cols.Length
    modifies cols, values
    ensures index == indexDraw % cols.Length
    ensures Colval(values[index], cols[index]) ==
            ToggleAllAsWritten(Colval(old(values[index]), old(cols[index])), DrawnBits(kind, draws))
    ensures forall j :: 0 <= j < cols.Length && j != index ==> cols[j] == old(cols[j]) && values[j] == old(values[j])
  {
    index := indexDraw % cols.Length;
    var bits := DrawnBits(kind, draws);
    ghost var c0 := Colval(values[index], cols[index]);
    for i := 0 to |draws|
      invariant Colval(values[index], cols[index]) == ToggleAllAsWritten(c0, bits[..i])
      invariant forall j :: 0 <= j < cols.Length && j != index ==> cols[j] == old(cols[j]) && values[j] == old(values[j])
    {
      ToggleAsWrittenAt(cols, values, index, bits[i]);
      ToggleAllNext(c0, bits, i);
    }
    assert bits[..|draws|] == bits;
  }

  /** The rounds as written up to `i` and then round `i` are the rounds up to `i + 1`. */
  lemma ToggleAllNext(c: Colval, bits: seq<bv32>, i: nat)
    requires i < |bits|
    ensures ToggleAllAsWritten(c, bits[..i + 1]) ==
            ToggleAsWritten(ToggleAllAsWritten(c, bits[..i]).value, ToggleAllAsWritten(c, bits[..i]).col, bits[i])
  {
    assert bits[..i + 1][..i] == bits[..i];
  }

  /** One round of the injector's loop as written: nonzero `index` toggled at `bit`, the others kept. */
  method ToggleAsWrittenAt(cols: array<bv32>, values: array<bv64>, index: nat, bit: bv32)
    requires index < cols.Length && values.Length == cols.Length
    modifies cols, values
    ensures Colval(values[index], cols[index]) == ToggleAsWritten(old(values[index]), old(cols[index]), bit)
    ensures forall j :: 0 <= j < cols.Length && j != index ==> cols[j] == old(cols[j]) && values[j] == old(values[j])
  {
    if bit < 64 {
      values[index] := values[index] ^ ValueMaskAsWritten(bit);
    } else {
      cols[index] := cols[index] ^ (1 << ((bit - 64) % 32));
    }
  }

  /**
   * `inject_bitflip` with each drawn bit toggled as `flip_bit` toggles it:
   * nonzero `rand() % nnz` has exactly the drawn codeword bits toggled, one
   * after the other, and no other nonzero changes.
   */
  method InjectBitflip(cols: array<bv32>, values: array<bv64>, kind: FlipKind, indexDraw: nat, draws: seq<nat>)
    returns (index: nat)
    requires cols.Length > 0 && values.Length == cols.Length
    modifies cols, values
    ensures index == indexDraw % cols.Length
    ensures Colval(values[index], cols[index]) ==
            FlipAll(Colval(old(values[index]), old(cols[index])), DrawnBits(kind, draws))
    ensures forall j :: 0 <= j < cols.Length && j != index ==> cols[j] == old(cols[j]) && values[j] == old(values[j])
  {
    index := indexDraw % cols.Length;
    var bits := DrawnBits(kind, draws);
    ghost var c0 := Colval(values[index], cols[index]);
    for i := 0 to |draws|
      invariant Colval(values[index], cols[index]) == FlipAll(c0, bits[..i])
      invariant forall j :: 0 <= j < cols.Length && j != index ==> cols[j] == old(cols[j]) && values[j] == old(values[j])
    {
      FlipAt(cols, values, index, bits[i]);
      FlipAllNext(c0, bits, i);
    }
    assert bits[..|draws|] == bits;
  }

  /** One round of the corrected injector's loop: `flip_bit` on nonzero `index`, the others kept. */
  method FlipAt(cols: array<bv32>, values: array<bv64>, index: nat, bit: bv32)
    requires index < cols.Length && values.Length == cols.Length && bit < 96
    modifies cols, values
    ensures Colval(values[index], cols[index]) == FlipBit(Colval(old(values[index]), old(cols[index])), bit)
    ensures forall j :: 0 <= j < cols.Length && j != index ==> cols[j] == old(cols[j]) && values[j] == old(values[j])
  {
    var flipped := ToggleBit(Colval(values[index], cols[index]), bit);
    values[index] := flipped.value;
    cols[index] := flipped.col;
  }

  /** Toggling the bits up to `i` and then bit `i` toggles the bits up to `i + 1`. */
  lemma FlipAllNext(c: Colval, bits: seq<bv32>, i: nat)
    requires i < |bits| && forall k :: 0 <= k < |bits| ==> bits[k] < 96
    ensures FlipAll(c, bits[..i + 1]) == FlipBit(FlipAll(c, bits[..i]), bits[i])
  {
    assert bits[..i + 1][..i] == bits[..i];
  }

  /** A VALUE fault leaves the column alone; an INDEX fault leaves the value alone. */
  lemma InjectRegion(kind: FlipKind, c: Colval, draw: nat)
    ensures kind == ValueBit ==> FlipBit(c, DrawnBit(kind, draw)).col == c.col
    ensures kind == IndexBit ==> FlipBit(c, DrawnBit(kind, draw)).value == c.value
  {
  }

  /** One draw toggles exactly the drawn codeword bit, which single-error correction then restores. */
  lemma InjectOne(c: Colval, kind: FlipKind, draw: nat)
    ensures FlipAll(c, DrawnBits(kind, [draw])) == FlipBit(c, DrawnBit(kind, draw))
  {
    assert DrawnBits(kind, [draw])[..0] == [];
  }

  /** Two toggles in a row. */
  lemma FlipAllTwo(c: Colval, bits: seq<bv32>)
    requires |bits| == 2 && bits[0] < 96 && bits[1] < 96
    ensures FlipAll(c, bits) == FlipBit(FlipBit(c, bits[0]), bits[1])
  {
    var first := bits[..1];
    assert first[..0] == [] && first[0] == bits[0];
    assert FlipAll(c, first) == FlipBit(FlipAll(c, []), bits[0]);
    assert bits[..|bits| - 1] == first;
  }

  /**
   * Two draws leave the double fault that double-error detection speaks
   * about, or, when they pick the same bit, the original codeword.
   */
  lemma InjectTwo(c: Colval, kind: FlipKind, d1: nat, d2: nat)
    ensures FlipAll(c, DrawnBits(kind, [d1, d2])) ==
      if DrawnBit(kind, d1) == DrawnBit(kind, d2) then c
      else FlipBit(FlipBit(c, DrawnBit(kind, d1)), DrawnBit(kind, d2))
  {
    var bits := DrawnBits(kind, [d1, d2]);
    FlipAllTwo(c, bits);
    if bits[0] == bits[1] {
      FlipBitTwice(c, bits[0]);
    }
  }

  /** A mask confined to the low word leaves the high word alone. */
  lemma HiXorLow(v: bv64, m: bv64)
    requires m & 0xFFFF_FFFF_0000_0000 == 0
    ensures Hi(v ^ m) == Hi(v)
  {}

  /** The as-written mask of a value bit other than 31 and 63 lies in the low word. */
  lemma ValueMaskLow(bit: bv32)
    requires bit % 32 != 31
    ensures ValueMaskAsWritten(bit) & 0xFFFF_FFFF_0000_0000 == 0
  {
    var k := bit % 32;
    assert k < 31;
  }

  /** As written, a draw of value bit 32..62 never reaches the high word of the value, which that bit lies in. */
  lemma HighWordUnreached(v: bv64, col: bv32, bit: bv32)
    requires 32 <= bit < 63
    ensures Hi(ToggleAsWritten(v, col, bit).value) == Hi(v)
    ensures Hi(FlipBit(Colval(v, col), bit).value) != Hi(v)
  {
    ValueMaskLow(bit);
    HiXorLow(v, ValueMaskAsWritten(bit));
    var u: bv32 := 1 << (bit % 32);
    assert u != 0;
    assert Hi(FlipBit(Colval(v, col), bit).value) == Xor(Hi(v), u);
  }

  /** As written, a draw of value bit 31 toggles value bits 31..63, 33 of them, on a zero value. */
  lemma SignExtendedFlip()
    ensures ToggleAsWritten(0, 0, 31).value == 0xFFFF_FFFF_8000_0000
    ensures FlipBit(Colval(0, 0), 31).value == 0x8000_0000
  {
  }
}
