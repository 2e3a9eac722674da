/**
 * The fault injector of the COO layout (`inject_bitflip` in
 * COO/CPUContext.cpp): it picks one nonzero and toggles bits of it inside a
 * region of its 128-bit codeword, the index words 0..63 (column and row),
 * the value words 64..127, or all of it. The values `rand()` returns are
 * parameters.
 */
module CooInject {
  import opened Bits
  import opened Modes
  import opened CooEcc
  import opened CooCorrect
  import opened CooProps

  /** The first codeword bit the injector may pick. */
  function RegionStart(kind: FlipKind): nat
  {
    if kind == ValueBit then 64 else 0
  }

  /** One past the last codeword bit the injector may pick. */
  function RegionEnd(kind: FlipKind): nat
  {
    if kind == IndexBit then 64 else 128
  }

  /** `(rand() % (end - start)) + start` for the value `draw` of `rand()`: a bit inside the region. */
  function DrawnBit(kind: FlipKind, draw: nat): (bit: bv32)
    ensures bit < 128
    ensures kind == ValueBit ==> 64 <= bit
    ensures kind == IndexBit ==> bit < 64
  {
    (draw % (RegionEnd(kind) - RegionStart(kind)) + RegionStart(kind)) as bv32
  }

  /** The bits picked by successive draws. */
  function DrawnBits(kind: FlipKind, draws: seq<nat>): (bits: seq<bv32>)
    ensures |bits| == |draws| && forall i :: 0 <= i < |draws| ==> bits[i] == DrawnBit(kind, draws[i])
  {
    seq(|draws|, i requires 0 <= i < |draws| => DrawnBit(kind, draws[i]))
  }

  /** `e` with the bits `bits` toggled one after the other. */
  function FlipAll(e: Element, bits: seq<bv32>): Element
    requires forall i :: 0 <= i < |bits| ==> bits[i] < 128
  {
    if |bits| == 0 then e else FlipBit(FlipAll(e, bits[..|bits| - 1]), bits[|bits| - 1])
  }

  /** `((uint32_t*)e)[bit / 32] ^= 0x1 << (bit % 32)`: toggles codeword bit `bit`. */
  method ToggleBit(e: Element, bit: bv32) returns (r: Element)
    requires bit < 128
    ensures r == FlipBit(e, bit)
  {
    var w := bit / 32;
    var u: bv32 := 1 << (bit % 32);
    WordOf(bit);
    if w == 0 {
      r := Element(Xor(e.col, u), e.row, e.value);
    } else if w == 1 {
      r := Element(e.col, Xor(e.row, u), e.value);
    } else if w == 2 {
      r := Element(e.col, e.row, Pack(Xor(e.Low(), u), e.High()));
    } else {
      r := Element(e.col, e.row, Pack(e.Low(), Xor(e.High(), u)));
    }
  }

  /**
   * `inject_bitflip`: nonzero `rand() % nnz` gets one toggle per further
   * draw, each at a bit of the region; nothing else changes.
   */
  method InjectBitflip(elements: array<Element>, kind: FlipKind, indexDraw: nat, draws: seq<nat>)
    returns (index: nat)
    requires elements.Length > 0
    modifies elements
    ensures index == indexDraw % elements.Length
    ensures elements[..] == old(elements[..])[index := FlipAll(old(elements[index]), DrawnBits(kind, draws))]
  {
    index := indexDraw % elements.Length;
    var bits := DrawnBits(kind, draws);
    for i := 0 to |draws|
      invariant elements[..] == old(elements[..])[index := FlipAll(old(elements[index]), bits[..i])]
    {
      FlipAt(elements, index, bits[i]);
      FlipAllNext(old(elements[index]), bits, i);
    }
    assert bits[..|draws|] == bits;
  }

  /** One round of the injector's loop: codeword bit `bit` of nonzero `index` toggled, the others kept. */
  method FlipAt(elements: array<Element>, index: nat, bit: bv32)
    requires index < elements.Length && bit < 128
    modifies elements
    ensures elements[..] == old(elements[..])[index := FlipBit(old(elements[index]), bit)]
  {
    var flipped := ToggleBit(elements[index], bit);
    elements[index] := flipped;
  }

  /** Toggling the bits up to `i` and then bit `i` toggles the bits up to `i + 1`. */
  lemma FlipAllNext(e: Element, bits: seq<bv32>, i: nat)
    requires i < |bits| && forall k :: 0 <= k < |bits| ==> bits[k] < 128
    ensures FlipAll(e, bits[..i + 1]) == FlipBit(FlipAll(e, bits[..i]), bits[i])
  {
    assert bits[..i + 1][..i] == bits[..i];
  }

  /** A VALUE fault leaves both indices alone; an INDEX fault leaves the value alone. */
  lemma InjectRegion(kind: FlipKind, e: Element, draw: nat)
    ensures kind == ValueBit ==> FlipBit(e, DrawnBit(kind, draw)).col == e.col &&
                                 FlipBit(e, DrawnBit(kind, draw)).row == e.row
    ensures kind == IndexBit ==> FlipBit(e, DrawnBit(kind, draw)).value == e.value
  {
  }

  /** One draw leaves exactly the single-fault matrix that the correction theorems speak about. */
  lemma InjectOne(x: seq<Element>, kind: FlipKind, index: nat, draw: nat)
    requires index < |x|
    ensures x[index := FlipAll(x[index], DrawnBits(kind, [draw]))] == Flipped(x, index, DrawnBit(kind, draw))
  {
    var bits := DrawnBits(kind, [draw]);
    assert bits[..0] == [];
  }

  /** Two draws leave the double-fault matrix of the detection theorem, or, on the same bit, the original one. */
  lemma InjectTwo(x: seq<Element>, kind: FlipKind, index: nat, d1: nat, d2: nat)
    requires index < |x|
    ensures x[index := FlipAll(x[index], DrawnBits(kind, [d1, d2]))] ==
      if DrawnBit(kind, d1) == DrawnBit(kind, d2) then x
      else Flipped2(x, index, DrawnBit(kind, d1), DrawnBit(kind, d2))
  {
    var bits := DrawnBits(kind, [d1, d2]);
    assert bits[..1] == [DrawnBit(kind, d1)] && bits[..1][..0] == [];
    assert FlipAll(x[index], bits[..1]) == FlipBit(x[index], DrawnBit(kind, d1));
    if DrawnBit(kind, d1) == DrawnBit(kind, d2) {
      FlipBitTwice(x[index], DrawnBit(kind, d1));
    }
  }
}
