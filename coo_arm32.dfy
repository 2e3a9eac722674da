/**
 * The C parts of the ARM32 SED variant of the COO layout
 * (COO/arm32/spmv-sed.c): `init_matrix_ecc` fills a 256-entry parity table
 * and writes the overall parity into column bit 31, and the C `spmv` finds
 * the parity of an element by folding the exclusive or of its four words
 * down to one byte and looking that byte up in the table. The inline
 * assembly kernel `spmv_x` is not part of this model.
 */
module CooArm32 {
  import opened Bits
  import opened Modes
  import opened CooEcc
  import opened CooEncode
  import opened CooBuild
  import opened CooSpmv

  /** `__builtin_parity(b)` stored in a byte. */
  function ParityByte(b: bv32): bv8
  {
    ParityOdd(b);
    Parity(b) as bv8
  }

  /** `table[i] = __builtin_parity(i)` for every byte `i`. */
  predicate ParityTable(table: seq<bv8>)
  {
    |table| == 256 && forall i :: 0 <= i < 256 ==> table[i] == ParityByte(i as bv32)
  }

  /** The first loop of `init_matrix_ecc`: the parity of every byte. */
  method InitTable(table: array<bv8>)
    requires table.Length == 256
    modifies table
    ensures ParityTable(table[..])
  {
    for i := 0 to 256
      invariant forall j :: 0 <= j < i ==> table[j] == ParityByte(j as bv32)
    {
      table[i] := ParityByte(i as bv32);
    }
  }

  /** `ecc_compute_overall_parity_x`: `__builtin_parity` of the four words' exclusive or, the overall parity. */
  lemma OverallParityX(e: Element)
    ensures Parity(Xor(Xor(Xor(e.col, e.row), e.Low()), e.High())) == OverallParity(e)
  {}

  /**
   * `init_matrix_ecc`: the table filled, then every element given its
   * parity in column bit 31, as the SED encoding does.
   */
  method InitMatrixEcc(elements: array<Element>, table: array<bv8>)
    requires table.Length == 256 && elements as object != table
    modifies elements, table
    ensures ParityTable(table[..])
    ensures forall j :: 0 <= j < elements.Length ==> elements[j] == EncodeSed(old(elements[j]))
  {
    InitTable(table);
    for i := 0 to elements.Length
      modifies elements
      invariant forall j :: 0 <= j < i ==> elements[j] == EncodeSed(old(elements[j]))
      invariant forall j :: i <= j < elements.Length ==> elements[j] == old(elements[j])
    {
      var element := elements[i];
      OverallParityX(element);
      element := Element(element.col | (Parity(Xor(Xor(Xor(element.col, element.row), element.Low()), element.High())) << 31),
                         element.row, element.value);
      elements[i] := element;
    }
  }

  /** The matrix `init_matrix_ecc` leaves is the SED encoding of the original. */
  lemma InitEncodesSed(mode: Mode, x: seq<Element>, y: seq<Element>)
    requires mode == Sed && |y| == |x| && forall j :: 0 <= j < |x| ==> y[j] == EncodeSed(x[j])
    ensures y == EncodeAll(mode, x)
  {
    forall j | 0 <= j < |x|
      ensures y[j] == EncodeAll(mode, x)[j]
    {
      EncodeCases(mode, x[j]);
    }
  }

  /** `x ^= x >> 16`. */
  function FoldHalf(x: bv32): bv32
  {
    x ^ (x >> 16)
  }

  /** `x ^= x >> 16; x ^= x >> 8; x &= 0xFF`: four bytes folded into one. */
  function Fold(x: bv32): (r: bv32)
    ensures r < 256
  {
    (FoldHalf(x) ^ (FoldHalf(x) >> 8)) & 0xFF
  }

  /** Peeling off the lowest bit. */
  lemma OddStep(x: bv32)
    ensures Odd(x) == ((x & 1 == 1) != Odd(x >> 1))
  {
    if x == 0 {
      assert x >> 1 == 0;
    }
  }

  /** Dropping a clear lowest bit keeps the parity. */
  lemma OddShift(z: bv32)
    requires z & 1 == 0
    ensures Odd(z >> 1) == Odd(z)
  {
    OddStep(z);
  }

  /** Dropping two clear low bits keeps the parity. */
  lemma OddShift2(z: bv32)
    requires z & 3 == 0
    ensures Odd(z >> 2) == Odd(z)
  {
    OddShift(z);
    OddShift(z >> 1);
    assert (z >> 1) >> 1 == z >> 2;
  }

  /** Dropping four clear low bits keeps the parity. */
  lemma OddShift4(z: bv32)
    requires z & 0xF == 0
    ensures Odd(z >> 4) == Odd(z)
  {
    OddShift2(z);
    OddShift2(z >> 2);
    assert (z >> 2) >> 2 == z >> 4;
  }

  /** Dropping eight clear low bits keeps the parity. */
  lemma OddShift8(z: bv32)
    requires z & 0xFF == 0
    ensures Odd(z >> 8) == Odd(z)
  {
    OddShift4(z);
    OddShift4(z >> 4);
    assert (z >> 4) >> 4 == z >> 8;
  }

  /** Dropping sixteen clear low bits keeps the parity. */
  lemma OddShift16(z: bv32)
    requires z & 0xFFFF == 0
    ensures Odd(z >> 16) == Odd(z)
  {
    OddShift8(z);
    OddShift8(z >> 8);
    assert (z >> 8) >> 8 == z >> 16;
  }

  /** The parity of a word is that of its low half against that of its high half. */
  lemma OddHalves(x: bv32)
    ensures Odd(x) == (Odd(And(x, 0xFFFF)) != Odd(x >> 16))
  {
    HighHalfParity(x);
    HalvesBits(x);
    OddSplitXor(x, And(x, 0xFFFF), And(x, 0xFFFF_0000), x >> 16);
  }

  /** The high half of a word, in place or moved down, has one parity. */
  lemma HighHalfParity(x: bv32)
    ensures Odd(And(x, 0xFFFF_0000)) == Odd(x >> 16)
  {
    HalvesBits(x);
    OddShift16(And(x, 0xFFFF_0000));
  }

  /** A word split as `a ^ b`, where `b` has the parity of `h`, has the parity of `a` against that of `h`. */
  lemma OddSplitXor(x: bv32, a: bv32, b: bv32, h: bv32)
    requires x == Xor(a, b) && Odd(b) == Odd(h)
    ensures Odd(x) == (Odd(a) != Odd(h))
  {
    OddXor(a, b);
  }

  /** A word split into its halves, and its high half moved down. */
  lemma HalvesBits(x: bv32)
    ensures Xor(And(x, 0xFFFF), And(x, 0xFFFF_0000)) == x
    ensures And(x, 0xFFFF_0000) & 0xFFFF == 0
    ensures And(x, 0xFFFF_0000) >> 16 == x >> 16
  {}

  /** The first fold keeps the parity in the low half. */
  lemma FoldHalfParity(x: bv32)
    ensures Odd(And(FoldHalf(x), 0xFFFF)) == Odd(x)
  {
    OddHalves(x);
    OddAndXor(x, x >> 16, 0xFFFF);
    assert And(x >> 16, 0xFFFF) == x >> 16;
    assert FoldHalf(x) == Xor(x, x >> 16);
  }

  /** The second fold keeps the parity of the low half in the low byte. */
  lemma FoldByteParity(y: bv32)
    ensures Odd(And(Xor(y, y >> 8), 0xFF)) == Odd(And(y, 0xFFFF))
  {
    BytesBits(y);
    OddShift8(And(y, 0xFF00));
    OddSplitXor(And(y, 0xFFFF), And(y, 0xFF), And(y, 0xFF00), And(y >> 8, 0xFF));
    OddAndXor(y, y >> 8, 0xFF);
  }

  /** The low half of a word split into its bytes, and its second byte moved down. */
  lemma BytesBits(y: bv32)
    ensures Xor(And(y, 0xFF), And(y, 0xFF00)) == And(y, 0xFFFF)
    ensures And(y, 0xFF00) & 0xFF == 0
    ensures And(y, 0xFF00) >> 8 == And(y >> 8, 0xFF)
  {}

  /** The folded byte has the parity of the word it was folded from. */
  lemma FoldParity(x: bv32)
    ensures Odd(Fold(x)) == Odd(x)
  {
    FoldHalfParity(x);
    FoldByteParity(FoldHalf(x));
    assert Fold(x) == And(Xor(FoldHalf(x), FoldHalf(x) >> 8), 0xFF);
  }

  /** Looking the folded exclusive or up in the table reads the overall parity. */
  lemma TableParity(table: seq<bv8>, e: Element)
    requires ParityTable(table)
    ensures (table[Fold(AllWords(e))] != 0) == (OverallParity(e) != 0)
  {
    FoldParity(AllWords(e));
    ParityOdd(Fold(AllWords(e)));
    ParityOdd(AllWords(e));
    assert Fold(AllWords(e)) as int as bv32 == Fold(AllWords(e));
  }

  /** The parity test of the C `spmv`: the SED check. */
  method CheckTable(table: array<bv8>, element: Element) returns (c: Check)
    requires ParityTable(table[..])
    ensures c == SedCheck(element)
  {
    var x := FoldWords(element);
    TableParity(table[..], element);
    if table[x] != 0 {
      return Fail(ParityError);
    }
    c := Pass(element, false);
  }

  /** `col ^ row ^ value[0] ^ value[1]` folded into the byte the table is indexed by. */
  method FoldWords(element: Element) returns (x: bv32)
    ensures x == Fold(AllWords(element))
  {
    x := AllWords(element);
    x := x ^ (x >> 16);
    x := x ^ (x >> 8);
    x := x & 0xFF;
  }

  /**
   * A mode whose kernel masks the check bits off the column and whose
   * per-element verdict, with the size checks off, is the SED parity test.
   */
  ghost predicate ChecksParity(mode: Mode)
  {
    mode != None && mode != Constraints &&
    forall e: Element, next: Option<Element>, n: nat {:trigger SedCheck(e), CooCheck(mode, e, next, n, false)} ::
      CooCheck(mode, e, next, n, false) == SedCheck(e)
  }

  /** SED is such a mode. */
  lemma SedChecksParity()
    ensures ChecksParity(Sed)
  {}

  /**
   * The C `spmv`: zero the result, then visit the nonzeros with a
   * do-while, which reads element 0 before testing the count, so the
   * matrix must have one. It ends as the SED kernel does and never writes
   * the matrix.
   */
  method Multiply(elements: array<Element>, table: array<bv8>, result: array<seq<Term>>) returns (outcome: Outcome)
    requires elements.Length >= 1 && ParityTable(table[..])
    requires elements as object != result && table as object != result
    modifies result
    ensures CooState(outcome, elements[..], result[..]) == Spmv(Sed, elements[..], result.Length, false)
  {
    ZeroResult(result);
    SedChecksParity();
    outcome := VisitAll(Sed, elements, table, result);
  }

  /** The do-while over the nonzeros, from a zeroed result. */
  method VisitAll(mode: Mode, elements: array<Element>, table: array<bv8>, result: array<seq<Term>>)
    returns (outcome: Outcome)
    requires ChecksParity(mode) && ParityTable(table[..])
    requires elements as object != result && table as object != result
    requires result[..] == Zeros(result.Length)
    modifies result
    ensures CooState(outcome, elements[..], result[..]) == Spmv(mode, elements[..], result.Length, false)
  {
    var i := 0;
    while i < elements.Length
      invariant 0 <= i <= elements.Length
      invariant Run(mode, elements[..], result.Length, false, i) == CooState(Done, elements[..], result[..])
    {
      outcome := Advance(mode, elements, table, result, i);
      if outcome != Done {
        Stopped(mode, elements[..], result.Length, false, i + 1);
        return;
      }
      i := i + 1;
    }
    outcome := Done;
  }

  /** One round of the do-while, as a step of the SED run. */
  method Advance(mode: Mode, elements: array<Element>, table: array<bv8>, result: array<seq<Term>>, i: nat)
    returns (outcome: Outcome)
    requires ChecksParity(mode) && ParityTable(table[..])
    requires elements as object != result && table as object != result
    requires i < elements.Length && Run(mode, elements[..], result.Length, false, i) == CooState(Done, elements[..], result[..])
    modifies result
    ensures Run(mode, elements[..], result.Length, false, i + 1) == CooState(outcome, elements[..], result[..])
  {
    RunNext(mode, elements[..], result.Length, false, i);
    outcome := Round(mode, elements, table, result, i);
  }

  /** The body of the do-while: the table test of nonzero `i`, then its product. */
  method Round(mode: Mode, elements: array<Element>, table: array<bv8>, result: array<seq<Term>>, i: nat)
    returns (outcome: Outcome)
    requires ChecksParity(mode) && ParityTable(table[..])
    requires elements as object != result && table as object != result && i < elements.Length
    modifies result
    ensures CooState(outcome, elements[..], result[..]) ==
            Step(mode, CooState(Done, elements[..], old(result[..])), i, false)
  {
    var c := CheckTable(table, elements[i]);
    ghost var next := if i + 1 < elements.Length then Some(elements[i + 1]) else Nothing;
    assert c == CooCheck(mode, elements[i], next, result.Length, false);
    outcome := Accept(mode, elements, result, i, c);
  }

  /** Abort on a parity error, else accumulate the product with the check bits masked off the column. */
  method Accept(mode: Mode, elements: array<Element>, result: array<seq<Term>>, i: nat, c: Check)
    returns (outcome: Outcome)
    requires mode != None && mode != Constraints && elements as object != result
    requires i < elements.Length && (c.Fail? || c == Pass(elements[i], false))
    modifies result
    ensures CooState(outcome, elements[..], result[..]) ==
            Apply(mode, CooState(Done, elements[..], old(result[..])), i, c)
  {
    if c.Fail? {
      return Aborted(i, c.fault);
    }
    var inBounds := AddProduct(result, elements[i].col & 0x00FF_FFFF, elements[i]);
    outcome := if inBounds then Done else OutOfBounds(i);
  }
}
