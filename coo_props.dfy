/**
 * What the COO kernels promise, proved of the specification `Spmv`: the
 * unprotected kernel computes the product; on a freshly encoded matrix every
 * protected kernel computes the same product and changes nothing; a single
 * flipped bit is corrected in place by SEC7 (outside bit 24), SEC8 and
 * SECDED, and stops SED at that element; two flipped bits in one element
 * stop SECDED; CONSTRAINTS passes exactly the ordered matrices.
 */
module CooProps {
  import opened Bits
  import opened Syndrome
  import opened Modes
  import opened CooEcc
  import opened CooCorrect
  import opened CooEncode
  import opened CooSpmv
  import opened CooBuild

  /** The unprotected run of the first `k` elements, the reference the protected kernels are measured by. */
  function Plain(elements: seq<Element>, n: nat, k: nat): CooState
    requires k <= |elements|
  {
    Run(None, elements, n, false, k)
  }

  /** A run that reached visit `k` had reached every earlier visit. */
  lemma DoneBefore(mode: Mode, elements: seq<Element>, n: nat, sizeChecks: bool, j: nat, k: nat)
    requires j <= k <= |elements| && Run(mode, elements, n, sizeChecks, k).outcome == Done
    ensures Run(mode, elements, n, sizeChecks, j).outcome == Done
  {
    if Run(mode, elements, n, sizeChecks, j).outcome != Done {
      StoppedUntil(mode, elements, n, sizeChecks, j, k, Run(mode, elements, n, sizeChecks, j));
      assert false;
    }
  }

  /** The kernels that never correct pass an element unchanged or stop at it. */
  lemma NoWrite(mode: Mode, e: Element, next: Option<Element>, n: nat, sizeChecks: bool)
    requires !Correcting(mode)
    ensures CooCheck(mode, e, next, n, sizeChecks).Fail? || CooCheck(mode, e, next, n, sizeChecks) == Pass(e, false)
  {}

  /** Only the correcting kernels ever store into the matrix. */
  lemma {:induction false} ReadOnly(mode: Mode, elements: seq<Element>, n: nat, sizeChecks: bool, k: nat)
    requires !Correcting(mode) && k <= |elements|
    ensures Run(mode, elements, n, sizeChecks, k).elements == elements
  {
    if k > 0 {
      ReadOnly(mode, elements, n, sizeChecks, k - 1);
      var s := Run(mode, elements, n, sizeChecks, k - 1);
      var next := if k < |s.elements| then Some(s.elements[k]) else Nothing;
      NoWrite(mode, s.elements[k - 1], next, |s.result|, sizeChecks);
    }
  }

  /** One more visit of the plain run, on the unchanged matrix. */
  lemma PlainNext(elements: seq<Element>, n: nat, k: nat)
    requires k < |elements|
    ensures Plain(elements, n, k + 1) ==
      if Plain(elements, n, k).outcome != Done then Plain(elements, n, k)
      else Step(None, CooState(Done, elements, Plain(elements, n, k).result), k, false)
  {
    ReadOnly(None, elements, n, false, k);
  }

  // ---------------------------------------------------------------------
  // One element
  // ---------------------------------------------------------------------

  lemma CleanPassSed(mode: Mode, e: Element, next: Option<Element>, n: nat, sizeChecks: bool)
    requires mode == Sed && Unreserved(e)
    ensures CooCheck(mode, Encode(mode, e), next, n, sizeChecks) == Pass(Encode(mode, e), false)
  {
    EncodeCases(mode, e);
    UnreservedIndex(e.col);
    SedClean(e);
  }

  lemma CleanPassSec7(mode: Mode, e: Element, next: Option<Element>, n: nat, sizeChecks: bool)
    requires mode == Sec7 && Unreserved(e)
    ensures CooCheck(mode, Encode(mode, e), next, n, sizeChecks) == Pass(Encode(mode, e), false)
  {
    EncodeCases(mode, e);
    Sec7Clean(e);
  }

  lemma CleanPassSec8(mode: Mode, e: Element, next: Option<Element>, n: nat, sizeChecks: bool)
    requires (mode == Sec8 || mode == Secded) && Unreserved(e)
    ensures CooCheck(mode, Encode(mode, e), next, n, sizeChecks) == Pass(Encode(mode, e), false)
  {
    EncodeCases(mode, e);
    Sec8Parity(e);
    Sec8Clean(e);
  }

  /** Every protected kernel lets a freshly encoded element through untouched. */
  lemma CleanPass(mode: Mode, e: Element, next: Option<Element>, n: nat, sizeChecks: bool)
    requires Protected(mode) && Unreserved(e)
    ensures CooCheck(mode, Encode(mode, e), next, n, sizeChecks) == Pass(Encode(mode, e), false)
  {
    if mode == Sed {
      CleanPassSed(mode, e, next, n, sizeChecks);
    } else if mode == Sec7 {
      CleanPassSec7(mode, e, next, n, sizeChecks);
    } else {
      CleanPassSec8(mode, e, next, n, sizeChecks);
    }
  }

  /** The kernels read an encoded element's column back through their mask. */
  lemma IndexEncode(mode: Mode, e: Element)
    requires Unreserved(e)
    ensures Index(mode, Encode(mode, e)) == e.col
  {
    EncodeKeeps(mode, e);
  }

  /** What an element adds to the result depends only on its row and value. */
  lemma AccumulateSame(result: seq<seq<Term>>, col: bv32, e: Element, d: Element)
    requires e.row == d.row && e.value == d.value
    ensures Accumulate(result, col, e) == Accumulate(result, col, d)
  {
    assert Term(e.value, e.row) == Term(d.value, d.row);
  }

  /** An encoded element contributes, under its masked index, what the plain element does. */
  lemma SameProduct(mode: Mode, e: Element, result: seq<seq<Term>>)
    requires Unreserved(e)
    ensures Accumulate(result, Index(mode, Encode(mode, e)), Encode(mode, e)) == Accumulate(result, e.col, e)
  {
    EncodeKeeps(mode, e);
    IndexEncode(mode, e);
    AccumulateSame(result, e.col, Encode(mode, e), e);
  }

  /** SEC7 relocates and undoes a single flip of a clean codeword outside bit 24. */
  lemma Sec7Fixes(c: Element, bit: bv32)
    requires ComputeCol8(c) == 0 && bit < 128 && bit != 24
    ensures Sec7Check(FlipBit(c, bit)) == Pass(c, true)
  {
    SingleErrorCorrected(c, bit);
    assert ComputeCol8(FlipBit(c, bit)) != 0;
  }

  lemma FlipPassSec7(mode: Mode, e: Element, bit: bv32, next: Option<Element>, n: nat, sizeChecks: bool)
    requires mode == Sec7 && Unreserved(e) && bit < 128 && bit != 24
    ensures CooCheck(mode, FlipBit(Encode(mode, e), bit), next, n, sizeChecks) == Pass(Encode(mode, e), true)
  {
    EncodeCases(mode, e);
    Sec7Clean(e);
    Sec7Fixes(EncodeSec7(e), bit);
  }

  /** Under odd parity, `Repair` undoes any single flip of a clean codeword. */
  lemma RepairFlip(c: Element, bit: bv32)
    requires ComputeCol8(c) == 0 && bit < 128
    ensures Repair(FlipBit(c, bit)) == c
  {
    if bit == 24 {
      Flip24Syndrome(c);
      FlipBitTwice(c, 24);
    } else {
      SingleErrorCorrected(c, bit);
    }
  }

  lemma FlipPassSec8(mode: Mode, e: Element, bit: bv32, next: Option<Element>, n: nat, sizeChecks: bool)
    requires (mode == Sec8 || mode == Secded) && Unreserved(e) && bit < 128
    ensures CooCheck(mode, FlipBit(Encode(mode, e), bit), next, n, sizeChecks) == Pass(Encode(mode, e), true)
  {
    EncodeCases(mode, e);
    Sec8Parity(e);
    Sec8Clean(e);
    ParityFlip(EncodeSec8(e), bit);
    RepairFlip(EncodeSec8(e), bit);
  }

  /**
   * The correcting kernels restore an encoded element with one flipped bit
   * and ask for it to be stored back (SEC7 cannot see a flip of bit 24).
   */
  lemma FlipPass(mode: Mode, e: Element, bit: bv32, next: Option<Element>, n: nat, sizeChecks: bool)
    requires Correcting(mode) && Unreserved(e) && bit < 128 && (mode == Sec7 ==> bit != 24)
    ensures CooCheck(mode, FlipBit(Encode(mode, e), bit), next, n, sizeChecks) == Pass(Encode(mode, e), true)
  {
    if mode == Sec7 {
      FlipPassSec7(mode, e, bit, next, n, sizeChecks);
    } else {
      FlipPassSec8(mode, e, bit, next, n, sizeChecks);
    }
  }

  /** SED rejects an encoded element with any one bit flipped. */
  lemma FlipFailSed(e: Element, bit: bv32)
    requires Unreserved(e) && bit < 128
    ensures SedCheck(FlipBit(EncodeSed(e), bit)) == Fail(ParityError)
  {
    UnreservedIndex(e.col);
    SedClean(e);
    ParityFlip(EncodeSed(e), bit);
  }

  /** SECDED rejects an encoded element with two different bits flipped. */
  lemma DoubleFailSecded(e: Element, b1: bv32, b2: bv32)
    requires Unreserved(e) && b1 < 128 && b2 < 128 && b1 != b2
    ensures Sec8Check(FlipBit(FlipBit(EncodeSec8(e), b1), b2), true) == Fail(DoubleBitError)
  {
    Sec8Parity(e);
    Sec8Clean(e);
    DoubleErrorDetected(EncodeSec8(e), b1, b2);
  }

  // ---------------------------------------------------------------------
  // One visit
  // ---------------------------------------------------------------------

  /** The unprotected kernel passes every element and adds it at its column. */
  lemma PlainStep(s: CooState, i: nat)
    requires i < |s.elements|
    ensures Step(None, s, i, false) ==
      match Accumulate(s.result, s.elements[i].col, s.elements[i])
      case Nothing => CooState(OutOfBounds(i), s.elements, s.result)
      case Some(result) => CooState(s.outcome, s.elements, result)
  {}

  /** Matrix `x` holds the encoding of `elements` at the indices lo..hi-1. */
  ghost predicate EncodedBetween(mode: Mode, elements: seq<Element>, x: seq<Element>, lo: nat, hi: nat)
    requires |x| == |elements| && hi <= |elements|
  {
    forall i :: lo <= i < hi ==> x[i] == Encode(mode, elements[i])
  }

  /** A protected kernel visiting an encoded element does what the plain kernel does with the plain one. */
  lemma CleanStep(mode: Mode, elements: seq<Element>, x: seq<Element>, result: seq<seq<Term>>, i: nat, sizeChecks: bool)
    requires Protected(mode) && AllUnreserved(elements) && |x| == |elements| && i < |elements|
    requires x[i] == Encode(mode, elements[i])
    ensures Step(mode, CooState(Done, x, result), i, sizeChecks) ==
      CooState(Step(None, CooState(Done, elements, result), i, false).outcome, x,
               Step(None, CooState(Done, elements, result), i, false).result)
  {
    var next := if i + 1 < |x| then Some(x[i + 1]) else Nothing;
    CleanPass(mode, elements[i], next, |result|, sizeChecks);
    SameProduct(mode, elements[i], result);
    PlainStep(CooState(Done, elements, result), i);
  }

  /** A correcting kernel visiting an encoded element with one flipped bit repairs it and goes on as the plain kernel. */
  lemma FlipStep(mode: Mode, elements: seq<Element>, x: seq<Element>, result: seq<seq<Term>>, i: nat,
                 bit: bv32, sizeChecks: bool)
    requires Correcting(mode) && AllUnreserved(elements) && |x| == |elements| && i < |elements|
    requires bit < 128 && (mode == Sec7 ==> bit != 24)
    requires x[i] == FlipBit(Encode(mode, elements[i]), bit)
    ensures Step(mode, CooState(Done, x, result), i, sizeChecks) ==
      CooState(Step(None, CooState(Done, elements, result), i, false).outcome, x[i := Encode(mode, elements[i])],
               Step(None, CooState(Done, elements, result), i, false).result)
  {
    var next := if i + 1 < |x| then Some(x[i + 1]) else Nothing;
    FlipPass(mode, elements[i], bit, next, |result|, sizeChecks);
    SameProduct(mode, elements[i], result);
    PlainStep(CooState(Done, elements, result), i);
  }

  /** SED stops at an encoded element with one flipped bit. */
  lemma SedStep(mode: Mode, elements: seq<Element>, x: seq<Element>, result: seq<seq<Term>>, i: nat, bit: bv32,
                sizeChecks: bool)
    requires mode == Sed && AllUnreserved(elements) && |x| == |elements| && i < |elements| && bit < 128
    requires x[i] == FlipBit(EncodeSed(elements[i]), bit)
    ensures Step(mode, CooState(Done, x, result), i, sizeChecks) == CooState(Aborted(i, ParityError), x, result)
  {
    FlipFailSed(elements[i], bit);
  }

  /** SECDED stops at an encoded element with two flipped bits. */
  lemma SecdedStep(mode: Mode, elements: seq<Element>, x: seq<Element>, result: seq<seq<Term>>, i: nat,
                   b1: bv32, b2: bv32, sizeChecks: bool)
    requires mode == Secded && AllUnreserved(elements) && |x| == |elements| && i < |elements| && b1 < 128 && b2 < 128 && b1 != b2
    requires x[i] == FlipBit(FlipBit(EncodeSec8(elements[i]), b1), b2)
    ensures Step(mode, CooState(Done, x, result), i, sizeChecks) == CooState(Aborted(i, DoubleBitError), x, result)
  {
    DoubleFailSecded(elements[i], b1, b2);
  }

  // ---------------------------------------------------------------------
  // Whole runs
  // ---------------------------------------------------------------------

  /** One visit of a protected run over an encoded element, against the plain run. */
  lemma CleanNext(mode: Mode, elements: seq<Element>, f: seq<Element>, x: seq<Element>,
                  n: nat, sizeChecks: bool, k: nat)
    requires Protected(mode) && AllUnreserved(elements) && |f| == |elements| && |x| == |elements|
    requires k < |elements| && EncodedBetween(mode, elements, x, k, k + 1)
    requires Run(mode, f, n, sizeChecks, k) == CooState(Plain(elements, n, k).outcome, x, Plain(elements, n, k).result)
    ensures Run(mode, f, n, sizeChecks, k + 1) ==
      CooState(Plain(elements, n, k + 1).outcome, x, Plain(elements, n, k + 1).result)
  {
    assert x[k] == Encode(mode, elements[k]);
    PlainNext(elements, n, k);
    RunNext(mode, f, n, sizeChecks, k);
    if Plain(elements, n, k).outcome == Done {
      CleanStep(mode, elements, x, Plain(elements, n, k).result, k, sizeChecks);
    }
  }

  /**
   * From visit `j` to visit `k`, over a stretch where the stored matrix `x`
   * is the encoding of `elements`, a protected run keeps `x` and follows the
   * plain run of `elements`.
   */
  lemma {:induction false} CleanFrom(mode: Mode, elements: seq<Element>, f: seq<Element>, x: seq<Element>,
                                     n: nat, sizeChecks: bool, j: nat, k: nat)
    requires Protected(mode) && AllUnreserved(elements) && |f| == |elements| && |x| == |elements|
    requires j <= k <= |elements| && EncodedBetween(mode, elements, x, j, k)
    requires Run(mode, f, n, sizeChecks, j) == CooState(Plain(elements, n, j).outcome, x, Plain(elements, n, j).result)
    ensures Run(mode, f, n, sizeChecks, k) == CooState(Plain(elements, n, k).outcome, x, Plain(elements, n, k).result)
    decreases k
  {
    if j < k {
      CleanFrom(mode, elements, f, x, n, sizeChecks, j, k - 1);
      CleanNext(mode, elements, f, x, n, sizeChecks, k - 1);
    }
  }

  /**
   * Transparency: on a freshly encoded matrix every protected kernel
   * computes what the unprotected kernel computes on the plain matrix, ends
   * the same way, and stores nothing.
   */
  lemma Transparent(mode: Mode, elements: seq<Element>, n: nat, sizeChecks: bool)
    requires Protected(mode) && AllUnreserved(elements)
    ensures Spmv(mode, EncodeAll(mode, elements), n, sizeChecks) ==
      CooState(Spmv(None, elements, n, false).outcome, EncodeAll(mode, elements), Spmv(None, elements, n, false).result)
  {
    var x := EncodeAll(mode, elements);
    EncodedAll(mode, elements, 0, |elements|);
    CleanFrom(mode, elements, x, x, n, sizeChecks, 0, |elements|);
  }

  /** The encoded matrix with bit `bit` of nonzero `j` flipped. */
  function Flipped(x: seq<Element>, j: nat, bit: bv32): (r: seq<Element>)
    requires j < |x| && bit < 128
    ensures |r| == |x| && r[j] == FlipBit(x[j], bit)
    ensures forall i :: 0 <= i < |x| && i != j ==> r[i] == x[i]
  {
    x[j := FlipBit(x[j], bit)]
  }

  /** Storing the original element back undoes the flip. */
  lemma Restore(x: seq<Element>, j: nat, bit: bv32)
    requires j < |x| && bit < 128
    ensures Flipped(x, j, bit)[j := x[j]] == x
  {}

  /** The encoded matrix is the encoding of the plain one everywhere. */
  lemma EncodedAll(mode: Mode, elements: seq<Element>, lo: nat, hi: nat)
    requires lo <= hi <= |elements|
    ensures EncodedBetween(mode, elements, EncodeAll(mode, elements), lo, hi)
  {}

  /** Before the flipped element, the flipped matrix is the encoding of the plain one. */
  lemma FlippedBefore(mode: Mode, elements: seq<Element>, j: nat, bit: bv32)
    requires j < |elements| && bit < 128
    ensures EncodedBetween(mode, elements, Flipped(EncodeAll(mode, elements), j, bit), 0, j)
  {}

  /** The visit of the flipped element by a correcting kernel, which stores back the encoded element. */
  lemma FlipVisit(mode: Mode, elements: seq<Element>, result: seq<seq<Term>>, j: nat, bit: bv32, sizeChecks: bool)
    requires Correcting(mode) && AllUnreserved(elements) && j < |elements|
    requires bit < 128 && (mode == Sec7 ==> bit != 24)
    ensures Step(mode, CooState(Done, Flipped(EncodeAll(mode, elements), j, bit), result), j, sizeChecks) ==
      CooState(Step(None, CooState(Done, elements, result), j, false).outcome, EncodeAll(mode, elements),
               Step(None, CooState(Done, elements, result), j, false).result)
  {
    var x := EncodeAll(mode, elements);
    var f := Flipped(x, j, bit);
    assert f[j] == FlipBit(Encode(mode, elements[j]), bit);
    FlipStep(mode, elements, f, result, j, bit, sizeChecks);
    Restore(x, j, bit);
  }

  /** The run over the flipped element. */
  lemma FlipNext(mode: Mode, elements: seq<Element>, f: seq<Element>, n: nat, sizeChecks: bool, j: nat, bit: bv32)
    requires Correcting(mode) && AllUnreserved(elements) && j < |elements|
    requires bit < 128 && (mode == Sec7 ==> bit != 24)
    requires f == Flipped(EncodeAll(mode, elements), j, bit) && Plain(elements, n, j).outcome == Done
    requires Run(mode, f, n, sizeChecks, j) == CooState(Done, f, Plain(elements, n, j).result)
    ensures Run(mode, f, n, sizeChecks, j + 1) ==
      CooState(Plain(elements, n, j + 1).outcome, EncodeAll(mode, elements), Plain(elements, n, j + 1).result)
  {
    PlainNext(elements, n, j);
    RunNext(mode, f, n, sizeChecks, j);
    FlipVisit(mode, elements, Plain(elements, n, j).result, j, bit, sizeChecks);
  }

  /**
   * Single-error correction: SEC7 (for any bit but the unused bit 24), SEC8
   * and SECDED compute the product of an encoded matrix with one flipped
   * bit as if nothing had happened, and store the repaired element back
   * when the run gets as far as it.
   */
  lemma SingleFlipCorrected(mode: Mode, elements: seq<Element>, n: nat, sizeChecks: bool, j: nat, bit: bv32)
    requires Correcting(mode) && AllUnreserved(elements) && j < |elements|
    requires bit < 128 && (mode == Sec7 ==> bit != 24)
    ensures Spmv(mode, Flipped(EncodeAll(mode, elements), j, bit), n, sizeChecks) ==
      CooState(Spmv(None, elements, n, false).outcome,
               if Plain(elements, n, j).outcome == Done then EncodeAll(mode, elements)
               else Flipped(EncodeAll(mode, elements), j, bit),
               Spmv(None, elements, n, false).result)
  {
    var x := EncodeAll(mode, elements);
    var f := Flipped(x, j, bit);
    FlippedBefore(mode, elements, j, bit);
    CleanFrom(mode, elements, f, f, n, sizeChecks, 0, j);
    if Plain(elements, n, j).outcome == Done {
      FlipNext(mode, elements, f, n, sizeChecks, j, bit);
      EncodedAll(mode, elements, j + 1, |elements|);
      CleanFrom(mode, elements, f, x, n, sizeChecks, j + 1, |elements|);
    } else {
      Stopped(mode, f, n, sizeChecks, j);
      Stopped(None, elements, n, false, j);
    }
  }

  /** Up to the damaged element `j`, a protected run over `f` follows the plain run and stores nothing. */
  lemma DamagedPrefix(mode: Mode, elements: seq<Element>, f: seq<Element>, n: nat, sizeChecks: bool, j: nat)
    requires Protected(mode) && AllUnreserved(elements) && |f| == |elements| && j < |elements|
    requires EncodedBetween(mode, elements, f, 0, j)
    ensures Run(mode, f, n, sizeChecks, j) == CooState(Plain(elements, n, j).outcome, f, Plain(elements, n, j).result)
  {
    CleanFrom(mode, elements, f, f, n, sizeChecks, 0, j);
  }

  /** SED's visit of the flipped element. */
  lemma SedVisit(mode: Mode, elements: seq<Element>, result: seq<seq<Term>>, j: nat, bit: bv32, sizeChecks: bool)
    requires mode == Sed && AllUnreserved(elements) && j < |elements| && bit < 128
    ensures Step(mode, CooState(Done, Flipped(EncodeAll(mode, elements), j, bit), result), j, sizeChecks) ==
      CooState(Aborted(j, ParityError), Flipped(EncodeAll(mode, elements), j, bit), result)
  {
    var f := Flipped(EncodeAll(mode, elements), j, bit);
    EncodeCases(mode, elements[j]);
    assert f[j] == FlipBit(EncodeSed(elements[j]), bit);
    SedStep(mode, elements, f, result, j, bit, sizeChecks);
  }

  /**
   * Single-error detection: SED stops at the element with the flipped bit,
   * with the result of the elements before it, and stores nothing.
   */
  lemma SingleFlipDetected(mode: Mode, elements: seq<Element>, n: nat, sizeChecks: bool, j: nat, bit: bv32)
    requires mode == Sed && AllUnreserved(elements) && j < |elements| && bit < 128
    ensures Spmv(mode, Flipped(EncodeAll(mode, elements), j, bit), n, sizeChecks) ==
      CooState(if Plain(elements, n, j).outcome == Done then Aborted(j, ParityError) else Plain(elements, n, j).outcome,
               Flipped(EncodeAll(mode, elements), j, bit), Plain(elements, n, j).result)
  {
    var f := Flipped(EncodeAll(mode, elements), j, bit);
    FlippedBefore(mode, elements, j, bit);
    DamagedPrefix(mode, elements, f, n, sizeChecks, j);
    if Plain(elements, n, j).outcome == Done {
      SedStops(mode, elements, n, sizeChecks, j, bit);
    } else {
      Stopped(mode, f, n, sizeChecks, j);
    }
  }

  /** A run that stops at visit `j` ends in the state it stopped in. */
  lemma StopsAfter(mode: Mode, f: seq<Element>, n: nat, sizeChecks: bool, j: nat, s: CooState)
    requires j < |f| && Run(mode, f, n, sizeChecks, j + 1) == s && s.outcome != Done
    ensures Spmv(mode, f, n, sizeChecks) == s
  {
    Stopped(mode, f, n, sizeChecks, j + 1);
  }

  /** SED, having reached the flipped element, stops there. */
  lemma SedStops(mode: Mode, elements: seq<Element>, n: nat, sizeChecks: bool, j: nat, bit: bv32)
    requires mode == Sed && AllUnreserved(elements) && j < |elements| && bit < 128
    requires Run(mode, Flipped(EncodeAll(mode, elements), j, bit), n, sizeChecks, j) ==
      CooState(Done, Flipped(EncodeAll(mode, elements), j, bit), Plain(elements, n, j).result)
    ensures Spmv(mode, Flipped(EncodeAll(mode, elements), j, bit), n, sizeChecks) ==
      CooState(Aborted(j, ParityError), Flipped(EncodeAll(mode, elements), j, bit), Plain(elements, n, j).result)
  {
    var f := Flipped(EncodeAll(mode, elements), j, bit);
    RunNext(mode, f, n, sizeChecks, j);
    SedVisit(mode, elements, Plain(elements, n, j).result, j, bit, sizeChecks);
    StopsAfter(mode, f, n, sizeChecks, j, CooState(Aborted(j, ParityError), f, Plain(elements, n, j).result));
  }

  /** The encoded matrix with bits `b1` and `b2` of nonzero `j` flipped. */
  function Flipped2(x: seq<Element>, j: nat, b1: bv32, b2: bv32): (r: seq<Element>)
    requires j < |x| && b1 < 128 && b2 < 128
    ensures |r| == |x| && r[j] == FlipBit(FlipBit(x[j], b1), b2)
    ensures forall i :: 0 <= i < |x| && i != j ==> r[i] == x[i]
  {
    x[j := FlipBit(FlipBit(x[j], b1), b2)]
  }

  /** Before the doubly flipped element, the matrix is the encoding of the plain one. */
  lemma Flipped2Before(mode: Mode, elements: seq<Element>, j: nat, b1: bv32, b2: bv32)
    requires j < |elements| && b1 < 128 && b2 < 128
    ensures EncodedBetween(mode, elements, Flipped2(EncodeAll(mode, elements), j, b1, b2), 0, j)
  {}

  /** SECDED's visit of the doubly flipped element. */
  lemma SecdedVisit(mode: Mode, elements: seq<Element>, result: seq<seq<Term>>, j: nat, b1: bv32, b2: bv32,
                    sizeChecks: bool)
    requires mode == Secded && AllUnreserved(elements) && j < |elements| && b1 < 128 && b2 < 128 && b1 != b2
    ensures Step(mode, CooState(Done, Flipped2(EncodeAll(mode, elements), j, b1, b2), result), j, sizeChecks) ==
      CooState(Aborted(j, DoubleBitError), Flipped2(EncodeAll(mode, elements), j, b1, b2), result)
  {
    var f := Flipped2(EncodeAll(mode, elements), j, b1, b2);
    EncodeCases(mode, elements[j]);
    assert f[j] == FlipBit(FlipBit(EncodeSec8(elements[j]), b1), b2);
    SecdedStep(mode, elements, f, result, j, b1, b2, sizeChecks);
  }

  /**
   * Double-error detection: SECDED stops at an element with two flipped
   * bits, with the result of the elements before it, and stores nothing.
   */
  lemma DoubleFlipDetected(mode: Mode, elements: seq<Element>, n: nat, sizeChecks: bool, j: nat, b1: bv32, b2: bv32)
    requires mode == Secded && AllUnreserved(elements) && j < |elements| && b1 < 128 && b2 < 128 && b1 != b2
    ensures Spmv(mode, Flipped2(EncodeAll(mode, elements), j, b1, b2), n, sizeChecks) ==
      CooState(if Plain(elements, n, j).outcome == Done then Aborted(j, DoubleBitError) else Plain(elements, n, j).outcome,
               Flipped2(EncodeAll(mode, elements), j, b1, b2), Plain(elements, n, j).result)
  {
    var f := Flipped2(EncodeAll(mode, elements), j, b1, b2);
    Flipped2Before(mode, elements, j, b1, b2);
    DamagedPrefix(mode, elements, f, n, sizeChecks, j);
    if Plain(elements, n, j).outcome == Done {
      SecdedStops(mode, elements, n, sizeChecks, j, b1, b2);
    } else {
      Stopped(mode, f, n, sizeChecks, j);
    }
  }

  /** SECDED, having reached the doubly flipped element, stops there. */
  lemma SecdedStops(mode: Mode, elements: seq<Element>, n: nat, sizeChecks: bool, j: nat, b1: bv32, b2: bv32)
    requires mode == Secded && AllUnreserved(elements) && j < |elements| && b1 < 128 && b2 < 128 && b1 != b2
    requires Run(mode, Flipped2(EncodeAll(mode, elements), j, b1, b2), n, sizeChecks, j) ==
      CooState(Done, Flipped2(EncodeAll(mode, elements), j, b1, b2), Plain(elements, n, j).result)
    ensures Spmv(mode, Flipped2(EncodeAll(mode, elements), j, b1, b2), n, sizeChecks) ==
      CooState(Aborted(j, DoubleBitError), Flipped2(EncodeAll(mode, elements), j, b1, b2), Plain(elements, n, j).result)
  {
    var f := Flipped2(EncodeAll(mode, elements), j, b1, b2);
    SecdedAborts(mode, elements, f, n, sizeChecks, j, b1, b2);
    StopsAfter(mode, f, n, sizeChecks, j, CooState(Aborted(j, DoubleBitError), f, Plain(elements, n, j).result));
  }

  lemma SecdedAborts(mode: Mode, elements: seq<Element>, f: seq<Element>, n: nat, sizeChecks: bool, j: nat,
                     b1: bv32, b2: bv32)
    requires mode == Secded && AllUnreserved(elements) && j < |elements| && b1 < 128 && b2 < 128 && b1 != b2
    requires f == Flipped2(EncodeAll(mode, elements), j, b1, b2)
    requires Run(mode, f, n, sizeChecks, j) == CooState(Done, f, Plain(elements, n, j).result)
    ensures Run(mode, f, n, sizeChecks, j + 1) == CooState(Aborted(j, DoubleBitError), f, Plain(elements, n, j).result)
  {
    RunNext(mode, f, n, sizeChecks, j);
    SecdedVisit(mode, elements, Plain(elements, n, j).result, j, b1, b2, sizeChecks);
  }
}
