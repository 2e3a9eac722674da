/**
 * The COO SpMV kernels (COO/spmv-c.c, the `spmv` methods of the classes in
 * COO/CPUContext.cpp and the per-mode files spmv-secded.c,
 * spmv-constraints.c and the files under COO/c): zero the result, then visit the nonzeros
 * in order; each visit checks the element as its mode prescribes, aborts,
 * or corrects it and stores it back, and adds `value * vector[row]` to
 * `result[col]`.
 *
 * `Run` is the specification: the state after the first k visits. The
 * method `Multiply` works on arrays and is proved to end in `Spmv`.
 */
module CooSpmv {
  import opened Bits
  import opened Syndrome
  import opened Modes
  import opened CooEcc

  /** What the check of one element decides: carry on with `fixed`, storing it back when `write`, or abort. */
  datatype Check = Pass(fixed: Element, write: bool) | Fail(fault: Fault)

  /** The element with the bit its non-zero syndrome names toggled back. */
  function Relocate(e: Element): Element
    requires ComputeCol8(e) != 0
  {
    Col8Low(e);
    HammBitRange(ComputeCol8(e));
    DataBitRange(HammBit(ComputeCol8(e)));
    FlipBit(e, DataBit(HammBit(ComputeCol8(e))))
  }

  /**
   * The SEC8/SECDED correction under odd parity: the located bit when the
   * syndrome is non-zero, the overall parity bit 24 otherwise.
   */
  function Repair(e: Element): Element
  {
    if ComputeCol8(e) == 0 then FlipBit(e, 24) else Relocate(e)
  }

  /**
   * CONSTRAINTS: the successor `next` must not have a smaller row, nor the
   * same row and a column that is not larger. `sizeChecks` selects the
   * variant of COO/CPUContext.cpp, which first rejects row and column
   * indices at or past the order `n`.
   */
  function ConstraintsCheck(e: Element, next: Option<Element>, n: nat, sizeChecks: bool): Check
  {
    if sizeChecks && e.row as int >= n then Fail(RowSize)
    else if sizeChecks && e.col as int >= n then Fail(ColumnSize)
    else OrderCheck(e, next)
  }

  /** The order checks alone: row-major order, strictly increasing columns within a row. */
  function OrderCheck(e: Element, next: Option<Element>): Check
  {
    if next.Some? && e.row as int > next.value.row as int then Fail(RowOrder)
    else if next.Some? && e.row as int == next.value.row as int && e.col as int >= next.value.col as int then Fail(ColumnOrder)
    else Pass(e, false)
  }

  /** SED: odd overall parity is an error. */
  function SedCheck(e: Element): Check
  {
    if OverallParity(e) != 0 then Fail(ParityError) else Pass(e, false)
  }

  /** SEC7: a non-zero syndrome is corrected, whatever the parity. */
  function Sec7Check(e: Element): Check
  {
    if ComputeCol8(e) != 0 then Pass(Relocate(e), true) else Pass(e, false)
  }

  /**
   * SEC8 and SECDED: odd parity is corrected; SECDED further rejects even
   * parity with a non-zero syndrome, which SEC8 never inspects.
   */
  function Sec8Check(e: Element, secded: bool): Check
  {
    if OverallParity(e) != 0 then Pass(Repair(e), true)
    else if secded && ComputeCol8(e) != 0 then Fail(DoubleBitError)
    else Pass(e, false)
  }

  /** The check the kernel of `mode` makes on element `e`, whose successor in the array is `next`. */
  function CooCheck(mode: Mode, e: Element, next: Option<Element>, n: nat, sizeChecks: bool): Check
  {
    match mode
    case None => Pass(e, false)
    case Constraints => ConstraintsCheck(e, next, n, sizeChecks)
    case Sed => SedCheck(e)
    case Sec7 => Sec7Check(e)
    case Sec8 => Sec8Check(e, false)
    case Secded => Sec8Check(e, true)
  }

  /** The column index a kernel uses: the ECC kernels mask off the check bits 24..31. */
  function Index(mode: Mode, e: Element): bv32
  {
    if mode == None || mode == Constraints then e.col else e.col & 0x00FF_FFFF
  }

  /** The state of a run: how it ended so far, the matrix, and the result vector. */
  datatype CooState = CooState(outcome: Outcome, elements: seq<Element>, result: seq<seq<Term>>)

  /**
   * `result[col] += value * vector[row]`: the product of `e` appended to the
   * sum of entry `col`; nothing when a row or column index is past the
   * vectors, which the C code would access outside them.
   */
  function Accumulate(result: seq<seq<Term>>, col: bv32, e: Element): Option<seq<seq<Term>>>
  {
    if col as int < |result| && e.row as int < |result| then
      Some(result[col as int := result[col as int] + [Term(e.value, e.row)]])
    else
      Nothing
  }

  /** The visit of nonzero `i` by the kernel of `mode`. */
  function Step(mode: Mode, s: CooState, i: nat, sizeChecks: bool): CooState
    requires i < |s.elements|
  {
    var next := if i + 1 < |s.elements| then Some(s.elements[i + 1]) else Nothing;
    Apply(mode, s, i, CooCheck(mode, s.elements[i], next, |s.result|, sizeChecks))
  }

  /**
   * What the verdict `c` on nonzero `i` does: abort, or store the corrected
   * element back when `c` asks to and accumulate its product.
   */
  function Apply(mode: Mode, s: CooState, i: nat, c: Check): CooState
    requires i < |s.elements|
  {
    match c
    case Fail(f) => CooState(Aborted(i, f), s.elements, s.result)
    case Pass(fixed, write) =>
      var elements := if write then s.elements[i := fixed] else s.elements;
      match Accumulate(s.result, Index(mode, fixed), fixed)
      case Nothing => CooState(OutOfBounds(i), elements, s.result)
      case Some(result) => CooState(s.outcome, elements, result)
  }

  /** The state after the first `k` visits, starting from a zeroed result of length `n`. */
  function Run(mode: Mode, elements: seq<Element>, n: nat, sizeChecks: bool, k: nat): (s: CooState)
    requires k <= |elements|
    ensures |s.elements| == |elements| && |s.result| == n
    decreases k
  {
    if k == 0 then CooState(Done, elements, Zeros(n))
    else if Run(mode, elements, n, sizeChecks, k - 1).outcome != Done then Run(mode, elements, n, sizeChecks, k - 1)
    else Step(mode, Run(mode, elements, n, sizeChecks, k - 1), k - 1, sizeChecks)
  }

  /** `spmv` on a matrix of order `n` stored in `mode`. */
  function Spmv(mode: Mode, elements: seq<Element>, n: nat, sizeChecks: bool): CooState
  {
    Run(mode, elements, n, sizeChecks, |elements|)
  }

  /** A run that has stopped stays stopped: its final state is the state it stopped in. */
  lemma Stopped(mode: Mode, elements: seq<Element>, n: nat, sizeChecks: bool, k: nat)
    requires k <= |elements| && Run(mode, elements, n, sizeChecks, k).outcome != Done
    ensures Spmv(mode, elements, n, sizeChecks) == Run(mode, elements, n, sizeChecks, k)
  {
    StoppedUntil(mode, elements, n, sizeChecks, k, |elements|, Run(mode, elements, n, sizeChecks, k));
  }

  /** A run that stopped in state `t` after `k` visits is still in `t` after any `m >= k` visits. */
  lemma {:induction false} StoppedUntil(mode: Mode, elements: seq<Element>, n: nat, sizeChecks: bool, k: nat, m: nat, t: CooState)
    requires k <= m <= |elements| && Run(mode, elements, n, sizeChecks, k) == t && t.outcome != Done
    ensures Run(mode, elements, n, sizeChecks, m) == t
    decreases m - k
  {
    if k < m {
      Halted(mode, elements, n, sizeChecks, k, t);
      StoppedUntil(mode, elements, n, sizeChecks, k + 1, m, t);
    }
  }

  /** A visit after the run has stopped in `t` changes nothing. */
  lemma Halted(mode: Mode, elements: seq<Element>, n: nat, sizeChecks: bool, k: nat, t: CooState)
    requires k < |elements| && Run(mode, elements, n, sizeChecks, k) == t && t.outcome != Done
    ensures Run(mode, elements, n, sizeChecks, k + 1) == t
  {}

  /** The zeroing loop every kernel starts with. */
  method ZeroResult(result: array<seq<Term>>)
    modifies result
    ensures result[..] == Zeros(result.Length)
  {
    for j := 0 to result.Length
      invariant forall k :: 0 <= k < j ==> result[k] == []
    {
      result[j] := [];
    }
  }

  /** `element.col ^= 0x1 << 24` toggles the overall parity bit. */
  lemma ToggleParityBit(e: Element)
    ensures Element(e.col ^ (1 << 24), e.row, e.value) == FlipBit(e, 24)
  {
  }

  /** The order checks of CONSTRAINTS, and the size checks of its COO/CPUContext.cpp variant. */
  method CheckConstraints(elements: array<Element>, i: nat, n: nat, sizeChecks: bool) returns (c: Check)
    requires i < elements.Length
    ensures c == ConstraintsCheck(elements[i], if i + 1 < elements.Length then Some(elements[i + 1]) else Nothing,
                                  n, sizeChecks)
  {
    var element := elements[i];
    if sizeChecks && element.row as int >= n {
      return Fail(RowSize);
    }
    if sizeChecks && element.col as int >= n {
      return Fail(ColumnSize);
    }
    c := CheckOrder(elements, i);
  }

  /** The index order checks, skipped for the last nonzero. */
  method CheckOrder(elements: array<Element>, i: nat) returns (c: Check)
    requires i < elements.Length
    ensures c == OrderCheck(elements[i], if i + 1 < elements.Length then Some(elements[i + 1]) else Nothing)
  {
    var element := elements[i];
    if i + 1 < elements.Length {
      var nextRow := elements[i + 1].row;
      if element.row as int > nextRow as int {
        return Fail(RowOrder);
      } else if element.row as int == nextRow as int {
        var nextCol := elements[i + 1].col;
        if element.col as int >= nextCol as int {
          return Fail(ColumnOrder);
        }
      }
    }
    c := Pass(element, false);
  }

  /** SED: abort on odd overall parity. */
  method CheckSed(element: Element) returns (c: Check)
    ensures c == SedCheck(element)
  {
    if OverallParity(element) != 0 {
      return Fail(ParityError);
    }
    c := Pass(element, false);
  }

  /** SEC7: a non-zero syndrome names the bit to toggle back. */
  method CheckSec7(element: Element) returns (c: Check)
    ensures c == Sec7Check(element)
  {
    var syndrome := ComputeCol8(element);
    if syndrome != 0 {
      Col8Low(element);
      var fixed, bit := CorrectCol8(element, syndrome);
      return Pass(fixed, true);
    }
    c := Pass(element, false);
  }

  /** The correction under odd parity: the located bit, or `col ^= 0x1 << 24` for a zero syndrome. */
  method RepairElement(element: Element) returns (fixed: Element)
    ensures fixed == Repair(element)
  {
    if ComputeCol8(element) != 0 {
      Col8Low(element);
      var bit;
      fixed, bit := CorrectCol8(element, ComputeCol8(element));
    } else {
      fixed := ToggleParity(element);
    }
  }

  /** `element.col ^= 0x1 << 24`: the overall parity bit toggled. */
  method ToggleParity(element: Element) returns (fixed: Element)
    ensures fixed == FlipBit(element, 24)
  {
    ToggleParityBit(element);
    fixed := Element(element.col ^ (1 << 24), element.row, element.value);
  }

  /**
   * SEC8 and SECDED: correct under odd parity; SECDED also aborts on even
   * parity with a non-zero syndrome.
   */
  method CheckSec8(element: Element, secded: bool) returns (c: Check)
    ensures c == Sec8Check(element, secded)
  {
    var overallParity := OverallParity(element);
    if overallParity != 0 {
      var fixed := RepairElement(element);
      return Pass(fixed, true);
    }
    if secded {
      var syndrome := ComputeCol8(element);
      if syndrome != 0 {
        return Fail(DoubleBitError);
      }
    }
    c := Pass(element, false);
  }

  /** The check of nonzero `i` by the kernel of `mode`. */
  method CheckElement(mode: Mode, elements: array<Element>, i: nat, n: nat, sizeChecks: bool) returns (c: Check)
    requires i < elements.Length
    ensures c == CooCheck(mode, elements[i], if i + 1 < elements.Length then Some(elements[i + 1]) else Nothing,
                          n, sizeChecks)
  {
    match mode
    case None => c := Pass(elements[i], false);
    case Constraints => c := CheckConstraints(elements, i, n, sizeChecks);
    case Sed => c := CheckSed(elements[i]);
    case Sec7 => c := CheckSec7(elements[i]);
    case Sec8 => c := CheckSec8(elements[i], false);
    case Secded => c := CheckSec8(elements[i], true);
  }

  /** `result[col] += value * vector[row]`, unless an index is past the vectors. */
  method AddProduct(result: array<seq<Term>>, col: bv32, e: Element) returns (inBounds: bool)
    modifies result
    ensures Accumulate(old(result[..]), col, e) == if inBounds then Some(result[..]) else Nothing
    ensures !inBounds ==> result[..] == old(result[..])
  {
    if col as int >= result.Length || e.row as int >= result.Length {
      return false;
    }
    result[col] := result[col] + [Term(e.value, e.row)];
    inBounds := true;
  }

  /**
   * The loop body of the kernel of `mode`, in place: check nonzero `i`,
   * store a corrected element back, and accumulate with the index masked.
   */
  method Visit(mode: Mode, elements: array<Element>, result: array<seq<Term>>, i: nat, sizeChecks: bool)
    returns (outcome: Outcome)
    requires i < elements.Length
    modifies elements, result
    ensures CooState(outcome, elements[..], result[..])
            == Step(mode, CooState(Done, old(elements[..]), old(result[..])), i, sizeChecks)
  {
    var c := CheckElement(mode, elements, i, result.Length, sizeChecks);
    outcome := ApplyCheck(mode, elements, result, i, c);
  }

  /** Act on the verdict `c` on nonzero `i`. */
  method ApplyCheck(mode: Mode, elements: array<Element>, result: array<seq<Term>>, i: nat, c: Check)
    returns (outcome: Outcome)
    requires i < elements.Length
    modifies elements, result
    ensures CooState(outcome, elements[..], result[..]) == Apply(mode, CooState(Done, old(elements[..]), old(result[..])), i, c)
  {
    if c.Fail? {
      return Aborted(i, c.fault);
    }
    if c.write {
      elements[i] := c.fixed;
    }
    var inBounds := AddProduct(result, Index(mode, c.fixed), c.fixed);
    outcome := if inBounds then Done else OutOfBounds(i);
  }

  /**
   * `spmv` for a matrix in `mode` whose order is the length of `result`:
   * the arrays end as the specification's run leaves them.
   */
  method Multiply(mode: Mode, elements: array<Element>, result: array<seq<Term>>, sizeChecks: bool)
    returns (outcome: Outcome)
    modifies elements, result
    ensures CooState(outcome, elements[..], result[..]) == Spmv(mode, old(elements[..]), result.Length, sizeChecks)
  {
    ZeroResult(result);
    var i := 0;
    while i < elements.Length
      invariant 0 <= i <= elements.Length
      invariant Run(mode, old(elements[..]), result.Length, sizeChecks, i) == CooState(Done, elements[..], result[..])
    {
      outcome := Advance(mode, elements, result, i, sizeChecks, old(elements[..]));
      if outcome != Done {
        Stopped(mode, old(elements[..]), result.Length, sizeChecks, i + 1);
        return;
      }
      i := i + 1;
    }
    outcome := Done;
  }

  /** One round of the kernel loop of `Multiply`, as a step of the run over the original matrix `f`. */
  method Advance(mode: Mode, elements: array<Element>, result: array<seq<Term>>, i: nat, sizeChecks: bool,
                 ghost f: seq<Element>)
    returns (outcome: Outcome)
    requires i < |f| && Run(mode, f, result.Length, sizeChecks, i) == CooState(Done, elements[..], result[..])
    modifies elements, result
    ensures Run(mode, f, result.Length, sizeChecks, i + 1) == CooState(outcome, elements[..], result[..])
  {
    RunNext(mode, f, result.Length, sizeChecks, i);
    outcome := Visit(mode, elements, result, i, sizeChecks);
  }

  /** One more visit of a run. */
  lemma RunNext(mode: Mode, elements: seq<Element>, n: nat, sizeChecks: bool, k: nat)
    requires k < |elements|
    ensures Run(mode, elements, n, sizeChecks, k + 1) ==
      if Run(mode, elements, n, sizeChecks, k).outcome != Done then Run(mode, elements, n, sizeChecks, k)
      else Step(mode, Run(mode, elements, n, sizeChecks, k), k, sizeChecks)
  {}
}
