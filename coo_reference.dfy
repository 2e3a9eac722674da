/**
 * What the unprotected and the CONSTRAINTS kernels compute, against an
 * independent reference: entry c of the result is the list of products of
 * the nonzeros in column c, in storage order, and a kernel stops at the
 * first nonzero it cannot use.
 */
module CooReference {
  import opened Modes
  import opened CooEcc
  import opened CooSpmv
  import opened CooProps

  /** The product a nonzero contributes. */
  function Product(e: Element): Term
  {
    Term(e.value, e.row)
  }

  /** The products of the nonzeros of `elements` in column `c`, in storage order. */
  function Column(elements: seq<Element>, c: nat): seq<Term>
  {
    if |elements| == 0 then []
    else Column(elements[..|elements| - 1], c) +
         (if elements[|elements| - 1].col as int == c then [Product(elements[|elements| - 1])] else [])
  }

  /** The reference result of order `n`: every column's products. */
  function Columns(elements: seq<Element>, n: nat): (r: seq<seq<Term>>)
    ensures |r| == n && forall c :: 0 <= c < n ==> r[c] == Column(elements, c)
  {
    seq(n, c requires 0 <= c < n => Column(elements, c))
  }

  /** A nonzero both of whose indices address the vectors of order `n`. */
  predicate InBounds(e: Element, n: nat)
  {
    e.col as int < n && e.row as int < n
  }

  /** The first of the first `k` nonzeros that is out of bounds, or `k`. */
  function FirstOutside(elements: seq<Element>, n: nat, k: nat): (r: nat)
    requires k <= |elements|
    ensures r <= k && (forall i :: 0 <= i < r ==> InBounds(elements[i], n))
    ensures r < k ==> !InBounds(elements[r], n)
  {
    if k == 0 then 0
    else if FirstOutside(elements, n, k - 1) < k - 1 then FirstOutside(elements, n, k - 1)
    else if InBounds(elements[k - 1], n) then k
    else k - 1
  }

  /** Adding the products of nonzero `k`, when it is in bounds, extends every column by it. */
  lemma ColumnsNext(elements: seq<Element>, n: nat, k: nat)
    requires k < |elements|
    ensures Accumulate(Columns(elements[..k], n), elements[k].col, elements[k]) ==
      if InBounds(elements[k], n) then Some(Columns(elements[..k + 1], n)) else Nothing
  {
    var p := elements[..k + 1];
    assert p[..|p| - 1] == elements[..k];
    if InBounds(elements[k], n) {
      var c := elements[k].col as int;
      var before := Columns(elements[..k], n);
      var after := before[c := before[c] + [Product(elements[k])]];
      forall d | 0 <= d < n
        ensures after[d] == Columns(p, n)[d]
      {
      }
      assert after == Columns(p, n);
    }
  }

  /** The unprotected run of the first `k` nonzeros, against the reference. */
  ghost predicate PlainIsReference(elements: seq<Element>, n: nat, k: nat)
    requires k <= |elements|
  {
    Plain(elements, n, k) ==
      CooState(if FirstOutside(elements, n, k) == k then Done else OutOfBounds(FirstOutside(elements, n, k)),
               elements, Columns(elements[..FirstOutside(elements, n, k)], n))
  }

  lemma PlainColumnsNext(elements: seq<Element>, n: nat, k: nat)
    requires k < |elements| && PlainIsReference(elements, n, k)
    ensures PlainIsReference(elements, n, k + 1)
  {
    PlainNext(elements, n, k);
    if FirstOutside(elements, n, k) == k {
      ColumnsNext(elements, n, k);
      PlainStep(CooState(Done, elements, Columns(elements[..k], n)), k);
    }
  }

  lemma {:induction false} PlainColumns(elements: seq<Element>, n: nat, k: nat)
    requires k <= |elements|
    ensures PlainIsReference(elements, n, k)
  {
    if k == 0 {
      assert Columns(elements[..0], n) == Zeros(n);
    } else {
      PlainColumns(elements, n, k - 1);
      PlainColumnsNext(elements, n, k - 1);
    }
  }

  /**
   * The unprotected kernel: the result is the reference product when every
   * nonzero is in bounds; otherwise the run stops at the first one that is
   * not, with the products of those before it. The matrix is untouched.
   */
  lemma Baseline(elements: seq<Element>, n: nat)
    ensures Spmv(None, elements, n, false) ==
      CooState(if FirstOutside(elements, n, |elements|) == |elements| then Done
               else OutOfBounds(FirstOutside(elements, n, |elements|)),
               elements, Columns(elements[..FirstOutside(elements, n, |elements|)], n))
  {
    PlainColumns(elements, n, |elements|);
  }

  // ---------------------------------------------------------------------
  // CONSTRAINTS
  // ---------------------------------------------------------------------

  /** Every nonzero is in bounds. */
  predicate AllInBounds(elements: seq<Element>, n: nat)
  {
    forall i :: 0 <= i < |elements| ==> InBounds(elements[i], n)
  }

  /** `e` comes strictly before `f` in row-major order. */
  predicate Before(e: Element, f: Element)
  {
    e.row as int < f.row as int || (e.row as int == f.row as int && e.col as int < f.col as int)
  }

  /** The nonzeros are strictly increasing in row-major order, so no position is stored twice. */
  predicate Ordered(elements: seq<Element>)
  {
    forall i :: 0 <= i && i + 1 < |elements| ==> Before(elements[i], elements[i + 1])
  }

  /** The nonzero after `i`, which the order checks compare with. */
  function NextOf(elements: seq<Element>, i: nat): Option<Element>
  {
    if i + 1 < |elements| then Some(elements[i + 1]) else Nothing
  }

  /** Nonzero `i` passes the checks: in bounds when they are on, and before its successor. */
  predicate Admissible(elements: seq<Element>, n: nat, sizeChecks: bool, i: nat)
    requires i < |elements|
  {
    (sizeChecks ==> InBounds(elements[i], n)) && (i + 1 < |elements| ==> Before(elements[i], elements[i + 1]))
  }

  /** The checks of CONSTRAINTS pass exactly on admissible nonzeros, and then leave them as they are. */
  lemma ConstraintsCheckPass(elements: seq<Element>, n: nat, sizeChecks: bool, i: nat)
    requires i < |elements|
    ensures var c := ConstraintsCheck(elements[i], NextOf(elements, i), n, sizeChecks);
      (c.Pass? <==> Admissible(elements, n, sizeChecks, i)) && (c.Pass? ==> c == Pass(elements[i], false))
  {}

  /** The first of the first `k` nonzeros that is not admissible, or `k`. */
  function FirstRejected(elements: seq<Element>, n: nat, sizeChecks: bool, k: nat): (r: nat)
    requires k <= |elements|
    ensures r <= k && (forall i :: 0 <= i < r ==> Admissible(elements, n, sizeChecks, i))
    ensures r < k ==> !Admissible(elements, n, sizeChecks, r)
  {
    if k == 0 then 0
    else if FirstRejected(elements, n, sizeChecks, k - 1) < k - 1 then FirstRejected(elements, n, sizeChecks, k - 1)
    else if Admissible(elements, n, sizeChecks, k - 1) then k
    else k - 1
  }

  /** How a CONSTRAINTS run of `k` visits ends: at the first rejected or out-of-bounds nonzero, if any. */
  function ConstraintsOutcome(elements: seq<Element>, n: nat, sizeChecks: bool, k: nat): Outcome
    requires k <= |elements|
  {
    var g := FirstRejected(elements, n, sizeChecks, k);
    var j := FirstOutside(elements, n, k);
    if g < k && g <= j then Aborted(g, ConstraintsCheck(elements[g], NextOf(elements, g), n, sizeChecks).fault)
    else if j < k then OutOfBounds(j)
    else Done
  }

  /** How many nonzeros a CONSTRAINTS run of `k` visits has added to the result. */
  function ConstraintsCount(elements: seq<Element>, n: nat, sizeChecks: bool, k: nat): (r: nat)
    requires k <= |elements|
    ensures r <= k
  {
    var g := FirstRejected(elements, n, sizeChecks, k);
    var j := FirstOutside(elements, n, k);
    if g <= j then g else j
  }

  ghost predicate ConstraintsIsReference(elements: seq<Element>, n: nat, sizeChecks: bool, k: nat)
    requires k <= |elements|
  {
    Run(Constraints, elements, n, sizeChecks, k) ==
      CooState(ConstraintsOutcome(elements, n, sizeChecks, k), elements,
               Columns(elements[..ConstraintsCount(elements, n, sizeChecks, k)], n))
  }

  lemma ConstraintsVisit(mode: Mode, elements: seq<Element>, n: nat, sizeChecks: bool, k: nat)
    requires mode == Constraints && k < |elements|
    ensures Step(mode, CooState(Done, elements, Columns(elements[..k], n)), k, sizeChecks) ==
      if !Admissible(elements, n, sizeChecks, k) then
        CooState(Aborted(k, ConstraintsCheck(elements[k], NextOf(elements, k), n, sizeChecks).fault), elements,
                 Columns(elements[..k], n))
      else if InBounds(elements[k], n) then CooState(Done, elements, Columns(elements[..k + 1], n))
      else CooState(OutOfBounds(k), elements, Columns(elements[..k], n))
  {
    ConstraintsCheckPass(elements, n, sizeChecks, k);
    ColumnsNext(elements, n, k);
  }

  lemma ConstraintsNext(mode: Mode, elements: seq<Element>, n: nat, sizeChecks: bool, k: nat)
    requires mode == Constraints && k < |elements| && ConstraintsIsReference(elements, n, sizeChecks, k)
    ensures ConstraintsIsReference(elements, n, sizeChecks, k + 1)
  {
    RunNext(mode, elements, n, sizeChecks, k);
    if Run(mode, elements, n, sizeChecks, k).outcome == Done {
      ConstraintsVisit(mode, elements, n, sizeChecks, k);
    }
  }

  lemma {:induction false} ConstraintsRun(mode: Mode, elements: seq<Element>, n: nat, sizeChecks: bool, k: nat)
    requires mode == Constraints && k <= |elements|
    ensures ConstraintsIsReference(elements, n, sizeChecks, k)
  {
    if k == 0 {
      ConstraintsStart(mode, elements, n, sizeChecks);
    } else {
      ConstraintsRun(mode, elements, n, sizeChecks, k - 1);
      ConstraintsNext(mode, elements, n, sizeChecks, k - 1);
    }
  }

  lemma ConstraintsStart(mode: Mode, elements: seq<Element>, n: nat, sizeChecks: bool)
    requires mode == Constraints
    ensures ConstraintsIsReference(elements, n, sizeChecks, 0)
  {
    assert Columns(elements[..0], n) == Zeros(n);
  }

  /**
   * CONSTRAINTS: the run stops at the first nonzero that fails a check, or
   * that is out of bounds, whichever comes first, with the reference
   * products of the nonzeros before it; it never changes the matrix.
   */
  lemma ConstraintsSpmv(elements: seq<Element>, n: nat, sizeChecks: bool)
    ensures Spmv(Constraints, elements, n, sizeChecks) ==
      CooState(ConstraintsOutcome(elements, n, sizeChecks, |elements|), elements,
               Columns(elements[..ConstraintsCount(elements, n, sizeChecks, |elements|)], n))
  {
    ConstraintsRun(Constraints, elements, n, sizeChecks, |elements|);
  }

  /** CONSTRAINTS completes exactly on ordered matrices whose nonzeros are all in bounds. */
  lemma ConstraintsAccepts(elements: seq<Element>, n: nat, sizeChecks: bool)
    ensures Spmv(Constraints, elements, n, sizeChecks).outcome == Done <==> Ordered(elements) && AllInBounds(elements, n)
  {
    ConstraintsSpmv(elements, n, sizeChecks);
    var k := |elements|;
    if Ordered(elements) && AllInBounds(elements, n) {
      forall j | 0 <= j < k
        ensures Admissible(elements, n, sizeChecks, j)
      {}
    }
    if Spmv(Constraints, elements, n, sizeChecks).outcome == Done {
      forall i | 0 <= i && i + 1 < |elements|
        ensures Before(elements[i], elements[i + 1])
      {
        assert Admissible(elements, n, sizeChecks, i);
      }
    }
  }

  /** With the size checks on, no nonzero is ever used out of bounds. */
  lemma SizeChecksGuard(elements: seq<Element>, n: nat)
    ensures !Spmv(Constraints, elements, n, true).outcome.OutOfBounds?
  {
    ConstraintsSpmv(elements, n, true);
    var k := |elements|;
    var j := FirstOutside(elements, n, k);
    if j < k {
      assert !Admissible(elements, n, true, j);
    }
  }

  /** On an ordered matrix CONSTRAINTS computes what the unprotected kernel computes. */
  lemma OrderedAsBaseline(elements: seq<Element>, n: nat, sizeChecks: bool)
    requires Ordered(elements) && (sizeChecks ==> AllInBounds(elements, n))
    ensures Spmv(Constraints, elements, n, sizeChecks) == Spmv(None, elements, n, false)
  {
    ConstraintsSpmv(elements, n, sizeChecks);
    Baseline(elements, n);
    var k := |elements|;
    if FirstRejected(elements, n, sizeChecks, k) < k {
      assert false;
    }
  }
}
