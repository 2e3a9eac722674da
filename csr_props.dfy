/**
 * What the CSR kernels promise, proved of the specification `Spmv`: every
 * protected kernel lets a freshly encoded colval through and, on a freshly
 * encoded matrix, computes what NONE computes on the plain one; SED and
 * CONSTRAINTS never write the matrix; a single flipped bit is corrected by
 * SEC7 (outside bit 88), SEC8 and SECDED, and stops SED at that nonzero;
 * two flipped bits of one nonzero stop SECDED.
 */
module CsrProps {
  import opened Bits
  import opened Modes
  import opened CsrEcc
  import opened CsrCorrect
  import opened CsrEncode
  import opened CsrSpmv
  import opened CsrBuild
  import opened CsrReference

  // Checks of one colval

  lemma CleanPassSed(mode: Mode, c: Colval)
    requires mode == Sed && Unreserved(c)
    ensures EccCheck(mode, Encode(mode, c)) == Pass(Encode(mode, c), false)
  {
    EncodeCases(mode, c);
    UnreservedIndex(c.col);
    SedClean(c);
  }

  lemma CleanPassSec7(mode: Mode, c: Colval)
    requires mode == Sec7 && Unreserved(c)
    ensures EccCheck(mode, Encode(mode, c)) == Pass(Encode(mode, c), false)
  {
    EncodeCases(mode, c);
    Sec7Clean(c);
  }

  lemma CleanPassSec8(mode: Mode, c: Colval)
    requires (mode == Sec8 || mode == Secded) && Unreserved(c)
    ensures EccCheck(mode, Encode(mode, c)) == Pass(Encode(mode, c), false)
  {
    EncodeCases(mode, c);
    Sec8Clean(c);
    Sec8Parity(c);
  }

  /** Every protected kernel lets a freshly encoded colval through untouched. */
  lemma CleanPass(mode: Mode, c: Colval)
    requires Protected(mode) && Unreserved(c)
    ensures EccCheck(mode, Encode(mode, c)) == Pass(Encode(mode, c), false)
  {
    if mode == Sed {
      CleanPassSed(mode, c);
    } else if mode == Sec7 {
      CleanPassSec7(mode, c);
    } else {
      CleanPassSec8(mode, c);
    }
  }

  /** The kernels that never correct pass a colval unchanged or stop at it. */
  lemma NoWrite(mode: Mode, c: Colval)
    requires !Correcting(mode)
    ensures EccCheck(mode, c).Fail? || EccCheck(mode, c) == Pass(c, false)
  {}

  /** SEC7 locates and undoes a single flip of a clean codeword outside bit 88. */
  lemma Sec7Fixes(c: Colval, bit: bv32)
    requires ComputeCol8(c) == 0 && bit < 96 && bit != 88
    ensures Sec7Check(FlipBit(c, bit)) == Pass(c, true)
  {
    SingleErrorCorrected(c, bit);
  }

  /** SEC7 cannot see a flip of bit 88: its check passes the damaged colval as it is and stores nothing. */
  lemma Sec7Blind(c: Colval)
    requires ComputeCol8(c) == 0
    ensures Sec7Check(FlipBit(c, 88)) == Pass(FlipBit(c, 88), false)
  {
    Flip88Syndrome(c);
  }

  /** Under odd parity the SEC8 check undoes any single flip of a clean codeword, bit 88 included. */
  lemma Sec8Fixes(c: Colval, bit: bv32, secded: bool)
    requires ComputeCol8(c) == 0 && OverallParity(c) == 0 && bit < 96
    ensures Sec8Check(FlipBit(c, bit), secded) == Pass(c, true)
  {
    ParityFlip(c, bit);
    if bit == 88 {
      Flip88Syndrome(c);
      FlipBitTwice(c, 88);
    } else {
      SingleErrorCorrected(c, bit);
    }
  }

  lemma FlipPassSec7(mode: Mode, c: Colval, bit: bv32)
    requires mode == Sec7 && Unreserved(c) && bit < 96 && bit != 88
    ensures EccCheck(mode, FlipBit(Encode(mode, c), bit)) == Pass(Encode(mode, c), true)
  {
    EncodeCases(mode, c);
    Sec7Clean(c);
    Sec7Fixes(EncodeSec7(c), bit);
  }

  lemma FlipPassSec8(mode: Mode, c: Colval, bit: bv32)
    requires (mode == Sec8 || mode == Secded) && Unreserved(c) && bit < 96
    ensures EccCheck(mode, FlipBit(Encode(mode, c), bit)) == Pass(Encode(mode, c), true)
  {
    EncodeCases(mode, c);
    Sec8Clean(c);
    Sec8Parity(c);
    Sec8Fixes(EncodeSec8(c), bit, mode == Secded);
  }

  /**
   * The correcting kernels restore an encoded colval with one flipped bit
   * and ask for it to be stored back (SEC7 cannot see a flip of bit 88).
   */
  lemma FlipPass(mode: Mode, c: Colval, bit: bv32)
    requires Correcting(mode) && Unreserved(c) && bit < 96 && (mode == Sec7 ==> bit != 88)
    ensures EccCheck(mode, FlipBit(Encode(mode, c), bit)) == Pass(Encode(mode, c), true)
  {
    if mode == Sec7 {
      FlipPassSec7(mode, c, bit);
    } else {
      FlipPassSec8(mode, c, bit);
    }
  }

  /** SED rejects an encoded colval with any one bit flipped. */
  lemma FlipFailSed(c: Colval, bit: bv32)
    requires Unreserved(c) && bit < 96
    ensures SedCheck(FlipBit(EncodeSed(c), bit)) == Fail(ParityError)
  {
    UnreservedIndex(c.col);
    SedClean(c);
    ParityFlip(EncodeSed(c), bit);
  }

  /** SECDED rejects an encoded colval with two different bits flipped. */
  lemma DoubleFailSecded(c: Colval, b1: bv32, b2: bv32)
    requires Unreserved(c) && b1 < 96 && b2 < 96 && b1 != b2
    ensures Sec8Check(FlipBit(FlipBit(EncodeSec8(c), b1), b2), true) == Fail(DoubleBitError)
  {
    Sec8Clean(c);
    Sec8Parity(c);
    DoubleErrorDetected(EncodeSec8(c), b1, b2);
  }

  // Runs that never write

  /** One event of a kernel that never corrects leaves `cols` and `values` alone. */
  lemma ApplyReadOnly(mode: Mode, s: CsrState, ev: Event)
    requires !Correcting(mode) && Shaped(s)
    ensures Apply(mode, s, ev).cols == s.cols && Apply(mode, s, ev).values == s.values
  {
    match ev
    case Visit(i, end) =>
      if i < |s.cols| && Protected(mode) {
        EccApply(mode, s, i, end);
        NoWrite(mode, Colval(s.values[i], s.cols[i]));
        ResumeReadOnly(s, i, EccCheck(mode, Colval(s.values[i], s.cols[i])));
      }
    case _ =>
  }

  /** A check that writes nothing back leaves `cols` and `values` alone. */
  lemma ResumeReadOnly(s: CsrState, i: nat, c: Check)
    requires Shaped(s) && i < |s.cols| && !(c.Pass? && c.write)
    ensures Resume(s, i, c).cols == s.cols && Resume(s, i, c).values == s.values
  {}

  /** A run of a kernel that never corrects leaves `cols` and `values` alone. */
  lemma {:induction false} ExecReadOnly(mode: Mode, s: CsrState, events: seq<Event>)
    requires !Correcting(mode) && Shaped(s)
    ensures Exec(mode, s, events).cols == s.cols && Exec(mode, s, events).values == s.values
    decreases |events|
  {
    if |events| > 0 {
      var front := events[..|events| - 1];
      ExecReadOnly(mode, s, front);
      ApplyReadOnly(mode, Exec(mode, s, front), events[|events| - 1]);
    }
  }

  /** NONE, CONSTRAINTS and SED never write the matrix. */
  lemma ReadOnly(mode: Mode, rows: seq<bv32>, cols: seq<bv32>, values: seq<bv64>, result: seq<seq<Term>>)
    requires !Correcting(mode) && |rows| == |result| + 1 && |values| == |cols|
    ensures Spmv(mode, rows, cols, values, result).cols == cols
    ensures Spmv(mode, rows, cols, values, result).values == values
  {
    ExecReadOnly(mode, Initial(cols, values, result), Schedule(rows, |result|));
  }

  // Transparency

  /** The state `p` with its column words encoded in `mode`. */
  function Encoded(mode: Mode, p: CsrState): (x: CsrState)
    requires Shaped(p)
    ensures Shaped(x) && x.values == p.values && |x.cols| == |p.cols|
  {
    p.(cols := EncodeCols(mode, p.cols, p.values))
  }

  /** The colval of nonzero `i` of the encoded state is the encoded colval. */
  lemma EncodedAt(mode: Mode, p: CsrState, i: nat)
    requires Shaped(p) && i < |p.cols|
    ensures Colval(Encoded(mode, p).values[i], Encoded(mode, p).cols[i]) == Encode(mode, Colval(p.values[i], p.cols[i]))
  {
    EncodedColval(mode, p.values[i], p.cols[i]);
  }

  /** The check of an encoded nonzero passes it, and its masked column is the plain column. */
  lemma CleanCheck(mode: Mode, p: CsrState, i: nat)
    requires Protected(mode) && Shaped(p) && AllUnreserved(p.cols) && i < |p.cols|
    ensures EccCheck(mode, Colval(p.values[i], Encoded(mode, p).cols[i])) == Pass(Colval(p.values[i], Encoded(mode, p).cols[i]), false)
    ensures Encoded(mode, p).cols[i] & 0x00FF_FFFF == p.cols[i]
  {
    var c := Colval(p.values[i], p.cols[i]);
    EncodedAt(mode, p, i);
    CleanPass(mode, c);
    EncodeIndex(mode, c);
  }

  /** A protected kernel visiting an encoded nonzero adds what NONE adds for the plain one. */
  lemma CleanVisit(mode: Mode, p: CsrState, i: nat)
    requires Protected(mode) && Shaped(p) && AllUnreserved(p.cols) && i < |p.cols|
    ensures VisitEcc(mode, Encoded(mode, p), i) == VisitPlain(p, i).(cols := Encoded(mode, p).cols)
  {
    CleanCheck(mode, p, i);
    ResumeWith(mode, Encoded(mode, p), i, Pass(Colval(p.values[i], Encoded(mode, p).cols[i]), false));
    AddTermCols(p, Encoded(mode, p).cols, i, p.values[i], p.cols[i]);
  }

  /** The sum step does not look at the column words. */
  lemma AddTermCols(s: CsrState, cols: seq<bv32>, i: nat, value: bv64, col: bv32)
    ensures AddTerm(s.(cols := cols), i, value, col) == AddTerm(s, i, value, col).(cols := cols)
  {}

  /** One event of a protected kernel on the encoded state is that event of NONE on the plain one. */
  lemma CleanApply(mode: Mode, p: CsrState, ev: Event)
    requires Protected(mode) && Shaped(p) && AllUnreserved(p.cols)
    ensures Apply(mode, Encoded(mode, p), ev) == Apply(None, p, ev).(cols := Encoded(mode, p).cols)
  {
    if ev.Visit? && ev.i < |p.cols| {
      CleanVisit(mode, p, ev.i);
      EccApply(mode, Encoded(mode, p), ev.i, ev.end);
      PlainApply(p, ev.i, ev.end);
    }
  }

  /** A run of a protected kernel on the encoded state follows the run of NONE on the plain one. */
  lemma {:induction false} CleanExec(mode: Mode, p: CsrState, events: seq<Event>)
    requires Protected(mode) && Shaped(p) && p.outcome == Done && AllUnreserved(p.cols)
    ensures Exec(mode, Encoded(mode, p), events) == Exec(None, p, events).(cols := Encoded(mode, p).cols)
    decreases |events|
  {
    if |events| > 0 {
      var front := events[..|events| - 1];
      CleanExec(mode, p, front);
      NoneExec(p, front);
      CleanNext(mode, p, Exec(None, p, front), events[|events| - 1]);
    }
  }

  /** A still running NONE state `t` over the matrix of `p`, and its encoded twin, take the next event alike. */
  lemma CleanNext(mode: Mode, p: CsrState, t: CsrState, ev: Event)
    requires Protected(mode) && Shaped(p) && AllUnreserved(p.cols)
    requires Shaped(t) && t.cols == p.cols && t.values == p.values
    ensures Encoded(mode, t).cols == Encoded(mode, p).cols
    ensures Apply(mode, Encoded(mode, t), ev) == Apply(None, t, ev).(cols := Encoded(mode, p).cols)
  {
    CleanApply(mode, t, ev);
  }

  /**
   * Transparency: on a freshly encoded matrix every protected kernel ends
   * as NONE ends on the plain matrix, with the same result vector, and
   * leaves the encoded matrix as it found it.
   */
  lemma Transparent(mode: Mode, rows: seq<bv32>, cols: seq<bv32>, values: seq<bv64>, result: seq<seq<Term>>)
    requires Protected(mode) && |rows| == |result| + 1 && |values| == |cols| && AllUnreserved(cols)
    ensures Spmv(mode, rows, EncodeCols(mode, cols, values), values, result) ==
            Spmv(None, rows, cols, values, result).(cols := EncodeCols(mode, cols, values))
  {
    var p := Initial(cols, values, result);
    assert Initial(EncodeCols(mode, cols, values), values, result) == Encoded(mode, p);
    CleanExec(mode, p, Schedule(rows, |result|));
  }

  // Damaged nonzeros

  /** The state `p` with its column words encoded in `mode`, and nonzero `j` replaced by the colval `d`. */
  function Damaged(mode: Mode, p: CsrState, j: nat, d: Colval): (x: CsrState)
    requires Shaped(p) && j < |p.cols|
    ensures Shaped(x) && |x.cols| == |p.cols|
  {
    p.(cols := EncodeCols(mode, p.cols, p.values)[j := d.col], values := p.values[j := d.value])
  }

  /** The sum step does not look at the matrix. */
  lemma AddTermMatrix(s: CsrState, cols: seq<bv32>, values: seq<bv64>, i: nat, value: bv64, col: bv32)
    ensures AddTerm(s.(cols := cols, values := values), i, value, col) == AddTerm(s, i, value, col).(cols := cols, values := values)
  {}

  /** In the damaged state every nonzero but `j` is checked, and added, as in the encoded state. */
  lemma DamagedOther(mode: Mode, p: CsrState, j: nat, d: Colval, i: nat)
    requires Protected(mode) && Shaped(p) && AllUnreserved(p.cols) && i < |p.cols| && j < |p.cols| && i != j
    ensures VisitEcc(mode, Damaged(mode, p, j, d), i) ==
            VisitPlain(p, i).(cols := Damaged(mode, p, j, d).cols, values := Damaged(mode, p, j, d).values)
  {
    var x := Damaged(mode, p, j, d);
    assert x.cols[i] == Encoded(mode, p).cols[i] && x.values[i] == p.values[i];
    CleanCheck(mode, p, i);
    ResumeWith(mode, x, i, Pass(Colval(p.values[i], Encoded(mode, p).cols[i]), false));
    AddTermMatrix(p, x.cols, x.values, i, p.values[i], p.cols[i]);
  }

  /** Storing the encoded colval back at `j` undoes the damage. */
  lemma Undamaged(mode: Mode, p: CsrState, j: nat, d: Colval)
    requires Shaped(p) && j < |p.cols|
    ensures Damaged(mode, p, j, d).cols[j := Encode(mode, Colval(p.values[j], p.cols[j])).col] == Encoded(mode, p).cols
    ensures Damaged(mode, p, j, d).values[j := Encode(mode, Colval(p.values[j], p.cols[j])).value] == p.values
  {
    EncodeWords(mode, Colval(p.values[j], p.cols[j]));
  }

  /** A check that restores the encoded colval at `j` stores it back, and `j` then adds what NONE adds. */
  lemma RepairVisit(mode: Mode, p: CsrState, j: nat, d: Colval)
    requires Protected(mode) && Shaped(p) && AllUnreserved(p.cols) && j < |p.cols|
    requires EccCheck(mode, d) == Pass(Encode(mode, Colval(p.values[j], p.cols[j])), true)
    ensures VisitEcc(mode, Damaged(mode, p, j, d), j) == VisitPlain(p, j).(cols := Encoded(mode, p).cols)
  {
    var x := Damaged(mode, p, j, d);
    var e := Encode(mode, Colval(p.values[j], p.cols[j]));
    assert Colval(x.values[j], x.cols[j]) == d;
    ResumeWith(mode, x, j, Pass(e, true));
    Undamaged(mode, p, j, d);
    EncodeWords(mode, Colval(p.values[j], p.cols[j]));
    EncodeIndex(mode, Colval(p.values[j], p.cols[j]));
    AddTermCols(p, Encoded(mode, p).cols, j, p.values[j], p.cols[j]);
  }

  /** A check that rejects the colval at `j` stops the run there. */
  lemma FailVisit(mode: Mode, p: CsrState, j: nat, d: Colval, f: Fault)
    requires Shaped(p) && j < |p.cols| && EccCheck(mode, d) == Fail(f)
    ensures VisitEcc(mode, Damaged(mode, p, j, d), j) == Damaged(mode, p, j, d).(outcome := Aborted(j, f))
  {
    var x := Damaged(mode, p, j, d);
    assert Colval(x.values[j], x.cols[j]) == d;
    ResumeWith(mode, x, j, Fail(f));
  }

  /** The visit of `j` on a damaged state whose damage the check repairs. */
  lemma RepairApplyAt(mode: Mode, p: CsrState, j: nat, d: Colval, end: nat)
    requires Protected(mode) && Shaped(p) && AllUnreserved(p.cols) && j < |p.cols|
    requires EccCheck(mode, d) == Pass(Encode(mode, Colval(p.values[j], p.cols[j])), true)
    ensures Apply(mode, Damaged(mode, p, j, d), Visit(j, end)) == Apply(None, p, Visit(j, end)).(cols := Encoded(mode, p).cols)
  {
    RepairVisit(mode, p, j, d);
    EccApply(mode, Damaged(mode, p, j, d), j, end);
    PlainApply(p, j, end);
  }

  /** The visit of a nonzero inside the arrays by a protected kernel. */
  lemma EccApply(mode: Mode, s: CsrState, i: nat, end: nat)
    requires Protected(mode) && Shaped(s) && i < |s.cols|
    ensures Apply(mode, s, Visit(i, end)) == VisitEcc(mode, s, i)
  {}

  /** The visit of a nonzero inside the arrays by NONE. */
  lemma PlainApply(s: CsrState, i: nat, end: nat)
    requires Shaped(s) && i < |s.cols|
    ensures Apply(None, s, Visit(i, end)) == VisitPlain(s, i)
  {}

  /** Any event but the visit of `j` on a damaged state: as NONE, over the damaged matrix. */
  lemma DamagedApplyOff(mode: Mode, p: CsrState, j: nat, d: Colval, ev: Event)
    requires Protected(mode) && Shaped(p) && AllUnreserved(p.cols) && j < |p.cols| && !(ev.Visit? && ev.i == j)
    ensures Apply(mode, Damaged(mode, p, j, d), ev) ==
            Apply(None, p, ev).(cols := Damaged(mode, p, j, d).cols, values := Damaged(mode, p, j, d).values)
  {
    if ev.Visit? && ev.i < |p.cols| {
      DamagedOther(mode, p, j, d, ev.i);
      EccApply(mode, Damaged(mode, p, j, d), ev.i, ev.end);
      PlainApply(p, ev.i, ev.end);
    }
  }

  /** The visit of `j` on a damaged state whose damage the check rejects. */
  lemma FailApplyAt(mode: Mode, p: CsrState, j: nat, d: Colval, f: Fault, end: nat)
    requires Protected(mode) && Shaped(p) && j < |p.cols| && EccCheck(mode, d) == Fail(f)
    ensures Apply(mode, Damaged(mode, p, j, d), Visit(j, end)) == Damaged(mode, p, j, d).(outcome := Aborted(j, f))
  {
    FailVisit(mode, p, j, d, f);
    EccApply(mode, Damaged(mode, p, j, d), j, end);
  }

  /** One event on a damaged state whose damage the check repairs. */
  lemma RepairApply(mode: Mode, p: CsrState, j: nat, d: Colval, ev: Event)
    requires Protected(mode) && Shaped(p) && AllUnreserved(p.cols) && j < |p.cols|
    requires EccCheck(mode, d) == Pass(Encode(mode, Colval(p.values[j], p.cols[j])), true)
    ensures Apply(mode, Damaged(mode, p, j, d), ev) ==
            if ev.Visit? && ev.i == j then Apply(None, p, ev).(cols := Encoded(mode, p).cols)
            else Apply(None, p, ev).(cols := Damaged(mode, p, j, d).cols, values := Damaged(mode, p, j, d).values)
  {
    if ev.Visit? && ev.i == j {
      RepairApplyAt(mode, p, j, d, ev.end);
    } else {
      DamagedApplyOff(mode, p, j, d, ev);
    }
  }

  /** One event on a damaged state whose damage the check rejects. */
  lemma FailApply(mode: Mode, p: CsrState, j: nat, d: Colval, f: Fault, ev: Event)
    requires Protected(mode) && Shaped(p) && AllUnreserved(p.cols) && j < |p.cols| && EccCheck(mode, d) == Fail(f)
    ensures Apply(mode, Damaged(mode, p, j, d), ev) ==
            if ev.Visit? && ev.i == j then Damaged(mode, p, j, d).(outcome := Aborted(j, f))
            else Apply(None, p, ev).(cols := Damaged(mode, p, j, d).cols, values := Damaged(mode, p, j, d).values)
  {
    if ev.Visit? && ev.i == j {
      FailApplyAt(mode, p, j, d, f, ev.end);
    } else {
      DamagedApplyOff(mode, p, j, d, ev);
    }
  }

  /** A still running NONE state `t` over the matrix of `p`, damaged at `j`, takes the next event. */
  lemma RepairNext(mode: Mode, p: CsrState, t: CsrState, j: nat, d: Colval, ev: Event)
    requires Protected(mode) && Shaped(p) && AllUnreserved(p.cols) && j < |p.cols|
    requires EccCheck(mode, d) == Pass(Encode(mode, Colval(p.values[j], p.cols[j])), true)
    requires Shaped(t) && t.cols == p.cols && t.values == p.values
    ensures Damaged(mode, t, j, d) == t.(cols := Damaged(mode, p, j, d).cols, values := Damaged(mode, p, j, d).values)
    ensures Apply(mode, Damaged(mode, t, j, d), ev) ==
            if ev.Visit? && ev.i == j then Apply(None, t, ev).(cols := Encoded(mode, p).cols)
            else Apply(None, t, ev).(cols := Damaged(mode, p, j, d).cols, values := Damaged(mode, p, j, d).values)
  {
    RepairApply(mode, t, j, d, ev);
  }

  lemma FailNext(mode: Mode, p: CsrState, t: CsrState, j: nat, d: Colval, f: Fault, ev: Event)
    requires Protected(mode) && Shaped(p) && AllUnreserved(p.cols) && j < |p.cols| && EccCheck(mode, d) == Fail(f)
    requires Shaped(t) && t.cols == p.cols && t.values == p.values
    ensures Damaged(mode, t, j, d) == t.(cols := Damaged(mode, p, j, d).cols, values := Damaged(mode, p, j, d).values)
    ensures Apply(mode, Damaged(mode, t, j, d), ev) ==
            if ev.Visit? && ev.i == j then Damaged(mode, t, j, d).(outcome := Aborted(j, f))
            else Apply(None, t, ev).(cols := Damaged(mode, p, j, d).cols, values := Damaged(mode, p, j, d).values)
  {
    FailApply(mode, t, j, d, f, ev);
  }

  /**
   * A run over a matrix damaged at `j`, whose damage the check repairs,
   * follows NONE on the plain matrix: the matrix is the repaired one once
   * `j` has been visited, the damaged one before.
   */
  lemma {:induction false} RepairExec(mode: Mode, p: CsrState, j: nat, d: Colval, events: seq<Event>)
    requires Protected(mode) && Shaped(p) && p.outcome == Done && AllUnreserved(p.cols) && j < |p.cols|
    requires EccCheck(mode, d) == Pass(Encode(mode, Colval(p.values[j], p.cols[j])), true)
    ensures Exec(mode, Damaged(mode, p, j, d), events) == Exec(None, p, events).(cols := Encoded(mode, p).cols) ||
            Exec(mode, Damaged(mode, p, j, d), events) ==
              Exec(None, p, events).(cols := Damaged(mode, p, j, d).cols, values := Damaged(mode, p, j, d).values)
    decreases |events|
  {
    if |events| > 0 {
      var front := events[..|events| - 1];
      var ev := events[|events| - 1];
      RepairExec(mode, p, j, d, front);
      NoneExec(p, front);
      var t := Exec(None, p, front);
      if Exec(mode, Damaged(mode, p, j, d), front) == t.(cols := Encoded(mode, p).cols) {
        CleanNext(mode, p, t, ev);
      } else {
        RepairNext(mode, p, t, j, d, ev);
      }
    }
  }

  /**
   * A run over a matrix damaged at `j`, whose damage the check rejects,
   * follows NONE on the plain matrix over the damaged one until it stops at `j`.
   */
  lemma {:induction false} FailExec(mode: Mode, p: CsrState, j: nat, d: Colval, f: Fault, events: seq<Event>)
    requires Protected(mode) && Shaped(p) && p.outcome == Done && AllUnreserved(p.cols) && j < |p.cols|
    requires EccCheck(mode, d) == Fail(f)
    ensures Exec(mode, Damaged(mode, p, j, d), events).outcome == Aborted(j, f) ||
            Exec(mode, Damaged(mode, p, j, d), events) ==
              Exec(None, p, events).(cols := Damaged(mode, p, j, d).cols, values := Damaged(mode, p, j, d).values)
    decreases |events|
  {
    if |events| > 0 {
      var front := events[..|events| - 1];
      var ev := events[|events| - 1];
      FailExec(mode, p, j, d, f, front);
      NoneExec(p, front);
      var t := Exec(None, p, front);
      if Exec(mode, Damaged(mode, p, j, d), front).outcome != Aborted(j, f) {
        FailNext(mode, p, t, j, d, f, ev);
      }
    }
  }

  /**
   * A run over a matrix damaged at `j`, whose damage the check rejects,
   * stops at `j` when its events visit `j` and NONE runs them to the end.
   */
  lemma {:induction false} FailVisited(mode: Mode, p: CsrState, j: nat, d: Colval, f: Fault, events: seq<Event>, end: nat)
    requires Protected(mode) && Shaped(p) && p.outcome == Done && AllUnreserved(p.cols) && j < |p.cols|
    requires EccCheck(mode, d) == Fail(f)
    ensures Visit(j, end) in events && Exec(None, p, events).outcome == Done ==>
            Exec(mode, Damaged(mode, p, j, d), events).outcome == Aborted(j, f)
    decreases |events|
  {
    if |events| > 0 && Visit(j, end) in events && Exec(None, p, events).outcome == Done {
      var front := events[..|events| - 1];
      var ev := events[|events| - 1];
      assert events == front + [ev];
      ExecSnoc(None, p, front, ev);
      ExecSnoc(mode, Damaged(mode, p, j, d), front, ev);
      FailVisited(mode, p, j, d, f, front, end);
      if Visit(j, end) !in front {
        FailExec(mode, p, j, d, f, front);
        if Exec(mode, Damaged(mode, p, j, d), front).outcome != Aborted(j, f) {
          NoneExec(p, front);
          FailNext(mode, p, Exec(None, p, front), j, d, f, ev);
        }
      }
    }
  }

  /** A nonzero inside the pointers of row `r` is visited by that row. */
  lemma RowVisit(rows: seq<bv32>, r: nat, j: nat)
    requires r + 1 < |rows| && RowStart(rows, r) <= j < RowEnd(rows, r)
    ensures Visit(j, RowEnd(rows, r)) in RowEvents(rows, r)
  {
    var visits := Visits(RowStart(rows, r), RowEnd(rows, r), RowEnd(rows, r));
    assert visits[j - RowStart(rows, r)] == Visit(j, RowEnd(rows, r));
    assert RowEvents(rows, r)[1 + (j - RowStart(rows, r))] == visits[j - RowStart(rows, r)];
  }

  /** A nonzero inside the pointers of row `r` is visited by the schedule of every later row count. */
  lemma ScheduleVisit(rows: seq<bv32>, n: nat, r: nat, j: nat)
    requires n < |rows| && r < n && RowStart(rows, r) <= j < RowEnd(rows, r)
    ensures Visit(j, RowEnd(rows, r)) in Schedule(rows, n)
  {
    var rest := ScheduleGrows(rows, r + 1, n);
    RowVisit(rows, r, j);
    InSuffix(Schedule(rows, r), RowEvents(rows, r), Visit(j, RowEnd(rows, r)));
    InPrefix(Schedule(rows, r + 1), rest, Visit(j, RowEnd(rows, r)));
  }

  lemma InPrefix(a: seq<Event>, b: seq<Event>, ev: Event)
    requires ev in a
    ensures ev in a + b
  {}

  lemma InSuffix(a: seq<Event>, b: seq<Event>, ev: Event)
    requires ev in b
    ensures ev in a + b
  {}

  /** The start of a run over a damaged matrix. */
  lemma DamagedInitial(mode: Mode, cols: seq<bv32>, values: seq<bv64>, result: seq<seq<Term>>, j: nat, d: Colval)
    requires |values| == |cols| && j < |cols|
    ensures Initial(EncodeCols(mode, cols, values)[j := d.col], values[j := d.value], result) ==
            Damaged(mode, Initial(cols, values, result), j, d)
  {}

  /**
   * Single-error correction of the whole kernel: on a freshly encoded matrix
   * with one bit of nonzero `j` flipped, SEC7 (outside bit 88), SEC8 and
   * SECDED end as NONE ends on the plain matrix, with the same result
   * vector; the matrix is the repaired one, or, when no row visits `j`, it
   * keeps the flip.
   */
  lemma FlipCorrected(mode: Mode, rows: seq<bv32>, cols: seq<bv32>, values: seq<bv64>, result: seq<seq<Term>>,
                      j: nat, bit: bv32)
    requires Correcting(mode) && |rows| == |result| + 1 && |values| == |cols| && AllUnreserved(cols)
    requires j < |cols| && bit < 96 && (mode == Sec7 ==> bit != 88)
    ensures Spmv(mode, rows, EncodeCols(mode, cols, values)[j := FlipBit(Encode(mode, Colval(values[j], cols[j])), bit).col],
                 values[j := FlipBit(Encode(mode, Colval(values[j], cols[j])), bit).value], result)
            in {Spmv(None, rows, cols, values, result).(cols := EncodeCols(mode, cols, values)),
                Spmv(None, rows, cols, values, result).(
                  cols := EncodeCols(mode, cols, values)[j := FlipBit(Encode(mode, Colval(values[j], cols[j])), bit).col],
                  values := values[j := FlipBit(Encode(mode, Colval(values[j], cols[j])), bit).value])}
  {
    var d := FlipBit(Encode(mode, Colval(values[j], cols[j])), bit);
    var p := Initial(cols, values, result);
    FlipPass(mode, Colval(values[j], cols[j]), bit);
    DamagedInitial(mode, cols, values, result, j, d);
    RepairExec(mode, p, j, d, Schedule(rows, |result|));
  }

  /**
   * SED detects a single flip: on a freshly encoded matrix with one bit of
   * nonzero `j` flipped, the run stops at `j` with a parity error or ends in
   * NONE's state on the plain matrix, the flip kept in place; when a row
   * reads `j` and NONE runs to the end, it stops at `j`.
   */
  lemma FlipDetected(mode: Mode, rows: seq<bv32>, cols: seq<bv32>, values: seq<bv64>, result: seq<seq<Term>>,
                     j: nat, bit: bv32)
    requires mode == Sed && |rows| == |result| + 1 && |values| == |cols| && AllUnreserved(cols)
    requires j < |cols| && bit < 96
    ensures Spmv(mode, rows, EncodeCols(mode, cols, values)[j := FlipBit(Encode(mode, Colval(values[j], cols[j])), bit).col],
                 values[j := FlipBit(Encode(mode, Colval(values[j], cols[j])), bit).value], result).outcome
              == Aborted(j, ParityError) ||
            Spmv(mode, rows, EncodeCols(mode, cols, values)[j := FlipBit(Encode(mode, Colval(values[j], cols[j])), bit).col],
                 values[j := FlipBit(Encode(mode, Colval(values[j], cols[j])), bit).value], result)
              == Spmv(None, rows, cols, values, result).(
                   cols := EncodeCols(mode, cols, values)[j := FlipBit(Encode(mode, Colval(values[j], cols[j])), bit).col],
                   values := values[j := FlipBit(Encode(mode, Colval(values[j], cols[j])), bit).value])
    ensures (exists r: nat :: r < |result| && rows[r] as int <= j < rows[r + 1] as int) &&
            Spmv(None, rows, cols, values, result).outcome == Done ==>
            Spmv(mode, rows, EncodeCols(mode, cols, values)[j := FlipBit(Encode(mode, Colval(values[j], cols[j])), bit).col],
                 values[j := FlipBit(Encode(mode, Colval(values[j], cols[j])), bit).value], result).outcome
              == Aborted(j, ParityError)
  {
    var d := FlipBit(Encode(mode, Colval(values[j], cols[j])), bit);
    var p := Initial(cols, values, result);
    EncodeCases(mode, Colval(values[j], cols[j]));
    FlipFailSed(Colval(values[j], cols[j]), bit);
    DamagedInitial(mode, cols, values, result, j, d);
    FailExec(mode, p, j, d, ParityError, Schedule(rows, |result|));
    if exists r: nat :: r < |result| && rows[r] as int <= j < rows[r + 1] as int {
      var r: nat :| r < |result| && rows[r] as int <= j < rows[r + 1] as int;
      ScheduleVisit(rows, |result|, r, j);
      FailVisited(mode, p, j, d, ParityError, Schedule(rows, |result|), RowEnd(rows, r));
    }
  }

  /**
   * SECDED detects a double flip: on a freshly encoded matrix with two
   * different bits of nonzero `j` flipped, the run stops at `j` with a
   * double-bit error or ends in NONE's state on the plain matrix, the flips
   * kept in place; when a row reads `j` and NONE runs to the end, it stops
   * at `j`.
   */
  lemma DoubleFlipDetected(mode: Mode, rows: seq<bv32>, cols: seq<bv32>, values: seq<bv64>, result: seq<seq<Term>>,
                           j: nat, b1: bv32, b2: bv32)
    requires mode == Secded && |rows| == |result| + 1 && |values| == |cols| && AllUnreserved(cols)
    requires j < |cols| && b1 < 96 && b2 < 96 && b1 != b2
    ensures Spmv(mode, rows,
                 EncodeCols(mode, cols, values)[j := FlipBit(FlipBit(Encode(mode, Colval(values[j], cols[j])), b1), b2).col],
                 values[j := FlipBit(FlipBit(Encode(mode, Colval(values[j], cols[j])), b1), b2).value], result).outcome
              == Aborted(j, DoubleBitError) ||
            Spmv(mode, rows,
                 EncodeCols(mode, cols, values)[j := FlipBit(FlipBit(Encode(mode, Colval(values[j], cols[j])), b1), b2).col],
                 values[j := FlipBit(FlipBit(Encode(mode, Colval(values[j], cols[j])), b1), b2).value], result)
              == Spmv(None, rows, cols, values, result).(
                   cols := EncodeCols(mode, cols, values)[j := FlipBit(FlipBit(Encode(mode, Colval(values[j], cols[j])), b1), b2).col],
                   values := values[j := FlipBit(FlipBit(Encode(mode, Colval(values[j], cols[j])), b1), b2).value])
    ensures (exists r: nat :: r < |result| && rows[r] as int <= j < rows[r + 1] as int) &&
            Spmv(None, rows, cols, values, result).outcome == Done ==>
            Spmv(mode, rows,
                 EncodeCols(mode, cols, values)[j := FlipBit(FlipBit(Encode(mode, Colval(values[j], cols[j])), b1), b2).col],
                 values[j := FlipBit(FlipBit(Encode(mode, Colval(values[j], cols[j])), b1), b2).value], result).outcome
              == Aborted(j, DoubleBitError)
  {
    var d := FlipBit(FlipBit(Encode(mode, Colval(values[j], cols[j])), b1), b2);
    var p := Initial(cols, values, result);
    EncodeCases(mode, Colval(values[j], cols[j]));
    DoubleFailSecded(Colval(values[j], cols[j]), b1, b2);
    DamagedInitial(mode, cols, values, result, j, d);
    FailExec(mode, p, j, d, DoubleBitError, Schedule(rows, |result|));
    if exists r: nat :: r < |result| && rows[r] as int <= j < rows[r + 1] as int {
      var r: nat :| r < |result| && rows[r] as int <= j < rows[r + 1] as int;
      ScheduleVisit(rows, |result|, r, j);
      FailVisited(mode, p, j, d, DoubleBitError, Schedule(rows, |result|), RowEnd(rows, r));
    }
  }
}
