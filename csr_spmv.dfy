/**
 * The CSR SpMV kernels (CSR/spmv-c.c, the `spmv` methods of the classes in
 * CSR/CPUContext.cpp and the per-mode files under CSR/c): for every row a
 * fresh sum `tmp` over the nonzeros `rows[row] .. rows[row+1]-1`, each
 * checked as the mode prescribes, then `result[row] = tmp`.
 *
 * The specification flattens the two nested loops into one list of events
 * that the row pointers alone fix: the start of a row, the visit of one
 * nonzero, the store of a row's sum. `Exec` runs a list of events and
 * `Spmv` runs the whole schedule; `Multiply` works on arrays and is proved
 * to end in `Spmv`.
 */
module CsrSpmv {
  import opened Bits
  import opened Syndrome
  import opened Modes
  import opened CsrEcc

  /**
   * What the check of one colval decides: carry on with `fixed`, storing it
   * back when `write`; abort; or toggle a bit past the end of the packed
   * 12-byte colval, which the C code does without a guard.
   */
  datatype Check = Pass(fixed: Colval, write: bool) | Fail(fault: Fault) | Overrun

  /**
   * The codeword bit `ecc_get_flipped_bit_col8` names for a non-zero
   * syndrome; Hamming positions 96..127 name bits 88..119, some of them past
   * the colval.
   */
  function Located(c: Colval): bv32
    requires ComputeCol8(c) != 0
  {
    Col8Low(c);
    HammBitRange(ComputeCol8(c));
    DataBit(HammBit(ComputeCol8(c)))
  }

  /** `flip_bit(&colval, bit)` at the located bit. */
  function Relocate(c: Colval): Check
    requires ComputeCol8(c) != 0
  {
    if Located(c) < 96 then Pass(FlipBit(c, Located(c)), true) else Overrun
  }

  /** SED: odd overall parity is an error. */
  function SedCheck(c: Colval): Check
  {
    if OverallParity(c) != 0 then Fail(ParityError) else Pass(c, false)
  }

  /** SEC7: a non-zero syndrome is corrected, whatever the parity. */
  function Sec7Check(c: Colval): Check
  {
    if ComputeCol8(c) != 0 then Relocate(c) else Pass(c, false)
  }

  /**
   * SEC8 and SECDED: odd parity is corrected, at the located bit or, for a
   * zero syndrome, at the overall parity bit 88 (column bit 24); SECDED
   * further rejects even parity with a non-zero syndrome.
   */
  function Sec8Check(c: Colval, secded: bool): Check
  {
    if OverallParity(c) != 0 then
      (if ComputeCol8(c) == 0 then Pass(FlipBit(c, 88), true) else Relocate(c))
    else if secded && ComputeCol8(c) != 0 then Fail(DoubleBitError)
    else Pass(c, false)
  }

  /** The check of the ECC kernel of `mode`; the other modes check no colval. */
  function EccCheck(mode: Mode, c: Colval): Check
  {
    match mode
    case Sed => SedCheck(c)
    case Sec7 => Sec7Check(c)
    case Sec8 => Sec8Check(c, false)
    case Secded => Sec8Check(c, true)
    case _ => Pass(c, false)
  }

  /**
   * The steps of a run: the start of row `row`, whose pointers are `start`
   * and `end`; the visit of nonzero `i` of a row ending at `end`; the store
   * of the sum of row `row`.
   */
  datatype Event = Begin(row: nat, start: nat, end: nat) | Visit(i: nat, end: nat) | Store(row: nat)

  /**
   * The state of a run: how it ended so far, the matrix's `cols` and
   * `values`, the running sum `tmp` and the result vector, whose length is
   * the order N of the matrix.
   */
  datatype CsrState = CsrState(outcome: Outcome, cols: seq<bv32>, values: seq<bv64>, tmp: seq<Term>, result: seq<seq<Term>>)

  /** `cols` and `values` both have one entry per nonzero. */
  predicate Shaped(s: CsrState)
  {
    |s.values| == |s.cols|
  }

  /**
   * The start of a row: `tmp = 0.0`; CONSTRAINTS first rejects an end
   * pointer past nnz and an end pointer before the start pointer.
   */
  function BeginRow(mode: Mode, s: CsrState, row: nat, start: nat, end: nat): CsrState
  {
    if mode == Constraints && end > |s.cols| then s.(outcome := Aborted(row, RowSize))
    else if mode == Constraints && end < start then s.(outcome := Aborted(row, RowOrder))
    else s.(tmp := [])
  }

  /** `tmp += value * vector[col]`, unless `col` is past the vector. */
  function AddTerm(s: CsrState, i: nat, value: bv64, col: bv32): CsrState
  {
    if col as int < |s.result| then s.(tmp := s.tmp + [Term(value, col)]) else s.(outcome := OutOfBounds(i))
  }

  /** NONE: `cols[i]` and `values[i]` are used as stored. */
  function VisitPlain(s: CsrState, i: nat): CsrState
    requires Shaped(s) && i < |s.cols|
  {
    AddTerm(s, i, s.values[i], s.cols[i])
  }

  /**
   * CONSTRAINTS: the column must be inside the matrix and, unless `i` is the
   * last nonzero of its row, below the next column.
   */
  function VisitConstraints(s: CsrState, i: nat, end: nat): CsrState
    requires Shaped(s) && i < |s.cols|
  {
    if s.cols[i] as int >= |s.result| then s.(outcome := Aborted(i, ColumnSize))
    else if i + 1 < end && i + 1 >= |s.cols| then s.(outcome := OutOfBounds(i + 1))
    else if i + 1 < end && s.cols[i + 1] as int <= s.cols[i] as int then s.(outcome := Aborted(i, ColumnOrder))
    else AddTerm(s, i, s.values[i], s.cols[i])
  }

  /**
   * The ECC kernels: check the colval of nonzero `i`, store a corrected one
   * back into both `cols[i]` and `values[i]`, and use its column with the
   * check bits 24..31 masked off.
   */
  function VisitEcc(mode: Mode, s: CsrState, i: nat): CsrState
    requires Shaped(s) && i < |s.cols|
  {
    Resume(s, i, EccCheck(mode, Colval(s.values[i], s.cols[i])))
  }

  /** What the visit of nonzero `i` does once its colval check has decided `c`. */
  function Resume(s: CsrState, i: nat, c: Check): CsrState
    requires Shaped(s) && i < |s.cols|
  {
    match c
    case Fail(f) => s.(outcome := Aborted(i, f))
    case Overrun => s.(outcome := OutOfBounds(i))
    case Pass(fixed, write) =>
      AddTerm(if write then s.(cols := s.cols[i := fixed.col], values := s.values[i := fixed.value]) else s,
              i, fixed.value, fixed.col & 0x00FF_FFFF)
  }

  lemma ResumeWith(mode: Mode, s: CsrState, i: nat, c: Check)
    requires Shaped(s) && i < |s.cols| && c == EccCheck(mode, Colval(s.values[i], s.cols[i]))
    ensures VisitEcc(mode, s, i) == Resume(s, i, c)
  {}

  /** One event of the kernel of `mode`; a nonzero past nnz is read outside `cols` and `values`. */
  function Apply(mode: Mode, s: CsrState, ev: Event): (r: CsrState)
    requires Shaped(s)
    ensures Shaped(r) && |r.cols| == |s.cols| && |r.result| == |s.result|
  {
    match ev
    case Begin(row, start, end) => BeginRow(mode, s, row, start, end)
    case Visit(i, end) =>
      if i >= |s.cols| then s.(outcome := OutOfBounds(i))
      else if mode == None then VisitPlain(s, i)
      else if mode == Constraints then VisitConstraints(s, i, end)
      else VisitEcc(mode, s, i)
    case Store(row) => if row < |s.result| then s.(result := s.result[row := s.tmp]) else s
  }

  /** The events `events` run from `s`, the run stopping at the first event that does not end `Done`. */
  function Exec(mode: Mode, s: CsrState, events: seq<Event>): (r: CsrState)
    requires Shaped(s)
    ensures Shaped(r) && |r.cols| == |s.cols| && |r.result| == |s.result|
    decreases |events|
  {
    if |events| == 0 then s
    else if Exec(mode, s, events[..|events| - 1]).outcome != Done then Exec(mode, s, events[..|events| - 1])
    else Apply(mode, Exec(mode, s, events[..|events| - 1]), events[|events| - 1])
  }

  /** The visits of nonzeros `from .. to-1` of a row ending at `end`. */
  function Visits(from: nat, to: nat, end: nat): (r: seq<Event>)
    ensures |r| == if from < to then to - from else 0
    ensures forall k :: 0 <= k < |r| ==> r[k] == Visit(from + k, end)
  {
    seq(if from < to then to - from else 0, k requires 0 <= k => Visit(from + k, end))
  }

  /** The pointers of row `row`. */
  function RowStart(rows: seq<bv32>, row: nat): nat
    requires row + 1 < |rows|
  {
    rows[row] as nat
  }

  function RowEnd(rows: seq<bv32>, row: nat): nat
    requires row + 1 < |rows|
  {
    rows[row + 1] as nat
  }

  /** One iteration of the row loop: start the row, visit `[start, end)`, store the sum. */
  function RowEvents(rows: seq<bv32>, row: nat): seq<Event>
    requires row + 1 < |rows|
  {
    [Begin(row, RowStart(rows, row), RowEnd(rows, row))]
      + Visits(RowStart(rows, row), RowEnd(rows, row), RowEnd(rows, row))
      + [Store(row)]
  }

  /** The events of rows `0 .. r-1`. */
  function Schedule(rows: seq<bv32>, r: nat): seq<Event>
    requires r < |rows|
  {
    if r == 0 then [] else Schedule(rows, r - 1) + RowEvents(rows, r - 1)
  }

  /** The state `spmv` starts in: the matrix and the result vector as given, and no sum. */
  function Initial(cols: seq<bv32>, values: seq<bv64>, result: seq<seq<Term>>): CsrState
  {
    CsrState(Done, cols, values, [], result)
  }

  /** `spmv` on a matrix of order |result| with row pointers `rows`, stored in `mode`. */
  function Spmv(mode: Mode, rows: seq<bv32>, cols: seq<bv32>, values: seq<bv64>, result: seq<seq<Term>>): CsrState
    requires |rows| == |result| + 1 && |values| == |cols|
  {
    Exec(mode, Initial(cols, values, result), Schedule(rows, |result|))
  }

  /** A run that has stopped stays in the state it stopped in. */
  lemma {:induction false} ExecStopped(mode: Mode, s: CsrState, events: seq<Event>)
    requires Shaped(s) && s.outcome != Done
    ensures Exec(mode, s, events) == s
    decreases |events|
  {
    if |events| > 0 {
      ExecStopped(mode, s, events[..|events| - 1]);
    }
  }

  /** Running one more event. */
  lemma ExecSnoc(mode: Mode, s: CsrState, events: seq<Event>, ev: Event)
    requires Shaped(s)
    ensures Exec(mode, s, events + [ev])
            == if Exec(mode, s, events).outcome != Done then Exec(mode, s, events)
               else Apply(mode, Exec(mode, s, events), ev)
  {
    assert (events + [ev])[..|events|] == events;
  }

  /** Running two lists of events one after the other is running their concatenation. */
  lemma {:induction false} ExecAppend(mode: Mode, s: CsrState, a: seq<Event>, b: seq<Event>)
    requires Shaped(s)
    ensures Exec(mode, s, a + b) == Exec(mode, Exec(mode, s, a), b)
    decreases |b|
  {
    if |b| == 0 {
      assert a + b == a;
    } else {
      var b' := b[..|b| - 1];
      assert a + b == (a + b') + [b[|b| - 1]];
      ExecSnoc(mode, s, a + b', b[|b| - 1]);
      ExecAppend(mode, s, a, b');
      if Exec(mode, s, a).outcome != Done {
        ExecStopped(mode, Exec(mode, s, a), b);
        ExecStopped(mode, Exec(mode, s, a), b');
      }
    }
  }

  /** Once a run has stopped, the events after it change nothing. */
  lemma StoppedPrefix(mode: Mode, s: CsrState, a: seq<Event>, b: seq<Event>)
    requires Shaped(s) && Exec(mode, s, a).outcome != Done
    ensures Exec(mode, s, a + b) == Exec(mode, s, a)
  {
    ExecAppend(mode, s, a, b);
    ExecStopped(mode, Exec(mode, s, a), b);
  }

  /** The schedule of the first r rows leads the schedule of the first r' rows. */
  lemma {:induction false} ScheduleGrows(rows: seq<bv32>, r: nat, r': nat) returns (rest: seq<Event>)
    requires r <= r' < |rows|
    ensures Schedule(rows, r') == Schedule(rows, r) + rest
    decreases r' - r
  {
    if r == r' {
      rest := [];
    } else {
      var rest' := ScheduleGrows(rows, r, r' - 1);
      rest := rest' + RowEvents(rows, r' - 1);
    }
  }

  /** The run of the whole schedule ends where a run of a leading part of it stopped. */
  lemma SpmvStopped(mode: Mode, rows: seq<bv32>, s: CsrState, r: nat, n: nat)
    requires Shaped(s) && r <= n && |rows| == n + 1
    requires Exec(mode, s, Schedule(rows, r)).outcome != Done
    ensures Exec(mode, s, Schedule(rows, n)) == Exec(mode, s, Schedule(rows, r))
  {
    var rest := ScheduleGrows(rows, r, n);
    StoppedPrefix(mode, s, Schedule(rows, r), rest);
  }

  /** SED: abort on odd overall parity. */
  method CheckSed(c: Colval) returns (r: Check)
    ensures r == SedCheck(c)
  {
    if OverallParity(c) != 0 {
      return Fail(ParityError);
    }
    r := Pass(c, false);
  }

  /** Unflip the bit a non-zero syndrome names: `ecc_get_flipped_bit_col8`, then `flip_bit`. */
  method Unflip(c: Colval) returns (r: Check)
    requires ComputeCol8(c) != 0
    ensures r == Relocate(c)
  {
    Col8Low(c);
    var bit := GetFlippedBit(ComputeCol8(c));
    assert bit == Located(c);
    if bit >= 96 {
      return Overrun;
    }
    r := Pass(FlipBit(c, bit), true);
  }

  /** SEC7: unflip the located bit whenever the syndrome is non-zero. */
  method CheckSec7(c: Colval) returns (r: Check)
    ensures r == Sec7Check(c)
  {
    if ComputeCol8(c) != 0 {
      r := Unflip(c);
      return;
    }
    r := Pass(c, false);
  }

  /** `colval.column ^= 0x1 << 24`: the overall parity bit 88 toggled. */
  method ToggleParity(c: Colval) returns (r: Colval)
    ensures r == FlipBit(c, 88)
  {
    r := Colval(c.value, c.col ^ (1 << 24));
  }

  /**
   * SEC8 and SECDED: correct under odd parity; SECDED also aborts on even
   * parity with a non-zero syndrome.
   */
  method CheckSec8(c: Colval, secded: bool) returns (r: Check)
    ensures r == Sec8Check(c, secded)
  {
    if OverallParity(c) != 0 {
      if ComputeCol8(c) != 0 {
        r := Unflip(c);
      } else {
        var fixed := ToggleParity(c);
        r := Pass(fixed, true);
      }
      return;
    }
    if secded && ComputeCol8(c) != 0 {
      return Fail(DoubleBitError);
    }
    r := Pass(c, false);
  }

  /** The colval check of the kernel of `mode`. */
  method CheckColval(mode: Mode, c: Colval) returns (r: Check)
    ensures r == EccCheck(mode, c)
  {
    match mode
    case Sed => r := CheckSed(c);
    case Sec7 => r := CheckSec7(c);
    case Sec8 => r := CheckSec8(c, false);
    case Secded => r := CheckSec8(c, true);
    case _ => r := Pass(c, false);
  }

  /** The inner loop body of NONE: `tmp += values[i] * vector[cols[i]]`. */
  method VisitPlainNonzero(cols: array<bv32>, values: array<bv64>, n: nat, ghost result: seq<seq<Term>>,
                           i: nat, tmp: seq<Term>)
    returns (outcome: Outcome, tmp': seq<Term>)
    requires values.Length == cols.Length && n == |result| && i < cols.Length
    ensures CsrState(outcome, cols[..], values[..], tmp', result)
            == VisitPlain(CsrState(Done, cols[..], values[..], tmp, result), i)
  {
    var col := cols[i];
    if col as int >= n {
      return OutOfBounds(i), tmp;
    }
    outcome, tmp' := Done, tmp + [Term(values[i], col)];
  }

  /** The inner loop body of CONSTRAINTS: the column checks, then the product. */
  method VisitConstraintsNonzero(cols: array<bv32>, values: array<bv64>, n: nat, ghost result: seq<seq<Term>>,
                                 i: nat, end: nat, tmp: seq<Term>)
    returns (outcome: Outcome, tmp': seq<Term>)
    requires values.Length == cols.Length && n == |result| && i < cols.Length
    ensures CsrState(outcome, cols[..], values[..], tmp', result)
            == VisitConstraints(CsrState(Done, cols[..], values[..], tmp, result), i, end)
  {
    var col := cols[i];
    if col as int >= n {
      return Aborted(i, ColumnSize), tmp;
    }
    if i + 1 < end {
      if i + 1 >= cols.Length {
        return OutOfBounds(i + 1), tmp;
      }
      if cols[i + 1] as int <= col as int {
        return Aborted(i, ColumnOrder), tmp;
      }
    }
    outcome, tmp' := Done, tmp + [Term(values[i], col)];
  }

  /**
   * The inner loop body of the ECC modes, in place: the colval check, the
   * write-back of a corrected colval, and the product with the masked column.
   */
  method VisitEccNonzero(mode: Mode, cols: array<bv32>, values: array<bv64>, n: nat, ghost result: seq<seq<Term>>,
                         i: nat, tmp: seq<Term>)
    returns (outcome: Outcome, tmp': seq<Term>)
    requires values.Length == cols.Length && n == |result| && i < cols.Length
    modifies cols, values
    ensures CsrState(outcome, cols[..], values[..], tmp', result)
            == VisitEcc(mode, CsrState(Done, old(cols[..]), old(values[..]), tmp, result), i)
  {
    var colval := Colval(values[i], cols[i]);
    var c := CheckColval(mode, colval);
    ResumeWith(mode, CsrState(Done, cols[..], values[..], tmp, result), i, c);
    outcome, tmp' := ResumeNonzero(cols, values, n, result, i, tmp, c);
  }

  /** The rest of the ECC loop body once the check has decided `c`. */
  method ResumeNonzero(cols: array<bv32>, values: array<bv64>, n: nat, ghost result: seq<seq<Term>>,
                       i: nat, tmp: seq<Term>, c: Check)
    returns (outcome: Outcome, tmp': seq<Term>)
    requires values.Length == cols.Length && n == |result| && i < cols.Length
    modifies cols, values
    ensures CsrState(outcome, cols[..], values[..], tmp', result)
            == Resume(CsrState(Done, old(cols[..]), old(values[..]), tmp, result), i, c)
  {
    if c.Fail? {
      return Aborted(i, c.fault), tmp;
    }
    if c.Overrun? {
      return OutOfBounds(i), tmp;
    }
    if c.write {
      cols[i] := c.fixed.col;
      values[i] := c.fixed.value;
    }
    var col := c.fixed.col & 0x00FF_FFFF;
    if col as int >= n {
      return OutOfBounds(i), tmp;
    }
    outcome, tmp' := Done, tmp + [Term(c.fixed.value, col)];
  }

  /** The inner loop body as the next event of the run `visited` from `s`, which ended `Done` in `st`. */
  method VisitNext(mode: Mode, cols: array<bv32>, values: array<bv64>, n: nat, ghost s: CsrState,
                   ghost visited: seq<Event>, ghost st: CsrState, i: nat, end: nat, tmp: seq<Term>)
    returns (outcome: Outcome, tmp': seq<Term>)
    requires values.Length == cols.Length && n == |st.result| && Shaped(s)
    requires st == CsrState(Done, cols[..], values[..], tmp, st.result) && Exec(mode, s, visited) == st
    modifies cols, values
    ensures Exec(mode, s, visited + [Visit(i, end)]) == CsrState(outcome, cols[..], values[..], tmp', st.result)
  {
    outcome, tmp' := VisitNonzero(mode, cols, values, n, st, i, end, tmp);
    ExecStep(mode, s, visited, Visit(i, end), st, CsrState(outcome, cols[..], values[..], tmp', st.result));
  }

  /**
   * The inner loop body for nonzero `i` of a row ending at `end`, in place:
   * the checks of `mode`, the write-back of a corrected colval and
   * `tmp += value * vector[col]`; `n` is the order of the matrix.
   */
  method VisitNonzero(mode: Mode, cols: array<bv32>, values: array<bv64>, n: nat, ghost st: CsrState,
                      i: nat, end: nat, tmp: seq<Term>)
    returns (outcome: Outcome, tmp': seq<Term>)
    requires values.Length == cols.Length && n == |st.result|
    requires st == CsrState(Done, cols[..], values[..], tmp, st.result)
    modifies cols, values
    ensures CsrState(outcome, cols[..], values[..], tmp', st.result) == Apply(mode, st, Visit(i, end))
  {
    if i >= cols.Length {
      return OutOfBounds(i), tmp;
    }
    if mode == None {
      outcome, tmp' := VisitPlainNonzero(cols, values, n, st.result, i, tmp);
    } else if mode == Constraints {
      outcome, tmp' := VisitConstraintsNonzero(cols, values, n, st.result, i, end, tmp);
    } else {
      outcome, tmp' := VisitEccNonzero(mode, cols, values, n, st.result, i, tmp);
    }
  }

  /** One more visit at the end of a run of visits. */
  lemma VisitsSnoc(from: nat, i: nat, end: nat)
    requires from <= i
    ensures Visits(from, i + 1, end) == Visits(from, i, end) + [Visit(i, end)]
  {}

  /** A run that ends `Done` in `t` goes on with one more event `ev` from `t`. */
  lemma ExecNext(mode: Mode, s: CsrState, events: seq<Event>, ev: Event, events': seq<Event>, t: CsrState)
    requires Shaped(s) && Exec(mode, s, events) == t && t.outcome == Done && events' == events + [ev]
    ensures Shaped(t) && Exec(mode, s, events') == Apply(mode, t, ev)
  {
    ExecSnoc(mode, s, events, ev);
  }

  /**
   * A row's events split after the visits of `start .. i-1`: what is left is
   * the visits of `i .. end-1` and the store.
   */
  lemma RowSplit(rows: seq<bv32>, row: nat, i: nat)
    requires row + 1 < |rows|
    requires RowStart(rows, row) <= i && (i == RowStart(rows, row) || i <= RowEnd(rows, row))
    ensures RowEvents(rows, row)
            == [Begin(row, RowStart(rows, row), RowEnd(rows, row))] + Visits(RowStart(rows, row), i, RowEnd(rows, row))
               + (Visits(i, RowEnd(rows, row), RowEnd(rows, row)) + [Store(row)])
  {
    VisitsSplit(RowStart(rows, row), i, RowEnd(rows, row), RowEnd(rows, row));
    Regroup([Begin(row, RowStart(rows, row), RowEnd(rows, row))], Visits(RowStart(rows, row), i, RowEnd(rows, row)),
            Visits(i, RowEnd(rows, row), RowEnd(rows, row)), [Store(row)]);
  }

  /** The visits of `from .. to-1` split at `i`. */
  lemma VisitsSplit(from: nat, i: nat, to: nat, end: nat)
    requires from <= i && (i == from || i <= to)
    ensures Visits(from, to, end) == Visits(from, i, end) + Visits(i, to, end)
  {
    assert Visits(from, to, end) == Visits(from, i, end) + Visits(i, to, end);
  }

  /** Regrouping four pieces of an event list. */
  lemma Regroup(a: seq<Event>, b: seq<Event>, c: seq<Event>, d: seq<Event>)
    ensures a + (b + c) + d == a + b + (c + d)
  {}

  /** A run extended by one event that leaves it going. */
  lemma ExecStep(mode: Mode, s: CsrState, events: seq<Event>, ev: Event, before: CsrState, after: CsrState)
    requires Shaped(s) && Exec(mode, s, events) == before && before.outcome == Done
    requires after == Apply(mode, before, ev)
    ensures Exec(mode, s, events + [ev]) == after
  {
    ExecSnoc(mode, s, events, ev);
  }

  /** A row's run that stops at the visit of nonzero `i` ends there. */
  lemma RowStopped(mode: Mode, s: CsrState, rows: seq<bv32>, row: nat, i: nat, visited: seq<Event>)
    requires Shaped(s) && row + 1 < |rows| && RowStart(rows, row) <= i < RowEnd(rows, row)
    requires visited == [Begin(row, RowStart(rows, row), RowEnd(rows, row))] + Visits(RowStart(rows, row), i + 1, RowEnd(rows, row))
    requires Exec(mode, s, visited).outcome != Done
    ensures Exec(mode, s, RowEvents(rows, row)) == Exec(mode, s, visited)
  {
    RowSplit(rows, row, i + 1);
    assert RowEvents(rows, row) == visited + (Visits(i + 1, RowEnd(rows, row), RowEnd(rows, row)) + [Store(row)]);
    StoppedPrefix(mode, s, visited, Visits(i + 1, RowEnd(rows, row), RowEnd(rows, row)) + [Store(row)]);
  }

  /** Once the visits of a row are done, only its store is left. */
  lemma RowVisited(rows: seq<bv32>, row: nat, i: nat, visited: seq<Event>)
    requires row + 1 < |rows| && RowStart(rows, row) <= i && (i == RowStart(rows, row) || i <= RowEnd(rows, row))
    requires i >= RowEnd(rows, row)
    requires visited == [Begin(row, RowStart(rows, row), RowEnd(rows, row))] + Visits(RowStart(rows, row), i, RowEnd(rows, row))
    ensures RowEvents(rows, row) == visited + [Store(row)]
  {
    RowSplit(rows, row, i);
    assert Visits(i, RowEnd(rows, row), RowEnd(rows, row)) == [];
  }

  /** The start of a row alone. */
  lemma BeginOnly(mode: Mode, s: CsrState, row: nat, start: nat, end: nat)
    requires Shaped(s) && s.outcome == Done
    ensures Exec(mode, s, [Begin(row, start, end)]) == BeginRow(mode, s, row, start, end)
  {
    ExecSnoc(mode, s, [], Begin(row, start, end));
    assert [] + [Begin(row, start, end)] == [Begin(row, start, end)];
  }

  /** A row's run starts with its row checks; a failed check ends it. */
  lemma RowBegin(mode: Mode, s: CsrState, rows: seq<bv32>, row: nat)
    requires Shaped(s) && s.outcome == Done && row + 1 < |rows|
    ensures Exec(mode, s, [Begin(row, RowStart(rows, row), RowEnd(rows, row))])
            == BeginRow(mode, s, row, RowStart(rows, row), RowEnd(rows, row))
    ensures BeginRow(mode, s, row, RowStart(rows, row), RowEnd(rows, row)).outcome != Done ==>
            Exec(mode, s, RowEvents(rows, row)) == BeginRow(mode, s, row, RowStart(rows, row), RowEnd(rows, row))
  {
    var begin := [Begin(row, RowStart(rows, row), RowEnd(rows, row))];
    var rest := Visits(RowStart(rows, row), RowEnd(rows, row), RowEnd(rows, row)) + [Store(row)];
    assert RowEvents(rows, row) == begin + rest;
    BeginOnly(mode, s, row, RowStart(rows, row), RowEnd(rows, row));
    if BeginRow(mode, s, row, RowStart(rows, row), RowEnd(rows, row)).outcome != Done {
      StoppedPrefix(mode, s, begin, rest);
    }
  }

  /** A row whose visits all end `Done` ends with `result[row] = tmp`. */
  lemma RowStored(mode: Mode, s: CsrState, rows: seq<bv32>, row: nat, visited: seq<Event>, st: CsrState)
    requires Shaped(s) && row < |st.result| && row + 1 < |rows|
    requires Exec(mode, s, visited) == st && st.outcome == Done
    requires RowEvents(rows, row) == visited + [Store(row)]
    ensures Exec(mode, s, RowEvents(rows, row)) == st.(result := st.result[row := st.tmp])
  {
    ExecSnoc(mode, s, visited, Store(row));
  }

  /**
   * The inner loop of row `row`, after its start: visit its nonzeros in
   * order, stopping at the first visit that does not end `Done`.
   */
  method SumRow(mode: Mode, cols: array<bv32>, values: array<bv64>, n: nat, ghost s: CsrState,
                ghost rows: seq<bv32>, row: nat, start: nat, end: nat)
    returns (outcome: Outcome, tmp': seq<Term>, ghost visited: seq<Event>)
    requires values.Length == cols.Length && Shaped(s) && n == |s.result| && row + 1 < |rows|
    requires start == RowStart(rows, row) && end == RowEnd(rows, row)
    requires Exec(mode, s, [Begin(row, RowStart(rows, row), RowEnd(rows, row))]) == CsrState(Done, cols[..], values[..], [], s.result)
    modifies cols, values
    ensures Exec(mode, s, visited) == CsrState(outcome, cols[..], values[..], tmp', s.result)
    ensures outcome != Done ==> Exec(mode, s, RowEvents(rows, row)) == Exec(mode, s, visited)
    ensures outcome == Done ==> RowEvents(rows, row) == visited + [Store(row)]
  {
    tmp' := [];
    outcome := Done;
    var i: nat := start;
    visited := [Begin(row, start, end)];
    assert visited + Visits(start, i, end) == visited;
    while i < end
      invariant start <= i && (i == start || i <= end) && outcome == Done
      invariant visited == [Begin(row, start, end)] + Visits(start, i, end)
      invariant Exec(mode, s, visited) == CsrState(Done, cols[..], values[..], tmp', s.result)
    {
      outcome, tmp', visited := SumStep(mode, cols, values, n, s, rows, row, start, end, i, tmp', visited);
      if outcome != Done {
        return;
      }
      i := i + 1;
    }
    RowVisited(rows, row, i, visited);
  }

  /** One round of the inner loop of row `row`: the visit of nonzero `i` appended to the run. */
  method SumStep(mode: Mode, cols: array<bv32>, values: array<bv64>, n: nat, ghost s: CsrState,
                 ghost rows: seq<bv32>, row: nat, start: nat, end: nat, i: nat, tmp: seq<Term>, ghost visited: seq<Event>)
    returns (outcome: Outcome, tmp': seq<Term>, ghost visited': seq<Event>)
    requires values.Length == cols.Length && Shaped(s) && n == |s.result| && row + 1 < |rows|
    requires start == RowStart(rows, row) && end == RowEnd(rows, row) && start <= i < end
    requires visited == [Begin(row, start, end)] + Visits(start, i, end)
    requires Exec(mode, s, visited) == CsrState(Done, cols[..], values[..], tmp, s.result)
    modifies cols, values
    ensures visited' == [Begin(row, start, end)] + Visits(start, i + 1, end)
    ensures Exec(mode, s, visited') == CsrState(outcome, cols[..], values[..], tmp', s.result)
    ensures outcome != Done ==> Exec(mode, s, RowEvents(rows, row)) == Exec(mode, s, visited')
  {
    ghost var st := CsrState(Done, cols[..], values[..], tmp, s.result);
    outcome, tmp' := VisitNext(mode, cols, values, n, s, visited, st, i, end, tmp);
    VisitsSnoc(start, i, end);
    visited' := visited + [Visit(i, end)];
    if outcome != Done {
      RowStopped(mode, s, rows, row, i, visited');
    }
  }

  /**
   * One iteration of the row loop, in place: the row checks of
   * CONSTRAINTS, the inner loop over the row's nonzeros and `result[row] = tmp`.
   */
  method MultiplyRow(mode: Mode, rows: array<bv32>, cols: array<bv32>, values: array<bv64>,
                     result: array<seq<Term>>, ghost s: CsrState, row: nat, tmp: seq<Term>)
    returns (outcome: Outcome, tmp': seq<Term>)
    requires row < result.Length && rows.Length == result.Length + 1 && values.Length == cols.Length
    requires rows != cols && result as object != cols && result as object != values
    requires s == CsrState(Done, cols[..], values[..], tmp, result[..])
    modifies cols, values, result
    ensures CsrState(outcome, cols[..], values[..], tmp', result[..]) == Exec(mode, s, RowEvents(rows[..], row))
  {
    var start := rows[row];
    var end := rows[row + 1];
    RowBegin(mode, s, rows[..], row);
    if mode == Constraints {
      if end as int > cols.Length {
        return Aborted(row, RowSize), tmp;
      }
      if end as int < start as int {
        return Aborted(row, RowOrder), tmp;
      }
    }
    ghost var visited;
    outcome, tmp', visited := SumRow(mode, cols, values, result.Length, s, rows[..], row, start as nat, end as nat);
    if outcome != Done {
      return;
    }
    ghost var st := CsrState(Done, cols[..], values[..], tmp', result[..]);
    result[row] := tmp';
    RowStored(mode, s, rows[..], row, visited, st);
  }

  /** Row `row` of the row loop: the run of the schedule grows by that row's events. */
  method ScheduleRow(mode: Mode, rows: array<bv32>, cols: array<bv32>, values: array<bv64>,
                     result: array<seq<Term>>, ghost s0: CsrState, row: nat, tmp: seq<Term>)
    returns (outcome: Outcome, tmp': seq<Term>)
    requires row < result.Length && rows.Length == result.Length + 1 && values.Length == cols.Length
    requires rows != cols && result as object != cols && result as object != values && Shaped(s0)
    requires Exec(mode, s0, Schedule(rows[..], row)) == CsrState(Done, cols[..], values[..], tmp, result[..])
    modifies cols, values, result
    ensures Exec(mode, s0, Schedule(rows[..], row + 1)) == CsrState(outcome, cols[..], values[..], tmp', result[..])
  {
    ghost var before := Schedule(rows[..], row);
    outcome, tmp' := MultiplyRow(mode, rows, cols, values, result, CsrState(Done, cols[..], values[..], tmp, result[..]), row, tmp);
    ExecAppend(mode, s0, before, RowEvents(rows[..], row));
  }

  /**
   * `spmv` for a matrix in `mode` whose order is the length of `result`:
   * the arrays end as the specification's run leaves them, and the row
   * pointers are only read.
   */
  method Multiply(mode: Mode, rows: array<bv32>, cols: array<bv32>, values: array<bv64>, result: array<seq<Term>>)
    returns (outcome: Outcome)
    requires rows.Length == result.Length + 1 && values.Length == cols.Length
    requires rows != cols && result as object != cols && result as object != values
    modifies cols, values, result
    ensures outcome == Spmv(mode, rows[..], old(cols[..]), old(values[..]), old(result[..])).outcome
    ensures cols[..] == Spmv(mode, rows[..], old(cols[..]), old(values[..]), old(result[..])).cols
    ensures values[..] == Spmv(mode, rows[..], old(cols[..]), old(values[..]), old(result[..])).values
    ensures result[..] == Spmv(mode, rows[..], old(cols[..]), old(values[..]), old(result[..])).result
  {
    ghost var s0 := Initial(cols[..], values[..], result[..]);
    var tmp: seq<Term> := [];
    var row := 0;
    while row < result.Length
      invariant 0 <= row <= result.Length
      invariant Exec(mode, s0, Schedule(rows[..], row)) == CsrState(Done, cols[..], values[..], tmp, result[..])
    {
      outcome, tmp := ScheduleRow(mode, rows, cols, values, result, s0, row, tmp);
      if outcome != Done {
        SpmvStopped(mode, rows[..], s0, row + 1, result.Length);
        return;
      }
      row := row + 1;
    }
    outcome := Done;
  }
}
