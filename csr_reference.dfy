/**
 * What the unprotected CSR kernels compute. NONE (CSR/c/spmv-baseline.c,
 * `spmv_baseline`) ends normally exactly when every nonzero it visits lies
 * inside the arrays and names a column of the matrix, and then
 * `result[row]` is the sum of the products of row `row`; CONSTRAINTS
 * (`spmv_constraints`) ends normally exactly when the matrix is well formed,
 * and then it is NONE. Neither writes the matrix.
 */
module CsrReference {
  import opened Modes
  import opened CsrSpmv

  /** The visit of a nonzero that NONE can carry out: inside the arrays and inside the vector. */
  predicate Readable(cols: seq<bv32>, n: nat, ev: Event)
  {
    ev.Visit? ==> InRange(cols, n, ev.i)
  }

  predicate AllReadable(cols: seq<bv32>, n: nat, events: seq<Event>)
  {
    forall k :: 0 <= k < |events| ==> Readable(cols, n, events[k])
  }

  /**
   * The step CONSTRAINTS lets through: a row whose end pointer is inside
   * the arrays and not before its start pointer, a nonzero whose column is
   * inside the matrix and, unless it ends its row, below the next column.
   */
  predicate Admissible(cols: seq<bv32>, n: nat, ev: Event)
  {
    match ev
    case Begin(_, start, end) => end <= |cols| && start <= end
    case Visit(i, end) => ColumnOk(cols, n, i, end)
    case Store(_) => true
  }

  /** Nonzero `i` lies inside the arrays, and its column inside the vector. */
  predicate InRange(cols: seq<bv32>, n: nat, i: int)
  {
    0 <= i < |cols| && cols[i] as int < n
  }

  /**
   * The checks CONSTRAINTS makes of nonzero `i` of a row that ends at
   * `end`: its column is inside the matrix and below the next one.
   */
  predicate ColumnOk(cols: seq<bv32>, n: nat, i: int, end: int)
  {
    InRange(cols, n, i) && (i + 1 < end ==> i + 1 < |cols| && cols[i] as int < cols[i + 1] as int)
  }

  predicate AllAdmissible(cols: seq<bv32>, n: nat, events: seq<Event>)
  {
    forall k :: 0 <= k < |events| ==> Admissible(cols, n, events[k])
  }

  lemma AllReadableSnoc(cols: seq<bv32>, n: nat, events: seq<Event>, ev: Event)
    ensures AllReadable(cols, n, events + [ev]) == (AllReadable(cols, n, events) && Readable(cols, n, ev))
  {
    assert forall k :: 0 <= k < |events| ==> (events + [ev])[k] == events[k];
    assert (events + [ev])[|events|] == ev;
  }

  lemma AllAdmissibleSnoc(cols: seq<bv32>, n: nat, events: seq<Event>, ev: Event)
    ensures AllAdmissible(cols, n, events + [ev]) == (AllAdmissible(cols, n, events) && Admissible(cols, n, ev))
  {
    assert forall k :: 0 <= k < |events| ==> (events + [ev])[k] == events[k];
    assert (events + [ev])[|events|] == ev;
  }

  lemma AllReadableAppend(cols: seq<bv32>, n: nat, a: seq<Event>, b: seq<Event>)
    ensures AllReadable(cols, n, a + b) == (AllReadable(cols, n, a) && AllReadable(cols, n, b))
  {
    assert forall k :: 0 <= k < |a| ==> (a + b)[k] == a[k];
    assert forall k :: 0 <= k < |b| ==> (a + b)[|a| + k] == b[k];
  }

  lemma AllAdmissibleAppend(cols: seq<bv32>, n: nat, a: seq<Event>, b: seq<Event>)
    ensures AllAdmissible(cols, n, a + b) == (AllAdmissible(cols, n, a) && AllAdmissible(cols, n, b))
  {
    assert forall k :: 0 <= k < |a| ==> (a + b)[k] == a[k];
    assert forall k :: 0 <= k < |b| ==> (a + b)[|a| + k] == b[k];
  }

  /** One step of NONE: it writes nothing, and it goes on exactly when the step is readable. */
  lemma NoneStep(s: CsrState, ev: Event)
    requires Shaped(s) && s.outcome == Done
    ensures Apply(None, s, ev).cols == s.cols && Apply(None, s, ev).values == s.values
    ensures (Apply(None, s, ev).outcome == Done) == Readable(s.cols, |s.result|, ev)
  {}

  /**
   * NONE never writes `cols` or `values`, and a run of it ends `Done`
   * exactly when each of its events is readable.
   */
  lemma {:induction false} NoneExec(s: CsrState, events: seq<Event>)
    requires Shaped(s) && s.outcome == Done
    ensures Exec(None, s, events).cols == s.cols && Exec(None, s, events).values == s.values
    ensures (Exec(None, s, events).outcome == Done) == AllReadable(s.cols, |s.result|, events)
    decreases |events|
  {
    if |events| > 0 {
      var front := events[..|events| - 1];
      var ev := events[|events| - 1];
      assert events == front + [ev];
      NoneExec(s, front);
      ExecSnoc(None, s, front, ev);
      AllReadableSnoc(s.cols, |s.result|, front, ev);
      if Exec(None, s, front).outcome == Done {
        NoneStep(Exec(None, s, front), ev);
      }
    }
  }

  /** On an admissible step CONSTRAINTS is NONE; on any other it aborts. Neither writes. */
  lemma ConstraintsStep(s: CsrState, ev: Event)
    requires Shaped(s) && s.outcome == Done
    ensures Apply(Constraints, s, ev).cols == s.cols && Apply(Constraints, s, ev).values == s.values
    ensures (Apply(Constraints, s, ev).outcome == Done) == Admissible(s.cols, |s.result|, ev)
    ensures Admissible(s.cols, |s.result|, ev) ==> Apply(Constraints, s, ev) == Apply(None, s, ev)
  {}

  /**
   * CONSTRAINTS never writes `cols` or `values`; its run ends `Done`
   * exactly when each of its events is admissible, and it is then the run
   * of NONE.
   */
  lemma {:induction false} ConstraintsExec(s: CsrState, events: seq<Event>)
    requires Shaped(s) && s.outcome == Done
    ensures Exec(Constraints, s, events).cols == s.cols && Exec(Constraints, s, events).values == s.values
    ensures (Exec(Constraints, s, events).outcome == Done) == AllAdmissible(s.cols, |s.result|, events)
    ensures AllAdmissible(s.cols, |s.result|, events) ==> Exec(Constraints, s, events) == Exec(None, s, events)
    decreases |events|
  {
    if |events| > 0 {
      var front := events[..|events| - 1];
      var ev := events[|events| - 1];
      assert events == front + [ev];
      ConstraintsExec(s, front);
      ExecSnoc(Constraints, s, front, ev);
      ExecSnoc(None, s, front, ev);
      AllAdmissibleSnoc(s.cols, |s.result|, front, ev);
      if Exec(Constraints, s, front).outcome == Done {
        ConstraintsStep(Exec(Constraints, s, front), ev);
      }
    }
  }

  /** NONE can read every nonzero of row `row`. */
  predicate RowReadable(rows: seq<bv32>, cols: seq<bv32>, n: nat, row: nat)
    requires row + 1 < |rows|
  {
    forall i :: RowStart(rows, row) <= i < RowEnd(rows, row) ==> InRange(cols, n, i)
  }

  /**
   * Row `row` passes the checks of CONSTRAINTS: its end pointer is inside
   * the arrays and not before its start pointer, and its columns are inside
   * the matrix and strictly increasing.
   */
  predicate RowWellFormed(rows: seq<bv32>, cols: seq<bv32>, n: nat, row: nat)
    requires row + 1 < |rows|
  {
    RowEnd(rows, row) <= |cols| && RowStart(rows, row) <= RowEnd(rows, row) &&
    forall i :: RowStart(rows, row) <= i < RowEnd(rows, row) ==> ColumnOk(cols, n, i, RowEnd(rows, row))
  }

  /** Every row of the first `r` readable. */
  predicate RowsReadable(rows: seq<bv32>, cols: seq<bv32>, n: nat, r: nat)
    requires r < |rows|
  {
    forall row :: 0 <= row < r ==> RowReadable(rows, cols, n, row)
  }

  /** Every row of the first `r` well formed. */
  predicate RowsWellFormed(rows: seq<bv32>, cols: seq<bv32>, n: nat, r: nat)
    requires r < |rows|
  {
    forall row :: 0 <= row < r ==> RowWellFormed(rows, cols, n, row)
  }

  /** The events of row `row`, position by position. */
  lemma RowEventsAt(rows: seq<bv32>, row: nat)
    requires row + 1 < |rows|
    ensures |RowEvents(rows, row)| == |Visits(RowStart(rows, row), RowEnd(rows, row), RowEnd(rows, row))| + 2
    ensures RowEvents(rows, row)[0] == Begin(row, RowStart(rows, row), RowEnd(rows, row))
    ensures forall k :: 1 <= k < |RowEvents(rows, row)| - 1 ==>
              RowEvents(rows, row)[k] == Visit(RowStart(rows, row) + (k - 1), RowEnd(rows, row))
    ensures RowEvents(rows, row)[|RowEvents(rows, row)| - 1] == Store(row)
  {}

  /** The visit of nonzero `i` of row `row` is among the row's events. */
  lemma RowVisitAt(rows: seq<bv32>, row: nat, i: nat)
    requires row + 1 < |rows| && RowStart(rows, row) <= i < RowEnd(rows, row)
    ensures i - RowStart(rows, row) + 1 < |RowEvents(rows, row)| - 1
    ensures RowEvents(rows, row)[i - RowStart(rows, row) + 1] == Visit(i, RowEnd(rows, row))
  {
    RowEventsAt(rows, row);
  }

  lemma ReadableRow(rows: seq<bv32>, cols: seq<bv32>, n: nat, row: nat)
    requires row + 1 < |rows| && AllReadable(cols, n, RowEvents(rows, row))
    ensures RowReadable(rows, cols, n, row)
  {
    forall i | RowStart(rows, row) <= i < RowEnd(rows, row)
      ensures InRange(cols, n, i)
    {
      RowVisitAt(rows, row, i);
      assert Readable(cols, n, RowEvents(rows, row)[i - RowStart(rows, row) + 1]);
    }
  }

  lemma RowReadableEvents(rows: seq<bv32>, cols: seq<bv32>, n: nat, row: nat)
    requires row + 1 < |rows| && RowReadable(rows, cols, n, row)
    ensures AllReadable(cols, n, RowEvents(rows, row))
  {
    RowEventsAt(rows, row);
    var events := RowEvents(rows, row);
    forall k | 0 <= k < |events|
      ensures Readable(cols, n, events[k])
    {
      if 1 <= k < |events| - 1 {
        assert events[k] == Visit(RowStart(rows, row) + (k - 1), RowEnd(rows, row));
        assert InRange(cols, n, RowStart(rows, row) + (k - 1));
      }
    }
  }

  /** The events of a row are readable exactly when the row is. */
  lemma RowEventsReadable(rows: seq<bv32>, cols: seq<bv32>, n: nat, row: nat)
    requires row + 1 < |rows|
    ensures AllReadable(cols, n, RowEvents(rows, row)) == RowReadable(rows, cols, n, row)
  {
    if AllReadable(cols, n, RowEvents(rows, row)) {
      ReadableRow(rows, cols, n, row);
    }
    if RowReadable(rows, cols, n, row) {
      RowReadableEvents(rows, cols, n, row);
    }
  }

  lemma AdmissibleRow(rows: seq<bv32>, cols: seq<bv32>, n: nat, row: nat)
    requires row + 1 < |rows| && AllAdmissible(cols, n, RowEvents(rows, row))
    ensures RowWellFormed(rows, cols, n, row)
  {
    RowEventsAt(rows, row);
    assert Admissible(cols, n, RowEvents(rows, row)[0]);
    forall i | RowStart(rows, row) <= i < RowEnd(rows, row)
      ensures ColumnOk(cols, n, i, RowEnd(rows, row))
    {
      RowVisitAt(rows, row, i);
      assert Admissible(cols, n, RowEvents(rows, row)[i - RowStart(rows, row) + 1]);
    }
  }

  lemma RowAdmissibleEvents(rows: seq<bv32>, cols: seq<bv32>, n: nat, row: nat)
    requires row + 1 < |rows| && RowWellFormed(rows, cols, n, row)
    ensures AllAdmissible(cols, n, RowEvents(rows, row))
  {
    RowEventsAt(rows, row);
    var events := RowEvents(rows, row);
    forall k | 0 <= k < |events|
      ensures Admissible(cols, n, events[k])
    {
      if 1 <= k < |events| - 1 {
        assert events[k] == Visit(RowStart(rows, row) + (k - 1), RowEnd(rows, row));
        assert ColumnOk(cols, n, RowStart(rows, row) + (k - 1), RowEnd(rows, row));
      }
    }
  }

  /** The events of a row are admissible exactly when the row is well formed. */
  lemma RowEventsAdmissible(rows: seq<bv32>, cols: seq<bv32>, n: nat, row: nat)
    requires row + 1 < |rows|
    ensures AllAdmissible(cols, n, RowEvents(rows, row)) == RowWellFormed(rows, cols, n, row)
  {
    if AllAdmissible(cols, n, RowEvents(rows, row)) {
      AdmissibleRow(rows, cols, n, row);
    }
    if RowWellFormed(rows, cols, n, row) {
      RowAdmissibleEvents(rows, cols, n, row);
    }
  }

  /** The schedule of the first `r` rows is readable exactly when those rows are. */
  lemma {:induction false} ScheduleReadable(rows: seq<bv32>, cols: seq<bv32>, n: nat, r: nat)
    requires r < |rows|
    ensures AllReadable(cols, n, Schedule(rows, r)) == RowsReadable(rows, cols, n, r)
  {
    if r > 0 {
      ScheduleReadable(rows, cols, n, r - 1);
      AllReadableAppend(cols, n, Schedule(rows, r - 1), RowEvents(rows, r - 1));
      RowEventsReadable(rows, cols, n, r - 1);
    }
  }

  /** The schedule of the first `r` rows is admissible exactly when those rows are well formed. */
  lemma {:induction false} ScheduleAdmissible(rows: seq<bv32>, cols: seq<bv32>, n: nat, r: nat)
    requires r < |rows|
    ensures AllAdmissible(cols, n, Schedule(rows, r)) == RowsWellFormed(rows, cols, n, r)
  {
    if r > 0 {
      ScheduleAdmissible(rows, cols, n, r - 1);
      AllAdmissibleAppend(cols, n, Schedule(rows, r - 1), RowEvents(rows, r - 1));
      RowEventsAdmissible(rows, cols, n, r - 1);
    }
  }

  /** The products of nonzeros `from .. to-1`, in order. */
  function Products(cols: seq<bv32>, values: seq<bv64>, from: nat, to: nat): (r: seq<Term>)
    requires |values| == |cols| && (from < to ==> to <= |cols|)
    ensures |r| == if from < to then to - from else 0
    ensures forall k :: 0 <= k < |r| ==> r[k] == Term(values[from + k], cols[from + k])
  {
    seq(if from < to then to - from else 0, k requires 0 <= k < (if from < to then to - from else 0) =>
      Term(values[from + k], cols[from + k]))
  }

  /** `result[row]` as NONE computes it: the products of the row's nonzeros. */
  function RowSum(rows: seq<bv32>, cols: seq<bv32>, values: seq<bv64>, n: nat, row: nat): seq<Term>
    requires row + 1 < |rows| && |values| == |cols| && RowReadable(rows, cols, n, row)
  {
    assert RowStart(rows, row) < RowEnd(rows, row) ==> InRange(cols, n, RowEnd(rows, row) - 1);
    Products(cols, values, RowStart(rows, row), RowEnd(rows, row))
  }

  /** The result vector after the first `r` rows: their sums, then what the caller passed. */
  function Sums(rows: seq<bv32>, cols: seq<bv32>, values: seq<bv64>, result: seq<seq<Term>>, r: nat): (v: seq<seq<Term>>)
    requires r < |rows| && r <= |result| && |values| == |cols| && RowsReadable(rows, cols, |result|, r)
    ensures |v| == |result|
  {
    seq(|result|, q requires 0 <= q < |result| =>
      if q < r then RowSum(rows, cols, values, |result|, q) else result[q])
  }

  lemma ProductsSnoc(tmp: seq<Term>, cols: seq<bv32>, values: seq<bv64>, from: nat, i: nat)
    requires |values| == |cols| && from <= i < |cols|
    ensures tmp + Products(cols, values, from, i) + [Term(values[i], cols[i])] == tmp + Products(cols, values, from, i + 1)
  {
    assert Products(cols, values, from, i + 1) == Products(cols, values, from, i) + [Term(values[i], cols[i])];
  }

  /** A readable visit by NONE adds its product to `tmp`. */
  lemma PlainVisit(mode: Mode, s: CsrState, i: nat, end: nat)
    requires mode == None && Shaped(s) && s.outcome == Done && InRange(s.cols, |s.result|, i)
    ensures Apply(mode, s, Visit(i, end)) == s.(tmp := s.tmp + [Term(s.values[i], s.cols[i])])
  {}

  /** One more visit by NONE adds one more product. */
  lemma VisitsSumStep(mode: Mode, s: CsrState, from: nat, i: nat, end: nat)
    requires mode == None && Shaped(s) && s.outcome == Done && from < i && InRange(s.cols, |s.result|, i - 1)
    requires Exec(mode, s, Visits(from, i - 1, end)) == s.(tmp := s.tmp + Products(s.cols, s.values, from, i - 1))
    ensures Exec(mode, s, Visits(from, i, end)) == s.(tmp := s.tmp + Products(s.cols, s.values, from, i))
  {
    VisitsSnoc(from, i - 1, end);
    ExecNext(mode, s, Visits(from, i - 1, end), Visit(i - 1, end), Visits(from, i, end),
             s.(tmp := s.tmp + Products(s.cols, s.values, from, i - 1)));
    PlainVisitSum(mode, s, from, i, end);
  }

  /** The visit of nonzero `i-1` by NONE extends the sum of `from .. i-2` to the sum of `from .. i-1`. */
  lemma PlainVisitSum(mode: Mode, s: CsrState, from: nat, i: nat, end: nat)
    requires mode == None && Shaped(s) && s.outcome == Done && from < i && InRange(s.cols, |s.result|, i - 1)
    ensures Apply(mode, s.(tmp := s.tmp + Products(s.cols, s.values, from, i - 1)), Visit(i - 1, end))
            == s.(tmp := s.tmp + Products(s.cols, s.values, from, i))
  {
    PlainVisit(mode, s.(tmp := s.tmp + Products(s.cols, s.values, from, i - 1)), i - 1, end);
    ProductsSnoc(s.tmp, s.cols, s.values, from, i - 1);
  }

  /** NONE's visits of `from .. i-1` add their products to `tmp`. */
  lemma {:induction false} VisitsSum(mode: Mode, s: CsrState, from: nat, i: nat, end: nat)
    requires mode == None && Shaped(s) && s.outcome == Done && from <= i
    requires forall j :: from <= j < i ==> InRange(s.cols, |s.result|, j)
    ensures from < i ==> i <= |s.cols|
    ensures Exec(mode, s, Visits(from, i, end)) == s.(tmp := s.tmp + Products(s.cols, s.values, from, i))
    decreases i - from
  {
    if i == from {
      assert Visits(from, i, end) == [];
      assert s.tmp + Products(s.cols, s.values, from, i) == s.tmp;
    } else {
      assert InRange(s.cols, |s.result|, i - 1);
      VisitsSum(mode, s, from, i - 1, end);
      VisitsSumStep(mode, s, from, i, end);
    }
  }

  /** A readable row run by NONE: a fresh sum of its products, stored at `result[row]`. */
  lemma RowRun(s: CsrState, rows: seq<bv32>, row: nat)
    requires Shaped(s) && s.outcome == Done && row + 1 < |rows| && row < |s.result|
    requires RowReadable(rows, s.cols, |s.result|, row)
    ensures Exec(None, s, RowEvents(rows, row))
            == s.(tmp := RowSum(rows, s.cols, s.values, |s.result|, row),
                  result := s.result[row := RowSum(rows, s.cols, s.values, |s.result|, row)])
  {
    var start, end := RowStart(rows, row), RowEnd(rows, row);
    var begin := [Begin(row, start, end)];
    var visits := Visits(start, end, end);
    assert RowEvents(rows, row) == begin + visits + [Store(row)];
    ExecSnoc(None, s, [], Begin(row, start, end));
    assert [] + [Begin(row, start, end)] == begin;
    var t := s.(tmp := []);
    assert Exec(None, s, begin) == t;
    if start < end {
      VisitsSum(None, t, start, end, end);
    } else {
      assert visits == [];
      assert begin + visits == begin;
    }
    assert [] + Products(s.cols, s.values, start, end) == Products(s.cols, s.values, start, end);
    ExecAppend(None, s, begin, visits);
    ExecSnoc(None, s, begin + visits, Store(row));
  }

  /** The sums after one more row. */
  lemma SumsNext(rows: seq<bv32>, cols: seq<bv32>, values: seq<bv64>, result: seq<seq<Term>>, r: nat)
    requires |rows| == |result| + 1 && |values| == |cols| && 0 < r <= |result|
    requires RowsReadable(rows, cols, |result|, r)
    ensures Sums(rows, cols, values, result, r - 1)[r - 1 := RowSum(rows, cols, values, |result|, r - 1)]
            == Sums(rows, cols, values, result, r)
  {
    assert RowsReadable(rows, cols, |result|, r - 1);
    forall q | 0 <= q < |result|
      ensures Sums(rows, cols, values, result, r - 1)[r - 1 := RowSum(rows, cols, values, |result|, r - 1)][q]
              == Sums(rows, cols, values, result, r)[q]
    {
      SumsAt(rows, cols, values, result, r, q);
    }
  }

  /** Slot `q` of the sums after `r` rows, read past the first `r - 1`. */
  lemma SumsAt(rows: seq<bv32>, cols: seq<bv32>, values: seq<bv64>, result: seq<seq<Term>>, r: nat, q: nat)
    requires |rows| == |result| + 1 && |values| == |cols| && 0 < r <= |result| && q < |result|
    requires RowsReadable(rows, cols, |result|, r)
    ensures q != r - 1 ==> Sums(rows, cols, values, result, r)[q] == Sums(rows, cols, values, result, r - 1)[q]
    ensures q == r - 1 ==> Sums(rows, cols, values, result, r)[q] == RowSum(rows, cols, values, |result|, q)
  {
    assert RowsReadable(rows, cols, |result|, r - 1);
  }

  /** Running one more row of NONE. */
  lemma NoneRowsStep(rows: seq<bv32>, cols: seq<bv32>, values: seq<bv64>, result: seq<seq<Term>>, r: nat)
    requires |rows| == |result| + 1 && |values| == |cols| && 0 < r <= |result|
    requires RowsReadable(rows, cols, |result|, r)
    requires Exec(None, Initial(cols, values, result), Schedule(rows, r - 1))
             == CsrState(Done, cols, values, Exec(None, Initial(cols, values, result), Schedule(rows, r - 1)).tmp,
                         Sums(rows, cols, values, result, r - 1))
    ensures Exec(None, Initial(cols, values, result), Schedule(rows, r))
            == CsrState(Done, cols, values, RowSum(rows, cols, values, |result|, r - 1), Sums(rows, cols, values, result, r))
  {
    var s0 := Initial(cols, values, result);
    var before := Exec(None, s0, Schedule(rows, r - 1));
    assert RowReadable(rows, cols, |result|, r - 1);
    ExecAppend(None, s0, Schedule(rows, r - 1), RowEvents(rows, r - 1));
    RowRun(before, rows, r - 1);
    SumsNext(rows, cols, values, result, r);
  }

  /** The first `r` rows run by NONE, when readable, store their sums and leave the matrix alone. */
  lemma {:induction false} NoneRows(rows: seq<bv32>, cols: seq<bv32>, values: seq<bv64>, result: seq<seq<Term>>, r: nat)
    requires |rows| == |result| + 1 && |values| == |cols| && r <= |result|
    requires RowsReadable(rows, cols, |result|, r)
    ensures Exec(None, Initial(cols, values, result), Schedule(rows, r))
            == CsrState(Done, cols, values, Exec(None, Initial(cols, values, result), Schedule(rows, r)).tmp,
                        Sums(rows, cols, values, result, r))
  {
    if r == 0 {
      assert Sums(rows, cols, values, result, 0) == result;
    } else {
      NoneRows(rows, cols, values, result, r - 1);
      NoneRowsStep(rows, cols, values, result, r);
    }
  }

  /**
   * `spmv` in NONE (CSR/c/spmv-baseline.c): it never writes the matrix; it
   * ends normally exactly when every row is readable, and then
   * `result[row]` is the sum of the products of row `row` for every row.
   */
  lemma NoneSpmv(rows: seq<bv32>, cols: seq<bv32>, values: seq<bv64>, result: seq<seq<Term>>)
    requires |rows| == |result| + 1 && |values| == |cols|
    ensures Spmv(None, rows, cols, values, result).cols == cols
    ensures Spmv(None, rows, cols, values, result).values == values
    ensures (Spmv(None, rows, cols, values, result).outcome == Done) == RowsReadable(rows, cols, |result|, |result|)
    ensures RowsReadable(rows, cols, |result|, |result|) ==>
              forall row :: 0 <= row < |result| ==>
                Spmv(None, rows, cols, values, result).result[row] == RowSum(rows, cols, values, |result|, row)
  {
    NoneExec(Initial(cols, values, result), Schedule(rows, |result|));
    ScheduleReadable(rows, cols, |result|, |result|);
    if RowsReadable(rows, cols, |result|, |result|) {
      NoneRows(rows, cols, values, result, |result|);
    }
  }

  /**
   * `spmv` in CONSTRAINTS: it never writes the matrix; it ends normally
   * exactly when every row is well formed, and then it is NONE.
   */
  lemma ConstraintsSpmv(rows: seq<bv32>, cols: seq<bv32>, values: seq<bv64>, result: seq<seq<Term>>)
    requires |rows| == |result| + 1 && |values| == |cols|
    ensures Spmv(Constraints, rows, cols, values, result).cols == cols
    ensures Spmv(Constraints, rows, cols, values, result).values == values
    ensures (Spmv(Constraints, rows, cols, values, result).outcome == Done) == RowsWellFormed(rows, cols, |result|, |result|)
    ensures RowsWellFormed(rows, cols, |result|, |result|) ==>
              Spmv(Constraints, rows, cols, values, result) == Spmv(None, rows, cols, values, result)
  {
    ConstraintsExec(Initial(cols, values, result), Schedule(rows, |result|));
    ScheduleAdmissible(rows, cols, |result|, |result|);
  }
}
