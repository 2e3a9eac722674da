/**
 * Building a protected CSR matrix: the `create_matrix` of CSR/CPUContext.cpp,
 * which copies the nonzeros through the class's `generate_ecc_bits` and
 * builds the row pointers from the row index of each nonzero, and the
 * in-place `init_matrix_ecc` passes of the per-mode files under CSR/c.
 */
module CsrBuild {
  import opened Bits
  import opened Modes
  import opened CsrEcc
  import opened CsrEncode

  /** The encoding of one colval in `mode`: no check bits for NONE and CONSTRAINTS. */
  function Encode(mode: Mode, c: Colval): Colval
  {
    match mode
    case None => c
    case Constraints => c
    case Sed => EncodeSed(c)
    case Sec7 => EncodeSec7(c)
    case Sec8 => EncodeSec8(c)
    case Secded => EncodeSec8(c)
  }

  /** The column words of the matrix whose nonzeros are `cols` and `values`, encoded. */
  function EncodeCols(mode: Mode, cols: seq<bv32>, values: seq<bv64>): (r: seq<bv32>)
    requires |values| == |cols|
    ensures |r| == |cols|
    ensures forall i :: 0 <= i < |cols| ==> r[i] == Encode(mode, Colval(values[i], cols[i])).col
  {
    seq(|cols|, i requires 0 <= i < |cols| => Encode(mode, Colval(values[i], cols[i])).col)
  }

  /** All column indices leave the check bits 24..31 clear. */
  predicate AllUnreserved(cols: seq<bv32>)
  {
    forall i :: 0 <= i < |cols| ==> cols[i] & 0xFF00_0000 == 0
  }

  /** Encoding writes the column word only. */
  lemma EncodeWords(mode: Mode, c: Colval)
    ensures Encode(mode, c).value == c.value
  {
    EncodeCases(mode, c);
    EncodeFields(c);
  }

  /** `Encode` by cases. */
  lemma EncodeCases(mode: Mode, c: Colval)
    ensures mode == Sed ==> Encode(mode, c) == EncodeSed(c)
    ensures mode == Sec7 ==> Encode(mode, c) == EncodeSec7(c)
    ensures mode == Sec8 || mode == Secded ==> Encode(mode, c) == EncodeSec8(c)
    ensures !Protected(mode) ==> Encode(mode, c) == c
  {}

  lemma EncodeIndexSed(mode: Mode, c: Colval)
    requires mode == Sed && Unreserved(c)
    ensures Encode(mode, c).col & 0x00FF_FFFF == c.col
  {
    EncodeCases(mode, c);
    UnreservedIndex(c.col);
  }

  lemma EncodeIndexSec7(mode: Mode, c: Colval)
    requires mode == Sec7 && Unreserved(c)
    ensures Encode(mode, c).col & 0x00FF_FFFF == c.col
  {
    EncodeCases(mode, c);
    Sec7Index(c);
  }

  lemma EncodeIndexSec8(mode: Mode, c: Colval)
    requires (mode == Sec8 || mode == Secded) && Unreserved(c)
    ensures Encode(mode, c).col & 0x00FF_FFFF == c.col
  {
    EncodeCases(mode, c);
    Sec8Index(c);
  }

  /** The column index bits survive encoding in every mode. */
  lemma EncodeIndex(mode: Mode, c: Colval)
    requires Unreserved(c)
    ensures Encode(mode, c).col & 0x00FF_FFFF == c.col
  {
    if mode == Sed {
      EncodeIndexSed(mode, c);
    } else if mode == Sec7 {
      EncodeIndexSec7(mode, c);
    } else if mode == Sec8 || mode == Secded {
      EncodeIndexSec8(mode, c);
    } else {
      EncodeCases(mode, c);
      UnreservedIndex(c.col);
    }
  }

  /**
   * Encoding touches nothing but the check bits: the value and, for an
   * unreserved column, the index bits are those of the input, and the
   * unprotected modes change nothing at all.
   */
  lemma EncodeKeeps(mode: Mode, c: Colval)
    requires Unreserved(c)
    ensures Encode(mode, c).value == c.value
    ensures Encode(mode, c).col & 0x00FF_FFFF == c.col
    ensures !Protected(mode) ==> Encode(mode, c) == c
  {
    EncodeWords(mode, c);
    EncodeIndex(mode, c);
  }

  /** The colval the kernels assemble from an encoded column word and its value is the encoded colval. */
  lemma EncodedColval(mode: Mode, value: bv64, col: bv32)
    ensures Colval(value, Encode(mode, Colval(value, col)).col) == Encode(mode, Colval(value, col))
  {
    EncodeWords(mode, Colval(value, col));
  }

  /** SED's `generate_ecc_bits`: the parity into column bit 31. */
  method GenerateSed(element: Colval) returns (encoded: Colval)
    ensures encoded == EncodeSed(element)
  {
    encoded := WithParity(element, 31);
  }

  /** SEC7's `generate_ecc_bits`: `column |= ecc_compute_col8(element)`. */
  method GenerateSec7(element: Colval) returns (encoded: Colval)
    ensures encoded == EncodeSec7(element)
  {
    encoded := Colval(element.value, element.col | ComputeCol8(element));
  }

  /** SEC8's `generate_ecc_bits`: the syndrome, then the parity into column bit 24. */
  method GenerateSec8(element: Colval) returns (encoded: Colval)
    ensures encoded == EncodeSec8(element)
  {
    var withSyndrome := GenerateSec7(element);
    encoded := WithParity(withSyndrome, 24);
  }

  /** `generate_ecc_bits` of the class for `mode`, and the body of the encode loops. */
  method GenerateEccBits(mode: Mode, element: Colval) returns (encoded: Colval)
    ensures encoded == Encode(mode, element)
  {
    EncodeCases(mode, element);
    if mode == Sed {
      encoded := GenerateSed(element);
    } else if mode == Sec7 {
      encoded := GenerateSec7(element);
    } else if mode == Sec8 || mode == Secded {
      encoded := GenerateSec8(element);
    } else {
      encoded := element;
    }
  }

  /** `init_matrix_ecc` of the CSR/c files: encode every column word in place, reading the values only. */
  method InitMatrixEcc(mode: Mode, cols: array<bv32>, values: array<bv64>)
    requires values.Length == cols.Length && cols as object != values
    modifies cols
    ensures cols[..] == EncodeCols(mode, old(cols[..]), values[..])
  {
    ghost var enc := EncodeCols(mode, cols[..], values[..]);
    for i := 0 to cols.Length
      invariant forall j :: 0 <= j < i ==> cols[j] == enc[j]
      invariant forall j :: i <= j < cols.Length ==> cols[j] == old(cols[j])
    {
      EncodeAt(mode, cols, values, i, enc);
    }
  }

  /** One round of `init_matrix_ecc`: the column word of nonzero `i` replaced by its encoding. */
  method EncodeAt(mode: Mode, cols: array<bv32>, values: array<bv64>, i: nat, ghost enc: seq<bv32>)
    requires values.Length == cols.Length && cols as object != values && i < cols.Length
    requires |enc| == cols.Length && enc[i] == Encode(mode, Colval(values[i], cols[i])).col
    modifies cols
    ensures cols[i] == enc[i]
    ensures forall j :: 0 <= j < cols.Length && j != i ==> cols[j] == old(cols[j])
  {
    var encoded := GenerateEccBits(mode, Colval(values[i], cols[i]));
    cols[i] := encoded.col;
  }

  /** The row indices as numbers. */
  function Ints(rows: seq<bv32>): (rs: seq<int>)
    ensures |rs| == |rows| && forall i :: 0 <= i < |rows| ==> rs[i] == rows[i] as int
  {
    seq(|rows|, i requires 0 <= i < |rows| => rows[i] as int)
  }

  /** The number of row pointers the fill loop has written after the row indices `rs`: one past the largest. */
  function Reach(rs: seq<int>): (r: nat)
    ensures forall i :: 0 <= i < |rs| ==> rs[i] < r
  {
    if |rs| == 0 then 0
    else if Reach(rs[..|rs| - 1]) <= rs[|rs| - 1] then rs[|rs| - 1] + 1
    else Reach(rs[..|rs| - 1])
  }

  /** The first nonzero whose row index is at least `r`; |rs| when there is none. */
  function FirstAtLeast(rs: seq<int>, r: int): (k: nat)
    ensures k <= |rs|
    ensures forall i :: 0 <= i < k ==> rs[i] < r
    ensures k < |rs| ==> rs[k] >= r
  {
    if |rs| == 0 || rs[0] >= r then 0 else 1 + FirstAtLeast(rs[1..], r)
  }

  /**
   * `rows[next_row++] = value` while `next_row <= row`: the pointers from
   * `nextRow` up to `row` get `value`, the others keep theirs.
   */
  method AdvanceRows(rowPtr: array<bv32>, nextRow: nat, row: nat, value: bv32) returns (next: nat)
    requires row < rowPtr.Length
    modifies rowPtr
    ensures next == if nextRow <= row then row + 1 else nextRow
    ensures forall r :: 0 <= r < rowPtr.Length ==> rowPtr[r] == if nextRow <= r <= row then value else old(rowPtr[r])
  {
    next := nextRow;
    while next <= row
      invariant nextRow <= next <= if nextRow <= row then row + 1 else nextRow
      invariant forall r :: 0 <= r < rowPtr.Length ==> rowPtr[r] == if nextRow <= r < next then value else old(rowPtr[r])
      decreases row + 1 - next
    {
      rowPtr[next] := value;
      next := next + 1;
    }
  }

  /** After a nonzero with row index `rs[i]`, the rows first reached by it start at `i`. */
  lemma FirstAtIndex(rs: seq<int>, i: nat, r: int)
    requires i < |rs| && rs[i] >= r && Reach(rs[..i]) <= r
    ensures FirstAtLeast(rs, r) == i
  {
    assert forall k :: 0 <= k < i ==> rs[..i][k] == rs[k];
  }

  /** Processing one more nonzero of the fill loop. */
  lemma ReachNext(rs: seq<int>, i: nat)
    requires i < |rs|
    ensures Reach(rs[..i + 1]) == if Reach(rs[..i]) <= rs[i] then rs[i] + 1 else Reach(rs[..i])
  {
    assert rs[..i + 1][..i] == rs[..i];
  }

  /**
   * `create_matrix`: fresh `cols` and `vals` holding the encoded nonzeros,
   * and the row pointers written into `rowPtr`, the N+1 buffer whose
   * contents C leaves undefined. Pointer r, for every row r the row indices
   * reach, is the first nonzero of row r or later; the pointers past the
   * last row reached keep whatever the buffer held; pointer N is nnz.
   */
  method CreateMatrix(mode: Mode, columns: seq<bv32>, rows: seq<bv32>, values: seq<bv64>, n: nat, rowPtr: array<bv32>)
    returns (cols: array<bv32>, vals: array<bv64>)
    requires |rows| == |columns| && |values| == |columns| && |columns| < 0x8000_0000
    requires rowPtr.Length == n + 1 && forall i :: 0 <= i < |rows| ==> rows[i] as int <= n
    modifies rowPtr
    ensures fresh(cols) && fresh(vals)
    ensures cols[..] == EncodeCols(mode, columns, values) && vals[..] == values
    ensures forall r :: 0 <= r < n && r < Reach(Ints(rows)) ==> rowPtr[r] as int == FirstAtLeast(Ints(rows), r)
    ensures forall r :: Reach(Ints(rows)) <= r < n ==> rowPtr[r] == old(rowPtr[r])
    ensures rowPtr[n] as int == |columns|
  {
    cols := new bv32[|columns|];
    vals := new bv64[|columns|];
    var index := FillAll(mode, columns, rows, values, cols, vals, rowPtr);
    rowPtr[n] := index;
  }

  /**
   * The loop of `create_matrix` over the nonzeros: `cols` and `vals` get the
   * encoded nonzeros, every row the row indices reach gets its pointer, and
   * the other pointers keep the buffer's contents.
   */
  method FillAll(mode: Mode, columns: seq<bv32>, rows: seq<bv32>, values: seq<bv64>,
                 cols: array<bv32>, vals: array<bv64>, rowPtr: array<bv32>)
    returns (index: bv32)
    requires |rows| == |columns| && |values| == |columns| && |columns| < 0x8000_0000
    requires cols.Length == |columns| && vals.Length == |columns| && cols != rowPtr && vals as object != rowPtr
    requires forall k :: 0 <= k < |rows| ==> rows[k] as int < rowPtr.Length
    modifies cols, vals, rowPtr
    ensures index as int == |columns|
    ensures cols[..] == EncodeCols(mode, columns, values) && vals[..] == values
    ensures Reach(Ints(rows)) <= rowPtr.Length
    ensures forall r :: 0 <= r < Reach(Ints(rows)) ==> rowPtr[r] as int == FirstAtLeast(Ints(rows), r)
    ensures forall r :: Reach(Ints(rows)) <= r < rowPtr.Length ==> rowPtr[r] == old(rowPtr[r])
  {
    ghost var buffer := rowPtr[..];
    ghost var enc := EncodeCols(mode, columns, values);
    var nextRow: nat := 0;
    index := 0;  // the `uint32_t` that `i` converts to when stored
    for i := 0 to |columns|
      invariant Filling(mode, columns, rows, values, cols, vals, rowPtr, buffer, enc, nextRow, i, index)
    {
      nextRow, index := FillStep(mode, columns, rows, values, cols, vals, rowPtr, buffer, enc, nextRow, i, index);
    }
    Filled(mode, columns, rows, values, cols, vals, rowPtr, buffer, enc, nextRow, index);
  }

  /** The first `i` nonzeros are in place: encoded column words and their values. */
  ghost predicate Stored(enc: seq<bv32>, values: seq<bv64>, cols: array<bv32>, vals: array<bv64>, i: nat)
    requires i <= |enc| == |values| == cols.Length == vals.Length
    reads cols, vals
  {
    forall j :: 0 <= j < i ==> cols[j] == enc[j] && vals[j] == values[j]
  }

  /** The state of `create_matrix` after the first `i` nonzeros, `index` the counter as stored. */
  ghost predicate Filling(mode: Mode, columns: seq<bv32>, rows: seq<bv32>, values: seq<bv64>,
                          cols: array<bv32>, vals: array<bv64>, rowPtr: array<bv32>, buffer: seq<bv32>,
                          enc: seq<bv32>, nextRow: nat, i: nat, index: bv32)
    reads cols, vals, rowPtr
  {
    |rows| == |values| == |columns| == cols.Length == vals.Length && |columns| < 0x8000_0000 &&
    i <= |columns| && index as int == i &&
    cols != rowPtr && vals as object != rowPtr && |buffer| == rowPtr.Length &&
    (forall k :: 0 <= k < |rows| ==> rows[k] as int < rowPtr.Length) &&
    enc == EncodeCols(mode, columns, values) &&
    Stored(enc, values, cols, vals, i) && Pointed(Ints(rows), buffer, rowPtr, nextRow, i)
  }

  /** The body of the fill loop for nonzero `i`: copy it, point the rows it reaches at it, count it. */
  method FillStep(mode: Mode, columns: seq<bv32>, rows: seq<bv32>, values: seq<bv64>,
                  cols: array<bv32>, vals: array<bv64>, rowPtr: array<bv32>, ghost buffer: seq<bv32>,
                  ghost enc: seq<bv32>, nextRow: nat, i: nat, index: bv32)
    returns (next: nat, index': bv32)
    requires Filling(mode, columns, rows, values, cols, vals, rowPtr, buffer, enc, nextRow, i, index)
    requires i < |columns|
    modifies cols, vals, rowPtr
    ensures Filling(mode, columns, rows, values, cols, vals, rowPtr, buffer, enc, next, i + 1, index')
  {
    StoreNonzero(mode, columns, values, cols, vals, enc, i);
    next := PointRows(Ints(rows), rowPtr, nextRow, i, rows[i] as int, index);
    index' := Increment(index);
  }

  /** After the last nonzero: the arrays are the encoded input, and every pointer reached is set. */
  lemma Filled(mode: Mode, columns: seq<bv32>, rows: seq<bv32>, values: seq<bv64>,
               cols: array<bv32>, vals: array<bv64>, rowPtr: array<bv32>, buffer: seq<bv32>,
               enc: seq<bv32>, nextRow: nat, index: bv32)
    requires Filling(mode, columns, rows, values, cols, vals, rowPtr, buffer, enc, nextRow, |columns|, index)
    ensures cols[..] == EncodeCols(mode, columns, values) && vals[..] == values
    ensures nextRow == Reach(Ints(rows)) && nextRow <= rowPtr.Length
    ensures forall r :: 0 <= r < nextRow ==> rowPtr[r] as int == FirstAtLeast(Ints(rows), r)
    ensures forall r :: nextRow <= r < rowPtr.Length ==> rowPtr[r] == buffer[r]
  {
    assert Ints(rows)[..|columns|] == Ints(rows);
    assert Stored(enc, values, cols, vals, |columns|);
  }

  /** The copy step of nonzero `i`: its column word encoded, its value as read. */
  method StoreNonzero(mode: Mode, columns: seq<bv32>, values: seq<bv64>, cols: array<bv32>, vals: array<bv64>,
                      ghost enc: seq<bv32>, i: nat)
    requires |values| == |columns| == cols.Length == vals.Length && i < |columns|
    requires |enc| == |columns| && enc[i] == Encode(mode, Colval(values[i], columns[i])).col
    requires Stored(enc, values, cols, vals, i)
    modifies cols, vals
    ensures Stored(enc, values, cols, vals, i + 1)
  {
    var element := GenerateEccBits(mode, Colval(values[i], columns[i]));
    EncodeWords(mode, Colval(values[i], columns[i]));
    cols[i] := element.col;
    vals[i] := element.value;
  }

  /**
   * After the first `i` nonzeros the fill loop has reached `nextRow`: the
   * pointers below it are set, those from it on still hold the buffer's contents.
   */
  ghost predicate Pointed(rs: seq<int>, buffer: seq<bv32>, rowPtr: array<bv32>, nextRow: nat, i: nat)
    requires i <= |rs| && |buffer| == rowPtr.Length
    reads rowPtr
  {
    nextRow == Reach(rs[..i]) && nextRow <= rowPtr.Length &&
    (forall r :: 0 <= r < nextRow ==> rowPtr[r] as int == FirstAtLeast(rs, r)) &&
    (forall r :: nextRow <= r < rowPtr.Length ==> rowPtr[r] == buffer[r])
  }

  /**
   * The row-pointer step of nonzero `i`: with the pointers below `nextRow`
   * those of `rows[..i]`, the fill loop extends them to `rows[..i+1]`.
   */
  method PointRows(ghost rs: seq<int>, rowPtr: array<bv32>, nextRow: nat, i: nat, row: nat, index: bv32)
    returns (next: nat)
    requires i < |rs| && row == rs[i] && index as int == i
    requires nextRow == Reach(rs[..i]) && nextRow <= rowPtr.Length && row < rowPtr.Length
    requires forall r :: 0 <= r < nextRow ==> rowPtr[r] as int == FirstAtLeast(rs, r)
    modifies rowPtr
    ensures next == Reach(rs[..i + 1]) && nextRow <= next <= rowPtr.Length
    ensures forall r :: 0 <= r < next ==> rowPtr[r] as int == FirstAtLeast(rs, r)
    ensures forall r :: next <= r < rowPtr.Length ==> rowPtr[r] == old(rowPtr[r])
  {
    ReachNext(rs, i);
    FirstAtRange(rs, i);
    next := AdvanceRows(rowPtr, nextRow, row, index);
  }

  /** The rows first reached by nonzero `i` all start at `i`. */
  lemma FirstAtRange(rs: seq<int>, i: nat)
    requires i < |rs|
    ensures forall r :: Reach(rs[..i]) <= r <= rs[i] ==> FirstAtLeast(rs, r) == i
  {
    forall r | Reach(rs[..i]) <= r <= rs[i]
      ensures FirstAtLeast(rs, r) == i
    {
      FirstAtIndex(rs, i, r);
    }
  }

  /** Row indices that never decrease, as the loaders' sort leaves them. */
  predicate Sorted(rs: seq<int>)
  {
    forall i, j :: 0 <= i < j < |rs| ==> rs[i] <= rs[j]
  }

  /** The number of nonzeros whose row index is below `r`. */
  function CountBelow(rs: seq<int>, r: int): nat
  {
    if |rs| == 0 then 0 else (if rs[0] < r then 1 else 0) + CountBelow(rs[1..], r)
  }

  /** For sorted row indices, the first nonzero at row `r` or later is preceded by exactly the nonzeros of the rows before. */
  lemma {:induction false} SortedPointer(rs: seq<int>, r: int)
    requires Sorted(rs)
    ensures FirstAtLeast(rs, r) == CountBelow(rs, r)
    decreases |rs|
  {
    if |rs| > 0 {
      assert Sorted(rs[1..]) by {
        forall i, j | 0 <= i < j < |rs[1..]| ensures rs[1..][i] <= rs[1..][j] {
          assert rs[1..][i] == rs[i + 1] && rs[1..][j] == rs[j + 1];
        }
      }
      SortedPointer(rs[1..], r);
      if rs[0] >= r {
        NoneBelow(rs[1..], r);
      }
    }
  }

  /** With every row index at least `r`, none of them is below `r`. */
  lemma {:induction false} NoneBelow(rs: seq<int>, r: int)
    requires forall i :: 0 <= i < |rs| ==> rs[i] >= r
    ensures CountBelow(rs, r) == 0
    decreases |rs|
  {
    if |rs| > 0 {
      assert forall i :: 0 <= i < |rs[1..]| ==> rs[1..][i] == rs[i + 1];
      NoneBelow(rs[1..], r);
    }
  }

  /**
   * For sorted row indices the pointers of row r and r+1 bound exactly the
   * nonzeros of row r.
   */
  lemma RowMembership(rs: seq<int>, r: int, k: nat)
    requires Sorted(rs) && k < |rs|
    ensures (FirstAtLeast(rs, r) <= k < FirstAtLeast(rs, r + 1)) == (rs[k] == r)
  {
    var lo := FirstAtLeast(rs, r);
    var hi := FirstAtLeast(rs, r + 1);
    if rs[k] == r && hi < k {
      assert false;
    } else if rs[k] != r && lo < k < hi {
      assert false;
    }
  }

  /** The pointer one past the last row reached is nnz, which `rows[N] = nnz` stores when the last row is not empty. */
  lemma FirstAtReach(rs: seq<int>)
    ensures FirstAtLeast(rs, Reach(rs)) == |rs|
  {}
}
