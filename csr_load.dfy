/**
 * What `load_sparse_matrix` (CSR/common.c) does once the entries are read:
 * every entry below or above the diagonal is stored with its mirror image,
 * the elements are sorted by row and then by column, the matrix is repeated
 * `num_blocks` times along the diagonal while the row pointers are built,
 * and the column words are encoded for the protection mode. Reading the
 * file is not part of this model: its entries are a parameter, and so is
 * the order `qsort` leaves.
 */
module CsrLoad {
  import opened Bits
  import opened Modes
  import opened CsrBuild

  /** `uint32_t`. */
  newtype uint32 = x: int | 0 <= x < 0x1_0000_0000

  /** An entry as the loader reads it: 1-based column and row, and the bits of the value. */
  datatype Entry = Entry(col: int, row: int, value: bv64)

  /** `coo_element`: 0-based column and row as `uint32_t`, and the value. */
  datatype CooElement = CooElement(col: uint32, row: uint32, value: bv64)

  /** An `int` stored into a `uint32_t`: reduced modulo 2^32. */
  function Wrap(x: int): (w: uint32)
    ensures 0 <= x < 0x1_0000_0000 ==> w as int == x
  {
    (x % 0x1_0000_0000) as uint32
  }

  /** `col--; row--;` and the element the loader builds from an entry. */
  function Read(e: Entry): CooElement
  {
    CooElement(Wrap(e.col - 1), Wrap(e.row - 1), e.value)
  }

  /** The element with column and row swapped. */
  function Transpose(x: CooElement): CooElement
  {
    CooElement(x.row, x.col, x.value)
  }

  /** What one entry adds: its element, and the mirror image when it is off the diagonal. */
  function Pair(e: Entry): seq<CooElement>
  {
    if Read(e).col == Read(e).row then [Read(e)] else [Read(e), Transpose(Read(e))]
  }

  /** The elements the read loop stores for `entries`, in order. */
  function Mirrored(entries: seq<Entry>): (m: seq<CooElement>)
    ensures |entries| <= |m| <= 2 * |entries|
  {
    if |entries| == 0 then [] else Mirrored(entries[..|entries| - 1]) + Pair(entries[|entries| - 1])
  }

  /**
   * The read loop after the entries are read: `elements[coo_nnz++] =
   * element`, and again with column and row swapped unless they are equal,
   * into a buffer of twice the entries.
   */
  method Mirror(entries: seq<Entry>) returns (elements: array<CooElement>, count: nat)
    ensures fresh(elements) && elements.Length == 2 * |entries|
    ensures count <= elements.Length && elements[..count] == Mirrored(entries)
  {
    elements := new CooElement[2 * |entries|](_ => CooElement(0, 0, 0));
    count := 0;
    for i := 0 to |entries|
      invariant count <= 2 * i && elements[..count] == Mirrored(entries[..i])
    {
      count := MirrorOne(entries, i, elements, count);
    }
    assert entries[..|entries|] == entries;
  }

  /** One round of the read loop: entry `i` stored, and its mirror image when it is off the diagonal. */
  method MirrorOne(entries: seq<Entry>, i: nat, elements: array<CooElement>, count: nat) returns (count': nat)
    requires i < |entries| && elements.Length == 2 * |entries|
    requires count <= 2 * i && elements[..count] == Mirrored(entries[..i])
    modifies elements
    ensures count' <= 2 * (i + 1) && elements[..count'] == Mirrored(entries[..i + 1])
  {
    assert entries[..i + 1][..i] == entries[..i];
    var element := Read(entries[i]);
    elements[count] := element;
    count' := count + 1;
    if element.col != element.row {
      elements[count'] := Transpose(element);
      count' := count' + 1;
    }
  }

  /**
   * The elements of the mirrored matrix are exactly the entries read and
   * their mirror images.
   */
  lemma {:induction false} MirrorMembers(entries: seq<Entry>, x: CooElement)
    ensures x in Mirrored(entries) <==> exists i :: 0 <= i < |entries| && Source(entries[i], x)
  {
    if |entries| > 0 {
      var init := entries[..|entries| - 1];
      MirrorMembers(init, x);
      MirrorLast(entries, x);
      SourceLast(entries, init, x);
    }
  }

  /** `x` is the element entry `e` stores, or its mirror image. */
  predicate Source(e: Entry, x: CooElement)
  {
    x == Read(e) || x == Transpose(Read(e))
  }

  /** The last entry adds its element and its mirror image to those of the entries before it. */
  lemma MirrorLast(entries: seq<Entry>, x: CooElement)
    requires |entries| > 0
    ensures x in Mirrored(entries) <==> x in Mirrored(entries[..|entries| - 1]) || Source(entries[|entries| - 1], x)
  {
    var last := entries[|entries| - 1];
    assert Mirrored(entries) == Mirrored(entries[..|entries| - 1]) + Pair(last);
    assert x in Pair(last) <==> Source(last, x);
  }

  /** Some entry is the source of `x` when one before the last is, or the last is. */
  lemma SourceLast(entries: seq<Entry>, init: seq<Entry>, x: CooElement)
    requires |entries| > 0 && init == entries[..|entries| - 1]
    ensures (exists i :: 0 <= i < |entries| && Source(entries[i], x)) <==>
            (exists i :: 0 <= i < |init| && Source(init[i], x)) || Source(entries[|entries| - 1], x)
  {
    if exists i :: 0 <= i < |entries| && Source(entries[i], x) {
      var i :| 0 <= i < |entries| && Source(entries[i], x);
      if i < |init| {
        assert Source(init[i], x);
      }
    }
    if exists i :: 0 <= i < |init| && Source(init[i], x) {
      var i :| 0 <= i < |init| && Source(init[i], x);
      assert Source(entries[i], x);
    }
  }

  /** The mirrored matrix is symmetric in its pattern and its values. */
  lemma MirrorSymmetric(entries: seq<Entry>, x: CooElement)
    requires x in Mirrored(entries)
    ensures Transpose(x) in Mirrored(entries)
  {
    MirrorMembers(entries, x);
    var i :| 0 <= i < |entries| && Source(entries[i], x);
    MirrorMembers(entries, Transpose(x));
  }

  /** `(int)` of a `uint32_t`: the two's complement reading of the word. */
  function Signed(x: uint32): int
  {
    if x < 0x8000_0000 then x as int else x as int - 0x1_0000_0000
  }

  /**
   * `compare_matrix_elements`: -1 or 1 when the rows differ, else the
   * `uint32_t` difference of the columns returned as an `int`.
   */
  function Compare(a: CooElement, b: CooElement): int
  {
    if a.row < b.row then -1
    else if a.row > b.row then 1
    else Signed(Wrap(a.col as int - b.col as int))
  }

  /**
   * For column indices below 2^31, which are all a matrix of `int` order can
   * hold, the sign of `Compare` is the order by row and then by column.
   */
  lemma CompareOrder(a: CooElement, b: CooElement)
    requires a.col < 0x8000_0000 && b.col < 0x8000_0000
    ensures (Compare(a, b) < 0) == (a.row < b.row || (a.row == b.row && a.col < b.col))
    ensures (Compare(a, b) == 0) == (a.row == b.row && a.col == b.col)
    ensures (Compare(a, b) > 0) == (a.row > b.row || (a.row == b.row && a.col > b.col))
  {}

  /**
   * A column index of 2^31 or more, such as the column 0 of a 1-based file,
   * which becomes 2^32 - 1, compares below column 0 of the same row.
   */
  lemma CompareWraps()
    ensures Read(Entry(0, 1, 0)).col == 0xFFFF_FFFF
    ensures Compare(Read(Entry(0, 1, 0)), Read(Entry(1, 1, 0))) == -1
  {}

  /** What `qsort` with `compare_matrix_elements` leaves: no element compares below an earlier one. */
  predicate Ordered(s: seq<CooElement>)
  {
    forall i, j :: 0 <= i < j < |s| ==> Compare(s[i], s[j]) <= 0
  }

  /** The row indices, the column indices and the values of the elements. */
  function RowsOf(s: seq<CooElement>): (rs: seq<int>)
    ensures |rs| == |s| && forall i :: 0 <= i < |s| ==> rs[i] == s[i].row as int
  {
    seq(|s|, i requires 0 <= i < |s| => s[i].row as int)
  }

  /** The column words `M.cols` receives. */
  function ColsOf(s: seq<CooElement>): (cs: seq<bv32>)
    ensures |cs| == |s| && forall i :: 0 <= i < |s| ==> cs[i] == s[i].col as bv32
  {
    seq(|s|, i requires 0 <= i < |s| => s[i].col as bv32)
  }

  function ValuesOf(s: seq<CooElement>): (vs: seq<bv64>)
    ensures |vs| == |s| && forall i :: 0 <= i < |s| ==> vs[i] == s[i].value
  {
    seq(|s|, i requires 0 <= i < |s| => s[i].value)
  }

  /** Sorted elements have row indices that never decrease, whatever their columns. */
  lemma OrderedRows(s: seq<CooElement>)
    requires Ordered(s)
    ensures Sorted(RowsOf(s))
  {
    forall i, j | 0 <= i < j < |s|
      ensures RowsOf(s)[i] <= RowsOf(s)[j]
    {
      assert Compare(s[i], s[j]) <= 0;
    }
  }

  /** Element `x` in block `j` of a matrix of order `n`: both indices moved by `j * n`, as `uint32_t` sums. */
  function Shift(x: CooElement, j: nat, n: nat): CooElement
  {
    CooElement(Wrap(x.col as int + j * n), Wrap(x.row as int + j * n), x.value)
  }

  /** The elements of `blocks` copies of `s` along the diagonal, block after block. */
  function Replicate(s: seq<CooElement>, blocks: nat, n: nat): (r: seq<CooElement>)
    ensures |r| == blocks * |s|
  {
    if blocks == 0 then []
    else Replicate(s, blocks - 1, n) + seq(|s|, i requires 0 <= i < |s| => Shift(s[i], blocks - 1, n))
  }

  /** `j * c + i` for `i < c` and `j < blocks` lies below `blocks * c`. */
  lemma BlockIndex(blocks: nat, c: nat, j: nat, i: nat)
    requires j < blocks && i < c
    ensures j * c + i < blocks * c
  {
    assert (j + 1) * c <= blocks * c;
  }

  /** Element `i` of block `j` is the `j * |s| + i`-th of the replicated matrix. */
  lemma {:induction false} ReplicateAt(s: seq<CooElement>, blocks: nat, n: nat, j: nat, i: nat)
    requires j < blocks && i < |s|
    ensures j * |s| + i < blocks * |s|
    ensures Replicate(s, blocks, n)[j * |s| + i] == Shift(s[i], j, n)
    decreases blocks
  {
    BlockIndex(blocks, |s|, j, i);
    if j < blocks - 1 {
      ReplicateAt(s, blocks - 1, n, j, i);
    } else {
      assert j * |s| == (blocks - 1) * |s|;
    }
  }

  /** With row indices below `n` and `blocks * n` below 2^32, block `j` has the row indices of `s` moved by `j * n`. */
  lemma ShiftRow(x: CooElement, j: nat, blocks: nat, n: nat)
    requires x.row as int < n && j < blocks && blocks * n < 0x1_0000_0000
    ensures Shift(x, j, n).row as int == x.row as int + j * n < (j + 1) * n <= blocks * n
  {
    RowInBlock(x.row as int, j, blocks, n);
  }

  /** Row `r` of block `j` lies in that block's rows, below `blocks * n`. */
  lemma RowInBlock(r: nat, j: nat, blocks: nat, n: nat)
    requires r < n && j < blocks && blocks * n < 0x1_0000_0000
    ensures r + j * n < (j + 1) * n <= blocks * n < 0x1_0000_0000
  {
    NextBlock(n, j);
    MulMonotone(j + 1, blocks, n);
  }

  /** Fewer blocks of `n` rows take no more rows. */
  lemma {:induction false} MulMonotone(a: nat, b: nat, n: nat)
    requires a <= b
    ensures a * n <= b * n
    decreases b - a
  {
    if a < b {
      MulMonotone(a, b - 1, n);
      NextBlock(n, b - 1);
    }
  }

  /**
   * Repeating a matrix of order `n` whose rows are sorted keeps the rows
   * sorted: each block's rows lie above those of the blocks before.
   */
  lemma ReplicateSorted(s: seq<CooElement>, blocks: nat, n: nat)
    requires Sorted(RowsOf(s)) && blocks * n < 0x1_0000_0000
    requires forall i :: 0 <= i < |s| ==> s[i].row as int < n
    ensures Sorted(RowsOf(Replicate(s, blocks, n)))
  {
    var r := Replicate(s, blocks, n);
    forall p, q | 0 <= p < q < |r|
      ensures RowsOf(r)[p] <= RowsOf(r)[q]
    {
      ReplicatedPair(s, blocks, n, p, q);
    }
  }

  /** Two positions of the replicated matrix, in order, have their rows in order. */
  lemma ReplicatedPair(s: seq<CooElement>, blocks: nat, n: nat, p: nat, q: nat)
    requires Sorted(RowsOf(s)) && blocks * n < 0x1_0000_0000
    requires forall i :: 0 <= i < |s| ==> s[i].row as int < n
    requires p < q < blocks * |s|
    ensures RowsOf(Replicate(s, blocks, n))[p] <= RowsOf(Replicate(s, blocks, n))[q]
  {
    var c := |s|;
    BlockOf(blocks, c, p);
    BlockOf(blocks, c, q);
    BlockOrder(c, p / c, p % c, q / c, q % c, p, q);
    BlockRowsOrdered(s, blocks, n, p / c, p % c, q / c, q % c);
  }

  /** Element `ip` of block `jp` comes, row-wise, no later than element `iq` of a later block `jq`, or of the same block with `ip < iq`. */
  lemma BlockRowsOrdered(s: seq<CooElement>, blocks: nat, n: nat, jp: nat, ip: nat, jq: nat, iq: nat)
    requires Sorted(RowsOf(s)) && blocks * n < 0x1_0000_0000
    requires forall i :: 0 <= i < |s| ==> s[i].row as int < n
    requires jp < blocks && jq < blocks && ip < |s| && iq < |s| && (jp < jq || (jp == jq && ip < iq))
    ensures jp * |s| + ip < blocks * |s| && jq * |s| + iq < blocks * |s|
    ensures RowsOf(Replicate(s, blocks, n))[jp * |s| + ip] <= RowsOf(Replicate(s, blocks, n))[jq * |s| + iq]
  {
    BlockRowAt(s, blocks, n, jp, ip);
    BlockRowAt(s, blocks, n, jq, iq);
    if jp < jq {
      BlockRows(n, jp, jq, s[ip].row as int, s[iq].row as int);
    } else {
      assert RowsOf(s)[ip] <= RowsOf(s)[iq];
    }
  }

  /** The row of element `i` of block `j` of the replicated matrix: that of `s[i]` moved down by `j` blocks. */
  lemma BlockRowAt(s: seq<CooElement>, blocks: nat, n: nat, j: nat, i: nat)
    requires blocks * n < 0x1_0000_0000 && forall k :: 0 <= k < |s| ==> s[k].row as int < n
    requires j < blocks && i < |s|
    ensures j * |s| + i < blocks * |s|
    ensures RowsOf(Replicate(s, blocks, n))[j * |s| + i] == s[i].row as int + j * n
  {
    ReplicateAt(s, blocks, n, j, i);
    ShiftRow(s[i], j, blocks, n);
  }

  /** Position `p` of the replicated matrix: the row of element `p % |s|` moved down by `p / |s|` blocks. */
  lemma ReplicatedRow(s: seq<CooElement>, blocks: nat, n: nat, p: nat)
    requires p < blocks * |s| && blocks * n < 0x1_0000_0000
    requires forall i :: 0 <= i < |s| ==> s[i].row as int < n
    ensures |s| > 0 && p / |s| < blocks && p % |s| < |s| && p == (p / |s|) * |s| + p % |s|
    ensures RowsOf(Replicate(s, blocks, n))[p] == s[p % |s|].row as int + (p / |s|) * n
  {
    BlockOf(blocks, |s|, p);
    ReplicateAt(s, blocks, n, p / |s|, p % |s|);
    ShiftRow(s[p % |s|], p / |s|, blocks, n);
  }

  /** A row of an earlier block lies above every row of a later one. */
  lemma BlockRows(n: nat, jp: nat, jq: nat, x: int, y: int)
    requires 0 <= x < n && 0 <= y && jp < jq
    ensures x + jp * n < y + jq * n
  {
    BlockAfter(n, jp, jq);
  }

  /** Position `p` of the replicated matrix is element `p % c` of block `p / c`. */
  lemma BlockOf(blocks: nat, c: nat, p: nat)
    requires p < blocks * c
    ensures c > 0 && p / c < blocks && p % c < c && p == (p / c) * c + p % c
  {
    if c == 0 {
      assert false;
    }
    if p / c >= blocks {
      assert false;
    }
  }

  /** An earlier position lies in the same block or an earlier one. */
  lemma BlockOrder(c: nat, jp: nat, ip: nat, jq: nat, iq: nat, p: nat, q: nat)
    requires ip < c && iq < c && p == jp * c + ip && q == jq * c + iq && p < q
    ensures jp < jq || (jp == jq && ip < iq)
  {
    if jp > jq {
      BlockAfter(c, jq, jp);
      assert false;
    }
  }

  /** A later block starts at least one block further on. */
  lemma {:induction false} BlockAfter(c: nat, j: nat, k: nat)
    requires j < k
    ensures j * c + c <= k * c
  {
    if k > j + 1 {
      BlockAfter(c, j, k - 1);
    }
  }

  /**
   * The replication loop of `load_sparse_matrix` for the sorted elements
   * `sorted` of a matrix of order `n`: fresh `cols` and `values` holding the
   * replicated elements, and the row pointers written into `rowPtr`, the
   * buffer of `num_blocks * n + 1` words whose contents C leaves undefined.
   * Pointer r, for every row r the elements reach, is the first element of
   * row r or later; the others before pointer N keep what the buffer held;
   * pointer N is nnz.
   */
  method Replicated(sorted: seq<CooElement>, blocks: nat, n: nat, rowPtr: array<bv32>)
    returns (cols: array<bv32>, values: array<bv64>, nnz: nat)
    requires rowPtr.Length == blocks * n + 1 && blocks * n < 0x8000_0000 && blocks * |sorted| < 0x8000_0000
    requires forall i :: 0 <= i < |sorted| ==> sorted[i].row as int < n
    modifies rowPtr
    ensures fresh(cols) && fresh(values) && nnz == blocks * |sorted|
    ensures cols[..] == ColsOf(Replicate(sorted, blocks, n)) && values[..] == ValuesOf(Replicate(sorted, blocks, n))
    ensures RowPointers(RowsOf(Replicate(sorted, blocks, n)), old(rowPtr[..]), rowPtr[..], blocks * n)
  {
    ghost var rs := RowsOf(Replicate(sorted, blocks, n));
    var index;
    cols, values, index := Fill(sorted, blocks, n, rowPtr);
    nnz := blocks * |sorted|;
    ReplicatedReach(sorted, blocks, n);
    ghost var before := rowPtr[..];
    SetLast(rowPtr, blocks * n, index);
    Close(rs, old(rowPtr[..]), before, rowPtr[..], blocks * n, index);
  }

  /** `M.rows[height*num_blocks] = M.nnz`. */
  method SetLast(rowPtr: array<bv32>, m: nat, index: bv32)
    requires m < rowPtr.Length
    modifies rowPtr
    ensures rowPtr[..] == old(rowPtr[..])[m := index]
  {
    rowPtr[m] := index;
  }

  /** The replication loops on fresh arrays: the replicated elements stored, the pointers the rows reach set. */
  method Fill(sorted: seq<CooElement>, blocks: nat, n: nat, rowPtr: array<bv32>)
    returns (cols: array<bv32>, values: array<bv64>, index: bv32)
    requires rowPtr.Length == blocks * n + 1 && blocks * n < 0x8000_0000 && blocks * |sorted| < 0x8000_0000
    requires forall i :: 0 <= i < |sorted| ==> sorted[i].row as int < n
    modifies rowPtr
    ensures fresh(cols) && fresh(values) && index as int == blocks * |sorted|
    ensures cols[..] == ColsOf(Replicate(sorted, blocks, n)) && values[..] == ValuesOf(Replicate(sorted, blocks, n))
    ensures SetUpTo(RowsOf(Replicate(sorted, blocks, n)), old(rowPtr[..]), rowPtr[..])
  {
    ghost var flat := Replicate(sorted, blocks, n);
    ghost var rs := RowsOf(flat);
    ghost var buffer := rowPtr[..];
    cols := new bv32[blocks * |sorted|];
    values := new bv64[blocks * |sorted|];
    var nextRow, nnz;
    nextRow, index, nnz := PlaceAll(sorted, blocks, n, rowPtr, cols, values, flat, rs, buffer);
    Finished(flat, rs, rowPtr, cols, values, buffer, nextRow);
  }

  /**
   * The row pointers `ptrs` of `N + 1` words written over `buffer` for the
   * sorted row indices `rs` of `N` rows: pointer r, for every row r the
   * indices reach, is the first nonzero of row r or later; the others before
   * pointer N keep what the buffer held; pointer N is nnz.
   */
  ghost predicate RowPointers(rs: seq<int>, buffer: seq<bv32>, ptrs: seq<bv32>, m: nat)
  {
    |ptrs| == |buffer| == m + 1 && Reach(rs) <= m &&
    (forall r :: 0 <= r < Reach(rs) ==> ptrs[r] as int == FirstAtLeast(rs, r)) &&
    (forall r :: Reach(rs) <= r < m ==> ptrs[r] == buffer[r]) &&
    ptrs[m] as int == |rs|
  }

  /** The pointers the rows reach are set, the others still hold the buffer. */
  ghost predicate SetUpTo(rs: seq<int>, buffer: seq<bv32>, ptrs: seq<bv32>)
  {
    |ptrs| == |buffer| && Reach(rs) <= |ptrs| &&
    (forall r :: 0 <= r < Reach(rs) ==> ptrs[r] as int == FirstAtLeast(rs, r)) &&
    (forall r :: Reach(rs) <= r < |ptrs| ==> ptrs[r] == buffer[r])
  }

  /** `M.rows[height*num_blocks] = M.nnz` completes the row pointers. */
  lemma Close(rs: seq<int>, buffer: seq<bv32>, before: seq<bv32>, after: seq<bv32>, m: nat, index: bv32)
    requires SetUpTo(rs, buffer, before) && Reach(rs) <= m && |before| == m + 1
    requires after == before[m := index] && index as int == |rs|
    ensures RowPointers(rs, buffer, after, m)
  {
  }

  /** The two loops of the replication: every block, and in each block every element, placed in turn. */
  method PlaceAll(sorted: seq<CooElement>, blocks: nat, n: nat, rowPtr: array<bv32>, cols: array<bv32>,
                  values: array<bv64>, ghost flat: seq<CooElement>, ghost rs: seq<int>, ghost buffer: seq<bv32>)
    returns (nextRow: nat, index: bv32, nnz: nat)
    requires rowPtr.Length == blocks * n + 1 && blocks * n < 0x8000_0000 && blocks * |sorted| < 0x8000_0000
    requires forall k :: 0 <= k < |sorted| ==> sorted[k].row as int < n
    requires flat == Replicate(sorted, blocks, n) && rs == RowsOf(flat) && |buffer| == rowPtr.Length
    requires rowPtr as object != cols && rowPtr as object != values
    requires Placed(flat, cols, values, 0) && Pointed(rs, buffer, rowPtr, 0, 0)
    modifies rowPtr, cols, values
    ensures nnz == |flat| && index as int == nnz
    ensures Placed(flat, cols, values, |flat|) && Pointed(rs, buffer, rowPtr, nextRow, |flat|)
  {
    BlockBaseMul(blocks, |sorted|);
    nextRow, index, nnz := 0, 0, 0;
    for j := 0 to blocks
      invariant nnz == BlockBase(j, |sorted|) && index as int == nnz
      invariant Placed(flat, cols, values, nnz) && Pointed(rs, buffer, rowPtr, nextRow, nnz)
    {
      nextRow, index, nnz := PlaceNext(sorted, blocks, n, rowPtr, cols, values, flat, rs, buffer, nextRow, j, index, nnz);
    }
  }

  /** The body of the block loop: block `j` placed, the next block starting right after it. */
  method PlaceNext(sorted: seq<CooElement>, blocks: nat, n: nat, rowPtr: array<bv32>, cols: array<bv32>,
                   values: array<bv64>, ghost flat: seq<CooElement>, ghost rs: seq<int>, ghost buffer: seq<bv32>,
                   nextRow0: nat, j: nat, index0: bv32, base: nat)
    returns (nextRow: nat, index: bv32, nnz: nat)
    requires rowPtr.Length == blocks * n + 1 && blocks * n < 0x8000_0000 && |flat| < 0x8000_0000
    requires forall k :: 0 <= k < |sorted| ==> sorted[k].row as int < n
    requires flat == Replicate(sorted, blocks, n) && rs == RowsOf(flat) && |buffer| == rowPtr.Length
    requires rowPtr as object != cols && rowPtr as object != values
    requires j < blocks && base == BlockBase(j, |sorted|) && BlockBase(blocks, |sorted|) == |flat| && index0 as int == base
    requires Placed(flat, cols, values, base) && Pointed(rs, buffer, rowPtr, nextRow0, base)
    modifies rowPtr, cols, values
    ensures nnz == BlockBase(j + 1, |sorted|) && index as int == nnz
    ensures Placed(flat, cols, values, nnz) && Pointed(rs, buffer, rowPtr, nextRow, nnz)
  {
    BlockBaseBelow(j, blocks, |sorted|);
    nextRow, index, nnz := PlaceBlock(sorted, blocks, n, rowPtr, cols, values, flat, rs, buffer, nextRow0, j, index0, base);
  }

  /** Where block `j` of blocks of `c` elements starts, counted block by block. */
  function BlockBase(j: nat, c: nat): nat
  {
    if j == 0 then 0 else BlockBase(j - 1, c) + c
  }

  /** Counted block by block, block `j` starts at `j * c`. */
  lemma {:induction false} BlockBaseMul(j: nat, c: nat)
    ensures BlockBase(j, c) == j * c
  {
    if j > 0 {
      BlockBaseMul(j - 1, c);
      NextBlock(c, j - 1);
    }
  }

  /** A later block starts at least one block further on. */
  lemma {:induction false} BlockBaseBelow(j: nat, k: nat, c: nat)
    requires j < k
    ensures BlockBase(j, c) + c <= BlockBase(k, c)
  {
    if k > j + 1 {
      BlockBaseBelow(j, k - 1, c);
    }
  }

  /** The block after block `j` starts `c` further on. */
  lemma NextBlock(c: nat, j: nat)
    ensures (j + 1) * c == j * c + c
  {
  }

  /** The inner loop of the replication: the elements of block `j`, from position `base` on. */
  method PlaceBlock(sorted: seq<CooElement>, blocks: nat, n: nat, rowPtr: array<bv32>, cols: array<bv32>,
                    values: array<bv64>, ghost flat: seq<CooElement>, ghost rs: seq<int>, ghost buffer: seq<bv32>,
                    nextRow0: nat, j: nat, index0: bv32, base: nat)
    returns (nextRow: nat, index: bv32, nnz: nat)
    requires rowPtr.Length == blocks * n + 1 && blocks * n < 0x8000_0000 && |flat| < 0x8000_0000
    requires forall k :: 0 <= k < |sorted| ==> sorted[k].row as int < n
    requires flat == Replicate(sorted, blocks, n) && rs == RowsOf(flat) && |buffer| == rowPtr.Length
    requires rowPtr as object != cols && rowPtr as object != values
    requires j < blocks && base == BlockBase(j, |sorted|) && base + |sorted| <= |flat| && index0 as int == base
    requires Placed(flat, cols, values, base) && Pointed(rs, buffer, rowPtr, nextRow0, base)
    modifies rowPtr, cols, values
    ensures nnz == base + |sorted| && index as int == nnz
    ensures Placed(flat, cols, values, nnz) && Pointed(rs, buffer, rowPtr, nextRow, nnz)
  {
    nextRow, index, nnz := nextRow0, index0, base;
    for i := 0 to |sorted|
      invariant nnz == base + i && index as int == nnz
      invariant Placed(flat, cols, values, nnz) && Pointed(rs, buffer, rowPtr, nextRow, nnz)
    {
      nextRow := Place(sorted, blocks, n, rowPtr, cols, values, flat, rs, buffer, nextRow, j, i, nnz, index);
      index := Increment(index);
      nnz := nnz + 1;
    }
  }

  /** The first `k` replicated elements are in place. */
  ghost predicate Placed(flat: seq<CooElement>, cols: array<bv32>, values: array<bv64>, k: nat)
    reads cols, values
  {
    k <= |flat| == cols.Length == values.Length &&
    forall p :: 0 <= p < k ==> cols[p] == flat[p].col as bv32 && values[p] == flat[p].value
  }

  /**
   * The body of the replication loop for element `i` of block `j`, the
   * `index`-th element stored: point the rows it reaches at it, and store
   * its shifted column and its value.
   */
  method Place(sorted: seq<CooElement>, blocks: nat, n: nat, rowPtr: array<bv32>, cols: array<bv32>,
               values: array<bv64>, ghost flat: seq<CooElement>, ghost rs: seq<int>, ghost buffer: seq<bv32>,
               nextRow: nat, j: nat, i: nat, k: nat, index: bv32)
    returns (next: nat)
    requires rowPtr.Length == blocks * n + 1 && blocks * n < 0x8000_0000
    requires forall k :: 0 <= k < |sorted| ==> sorted[k].row as int < n
    requires flat == Replicate(sorted, blocks, n) && rs == RowsOf(flat)
    requires j < blocks && i < |sorted| && k == BlockBase(j, |sorted|) + i && index as int == k && |buffer| == rowPtr.Length
    requires rowPtr as object != cols && rowPtr as object != values
    requires Placed(flat, cols, values, k) && Pointed(rs, buffer, rowPtr, nextRow, k)
    modifies rowPtr, cols, values
    ensures Placed(flat, cols, values, k + 1) && Pointed(rs, buffer, rowPtr, next, k + 1)
  {
    var e := Shift(sorted[i], j, n);
    ElementAt(sorted, blocks, n, flat, rs, j, i, k);
    next := PointRows(rs, rowPtr, nextRow, k, e.row as int, index);
    Store(flat, cols, values, k, e.col, e.value);
  }

  /** Element `i` of block `j`, the `k`-th stored, lies in the replicated matrix, its row below `blocks * n`. */
  lemma ElementAt(sorted: seq<CooElement>, blocks: nat, n: nat, flat: seq<CooElement>, rs: seq<int>, j: nat, i: nat, k: nat)
    requires blocks * n < 0x8000_0000 && forall p :: 0 <= p < |sorted| ==> sorted[p].row as int < n
    requires flat == Replicate(sorted, blocks, n) && rs == RowsOf(flat)
    requires j < blocks && i < |sorted| && k == BlockBase(j, |sorted|) + i
    ensures k < |flat| && rs[k] == flat[k].row as int < blocks * n
    ensures flat[k] == Shift(sorted[i], j, n)
  {
    BlockBaseMul(j, |sorted|);
    ReplicateAt(sorted, blocks, n, j, i);
    ShiftRow(sorted[i], j, blocks, n);
  }

  /** The column word and the value of the `k`-th replicated element stored. */
  method Store(ghost flat: seq<CooElement>, cols: array<bv32>, values: array<bv64>, k: nat, col: uint32, value: bv64)
    requires k < |flat| && flat[k].col == col && flat[k].value == value && Placed(flat, cols, values, k)
    modifies cols, values
    ensures Placed(flat, cols, values, k + 1)
  {
    cols[k] := col as bv32;
    values[k] := value;
  }

  /** After the last element: every pointer the rows reach is set, the others still hold the buffer. */
  lemma Finished(flat: seq<CooElement>, rs: seq<int>, rowPtr: array<bv32>, cols: array<bv32>,
                 values: array<bv64>, buffer: seq<bv32>, nextRow: nat)
    requires rs == RowsOf(flat) && |buffer| == rowPtr.Length
    requires Placed(flat, cols, values, |flat|) && Pointed(rs, buffer, rowPtr, nextRow, |flat|)
    ensures cols[..] == ColsOf(flat) && values[..] == ValuesOf(flat)
    ensures nextRow == Reach(rs) && SetUpTo(rs, buffer, rowPtr[..])
  {
    assert rs[..|flat|] == rs;
  }

  /** No row index reaches past the `blocks * n` rows of the replicated matrix. */
  lemma ReplicatedRowsBelow(s: seq<CooElement>, blocks: nat, n: nat)
    requires blocks * n < 0x1_0000_0000 && forall i :: 0 <= i < |s| ==> s[i].row as int < n
    ensures forall p :: 0 <= p < blocks * |s| ==> RowsOf(Replicate(s, blocks, n))[p] < blocks * n
  {
    forall p | 0 <= p < blocks * |s|
      ensures RowsOf(Replicate(s, blocks, n))[p] < blocks * n
    {
      ReplicatedRow(s, blocks, n, p);
      ShiftRow(s[p % |s|], p / |s|, blocks, n);
    }
  }

  /** The replicated rows reach at most the `blocks * n` row pointers. */
  lemma ReplicatedReach(s: seq<CooElement>, blocks: nat, n: nat)
    requires blocks * n < 0x1_0000_0000 && forall i :: 0 <= i < |s| ==> s[i].row as int < n
    ensures Reach(RowsOf(Replicate(s, blocks, n))) <= blocks * n
  {
    ReplicatedRowsBelow(s, blocks, n);
    ReachAtMost(RowsOf(Replicate(s, blocks, n)), blocks * n);
  }

  /** Row indices below `m` reach at most `m` pointers. */
  lemma {:induction false} ReachAtMost(rs: seq<int>, m: nat)
    requires forall i :: 0 <= i < |rs| ==> rs[i] < m
    ensures Reach(rs) <= m
  {
    if |rs| > 0 {
      var init := rs[..|rs| - 1];
      assert forall i :: 0 <= i < |init| ==> init[i] == rs[i];
      ReachAtMost(init, m);
    }
  }

  /** Entries of a matrix of order `n`: 1-based indices from 1 to `n`. */
  predicate InRange(entries: seq<Entry>, n: nat)
  {
    forall i :: 0 <= i < |entries| ==> 1 <= entries[i].col <= n && 1 <= entries[i].row <= n
  }

  /** Every element the read loop stores for such entries has its 0-based indices below `n`. */
  lemma MirroredBelow(entries: seq<Entry>, n: nat, x: CooElement)
    requires InRange(entries, n) && n < 0x1_0000_0000 && x in Mirrored(entries)
    ensures x.row as int < n && x.col as int < n
  {
    MirrorMembers(entries, x);
    var i :| 0 <= i < |entries| && Source(entries[i], x);
  }

  /** So has every element of any order of them. */
  lemma SortedBelow(entries: seq<Entry>, sorted: seq<CooElement>, n: nat)
    requires InRange(entries, n) && n < 0x1_0000_0000 && multiset(sorted) == multiset(Mirrored(entries))
    ensures forall i :: 0 <= i < |sorted| ==> sorted[i].row as int < n && sorted[i].col as int < n
  {
    forall i | 0 <= i < |sorted|
      ensures sorted[i].row as int < n && sorted[i].col as int < n
    {
      assert sorted[i] in multiset(sorted);
      MirroredBelow(entries, n, sorted[i]);
    }
  }

  /**
   * `load_sparse_matrix` after the read, for the entries `entries` of a
   * matrix of order `n`, `sorted` being the order `qsort` leaves the mirrored
   * elements in and `rowPtr` the buffer `M.rows` points to: `num_blocks`
   * copies along the diagonal, stored row after row with their values, the
   * column words encoded for `mode`, and the row pointers built over them.
   */
  method LoadSparseMatrix(mode: Mode, entries: seq<Entry>, sorted: seq<CooElement>, blocks: nat, n: nat,
                          rowPtr: array<bv32>)
    returns (cols: array<bv32>, values: array<bv64>, nnz: nat)
    requires InRange(entries, n) && n < 0x8000_0000
    requires multiset(sorted) == multiset(Mirrored(entries)) && Ordered(sorted)
    requires rowPtr.Length == blocks * n + 1 && blocks * n < 0x8000_0000 && blocks * |sorted| < 0x8000_0000
    modifies rowPtr
    ensures fresh(cols) && fresh(values) && nnz == blocks * |sorted|
    ensures values[..] == ValuesOf(Replicate(sorted, blocks, n))
    ensures cols[..] == EncodeCols(mode, ColsOf(Replicate(sorted, blocks, n)), values[..])
    ensures Sorted(RowsOf(Replicate(sorted, blocks, n)))
    ensures RowPointers(RowsOf(Replicate(sorted, blocks, n)), old(rowPtr[..]), rowPtr[..], blocks * n)
  {
    SortedBelow(entries, sorted, n);
    cols, values, nnz := Replicated(sorted, blocks, n, rowPtr);
    InitMatrixEcc(mode, cols, values);
    OrderedRows(sorted);
    ReplicateSorted(sorted, blocks, n);
  }

  /**
   * Over sorted rows, each pointer that is set counts the nonzeros of the
   * rows above it, and the pointers of rows r and r + 1 bound exactly the
   * nonzeros of row r.
   */
  lemma PointersCount(rs: seq<int>, buffer: seq<bv32>, ptrs: seq<bv32>, m: nat, r: nat, k: nat)
    requires RowPointers(rs, buffer, ptrs, m) && Sorted(rs) && r < Reach(rs) && k < |rs|
    ensures ptrs[r] as int == CountBelow(rs, r)
    ensures r + 1 < Reach(rs) ==> ((ptrs[r] as int <= k < ptrs[r + 1] as int) <==> rs[k] == r)
  {
    SortedPointer(rs, r);
    RowMembership(rs, r, k);
  }

  /**
   * When the rows reach all `N` pointers, which they do when the last row
   * holds a nonzero, every pointer is set and pointer N is one past the
   * nonzeros of row N - 1 as well.
   */
  lemma FullPointers(rs: seq<int>, buffer: seq<bv32>, ptrs: seq<bv32>, m: nat)
    requires RowPointers(rs, buffer, ptrs, m) && Reach(rs) == m
    ensures forall r :: 0 <= r <= m ==> ptrs[r] as int == FirstAtLeast(rs, r)
  {
    FirstAtReach(rs);
  }

  /**
   * An entry in row `n` or column `n` puts a nonzero in the last row of
   * every copy, so with at least one copy the rows reach all pointers.
   */
  lemma LastRowReached(entries: seq<Entry>, sorted: seq<CooElement>, blocks: nat, n: nat, e: nat)
    requires InRange(entries, n) && n < 0x8000_0000 && multiset(sorted) == multiset(Mirrored(entries))
    requires 0 < blocks && blocks * n < 0x8000_0000
    requires e < |entries| && (entries[e].row == n || entries[e].col == n)
    ensures Reach(RowsOf(Replicate(sorted, blocks, n))) == blocks * n
  {
    SortedBelow(entries, sorted, n);
    var i := LastRowElement(entries, sorted, n, e);
    BlockReach(sorted, blocks, n, i);
  }

  /** An element of the last row, where an entry in row or column `n` puts one. */
  lemma LastRowElement(entries: seq<Entry>, sorted: seq<CooElement>, n: nat, e: nat) returns (i: nat)
    requires InRange(entries, n) && n < 0x8000_0000 && multiset(sorted) == multiset(Mirrored(entries))
    requires e < |entries| && (entries[e].row == n || entries[e].col == n)
    ensures i < |sorted| && sorted[i].row as int == n - 1
  {
    var x := if entries[e].row == n then Read(entries[e]) else Transpose(Read(entries[e]));
    MirrorMembers(entries, x);
    assert x in multiset(sorted);
    i :| 0 <= i < |sorted| && sorted[i] == x;
  }

  /** An element of row `n - 1` puts one, in the last copy, in the last of the `blocks * n` rows. */
  lemma BlockReach(sorted: seq<CooElement>, blocks: nat, n: nat, i: nat)
    requires forall k :: 0 <= k < |sorted| ==> sorted[k].row as int < n
    requires 0 < blocks && blocks * n < 0x8000_0000 && i < |sorted| && sorted[i].row as int == n - 1
    ensures Reach(RowsOf(Replicate(sorted, blocks, n))) == blocks * n
  {
    ReplicateAt(sorted, blocks, n, blocks - 1, i);
    ShiftRow(sorted[i], blocks - 1, blocks, n);
    NextBlock(n, blocks - 1);
    assert RowsOf(Replicate(sorted, blocks, n))[(blocks - 1) * |sorted| + i] == blocks * n - 1;
    ReplicatedReach(sorted, blocks, n);
  }
}
