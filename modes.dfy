/**
 * What the kernels of both layouts share: the protection mode a matrix is
 * built and multiplied in, how a kernel run ends, and the abstract form of
 * the floating-point sums it accumulates.
 */
module Modes {
  /** `abft_mode` (CSR/common.h): the protection scheme of a matrix. */
  datatype Mode = None | Constraints | Sed | Sec7 | Sec8 | Secded

  /** The modes whose encode pass stores check bits in the column word. */
  predicate Protected(mode: Mode)
  {
    mode == Sed || mode == Sec7 || mode == Sec8 || mode == Secded
  }

  /** The modes that correct a single flipped bit. */
  predicate Correcting(mode: Mode)
  {
    mode == Sec7 || mode == Sec8 || mode == Secded
  }

  /** `BitFlipKind` (CGContext.h): which part of a nonzero an injected fault may hit. */
  datatype FlipKind = AnyBit | ValueBit | IndexBit

  /** Why a kernel gave up: each reason is one `printf` + `exit(1)` of the source. */
  datatype Fault =
    | RowSize          // a row index, or a row pointer, past the matrix
    | RowOrder         // row indices, or row pointers, decrease
    | ColumnSize       // a column index past the matrix
    | ColumnOrder      // column indices do not increase within a row
    | ParityError      // SED found odd overall parity
    | DoubleBitError   // SECDED found even parity but a non-zero syndrome

  /**
   * How a kernel run ends: it runs to completion, it calls `exit(1)` while
   * visiting nonzero (COO) or row (CSR) `index`, or it reaches an array
   * access outside its array at `index`, which the C code does not guard.
   */
  datatype Outcome = Done | Aborted(index: nat, fault: Fault) | OutOfBounds(index: nat)

  /**
   * One product `value * vector[vec]` of a sum, with the value kept as its
   * 64-bit pattern; a result entry is the sequence of its products in the
   * order the kernel adds them.
   */
  datatype Term = Term(value: bv64, vec: bv32)

  /** `n` result entries set to 0.0: empty sums. */
  function Zeros(n: nat): (r: seq<seq<Term>>)
    ensures |r| == n && forall i :: 0 <= i < n ==> r[i] == []
  {
    seq(n, _ => [])
  }

  datatype Option<T> = Nothing | Some(value: T)
}
