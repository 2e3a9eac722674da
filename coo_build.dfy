/**
 * Building a protected COO matrix: `create_matrix` of COO/CPUContext.cpp,
 * which copies the triples and applies the class's `generate_ecc_bits`,
 * and the in-place `init_matrix_ecc` passes of spmv-secded.c,
 * spmv-constraints.c and the per-mode files under COO/c.
 */
module CooBuild {
  import opened Bits
  import opened Modes
  import opened CooEcc
  import opened CooEncode

  /** The encoding of one element in `mode`: no check bits for NONE and CONSTRAINTS. */
  function Encode(mode: Mode, e: Element): Element
  {
    match mode
    case None => e
    case Constraints => e
    case Sed => EncodeSed(e)
    case Sec7 => EncodeSec7(e)
    case Sec8 => EncodeSec8(e)
    case Secded => EncodeSec8(e)
  }

  /** Every element encoded. */
  function EncodeAll(mode: Mode, elements: seq<Element>): (r: seq<Element>)
    ensures |r| == |elements| && forall i :: 0 <= i < |elements| ==> r[i] == Encode(mode, elements[i])
  {
    seq(|elements|, i requires 0 <= i < |elements| => Encode(mode, elements[i]))
  }

  /** All column indices leave the check bits 24..31 clear. */
  predicate AllUnreserved(elements: seq<Element>)
  {
    forall i :: 0 <= i < |elements| ==> Unreserved(elements[i])
  }

  /** Encoding writes the column word only. */
  lemma EncodeWords(mode: Mode, e: Element)
    ensures Encode(mode, e).row == e.row && Encode(mode, e).value == e.value
  {
    EncodeCases(mode, e);
    EncodeFields(e);
  }

  /** `Encode` by cases. */
  lemma EncodeCases(mode: Mode, e: Element)
    ensures mode == Sed ==> Encode(mode, e) == EncodeSed(e)
    ensures mode == Sec7 ==> Encode(mode, e) == EncodeSec7(e)
    ensures mode == Sec8 || mode == Secded ==> Encode(mode, e) == EncodeSec8(e)
    ensures !Protected(mode) ==> Encode(mode, e) == e
  {}

  lemma EncodeIndexSed(mode: Mode, e: Element)
    requires mode == Sed && Unreserved(e)
    ensures Encode(mode, e).col & 0x00FF_FFFF == e.col
  {
    EncodeCases(mode, e);
    UnreservedIndex(e.col);
  }

  lemma EncodeIndexSec7(mode: Mode, e: Element)
    requires mode == Sec7 && Unreserved(e)
    ensures Encode(mode, e).col & 0x00FF_FFFF == e.col
  {
    EncodeCases(mode, e);
    Sec7Index(e);
  }

  lemma EncodeIndexSec8(mode: Mode, e: Element)
    requires (mode == Sec8 || mode == Secded) && Unreserved(e)
    ensures Encode(mode, e).col & 0x00FF_FFFF == e.col
  {
    EncodeCases(mode, e);
    Sec8Index(e);
  }

  /** The column index bits survive encoding in every mode. */
  lemma EncodeIndex(mode: Mode, e: Element)
    requires Unreserved(e)
    ensures Encode(mode, e).col & 0x00FF_FFFF == e.col
  {
    if mode == Sed {
      EncodeIndexSed(mode, e);
    } else if mode == Sec7 {
      EncodeIndexSec7(mode, e);
    } else if mode == Sec8 || mode == Secded {
      EncodeIndexSec8(mode, e);
    } else {
      EncodeCases(mode, e);
      UnreservedIndex(e.col);
    }
  }

  /**
   * Encoding touches nothing but the check bits: row, value and, for an
   * unreserved column, the index bits are those of the input, and the
   * unprotected modes change nothing at all.
   */
  lemma EncodeKeeps(mode: Mode, e: Element)
    requires Unreserved(e)
    ensures Encode(mode, e).row == e.row && Encode(mode, e).value == e.value
    ensures Encode(mode, e).col & 0x00FF_FFFF == e.col
    ensures !Protected(mode) ==> Encode(mode, e) == e
  {
    EncodeWords(mode, e);
    EncodeIndex(mode, e);
  }

  /** SED's `generate_ecc_bits`: the parity into column bit 31. */
  method GenerateSed(element: Element) returns (encoded: Element)
    ensures encoded == EncodeSed(element)
  {
    encoded := WithParity(element, 31);
  }

  /** SEC7's `generate_ecc_bits`: `col |= ecc_compute_col8(element)`. */
  method GenerateSec7(element: Element) returns (encoded: Element)
    ensures encoded == EncodeSec7(element)
  {
    encoded := Element(element.col | ComputeCol8(element), element.row, element.value);
  }

  /** SEC8's `generate_ecc_bits`, also SECDED's: the syndrome, then the parity into column bit 24. */
  method GenerateSec8(element: Element) returns (encoded: Element)
    ensures encoded == EncodeSec8(element)
  {
    var withSyndrome := GenerateSec7(element);
    encoded := WithParity(withSyndrome, 24);
  }

  /** `generate_ecc_bits` / the body of `init_matrix_ecc` for `mode`. */
  method GenerateEccBits(mode: Mode, element: Element) returns (encoded: Element)
    ensures encoded == Encode(mode, element)
  {
    EncodeCases(mode, element);
    if mode == Sed {
      encoded := GenerateSed(element);
    } else if mode == Sec7 {
      encoded := GenerateSec7(element);
    } else if mode == Sec8 || mode == Secded {
      encoded := GenerateSec8(element);
    } else {
      encoded := element;
    }
  }

  /** `init_matrix_ecc`: encode every element in place. */
  method InitMatrixEcc(mode: Mode, elements: array<Element>)
    modifies elements
    ensures elements[..] == EncodeAll(mode, old(elements[..]))
  {
    ghost var enc := EncodeAll(mode, elements[..]);
    for i := 0 to elements.Length
      invariant forall j :: 0 <= j < i ==> elements[j] == enc[j]
      invariant forall j :: i <= j < elements.Length ==> elements[j] == old(elements[j])
    {
      EncodeAt(mode, elements, i, enc);
    }
  }

  /** One round of `init_matrix_ecc`: element `i` replaced by its encoding. */
  method EncodeAt(mode: Mode, elements: array<Element>, i: nat, ghost enc: seq<Element>)
    requires i < elements.Length && |enc| == elements.Length && enc[i] == Encode(mode, elements[i])
    modifies elements
    ensures elements[i] == enc[i]
    ensures forall j :: 0 <= j < elements.Length && j != i ==> elements[j] == old(elements[j])
  {
    var encoded := GenerateEccBits(mode, elements[i]);
    elements[i] := encoded;
  }

  /** `create_matrix`: a fresh element array holding the encoded triples. */
  method CreateMatrix(mode: Mode, columns: array<bv32>, rows: array<bv32>, values: array<bv64>)
    returns (elements: array<Element>)
    requires rows.Length == columns.Length && values.Length == columns.Length
    ensures fresh(elements) && elements.Length == columns.Length
    ensures forall i :: 0 <= i < elements.Length ==>
              elements[i] == Encode(mode, Element(columns[i], rows[i], values[i]))
  {
    elements := new Element[columns.Length];
    for i := 0 to columns.Length
      invariant forall j :: 0 <= j < i ==> elements[j] == Encode(mode, Element(columns[j], rows[j], values[j]))
    {
      var element := Element(columns[i], rows[i], values[i]);
      element := GenerateEccBits(mode, element);
      elements[i] := element;
    }
  }
}
