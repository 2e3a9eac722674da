# Protected sparse matrix-vector multiply, modelled in Dafny

This project models the fault-tolerant sparse matrix-vector product (SpMV)
of the `abft-sparse-cg` conjugate-gradient solver. Every nonzero of the
matrix carries its own error-correcting code in the spare high bits of its
column index, so the kernel can check each nonzero as it reads it. It then
aborts, repairs the nonzero in place, or goes on.

Two storage layouts are modelled:

- **COO.** A nonzero is a 128-bit codeword `{col, row, value}`.
  `Element` in `coo_ecc.dfy`; `ecc.c`, `spmv-*.c`, `COO/spmv-c.c`,
  `COO/c/*` and `COO/CPUContext.cpp`.
- **CSR.** A nonzero is a 96-bit codeword `{value, col}`, and row pointers
  delimit the rows. `Colval` in `csr_ecc.dfy`; `CSR/ecc.h`, `CSR/spmv-c.c`,
  `CSR/c/*`, `CSR/CPUContext.cpp` and `CSR/common.c`.

The protection modes (`Modes.Mode`) are:

| mode | encode | check on each nonzero |
|---|---|---|
| NONE | nothing | nothing |
| CONSTRAINTS | nothing | bounds and order of the indices and row pointers |
| SED | overall parity into column bit 31 | abort on odd parity |
| SEC7 | seven Hamming check bits into column bits 25..31 | a non-zero syndrome names the bit to toggle back |
| SEC8 | SEC7's bits, then the overall parity into bit 24 | correct under odd parity |
| SECDED | as SEC8 | as SEC8, and abort on even parity with a non-zero syndrome |

The model has three layers:

- **Codec.** The masks, syndromes, parities and bit-index mappings are
  bit-vector functions. The codec's promises are proved as lemmas:
  - the encode/check round trip;
  - single-error correction;
  - double-error detection;
  - the mask table is the one the generator rule produces.
- **Encode passes and injectors.** These are imperative methods over arrays,
  specified by the pure encoding functions.
- **Kernels.** Each kernel is a method over the matrix and result arrays. It
  is proved equal to a run of a per-nonzero step function (`CooSpmv.Run`,
  `CsrSpmv.Exec`). Properties of these runs are stated against reference
  definitions:
  - the plain product (`CooReference.Columns`, `CsrReference.Sums`);
  - transparency of the encoding;
  - recovery from one flipped bit;
  - detection of one or two flipped bits;
  - the constraint checker accepting exactly the well-formed matrices.

Floating point is abstract. A result entry is the sequence of products
(`Term`: value bits and vector index) in the order the kernel adds them. An
`exit(1)` is the outcome `Aborted(index, fault)`. An index past the vectors,
which the C code would read or write out of bounds, is the outcome
`OutOfBounds(index)`.

## Model

| member | source | states |
|---|---|---|
| Modes.Zeros | COO/spmv-c.c:205-207 | the result every kernel starts from: `n` entries, each the empty sum 0.0 |
| Bits.ParityOdd | ecc.c:50 | `__builtin_parity` is a 0/1 flag that is 1 exactly for a word with an odd number of set bits |
| Bits.ParityCount | ecc.c:87 | `__builtin_parity` is 1 exactly when the population count of the word is odd |
| Bits.Clz | ecc.c:103 | `__builtin_clz` of a non-zero word is below 32 and points at its highest set bit |
| Bits.PowerOf2Single | ecc.c:79-82 | `is_power_of_2(x)` holds exactly when `x` is non-zero and its highest set bit is its only one |
| Bits.Increment | CSR/common.c:108 | a `uint32_t` counter below 2^31 - 1 steps to exactly one more, with no wrap-around |
| Syndrome.NonPow | ecc.c:121-143 | the k-th position `gen_ecc7_masks` hands to a data bit lies in 3..127 and is not a power of two |
| Syndrome.ParityBitsCheck | ecc.c:48-74 | the seven shifted parities OR-ed together are the check-bit word of the seven odd/even verdicts, group p at bit 32-p |
| Syndrome.HammStep | ecc.c:96-100 | one round of the `hamm_bit` loop adds weight 2^(p-1) exactly when syndrome bit 32-p is set |
| Syndrome.HammBitRange | ecc.c:95-100 | `hamm_bit` is at most 127, and non-zero exactly when one of syndrome bits 25..31 is set |
| Syndrome.HammBitSyndrome | ecc.c:95-100 | `hamm_bit` reads back every position 0..127 from the syndrome that names it |
| CooEcc.MaskedOdd | ecc.c:48-49 | the parity of the XOR of the four masked words is the parity of group p of the codeword |
| CooEcc.Col8Groups | ecc.c:40-77 | `ecc_compute_col8` is the word whose bit 32-p is the parity of group p, for p = 1..7 |
| CooEcc.Col8Low | ecc.c:48-76 | `ecc_compute_col8` never sets any of bits 0..24 |
| CooEcc.Col8Zero | common.h:37-39 | the syndrome is zero exactly when all seven parity groups are even |
| CooEcc.OverallParityFlag | ecc.c:84-88 | the overall parity is 0 or 1 |
| CooEcc.OverallParityOdd | ecc.c:84-88 | the overall parity is 1 exactly when the 128 bits hold an odd number of ones |
| CooEcc.CorrectCol8 | ecc.c:90-111 | for a syndrome naming a position, the located bit is the mapping of `hamm_bit`, it is inside the codeword, and the element is returned with exactly that bit toggled |
| CooEcc.DataBitRange | ecc.c:103-107 | every position 1..127 maps to a bit inside the 128-bit codeword, never to the overall parity bit 24 |
| CooEcc.DataBitPow | ecc.c:104-105 | position 2^k, check bit k+1, maps to column bit 31-k |
| CooMasks.RuleBitIndex | ecc.c:130-143 | the mask rule of `gen_ecc7_masks` puts bit `bit` into group p exactly when bit p-1 of its Hamming position is set |
| CooMasks.MaskRule | ecc.c:5-38 | every bit of the `ECC7_Pp_w` table is the bit the `gen_ecc7_masks` rule gives |
| CooMasks.SkipPow | ecc.c:127-128 | skipping a power of two from the running position lands on the next non-power |
| CooMasks.GenMaskBit | ecc.c:125-144 | one inner round adds bit b of mask word w exactly as the table has it, and moves the running position on |
| CooMasks.GenMaskWord | ecc.c:122-146 | the innermost loop builds word w of mask p of the table |
| CooMasks.GenMaskRow | ecc.c:119-148 | one outer round yields the four words of mask p and keeps the other rows |
| CooMasks.GenEcc7Masks | ecc.c:117-149 | `gen_ecc7_masks` produces exactly the 28 words of the `ECC7_Pp_w` table |
| CooMasks.DecodeIndex | ecc.c:103-107 | every bit but 24 has a Hamming position in 1..127, which the mapping of `ecc_correct_col8` sends back to that bit; bit 24 has position 0 |
| CooCorrect.FlipGroup | ecc.c:48-74 | toggling codeword bit `bit` toggles group p exactly when the group's mask holds that bit |
| CooCorrect.MaskIndex | ecc.c:5-38 | codeword bit `bit` is in mask p exactly when its Hamming position has bit p-1 |
| CooCorrect.CleanFlipSyndrome | common.h:37-39 | one flip in a codeword whose syndrome is zero leaves the lone-error syndrome of the flipped bit |
| CooCorrect.UnitSyndromeIndex | ecc.c:5-38 | the lone-error syndrome of a bit spells out its Hamming position |
| CooCorrect.FlipWord | ecc.c:110-111 | `data[bit/32] ^= 1 << (bit%32)` toggles word `bit/32` by that unit and keeps the other three words |
| CooCorrect.FlipBitExact | ecc.c:110-111 | the toggle changes codeword bit `bit` and leaves the other 127 bits as they were |
| CooCorrect.FlipBitTwice | ecc.c:110-111 | toggling the same bit twice restores the codeword |
| CooCorrect.SingleErrorCorrected | common.h:42-44 | in a codeword with zero syndrome, a flip of any bit but 24 gives a syndrome naming a position, that position maps to the flipped bit, and toggling it restores the codeword |
| CooCorrect.Mask24 | ecc.c:5-35 | column bit 24, the overall parity bit, is in no parity mask |
| CooCorrect.Flip24Syndrome | ecc.c:5-35 | toggling bit 24 leaves the syndrome unchanged |
| CooCorrect.AllWordsFlip | ecc.c:84-88 | toggling any one of the 128 bits toggles the parity of the four words' XOR |
| CooCorrect.ParityFlip | ecc.c:84-88 | toggling any one of the 128 bits toggles the overall parity |
| CooCorrect.HammIndexInjective | ecc.c:5-38 | two different codeword bits have different Hamming positions |
| CooCorrect.DoubleErrorDetected | spmv-secded.c:57-66 | in a codeword with zero syndrome and even parity, flips of two different bits leave the parity even and the syndrome non-zero |
| CooEncode.WithParity | COO/CPUContext.cpp:323 | OR-ing `parity << k` into a clear bit k flips that bit exactly when the overall parity is odd |
| CooEncode.EncodeSed | COO/CPUContext.cpp:243-246 | the SED encoding keeps the column's index bits 0..23 |
| CooEncode.EncodeFields | COO/CPUContext.cpp:320-324 | the SED, SEC7 and SEC8 encodings write the column word only, keeping row and value |
| CooEncode.CheckOdd | ecc.c:5-35 | among bits 25..31 the word-0 mask of group p holds only check bit p, so a word of check bits is odd under it exactly when that bit is set |
| CooEncode.Col8Bit | ecc.c:48-74 | check bit p of `ecc_compute_col8`, at column bit 32-p, is the parity of group p |
| CooEncode.Sec7Xor | COO/CPUContext.cpp:279-282 | OR-ing the check bits into a column whose bits 24..31 are clear toggles exactly those bits |
| CooEncode.Sec7Clean | common.h:30-39 | encode/check round trip: the syndrome of a freshly SEC7-encoded element is zero |
| CooEncode.Sec7Index | COO/CPUContext.cpp:281 | SEC7 encoding keeps index bits 0..23 and leaves bit 24 clear |
| CooEncode.Sec8Flip | COO/CPUContext.cpp:320-324 | SEC8 encoding is SEC7 encoding followed, under odd parity, by a flip of bit 24 |
| CooEncode.Sec8Clean | spmv-secded.c:14-18 | encode/check round trip: the syndrome of a SEC8/SECDED-encoded element is zero |
| CooEncode.Sec8Parity | spmv-secded.c:17-18 | encode/check round trip: the overall parity of a SEC8/SECDED-encoded element is even |
| CooEncode.Sec8Index | spmv-secded.c:15-18 | SEC8 encoding keeps the column's index bits |
| CooEncode.SedFlip | COO/c/spmv-sed.c:15-16 | SED encoding of a column whose bit 31 is clear flips bit 31 exactly under odd parity |
| CooEncode.SedClean | COO/c/spmv-sed.c:15-16 | encode/check round trip: the overall parity of a SED-encoded element is even |
| CooBuild.EncodeKeeps | COO/CPUContext.cpp:24-49 | every mode's encoding keeps row, value and column index bits 0..23; NONE and CONSTRAINTS change nothing |
| CooBuild.EncodeCases | COO/CPUContext.cpp:24-26 | the per-mode encoding is the override of each class: SED, SEC7, SEC8/SECDED, or the base no-op |
| CooBuild.EncodeIndex | COO/spmv-c.c:102-103 | the index bits survive encoding in every mode, so masking with `0x00FFFFFF` reads the original column back |
| CooBuild.GenerateSed | COO/CPUContext.cpp:243-246 | the imperative twin of the function `EncodeSed`, returning exactly its value: SED's `generate_ecc_bits` returns the SED encoding |
| CooBuild.GenerateSec7 | COO/CPUContext.cpp:279-282 | the imperative twin of the function `EncodeSec7`, returning exactly its value: SEC7's `generate_ecc_bits` returns the SEC7 encoding |
| CooBuild.GenerateSec8 | COO/CPUContext.cpp:320-324 | the imperative twin of the function `EncodeSec8`, returning exactly its value: SEC8's `generate_ecc_bits` returns the SEC8 encoding |
| CooBuild.GenerateEccBits | COO/CPUContext.cpp:24-26 | the imperative twin of the function `Encode`, returning exactly its value: the virtual `generate_ecc_bits` returns the encoding of the matrix's mode |
| CooBuild.EncodeAt | spmv-secded.c:12-20 | one round of `init_matrix_ecc` replaces element i by its encoding and keeps the others |
| CooBuild.InitMatrixEcc | spmv-secded.c:7-22 | `init_matrix_ecc` leaves every element encoded in place; for NONE and CONSTRAINTS nothing changes |
| CooBuild.CreateMatrix | COO/CPUContext.cpp:28-78 | `create_matrix` returns a fresh array whose element i is the encoded triple i |
| CooSpmv.Run | COO/spmv-c.c:209-229 | a kernel run keeps the number of nonzeros and has a result of order `n` |
| CooSpmv.Stopped | COO/spmv-c.c:37-38 | `exit(1)` is final: a run that stopped ends in the state it stopped in |
| CooSpmv.ZeroResult | COO/spmv-c.c:205-207 | the zeroing loop leaves every result entry 0.0 |
| CooSpmv.ToggleParityBit | COO/spmv-c.c:135 | `col ^= 0x1 << 24` is the toggle of codeword bit 24 |
| CooSpmv.CheckOrder | COO/spmv-c.c:29-50 | the order checks: abort if the next row is smaller, or the same row with a column that is not larger; the last nonzero is not checked |
| CooSpmv.CheckConstraints | COO/CPUContext.cpp:199-232 | CONSTRAINTS' verdict: with the size checks on, first reject a row or column at or past N, then the order checks |
| CooSpmv.CheckSed | COO/spmv-c.c:66-71 | the imperative twin of the function `SedCheck`, returning exactly its value: SED aborts exactly on odd overall parity and otherwise passes the element unchanged |
| CooSpmv.CheckSec7 | COO/spmv-c.c:90-100 | the imperative twin of the function `Sec7Check`, returning exactly its value: SEC7 stores back the element with the located bit toggled exactly when the syndrome is non-zero |
| CooSpmv.ToggleParity | COO/spmv-c.c:134-135 | the parity-bit repair toggles codeword bit 24 |
| CooSpmv.RepairElement | COO/spmv-c.c:122-138 | the repair under odd parity toggles the located bit for a non-zero syndrome and bit 24 for a zero one |
| CooSpmv.CheckSec8 | COO/spmv-c.c:159-190 | the imperative twin of the function `Sec8Check`, returning exactly its value: SEC8 repairs and stores back only under odd parity; SECDED also aborts on even parity with a non-zero syndrome |
| CooSpmv.CheckElement | COO/spmv-c.c:209-229 | the verdict of the kernel selected by `matrix.mode` on nonzero i |
| CooSpmv.AddProduct | COO/spmv-c.c:105-107 | `result[col] += value * vector[row]` appends the product to entry `col`, or reports an index past the vectors and changes nothing |
| CooSpmv.ApplyCheck | COO/spmv-c.c:179-197 | a failing verdict aborts at index i; a passing one stores the element when asked, masks the column and accumulates |
| CooSpmv.Visit | COO/spmv-c.c:154-198 | the loop body leaves matrix and result as one step of the run |
| CooSpmv.Multiply | COO/spmv-c.c:203-230 | `spmv` leaves the matrix, the result and the outcome exactly as the specification run of its mode does |
| CooReference.Columns | COO/c/spmv-baseline.c:11-27 | the reference product: entry c is the products of the nonzeros of column c, in storage order |
| CooReference.ColumnsNext | COO/c/spmv-baseline.c:25 | adding the product of an in-bounds nonzero extends the reference by that nonzero |
| CooReference.PlainColumns | COO/c/spmv-baseline.c:18-26 | after k visits the unprotected run holds the reference product of the first k nonzeros, or has stopped at the first out-of-bounds one |
| CooReference.Baseline | COO/spmv-c.c:7-19 | the unprotected kernel computes the reference product when every index is in bounds, otherwise stops at the first bad nonzero; the matrix is untouched |
| CooReference.ConstraintsCheckPass | COO/CPUContext.cpp:199-232 | the CONSTRAINTS checks pass exactly on in-order (and, with size checks, in-bounds) nonzeros, and then leave them as they are |
| CooReference.ConstraintsSpmv | spmv-constraints.c:15-56 | CONSTRAINTS stops at the first nonzero failing a check or out of bounds, with the reference product of those before it, and never writes the matrix |
| CooReference.ConstraintsAccepts | COO/spmv-c.c:21-56 | CONSTRAINTS completes exactly on strictly row-major ordered matrices all of whose indices are in bounds |
| CooReference.SizeChecksGuard | COO/CPUContext.cpp:199-209 | with the size checks of the C++ variant, no index is ever used out of bounds |
| CooReference.OrderedAsBaseline | COO/spmv-c.c:21-56 | on an ordered matrix CONSTRAINTS computes what the unprotected kernel computes |
| CooProps.NoWrite | COO/spmv-c.c:58-80 | NONE, CONSTRAINTS and SED pass a nonzero unchanged or stop at it |
| CooProps.ReadOnly | COO/c/spmv-sed.c:32-50 | a run of a kernel that does not correct never changes the matrix |
| CooProps.CleanPass | spmv-secded.c:39-66 | every protected kernel lets a freshly encoded element through without a write |
| CooProps.IndexEncode | COO/spmv-c.c:102-103 | a kernel reads an encoded element's original column through its mask |
| CooProps.SameProduct | COO/spmv-c.c:102-107 | an encoded element contributes, at its masked index, exactly what the plain element contributes |
| CooProps.Sec7Fixes | COO/spmv-c.c:90-100 | SEC7 undoes a single flip outside bit 24 of a clean codeword and stores it back |
| CooProps.RepairFlip | COO/spmv-c.c:119-140 | under odd parity the repair undoes any single flip, bit 24 included, of a codeword with zero syndrome |
| CooProps.FlipPass | spmv-secded.c:42-56 | SEC7 (any bit but 24), SEC8 and SECDED restore an encoded element with one flipped bit and store it back |
| CooProps.FlipFailSed | COO/spmv-c.c:66-71 | SED rejects an encoded element with any one bit flipped |
| CooProps.DoubleFailSecded | COO/spmv-c.c:181-190 | SECDED rejects an encoded element with two different bits flipped as a double-bit error |
| CooProps.Transparent | COO/spmv-c.c:203-229 | on a freshly encoded matrix every protected kernel ends like the unprotected kernel on the plain matrix, with the same result, and writes nothing |
| CooProps.Flipped | COO/CPUContext.cpp:180 | the matrix with one bit of nonzero j toggled and every other nonzero unchanged |
| CooProps.SingleFlipCorrected | COO/spmv-c.c:82-149 | with one flipped bit anywhere (SEC7: not bit 24), the correcting kernels end with the unprotected result and outcome, and the repaired element is stored back when the run reaches it |
| CooProps.SingleFlipDetected | COO/spmv-c.c:58-80 | with one flipped bit at nonzero j, SED stops at j with the result of the nonzeros before it, and writes nothing |
| CooProps.Flipped2 | COO/CPUContext.cpp:176-181 | the matrix with two bits of nonzero j toggled and every other nonzero unchanged |
| CooProps.DoubleFlipDetected | COO/spmv-c.c:151-199 | with two different flipped bits at nonzero j, SECDED stops at j as a double-bit error with the result of the nonzeros before it |
| CooInject.DrawnBit | COO/CPUContext.cpp:169-178 | the drawn bit lies in the region: [0,128), VALUE [64,128), INDEX [0,64) |
| CooInject.ToggleBit | COO/CPUContext.cpp:180 | the word XOR toggles exactly codeword bit `bit` |
| CooInject.FlipAt | COO/CPUContext.cpp:176-181 | one round of the loop toggles codeword bit `bit` of the chosen element, and no other element changes |
| CooInject.InjectBitflip | COO/CPUContext.cpp:165-182 | nonzero `rand() % nnz` has the drawn bits toggled one after another, and no other nonzero changes |
| CooInject.InjectRegion | COO/CPUContext.cpp:169-174 | a VALUE fault keeps both indices, an INDEX fault keeps the value |
| CooInject.InjectOne | COO/CPUContext.cpp:176-181 | one draw leaves the single-fault matrix the correction theorems are about |
| CooInject.InjectTwo | COO/CPUContext.cpp:176-181 | two draws leave the double-fault matrix of the detection theorem, or the original one when they pick the same bit |
| CooArm32.OverallParityX | COO/arm32/spmv-sed.c:6-10 | `ecc_compute_overall_parity_x` equals the overall parity of `ecc.c` |
| CooArm32.InitTable | COO/arm32/spmv-sed.c:59-62 | the table holds `__builtin_parity(i)` for every byte i |
| CooArm32.InitMatrixEcc | COO/arm32/spmv-sed.c:57-74 | the table is filled, and every element is replaced by its SED encoding |
| CooArm32.InitEncodesSed | COO/arm32/spmv-sed.c:64-73 | the matrix this init leaves is the SED encoding of the original |
| CooArm32.Fold | COO/arm32/spmv-sed.c:176-182 | the folded word is a byte, a valid table index |
| CooArm32.FoldParity | COO/arm32/spmv-sed.c:172-182 | the folded byte has the parity of the word it was folded from |
| CooArm32.TableParity | COO/arm32/spmv-sed.c:172-183 | looking up the folded XOR of the four words reads the overall parity |
| CooArm32.FoldWords | COO/arm32/spmv-sed.c:172-182 | the computed byte is the fold of the four words' XOR |
| CooArm32.CheckTable | COO/arm32/spmv-sed.c:172-186 | the table test is the SED check: abort exactly on odd overall parity |
| CooArm32.Accept | COO/arm32/spmv-sed.c:183-193 | abort on a parity error, else mask the column and accumulate |
| CooArm32.Round | COO/arm32/spmv-sed.c:166-193 | one round of the do-while is one step of the SED run |
| CooArm32.VisitAll | COO/arm32/spmv-sed.c:163-195 | the do-while from a zeroed result ends as the SED run does |
| CooArm32.Multiply | COO/arm32/spmv-sed.c:156-202 | the C `spmv` ends with the outcome and result of the SED kernel and never writes the matrix |
| CsrEcc.MaskedOdd | CSR/ecc.h:54-73 | the parity of the three words masked for group p is the parity of the codeword bits that group covers |
| CsrEcc.Col8Groups | CSR/ecc.h:46-76 | `ecc_compute_col8` puts the parity of group p into bit 32-p, for p = 1..7 |
| CsrEcc.Col8Low | CSR/ecc.h:46-76 | the generated check bits lie in column bits 25..31 only |
| CsrEcc.Col8Zero | CSR/ecc.h:46-76 | the syndrome is zero exactly when all seven groups have even parity |
| CsrEcc.OverallParityFlag | CSR/ecc.h:84-88 | the overall parity is 0 or 1 |
| CsrEcc.OverallParityOdd | CSR/ecc.h:84-88 | the overall parity is 1 exactly when the 96-bit colval has an odd number of set bits |
| CsrEcc.GetFlippedBit | CSR/ecc.h:90-108 | for a syndrome with a check bit set, the loop rebuilds a non-zero Hamming position and the result is that position mapped to a codeword bit |
| CsrEcc.DataBitRange | CSR/ecc.h:102-107 | Hamming positions 1..95 map to codeword bits below 96, never bit 88 |
| CsrEcc.DataBitPow | CSR/ecc.h:104-105 | the position 2^k of check bit k+1 maps to codeword bit 95-k, the column bit that holds it |
| CsrEcc.DataBitHigh | CSR/ecc.h:102-103 | positions 96..127 map to bits 88..119, past the colval from 96 on |
| CsrMasks.MaskIndex | CSR/ecc.h:8-34 | codeword bit b is under the masks of group p exactly when bit p-1 of its Hamming position is set |
| CsrMasks.DecodeIndex | CSR/ecc.h:90-108 | every codeword bit below 96 except 88 has a Hamming position that decodes back to it; bit 88 has none |
| CsrCorrect.FlipGroupMask | CSR/ecc.h:54-73 | toggling one bit changes group p's parity exactly when the bit is under that group's masks |
| CsrCorrect.FlipGroup | CSR/ecc.h:54-73 | toggling bit b changes group p exactly when bit p-1 of b's Hamming position is set |
| CsrCorrect.CleanFlipGroup | CSR/ecc.h:54-73 | from an even group, a toggled bit leaves the group odd exactly when the group covers it |
| CsrCorrect.CleanFlipSyndrome | CSR/spmv-c.c:116-120 | from a zero syndrome, one toggled bit leaves the syndrome that encodes the bit's Hamming position |
| CsrCorrect.FlipBitTwice | CSR/common.c:150-153 | `flip_bit` twice at the same bit restores the colval |
| CsrCorrect.FlipWord | CSR/common.c:150-153 | `flip_bit` XORs word bit/32 with the single bit bit%32 and leaves the other words alone |
| CsrCorrect.FlipBitWord | CSR/common.c:150-153 | after `flip_bit`, bit i of word w differs exactly when 32w+i is the flipped bit |
| CsrCorrect.FlipBitExact | CSR/common.c:150-153 | `flip_bit` toggles exactly the named codeword bit |
| CsrCorrect.SingleErrorCorrected | CSR/spmv-c.c:115-126 | after one flip of any bit but 88 in a clean colval, the syndrome is non-zero, the located bit is the flipped one, and toggling it restores the colval |
| CsrCorrect.Mask88 | CSR/ecc.h:8-34 | no group mask covers column bit 24, where SEC8 keeps the overall parity |
| CsrCorrect.Flip88Syndrome | CSR/ecc.h:46-76 | toggling bit 88 leaves the syndrome unchanged |
| CsrCorrect.AllWordsFlip | CSR/ecc.h:84-88 | one toggled bit inverts the parity of the XOR of the three words |
| CsrCorrect.ParityFlip | CSR/ecc.h:84-88 | one toggled bit inverts the overall parity |
| CsrCorrect.HammIndexInjective | CSR/ecc.h:8-34 | different codeword bits have different Hamming positions |
| CsrCorrect.DoubleFlipParity | CSR/ecc.h:84-88 | two toggled bits leave the overall parity as it was |
| CsrCorrect.DoubleFlipSyndrome | CSR/spmv-c.c:225-231 | two different toggled bits in a clean colval leave a non-zero syndrome |
| CsrCorrect.DoubleErrorDetected | CSR/spmv-c.c:223-231 | two different flips in a clean SECDED colval give even parity and a non-zero syndrome, the case SECDED aborts on |
| CsrEncode.WithParity | CSR/common.c:139 | OR-ing the overall parity into a clear column bit k toggles codeword bit 64+k exactly when the parity was odd |
| CsrEncode.EncodeSed | CSR/common.c:130-132 | SED encoding keeps the 24-bit column index |
| CsrEncode.EncodeFields | CSR/common.c:143-144 | no encoding changes the value |
| CsrEncode.CheckMask | CSR/ecc.h:8-34 | the column word of mask p meets the check-bit field only at bit 32-p |
| CsrEncode.CheckOdd | CSR/ecc.h:8-34 | so a check-bit word adds its bit 32-p to group p |
| CsrEncode.Col8Bit | CSR/ecc.h:46-76 | bit 32-p of the syndrome is the parity of group p |
| CsrEncode.Sec7Xor | CSR/common.c:133-135 | on a column whose bits 24..31 are clear, OR-ing the check bits is an XOR |
| CsrEncode.Sec7Clean | CSR/c/spmv-sec7.c:7-21 | a SEC7-encoded colval has a zero syndrome |
| CsrEncode.Sec7Index | CSR/common.c:133-135 | SEC7 encoding keeps the column index and leaves bit 24 clear |
| CsrEncode.Sec8Flip | CSR/common.c:136-140 | SEC8 encoding is SEC7's, then bit 88 toggled when the parity is odd |
| CsrEncode.Sec8Clean | CSR/c/spmv-sec8.c:7-24 | a SEC8-encoded colval has a zero syndrome |
| CsrEncode.Sec8Parity | CSR/c/spmv-sec8.c:17-20 | a SEC8-encoded colval has even overall parity |
| CsrEncode.Sec8Index | CSR/common.c:136-140 | SEC8 encoding keeps the column index |
| CsrEncode.SedFlip | CSR/common.c:130-132 | SED encoding toggles bit 95 exactly when the parity is odd |
| CsrEncode.SedClean | CSR/c/spmv-sed.c:8-22 | a SED-encoded colval has even overall parity |
| CsrBuild.EncodeCols | CSR/common.c:118-145 | the encoded column array has one entry per nonzero, the column word of that nonzero's codeword |
| CsrBuild.EncodeWords | CSR/common.c:143-144 | encoding in any mode keeps the value |
| CsrBuild.EncodeCases | CSR/common.c:125-141 | the encoding of each mode: SED, SEC7, SEC8 for SEC8 and SECDED, nothing for NONE and CONSTRAINTS |
| CsrBuild.EncodeIndex | CSR/common.c:118-145 | for a column below 2^24, every mode keeps the 24-bit column index |
| CsrBuild.EncodeKeeps | CSR/common.c:118-145 | encoding keeps the value and the column index, and the unprotected modes change nothing |
| CsrBuild.EncodedColval | CSR/common.c:143-144 | storing the encoded column next to the unchanged value gives back the codeword |
| CsrBuild.GenerateSed | CSR/CPUContext.cpp:231-234 | the imperative twin of the function `EncodeSed`, returning exactly its value: the SED class stores the SED codeword |
| CsrBuild.GenerateSec7 | CSR/CPUContext.cpp:270-273 | the imperative twin of the function `EncodeSec7`, returning exactly its value: the SEC7 class stores the SEC7 codeword |
| CsrBuild.GenerateSec8 | CSR/CPUContext.cpp:315-319 | the imperative twin of the function `EncodeSec8`, returning exactly its value: the SEC8 class stores the SEC8 codeword |
| CsrBuild.GenerateEccBits | CSR/CPUContext.cpp:26-28 | the imperative twin of the function `Encode`, returning exactly its value: `generate_ecc_bits` stores the codeword of the context's mode, the base class none |
| CsrBuild.InitMatrixEcc | CSR/c/spmv-sec8.c:7-24 | the C `init_matrix_ecc` replaces every column by its codeword's column word |
| CsrBuild.EncodeAt | CSR/CPUContext.cpp:46-53 | one nonzero's column is replaced by its encoding and no other entry changes |
| CsrBuild.Reach | CSR/CPUContext.cpp:55-58 | the row-pointer cursor ends above every row index seen |
| CsrBuild.FirstAtLeast | CSR/CPUContext.cpp:55-58 | the pointer of row r is the first nonzero whose row is at least r |
| CsrBuild.AdvanceRows | CSR/CPUContext.cpp:55-58 | the while loop sets the pointers of rows next_row..row to the current index and moves the cursor past row |
| CsrBuild.FirstAtIndex | CSR/CPUContext.cpp:55-58 | the nonzero that first reaches row r is the pointer of row r |
| CsrBuild.ReachNext | CSR/CPUContext.cpp:55-58 | the cursor grows to row+1 exactly when the row passes it |
| CsrBuild.CreateMatrix | CSR/CPUContext.cpp:30-63 | `create_matrix` stores the encoded columns and the values, points each reached row at its first nonzero, leaves the slots of unreached rows, and sets the last pointer to nnz |
| CsrBuild.FillStep | CSR/CPUContext.cpp:44-59 | one iteration of the loop keeps the stored prefix and the row pointers correct |
| CsrBuild.Filled | CSR/CPUContext.cpp:44-59 | after the loop the arrays hold the encoded matrix and the pointers of all reached rows |
| CsrBuild.FillAll | CSR/CPUContext.cpp:43-59 | the loop stores the encoded nonzeros and the values, points every reached row at its first nonzero, and leaves the other pointers as the buffer held them |
| CsrBuild.StoreNonzero | CSR/CPUContext.cpp:46-53 | one more nonzero is stored encoded |
| CsrBuild.PointRows | CSR/CPUContext.cpp:55-58 | the while loop extends the correct row pointers to the rows up to this nonzero's |
| CsrBuild.FirstAtRange | CSR/CPUContext.cpp:55-58 | every row from the cursor up to this nonzero's row starts at this nonzero |
| CsrBuild.SortedPointer | CSR/CPUContext.cpp:55-60 | for nonzeros sorted by row, the pointer of row r counts the nonzeros of rows below r |
| CsrBuild.NoneBelow | CSR/CPUContext.cpp:55-58 | no nonzero lies below a row that all rows reach |
| CsrBuild.RowMembership | CSR/CPUContext.cpp:55-60 | for sorted rows, nonzero k lies between the pointers of rows r and r+1 exactly when its row is r |
| CsrBuild.FirstAtReach | CSR/CPUContext.cpp:60 | the pointer past the last reached row is nnz |
| CsrSpmv.Apply | CSR/spmv-c.c:194-238 | one step keeps the matrix and result sizes |
| CsrSpmv.Exec | CSR/spmv-c.c:186-242 | a run keeps the matrix and result sizes |
| CsrSpmv.Visits | CSR/spmv-c.c:194 | the inner loop visits the nonzeros of the range in order |
| CsrSpmv.ExecStopped | CSR/spmv-c.c:230 | after an abort or an out-of-bounds access nothing more happens |
| CsrSpmv.ExecSnoc | CSR/spmv-c.c:186-242 | a run one step longer is the shorter run followed by that step |
| CsrSpmv.ExecAppend | CSR/spmv-c.c:186-242 | a run of two lists of events is the second run from where the first ended |
| CsrSpmv.StoppedPrefix | CSR/spmv-c.c:230 | events after a stop do not change the state |
| CsrSpmv.SpmvStopped | CSR/spmv-c.c:188 | rows after the one where the run stopped change nothing |
| CsrSpmv.ResumeWith | CSR/spmv-c.c:234-237 | after its check, a nonzero's visit stores back a corrected colval and adds the masked product |
| CsrSpmv.CheckSed | CSR/spmv-c.c:84-89 | the imperative twin of the function `SedCheck`, returning exactly its value: SED aborts on odd overall parity and otherwise passes the colval as stored |
| CsrSpmv.Unflip | CSR/spmv-c.c:119-123 | the located bit is toggled and written back, or the toggle lands past the colval |
| CsrSpmv.CheckSec7 | CSR/spmv-c.c:115-126 | the imperative twin of the function `Sec7Check`, returning exactly its value: SEC7 corrects any non-zero syndrome and passes a zero one unchanged |
| CsrSpmv.ToggleParity | CSR/spmv-c.c:165-171 | with a zero syndrome under odd parity SEC8 toggles column bit 24, codeword bit 88 |
| CsrSpmv.CheckSec8 | CSR/spmv-c.c:200-232 | the imperative twin of the function `Sec8Check`, returning exactly its value: SEC8 and SECDED correct under odd parity; SECDED aborts on even parity with a non-zero syndrome |
| CsrSpmv.CheckColval | CSR/CPUContext.cpp:236-265 | the imperative twin of the function `EccCheck`, returning exactly its value: the check of each mode's class is the check of that mode |
| CsrSpmv.VisitPlainNonzero | CSR/c/spmv-baseline.c:18-31 | the baseline inner step is the NONE visit |
| CsrSpmv.VisitConstraintsNonzero | CSR/spmv-c.c:49-61 | the CONSTRAINTS inner step aborts on a column past N or out of order and otherwise adds the product |
| CsrSpmv.VisitEccNonzero | CSR/c/spmv-sec7.c:40-51 | the ECC inner step is the mode's visit |
| CsrSpmv.ResumeNonzero | CSR/spmv-c.c:220-237 | the write-back and the masked product of a passed nonzero |
| CsrSpmv.VisitNext | CSR/c/spmv-sed.c:41-46 | the array step extends the run by the visit of nonzero i |
| CsrSpmv.VisitNonzero | CSR/CPUContext.cpp:290-300 | the array step is the visit of nonzero i |
| CsrSpmv.SumRow | CSR/spmv-c.c:194-238 | the inner loop ends where the row's events end, or where the run stopped |
| CsrSpmv.SumStep | CSR/spmv-c.c:196-237 | one iteration of the inner loop is one visit |
| CsrSpmv.MultiplyRow | CSR/spmv-c.c:190-240 | one iteration of the row loop runs that row's events |
| CsrSpmv.ScheduleRow | CSR/CPUContext.cpp:134-150 | the row loop so far is the run of the schedule up to the next row |
| CsrSpmv.Multiply | CSR/spmv-c.c:244-267 | the dispatched kernel ends with the outcome, matrix and result of `Spmv` for the mode |
| CsrSpmv.RowBegin | CSR/spmv-c.c:34-43 | the start of a row is `tmp = 0` or, for CONSTRAINTS, an abort on a bad row pointer |
| CsrSpmv.RowStored | CSR/spmv-c.c:240 | after the inner loop, `result[row] = tmp` |
| CsrReference.NoneStep | CSR/spmv-c.c:15-19 | a NONE step writes no matrix entry and goes on exactly when the nonzero it reads is inside the arrays and the vector |
| CsrReference.NoneExec | CSR/c/spmv-baseline.c:12-43 | a NONE run writes no matrix entry and ends normally exactly when every visit is readable |
| CsrReference.ConstraintsStep | CSR/spmv-c.c:49-61 | a CONSTRAINTS step writes nothing, goes on exactly when its check holds, and then is the NONE step |
| CsrReference.ConstraintsExec | CSR/spmv-c.c:25-68 | a CONSTRAINTS run writes nothing, ends normally exactly when every step is admissible, and then equals the NONE run |
| CsrReference.RowEventsReadable | CSR/spmv-c.c:13-19 | a row's events are readable exactly when every nonzero of the row is inside the arrays and the vector |
| CsrReference.RowEventsAdmissible | CSR/spmv-c.c:34-61 | a row's events pass CONSTRAINTS exactly when its pointers are ordered and inside nnz and its columns are inside N and increasing |
| CsrReference.ScheduleReadable | CSR/spmv-c.c:9-22 | the schedule is readable exactly when every row is |
| CsrReference.ScheduleAdmissible | CSR/CPUContext.cpp:183-226 | the schedule passes CONSTRAINTS exactly when every row is well formed |
| CsrReference.Products | CSR/spmv-c.c:15-19 | the products of a range of nonzeros, in order |
| CsrReference.RowRun | CSR/spmv-c.c:11-21 | NONE sets `result[row]` to the products of the row's nonzeros |
| CsrReference.SumsNext | CSR/spmv-c.c:21 | storing a row's sum extends the row sums by one |
| CsrReference.NoneRows | CSR/spmv-c.c:9-22 | after r readable rows, result holds their sums |
| CsrReference.NoneSpmv | CSR/spmv-c.c:7-23 | NONE never writes the matrix, ends normally exactly when every row is readable, and then every result entry is the sum of its row's products |
| CsrReference.ConstraintsSpmv | CSR/CPUContext.cpp:183-226 | CONSTRAINTS never writes the matrix, ends normally exactly when every row is well formed, and then equals NONE |
| CsrProps.CleanPassSed | CSR/spmv-c.c:84-89 | a SED codeword passes unchanged |
| CsrProps.CleanPassSec7 | CSR/spmv-c.c:115-126 | a SEC7 codeword passes unchanged |
| CsrProps.CleanPassSec8 | CSR/spmv-c.c:152-174 | a SEC8 or SECDED codeword passes unchanged |
| CsrProps.CleanPass | CSR/common.c:118-145 | every protected mode passes its own codewords unchanged, with no write-back |
| CsrProps.NoWrite | CSR/spmv-c.c:70-99 | the non-correcting modes never write a colval back |
| CsrProps.Sec7Fixes | CSR/spmv-c.c:115-126 | SEC7 restores any single flip except of bit 88 |
| CsrProps.Sec7Blind | CSR/spmv-c.c:115-126 | a flip of bit 88 is invisible to SEC7: it passes without a write-back |
| CsrProps.Sec8Fixes | CSR/spmv-c.c:152-174 | SEC8 and SECDED restore any single flip of a clean colval, bit 88 included |
| CsrProps.FlipPassSec7 | CSR/c/spmv-sec7.c:40-51 | SEC7 passes a codeword with one flipped bit other than 88 as the original codeword, with a write-back |
| CsrProps.FlipPassSec8 | CSR/c/spmv-sec8.c:42-64 | SEC8 and SECDED pass a codeword with one flipped bit as the original codeword, with a write-back |
| CsrProps.FlipPass | CSR/spmv-c.c:200-222 | every correcting mode repairs a single flip of its codeword |
| CsrProps.FlipFailSed | CSR/c/spmv-sed.c:41-46 | SED aborts with a parity error on any single flip |
| CsrProps.DoubleFailSecded | CSR/spmv-c.c:223-231 | SECDED aborts with a double-bit error on any two different flips |
| CsrProps.ApplyReadOnly | CSR/spmv-c.c:84-94 | a step of a non-correcting mode writes no matrix entry |
| CsrProps.ExecReadOnly | CSR/spmv-c.c:70-99 | a run of a non-correcting mode writes no matrix entry |
| CsrProps.ReadOnly | CSR/spmv-c.c:244-267 | `spmv` in NONE, CONSTRAINTS or SED leaves `cols` and `values` as they were |
| CsrProps.Encoded | CSR/common.c:118-145 | the encoded state keeps the values and the number of nonzeros |
| CsrProps.EncodedAt | CSR/common.c:143-144 | each entry of the encoded state is its nonzero's codeword |
| CsrProps.CleanCheck | CSR/spmv-c.c:115-129 | an encoded nonzero passes its check, and masking gives back its column |
| CsrProps.CleanVisit | CSR/spmv-c.c:194-238 | visiting an encoded nonzero adds NONE's product and writes nothing |
| CsrProps.CleanApply | CSR/spmv-c.c:186-242 | each step over the encoded matrix is NONE's step over the plain matrix |
| CsrProps.CleanExec | CSR/spmv-c.c:186-242 | a run over the encoded matrix is NONE's run over the plain matrix, columns aside |
| CsrProps.Transparent | CSR/spmv-c.c:244-267 | every protected `spmv` over an encoded matrix gives NONE's outcome and result and leaves the encoded columns as they were |
| CsrProps.Damaged | CSR/CPUContext.cpp:152-178 | a damaged state has the shape of the original |
| CsrProps.DamagedOther | CSR/spmv-c.c:194-238 | the visit of an undamaged nonzero of a damaged matrix adds NONE's product |
| CsrProps.Undamaged | CSR/spmv-c.c:220-221 | writing the codeword back into the damaged slot restores the encoded matrix |
| CsrProps.RepairVisit | CSR/spmv-c.c:205-221 | visiting the damaged nonzero, when its check repairs it, writes back the codeword and adds NONE's product |
| CsrProps.FailVisit | CSR/spmv-c.c:225-230 | visiting the damaged nonzero, when its check fails, aborts at that index |
| CsrProps.RepairApplyAt | CSR/spmv-c.c:194-238 | the step at the damaged nonzero repairs it and is NONE's step |
| CsrProps.EccApply | CSR/spmv-c.c:194-238 | a protected visit is the mode's check and product |
| CsrProps.PlainApply | CSR/c/spmv-baseline.c:18-31 | a NONE visit is the plain product |
| CsrProps.DamagedApplyOff | CSR/spmv-c.c:194-238 | the other steps over a damaged matrix are NONE's with the damage kept |
| CsrProps.FailApplyAt | CSR/spmv-c.c:225-230 | the step at a damaged nonzero that fails its check aborts there |
| CsrProps.RepairApply | CSR/spmv-c.c:200-237 | any step over a repairable damaged matrix is NONE's step, the damage either repaired or kept |
| CsrProps.FailApply | CSR/spmv-c.c:223-231 | any step over a damaged matrix that fails its check aborts at the damage or is NONE's step |
| CsrProps.RepairNext | CSR/spmv-c.c:200-237 | the damage carries from one state of the run to the next |
| CsrProps.FailNext | CSR/spmv-c.c:223-231 | the damage carries from one state of the run to the next |
| CsrProps.RepairExec | CSR/spmv-c.c:186-242 | a run over a repairable damaged matrix is NONE's run, with the damage either repaired or still in place |
| CsrProps.FailExec | CSR/spmv-c.c:186-242 | a run over a damaged matrix that fails its check aborts at the damage or is NONE's run with the damage kept |
| CsrProps.FailVisited | CSR/spmv-c.c:186-242 | a run over a damaged matrix that fails its check aborts at the damage once it visits it, when NONE runs the same events to the end |
| CsrProps.RowVisit | CSR/spmv-c.c:192-194 | the events of one row visit every nonzero from its start pointer up to its end pointer |
| CsrProps.ScheduleVisit | CSR/spmv-c.c:188-194 | the row loop visits every nonzero between the pointers of a row |
| CsrProps.DamagedInitial | CSR/CPUContext.cpp:166-176 | the damaged start state is the encoded matrix with one nonzero replaced |
| CsrProps.FlipCorrected | CSR/spmv-c.c:200-222 | after one flip in an encoded matrix, SEC7 (bit 88 aside), SEC8 and SECDED give NONE's outcome and result, with the flip repaired or, if no row reads the damaged nonzero, still there |
| CsrProps.FlipDetected | CSR/spmv-c.c:84-89 | after one flip in a SED-encoded matrix, `spmv` aborts with a parity error at the flipped index or gives NONE's outcome |
| CsrProps.DoubleFlipDetected | CSR/spmv-c.c:223-231 | after two different flips of one SECDED nonzero, `spmv` aborts with a double-bit error at that index or gives NONE's outcome |
| CsrInject.DrawnBit | CSR/CPUContext.cpp:156-165 | a drawn bit lies in 0..63 for a value flip, 64..95 for an index flip, below 96 otherwise |
| CsrInject.ToggleBit | CSR/common.c:150-153 | `flip_bit` toggles the named bit of the colval |
| CsrInject.DrawnBits | CSR/CPUContext.cpp:163-166 | one drawn bit per draw, in order |
| CsrInject.InjectBitflipAsWritten | CSR/CPUContext.cpp:152-178 | the injector as written picks nonzero `rand() % nnz`, applies its XORs there, and leaves every other nonzero alone |
| CsrInject.ToggleAsWrittenAt | CSR/CPUContext.cpp:166-176 | one XOR as written changes only the chosen nonzero |
| CsrInject.FlipAt | CSR/CPUContext.cpp:163-177 | one round of the corrected loop toggles the drawn bit of the chosen nonzero as `flip_bit` does, and leaves every other nonzero alone |
| CsrInject.InjectBitflip | CSR/CPUContext.cpp:152-178 | the corrected injector toggles exactly the drawn bits of the chosen nonzero and nothing else |
| CsrInject.InjectRegion | CSR/CPUContext.cpp:156-161 | a value flip keeps the column and an index flip keeps the value |
| CsrInject.InjectOne | CSR/CPUContext.cpp:163-177 | one draw is one `flip_bit` |
| CsrInject.FlipAllTwo | CSR/CPUContext.cpp:163-177 | two draws are two `flip_bit`s in order |
| CsrInject.InjectTwo | CSR/CPUContext.cpp:163-177 | two draws toggle the two drawn bits |
| CsrInject.HighWordUnreached | CSR/CPUContext.cpp:169 | for value bits 32..62 the XOR as written leaves the high word of the value alone, where a toggle of that bit changes it |
| CsrInject.SignExtendedFlip | CSR/CPUContext.cpp:169 | for value bit 31 the XOR as written toggles bits 31..63, where a toggle changes bit 31 only |
| CsrLoad.Wrap | CSR/common.c:76-77 | storing an int into a `uint32_t` keeps values in range |
| CsrLoad.Mirrored | CSR/common.c:62-88 | the read loop keeps each entry and adds its transpose off the diagonal, so at most twice as many |
| CsrLoad.Mirror | CSR/common.c:60-88 | the read loop fills the buffer of 2·nnz elements with the mirrored entries |
| CsrLoad.MirrorOne | CSR/common.c:64-87 | one iteration appends the entry and, off the diagonal, its transpose |
| CsrLoad.MirrorMembers | CSR/common.c:62-88 | an element is stored exactly when some entry or its transpose yields it |
| CsrLoad.MirrorLast | CSR/common.c:62-88 | the last entry adds exactly its own elements |
| CsrLoad.SourceLast | CSR/common.c:62-88 | an element comes from the entries exactly when it comes from the earlier ones or the last |
| CsrLoad.MirrorSymmetric | CSR/common.c:81-87 | the stored pattern is symmetric: the transpose of every stored element is stored too |
| CsrLoad.CompareOrder | CSR/common.c:16-33 | for columns below 2^31 the comparison orders by row, then by column, and is zero only on equal positions |
| CsrLoad.CompareWraps | CSR/common.c:31 | a column of 0 in the file wraps to 2^32-1 and then compares as -1, below column 0 |
| CsrLoad.RowsOf | CSR/common.c:98 | the row of each element, in order |
| CsrLoad.ColsOf | CSR/common.c:97 | the column of each element, in order |
| CsrLoad.ValuesOf | CSR/common.c:99 | the value of each element, in order |
| CsrLoad.OrderedRows | CSR/common.c:90 | elements sorted by the comparison have sorted rows |
| CsrLoad.Replicate | CSR/common.c:92-110 | `num_blocks` copies of the sorted elements, one after the other |
| CsrLoad.BlockIndex | CSR/common.c:93-95 | element i of block j has index j·coo_nnz+i |
| CsrLoad.ReplicateAt | CSR/common.c:97-99 | element i of block j is element i moved j blocks down and right |
| CsrLoad.ShiftRow | CSR/common.c:98 | the row of a copy in block j lies in that block's rows |
| CsrLoad.ReplicateSorted | CSR/common.c:92-110 | the replicated rows stay sorted |
| CsrLoad.ReplicatedPair | CSR/common.c:92-110 | any two replicated elements are in row order |
| CsrLoad.BlockRowsOrdered | CSR/common.c:92-110 | element order across and within blocks keeps the rows ordered |
| CsrLoad.ReplicatedRow | CSR/common.c:98 | the row of replicated element p is its source's row plus its block's offset |
| CsrLoad.Replicated | CSR/common.c:92-111 | the replication loop fills `cols` and `values` with the replicated elements and sets the row pointers |
| CsrLoad.SetLast | CSR/common.c:111 | the last row pointer is set to nnz |
| CsrLoad.Fill | CSR/common.c:92-110 | the nested loops store the replicated elements and point every reached row |
| CsrLoad.Close | CSR/common.c:111 | with `rows[height·num_blocks] = nnz` the pointer array is complete |
| CsrLoad.PlaceAll | CSR/common.c:93-110 | the outer loop places every block |
| CsrLoad.PlaceNext | CSR/common.c:93-110 | one round of the outer loop places block `j`, and the next block starts right after it |
| CsrLoad.PlaceBlock | CSR/common.c:95-109 | the inner loop places one block |
| CsrLoad.Place | CSR/common.c:97-108 | one element is placed and the row pointers are advanced to its row |
| CsrLoad.Store | CSR/common.c:106-108 | storing one element extends the stored prefix |
| CsrLoad.Finished | CSR/common.c:92-110 | after the loops the arrays hold the replicated elements and the pointers of all reached rows |
| CsrLoad.ReplicatedRowsBelow | CSR/common.c:98 | every replicated row lies below height·num_blocks |
| CsrLoad.ReplicatedReach | CSR/common.c:101-104 | the row cursor never passes height·num_blocks |
| CsrLoad.ReachAtMost | CSR/common.c:101-104 | a cursor over rows below m stays at most m |
| CsrLoad.MirroredBelow | CSR/common.c:73-87 | with file indices in 1..height every stored row and column is below height |
| CsrLoad.SortedBelow | CSR/common.c:90 | sorting keeps every row and column below height |
| CsrLoad.LoadSparseMatrix | CSR/common.c:35-148 | `load_sparse_matrix`, after the read, stores the replicated sorted mirror of the entries, encoded for the mode, with sorted rows and correct row pointers |
| CsrLoad.PointersCount | CSR/common.c:101-111 | the pointer of a reached row counts the nonzeros above it, and nonzero k lies between rows r and r+1 exactly when its row is r |
| CsrLoad.FullPointers | CSR/common.c:101-111 | when every row is reached every pointer is the first nonzero of its row |
| CsrLoad.LastRowReached | CSR/common.c:92-111 | an entry in the last row or column makes the cursor reach height·num_blocks |
| CsrLoad.LastRowElement | CSR/common.c:81-87 | an entry in the last row or column leaves an element in the last row after mirroring |
| CsrLoad.BlockReach | CSR/common.c:92-110 | an element in the last row reaches the last row of the last block |

## Left out

- Reading the Matrix Market file (`fopen`, `mm_read_mtx_crd_size`, `fscanf` and their error exits in CSR/common.c:40-72) is not modelled. `CsrLoad.LoadSparseMatrix` takes the entries read, 1-based, as a sequence.
- `printf` messages are not modelled. Each `exit(1)` becomes the outcome `Aborted(index, fault)`; the process ending is not modelled.
- Floating-point arithmetic is not modelled. A result entry is the sequence of products (`Term`) in the order the kernel adds them, so rounding and the actual sums are outside the model.
- Memory left uninitialised by `malloc` or `new` is a parameter (`buffer`, the old row-pointer contents). The model says which slots keep it; it does not say what the slots hold.
- `rand()` is not modelled. The values it returns are parameters (`indexDraw`, `draws`).
- The OpenCL context (CSR/OCLContext.cpp) is not part of this model.
- The ARM32 contexts (COO/ARM32Context.cpp, CSR/ARM32Context.cpp) and their assembly kernels are not part of this model, nor are COO/spmv-arm32.c, CSR/spmv-arm32.c and CSR/arm32/spmv-sed.c.
- The CG solver is not part of this model: cg.c, cg.cpp, the `CGContext` registry and the vector kernels.
- COO/common.c is not part of this model. The COO model starts from the arrays `create_matrix` receives.
- OpenMP pragmas and any concurrency are not modelled; every loop is sequential.
- COO/ecc.h is not part of this model. The COO kernels locate a flipped bit with the 128-bit mapping of ecc.c.
- qsort's order between equal positions is left open. `CsrLoad.LoadSparseMatrix` takes the sorted elements as a parameter `sorted`, with the same multiset as the mirrored entries and ordered by `compare_matrix_elements`.
- CsrLoad.LoadSparseMatrix: requires every file index in 1..height (`InRange`), fewer than 2^31 rows and nonzeros, and the qsort output described above. An index of 0 or above height leads the C code to write row pointers out of bounds; `CsrLoad.CompareWraps` exhibits the wrap such an index causes in the comparison.
- CsrBuild.CreateMatrix: requires every row index to be at most N and fewer than 2^31 nonzeros. A larger row index makes the C `while` loop write past `rows[N]`.
- CsrBuild.CreateMatrix: for rows past the last nonempty row, it states only that the slots keep what the buffer held, the same as the C code.
- CsrInject.InjectBitflip and CooInject.InjectBitflip: require at least one nonzero, because `rand() % nnz` divides by zero otherwise.
- CooArm32.Multiply: requires at least one nonzero, because the C loop is a `do`-`while` that reads element 0 before testing the count.
- When the syndrome locates Hamming position 104 or above, the bit it names is 96 or more and `flip_bit` writes past the packed 12-byte colval. The model stops with `OutOfBounds` (the `Overrun` check) and does not model the memory corrupted.
- CsrProps.FlipCorrected: states that the run equals NONE's run with the flip either repaired or still in place, not that it is repaired. A nonzero outside every row's pointer range is never checked.
- CsrProps.FlipDetected: when it aborts, it states no result vector. When no row reads the flipped nonzero, it is never checked, and the run ends in NONE's state with the flip kept.
- CsrProps.DoubleFlipDetected: when it aborts, it states no result vector. When no row reads the damaged nonzero, the run ends in NONE's state with the flips kept.

## Findings

| source | as written | input that shows it | evidently intended | confidence | as-written member | corrected member |
|---|---|---|---|---|---|---|
| CSR/CPUContext.cpp:169 | the value flip XORs the `int` mask `0x1 << (bit % 32)` into the 64-bit value | bit 40: only bit 8 of the low word toggles; bit 31: the mask sign-extends and bits 31..63 all toggle | toggle value bit `bit`, as `flip_bit` does for the column | not executed | CsrInject.InjectBitflipAsWritten | CsrInject.InjectBitflip |
