# Sparse int8 weight prepacking

This project models the host-side preparation that the int8 sparse
convolution test performs before it calls the sparse matrix kernel. The
weights form an M x K matrix (`ch_out` x `ch_in`, row-major). They are
profiled and then packed into three buffers:

- `nonzero_output`: the retained weight values;
- `oc_nonzeros`: one running count of retained units per output group;
- `diffs`: byte offsets, scaled by the activation stride N (`im_size`),
  that walk the kernel's input pointer from one retained column to the next.

There are two layouts:

- **Unstructured.** One unit per nonzero weight and one group per output row.
- **Semi-structured (block).** The rows are taken in pairs. Each column where
  either row of a pair is nonzero becomes one two-value unit, and each pair is
  one group. When M is odd, the last row is encoded unstructured as a final
  group.

The profiler counts, over the paired rows:

- P, the nonzeros;
- B, the active (pair, column) cells;
- R, the nonzeros of the odd last row.

It picks the block layout when `5P >= 9B` and M > 1. It then reports:

- the zero count;
- the size of the value buffer;
- the number of groups;
- the number of deltas.

The test skips matrices that have no nonzero. Otherwise it sizes the buffers
from the profile and runs the encoder of the chosen layout.

The modules:

- **Weights.** The int8 matrix, zero and nonzero counts, and the row-wise
  decomposition of those counts.
- **Profiler.** `ComputeSparseZeros` and `ComputeSemiSparseZeros` as loops,
  proved against the counting functions and the `Profile` specification.
- **Encoding.** The specification of the packed form, written without loops:
  - the units of each layout in scan order (`Units`);
  - their values (`ValuesOf`);
  - the running counts (`Cum`);
  - the deltas (`Deltas`);
  - the returned first column (`Encode`).

  It also holds `Replay`: how a consumer recovers each unit's column offset
  from `first_ic`, the counts and the deltas alone.
- **Encoder.** `ComputeSparseWeight` and `ComputeSemiSparseWeight` as
  imperative passes over arrays. The first pass writes the values, the raw
  column steps and the counts. The second pass (`FoldDeltas`) turns the step
  at the end of every group into the running total from the first column.
  The wrap writes the step back to the first column. Each method is proved to
  leave the buffers equal to `Encode`.
- **Prepack.** The test's glue: profile, skip, allocate the three buffers
  at the profile's sizes, and dispatch.

The left operand of the decision rule, `num_block2_nonzeroes`, is the
number of nonzeros in the paired rows (P), not the number of full cells
(pair cells where both rows are nonzero). Because P = B + F, with F the full
cells, `Profiler.DecisionByFullCells` shows that the rule is the same as
`5F >= 4B`.

All source paths below are relative to the repository root. The file is
`lite/tests/math/sparse_conv_int8_compute_test.cc`.

## Model

| member | source | states |
|---|---|---|
| Weights.CellAt | lite/tests/math/sparse_conv_int8_compute_test.cc:158 | element (r, c) of the row-major matrix is `weights[r * K + c]`, inside the buffer |
| Weights.NonzerosFacts | lite/tests/math/sparse_conv_int8_compute_test.cc:157-159 | the packed nonzeros of a buffer are as many as its nonzero count and none of them is zero |
| Weights.ZeroNonzeroSplit | lite/tests/math/sparse_conv_int8_compute_test.cc:60-70 | the zeros that `ComputeSparseZeros` counts plus the nonzeros make up the whole buffer |
| Weights.RowsNzSplit | lite/tests/math/sparse_conv_int8_compute_test.cc:86-120 | counting nonzeros over rows lo..mid and mid..hi adds up to counting over lo..hi |
| Weights.PrefixNonzeros | lite/tests/math/sparse_conv_int8_compute_test.cc:155-158 | the nonzeros before position (r, c) of the buffer are those of the rows before r plus those of row r before column c |
| Weights.MatrixNonzeros | lite/tests/math/sparse_conv_int8_compute_test.cc:115-120 | the nonzero count of the matrix is the sum of its rows' nonzero counts |
| Weights.RowNzBound | lite/tests/math/sparse_conv_int8_compute_test.cc:157-170 | a row's nonzero count never decreases as more columns are scanned |
| Profiler.ComputeSparseZeros | lite/tests/math/sparse_conv_int8_compute_test.cc:60-70 | the result is the number of zeros among the first `num` elements, and together with the nonzeros it makes `num` |
| Profiler.ScanQuadColumns | lite/tests/math/sparse_conv_int8_compute_test.cc:86-103 | one four-row step adds the nonzeros and the active cells of two row pairs |
| Profiler.ScanPairColumns | lite/tests/math/sparse_conv_int8_compute_test.cc:104-113 | one two-row step adds the nonzeros and the active cells of one row pair |
| Profiler.ScanPairedRows | lite/tests/math/sparse_conv_int8_compute_test.cc:86-114 | the four-row and two-row loops together yield P and B over rows 0..2*(M/2) |
| Profiler.ScanTrailingRows | lite/tests/math/sparse_conv_int8_compute_test.cc:115-120 | the last loop adds the nonzeros R of the rows after the last whole pair |
| Profiler.Alignments | lite/tests/math/sparse_conv_int8_compute_test.cc:84-85 | `height & -4` and `height & -2` are nested multiples of 4 and 2, at most `height`, and `align2` differs from `align4` by 0 or 2 |
| Profiler.ComputeSemiSparseZeros | lite/tests/math/sparse_conv_int8_compute_test.cc:72-137 | the five outputs are exactly the zero count, value count, group count, delta count and layout flag of `Profile` |
| Profiler.PairCellCounts | lite/tests/math/sparse_conv_int8_compute_test.cc:97-98 | a pair's nonzeros are its active cells plus its full cells, and no pair has more full cells than active ones |
| Profiler.BlockCounts | lite/tests/math/sparse_conv_int8_compute_test.cc:121-126 | P = B + F and B <= P <= 2B over all pairs |
| Profiler.PairRows | lite/tests/math/sparse_conv_int8_compute_test.cc:104-113 | a pair's nonzeros are its two rows' nonzeros |
| Profiler.PairedRows | lite/tests/math/sparse_conv_int8_compute_test.cc:86-114 | P is the nonzero count of the paired rows |
| Profiler.PairedPlusTrailing | lite/tests/math/sparse_conv_int8_compute_test.cc:114-120 | P + R is the nonzero count of the whole matrix |
| Profiler.ProfileCounts | lite/tests/math/sparse_conv_int8_compute_test.cc:121-136 | zeros = M*K - values; deltas <= values. The block layout is chosen iff M > 1 and 5P >= 9B. Unstructured: M groups, and values = deltas = all nonzeros. Block: ceil(M/2) groups, 2B + R values and B + R deltas |
| Profiler.SemiPadding | lite/tests/math/sparse_conv_int8_compute_test.cc:125-126 | when the block layout is chosen, its zero padding (2B - P) is at most a tenth of the paired values 2B |
| Profiler.DecisionByFullCells | lite/tests/math/sparse_conv_int8_compute_test.cc:125 | the decision holds iff M > 1 and 5F >= 4B, F being the full cells |
| Profiler.SkipIffAllZero | lite/tests/math/sparse_conv_int8_compute_test.cc:481-484 | the test skips (`nonzero_num <= 0`) exactly when the matrix has no nonzero |
| Encoding.ReplayRoundTrip | lite/tests/math/sparse_conv_int8_compute_test.cc:173-192 | starting from `first_ic`, the counts and the deltas give back every unit's column as a byte offset scaled by N |
| Encoding.ReplayWraps | lite/tests/math/sparse_conv_int8_compute_test.cc:189-192 | the last delta takes the last unit's offset back to the first unit's column |
| Encoding.RowScanFacts | lite/tests/math/sparse_conv_int8_compute_test.cc:157-158 | a row's units are its nonzero cells, as many as its nonzero count, in that row and in the scanned columns, in strictly increasing column order |
| Encoding.PairScanFacts | lite/tests/math/sparse_conv_int8_compute_test.cc:219-223 | a pair's units are the cells where either row is nonzero, as many as its active cells, in strictly increasing column order |
| Encoding.RowScanComplete | lite/tests/math/sparse_conv_int8_compute_test.cc:157-158 | every nonzero cell of a row in the scanned columns is one of the row's units |
| Encoding.PairScanComplete | lite/tests/math/sparse_conv_int8_compute_test.cc:219-227 | every column where either row of the pair is nonzero is one of the pair's units |
| Encoding.CumFacts | lite/tests/math/sparse_conv_int8_compute_test.cc:171 | the group counts are non-decreasing and entry i is the number of units of groups 0..i; the last is the total |
| Encoding.PairedValues | lite/tests/math/sparse_conv_int8_compute_test.cc:224-227 | a pair unit stores its two rows' values at positions 2j and 2j+1 |
| Encoding.SingleValues | lite/tests/math/sparse_conv_int8_compute_test.cc:244-245 | a one-row unit stores its one value at position j |
| Encoding.UnstructuredPrefix | lite/tests/math/sparse_conv_int8_compute_test.cc:155-159 | after scanning up to (r, c), the unstructured values are the nonzeros of the buffer prefix up to r*K + c, in order |
| Encoding.UnstructuredCount | lite/tests/math/sparse_conv_int8_compute_test.cc:171 | the units of rows 0..r are as many as the nonzeros of the buffer up to the end of row r |
| Encoding.UnstructuredValues | lite/tests/math/sparse_conv_int8_compute_test.cc:155-172 | the unstructured values are exactly the nonzero weights in row-major order |
| Encoding.UnstructuredCounts | lite/tests/math/sparse_conv_int8_compute_test.cc:171 | `oc_nonzeros[r]` is the number of nonzeros up to the end of row r |
| Encoding.UnstructuredEncoding | lite/tests/math/sparse_conv_int8_compute_test.cc:139-194 | the values are the nonzeros; there is one delta per value and M running counts ending at the total; entry r counts the nonzeros through row r |
| Encoding.SemiPairUnits | lite/tests/math/sparse_conv_int8_compute_test.cc:217-241 | the pair groups hold B units, each storing two rows |
| Encoding.SemiEncoding | lite/tests/math/sparse_conv_int8_compute_test.cc:196-300 | the block encoding has 2B + R values, B + R deltas and ceil(M/2) running counts ending at the number of deltas |
| Encoding.SemiSizes | lite/tests/math/sparse_conv_int8_compute_test.cc:130-133 | block units number B + R and their values 2B + R, for odd and even M |
| Encoding.EncodeMatchesProfile | lite/tests/math/sparse_conv_int8_compute_test.cc:488-496 | the buffer sizes the profiler reports are exactly the lengths of the chosen encoding |
| Encoding.UnitsPrefix | lite/tests/math/sparse_conv_int8_compute_test.cc:155-172 | the units of the first g1 groups are a prefix of those of the first g2 groups |
| Encoding.ValuesAppend | lite/tests/math/sparse_conv_int8_compute_test.cc:157-159 | packing two unit sequences one after the other packs their concatenation |
| Encoder.Telescope | lite/tests/math/sparse_conv_int8_compute_test.cc:173-188 | the running total of the raw steps through unit t is the offset from the first unit's column to unit t's |
| Encoder.SumGroup | lite/tests/math/sparse_conv_int8_compute_test.cc:176-183 | one inner fold loop adds the next `count` raw steps to the running total |
| Encoder.FoldDeltas | lite/tests/math/sparse_conv_int8_compute_test.cc:173-188 | the fold leaves every delta but the last equal to `Delta`: the running total at a group end, the raw step elsewhere; the semi-structured fold (260-294) is the same loop over its groups |
| Encoder.ScannedFacts | lite/tests/math/sparse_conv_int8_compute_test.cc:155-172 | the first pass over units us writes their values and one raw step between consecutive units, sets `first_ic` to the first column, `last_ic` to the last, and clears `first_nonzero` iff us is non-empty |
| Encoder.RecordColumn | lite/tests/math/sparse_conv_int8_compute_test.cc:160-167 | the first unit sets `first_ic`; a later one appends the scaled step from `last_ic`; `last_ic` becomes the column |
| Encoder.EmitCell | lite/tests/math/sparse_conv_int8_compute_test.cc:158-167 | one nonzero weight is appended to the values and recorded as in `Emit` |
| Encoder.EmitColumn | lite/tests/math/sparse_conv_int8_compute_test.cc:157-169 | one column step extends the first pass by the cell's unit, if it is nonzero, and adds 1 to the row's count |
| Encoder.EmitRow | lite/tests/math/sparse_conv_int8_compute_test.cc:156-170 | the column loop appends the row's nonzeros and leaves the row's count as its nonzero count |
| Encoder.EmitRowGroup | lite/tests/math/sparse_conv_int8_compute_test.cc:155-171 | one row step appends that row's units and stores the running total in `oc_nonzeros[ocb]` |
| Encoder.EmitRowStep | lite/tests/math/sparse_conv_int8_compute_test.cc:155-171 | one pass of the outer row loop takes the first-pass state after rows 0..ocb-1 (units emitted, their running counts stored in `oc_nonzeros`) to the state after rows 0..ocb |
| Encoder.EmitRows | lite/tests/math/sparse_conv_int8_compute_test.cc:155-172 | the first unstructured pass leaves the state `Scanned` of all units and `oc_nonzeros[0..M)` equal to the running counts |
| Encoder.WrapDeltas | lite/tests/math/sparse_conv_int8_compute_test.cc:189-192 | the wrap completes the deltas to `Deltas` (nothing happens for an empty matrix) |
| Encoder.FinishDeltas | lite/tests/math/sparse_conv_int8_compute_test.cc:173-192 | fold and wrap turn the raw steps of the first pass into `Deltas` |
| Encoder.ComputeSparseWeight | lite/tests/math/sparse_conv_int8_compute_test.cc:139-194 | values, `oc_nonzeros[0..M)`, deltas and the returned `first_ic` equal the unstructured `Encode` |
| Encoder.BlockIsNonzero | lite/tests/math/sparse_conv_int8_compute_test.cc:219-223 | the block test is true iff either row of the pair is nonzero at that column |
| Encoder.EmitBlock | lite/tests/math/sparse_conv_int8_compute_test.cc:224-227 | an active block appends both rows' values, upper row first |
| Encoder.EmitPairCell | lite/tests/math/sparse_conv_int8_compute_test.cc:224-235 | an active block is appended and recorded as in `Emit` |
| Encoder.EmitActivePair | lite/tests/math/sparse_conv_int8_compute_test.cc:224-237 | an active block extends the first pass by its pair unit |
| Encoder.EmitPairColumn | lite/tests/math/sparse_conv_int8_compute_test.cc:218-238 | one column of a pair extends the first pass by its unit when the block is active, counts it in `block_n` and adds 1 to `oc_nonzeros[g]`, leaving the earlier counts alone |
| Encoder.EmitPairRow | lite/tests/math/sparse_conv_int8_compute_test.cc:218-239 | the column loop of a pair appends the pair's units and adds their number to `oc_nonzeros[g]` |
| Encoder.EmitPair | lite/tests/math/sparse_conv_int8_compute_test.cc:217-241 | one pair step appends the pair's units and stores `block_n` as the pair's running count |
| Encoder.PairUnitsAreUnits | lite/tests/math/sparse_conv_int8_compute_test.cc:217-241 | the units of the first g pairs are the block layout's units of its first g groups |
| Encoder.PairCountsAreCum | lite/tests/math/sparse_conv_int8_compute_test.cc:240 | the stored pair counts are the block layout's running counts |
| Encoder.EmitPairs | lite/tests/math/sparse_conv_int8_compute_test.cc:217-241 | the pair loop leaves the state `Scanned` of all pair units and `oc_nonzeros[0..M/2)` equal to their running counts |
| Encoder.EmitActiveSingle | lite/tests/math/sparse_conv_int8_compute_test.cc:244-255 | a nonzero of the odd row extends the first pass by its one-row unit |
| Encoder.EmitTrailingColumn | lite/tests/math/sparse_conv_int8_compute_test.cc:243-256 | one column of the odd row extends the first pass when the cell is nonzero and adds 1 to `oc_nonzeros[block_index]` |
| Encoder.EmitTrailingRow | lite/tests/math/sparse_conv_int8_compute_test.cc:243-257 | the column loop appends the odd row's nonzeros and adds their number to `oc_nonzeros[block_index]` |
| Encoder.EmitLastRow | lite/tests/math/sparse_conv_int8_compute_test.cc:242-259 | one row step of the trailing loop keeps the trailing-loop invariant and stores the running count |
| Encoder.EmitTrailing | lite/tests/math/sparse_conv_int8_compute_test.cc:242-259 | the trailing loop appends the units of the rows from `align2` on and stores one more running count iff M is odd |
| Encoder.SemiUnitsSplit | lite/tests/math/sparse_conv_int8_compute_test.cc:211-259 | block units are the pair units followed by the odd row's units; block counts are the pair counts, plus the total when M is odd |
| Encoder.SemiPassFacts | lite/tests/math/sparse_conv_int8_compute_test.cc:211-259 | in the block layout the pairs hold B units and the odd row R, and the values number 2B + R |
| Encoder.EmitSemi | lite/tests/math/sparse_conv_int8_compute_test.cc:211-259 | both loops of the first block pass leave the state `Scanned` of all block units and the ceil(M/2) running counts |
| Encoder.ComputeSemiSparseWeight | lite/tests/math/sparse_conv_int8_compute_test.cc:196-300 | values, `oc_nonzeros[0..ceil(M/2))`, deltas and the returned `first_ic` equal the block `Encode` |
| Prepack.PrepackWeights | lite/tests/math/sparse_conv_int8_compute_test.cc:464-518 | skips exactly the all-zero matrices. Otherwise the buffers have the profile's sizes (M entries for `oc_nonzeros`) and hold the encoding of the profile's layout, with `first_ic` returned |

## Left out

- Integer widths are unbounded: `int32_t` deltas, `uint32_t` counts, and the
  `size_t` column differences of the block encoder that are cast to `int`.
  The casts give the same value for any matrix whose offsets fit in 32 bits.
  Overflow of `diff * N` is not modelled.
- `sizeof(T)` is the parameter `s`. The tensor element type is `int8_t`,
  modelled as `Int8`. The `Tensor` objects are plain arrays, and `Resize` is
  an allocation.
- `height & (-4)` and `M & (-2)` are written `M / 4 * 4` and `M / 2 * 2`.
  These are equal for the non-negative sizes involved.
- `num_nonzero_blocks4` in `ComputeSemiSparseZeros` is never read, so it is
  not computed. The encoder parameters `num_nonzeroes`, `count_nonzeroes`,
  `count_channels` and `count_blocks` are never read either, so they are not
  parameters.
- The block encoder's `oc_nonzeros[block_index] += 1` (lines 236 and 254)
  starts from whatever the entry held, because the source never resets it.
  The model does the same, and line 240 or 258 then overwrites the entry
  with `block_n`, so the final counts do not depend on it.
- Encoder.ComputeSparseWeight, Encoder.ComputeSemiSparseWeight: the
  contracts fix the written prefixes of `values`, `diffs` and `oc_nonzeros`.
  They do not promise that the entries past those prefixes keep their old
  values, although the source never writes there.
- Encoder.FoldDeltas: the two fold loops of the block encoder (260-294) have
  the same body, keyed by a running group index, so they are modelled as the
  one fold loop over all groups. The last group's inner loop reads the last
  `diffs` slot before the wrap writes it, so the fold's contract leaves that
  slot unconstrained, and the wrap then sets it.
- The loops are split into one method per loop body (`EmitRow`, `EmitPair`,
  `EmitLastRow` and so on). Control flow and order of writes are unchanged.
- `Cell` reads a position past the end of the buffer as 0. It is used only
  with in-range positions, under `|w| == M * K`.
- The NEON kernels (`sparse_conv_int8_*`), the reference GEMM, the random
  weight generation, timers, command-line flags, and the result comparison of
  the test are outside this model.

