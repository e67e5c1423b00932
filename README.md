# tinyqr: Givens-rotation QR decomposition, modelled in Dafny

`tinyqr.h` is a header-only library. It computes the QR decomposition of an
n-by-p matrix X (n rows, p columns, 0 < p <= n) using Givens rotations. X is
a flat buffer in column-major order: entry (i, j) sits at `j * n + i`. The
library has two implementations:

- `qr_impl` (baseline) sweeps R in that column-major layout, with stride n.
- `qr_impl2` (transpose) sweeps a row-major copy of X, with stride p. The
  copy is made by `qr_decomposition` (tinyqr.h:212-216) before the call.

Both sweeps run the same loops. Column j goes from 0 to p-1. Inside it, row
i goes from n-1 down to j+1. At each (i, j):

- The step is skipped when `|R(i, j)|` is at most the smallest positive
  scalar.
- Otherwise the rotation `(c, s) = givens_rotation(R(i-1, j), R(i, j))` is
  applied to rows i-1 and i of R, across all p columns.
- Then it is applied to lines i-1 and i of the accumulator Q, which starts
  as the n-by-n identity.

With the cleanup flag switched on, every entry of R whose magnitude is below
`tol` is then set to 0. The facade `qr_decomposition` then:

1. transposes Q in place;
2. compacts R in place onto its first p*p cells, reading cell `i * n + j` for
   output cell `i * p + j`;
3. cuts Q to n*p cells and R to p*p cells.

`render.cpp` is a small tool that turns benchmark output into a table. Its
`tokenize` splits a `key: value` token at the first colon, skips the one
character after the colon, trims spaces from both parts, and throws
`std::out_of_range` when the colon is the last character.

The model is organised like this:

- Scalars are exact `real`s.
- The reciprocal square root `1/sqrt(1 + r^2)` is a parameter
  `invSqrt: real -> real`. The rotation facts that depend on its value
  assume `ExactInvSqrt`.
- `std::numeric_limits<scalar_t>::min()` is a positive parameter `tiny`.
- The two template parameters are ordinary parameters:
  - the cleanup flag is a `bool`;
  - the `QRImpl` choice is `Layout.Variant`.
- Module `Layout` gives the flat index of every entry of R and Q in each
  layout, and proves that each index map is a bijection.
- Module `Elimination` states what one step, the schedule and the whole
  sweep compute, as functions on values.
- Module `Facade` states what `qr_decomposition` returns.
- Module `TinyQr` holds the imperative routines. They work in place on
  `array<real>` buffers, with the source's own loops. Each one is proved
  equal to the value-level function that describes it.
- Module `Tokenize` models `tokenize` on `string`. `npos` is `None`, and
  the exception is the `OutOfRange` result.

The model follows the code as written in two places where it behaves
surprisingly. Each is also modelled corrected, and both are listed under
Findings:

- **The baseline R.** The baseline branch of `qr_decomposition` declares a
  second, local `R` (tinyqr.h:208). The sweep runs on that local copy, so
  the facade compacts and returns the outer `R`, which still holds zeros.
  `Facade.Decomposition` and `TinyQr.QrDecomposition` keep this behaviour.
  `Facade.DecompositionUnshadowed` and `TinyQr.QrDecompositionUnshadowed`
  are the corrected versions (see Findings).
- **The transpose output layout.** `validate_qr` (tinyqr.h:72-79) fixes
  the layout of the result: it reads Q(i, k) at `k * n + i` and R(k, j) at
  `j * p + k`. With the shadowing corrected, the baseline output has this
  layout (`Facade.UnshadowedBaselineR`, `Facade.AssembledQ`). The
  transpose output does not:
  - The transpose sweep stores position b of line a of Q at `a * n + b`,
    which is already the layout validate_qr reads. The facade transposes
    it anyway, so returned cell a*n + b is position a of line b, not
    position b of line a (`Facade.AssembledQ`).
  - The compaction always reads with stride n (tinyqr.h:225), while the
    transpose variant stores R with stride p. For n > p and row i > 0 the
    cell it reads is not the slot of R(i, j) (`Facade.CompactedStride`,
    both directions). Even where it is, the cell lands at `i * p + j`,
    where validate_qr reads R(j, i).

  `Facade.Decomposition` and `TinyQr.QrDecomposition` keep this behaviour.
  `Facade.DecompositionCorrected` and `TinyQr.QrDecompositionCorrected`
  return the validate_qr layout for both variants, and
  `Facade.CorrectedVariantsAgree` proves the two variants then return the
  same decomposition (see Findings).

## Model

| member | source | states |
|---|---|---|
| Givens.GivensRotation | tinyqr.h:38-48 | For any invSqrt, the pair (c, s) makes the rotated lower entry -s*a + c*b equal to zero. It is defined whenever a or b is non-zero. |
| Givens.GivensIsRotation | tinyqr.h:38-48 | With an exact reciprocal square root: c^2 + s^2 = 1, and the rotated upper entry has the squared length a^2 + b^2 of the pair. |
| Givens.LowerBranchIsRotation | tinyqr.h:39-42 | The branch for abs(b) > abs(a), which divides by b, gives a length-preserving rotation. |
| Givens.UpperBranchIsRotation | tinyqr.h:43-46 | The branch for abs(b) <= abs(a), which divides by a, gives a length-preserving rotation. |
| Matrices.IdentityAt | tinyqr.h:59-63 | Cell i*n + j of the identity is 1 on the diagonal and 0 everywhere else. |
| Matrices.TransposedAt | tinyqr.h:51-57 | After the transpose, cell i*p + j holds the original cell j*p + i. |
| Matrices.TransposedBeyond | tinyqr.h:51-57 | Cells past the leading p*p block keep their values. |
| Matrices.TransposedDiagonal | tinyqr.h:51-57 | Diagonal cells keep their values. |
| Matrices.TransposedTwice | tinyqr.h:51-57 | Transposing twice gives back the original buffer. |
| Matrices.TransposeCopyAt | tinyqr.h:212-216 | The row-major copy holds X(i, j), stored at j*n + i, in cell i*p + j. |
| Matrices.CompactedAt | tinyqr.h:222-227 | Output cell i*p + j of the compaction is input cell i*n + j. |
| Matrices.CompactWriteNotPastRead | tinyqr.h:225 | The write index i*p + j never passes the read index i*n + j, so the in-place copy reads only cells it has not yet overwritten. |
| Matrices.Thresholded | tinyqr.h:137-141 | After cleanup every entry is 0 or has magnitude at least tol. Entries of magnitude at least tol are kept, and no entry gets any other value. |
| Matrices.ThresholdedZeroes | tinyqr.h:139 | A non-zero entry is zeroed exactly when its magnitude is below tol. |
| Matrices.ThresholdedIdempotent | tinyqr.h:137-141 | Cleaning twice gives the same result as cleaning once. |
| Layout.RIndexDecodes | tinyqr.h:115-116 | The flat index of R(row, col) decodes back to (row, col) in both layouts. |
| Layout.RIndexInjective | tinyqr.h:113-122 | Two entries of R share a cell exactly when they are the same entry, in both layouts. |
| Layout.RIndexOnto | tinyqr.h:161-170 | Every cell of the n*p buffer is the slot of some in-range entry of R. |
| Layout.QIndexDecodes | tinyqr.h:125-126 | The flat index of (line, pos) of Q decodes back to (line, pos). |
| Layout.QIndexInjective | tinyqr.h:123-132 | Two (line, pos) pairs of Q share a cell exactly when they are the same pair. |
| Layout.QIndexOnto | tinyqr.h:171-180 | Every cell of the n*n buffer is the slot of some (line, pos) of Q. |
| Elimination.Step | tinyqr.h:108-109 | A step keeps the shapes of Q and R. A skipped step, where abs(R(i, j)) <= tiny, leaves both unchanged. |
| Elimination.StepR | tinyqr.h:110-122 | Frame and values on R. Rows other than i-1 and i are unchanged. A taken step writes c*t1 + s*t2 to row i-1 and -s*t1 + c*t2 to row i of every column. |
| Elimination.StepQ | tinyqr.h:123-132 | Frame and values on Q. Lines other than i-1 and i are unchanged. A taken step writes c*t1 - s*t2 to line i and s*t1 + c*t2 to line i-1. |
| Elimination.StepEliminates | tinyqr.h:110-121 | A taken step makes its target entry R(i, j) zero. |
| Elimination.StepKeepsZeroPair | tinyqr.h:113-122 | If rows i-1 and i of a column are both zero, they are still zero after the step. This is why the bottom-up order keeps earlier zeros. |
| Elimination.PassMembers | tinyqr.h:103 | The steps of column j below row i are exactly rows i+1..n-1 of that column. |
| Elimination.PassOrdered | tinyqr.h:103 | Within a column, the row strictly descends. |
| Elimination.ScheduleMembers | tinyqr.h:102-103 | The steps of columns 0..j-1 are exactly the subdiagonal cells of those columns. |
| Elimination.Schedule | tinyqr.h:102-103 | A step is in the schedule exactly when it lies below the diagonal of an n-by-p matrix. |
| Elimination.ScheduleOrdered | tinyqr.h:102-103 | The schedule goes column by column, ascending, and within a column by row, descending. Each step occurs once. |
| Elimination.ScheduleLength | tinyqr.h:102-103 | Columns 0..j-1 hold n*j - j(j+1)/2 steps. |
| Elimination.TakenMembers | tinyqr.h:102-103 | When the counters read (j, i), the steps taken are the earlier columns' subdiagonal cells plus rows i+1..n-1 of column j. |
| Elimination.TakenStep | tinyqr.h:103-133 | One more iteration extends the steps taken by exactly (i, j) and applies that step to the state. |
| Elimination.RotateRowsUpTo | tinyqr.h:113-122 | Rotating rows i-1 and i over the first k columns keeps the length of R. |
| Elimination.RotateLinesUpTo | tinyqr.h:123-132 | Rotating lines i-1 and i over the first k positions keeps the length of Q. |
| Elimination.Sweep | tinyqr.h:102-134 | The sweep keeps the n-by-n shape of Q and the n-by-p shape of R. |
| Elimination.StepKeepsOtherZero | tinyqr.h:110-132 | A zero of R outside rows i-1 and i stays zero after the step at (i, j). |
| Elimination.StepZeroesTarget | tinyqr.h:108-121 | With an exact zero test (tiny = 0), R(i, j) is zero after the step at (i, j), whether it is taken or skipped. |
| Elimination.StepClears | tinyqr.h:103-133 | With tiny = 0, the step at (i, j) keeps the earlier columns zero below the diagonal. It extends the zeros of column j from rows i+1..n-1 to rows i..n-1. |
| Elimination.ColumnPassClears | tinyqr.h:103-133 | With tiny = 0, once the row loop of column j reaches row i, the earlier columns are still zero below the diagonal and column j is zero below row i. |
| Elimination.ScheduleClears | tinyqr.h:102-134 | With tiny = 0, after columns 0..j-1 every entry of those columns below the diagonal is zero. |
| Elimination.SweepUpperTriangular | tinyqr.h:102-134 | With tiny = 0, the swept R is upper triangular: R(i, j) is zero whenever j < p and j < i < n, in either layout. |
| Elimination.StepSameEntries | tinyqr.h:103-133 | If a baseline and a transpose state hold the same Q and R, each in its own layout, one step on each keeps them the same. |
| Elimination.ApplyAllSameEntries | tinyqr.h:102-134 | Any sequence of steps keeps a baseline and a transpose state holding the same matrices. |
| Elimination.SweepSameEntries | tinyqr.h:97-190 | qr_impl and qr_impl2, with or without cleanup, end on the same Q and R from the same matrices, each in its own layout. |
| Elimination.SweepAndClean | tinyqr.h:135-141 | Q is the swept Q. With cleanup, every entry of R is 0 or has magnitude at least tol. Without cleanup, the result is the bare sweep. |
| Facade.Start | tinyqr.h:205-216 | The sweep starts from n-by-n Q and n-by-p R. |
| Facade.Decomposition | tinyqr.h:200-231 | The facade returns n*p cells of Q and p*p cells of R. |
| Facade.AssembledQ | tinyqr.h:221-228 | Returned cell a*n + b of Q is swept cell b*n + a. For the baseline this is position b of line a, so Q holds the first p lines of the swept Q. For the transpose variant it is position a of line b. |
| Facade.BaselineReturnsZeroR | tinyqr.h:206-210 | As written, the baseline facade returns p*p zeros as R, whatever the sweep computed. |
| Facade.CompactedZeros | tinyqr.h:222-227 | Compacting a buffer of zeros gives zeros. |
| Facade.TransposeCompactionStride | tinyqr.h:222-227 | In the transpose variant, returned cell i*p + j of R is swept cell i*n + j. That cell holds R(i, j) when n == p or i == 0. |
| Facade.CompactedStride | tinyqr.h:225 | The read index i*n + j is the row-major slot of R(i, j) exactly when n == p or i == 0. |
| Facade.AssembleUnshadowed | tinyqr.h:207-229 | The corrected assembly returns the same Q as written, for every variant, and is unchanged for the transpose variant. |
| Facade.DecompositionUnshadowed | tinyqr.h:207-210 | The corrected facade returns the same Q as written. For the transpose variant its whole result is the same as written. |
| Facade.UnshadowedBaselineR | tinyqr.h:208-227 | Corrected, the baseline facade returns the leading p-by-p block of the swept and cleaned R: cell i*p + j holds R(j, i). |
| Facade.ShadowingLosesR | tinyqr.h:206-210 | For X = [2.0] (n = p = 1), as written R is [0.0]. Corrected, R is [2.0]. |
| Facade.Assemble | tinyqr.h:218-229 | The assembly returns n*p cells of Q and p*p cells of R. |
| Facade.StartSameEntries | tinyqr.h:205-216 | The baseline input X and the transpose variant's row-major copy hold the same R, and both Q start as the identity. |
| Facade.SweptSameEntries | tinyqr.h:205-217 | The two branches of the facade sweep to the same Q and R, each in its own layout. |
| Facade.AssembleCorrected | tinyqr.h:72-79 | The assembly in the validate_qr layout returns n*p cells of Q and p*p cells of R. For the baseline it is the corrected baseline assembly. |
| Facade.DecompositionCorrected | tinyqr.h:72-79 | The facade with both branches corrected returns n*p cells of Q and p*p cells of R. For the baseline it is the unshadowed facade. |
| Facade.CorrectedQAgrees | tinyqr.h:72-79 | For states holding the same matrices, the corrected transpose Q equals the baseline Q, cell by cell. |
| Facade.CorrectedRAgrees | tinyqr.h:72-79 | For states holding the same matrices, the corrected transpose R equals the baseline R, cell by cell. |
| Facade.CorrectedVariantsAgree | tinyqr.h:200-231 | Corrected, the transpose variant returns exactly the baseline decomposition, for every input. |
| Facade.TwoByOneStart | tinyqr.h:205-216 | For X = [1, 1] with n = 2, p = 1, both variants start from the 2-by-2 identity and R = X. |
| Facade.TwoByOneSwept | tinyqr.h:102-134 | For n = 2, p = 1, the swept Q is the Q of the single step (1, 0). |
| Facade.RotationOfOnes | tinyqr.h:38-48 | The rotation of the pair (1, 1) is c = s = invSqrt(2), which is non-zero. |
| Facade.TwoByOneStepQ | tinyqr.h:123-180 | The step (1, 0) on X = [1, 1] writes t to cell 0 of Q in both layouts. Cell 2 gets t in the baseline layout and -t in the transpose layout. |
| Facade.TransposeQDiffers | tinyqr.h:219-228 | For X = [1, 1], n = 2, p = 1: as written the baseline returns Q = [t, t] and the transpose variant Q = [t, -t], with t != -t. Corrected, the transpose variant returns [t, t]. |
| Facade.CorrectedUpperTriangular | tinyqr.h:72-79 | With tiny = 0, the corrected R of either variant is upper triangular in the validate_qr layout: R(k, j) at j*p + k is zero for j < k < p. |
| TinyQr.TransposeSquare | tinyqr.h:51-57 | In place, the buffer becomes Transposed of its old contents. |
| TinyQr.SwapRow | tinyqr.h:53-55 | One inner-loop row moves the set of already-swapped pairs from row i to row i+1. |
| TinyQr.SwapAdvances | tinyqr.h:54 | One swap extends the swapped pairs by (i, j) and keeps every other cell. |
| TinyQr.EntriesTransposed | tinyqr.h:52-56 | Once every pair is swapped, the buffer is the transpose. |
| TinyQr.MakeIdentity | tinyqr.h:59-63 | A fresh buffer equal to the n-by-n identity. |
| TinyQr.Cleanup | tinyqr.h:137-141 | In place, R becomes Thresholded of its old contents. |
| TinyQr.RotatePair | tinyqr.h:117-121 | Two distinct cells get two blends of their old values. Nothing else changes. |
| TinyQr.RotateRowsBaseline | tinyqr.h:113-122 | The stride-n R loop produces the value-level row rotation. |
| TinyQr.RotateLinesBaseline | tinyqr.h:123-132 | The stride-n Q loop produces the value-level line rotation. |
| TinyQr.RotateRowsTranspose | tinyqr.h:161-170 | The stride-p R loop produces the value-level row rotation. |
| TinyQr.RotateLinesTranspose | tinyqr.h:171-180 | The unit-stride Q loop produces the value-level line rotation. |
| TinyQr.BaselineRowCells | tinyqr.h:115-116 | The cells qr_impl reads in R are the slots of R(i-1, k) and R(i, k), and both are in bounds. |
| TinyQr.BaselineLineCells | tinyqr.h:125-126 | The cells qr_impl reads in Q are the slots of lines i and i-1 at position k, and both are in bounds. |
| TinyQr.TransposeRowCells | tinyqr.h:163-164 | The cells qr_impl2 reads in R are the row-major slots of R(i-1, k) and R(i, k). |
| TinyQr.TransposeLineCells | tinyqr.h:173-174 | The cells qr_impl2 reads in Q are the slots of lines i and i-1 at position k. |
| TinyQr.EliminateBaseline | tinyqr.h:104-133 | One iteration of qr_impl's row loop leaves the pair (Q, R) equal to Elimination.Step. |
| TinyQr.EliminateTranspose | tinyqr.h:151-181 | One iteration of qr_impl2's row loop leaves the pair (Q, R) equal to Elimination.Step. |
| TinyQr.SweepStep | tinyqr.h:103-133 | After one more iteration, the state is the one reached by the steps taken so far, and the counter has moved to i-1. |
| TinyQr.SweepColumn | tinyqr.h:103-133 | After the row loop for column j, the state is the one reached by the schedule of columns 0..j. |
| TinyQr.SweepLoops | tinyqr.h:102-134 | The two loops leave (Q, R) equal to the value-level Sweep of the old contents. |
| TinyQr.QrImpl | tinyqr.h:96-142 | qr_impl leaves (Q, R) equal to SweepAndClean in the baseline layout. |
| TinyQr.QrImpl2 | tinyqr.h:143-190 | qr_impl2 leaves (Q, R) equal to SweepAndClean in the transpose layout. |
| TinyQr.TransposeInto | tinyqr.h:212-216 | The copy loop fills R with the row-major copy of X. |
| TinyQr.CopyRow | tinyqr.h:213-215 | After row i, the first (i+1)*p cells hold the row-major copy of X. |
| TinyQr.Compact | tinyqr.h:222-227 | In place, the first p*p cells become Compacted of the old buffer. The rest is unchanged. |
| TinyQr.QrDecomposition | tinyqr.h:200-231 | The facade, as written, returns Facade.Decomposition. |
| TinyQr.QrDecompositionUnshadowed | tinyqr.h:200-231 | The facade with the baseline R corrected returns Facade.DecompositionUnshadowed. |
| TinyQr.QrDecompositionCorrected | tinyqr.h:200-231 | The facade with both branches corrected returns Facade.DecompositionCorrected. |
| Tokenize.FindFirst | render.cpp:33 | The result is the first index holding c. None means c does not occur at all. |
| Tokenize.FindFirstNotOf | render.cpp:41 | The result is the first index not holding c, with everything before it equal to c. None means every character is c. |
| Tokenize.FindLastNotOf | render.cpp:42 | The result is the last index not holding c, with everything after it equal to c. None means every character is c. |
| Tokenize.TrimLeadingCut | render.cpp:41 | The leading erase removes a prefix made only of spaces. What is left is empty or starts with a non-space. |
| Tokenize.TrimTrailingCut | render.cpp:42 | The trailing erase removes a suffix made only of spaces, including the whole string when npos + 1 wraps to 0. What is left is empty or ends with a non-space. |
| Tokenize.TrimLeadingAt | render.cpp:41 | When the spaces run up to a non-space at a, the erase cuts exactly them. |
| Tokenize.TrimTrailingAt | render.cpp:42 | When the spaces follow a non-space at b-1, the erase cuts exactly them. |
| Tokenize.TrimLeadingSpaces | render.cpp:41-42 | A string of spaces becomes empty. |
| Tokenize.TrimCore | render.cpp:41-44 | The trimmed part is stripped, and it is a segment of the input with only spaces on either side. |
| Tokenize.TrimUnique | render.cpp:41-44 | Any decomposition of the input into spaces, a stripped segment and spaces has that segment as the trimmed result. |
| Tokenize.TrimIdempotent | render.cpp:41-44 | Trimming twice gives the same result as trimming once. |
| Tokenize.TrimEmpty | render.cpp:41-44 | A part trims to empty exactly when it is made only of spaces. |
| Tokenize.TrimStripped | render.cpp:41-44 | A part with no space at either end is left unchanged. |
| Tokenize.TrimPadded | render.cpp:41-44 | Spaces, then a stripped core, then spaces: trimming gives the core. |
| Tokenize.TokenizeNoColon | render.cpp:33-36 | Without a colon, the token is the key, untrimmed, and the value is empty. |
| Tokenize.TokenizeFails | render.cpp:33-38 | tokenize throws exactly when the first colon is the last character. |
| Tokenize.TokenizeAt | render.cpp:37-44 | At the first colon, with a character after it, the key is the trimmed text before the colon. The value is the trimmed text after the skipped character. |
| Tokenize.TokenizeStripped | render.cpp:37-46 | A token with a colon that splits gives two stripped parts, and the key holds no colon. |
| Tokenize.TokenizeKeyValue | render.cpp:32-47 | "key: value" gives ("key", "value"). |
| Tokenize.TokenizeDropsAfterColon | render.cpp:38 | "a:bc" gives ("a", "c"): the character after the colon is dropped even when it is not a space. |
| Tokenize.TokenizeKeepsTabAndColon | render.cpp:41-44 | "k: \t:" gives ("k", "\t:"): only spaces are trimmed, and later colons stay in the value. |
| Tokenize.TokenizeTrimsSpaces | render.cpp:41-44 | " k : v " gives ("k", "v"). |
| Tokenize.TokenizeColonLast | render.cpp:38 | "key:" gives the out-of-range error. |

## Left out

- validate_qr (tinyqr.h:64-91) is not modelled as a routine. It multiplies Q by R, compares each entry with X to within a floating-point epsilon, and prints the outcome. The tolerance test is floating point and the outcome is only printed. The layout it reads is used by `Facade.DecompositionCorrected`.
- Elimination.SweepUpperTriangular: proved only for tiny = 0, an exact zero test. The code skips entries of magnitude up to the smallest positive scalar, and such an entry can stay non-zero and be mixed into later rows by later rotations, so with tiny > 0 R is upper triangular only up to those entries.
- Facade.CorrectedUpperTriangular: proved only for tiny = 0, for the same reason.
- render.cpp `main`: file and stream I/O, so only `tokenize` is modelled.
- nonsqr.cpp, quick.cpp and quick.py: benchmark drivers, timing and printing. They are not part of this model.
- Floating point: scalars are exact reals. The code's `1.0 / sqrt(1.0 + pow(r, 2))` is the parameter `invSqrt`, and the rotation properties assume it is exact (`Givens.ExactInvSqrt`). Rounding, overflow and NaN are not modelled.
- `std::numeric_limits<scalar_t>::min()` is the positive parameter `tiny`. Its value for float and double is not fixed.
- Orthogonality of the accumulated Q and the reconstruction Q*R = X are not proved. The model proves the properties of each step: the rotation preserves length, the target entry is eliminated, zero pairs are kept. It does not prove the global factorisation.
- Callers' obligations: the code checks none of its size assumptions. The model requires |X| == n*p and 0 < p <= n for the facade. For the sweeps it requires 0 < n whenever p > 0, because `n - 1` in `size_t` wraps at n == 0.
- Template parameters (`cleanup`, `QRImpl`, `scalar_t`) are runtime parameters. The scalar type is always `real`.
- `std::vector::resize` to a smaller size is modelled as taking a prefix, `q[..n*p]` and `r[..p*p]`.
- The inner loops of transpose_square and of the transpose-copy are separate methods (`TinyQr.SwapRow`, `TinyQr.CopyRow`). The body of the row loop is `TinyQr.SweepStep`. The loop order and the counters are unchanged.
- `std::out_of_range` from `substr` in `tokenize` is the `Tokenize.OutOfRange` result. Characters are Dafny `char`, and there is no byte encoding.

## Findings

| source | as written | input that shows it | evidently intended | confidence | as-written member | corrected member |
|---|---|---|---|---|---|---|
| tinyqr.h:208 | The baseline branch declares a new local `R = X`, and qr_impl sweeps that copy. The outer `R`, still all zeros, is what gets compacted and returned. | X = [2.0], n = p = 1: as written, R = [0.0] | Sweep the outer R initialised from X, so R = [2.0] | not executed | Facade.ShadowingLosesR | TinyQr.QrDecompositionUnshadowed |
| tinyqr.h:219-227 | The transpose branch stores Q line by line and R row by row with stride p. The facade transposes Q and compacts R with stride n anyway, so the result is not in the layout validate_qr reads (tinyqr.h:72-79). | X = [1, 1], n = 2, p = 1: the baseline returns Q = [t, t], the transpose variant Q = [t, -t], with t = 1/sqrt(2) | Both variants return the layout validate_qr reads, so the transpose variant returns the baseline result | not executed | Facade.TransposeQDiffers | TinyQr.QrDecompositionCorrected |
