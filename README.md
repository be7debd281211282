# linear_alg kernel, modelled in Dafny

This project models the linear-algebra kernel of `linear_alg`, in `src/math/`.
It covers three things:

- the vector type `Vec` (`vec.rs`);
- the fixed-shape matrix `Mat2d<T, M, N>` and its one-shot forward elimination `row_reduced` (`mat.rs`);
- the step-emitting elimination `GaussElimIter` (`gauss.rs`). Its `next()` performs at most one elementary row operation per call and returns that `Step` together with a snapshot of the matrix.

Scalars are exact reals, and the code's zero tests compare exactly. Two kinds of hazard are an explicit `Fault`:

- an index out of range, or a failed `assert!`, which Rust turns into a panic;
- a zero divisor, which for `f64` gives a non-finite value.

Files, one module each:

- `outcomes.dfy` (`Outcomes`): `Option`, `Result` and `FaultKind`.
- `vec.dfy` (`Vectors`):
  - the pure operators `-`, `*` and `/` and the constructors `zeros` and `ones`, as functions on `seq<real>`;
  - a class `Vec` whose field `elems` is the wrapped sequence. `resize` and `index_mut` are methods that update it in place.
- `mat.dfy` (`Matrices`):
  - a class `Mat2d` with constants `M` (the row length) and `N` (the row count), over a fixed-size `array` of N rows;
  - `row_reduced` as a method with the source's nested `for` loops, proved equal to the specification function `RowReduction`;
  - lemmas describing each stage of `RowReduction`.
- `gauss.dfy` (`Gauss`):
  - `Step`, and `Apply`, which replays a step on a matrix;
  - the specification `Pull` / `Scan` of `next()`'s outer and inner `loop`;
  - the class `GaussElimIter`, whose method `Next` is proved equal to `Pull`. The inner `loop` is the helper method `ScanColumn`; the outer loop calls it.
  - lemmas about single calls, and about draining the iterator.
- `corrected.dfy` (`Corrected`): the elimination that the comments and the step names describe, for the defects listed under Findings. The corrected `row_reduced` is proved never to fault and to return an upper triangular matrix. The corrected iterator is proved never to fault; a drain of it that reaches None ends on an upper triangular matrix, namely the one the corrected `row_reduced` returns.

Where the code and its documentation disagree, the model follows the code:

- `shape()` returns `(M, N)`, that is (row length, row count).
- `row_reduced` searches for a row whose entry *equals* zero.
- The iterator bounds `row` by `min(M, N)`.

## Model

| member | source | states |
|---|---|---|
| Vectors.Zeros | src/math/vec.rs:15-22 | `zeros(n)` has length n and every entry is 0 |
| Vectors.Ones | src/math/vec.rs:24-31 | `ones(n)` has length n and every entry is 1 |
| Vectors.Sub | src/math/vec.rs:57-76 | faults with a length mismatch exactly when the lengths differ; otherwise it has that length and entry k is `a[k] - b[k]` |
| Vectors.Mul | src/math/vec.rs:109-121 | same length as the operand, and entry k is `x[k] * s` |
| Vectors.Div | src/math/vec.rs:123-135 | faults with a zero divisor exactly when `s == 0` and the vector is nonempty; otherwise entry k is `x[k] / s` |
| Vectors.Resized | src/math/vec.rs:49-54 | the new length is n, the first `min(old, n)` entries are kept, and new positions hold `value` |
| Vectors.SubSelf | src/math/vec.rs:57-76 | `a - a` is the zero vector of a's length |
| Vectors.SubZeros | src/math/vec.rs:57-76 | subtracting `zeros(len)` gives the vector back |
| Vectors.MulByZero | src/math/vec.rs:109-121 | scaling by 0 gives `zeros(len)` |
| Vectors.MulOnes | src/math/vec.rs:109-121 | `ones(n) * s` is the constant vector s |
| Vectors.MulDivRoundTrip | src/math/vec.rs:109-135 | for `s != 0`, `(x * s) / s` is x |
| Vectors.SubScaledCancels | src/math/mat.rs:76-78 | `x - y * (x[i] / y[i])` is exactly 0 at position i when `y[i] != 0` |
| Vectors.ResizeRoundTrip | src/math/vec.rs:49-54 | growing and then truncating back to the old length restores the vector |
| Vectors.ResizeSameLength | src/math/vec.rs:49-54 | resizing to the current length changes nothing |
| Vectors.Vec.FromArray | src/math/vec.rs:156-160 | the array's elements, in order |
| Vectors.Vec.FromStdVec | src/math/vec.rs:162-166 | the given elements, unchanged |
| Vectors.Vec.FromIter | src/math/vec.rs:168-173 | the yielded items, in order |
| Vectors.Vec.Len | src/math/vec.rs:41-43 | the number of elements |
| Vectors.Vec.Get | src/math/vec.rs:45-47 | None exactly when `k >= len`, otherwise element k |
| Vectors.Vec.Index | src/math/vec.rs:143-148 | faults (index out of range) exactly when `k >= len`, otherwise element k |
| Vectors.Vec.SetAt | src/math/vec.rs:150-154 | writes exactly element k; out of range faults and changes nothing |
| Vectors.Vec.Resize | src/math/vec.rs:49-54 | the new contents are `Resized(old, n, value)` |
| Vectors.GetAgreesWithIndex | src/math/vec.rs:45-47 | `get` and indexing agree on every position |
| Matrices.ZeroRows | src/math/mat.rs:16-23 | N rows of length M, every entry 0 |
| Matrices.OneRows | src/math/mat.rs:25-32 | N rows of length M, every entry 1 |
| Matrices.IdentityRows | src/math/mat.rs:34-49 | n-by-n; entry (r, c) is 1 when r == c and 0 otherwise |
| Matrices.Swapped | src/math/mat.rs:51-53 | rows x and y trade places; every other row is unchanged |
| Matrices.RowMinusScaled | src/math/mat.rs:78 | entry k is `x[k] - y[k] * scale` |
| Matrices.RowMinusScaledIsSubMul | src/math/mat.rs:78 | the row operation is exactly `x.sub(&y.mul(scale))` on rows of equal length, and `sub` does not fault |
| Matrices.Position | src/math/mat.rs:69 | the first row from `from` whose column-c entry is zero (or nonzero); None exactly when no row qualifies |
| Matrices.EliminateBelow | src/math/mat.rs:75-80 | keeps the shape; the only fault is a zero divisor |
| Matrices.Stage | src/math/mat.rs:66-80 | one pass of the outer loop, the zero-pivot search and swap then the inner loop; keeps the shape (its effect is stated by `StageNonzeroPivot` and `StageZeroPivot`) |
| Matrices.ThenReduceFrom | src/math/mat.rs:65-84 | a stage's fault ends the reduction with that fault; otherwise the later stages run on its rows, keeping the shape |
| Matrices.ReduceFrom | src/math/mat.rs:65-81 | the stages from i up to `min(M,N)`, in order, stopping at the first fault; keeps the shape |
| Matrices.RowReduction | src/math/mat.rs:55-84 | all stages from 0; a result keeps the shape (its value is stated by `IdentityIsRowReduced`, `MainExample` and the findings lemmas) |
| Matrices.Mat2d.Zeros | src/math/mat.rs:16-23 | a fresh matrix whose rows are `ZeroRows(M, N)` |
| Matrices.Mat2d.Ones | src/math/mat.rs:25-32 | a fresh matrix whose rows are `OneRows(M, N)` |
| Matrices.Mat2d.Clone | src/math/mat.rs:10-13 | a fresh array holding the same rows |
| Matrices.Mat2d.FromArray | src/math/mat.rs:128-138 | row k equals `arr[k]` for every k < N |
| Matrices.Mat2d.Identity | src/math/mat.rs:34-49 | None exactly when `M != N`; otherwise a newly allocated matrix, over a newly allocated array, holding the identity rows |
| Matrices.Mat2d.SwapRow | src/math/mat.rs:51-53 | in place, the rows become `Swapped(old, from, to)`; an index `>= N` faults and changes nothing |
| Matrices.Mat2d.Shape | src/math/mat.rs:86-88 | exactly `(M, N)`: the second component is the number of rows, and the first is the length of every row |
| Matrices.Mat2d.Index | src/math/mat.rs:115-120 | row r, or an index-out-of-range fault exactly when `r >= N` |
| Matrices.Mat2d.SetRow | src/math/mat.rs:122-126 | replaces exactly row r; out of range faults and changes nothing |
| Matrices.Mat2d.RowReduced | src/math/mat.rs:55-84 | the nested loops on a clone compute `RowReduction` of the receiver's rows, which are left unchanged |
| Matrices.Mat2d.EliminateColumn | src/math/mat.rs:75-80 | the inner `for j` loop, in place, leaves exactly the rows `EliminateBelow` computes, or reports the zero divisor it meets |
| Matrices.SwapTwice | src/math/mat.rs:51-53 | swapping the same two rows twice restores the matrix |
| Matrices.SwapSame | src/math/mat.rs:51-53 | `swap_row(a, a)` changes nothing |
| Matrices.SwapKeepsShape | src/math/mat.rs:51-53 | a swap keeps N rows of length M |
| Matrices.Eliminated | src/math/mat.rs:76-78 | the row written by elimination has a zero in the pivot column |
| Matrices.EliminateBelowNonzeroPivot | src/math/mat.rs:75-80 | with a nonzero pivot the inner loop never faults. It replaces exactly the rows from j0 on that are nonzero in column i, each by `row_r - (a[r][i] / a[i][i]) * row_i` |
| Matrices.EliminateBelowZeroPivot | src/math/mat.rs:75-80 | with a zero pivot the inner loop faults exactly when a later row is nonzero in column i, and otherwise changes nothing |
| Matrices.StageNonzeroPivot | src/math/mat.rs:65-80 | stage i with a nonzero pivot leaves rows `<= i` and rows already zero in column i untouched. It replaces every other row below by `row_j - (a_ji / a_ii) * row_i`, and column i below the pivot ends up exactly zero |
| Matrices.StageZeroPivot | src/math/mat.rs:67-77 | the `==` search always finds a row `idx <= i`, so the `continue` is unreachable. The swapped pivot is still zero, and the stage faults exactly when a row below is nonzero in column i |
| Matrices.IdentityStagesFrom | src/math/mat.rs:65-81 | every stage leaves the identity unchanged |
| Matrices.IdentityIsRowReduced | src/math/mat.rs:55-84 | `row_reduced` of the identity is the identity |
| Matrices.MainExample | src/main.rs:7-8 | the example input reduces exactly to `[[1,2,1,1],[0,-13,-9,-2],[0,0,-4/13,15/13]]` |
| Matrices.ZeroSearchDividesByZero | src/math/mat.rs:69 | as written, `[[0,1],[1,0]]` keeps its zero pivot and faults with a zero divisor |
| Matrices.ZeroSearchUndoesColumn | src/math/mat.rs:69 | as written, the triangular `[[1,0],[0,0]]` reduces to `[[0,0],[1,0]]` |
| Gauss.Apply | src/math/gauss.rs:13-17 | faults exactly on an index out of range, or on a subtraction between rows of unequal length |
| Gauss.Replay | src/math/gauss.rs:13-17 | applies steps in order, stopping at the first fault; no steps leave the matrix as it is |
| Gauss.ApplyEffect | src/math/gauss.rs:13-17 | a step that applies keeps the row count. A swap exchanges the two rows; a subtraction sets row `to` to `row_to - scale * row_from`. No other row changes |
| Gauss.Exhausted | src/math/gauss.rs:47 | the stopping test of `next()`: `col == min(M,N)` or `row >= min(M,N)` (what it implies for a call is `ExhaustedReturnsNone`) |
| Gauss.Pull | src/math/gauss.rs:45-89 | keeps the shape. An emitted step, applied to the matrix before the call, gives the matrix after it, and the snapshot is that matrix. Otherwise the matrix is unchanged, and `None` leaves the iterator exhausted |
| Gauss.Scan | src/math/gauss.rs:67-87 | the same guarantees for the inner loop, entered with `row < N` |
| Gauss.ScanNextRow | src/math/gauss.rs:81-86 | a zero entry advances `row` by one |
| Gauss.ScanNextColumn | src/math/gauss.rs:81-86 | after the last row, `col` increments, `row` becomes `col + 1`, and the outer loop resumes |
| Gauss.NoPivotFallsThrough | src/math/gauss.rs:62-64 | a column with no nonzero entry moves to `col + 1` and enters the inner loop with `row` unchanged, with no bounds or pivot re-check |
| Gauss.GaussElimIter.From | src/math/gauss.rs:25-33 | the matrix as given, `col = 0`, `row = 1` |
| Gauss.GaussElimIter.Next | src/math/gauss.rs:45-89 | the returned item and the new fields are exactly `Pull` of the old fields |
| Gauss.GaussElimIter.ScanColumn | src/math/gauss.rs:67-87 | the inner loop either returns `Scan` of the entry state, or breaks at column `col + 1` with the matrix unchanged, and the outer loop continues with an equal `Pull` |
| Gauss.ExhaustedReturnsNone | src/math/gauss.rs:47-49 | with `col == min(M,N)` or `row >= min(M,N)`, the call returns None and changes nothing |
| Gauss.DoneIsFinal | src/math/gauss.rs:47-49 | after a None, every further call returns None and changes nothing |
| Gauss.SwapStep | src/math/gauss.rs:51-61 | a zero pivot with a nonzero entry in its column swaps in the first such row counted from row 0 and emits `Swap{from: col, to: idx}`. Afterwards the pivot is nonzero and `col` and `row` are unchanged |
| Gauss.SubStep | src/math/gauss.rs:68-78 | emits `Sub{scale: m[row][col]/m[col][col], from: col, to: row}`. Entry (row, col) becomes exactly 0 and every other row is unchanged |
| Gauss.Drain | src/math/gauss.rs:35-90 | the items of up to `fuel` calls; every item before the last is an emitted step, and each step takes the previous snapshot to its own |
| Gauss.ChainedReplays | src/math/gauss.rs:54-77 | for items handed out one after another, each step taking the previous snapshot to its own, replaying all the steps gives the last matrix |
| Gauss.ChainedSnapshotAt | src/math/gauss.rs:54-77 | for such items, replaying the steps up to and including item k gives the snapshot of item k |
| Gauss.DrainReplays | src/math/gauss.rs:54-77 | replaying the emitted steps on the starting matrix reproduces the final matrix |
| Gauss.DrainSnapshots | src/math/gauss.rs:54-77 | each emitted snapshot equals the starting matrix with all steps so far replayed |
| Gauss.MainExampleCalls | src/math/gauss.rs:45-89 | on the example input, the first call emits `Sub{3,0,1}`, the second `Sub{1/13,1,2}`, and the third returns None at column 2 |
| Gauss.MainExampleSteps | src/math/gauss.rs:45-89 | the example input yields `Sub{3,0,1}`, `Sub{1/13,1,2}`, then None, and ends at the `row_reduced` result |
| Gauss.ZeroPivotExampleSwaps | src/math/gauss.rs:51-61 | a matrix with a zero first pivot yields `Swap{0,1}` first |
| Gauss.NoPivotWipesRow | src/math/gauss.rs:62-69 | as written, `[[0,0],[0,1]]` emits `Sub{1,1,1}`, which zeroes row 1, and the next call faults out of range |
| Gauss.PivotSearchFromTop | src/math/gauss.rs:53 | as written, `[[1,1,0],[0,0,0],[0,1,0]]` emits `Swap{1,0}`, which puts a nonzero entry back under the cleared pivot of column 0 |
| Gauss.RowBoundTooSmall | src/math/gauss.rs:47 | as written, with 3 rows of length 2, `[[1,0],[0,1],[0,1]]` returns None on the first call, with entry (2,1) still nonzero |
| Gauss.IteratorDivergesFromRowReduced | src/math/gauss.rs:45-89 | as written, the iterator does not do what `row_reduced` does: for `[[1,0],[0,1],[0,1]]` (3 rows of length 2) `row_reduced` clears entry (2,1) while the first call returns None on the unchanged matrix; for `[[0,1],[1,0]]` `row_reduced` faults while the first call swaps the rows |
| Corrected.FixedStage | src/math/mat.rs:66-80 | stage i, corrected: a zero pivot is swapped for the first row below it that is nonzero in column i, or the column is left as it is; keeps the shape (its effect is stated by `FixedStageClears`) |
| Corrected.FixedReduceFrom | src/math/mat.rs:65-81 | the corrected stages from i on; keeps the shape |
| Corrected.FixedRowReduction | src/math/mat.rs:55-84 | corrected `row_reduced`; a result keeps the shape (that it never faults and is triangular is `FixedRowReductionIsTriangular`) |
| Corrected.EliminationClears | src/math/mat.rs:75-80 | elimination below a nonzero pivot keeps earlier columns clear and clears column i |
| Corrected.FixedStageClears | src/math/mat.rs:65-80 | a stage that searches for a nonzero row below the pivot never faults and clears one more column |
| Corrected.FixedReduceFromClears | src/math/mat.rs:65-81 | the corrected stages never fault and clear every column up to `min(M,N)` |
| Corrected.FixedRowReductionIsTriangular | src/math/mat.rs:55-84 | corrected `row_reduced` never faults and its result is upper triangular |
| Corrected.FixedRowReductionExamples | src/math/mat.rs:69 | the corrected reduction maps `[[0,1],[1,0]]` to the identity and leaves `[[1,0],[0,0]]` as it is |
| Corrected.FixedPull | src/math/gauss.rs:45-89 | corrected `next()` never faults. Every emitted step replays to the new matrix and acts on a row strictly below its source row, and None comes only once `col` has reached `min(M,N)` |
| Corrected.FixedScan | src/math/gauss.rs:67-87 | the same for the corrected inner loop |
| Corrected.StartHasProgress | src/math/gauss.rs:25-33 | the state built by `From` satisfies the elimination invariant `Progress` |
| Corrected.SubKeepsCleared | src/math/gauss.rs:68-70 | a subtraction keeps the already-cleared columns clear |
| Corrected.SubKeepsProgress | src/math/gauss.rs:68-78 | a subtraction at the scanned row, with the rows passed before it zero in the pivot column, leaves a state with `Progress` |
| Corrected.SwapKeepsProgress | src/math/gauss.rs:51-61 | swapping the pivot row with a row the scan has not yet passed keeps `Progress` |
| Corrected.NextColumnHasProgress | src/math/gauss.rs:81-86 | leaving a column whose rows below the pivot are all zero restores `Progress` |
| Corrected.FixedPullKeepsProgress | src/math/gauss.rs:45-89 | corrected `next()` preserves `Progress` |
| Corrected.FixedScanKeepsProgress | src/math/gauss.rs:67-87 | the corrected inner loop, entered with the rows it has passed zero in the pivot column, establishes `Progress` |
| Corrected.FixedScanSkipsUpperRow | src/math/gauss.rs:67-87 | rows at or above the pivot are passed over |
| Corrected.FixedScanSkipsZeroRow | src/math/gauss.rs:81-86 | a row already zero in the pivot column is passed over |
| Corrected.FixedScanLeavesColumn | src/math/gauss.rs:82-85 | past the last row, the inner loop hands over to the outer loop at `col + 1`, `row = col + 2` |
| Corrected.FixedScanSubKeepsProgress | src/math/gauss.rs:68-78 | the subtraction the inner loop emits keeps `Progress` |
| Corrected.FixedDrain | src/math/gauss.rs:35-90 | corrected drains never fault; every item before the last is an emitted step, and a drain that ends in None ends with `col >= min(M,N)` |
| Corrected.FixedDrainKeepsProgress | src/math/gauss.rs:45-89 | draining the corrected iterator keeps `Progress` |
| Corrected.FixedDrainEndsTriangular | src/math/gauss.rs:45-89 | a corrected drain from a state with `Progress` that ends in None ends on an upper triangular matrix |
| Corrected.Remaining | src/math/mat.rs:65-81 | what the corrected `row_reduced` still has to do in an iterator state; nothing once `col` reaches `min(M,N)` |
| Corrected.RemainingAtColumnStart | src/math/mat.rs:65-81 | at the start of column c, what remains is the corrected stages from c on |
| Corrected.SwapKeepsRemaining | src/math/gauss.rs:51-61 | the swap the corrected iterator emits is the swap of the corrected stage |
| Corrected.NoPivotKeepsRemaining | src/math/gauss.rs:62-64 | a column with no nonzero entry below its zero pivot is passed over by both |
| Corrected.LeaveColumnKeepsRemaining | src/math/gauss.rs:82-85 | past the last row, what remains is the stages after `col` |
| Corrected.ZeroRowKeepsRemaining | src/math/gauss.rs:81-86 | a row already zero in the pivot column is passed over by both |
| Corrected.SubKeepsRemaining | src/math/gauss.rs:68-78 | the subtraction the corrected iterator emits is the one the corrected inner loop makes |
| Corrected.FixedPullKeepsRemaining | src/math/gauss.rs:45-89 | one call of corrected `next()` leaves what remains of the corrected `row_reduced` unchanged |
| Corrected.FixedScanKeepsRemaining | src/math/gauss.rs:67-87 | so does the corrected inner loop |
| Corrected.FixedDrainKeeps | src/math/gauss.rs:45-89 | whatever one call of corrected `next()` keeps, a drain keeps |
| Corrected.FixedDrainIsFixedRowReduction | src/math/gauss.rs:45-89 | a corrected drain from the state `From` creates that ends in None leaves exactly the rows corrected `row_reduced` returns |
| Corrected.FixedPullNoPivotExample | src/math/gauss.rs:62-64 | the corrected iterator returns None at once for the triangular `[[0,0],[0,1]]` |
| Corrected.FixedPullPivotExample | src/math/gauss.rs:53 | the corrected iterator swaps row 2, not row 0, into the pivot of column 1 of `[[1,1,0],[0,0,0],[0,1,0]]` |
| Corrected.FixedPullRowBoundExample | src/math/gauss.rs:47 | with 3 rows of length 2, the corrected iterator emits `Sub{1,1,2}` for `[[1,0],[0,1],[0,1]]` |

## Left out

- `Debug` formatting (src/math/vec.rs:137-141, src/math/mat.rs:99-113): string output that depends on how `T` formats.
- `iter` / `iter_mut` (src/math/vec.rs:33-39, src/math/mat.rs:90-96): borrowing slice iterators. Their uses are modelled directly: `position` is `Matrices.Position`, and the `From` loop writes the rows in order.
- Floating point: scalars are exact reals and the type parameter `T` is fixed to them. Rounding, infinities and NaN are not modelled.
- Vectors.Div: a zero divisor is a `Fault(DivisionByZero)`; `f64` would instead produce infinities or NaN and carry on.
- Matrices.EliminateBelow, Gauss.Scan: the zero-divisor division of a row by a zero pivot is a fault, for the same reason.
- `usize` is modelled as an unbounded `nat`; no index in the code comes near overflow.
- Rows are values (`seq<real>`), not `Vec` objects, because Rust's ownership rules out aliasing between rows. A `Mat2d` moved into `GaussElimIter` is shared by reference in the model, and callers are assumed not to use it afterwards.
- `mat.rs:12` names the row type `vec::Vec<T, M>` and `mat.rs:21` calls `Vec::zeros()` with no length, which do not match `vec.rs`. The model takes each row to be a sequence of length M and keeps this as the invariant `Mat2d.Valid`.
- `GaussElimIter::bound(m, n)`, called in `src/components/steps.rs`, is defined in no file of the kernel and is not part of this model.
- RREF, rank and dynamically sized matrices do not exist in the code and are not modelled.
- Gauss.Drain and Corrected.FixedDrain stop after `fuel` calls. That a drain reaches None after finitely many calls is not proved, for either iterator; each single call is proved to terminate.
- UI components, routing and `src/main.rs`'s printing are presentation code. The `main.rs` input is used only as the example in `MainExample` and `MainExampleSteps`.

## Findings

| source | as written | input that shows it | evidently intended | confidence | as-written member | corrected member |
|---|---|---|---|---|---|---|
| src/math/mat.rs:69 | the pivot search looks for a row whose column-i entry EQUALS zero, which is always row i or one above it, so a zero pivot stays | `[[0,1],[1,0]]`: the zero pivot is kept and row 1 is divided by it | swap in the first row below i that is nonzero in column i | not executed | Matrices.ZeroSearchDividesByZero | Corrected.FixedRowReductionIsTriangular |
| src/math/mat.rs:69 | the same search swaps a zero pivot with a row above it | `[[1,0],[0,0]]` becomes `[[0,0],[1,0]]`, which is no longer triangular | leave a column without a nonzero candidate as it is | not executed | Matrices.ZeroSearchUndoesColumn | Corrected.FixedRowReductionIsTriangular |
| src/math/gauss.rs:62-64 | a column with no pivot advances `col` and falls into the inner loop with no bounds or pivot check | `[[0,0],[0,1]]`: `Sub{1,1,1}` subtracts row 1 from itself, then the next call indexes column 2 | restart the outer loop at `col + 1` with `row = col + 2` | not executed | Gauss.NoPivotWipesRow | Corrected.FixedPullKeepsProgress |
| src/math/gauss.rs:53 | the search for a nonzero pivot starts at row 0 | `[[1,1,0],[0,0,0],[0,1,0]]`: `Swap{1,0}` moves a nonzero entry under the cleared pivot of column 0 | search from row `col + 1` | not executed | Gauss.PivotSearchFromTop | Corrected.FixedPullKeepsProgress |
| src/math/gauss.rs:47 | the iterator stops when `row >= min(M, N)` | 3 rows of length 2, `[[1,0],[0,1],[0,1]]`: None with entry (2,1) still nonzero | stop only when `col` reaches `min(M, N)`; rows run to the row count N | not executed | Gauss.RowBoundTooSmall | Corrected.FixedDrainEndsTriangular |
| src/math/gauss.rs:45-89 | the iterator's steps, replayed, are meant to give what `row_reduced` returns, but the two eliminations differ | 3 rows of length 2, `[[1,0],[0,1],[0,1]]`: `row_reduced` clears entry (2,1), the iterator returns None at once; `[[0,1],[1,0]]`: `row_reduced` faults, the iterator swaps | the iterator performs the elimination of `row_reduced` one step at a time | not executed | Gauss.IteratorDivergesFromRowReduced | Corrected.FixedDrainIsFixedRowReduction |
