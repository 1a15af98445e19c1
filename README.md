# Array kernels of the OpenACC tutorial, modelled in Dafny

This project models four small sequential array programs from the NUS-SCC24
OpenACC tutorials and proves what they compute:

- **CSR compression and sparse matrix-vector product** (`spmv-seq.cpp`).
  - `compress` counts the non-zeros of a dense `size x size` matrix. It then fills `v`, `col_idx` and `row_idx` row by row.
  - `spmv` walks that structure to compute `A * b`.
  - `check_vector` sums a vector.
  - Model: module `Spmv`. The CSR record is the class `Spmv.CsrMatrix`, with array fields, and `compress` is its constructor `Compress`.
- **Dense matrix multiply** (`mm-seq.cpp`).
  - `init_matrix_zero` and `init_matrix` fill a matrix.
  - `mm` adds `a * b` into `result` in a triple loop.
  - `check_matrix` totals a matrix.
  - `work` runs the three in sequence.
  - Model: module `MatMul`, with the shared helpers in `Dense`.
- **Jacobi relaxation of the Laplace equation, pointer-swap variant** (`laplace-seq2.cpp`).
  - `initialize` writes the same hot border into `plate_a` and `plate_b`.
  - Each iteration sweeps `temp_prev` into `temp`, records the largest change in `worst_dt`, swaps the two pointers, and reports on every 100th iteration.
  - Model: module `LaplaceSeq`.
- **The same relaxation, parity variant** (`laplace-acc-opt.cpp`).
  - There are two fixed arrays, `temp` and `temp_prev`.
  - An odd iteration sweeps `temp_prev` into `temp`; an even one sweeps `temp` into `temp_prev`.
  - Model: module `LaplaceAcc`.

Module `Jacobi` holds what the two Laplace programs share:
- the sweep as a method over two `array2<real>`;
- its specification as functions on plates (`SweepGrid`, `Step`, `Iterate`, `SweepMax`);
- the properties of those functions;
- the bookkeeping of the main loop (`Progress`, `Trace`).

Choices made:
- Matrix and vector elements are `int`, so every sum is exact.
- Temperatures are `real`, so `0.25` is exactly one quarter.
- The plate size `HEIGHT x WIDTH` is the parameter pair `H x W`; the programs fix both at 1024.
- The `while (worst_dt > TEMP_TOLERANCE)` loops carry an extra iteration bound `fuel`. Convergence is not modelled.
- Each program's run is specified against `Iterate(g, H, W, k)`, the plate after `k` relaxation steps from the starting plate `g`.
- Each array is tied to its contents, a sequence of rows, by `Dense.Entries`; the integer matrices and the real plates share that one function.

Notes on the source:
- The two `initialize` routines write the corner `[H+1][W+1]` differently.
  - In `laplace-acc-opt.cpp`, the loop that writes rows 0 and `H+1` covers only the columns `1..WIDTH` (4_Openacc/extra/laplace-acc-opt.cpp:88-91). So the corner keeps the value of the column loop, `(100/H) * (H+1) = 100 + 100/H`.
  - `laplace-seq2.cpp` writes its bottom row last, over every column (4_OpenACC/extra/laplace-seq2.cpp:73-77). So its corner is `(100/W) * (W+1) = 100 + 100/W`.
  - The two initial plates therefore differ only when `H != W`. At the programs' own `HEIGHT == WIDTH == 1024` (4_OpenACC/extra/laplace-seq2.cpp:6-7, 4_Openacc/extra/laplace-acc-opt.cpp:6-7) they are the same plate.
  - `LaplaceAcc.InitialCorner` states both values. `LaplaceAcc.InitialLayouts` proves the plates equal exactly when `H == W`, and `LaplaceAcc.ProgramLayouts` gives the 1024 x 1024 case. For other sizes, no sweep reads a corner, and `LaplaceAcc.SameRelaxation` shows that the difference never reaches any other cell.
- The two branches of the parity loop in `laplace-acc-opt.cpp` compute the change with the same expression, `fabs(temp[i][j] - temp_prev[i][j])` (4_Openacc/extra/laplace-acc-opt.cpp:39,47). In the odd branch that is new value minus old; in the even branch, which writes `temp_prev`, it is old minus new, the order `laplace-seq2.cpp:39` uses. `fabs` is symmetric, so the result is the same. Both branches are modelled by `Jacobi.Delta`, built on the symmetric `Jacobi.Abs`.
- `rand()` returns a value in `0..RAND_MAX` by the C standard. So `rand() % 10` always lies in 0..9, as the comment above `init_matrix` says. The model therefore takes the draws as natural numbers.

## Model

| member | source | states |
|---|---|---|
| Spmv.CountNonZeros | 4_Openacc/tut/spmv-seq.cpp:105-109 | the first loop nest of `compress` counts exactly the non-zero entries of the matrix |
| Spmv.CsrMatrix.Compress | 4_Openacc/tut/spmv-seq.cpp:103-128 | after `compress`, `nnz` is the non-zero count, `v`/`col_idx` list the non-zeros row by row in column order, `row_idx` holds the prefix counts, and the structure is well formed |
| Spmv.FillRows | 4_Openacc/tut/spmv-seq.cpp:116-127 | the second loop nest leaves `v`, `col_idx` and `row_idx` equal to the row-major list of non-zeros and their prefix counts |
| Spmv.FillRow | 4_Openacc/tut/spmv-seq.cpp:119-125 | one row of the second loop nest appends exactly that row's non-zeros and their columns, and advances `nnz` by the row's non-zero count |
| Spmv.CompressShape | 4_Openacc/tut/spmv-seq.cpp:114-127 | `row_idx[0] == 0`, `row_idx[size] == nnz`, `row_idx` is non-decreasing, every column index is below `size`, and `row_idx[i+1] - row_idx[i]` is the non-zero count of row `i` |
| Spmv.RowSlice | 4_Openacc/tut/spmv-seq.cpp:116-127 | the slice `row_idx[i] .. row_idx[i+1]` of `col_idx`/`v` is exactly row `i`'s columns and values |
| Spmv.CompressEntry | 4_Openacc/tut/spmv-seq.cpp:118-125 | every slot `k` of row `i`'s slice has `col_idx[k] < size`, `v[k] == m[i][col_idx[k]]` and `v[k] != 0` |
| Spmv.CompressSorted | 4_Openacc/tut/spmv-seq.cpp:119-124 | within a row the column indices strictly increase, so no entry is stored twice |
| Spmv.RowColsIncreasing | 4_Openacc/tut/spmv-seq.cpp:119-124 | the columns collected from one row strictly increase |
| Spmv.RowColsBelow | 4_Openacc/tut/spmv-seq.cpp:119-124 | the columns collected from the first `j` cells of a row are all below `j` |
| Spmv.RowValsAt | 4_Openacc/tut/spmv-seq.cpp:120-123 | each value collected from a row is the row's entry at the collected column, and is non-zero |
| Spmv.LookupRow | 4_Openacc/tut/spmv-seq.cpp:119-125 | looking column `c` up among a row's collected entries gives the row's value there, or 0 past the scanned part |
| Spmv.CompressRoundTrip | 4_Openacc/tut/spmv-seq.cpp:103-128 | decompressing the output of `compress` (zeros where nothing is stored) gives back exactly the input matrix |
| Spmv.RoundTripRow | 4_Openacc/tut/spmv-seq.cpp:118-127 | row `i` of the decompressed matrix is row `i` of the input |
| Spmv.Multiply | 4_Openacc/tut/spmv-seq.cpp:134-147 | `spmv` sets each `result[i]` to the sum of `v[k] * b[col_idx[k]]` over row `i`'s slice, and leaves the CSR arrays and `b` unchanged |
| Spmv.SparseDotRow | 4_Openacc/tut/spmv-seq.cpp:140-145 | the sparse dot product over a row's stored entries equals the dense dot product of the row with `b` |
| Spmv.SpmvOfCompress | 4_Openacc/tut/spmv-seq.cpp:103-147 | on the output of `compress`, each row's sparse product equals the dense product `sum_j m[i][j] * b[j]` |
| Spmv.CompressAndMultiply | 4_Openacc/tut/spmv-seq.cpp:194-199 | `compress` followed by `spmv` computes the dense matrix-vector product |
| Spmv.CheckVector | 4_Openacc/tut/spmv-seq.cpp:150-158 | `check_vector` returns the sum of the vector's entries, starting from 0 |
| MatMul.InitMatrixZero | 4_OpenACC/tut/mm-seq.cpp:79-87 | every element becomes 0 |
| MatMul.InitMatrix | 4_OpenACC/tut/mm-seq.cpp:65-73 | every element becomes its draw modulo 10, so lies in 0..9 |
| MatMul.FillEntries | 4_OpenACC/tut/mm-seq.cpp:65-73 | an array filled by `init_matrix` holds exactly the matrix of its draws mod 10 |
| MatMul.Mm | 4_OpenACC/tut/mm-seq.cpp:96-104 | `mm` accumulates: the new `result` is the old `result` plus `a * b`; `a` and `b` are not modified |
| MatMul.AccumulateEntry | 4_OpenACC/tut/mm-seq.cpp:102-103 | the innermost loop adds the column dot product to `result[i][j]` and touches no other element |
| MatMul.MultiplyFromZero | 4_OpenACC/tut/mm-seq.cpp:79-104 | `init_matrix_zero` followed by `mm` leaves exactly `a * b` in `result` |
| MatMul.ColDotBounds | 4_OpenACC/tut/mm-seq.cpp:102-103 | with factors in 0..9, a partial dot product of length `k` lies in `0..81k` |
| MatMul.ProductBounds | 4_OpenACC/tut/mm-seq.cpp:96-104 | with factors in 0..9, every element of `a * b` lies in `0..81n` |
| MatMul.TotalAdd | 4_OpenACC/tut/mm-seq.cpp:141-151 | the total of a sum of matrices is the sum of their totals |
| MatMul.TotalBounds | 4_OpenACC/tut/mm-seq.cpp:106-116 | the total of a matrix with elements in `0..hi` lies in `0..n * (hi * n)` |
| MatMul.CheckMatrix | 4_OpenACC/tut/mm-seq.cpp:106-116 | `check_matrix`, with `t` started at 0, returns the total of all elements |
| MatMul.CheckMatrixAsWritten | 4_OpenACC/tut/mm-seq.cpp:106-116 | as written, `check_matrix` returns its indeterminate start value `t0` plus the total |
| MatMul.CheckMatrixDefect | 4_OpenACC/tut/mm-seq.cpp:106-116 | on the same matrix, the as-written `check_matrix` exceeds the intended total by exactly the leftover `t`, so the two differ exactly when `t` does not start at 0 |
| MatMul.Work | 4_OpenACC/tut/mm-seq.cpp:130-156 | `work` fills `a`, `b` and `result` from their draws (each element its draw mod 10), then `result` becomes the seed plus `a * b`; the check value, taken from `check_matrix` with its sum started at 0 (see "## Findings" for the code as written), is the seed's total plus the total of `a * b`, within `0..9n^2 + 81n^3` |
| Jacobi.Sweep | 4_OpenACC/extra/laplace-seq2.cpp:31-41 | a sweep writes `SweepGrid`: interior cells become the quarter-sum of their neighbours in the source, border cells of the destination keep their values; `worst_dt` is `SweepMax` of the source |
| Jacobi.SweepRows | 4_OpenACC/extra/laplace-seq2.cpp:33-41 | the row loop writes each interior cell from the unchanged source and leaves the border alone; `worst_dt` starts at 0 and ends at `SweepMax` |
| Jacobi.SweepRow | 4_OpenACC/extra/laplace-seq2.cpp:34-40 | one row of the sweep writes that row's interior cells and raises `worst_dt` to the row maximum |
| Jacobi.SweepGridAt | 4_OpenACC/extra/laplace-seq2.cpp:33-38 | each cell of `SweepGrid` is the relaxed value on the interior and the destination's old value elsewhere |
| Jacobi.RowMaxAbove | 4_OpenACC/extra/laplace-seq2.cpp:34-40 | the running `fmax` over a row is at least its start value and at least every change seen |
| Jacobi.RowMaxAttained | 4_OpenACC/extra/laplace-seq2.cpp:34-40 | the running `fmax` over a row is its start value or one cell's change |
| Jacobi.MaxBeforeAbove | 4_OpenACC/extra/laplace-seq2.cpp:31-41 | `worst_dt` after rows `1..i` is non-negative and bounds every change in those rows |
| Jacobi.MaxBeforeAttained | 4_OpenACC/extra/laplace-seq2.cpp:31-41 | `worst_dt` after rows `1..i` is 0 or the change of some cell in those rows |
| Jacobi.SweepMaxAbove | 4_OpenACC/extra/laplace-seq2.cpp:31-39 | `worst_dt` is non-negative and at least the change of every interior cell |
| Jacobi.SweepMaxAttained | 4_OpenACC/extra/laplace-seq2.cpp:31-39 | on a plate with an interior, `worst_dt` equals the change of some interior cell, so it is that maximum |
| Jacobi.NoColumns | 4_OpenACC/extra/laplace-seq2.cpp:31-41 | with no interior columns, `worst_dt` stays 0 |
| Jacobi.FixedPoint | 4_OpenACC/extra/laplace-seq2.cpp:35-39 | a sweep reports `worst_dt == 0` exactly when it leaves the plate unchanged, i.e. every interior cell is the mean of its neighbours |
| Jacobi.SweepIsStep | 4_OpenACC/extra/laplace-seq2.cpp:33-45 | sweeping into a buffer with the source's border gives one relaxation step of the source, whatever the buffer's interior held |
| Jacobi.IterateBorder | 4_OpenACC/extra/laplace-seq2.cpp:33-41 | border cells never change over any number of steps |
| Jacobi.IterateSameBorder | 4_OpenACC/extra/laplace-seq2.cpp:29-52 | any two iterates of a plate share its border |
| Jacobi.OlderStep | 4_OpenACC/extra/laplace-seq2.cpp:33-45 | the buffer that is not the latest (the start plate before the first sweep, one step behind after it) always carries the starting border, so each sweep into it, the first included, is the next relaxation step; used by both programs |
| Jacobi.StepInRange | 4_OpenACC/extra/laplace-seq2.cpp:35-38 | one step keeps every temperature within the bounds of the plate it came from |
| Jacobi.IterateInRange | 4_OpenACC/extra/laplace-seq2.cpp:29-52 | any number of steps keeps every temperature within the starting plate's bounds |
| Jacobi.TraceCadence | 4_OpenACC/extra/laplace-seq2.cpp:47-51 | `n` iterations report `ceil(n/100)` times, the `t`-th report at iteration `100t`, iteration 0 included, each before `itr` is incremented |
| Jacobi.TraceStep | 4_OpenACC/extra/laplace-seq2.cpp:47-51 | an iteration adds a report exactly when `itr % 100 == 0` |
| Jacobi.ReportsEven | 4_Openacc/extra/laplace-acc-opt.cpp:34-54 | every reporting iteration is even, so it took the even branch |
| Jacobi.ProgressStep | 4_OpenACC/extra/laplace-seq2.cpp:29-52 | an iteration entered with `worst_dt` above the tolerance records its sweep's `worst_dt` and its report, if any |
| LaplaceSeq.InitLayout | 4_OpenACC/extra/laplace-seq2.cpp:59-78 | both plates are 0 except the right column `(100/H) * i` and the bottom row `(100/W) * j`; the bottom row is written last, so the corner is `100 + 100/W` |
| LaplaceSeq.InitInRange | 4_OpenACC/extra/laplace-seq2.cpp:59-78 | every initial temperature lies in `0 .. 100 + 100/W`, the corner's value: the right column reaches only 100 before the bottom row overwrites its last cell |
| LaplaceSeq.ScaleBound | 4_OpenACC/extra/laplace-seq2.cpp:69-74 | `(100/n) * k` lies in `0 .. 100 + 100/n` for every index `k <= n + 1`, and in `0 .. 100` for `k <= n` |
| LaplaceSeq.Initialize | 4_OpenACC/extra/laplace-seq2.cpp:59-78 | after `initialize` both plates hold the initial layout |
| LaplaceSeq.ClearPlates | 4_OpenACC/extra/laplace-seq2.cpp:62-67 | the first loop nest zeroes every cell of both plates |
| LaplaceSeq.ClearRow | 4_OpenACC/extra/laplace-seq2.cpp:63-66 | one row of that nest zeroes the row in both plates and leaves the other rows alone |
| LaplaceSeq.SetRightColumn | 4_OpenACC/extra/laplace-seq2.cpp:68-72 | the second loop writes `(100/H) * i` into column `W+1` of every row of both plates |
| LaplaceSeq.SetBottomRow | 4_OpenACC/extra/laplace-seq2.cpp:73-77 | the third loop writes `(100/W) * j` into row `H+1` of every column, completing the initial layout |
| LaplaceSeq.Run | 4_OpenACC/extra/laplace-seq2.cpp:17-52 | `main`: `temp_prev` ends with `itr` steps from the initial layout and `temp` with one fewer; `worst_dt` is 100 or the last sweep's maximum; the loop stops only at the tolerance (or the bound); at least one sweep runs; every sweep before the last was above the tolerance; the reports follow the cadence and show `plate_b` one step ahead |
| LaplaceSeq.Relax | 4_OpenACC/extra/laplace-seq2.cpp:29-52 | the `while` loop keeps the buffer roles, the plates, `worst_dt` and the reports in the loop state |
| LaplaceSeq.Iteration | 4_OpenACC/extra/laplace-seq2.cpp:31-51 | one iteration sweeps, swaps the pointers, reports on multiples of 100 and moves the loop state forward by one step |
| LaplaceSeq.Advance | 4_OpenACC/extra/laplace-seq2.cpp:31-45 | sweeping iterate `k` into the buffer holding iterate `k-1` gives iterate `k+1` |
| LaplaceAcc.Initialize | 4_Openacc/extra/laplace-acc-opt.cpp:68-93 | `temp_prev` gets a cold interior inside the border; `temp` gets the same border but keeps its interior |
| LaplaceAcc.ClearInterior | 4_Openacc/extra/laplace-acc-opt.cpp:75-79 | the first loop nest zeroes the interior of `temp_prev` only |
| LaplaceAcc.SetColumns | 4_Openacc/extra/laplace-acc-opt.cpp:82-85 | columns 0 and `W+1` of every row of both arrays become 0 and `(100/H) * i` |
| LaplaceAcc.SetRows | 4_Openacc/extra/laplace-acc-opt.cpp:88-91 | rows 0 and `H+1` of the columns `1..W` of both arrays become 0 and `(100/W) * j`, leaving the corners alone |
| LaplaceAcc.BorderedSameBorder | 4_Openacc/extra/laplace-acc-opt.cpp:81-91 | after `initialize` the two arrays have the same border |
| LaplaceAcc.InitialCorner | 4_Openacc/extra/laplace-acc-opt.cpp:81-91 | this program's initial plate agrees with `laplace-seq2`'s everywhere except corner `[H+1][W+1]`, which is `100 + 100/H` here and `100 + 100/W` there |
| LaplaceAcc.InitialLayouts | 4_Openacc/extra/laplace-acc-opt.cpp:81-91 | the two initial plates agree off the corners, and are equal exactly when `H == W` |
| LaplaceAcc.ProgramLayouts | 4_Openacc/extra/laplace-acc-opt.cpp:6-7 | at the fixed size `HEIGHT == WIDTH == 1024` the two programs start from the same plate |
| LaplaceAcc.Run | 4_Openacc/extra/laplace-acc-opt.cpp:17-58 | `main`: the array last written (`temp` after an even count, `temp_prev` after an odd one) ends with `itr` steps from `temp`'s bordered plate; `worst_dt`, the stop condition, the at-least-one-sweep guarantee and the report cadence are as in `laplace-seq2` |
| LaplaceAcc.Relax | 4_Openacc/extra/laplace-acc-opt.cpp:30-58 | the `while` loop keeps the parity roles, the plates, `worst_dt` and the reports in the loop state |
| LaplaceAcc.Iteration | 4_Openacc/extra/laplace-acc-opt.cpp:32-57 | one iteration sweeps in the parity's direction, reports `temp` (the array that sweep only read, one step behind) on multiples of 100, and moves the loop state forward |
| LaplaceAcc.Alternate | 4_Openacc/extra/laplace-acc-opt.cpp:34-50 | odd `itr` writes `temp` from `temp_prev`, even `itr` writes `temp_prev` from `temp`; either way the latest array advances one step and `worst_dt` is that sweep's maximum |
| LaplaceAcc.Advance | 4_Openacc/extra/laplace-acc-opt.cpp:36-49 | a parity branch that sweeps iterate `k` into the older array yields iterate `k+1` |
| LaplaceAcc.OffCornersStep | 4_Openacc/extra/laplace-acc-opt.cpp:36-49 | a sweep never reads a corner, so plates that agree off the corners step to plates that agree off the corners |
| LaplaceAcc.OffCornersSweepMax | 4_Openacc/extra/laplace-acc-opt.cpp:39-47 | plates that agree off the corners give the same `worst_dt` |
| LaplaceAcc.OffCornersRowMax | 4_Openacc/extra/laplace-acc-opt.cpp:37-40 | row maxima of plates that agree off the corners are equal |
| LaplaceAcc.OffCornersMaxBefore | 4_Openacc/extra/laplace-acc-opt.cpp:36-41 | partial sweep maxima of plates that agree off the corners are equal |
| LaplaceAcc.OffCornersIterate | 4_Openacc/extra/laplace-acc-opt.cpp:30-58 | plates that agree off the corners stay so after any number of steps, with equal `worst_dt` at every sweep |
| LaplaceAcc.SameRelaxation | 4_Openacc/extra/laplace-acc-opt.cpp:30-58 | from their own initial plates, the two programs produce the same plates off the corners and the same `worst_dt` after every sweep, so they stop after the same number of iterations |
| LaplaceAcc.ColdStart | 4_Openacc/extra/laplace-acc-opt.cpp:68-93 | when `temp`'s interior starts cold (as the zero-initialised global does), both arrays start from the same plate |

## Left out

- Memory management is not modelled: `malloc`/`free`, the `allocate_*`/`free_*` routines and the out-of-memory exits. Arrays are given to the methods already allocated.
- Floating-point rounding is not modelled. `float`/`double` become `int` (the matrix programs) or `real` (the Laplace programs), so no result depends on IEEE rounding, NaN, or the `fabs`/`fmax` edge cases.
- OpenACC pragmas (`data create`, `parallel loop collapse`, `reduction(max:...)`, `update host`) are not modelled. Every loop runs sequentially, and a maximum does not depend on order.
- `rand()` is not modelled.
  - `init_matrix` takes its draws as a parameter.
  - `init_vector` and `init_matrix_sparse` are not modelled: their matrices and vectors are arbitrary inputs.
- Timing, printing and argument parsing are not modelled: `wall_clock_time`, every `printf`, `print_matrix`, `print_vector`, and `main`'s handling of `argv`.
- `track_progress`: only when it is called is modelled, with the plate it prints from. Its output format and its stride of `HEIGHT/8` are not modelled.
- Termination of the Laplace `while` loops is not proved; it depends on convergence. `LaplaceSeq.Run` and `LaplaceAcc.Run` are bounded by `fuel` iterations. When they stop with `worst_dt` still above the tolerance, the model says only that the bound was reached.
- `laplace-seq2.cpp` declares its pointers as `double (*)[HEIGHT+2]`. That row stride is correct only because `HEIGHT == WIDTH`. The model uses `(H+2) x (W+2)` arrays and does not reproduce the pointer arithmetic.
- `int`, `size_t` and the `itr` counter are unbounded in the model; no overflow is considered.
- `ln-acc.cpp` is not part of this model. It tunes an `atan` fill and a floating-point sum for the accelerator, and has no discrete behaviour to state.
- LaplaceAcc.Run: the starting interior of `temp` is a parameter rather than zero. The global array is zero-initialised, and `LaplaceAcc.ColdStart` states that case.

## Findings

| source | as written | input that shows it | evidently intended | confidence | as-written member | corrected member |
|---|---|---|---|---|---|---|
| 4_OpenACC/tut/mm-seq.cpp:106-116 | `check_matrix` adds every element to `double t`, which is never initialised, so it returns an indeterminate start value plus the total | any matrix, whenever the stack slot of `t` does not hold 0 | `t = 0.0` before the loops, so the result is the total of the elements | high, not executed | MatMul.CheckMatrixAsWritten | MatMul.CheckMatrix |
