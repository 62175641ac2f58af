# gonum/lapack: FORTRAN layout conversion, the cgo adapter and the lapack64 wrappers

This project models three Go packages of gonum/lapack and proves properties of
the model in Dafny.

- `internal/fortran` maps BLAS option values to the characters FORTRAN
  expects. It also moves matrices between row-major storage (the `blas64` views)
  and column-major storage (the `fortran` views).
  - A row-major cell (i, j) lives at `i*Stride+j`.
  - A column-major cell (i, j) lives at `i+j*Stride`.
  - General views copy every cell.
  - Symmetric views copy only their Upper or Lower triangle.
  - Triangular views copy their Upper or Lower triangle, or every cell for All.
- `cgo` checks the arguments of `Dpotrf` (Cholesky factorization) and `Dgels`
  (least squares), answers Dgels's workspace query, and hands the rest to a C
  library.
- `lapack64` holds a process-wide LAPACK implementation, which `Use`
  replaces. Its `Potrf` and `Gels` unpack matrix views into that
  implementation's arguments.

Modules:

- `Blas` (blas.dfy) holds the option enumerations and the General, Symmetric
  and Triangular views. `Panics` (same file) names each panic as a `Reason`.
  A panicking operation returns `Panic(reason)` or `Fail(reason)` instead.
- `Layout` (layout.dfy) is the shared copy engine.
  - `Index` gives the storage position of a cell. `Region` gives the set of
    cells a view stores.
  - `CopyRegion` holds the row-outer loops. `CopyRectColumnwise` holds the
    column-outer loops.
  - Both are proved to copy every cell of the region (`Copied`). They are
    also proved to leave every other position of the destination unchanged
    (`Untouched`).
- `Fortran` (fortran.dfy) holds the option-character functions and the From,
  To, New…From and Copy… operations. Each one checks what the Go code checks,
  in the same order, and then runs the same loop nest.
- `Cgo` (cgo.dfy) holds checkMatrix, min, Dpotrf and Dgels. The C library is
  a value `CLapack` of arbitrary functions.
- `Lapack64` (lapack64.dfy) holds the implementation selector, as class
  `Dispatcher` with field `impl`, and the Potrf and Gels wrappers.

## Model

| member | source | states |
|---|---|---|
| Fortran.TransCharacter | internal/fortran/fortran.go:18-29 | NoTrans, Trans and ConjTrans map to 'N', 'T' and 'C'. Any other value fails with "bad trans", and only such values fail. |
| Fortran.UploCharacter | internal/fortran/fortran.go:32-43 | Upper, Lower and All map to 'U', 'L' and 'A'. Any other value fails with "bad uplo". |
| Fortran.DiagCharacter | internal/fortran/fortran.go:46-55 | Unit maps to 'U' and NonUnit to 'N'. Any other value fails with "bad diag". |
| Fortran.SideCharacter | internal/fortran/fortran.go:58-67 | Left maps to 'L' and Right to 'R'. Any other value fails with "bad side". |
| Fortran.CharactersDetermineOptions | internal/fortran/fortran.go:18-67 | Each mapping is injective on valid options, so a FORTRAN character identifies one option. |
| Fortran.GeneralFrom | internal/fortran/fortran.go:88-100 | Panics with a dimension mismatch exactly when the shapes differ. Otherwise panics with a short slice exactly when the column-major t is shorter than (Cols-1)*Stride+Rows. On a panic t is unchanged. On success, every cell (i, j) of the row-major a is at i+j*Stride of t, and no other position of t changes. |
| Fortran.GeneralTo | internal/fortran/fortran.go:118-130 | The same panics, against (Rows-1)*Stride+Cols. Cell (i, j) of the column-major a is written to i*Stride+j of t, column by column. Nothing else in t changes. |
| Fortran.NewColMajorGeneralFrom | internal/fortran/fortran.go:74-83 | Returns a fresh column-major view with stride Rows, of length Rows*Cols, that holds every cell of a. |
| Fortran.NewRowMajorGeneralFrom | internal/fortran/fortran.go:104-113 | Returns a fresh row-major view with stride Cols, of length Rows*Cols, that holds every cell of a. |
| Fortran.CopyGeneralRowMajor | internal/fortran/fortran.go:136-148 | Panics exactly as the dimension and length checks say. On success every cell is copied between two row-major views of different strides, and the padding of dst is untouched. |
| Fortran.CopyGeneralColMajor | internal/fortran/fortran.go:154-166 | The same, for two column-major views, copied column by column. |
| Fortran.ConvertGeneralRoundTrip | internal/fortran/fortran_test.go:77-90 | Converting row-major to column-major and back yields every cell of the original matrix. |
| Fortran.EqualGeneral | internal/fortran/fortran_test.go:30-44 | The tests' equality of two general views, each read in its own order, returns true exactly when the shapes match and every cell (i, j) holds the same value in both. |
| Fortran.TestConvertGeneral | internal/fortran/fortran_test.go:77-90 | For every well-formed row-major matrix, both comparisons of the conversion test succeed: the column-major copy equals a, and so does the row-major copy made from it. |
| Fortran.ConvertThreeByThree | internal/fortran/fortran_test.go:56-60 | The 3×3 test matrix 1..9 becomes the column-major buffer 1,4,7,2,5,8,3,6,9. |
| Fortran.CopyOverlappingSource | internal/fortran/fortran.go:136-148 | A 2×2 row-major source of stride 1 over the three values 1,2,3 is copied without a panic. Its loops read positions 0, 1, 1, 2, so the packed destination receives 1,2,2,3. |
| Fortran.ConvertEmptySource | internal/fortran/fortran.go:118-130 | A 0×3 column-major source of stride 5 with no data is never read, and its conversion completes. |
| Fortran.SymmetricFrom | internal/fortran/fortran.go:187-204 | Completes exactly when Uplo is Upper or Lower. Otherwise it panics with "bad uplo" and leaves t unchanged. On success it copies exactly the cells of that triangle into the column-major t and leaves every other position alone. |
| Fortran.SymmetricTo | internal/fortran/fortran.go:222-239 | The same, from column-major to row-major. |
| Fortran.NewColMajorSymmetricFrom | internal/fortran/fortran.go:173-182 | Returns a fresh view of stride N with a's Uplo and length N*N. The triangle is copied on success, and every other cell is zero. |
| Fortran.NewRowMajorSymmetricFrom | internal/fortran/fortran.go:208-217 | The same, towards row-major. |
| Fortran.SymmetricCopyCheck | internal/fortran/fortran.go:246-270 | The symmetric copies panic in order: a dimension mismatch exactly when N differs, then an Uplo mismatch, then a short slice, then "bad uplo". Each case is an if-and-only-if. |
| Fortran.CopySymmetricRowMajor | internal/fortran/fortran.go:245-271 | Its outcome is SymmetricCopyCheck. On a panic dst is unchanged. On success exactly the triangle is copied between row-major views. |
| Fortran.CopySymmetricColMajor | internal/fortran/fortran.go:277-303 | The same, between column-major views. |
| Fortran.ConvertSymmetricRoundTrip | internal/fortran/fortran_test.go:243-259 | Converting to column-major and back preserves every stored cell of the triangle. |
| Fortran.TriangularFrom | internal/fortran/fortran.go:325-348 | Completes exactly when Uplo is Upper, Lower or All. Copies that part, where All means every cell, into the column-major t. Nothing else changes, and Diag plays no part. |
| Fortran.TriangularTo | internal/fortran/fortran.go:367-390 | The same, from column-major to row-major. |
| Fortran.NewColMajorTriangularFrom | internal/fortran/fortran.go:310-320 | Returns a fresh view of stride N that keeps a's Uplo and Diag. The stored part is copied, and other cells are zero. |
| Fortran.NewRowMajorTriangularFrom | internal/fortran/fortran.go:352-362 | The same, towards row-major. |
| Fortran.TriangularCopyCheck | internal/fortran/fortran.go:399-432 | The triangular copies panic in order: a mismatch of N, then of Diag, then of Uplo, then a short slice, then "bad uplo" for values other than Upper, Lower and All. Each case is an if-and-only-if. |
| Fortran.CopyTriangularRowMajor | internal/fortran/fortran.go:398-433 | Its outcome is TriangularCopyCheck. On success exactly the stored part is copied, the diagonal included even for Unit. On a panic dst is unchanged. |
| Fortran.CopyTriangularColMajor | internal/fortran/fortran.go:441-476 | The same, between column-major views. |
| Fortran.ConvertTriangularRoundTrip | internal/fortran/fortran_test.go:455-474 | Converting to column-major and back preserves the stored part for Upper, Lower and All, and keeps Diag. |
| Fortran.ValidCell | internal/fortran/fortran_test.go:175-184 | The same flag appears at fortran_test.go:202-211, 376-387 and 410-421. The tests' valid-element flag inside the n×n matrix: the diagonal is always valid, an Upper matrix is valid exactly on and above the diagonal, a Lower one exactly on and below it, and every cell is valid for other triangle options. The `c < N` and `r < N` guards of the tests only matter outside the matrix. |
| Fortran.RegionsAreValidCells | internal/fortran/fortran_test.go:175-184 | The cells the loops visit are exactly the cells the tests treat as valid: nothing below the diagonal of Upper, nothing above it for Lower. |
| Fortran.DiagonalIsCopied | internal/fortran/fortran.go:395-397 | The stored diagonal is always among the copied cells, so Diag does not change which data is moved. |
| Fortran.RowMajorPaddingUntouched | internal/fortran/fortran_test.go:92-122 | No padding position of a row-major view (column index Cols to Stride-1) holds a cell, so a copy never writes it. |
| Fortran.ColMajorPaddingUntouched | internal/fortran/fortran_test.go:123-152 | No padding position of a column-major view holds a cell. |
| Fortran.InvalidTriangleUntouched | internal/fortran/fortran_test.go:202-211 | A cell outside the stored triangle is never the position of a copied cell, in either layout. |
| Fortran.EachCellWrittenOnce | internal/fortran/fortran.go:325-348 | When the stride is at least N, two cells of the region written to the same position are the same cell. |
| Layout.DecodeIndex | internal/fortran/fortran.go:88-100 | The position i*s+j (row-major) or i+j*s (column-major) of a cell inside the stride decodes back to (i, j). |
| Layout.IndexInjective | internal/fortran/fortran.go:88-100 | Inside the stride, distinct cells of a region have distinct positions. |
| Layout.IndexBound | internal/fortran/fortran.go:90-95 | Every cell of a region lies below the length the short-slice check demands, whatever the stride. |
| Layout.CopyRegion | internal/fortran/fortran.go:245-271 | The row-outer loop nest (for i, for j from Lo to Hi) writes every cell of the region from src to dst and leaves every other position of dst unchanged. |
| Layout.CopyRow | internal/fortran/fortran.go:257-266 | One pass of the inner loop writes every cell of row i of the region from its source position, reading a source that only needs its last position in range, and leaves every position of dst that holds no cell of row i unchanged. |
| Layout.CopyRectColumnwise | internal/fortran/fortran.go:154-166 | The column-outer loop nest does the same for a rectangle. |
| Cgo.CheckMatrix | cgo/lapack.go:32-45 | As written: completes exactly when m ≥ 0, lda ≥ n and len(a) ≥ (m-1)*lda+n. Panics for negative rows, a short stride or a short slice, in that order. |
| Cgo.CheckMatrixNeverReportsColumns | cgo/lapack.go:36-38 | The as-written check never reports "negative number of columns". |
| Cgo.CheckMatrixAcceptsNegativeColumns | cgo/lapack.go:36-38 | As written, a 1×(-1) matrix with lda 0 over an empty slice is accepted. The intended check rejects it. |
| Cgo.CheckMatrixIntended | cgo/lapack.go:32-45 | The corrected check also rejects negative n as a negative column count. It agrees with CheckMatrix whenever n ≥ 0. |
| Cgo.Min | cgo/lapack.go:47-52 | The result is at most each argument and equal to one of them. |
| Cgo.DpotrfAnswer | cgo/lapack.go:64-76 | Panics "n < 0" for negative n, then "bad lda" when lda < n. Returns true without calling C for n = 0. Otherwise returns the C routine's answer. |
| Cgo.Dpotrf | cgo/lapack.go:59-76 | Its result is DpotrfAnswer. a is in the frame, because the C routine factorizes it in place. a is promised unchanged on the paths that stop before C: n < 0, lda < n and n = 0. |
| Cgo.DpotrfEmptyIgnoresBackend | cgo/lapack.go:72-74 | For an empty matrix the answer does not depend on the C library. |
| Cgo.DgelsCheck | cgo/lapack.go:106-108 | Dgels accepts exactly when a passes as m×n and b passes as min(m,n)×nrhs. A failure of a is reported first; once a passes, the outcome is that of the check of b. |
| Cgo.DgelsRejectsNegativeColumns | cgo/lapack.go:106-108 | A negative n is still rejected by Dgels, because min(m,n) is then negative. |
| Cgo.DgelsCheckIsIntendedForA | cgo/lapack.go:106-108 | For a, Dgels's checks accept exactly what the corrected check of a accepts. |
| Cgo.DgelsAcceptsNegativeRightHandSides | cgo/lapack.go:108 | A negative nrhs passes the as-written check of b, and the corrected one rejects it. |
| Cgo.WorkCheck | cgo/lapack.go:113-115 | As written, it panics "shorter than declared" exactly when lwork < len(work). |
| Cgo.WorkCheckIntended | cgo/lapack.go:104 | As documented, it panics exactly when len(work) < lwork. |
| Cgo.WorkCheckIsReversed | cgo/lapack.go:104-115 | The as-written test refuses a work longer than declared and accepts a shorter one. The documented test does the reverse on both inputs. |
| Cgo.Dgels | cgo/lapack.go:105-117 | A failed matrix check is reported and work is left unchanged. On the query lwork = -1 it writes 1 to work[0] and returns true without calling C, or fails with Go's index panic on an empty work. Otherwise the work test decides between "shorter than declared" and the C answer. On every path that stops before C, a and b are unchanged unless they are work. On the C path they may be overwritten, and work is unchanged unless it aliases a or b. |
| Cgo.Max | cgo/lapack.go:96 | The result is at least each argument and equal to one of them. |
| Cgo.DgelsCheckIntended | cgo/lapack.go:96-108 | The corrected checks of Dgels. They accept exactly when m, n and nrhs are non-negative, both strides suffice, a holds m×n, and b holds max(m,n)×nrhs as documented. A failure of a is reported first; once a passes, the outcome is that of the check of b as max(m,n)×nrhs. For square a and nrhs ≥ 0 they agree with the as-written checks. |
| Cgo.DgelsAcceptsShortRightHandSide | cgo/lapack.go:96-108 | For a 3×1 a, the as-written check accepts a b that holds a single row, while the documented max(m,n)×nrhs check rejects it as a short slice. |
| Cgo.DgelsIntendedIsStricter | cgo/lapack.go:96-108 | Every argument list the corrected checks accept is also accepted by the checks as written. |
| Cgo.DgelsCorrected | cgo/lapack.go:96-117 | Dgels with every defect corrected. Negative column counts are reported, b is checked as max(m,n)×nrhs, and the workspace test panics exactly when work is shorter than lwork. The query path, the C hand-off and the frame are as in Dgels. |
| Cgo.DgelsQueryTwice | cgo/lapack.go:109-112 | The query can be repeated: both calls return true, work[0] stays 1, the rest of work is unchanged, and a and b are not written unless they are work. |
| Lapack64.Dispatcher.constructor | lapack64/lapack64.go:29 | The implementation starts out as the native one. |
| Lapack64.Dispatcher.Use | lapack64/lapack64.go:31-35 | After Use(l), the selected implementation is l. |
| Lapack64.Dispatcher.Potrf | lapack64/lapack64.go:37-48 | Runs the selected Dpotrf on a's Uplo, N, data and Stride and returns its answer. The returned triangular view shares a's storage and has a's N, Stride and Uplo and a non-unit Diag. a's storage is in the frame, because the implementation writes the factor into it. |
| Lapack64.Dispatcher.Gels | lapack64/lapack64.go:68-82 | Passes a's Rows, Cols, Data and Stride and b's Cols, Data and Stride to the selected Dgels and returns its answer. a, b and work are in the frame, because the implementation may overwrite all three. |
| Lapack64.DefaultIsNative | lapack64/lapack64.go:29-33 | Before any Use, Potrf dispatches to the native implementation. |
| Lapack64.DispatchAfterUse | lapack64/lapack64.go:31-48 | After Use(l), both Potrf and Gels dispatch to l. |

## Left out

- The numerical work of the C routines and of the native implementation is not modelled. Each routine is an arbitrary function of its arguments, received as a value (`CLapack`, `Backend`). Such a function cannot read the heap, so its answer depends only on the array references. The routines do write in place. The C Dgels overwrites a and b (cgo/lapack.go:95-100), and the C Dpotrf overwrites a with its factor (cgo/lapack.go:59-63). A lapack64 implementation behind Potrf or Gels writes a, b and work. The model therefore puts that storage in the frame of Cgo.Dgels, Cgo.Dpotrf, Lapack64.Dispatcher.Potrf and Lapack64.Dispatcher.Gels. It promises nothing about its contents once the routine has run.
- The `lapack.Float64` interface is a record of function values, not an interface type. Only the two routines the wrappers call are included.
- Dimensions and strides of the matrix views are `nat`. A negative Rows, Cols, N or Stride in a view is not modelled. In the cgo adapter, m, n, nrhs, lda and lwork are plain integers, so their negative cases are modelled.
- The fortran operations require a source view whose region is empty or whose last position lies in its slice (`Layout.Readable`). This is exactly when Go reads every visited cell without an index panic, since every position lies below the last one. The stride of the source is not constrained. A stride below the minor dimension makes cells share positions, and Go reads them without a panic (Fortran.CopyOverlappingSource). An empty source is never read (Fortran.ConvertEmptySource). The index panic of a too-short source is not modelled.
- The fortran operations also require a destination stride at least the row length (row-major) or the column length (column-major), whenever the code's own checks let the copy run. The code does not check this and does not panic on a smaller stride. The loops then write shared positions. For a General view with more than one row (row-major) or more than one column (column-major), they overwrite cells of the view. For an Upper or Lower triangle of stride N-1 or less, each stored cell can still get its own position, but some positions also hold a cell of the other, unstored triangle. With N = 3 and stride 2, row-major Upper writes positions 0, 1, 2, 3, 4 and 6, and position 2 is both (0,2) and (1,0). The model does not describe the destination in these cases. A view with a single row or column never overlaps, whatever its stride, but the model still requires stride ≥ minor dimension for it.
- Symmetric and Triangular From and To check no dimensions or lengths. They require the destination to hold the region and cannot model the index panic of a destination that is too short.
- Source and destination are required to be different arrays. Copying a view onto an overlapping view of the same backing slice is not modelled.
- The position of each copied cell and the nesting of the loops match the Go code. The intermediate order of the writes is not otherwise observable without aliasing.
- The characters are Dafny `char`, not Go `byte`. Panic messages are `Reason` values, not strings.
- The process-wide implementation is a field of one `Dispatcher` object. Concurrent use of the package variable is not modelled.
- Floating point: elements are `real` and are only moved, so NaN handling in the tests' equality helper is not modelled.
- The Go testing framework, the benchmarks (cgo/lapack_bench_test.go, testlapack/dbdsqrbench.go) and the clapack bindings are not part of this model.
- Cgo.Dgels models the code as written, with the three defects listed under Findings. Cgo.DgelsCorrected is the corrected operation.
- Cgo.Dpotrf does not check ul. It passes ul on to the C routine, as the code does. The argument checks of the C routines and the panics they raise (cgo/lapack.go:65 leaves the check of ul to clapack.Dpotrf) are not modelled: for a ul other than Upper and Lower the model returns the backend's arbitrary answer where Go panics inside clapack.
- Cgo.CheckMatrix, Cgo.CheckMatrixIntended, Cgo.DgelsCheck, Cgo.DgelsCheckIntended, Cgo.Dgels: the length tests compute `(m-1)*lda+n` with unbounded integers. Go computes it in 64-bit `int`, which wraps past 2^63-1. With m = 2, n = lda = 2^62 and an empty a, Go's sum wraps to -2^63 and passes, while the model reports a short slice. The model agrees with Go whenever every product and sum stays within 64 bits.
- Fortran.GeneralFrom, Fortran.GeneralTo, Fortran.CopyGeneralRowMajor, Fortran.CopyGeneralColMajor, Fortran.SymmetricCopyCheck, Fortran.TriangularCopyCheck: the short-slice tests are likewise computed without 64-bit wrap-around. A check that Go passes only through overflow, for example Rows 1, Cols 3, Stride 2^62, is reported by the model as a short slice. Go would instead fail later with an index panic.

## Findings

| source | as written | input that shows it | evidently intended | confidence | as-written member | corrected member |
|---|---|---|---|---|---|---|
| cgo/lapack.go:36 | the second test of checkMatrix repeats `m < 0`, so a negative n is never reported | m = 1, n = -1, lda = 0, an empty slice: accepted; in Dgels, m = n = 1, nrhs = -1, ldb = 0, empty b: accepted | test `n < 0` and panic "negative number of columns" | not executed | Cgo.CheckMatrix, Cgo.CheckMatrixAcceptsNegativeColumns, Cgo.DgelsAcceptsNegativeRightHandSides | Cgo.CheckMatrixIntended, Cgo.DgelsCheckIsIntendedForA, Cgo.DgelsCheckIntended, Cgo.DgelsCorrected |
| cgo/lapack.go:113 | Dgels panics "working array shorter than declared" when `lwork < len(work)` | lwork = 0 with len(work) = 1 panics; lwork = 1 with an empty work is accepted | panic when `len(work) < lwork`, as the comment at line 104 states | not executed | Cgo.WorkCheck, Cgo.WorkCheckIsReversed | Cgo.WorkCheckIntended, Cgo.DgelsCorrected |
| cgo/lapack.go:108 | Dgels checks b as a min(m,n)×nrhs matrix, although the documentation at line 96 says b is max(m,n)×nrhs | m = 3, n = 1, nrhs = 1, lda = ldb = 1, len(a) = 3, len(b) = 1: accepted, and the C routine is given a b with one row where three are read | check b with `checkMatrix(max(m, n), nrhs, b, ldb)` | not executed | Cgo.DgelsCheck, Cgo.DgelsAcceptsShortRightHandSide | Cgo.Max, Cgo.DgelsCheckIntended, Cgo.DgelsIntendedIsStricter, Cgo.DgelsCorrected |
