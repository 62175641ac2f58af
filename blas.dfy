/** The option enumerations and matrix descriptors of the BLAS packages that
    the fortran, cgo and lapack64 packages are written against.  Each
    enumeration is an integer in Go; the `...Other` constructor stands for
    every integer that is none of the named options.  Its code is an
    abstract label for such an integer, not the Go value itself:
    `TransOther(c)` is never NoTrans, whatever c is.  Element values are
    only ever moved, so a float64 is modelled as a `real`. */
module Blas {

  datatype Transpose = NoTrans | Trans | ConjTrans | TransOther(code: int)

  datatype Uplo = Upper | Lower | All | UploOther(code: int)

  datatype Diag = NonUnit | Unit | DiagOther(code: int)

  datatype Side = Left | Right | SideOther(code: int)

  /** A general matrix view: Rows×Cols cells with the given stride over data.
      The same record serves as the row-major blas64.General and as the
      column-major fortran.General; which one a value is, is said by the
      operation that receives it. */
  datatype General = General(rows: nat, cols: nat, stride: nat, data: array<real>)

  /** A symmetric matrix view: an N×N matrix of which only the uplo triangle is stored. */
  datatype Symmetric = Symmetric(n: nat, stride: nat, data: array<real>, uplo: Uplo)

  /** A triangular matrix view; uplo All means every cell is stored. */
  datatype Triangular = Triangular(n: nat, stride: nat, data: array<real>, uplo: Uplo, diag: Diag)
}

/** The panics of the fortran and cgo packages, as values: an operation either completes or
    reports the reason it would panic with. */
module Panics {

  datatype Reason =
    // fortran package
    | BadTrans | BadUplo | BadDiag | BadSide
    | MismatchedDimension | ShortDataSlice | MismatchedUplo | MismatchedDiag
    // cgo adapter
    | NegativeRows | NegativeColumns | StrideLessThanColumns | ShortMatrixSlice
    | NLessThanZero | BadLdA | ShortWork
    // Go's run-time check on a slice index
    | IndexOutOfRange

  /** Result of an operation that changes storage in place. */
  datatype Outcome = Completed | Panic(reason: Reason)

  /** Result of an operation that returns a value. */
  datatype Result<T> = Ok(value: T) | Fail(reason: Reason)
}
