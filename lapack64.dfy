/** The convenience wrappers: a process-wide choice of LAPACK
    implementation, and wrappers that unpack matrix views into the
    implementation's primitive arguments.  An implementation is a value of
    type Backend whose routines are arbitrary functions of their arguments;
    the selected one lives in the field `impl` of a Dispatcher, which stands
    for the package-level variable. */
module Lapack64 {
  import opened Blas

  /** The two routines of the LAPACK float64 interface the wrappers use.  A
      `->` function cannot read the heap: an answer depends on the array
      references only, and the routines' writes are not modelled. */
  datatype Backend = Backend(
    dpotrf: (Uplo, int, array<real>, int) -> bool,
    dgels: (Transpose, int, int, int, array<real>, int, array<real>, int, array<real>, int) -> bool)

  class Dispatcher {
    /** The implementation used when none has been selected. */
    const native: Backend
    /** The implementation every wrapper call goes to. */
    var impl: Backend

    /** The package starts out with the native implementation. */
    constructor (native: Backend)
      ensures this.native == native && impl == native
    {
      this.native := native;
      impl := native;
    }

    /** Use(l): later wrapper calls go to l. */
    method Use(l: Backend)
      modifies this
      ensures impl == l
    {
      impl := l;
    }

    /** Potrf(a): runs the selected Dpotrf on a's storage and returns a
        triangular view of that same storage (not a copy), with a's order,
        stride and triangle and a non-unit diagonal.  The implementation
        factorizes in place, so a.data holds the factor afterwards; what it
        writes there is the implementation's and is not constrained here. */
    method Potrf(a: Symmetric) returns (t: Triangular, ok: bool)
      modifies a.data
      ensures t.data == a.data
      ensures t.n == a.n && t.stride == a.stride && t.uplo == a.uplo
      ensures t.diag == NonUnit
      ensures ok == impl.dpotrf(a.uplo, a.n, a.data, a.stride)
    {
      ok := impl.dpotrf(a.uplo, a.n, a.data, a.stride);
      t := Triangular(a.n, a.stride, a.data, a.uplo, NonUnit);
    }

    /** Gels(trans, a, b, work, lwork): the selected Dgels on a's and b's
        dimensions and storage, its answer returned unchanged.  The
        implementation may overwrite a, b (the solution) and work (work[0]
        on the query lwork == -1); those writes are not constrained here. */
    method Gels(trans: Transpose, a: General, b: General, work: array<real>, lwork: int) returns (ok: bool)
      modifies a.data, b.data, work
      ensures ok == impl.dgels(trans, a.rows, a.cols, b.cols, a.data, a.stride, b.data, b.stride, work, lwork)
    {
      ok := impl.dgels(trans, a.rows, a.cols, b.cols, a.data, a.stride, b.data, b.stride, work, lwork);
    }
  }

  /** Before any Use, the wrappers dispatch to the native implementation. */
  method DefaultIsNative(native: Backend, a: Symmetric) returns (d: Dispatcher, ok: bool)
    modifies a.data
    ensures d.impl == native
    ensures ok == native.dpotrf(a.uplo, a.n, a.data, a.stride)
  {
    d := new Dispatcher(native);
    var t;
    t, ok := d.Potrf(a);
  }

  /** After Use(l), Potrf and Gels both dispatch to l. */
  method DispatchAfterUse(d: Dispatcher, l: Backend, s: Symmetric, trans: Transpose, a: General, b: General,
                          work: array<real>, lwork: int) returns (t: Triangular, potrfOk: bool, gelsOk: bool)
    modifies d, s.data, a.data, b.data, work
    ensures d.impl == l
    ensures t.data == s.data && potrfOk == l.dpotrf(s.uplo, s.n, s.data, s.stride)
    ensures gelsOk == l.dgels(trans, a.rows, a.cols, b.cols, a.data, a.stride, b.data, b.stride, work, lwork)
  {
    d.Use(l);
    t, potrfOk := d.Potrf(s);
    gelsOk := d.Gels(trans, a, b, work, lwork);
  }
}
