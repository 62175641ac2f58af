/** The adapter that runs LAPACK routines through a C library: its
    argument checks, its workspace-query path, and the hand-off to the C
    routine.  The C routines are foreign numerical code; here they are a
    value of type CLapack, arbitrary functions of their arguments. */
module Cgo {
  import opened Blas
  import opened Panics

  /** The C routines the adapter calls (clapack.Dpotrf, clapack.Dgels).
      A `->` function cannot read the heap, so a routine's answer depends on
      the array references it receives, never on their contents; what the
      routines write into the arrays is not modelled. */
  datatype CLapack = CLapack(
    dpotrf: (Uplo, int, array<real>, int) -> bool,
    dgels: (Transpose, int, int, int, array<real>, int, array<real>, int) -> bool)

  /** checkMatrix(m, n, a, lda) as written: its second test repeats the test
      of m, so a negative n is never reported as such. */
  function CheckMatrix(m: int, n: int, a: array<real>, lda: int): (o: Outcome)
    ensures o.Completed? <==> m >= 0 && lda >= n && a.Length >= (m - 1) * lda + n
    ensures m < 0 ==> o == Panic(NegativeRows)
    ensures m >= 0 && lda < n ==> o == Panic(StrideLessThanColumns)
    ensures m >= 0 && lda >= n && a.Length < (m - 1) * lda + n ==> o == Panic(ShortMatrixSlice)
  {
    if m < 0 then Panic(NegativeRows)
    else if m < 0 then Panic(NegativeColumns)
    else if lda < n then Panic(StrideLessThanColumns)
    else if a.Length < (m - 1) * lda + n then Panic(ShortMatrixSlice)
    else Completed
  }

  /** The check as the panic messages say it was meant: a negative n is
      rejected as a negative number of columns. */
  function CheckMatrixIntended(m: int, n: int, a: array<real>, lda: int): (o: Outcome)
    ensures o.Completed? <==> m >= 0 && n >= 0 && lda >= n && a.Length >= (m - 1) * lda + n
    ensures m >= 0 && n < 0 ==> o == Panic(NegativeColumns)
    ensures n >= 0 ==> o == CheckMatrix(m, n, a, lda)
  {
    if m < 0 then Panic(NegativeRows)
    else if n < 0 then Panic(NegativeColumns)
    else if lda < n then Panic(StrideLessThanColumns)
    else if a.Length < (m - 1) * lda + n then Panic(ShortMatrixSlice)
    else Completed
  }

  /** As written, checkMatrix accepts a 1×(-1) matrix with stride 0 over an
      empty slice, which the intended check rejects. */
  lemma CheckMatrixAcceptsNegativeColumns(a: array<real>)
    requires a.Length == 0
    ensures CheckMatrix(1, -1, a, 0) == Completed
    ensures CheckMatrixIntended(1, -1, a, 0) == Panic(NegativeColumns)
  {
  }

  /** The as-written check never reports a negative column count. */
  lemma CheckMatrixNeverReportsColumns(m: int, n: int, a: array<real>, lda: int)
    ensures CheckMatrix(m, n, a, lda) != Panic(NegativeColumns)
  {
  }

  /** min(m, n). */
  function Min(m: int, n: int): (r: int)
    ensures r <= m && r <= n
    ensures r == m || r == n
  {
    if m < n then m else n
  }

  /** The answer of Dpotrf: panics when n < 0, then when lda < n; an empty
      matrix is factorized without calling C; otherwise the C result is
      returned.  The triangle option is left to the C routine to check. */
  function DpotrfAnswer(c: CLapack, ul: Uplo, n: int, a: array<real>, lda: int): (r: Result<bool>)
    ensures n < 0 ==> r == Fail(NLessThanZero)
    ensures n >= 0 && lda < n ==> r == Fail(BadLdA)
    ensures n == 0 && lda >= 0 ==> r == Ok(true)
    ensures n > 0 && lda >= n ==> r == Ok(c.dpotrf(ul, n, a, lda))
  {
    if n < 0 then Fail(NLessThanZero)
    else if lda < n then Fail(BadLdA)
    else if n == 0 then Ok(true)
    else Ok(c.dpotrf(ul, n, a, lda))
  }

  /** Dpotrf: answers as DpotrfAnswer says.  On the path that reaches C the
      routine overwrites the ul triangle of a with the Cholesky factor, so
      a is in the frame and is promised unchanged only on the other paths. */
  method Dpotrf(c: CLapack, ul: Uplo, n: int, a: array<real>, lda: int) returns (r: Result<bool>)
    modifies a
    ensures r == DpotrfAnswer(c, ul, n, a, lda)
    ensures n <= 0 || lda < n ==> a[..] == old(a[..])
  {
    if n < 0 {
      return Fail(NLessThanZero);
    }
    if lda < n {
      return Fail(BadLdA);
    }
    if n == 0 {
      return Ok(true);
    }
    r := Ok(c.dpotrf(ul, n, a, lda));
  }

  /** The result of Dpotrf on an empty matrix does not depend on the C
      library: the C routine is not called. */
  lemma DpotrfEmptyIgnoresBackend(c1: CLapack, c2: CLapack, ul: Uplo, a: array<real>, lda: int)
    ensures DpotrfAnswer(c1, ul, 0, a, lda) == DpotrfAnswer(c2, ul, 0, a, lda)
  {
  }

  /** The matrix checks Dgels runs first, on every path: a as m×n with
      stride lda, then b as min(m,n)×nrhs with stride ldb. */
  function DgelsCheck(m: int, n: int, nrhs: int, a: array<real>, lda: int, b: array<real>, ldb: int): (o: Outcome)
    ensures o.Completed? <==> CheckMatrix(m, n, a, lda).Completed? && CheckMatrix(Min(m, n), nrhs, b, ldb).Completed?
    ensures CheckMatrix(m, n, a, lda).Panic? ==> o == CheckMatrix(m, n, a, lda)
    ensures CheckMatrix(m, n, a, lda).Completed? ==> o == CheckMatrix(Min(m, n), nrhs, b, ldb)
  {
    var first := CheckMatrix(m, n, a, lda);
    if first.Panic? then first else CheckMatrix(Min(m, n), nrhs, b, ldb)
  }

  /** Although checkMatrix lets a negative n through, Dgels still rejects
      it: min(m, n) is then negative and fails the check of b. */
  lemma DgelsRejectsNegativeColumns(m: int, n: int, nrhs: int, a: array<real>, lda: int, b: array<real>, ldb: int)
    requires n < 0
    ensures DgelsCheck(m, n, nrhs, a, lda, b, ldb).Panic?
  {
    assert Min(m, n) < 0;
  }

  /** For a, Dgels's checks accept exactly what the intended check of a
      accepts (the check of b is unchanged). */
  lemma {:induction false} DgelsCheckIsIntendedForA(m: int, n: int, nrhs: int, a: array<real>, lda: int, b: array<real>, ldb: int)
    ensures DgelsCheck(m, n, nrhs, a, lda, b, ldb).Completed? <==>
      CheckMatrixIntended(m, n, a, lda).Completed? && CheckMatrix(Min(m, n), nrhs, b, ldb).Completed?
  {
    if n < 0 {
      DgelsRejectsNegativeColumns(m, n, nrhs, a, lda, b, ldb);
    }
  }

  /** The negative column count of b is not caught: Dgels accepts nrhs = -1
      for a 1×1 a and an empty b with stride 0, and hands it to C. */
  lemma DgelsAcceptsNegativeRightHandSides(a: array<real>, b: array<real>)
    requires a.Length == 1 && b.Length == 0
    ensures DgelsCheck(1, 1, -1, a, 1, b, 0).Completed?
    ensures CheckMatrixIntended(Min(1, 1), -1, b, 0) == Panic(NegativeColumns)
  {
  }

  /** The workspace test of Dgels as written: it panics when lwork is
      smaller than the length of work. */
  function WorkCheck(lwork: int, work: array<real>): (o: Outcome)
    ensures o.Completed? <==> lwork >= work.Length
    ensures o.Panic? ==> o.reason == ShortWork
  {
    if lwork < work.Length then Panic(ShortWork) else Completed
  }

  /** The workspace test as documented: panic when work is shorter than the
      declared lwork. */
  function WorkCheckIntended(lwork: int, work: array<real>): (o: Outcome)
    ensures o.Completed? <==> work.Length >= lwork
    ensures o.Panic? ==> o.reason == ShortWork
  {
    if work.Length < lwork then Panic(ShortWork) else Completed
  }

  /** As written, a workspace longer than declared is refused and one that
      is shorter than declared is accepted; the intended test does the
      reverse. */
  lemma WorkCheckIsReversed(long: array<real>, short: array<real>)
    requires long.Length == 1 && short.Length == 0
    ensures WorkCheck(0, long) == Panic(ShortWork) && WorkCheckIntended(0, long) == Completed
    ensures WorkCheck(1, short) == Completed && WorkCheckIntended(1, short) == Panic(ShortWork)
  {
  }

  /** Dgels: checks a and b; on the workspace query lwork == -1 it writes 1
      to work[0] and returns true without calling C; otherwise it applies
      the workspace test and hands a and b to the C routine, which
      overwrites them with the factorization and the solution.  Writing
      work[0] of an empty work is Go's index panic. */
  method Dgels(c: CLapack, trans: Transpose, m: int, n: int, nrhs: int, a: array<real>, lda: int,
               b: array<real>, ldb: int, work: array<real>, lwork: int) returns (r: Result<bool>)
    modifies work, a, b
    ensures DgelsCheck(m, n, nrhs, a, lda, b, ldb).Panic? ==>
      r == Fail(DgelsCheck(m, n, nrhs, a, lda, b, ldb).reason) && work[..] == old(work[..])
    ensures DgelsCheck(m, n, nrhs, a, lda, b, ldb).Completed? && lwork == -1 ==>
      if work.Length == 0 then r == Fail(IndexOutOfRange)
      else r == Ok(true) && work[0] == 1.0 && work[1..] == old(work[1..])
    ensures DgelsCheck(m, n, nrhs, a, lda, b, ldb).Completed? && lwork != -1 ==>
      r == if WorkCheck(lwork, work).Panic? then Fail(ShortWork) else Ok(c.dgels(trans, m, n, nrhs, a, lda, b, ldb))
    ensures DgelsCheck(m, n, nrhs, a, lda, b, ldb).Completed? && lwork != -1 && work != a && work != b ==>
      work[..] == old(work[..])
    // a and b are left alone on every path that does not reach the C routine
    ensures DgelsCheck(m, n, nrhs, a, lda, b, ldb).Panic? || lwork == -1 || WorkCheck(lwork, work).Panic? ==>
      (a != work ==> a[..] == old(a[..])) && (b != work ==> b[..] == old(b[..]))
  {
    var check := DgelsCheck(m, n, nrhs, a, lda, b, ldb);
    if check.Panic? {
      return Fail(check.reason);
    }
    if lwork == -1 {
      if work.Length == 0 {
        return Fail(IndexOutOfRange);
      }
      work[0] := 1.0;
      return Ok(true);
    }
    if WorkCheck(lwork, work).Panic? {
      return Fail(ShortWork);
    }
    r := Ok(c.dgels(trans, m, n, nrhs, a, lda, b, ldb));
  }

  /** Two workspace queries in a row answer the same and leave work[0] at 1:
      the query can be repeated. */
  method DgelsQueryTwice(c: CLapack, trans: Transpose, m: int, n: int, nrhs: int, a: array<real>, lda: int,
                         b: array<real>, ldb: int, work: array<real>) returns (r1: Result<bool>, r2: Result<bool>)
    requires DgelsCheck(m, n, nrhs, a, lda, b, ldb).Completed?
    requires work.Length > 0
    modifies work, a, b
    ensures r1 == r2 == Ok(true)
    ensures work[0] == 1.0 && work[1..] == old(work[1..])
    ensures a != work ==> a[..] == old(a[..])
    ensures b != work ==> b[..] == old(b[..])
  {
    r1 := Dgels(c, trans, m, n, nrhs, a, lda, b, ldb, work, -1);
    r2 := Dgels(c, trans, m, n, nrhs, a, lda, b, ldb, work, -1);
  }

  /** max(m, n): the number of rows b has, by the documentation of Dgels. */
  function Max(m: int, n: int): (r: int)
    ensures r >= m && r >= n
    ensures r == m || r == n
  {
    if m < n then n else m
  }

  /** The checks of Dgels as the messages and the documentation mean them:
      both matrices through the intended checkMatrix, and b as the
      max(m,n)×nrhs matrix the documentation describes. */
  function DgelsCheckIntended(m: int, n: int, nrhs: int, a: array<real>, lda: int, b: array<real>, ldb: int): (o: Outcome)
    ensures o.Completed? <==>
      m >= 0 && n >= 0 && nrhs >= 0 && lda >= n && a.Length >= (m - 1) * lda + n &&
      ldb >= nrhs && b.Length >= (Max(m, n) - 1) * ldb + nrhs
    ensures CheckMatrixIntended(m, n, a, lda).Panic? ==> o == CheckMatrixIntended(m, n, a, lda)
    ensures CheckMatrixIntended(m, n, a, lda).Completed? ==> o == CheckMatrixIntended(Max(m, n), nrhs, b, ldb)
    ensures m == n && nrhs >= 0 ==> o == DgelsCheck(m, n, nrhs, a, lda, b, ldb)
  {
    var first := CheckMatrixIntended(m, n, a, lda);
    if first.Panic? then first else CheckMatrixIntended(Max(m, n), nrhs, b, ldb)
  }

  /** As written, b is checked as min(m,n)×nrhs: for a 3×1 a, a b that holds
      one row of one right-hand side passes, while the documented
      max(m,n)×nrhs check wants three rows. */
  lemma DgelsAcceptsShortRightHandSide(a: array<real>, b: array<real>)
    requires a.Length == 3 && b.Length == 1
    ensures DgelsCheck(3, 1, 1, a, 1, b, 1).Completed?
    ensures DgelsCheckIntended(3, 1, 1, a, 1, b, 1) == Panic(ShortMatrixSlice)
  {
  }

  /** The intended checks are stricter: whatever they accept, the checks as
      written accept too. */
  lemma DgelsIntendedIsStricter(m: int, n: int, nrhs: int, a: array<real>, lda: int, b: array<real>, ldb: int)
    requires DgelsCheckIntended(m, n, nrhs, a, lda, b, ldb).Completed?
    ensures DgelsCheck(m, n, nrhs, a, lda, b, ldb).Completed?
  {
  }

  /** Dgels with every defect corrected: negative column counts are
      rejected, b is checked as max(m,n)×nrhs, and the workspace test
      panics on a work shorter than lwork. */
  method DgelsCorrected(c: CLapack, trans: Transpose, m: int, n: int, nrhs: int, a: array<real>, lda: int,
                        b: array<real>, ldb: int, work: array<real>, lwork: int) returns (r: Result<bool>)
    modifies work, a, b
    ensures DgelsCheckIntended(m, n, nrhs, a, lda, b, ldb).Panic? ==>
      r == Fail(DgelsCheckIntended(m, n, nrhs, a, lda, b, ldb).reason) && work[..] == old(work[..])
    ensures DgelsCheckIntended(m, n, nrhs, a, lda, b, ldb).Completed? && lwork == -1 ==>
      if work.Length == 0 then r == Fail(IndexOutOfRange)
      else r == Ok(true) && work[0] == 1.0 && work[1..] == old(work[1..])
    ensures DgelsCheckIntended(m, n, nrhs, a, lda, b, ldb).Completed? && lwork != -1 ==>
      r == if work.Length < lwork then Fail(ShortWork) else Ok(c.dgels(trans, m, n, nrhs, a, lda, b, ldb))
    ensures DgelsCheckIntended(m, n, nrhs, a, lda, b, ldb).Completed? && lwork != -1 && work != a && work != b ==>
      work[..] == old(work[..])
    ensures DgelsCheckIntended(m, n, nrhs, a, lda, b, ldb).Panic? || lwork == -1 || WorkCheckIntended(lwork, work).Panic? ==>
      (a != work ==> a[..] == old(a[..])) && (b != work ==> b[..] == old(b[..]))
  {
    var check := DgelsCheckIntended(m, n, nrhs, a, lda, b, ldb);
    if check.Panic? {
      return Fail(check.reason);
    }
    if lwork == -1 {
      if work.Length == 0 {
        return Fail(IndexOutOfRange);
      }
      work[0] := 1.0;
      return Ok(true);
    }
    if WorkCheckIntended(lwork, work).Panic? {
      return Fail(ShortWork);
    }
    r := Ok(c.dgels(trans, m, n, nrhs, a, lda, b, ldb));
  }
}
