/** Utilities that let Go code call column-major FORTRAN routines: the
    single-character codes of the BLAS options, and conversion and copying
    between row-major (blas64) and column-major (fortran) matrix views.
    Every conversion and copy moves the values of the cells its loops visit
    and writes nothing else; no element value is computed. */
module Fortran {
  import opened Blas
  import opened Panics
  import opened Layout

  // ---------------------------------------------------------------------
  // Option characters

  /** FORTRAN character of a transpose option. */
  function TransCharacter(trans: Transpose): (r: Result<char>)
    ensures r == Ok('N') <==> trans == NoTrans
    ensures r == Ok('T') <==> trans == Trans
    ensures r == Ok('C') <==> trans == ConjTrans
    ensures r == Fail(BadTrans) <==> trans.TransOther?
  {
    match trans
    case NoTrans => Ok('N')
    case Trans => Ok('T')
    case ConjTrans => Ok('C')
    case TransOther(_) => Fail(BadTrans)
  }

  /** FORTRAN character of a triangle option. */
  function UploCharacter(uplo: Uplo): (r: Result<char>)
    ensures r == Ok('U') <==> uplo == Upper
    ensures r == Ok('L') <==> uplo == Lower
    ensures r == Ok('A') <==> uplo == All
    ensures r == Fail(BadUplo) <==> uplo.UploOther?
  {
    match uplo
    case Upper => Ok('U')
    case Lower => Ok('L')
    case All => Ok('A')
    case UploOther(_) => Fail(BadUplo)
  }

  /** FORTRAN character of a diagonal option. */
  function DiagCharacter(diag: Diag): (r: Result<char>)
    ensures r == Ok('U') <==> diag == Unit
    ensures r == Ok('N') <==> diag == NonUnit
    ensures r == Fail(BadDiag) <==> diag.DiagOther?
  {
    match diag
    case Unit => Ok('U')
    case NonUnit => Ok('N')
    case DiagOther(_) => Fail(BadDiag)
  }

  /** FORTRAN character of a side option. */
  function SideCharacter(side: Side): (r: Result<char>)
    ensures r == Ok('L') <==> side == Left
    ensures r == Ok('R') <==> side == Right
    ensures r == Fail(BadSide) <==> side.SideOther?
  {
    match side
    case Left => Ok('L')
    case Right => Ok('R')
    case SideOther(_) => Fail(BadSide)
  }

  /** Distinct valid options get distinct characters, so the character
      determines the option. */
  lemma CharactersDetermineOptions()
    ensures forall x: Transpose, y: Transpose :: TransCharacter(x).Ok? && TransCharacter(x) == TransCharacter(y) ==> x == y
    ensures forall x: Uplo, y: Uplo :: UploCharacter(x).Ok? && UploCharacter(x) == UploCharacter(y) ==> x == y
    ensures forall x: Diag, y: Diag :: DiagCharacter(x).Ok? && DiagCharacter(x) == DiagCharacter(y) ==> x == y
    ensures forall x: Side, y: Side :: SideCharacter(x).Ok? && SideCharacter(x) == SideCharacter(y) ==> x == y
  {
  }

  // ---------------------------------------------------------------------
  // Valid cells

  /** The cells a symmetric view stores: its uplo triangle, diagonal
      included.  Options other than Upper and Lower select no cells. */
  function SymmetricRegion(uplo: Uplo, n: nat): Region {
    match uplo
    case Upper => UpperTri(n)
    case Lower => LowerTri(n)
    case _ => Rect(0, 0)
  }

  /** The cells a triangular view stores; All stores the whole n×n matrix. */
  function TriangularRegion(uplo: Uplo, n: nat): Region {
    match uplo
    case Upper => UpperTri(n)
    case Lower => LowerTri(n)
    case All => Rect(n, n)
    case UploOther(_) => Rect(0, 0)
  }

  /** The valid-element test of the package tests: inside an n×n matrix a
      cell is invalid below the diagonal of an Upper matrix and above the
      diagonal of a Lower one. */
  predicate ValidCell(uplo: Uplo, i: nat, j: nat): (ok: bool)
    ensures i == j ==> ok
    ensures uplo == Upper ==> (ok <==> i <= j)
    ensures uplo == Lower ==> (ok <==> j <= i)
    ensures uplo != Upper && uplo != Lower ==> ok
  {
    !(uplo == Lower && i < j) && !(uplo == Upper && i > j)
  }

  /** The loops' regions are exactly the valid cells of the n×n matrix. */
  lemma RegionsAreValidCells(uplo: Uplo, n: nat, i: nat, j: nat)
    ensures uplo == Upper || uplo == Lower ==>
      (In(SymmetricRegion(uplo, n), i, j) <==> i < n && j < n && ValidCell(uplo, i, j))
    ensures uplo == Upper || uplo == Lower || uplo == All ==>
      (In(TriangularRegion(uplo, n), i, j) <==> i < n && j < n && ValidCell(uplo, i, j))
  {
  }

  /** The stored diagonal is always one of the copied cells, whatever the
      diagonal kind: Diag never changes which cells are moved. */
  lemma DiagonalIsCopied(uplo: Uplo, n: nat, i: nat)
    requires uplo == Upper || uplo == Lower || uplo == All
    requires i < n
    ensures In(TriangularRegion(uplo, n), i, i)
    ensures uplo != All ==> In(SymmetricRegion(uplo, n), i, i)
  {
  }

  /** No padding position of a row-major view (row i, column j in
      [Cols, Stride)) holds a cell, so copies leave it untouched. */
  lemma RowMajorPaddingUntouched(rows: nat, cols: nat, s: nat, i: nat, j: nat)
    requires i < rows && cols <= j < s
    ensures !Covers(RowMajor, s, Rect(rows, cols), Index(RowMajor, s, i, j))
  {
    DecodeIndex(RowMajor, s, i, j);
  }

  /** No padding position of a column-major view (column j, row i in
      [Rows, Stride)) holds a cell, so copies leave it untouched. */
  lemma ColMajorPaddingUntouched(rows: nat, cols: nat, s: nat, i: nat, j: nat)
    requires j < cols && rows <= i < s
    ensures !Covers(ColMajor, s, Rect(rows, cols), Index(ColMajor, s, i, j))
  {
    DecodeIndex(ColMajor, s, i, j);
  }

  /** A cell of the invalid triangle of a symmetric or triangular view is
      never a copied position, in either layout. */
  lemma InvalidTriangleUntouched(o: Order, uplo: Uplo, n: nat, s: nat, i: nat, j: nat)
    requires n <= s && i < n && j < n
    requires !ValidCell(uplo, i, j)
    ensures !Covers(o, s, SymmetricRegion(uplo, n), Index(o, s, i, j))
    ensures !Covers(o, s, TriangularRegion(uplo, n), Index(o, s, i, j))
  {
    DecodeIndex(o, s, i, j);
  }

  /** Within a view whose stride is at least n, each cell of the region is
      written at its own position: no position is written twice, and the
      diagonal once. */
  lemma {:induction false} EachCellWrittenOnce(o: Order, uplo: Uplo, n: nat, s: nat, p: nat, q: nat, p': nat, q': nat)
    requires n <= s
    requires In(TriangularRegion(uplo, n), p, q) && In(TriangularRegion(uplo, n), p', q')
    requires Index(o, s, p, q) == Index(o, s, p', q')
    ensures p == p' && q == q'
  {
    IndexInjective(o, s, TriangularRegion(uplo, n), p, q, p', q');
  }

  // ---------------------------------------------------------------------
  // General matrices

  /** t.From(a): fills the column-major t with the row-major a.  Panics on
      mismatched dimensions, then on a t shorter than (Cols-1)*Stride+Rows.
      The stride of t is not checked by the code and is required here. */
  method GeneralFrom(t: General, a: General) returns (o: Outcome)
    requires t.data != a.data
    requires Readable(RowMajor, a.stride, Rect(a.rows, a.cols), a.data.Length)
    requires t.rows == a.rows && t.cols == a.cols && t.data.Length >= (t.cols - 1) * t.stride + t.rows ==> t.rows <= t.stride
    modifies t.data
    ensures o == Panic(MismatchedDimension) <==> t.rows != a.rows || t.cols != a.cols
    ensures o == Panic(ShortDataSlice) <==>
      t.rows == a.rows && t.cols == a.cols && t.data.Length < (t.cols - 1) * t.stride + t.rows
    ensures o.Completed? <==>
      t.rows == a.rows && t.cols == a.cols && t.data.Length >= (t.cols - 1) * t.stride + t.rows
    ensures o.Panic? ==> t.data[..] == old(t.data[..])
    ensures o.Completed? ==> Copied(t.data[..], ColMajor, t.stride, a.data[..], RowMajor, a.stride, Rect(a.rows, a.cols))
    ensures o.Completed? ==> Untouched(t.data[..], old(t.data[..]), ColMajor, t.stride, Rect(a.rows, a.cols))
  {
    if t.rows != a.rows || t.cols != a.cols {
      return Panic(MismatchedDimension);
    }
    if t.data.Length < (t.cols - 1) * t.stride + t.rows {
      return Panic(ShortDataSlice);
    }
    CopyRegion(t.data, ColMajor, t.stride, a.data, RowMajor, a.stride, Rect(a.rows, a.cols));
    o := Completed;
  }

  /** a.To(t): fills the row-major t with the column-major a, column by
      column.  Panics on mismatched dimensions, then on a t shorter than
      (Rows-1)*Stride+Cols.  The stride of t is required, not checked. */
  method GeneralTo(a: General, t: General) returns (o: Outcome)
    requires t.data != a.data
    requires Readable(ColMajor, a.stride, Rect(a.rows, a.cols), a.data.Length)
    requires t.rows == a.rows && t.cols == a.cols && t.data.Length >= (t.rows - 1) * t.stride + t.cols ==> t.cols <= t.stride
    modifies t.data
    ensures o == Panic(MismatchedDimension) <==> t.rows != a.rows || t.cols != a.cols
    ensures o == Panic(ShortDataSlice) <==>
      t.rows == a.rows && t.cols == a.cols && t.data.Length < (t.rows - 1) * t.stride + t.cols
    ensures o.Completed? <==>
      t.rows == a.rows && t.cols == a.cols && t.data.Length >= (t.rows - 1) * t.stride + t.cols
    ensures o.Panic? ==> t.data[..] == old(t.data[..])
    ensures o.Completed? ==> Copied(t.data[..], RowMajor, t.stride, a.data[..], ColMajor, a.stride, Rect(a.rows, a.cols))
    ensures o.Completed? ==> Untouched(t.data[..], old(t.data[..]), RowMajor, t.stride, Rect(a.rows, a.cols))
  {
    if t.rows != a.rows || t.cols != a.cols {
      return Panic(MismatchedDimension);
    }
    if t.data.Length < (t.rows - 1) * t.stride + t.cols {
      return Panic(ShortDataSlice);
    }
    CopyRectColumnwise(t.data, RowMajor, t.stride, a.data, ColMajor, a.stride, a.rows, a.cols);
    o := Completed;
  }

  /** A fresh column-major copy of the row-major a, packed with stride Rows. */
  method NewColMajorGeneralFrom(a: General) returns (t: General)
    requires Readable(RowMajor, a.stride, Rect(a.rows, a.cols), a.data.Length)
    ensures fresh(t.data)
    ensures t.rows == a.rows && t.cols == a.cols && t.stride == a.rows && t.data.Length == a.rows * a.cols
    ensures Copied(t.data[..], ColMajor, t.stride, a.data[..], RowMajor, a.stride, Rect(a.rows, a.cols))
  {
    var data := new real[a.rows * a.cols](_ => 0.0);
    t := General(a.rows, a.cols, a.rows, data);
    assert (t.cols - 1) * t.stride + t.rows == a.rows * a.cols;
    var o := GeneralFrom(t, a);
  }

  /** A fresh row-major copy of the column-major a, packed with stride Cols. */
  method NewRowMajorGeneralFrom(a: General) returns (t: General)
    requires Readable(ColMajor, a.stride, Rect(a.rows, a.cols), a.data.Length)
    ensures fresh(t.data)
    ensures t.rows == a.rows && t.cols == a.cols && t.stride == a.cols && t.data.Length == a.rows * a.cols
    ensures Copied(t.data[..], RowMajor, t.stride, a.data[..], ColMajor, a.stride, Rect(a.rows, a.cols))
  {
    var data := new real[a.rows * a.cols](_ => 0.0);
    t := General(a.rows, a.cols, a.cols, data);
    assert (t.rows - 1) * t.stride + t.cols == a.rows * a.cols;
    var o := GeneralTo(a, t);
  }

  /** Copies the row-major src into the row-major dst, whose stride may
      differ.  Panics on mismatched dimensions, then on a dst shorter than
      (Rows-1)*Stride+Cols. */
  method CopyGeneralRowMajor(dst: General, src: General) returns (o: Outcome)
    requires dst.data != src.data
    requires Readable(RowMajor, src.stride, Rect(src.rows, src.cols), src.data.Length)
    requires dst.rows == src.rows && dst.cols == src.cols && dst.data.Length >= (dst.rows - 1) * dst.stride + dst.cols ==> dst.cols <= dst.stride
    modifies dst.data
    ensures o == Panic(MismatchedDimension) <==> dst.rows != src.rows || dst.cols != src.cols
    ensures o == Panic(ShortDataSlice) <==>
      dst.rows == src.rows && dst.cols == src.cols && dst.data.Length < (dst.rows - 1) * dst.stride + dst.cols
    ensures o.Completed? <==>
      dst.rows == src.rows && dst.cols == src.cols && dst.data.Length >= (dst.rows - 1) * dst.stride + dst.cols
    ensures o.Panic? ==> dst.data[..] == old(dst.data[..])
    ensures o.Completed? ==> Copied(dst.data[..], RowMajor, dst.stride, src.data[..], RowMajor, src.stride, Rect(src.rows, src.cols))
    ensures o.Completed? ==> Untouched(dst.data[..], old(dst.data[..]), RowMajor, dst.stride, Rect(src.rows, src.cols))
  {
    if dst.rows != src.rows || dst.cols != src.cols {
      return Panic(MismatchedDimension);
    }
    if dst.data.Length < (dst.rows - 1) * dst.stride + dst.cols {
      return Panic(ShortDataSlice);
    }
    CopyRegion(dst.data, RowMajor, dst.stride, src.data, RowMajor, src.stride, Rect(src.rows, src.cols));
    o := Completed;
  }

  /** Copies the column-major src into the column-major dst, column by
      column.  Panics on mismatched dimensions, then on a dst shorter than
      (Cols-1)*Stride+Rows. */
  method CopyGeneralColMajor(dst: General, src: General) returns (o: Outcome)
    requires dst.data != src.data
    requires Readable(ColMajor, src.stride, Rect(src.rows, src.cols), src.data.Length)
    requires dst.rows == src.rows && dst.cols == src.cols && dst.data.Length >= (dst.cols - 1) * dst.stride + dst.rows ==> dst.rows <= dst.stride
    modifies dst.data
    ensures o == Panic(MismatchedDimension) <==> dst.rows != src.rows || dst.cols != src.cols
    ensures o == Panic(ShortDataSlice) <==>
      dst.rows == src.rows && dst.cols == src.cols && dst.data.Length < (dst.cols - 1) * dst.stride + dst.rows
    ensures o.Completed? <==>
      dst.rows == src.rows && dst.cols == src.cols && dst.data.Length >= (dst.cols - 1) * dst.stride + dst.rows
    ensures o.Panic? ==> dst.data[..] == old(dst.data[..])
    ensures o.Completed? ==> Copied(dst.data[..], ColMajor, dst.stride, src.data[..], ColMajor, src.stride, Rect(src.rows, src.cols))
    ensures o.Completed? ==> Untouched(dst.data[..], old(dst.data[..]), ColMajor, dst.stride, Rect(src.rows, src.cols))
  {
    if dst.rows != src.rows || dst.cols != src.cols {
      return Panic(MismatchedDimension);
    }
    if dst.data.Length < (dst.cols - 1) * dst.stride + dst.rows {
      return Panic(ShortDataSlice);
    }
    CopyRectColumnwise(dst.data, ColMajor, dst.stride, src.data, ColMajor, src.stride, src.rows, src.cols);
    o := Completed;
  }

  /** Converting row-major to column-major and back reproduces every cell
      (i, j) of a, in a fresh buffer with stride Cols. */
  method ConvertGeneralRoundTrip(a: General) returns (c: General, b: General)
    requires Readable(RowMajor, a.stride, Rect(a.rows, a.cols), a.data.Length)
    ensures c.rows == a.rows && c.cols == a.cols && c.stride == a.rows
    ensures b.rows == a.rows && b.cols == a.cols && b.stride == a.cols
    ensures Copied(c.data[..], ColMajor, c.stride, a.data[..], RowMajor, a.stride, Rect(a.rows, a.cols))
    ensures Copied(b.data[..], RowMajor, b.stride, a.data[..], RowMajor, a.stride, Rect(a.rows, a.cols))
  {
    c := NewColMajorGeneralFrom(a);
    b := NewRowMajorGeneralFrom(c);
  }

  /** The package tests' equality of two general views, each read in its
      own order: equal shapes and equal cells, visited row by row. */
  method EqualGeneral(aOrd: Order, a: General, bOrd: Order, b: General) returns (eq: bool)
    requires Readable(aOrd, a.stride, Rect(a.rows, a.cols), a.data.Length)
    requires Readable(bOrd, b.stride, Rect(b.rows, b.cols), b.data.Length)
    ensures eq <==> (a.rows == b.rows && a.cols == b.cols &&
                     Copied(a.data[..], aOrd, a.stride, b.data[..], bOrd, b.stride, Rect(a.rows, a.cols)))
  {
    if a.rows != b.rows || a.cols != b.cols {
      return false;
    }
    var r := Rect(a.rows, a.cols);
    ReadFacts(aOrd, a.stride, r, a.data.Length);
    ReadFacts(bOrd, b.stride, r, b.data.Length);
    var i := 0;
    while i < a.rows
      invariant 0 <= i <= a.rows
      invariant forall p: nat, q: nat :: In(r, p, q) && p < i ==>
        a.data[Index(aOrd, a.stride, p, q)] == b.data[Index(bOrd, b.stride, p, q)]
    {
      var j := 0;
      while j < a.cols
        invariant 0 <= j <= a.cols
        invariant forall p: nat, q: nat :: In(r, p, q) && (p < i || (p == i && q < j)) ==>
          a.data[Index(aOrd, a.stride, p, q)] == b.data[Index(bOrd, b.stride, p, q)]
      {
        assert In(r, i, j);
        if a.data[Index(aOrd, a.stride, i, j)] != b.data[Index(bOrd, b.stride, i, j)] {
          return false;
        }
        j := j + 1;
      }
      i := i + 1;
    }
    eq := true;
  }

  /** The package test of general conversion: a row-major matrix converted
      to column-major equals it cell for cell, and so does the conversion
      back. */
  method TestConvertGeneral(a: General) returns (colOk: bool, rowOk: bool)
    requires Readable(RowMajor, a.stride, Rect(a.rows, a.cols), a.data.Length)
    ensures colOk && rowOk
  {
    var c := NewColMajorGeneralFrom(a);
    colOk := EqualGeneral(ColMajor, c, RowMajor, a);
    var b := NewRowMajorGeneralFrom(c);
    rowOk := EqualGeneral(RowMajor, b, RowMajor, a);
  }

  // ---------------------------------------------------------------------
  // Symmetric matrices

  /** t.From(a): fills the uplo triangle of the column-major t with the
      row-major a; panics on any uplo but Upper and Lower.  The code checks
      neither dimensions nor lengths: t must hold the n×n triangle of a. */
  method SymmetricFrom(t: Symmetric, a: Symmetric) returns (o: Outcome)
    requires t.data != a.data
    requires Readable(RowMajor, a.stride, SymmetricRegion(a.uplo, a.n), a.data.Length)
    requires Fits(ColMajor, t.stride, SymmetricRegion(a.uplo, a.n), t.data.Length)
    modifies t.data
    ensures o.Completed? <==> a.uplo == Upper || a.uplo == Lower
    ensures o.Panic? ==> o.reason == BadUplo && t.data[..] == old(t.data[..])
    ensures o.Completed? ==> Copied(t.data[..], ColMajor, t.stride, a.data[..], RowMajor, a.stride, SymmetricRegion(a.uplo, a.n))
    ensures o.Completed? ==> Untouched(t.data[..], old(t.data[..]), ColMajor, t.stride, SymmetricRegion(a.uplo, a.n))
  {
    match a.uplo
    case Upper =>
      CopyRegion(t.data, ColMajor, t.stride, a.data, RowMajor, a.stride, UpperTri(a.n));
      o := Completed;
    case Lower =>
      CopyRegion(t.data, ColMajor, t.stride, a.data, RowMajor, a.stride, LowerTri(a.n));
      o := Completed;
    case _ =>
      o := Panic(BadUplo);
  }

  /** a.To(t): fills the uplo triangle of the row-major t with the
      column-major a; panics on any uplo but Upper and Lower.  No checks in
      the code: t must hold the n×n triangle of a. */
  method SymmetricTo(a: Symmetric, t: Symmetric) returns (o: Outcome)
    requires t.data != a.data
    requires Readable(ColMajor, a.stride, SymmetricRegion(a.uplo, a.n), a.data.Length)
    requires Fits(RowMajor, t.stride, SymmetricRegion(a.uplo, a.n), t.data.Length)
    modifies t.data
    ensures o.Completed? <==> a.uplo == Upper || a.uplo == Lower
    ensures o.Panic? ==> o.reason == BadUplo && t.data[..] == old(t.data[..])
    ensures o.Completed? ==> Copied(t.data[..], RowMajor, t.stride, a.data[..], ColMajor, a.stride, SymmetricRegion(a.uplo, a.n))
    ensures o.Completed? ==> Untouched(t.data[..], old(t.data[..]), RowMajor, t.stride, SymmetricRegion(a.uplo, a.n))
  {
    match a.uplo
    case Upper =>
      CopyRegion(t.data, RowMajor, t.stride, a.data, ColMajor, a.stride, UpperTri(a.n));
      o := Completed;
    case Lower =>
      CopyRegion(t.data, RowMajor, t.stride, a.data, ColMajor, a.stride, LowerTri(a.n));
      o := Completed;
    case _ =>
      o := Panic(BadUplo);
  }

  /** A fresh column-major symmetric copy of a, packed with stride N; the
      cells outside the triangle keep the zero the allocation gave them. */
  method NewColMajorSymmetricFrom(a: Symmetric) returns (t: Symmetric, o: Outcome)
    requires Readable(RowMajor, a.stride, SymmetricRegion(a.uplo, a.n), a.data.Length)
    ensures fresh(t.data)
    ensures t.n == a.n && t.stride == a.n && t.uplo == a.uplo && t.data.Length == a.n * a.n
    ensures o.Completed? <==> a.uplo == Upper || a.uplo == Lower
    ensures o.Panic? ==> o.reason == BadUplo
    ensures o.Completed? ==> Copied(t.data[..], ColMajor, t.stride, a.data[..], RowMajor, a.stride, SymmetricRegion(a.uplo, a.n))
    ensures forall k: nat :: k < t.data.Length && !Covers(ColMajor, t.stride, SymmetricRegion(a.uplo, a.n), k) ==> t.data[k] == 0.0
  {
    var data := new real[a.n * a.n](_ => 0.0);
    t := Symmetric(a.n, a.n, data, a.uplo);
    assert (t.n - 1) * t.stride + t.n == a.n * a.n;
    o := SymmetricFrom(t, a);
  }

  /** A fresh row-major symmetric copy of the column-major a, packed with
      stride N; cells outside the triangle are zero. */
  method NewRowMajorSymmetricFrom(a: Symmetric) returns (t: Symmetric, o: Outcome)
    requires Readable(ColMajor, a.stride, SymmetricRegion(a.uplo, a.n), a.data.Length)
    ensures fresh(t.data)
    ensures t.n == a.n && t.stride == a.n && t.uplo == a.uplo && t.data.Length == a.n * a.n
    ensures o.Completed? <==> a.uplo == Upper || a.uplo == Lower
    ensures o.Panic? ==> o.reason == BadUplo
    ensures o.Completed? ==> Copied(t.data[..], RowMajor, t.stride, a.data[..], ColMajor, a.stride, SymmetricRegion(a.uplo, a.n))
    ensures forall k: nat :: k < t.data.Length && !Covers(RowMajor, t.stride, SymmetricRegion(a.uplo, a.n), k) ==> t.data[k] == 0.0
  {
    var data := new real[a.n * a.n](_ => 0.0);
    t := Symmetric(a.n, a.n, data, a.uplo);
    assert (t.n - 1) * t.stride + t.n == a.n * a.n;
    o := SymmetricTo(a, t);
  }

  /** The checks CopySymmetricRowMajor and CopySymmetricColMajor make, in
      their order, before writing: N, then Uplo, then the length of dst,
      then the uplo switch. */
  function SymmetricCopyCheck(dst: Symmetric, src: Symmetric): (o: Outcome)
    ensures o == Panic(MismatchedDimension) <==> dst.n != src.n
    ensures o == Panic(MismatchedUplo) <==> dst.n == src.n && dst.uplo != src.uplo
    ensures o == Panic(ShortDataSlice) <==>
      dst.n == src.n && dst.uplo == src.uplo && dst.data.Length < (dst.n - 1) * dst.stride + dst.n
    ensures o == Panic(BadUplo) <==>
      dst.n == src.n && dst.uplo == src.uplo && dst.data.Length >= (dst.n - 1) * dst.stride + dst.n &&
      !(src.uplo == Upper || src.uplo == Lower)
    ensures o.Completed? <==>
      dst.n == src.n && dst.uplo == src.uplo && dst.data.Length >= (dst.n - 1) * dst.stride + dst.n &&
      (src.uplo == Upper || src.uplo == Lower)
  {
    if dst.n != src.n then Panic(MismatchedDimension)
    else if dst.uplo != src.uplo then Panic(MismatchedUplo)
    else if dst.data.Length < (dst.n - 1) * dst.stride + dst.n then Panic(ShortDataSlice)
    else if !(src.uplo == Upper || src.uplo == Lower) then Panic(BadUplo)
    else Completed
  }

  /** Copies the uplo triangle of the row-major src into the row-major dst. */
  method CopySymmetricRowMajor(dst: Symmetric, src: Symmetric) returns (o: Outcome)
    requires dst.data != src.data
    requires Readable(RowMajor, src.stride, SymmetricRegion(src.uplo, src.n), src.data.Length)
    requires SymmetricCopyCheck(dst, src).Completed? ==> dst.n <= dst.stride
    modifies dst.data
    ensures o == SymmetricCopyCheck(dst, src)
    ensures o.Panic? ==> dst.data[..] == old(dst.data[..])
    ensures o.Completed? ==> Copied(dst.data[..], RowMajor, dst.stride, src.data[..], RowMajor, src.stride, SymmetricRegion(src.uplo, src.n))
    ensures o.Completed? ==> Untouched(dst.data[..], old(dst.data[..]), RowMajor, dst.stride, SymmetricRegion(src.uplo, src.n))
  {
    if dst.n != src.n {
      return Panic(MismatchedDimension);
    }
    if dst.uplo != src.uplo {
      return Panic(MismatchedUplo);
    }
    if dst.data.Length < (dst.n - 1) * dst.stride + dst.n {
      return Panic(ShortDataSlice);
    }
    match src.uplo
    case Upper =>
      CopyRegion(dst.data, RowMajor, dst.stride, src.data, RowMajor, src.stride, UpperTri(src.n));
      o := Completed;
    case Lower =>
      CopyRegion(dst.data, RowMajor, dst.stride, src.data, RowMajor, src.stride, LowerTri(src.n));
      o := Completed;
    case _ =>
      o := Panic(BadUplo);
  }

  /** Copies the uplo triangle of the column-major src into the column-major dst. */
  method CopySymmetricColMajor(dst: Symmetric, src: Symmetric) returns (o: Outcome)
    requires dst.data != src.data
    requires Readable(ColMajor, src.stride, SymmetricRegion(src.uplo, src.n), src.data.Length)
    requires SymmetricCopyCheck(dst, src).Completed? ==> dst.n <= dst.stride
    modifies dst.data
    ensures o == SymmetricCopyCheck(dst, src)
    ensures o.Panic? ==> dst.data[..] == old(dst.data[..])
    ensures o.Completed? ==> Copied(dst.data[..], ColMajor, dst.stride, src.data[..], ColMajor, src.stride, SymmetricRegion(src.uplo, src.n))
    ensures o.Completed? ==> Untouched(dst.data[..], old(dst.data[..]), ColMajor, dst.stride, SymmetricRegion(src.uplo, src.n))
  {
    if dst.n != src.n {
      return Panic(MismatchedDimension);
    }
    if dst.uplo != src.uplo {
      return Panic(MismatchedUplo);
    }
    if dst.data.Length < (dst.n - 1) * dst.stride + dst.n {
      return Panic(ShortDataSlice);
    }
    match src.uplo
    case Upper =>
      CopyRegion(dst.data, ColMajor, dst.stride, src.data, ColMajor, src.stride, UpperTri(src.n));
      o := Completed;
    case Lower =>
      CopyRegion(dst.data, ColMajor, dst.stride, src.data, ColMajor, src.stride, LowerTri(src.n));
      o := Completed;
    case _ =>
      o := Panic(BadUplo);
  }

  /** Converting a symmetric view to column-major and back preserves every
      cell of its triangle. */
  method ConvertSymmetricRoundTrip(a: Symmetric) returns (c: Symmetric, b: Symmetric, o: Outcome)
    requires Readable(RowMajor, a.stride, SymmetricRegion(a.uplo, a.n), a.data.Length)
    ensures o.Completed? <==> a.uplo == Upper || a.uplo == Lower
    ensures b.n == a.n && b.stride == a.n && b.uplo == a.uplo
    ensures o.Completed? ==> Copied(b.data[..], RowMajor, b.stride, a.data[..], RowMajor, a.stride, SymmetricRegion(a.uplo, a.n))
  {
    c, o := NewColMajorSymmetricFrom(a);
    var o2;
    b, o2 := NewRowMajorSymmetricFrom(c);
  }

  // ---------------------------------------------------------------------
  // Triangular matrices

  /** t.From(a): fills the uplo part (All: every cell) of the column-major t
      with the row-major a; panics on any other uplo.  Diag plays no part.
      No checks in the code: t must hold the n×n part of a. */
  method TriangularFrom(t: Triangular, a: Triangular) returns (o: Outcome)
    requires t.data != a.data
    requires Readable(RowMajor, a.stride, TriangularRegion(a.uplo, a.n), a.data.Length)
    requires Fits(ColMajor, t.stride, TriangularRegion(a.uplo, a.n), t.data.Length)
    modifies t.data
    ensures o.Completed? <==> a.uplo == Upper || a.uplo == Lower || a.uplo == All
    ensures o.Panic? ==> o.reason == BadUplo && t.data[..] == old(t.data[..])
    ensures o.Completed? ==> Copied(t.data[..], ColMajor, t.stride, a.data[..], RowMajor, a.stride, TriangularRegion(a.uplo, a.n))
    ensures o.Completed? ==> Untouched(t.data[..], old(t.data[..]), ColMajor, t.stride, TriangularRegion(a.uplo, a.n))
  {
    match a.uplo
    case Upper =>
      CopyRegion(t.data, ColMajor, t.stride, a.data, RowMajor, a.stride, UpperTri(a.n));
      o := Completed;
    case Lower =>
      CopyRegion(t.data, ColMajor, t.stride, a.data, RowMajor, a.stride, LowerTri(a.n));
      o := Completed;
    case All =>
      CopyRegion(t.data, ColMajor, t.stride, a.data, RowMajor, a.stride, Rect(a.n, a.n));
      o := Completed;
    case UploOther(_) =>
      o := Panic(BadUplo);
  }

  /** a.To(t): fills the uplo part of the row-major t with the column-major a. */
  method TriangularTo(a: Triangular, t: Triangular) returns (o: Outcome)
    requires t.data != a.data
    requires Readable(ColMajor, a.stride, TriangularRegion(a.uplo, a.n), a.data.Length)
    requires Fits(RowMajor, t.stride, TriangularRegion(a.uplo, a.n), t.data.Length)
    modifies t.data
    ensures o.Completed? <==> a.uplo == Upper || a.uplo == Lower || a.uplo == All
    ensures o.Panic? ==> o.reason == BadUplo && t.data[..] == old(t.data[..])
    ensures o.Completed? ==> Copied(t.data[..], RowMajor, t.stride, a.data[..], ColMajor, a.stride, TriangularRegion(a.uplo, a.n))
    ensures o.Completed? ==> Untouched(t.data[..], old(t.data[..]), RowMajor, t.stride, TriangularRegion(a.uplo, a.n))
  {
    match a.uplo
    case Upper =>
      CopyRegion(t.data, RowMajor, t.stride, a.data, ColMajor, a.stride, UpperTri(a.n));
      o := Completed;
    case Lower =>
      CopyRegion(t.data, RowMajor, t.stride, a.data, ColMajor, a.stride, LowerTri(a.n));
      o := Completed;
    case All =>
      CopyRegion(t.data, RowMajor, t.stride, a.data, ColMajor, a.stride, Rect(a.n, a.n));
      o := Completed;
    case UploOther(_) =>
      o := Panic(BadUplo);
  }

  /** A fresh column-major triangular copy of a, packed with stride N, with
      a's Diag and Uplo; cells outside the stored part are zero. */
  method NewColMajorTriangularFrom(a: Triangular) returns (t: Triangular, o: Outcome)
    requires Readable(RowMajor, a.stride, TriangularRegion(a.uplo, a.n), a.data.Length)
    ensures fresh(t.data)
    ensures t.n == a.n && t.stride == a.n && t.uplo == a.uplo && t.diag == a.diag && t.data.Length == a.n * a.n
    ensures o.Completed? <==> a.uplo == Upper || a.uplo == Lower || a.uplo == All
    ensures o.Panic? ==> o.reason == BadUplo
    ensures o.Completed? ==> Copied(t.data[..], ColMajor, t.stride, a.data[..], RowMajor, a.stride, TriangularRegion(a.uplo, a.n))
    ensures forall k: nat :: k < t.data.Length && !Covers(ColMajor, t.stride, TriangularRegion(a.uplo, a.n), k) ==> t.data[k] == 0.0
  {
    var data := new real[a.n * a.n](_ => 0.0);
    t := Triangular(a.n, a.n, data, a.uplo, a.diag);
    assert (t.n - 1) * t.stride + t.n == a.n * a.n;
    o := TriangularFrom(t, a);
  }

  /** A fresh row-major triangular copy of the column-major a. */
  method NewRowMajorTriangularFrom(a: Triangular) returns (t: Triangular, o: Outcome)
    requires Readable(ColMajor, a.stride, TriangularRegion(a.uplo, a.n), a.data.Length)
    ensures fresh(t.data)
    ensures t.n == a.n && t.stride == a.n && t.uplo == a.uplo && t.diag == a.diag && t.data.Length == a.n * a.n
    ensures o.Completed? <==> a.uplo == Upper || a.uplo == Lower || a.uplo == All
    ensures o.Panic? ==> o.reason == BadUplo
    ensures o.Completed? ==> Copied(t.data[..], RowMajor, t.stride, a.data[..], ColMajor, a.stride, TriangularRegion(a.uplo, a.n))
    ensures forall k: nat :: k < t.data.Length && !Covers(RowMajor, t.stride, TriangularRegion(a.uplo, a.n), k) ==> t.data[k] == 0.0
  {
    var data := new real[a.n * a.n](_ => 0.0);
    t := Triangular(a.n, a.n, data, a.uplo, a.diag);
    assert (t.n - 1) * t.stride + t.n == a.n * a.n;
    o := TriangularTo(a, t);
  }

  /** The checks CopyTriangularRowMajor and CopyTriangularColMajor make, in
      their order: N, Diag, Uplo, the length of dst, then the uplo switch. */
  function TriangularCopyCheck(dst: Triangular, src: Triangular): (o: Outcome)
    ensures o == Panic(MismatchedDimension) <==> dst.n != src.n
    ensures o == Panic(MismatchedDiag) <==> dst.n == src.n && dst.diag != src.diag
    ensures o == Panic(MismatchedUplo) <==> dst.n == src.n && dst.diag == src.diag && dst.uplo != src.uplo
    ensures o == Panic(ShortDataSlice) <==>
      dst.n == src.n && dst.diag == src.diag && dst.uplo == src.uplo &&
      dst.data.Length < (dst.n - 1) * dst.stride + dst.n
    ensures o == Panic(BadUplo) <==>
      dst.n == src.n && dst.diag == src.diag && dst.uplo == src.uplo &&
      dst.data.Length >= (dst.n - 1) * dst.stride + dst.n && src.uplo.UploOther?
    ensures o.Completed? <==>
      dst.n == src.n && dst.diag == src.diag && dst.uplo == src.uplo &&
      dst.data.Length >= (dst.n - 1) * dst.stride + dst.n && !src.uplo.UploOther?
  {
    if dst.n != src.n then Panic(MismatchedDimension)
    else if dst.diag != src.diag then Panic(MismatchedDiag)
    else if dst.uplo != src.uplo then Panic(MismatchedUplo)
    else if dst.data.Length < (dst.n - 1) * dst.stride + dst.n then Panic(ShortDataSlice)
    else if src.uplo.UploOther? then Panic(BadUplo)
    else Completed
  }

  /** Copies the uplo part of the row-major src into the row-major dst.  The
      matching Diag is checked but does not change the cells copied: the
      stored diagonal is copied even when Diag is Unit. */
  method CopyTriangularRowMajor(dst: Triangular, src: Triangular) returns (o: Outcome)
    requires dst.data != src.data
    requires Readable(RowMajor, src.stride, TriangularRegion(src.uplo, src.n), src.data.Length)
    requires TriangularCopyCheck(dst, src).Completed? ==> dst.n <= dst.stride
    modifies dst.data
    ensures o == TriangularCopyCheck(dst, src)
    ensures o.Panic? ==> dst.data[..] == old(dst.data[..])
    ensures o.Completed? ==> Copied(dst.data[..], RowMajor, dst.stride, src.data[..], RowMajor, src.stride, TriangularRegion(src.uplo, src.n))
    ensures o.Completed? ==> Untouched(dst.data[..], old(dst.data[..]), RowMajor, dst.stride, TriangularRegion(src.uplo, src.n))
  {
    if dst.n != src.n {
      return Panic(MismatchedDimension);
    }
    if dst.diag != src.diag {
      return Panic(MismatchedDiag);
    }
    if dst.uplo != src.uplo {
      return Panic(MismatchedUplo);
    }
    if dst.data.Length < (dst.n - 1) * dst.stride + dst.n {
      return Panic(ShortDataSlice);
    }
    match src.uplo
    case Upper =>
      CopyRegion(dst.data, RowMajor, dst.stride, src.data, RowMajor, src.stride, UpperTri(src.n));
      o := Completed;
    case Lower =>
      CopyRegion(dst.data, RowMajor, dst.stride, src.data, RowMajor, src.stride, LowerTri(src.n));
      o := Completed;
    case All =>
      CopyRegion(dst.data, RowMajor, dst.stride, src.data, RowMajor, src.stride, Rect(src.n, src.n));
      o := Completed;
    case UploOther(_) =>
      o := Panic(BadUplo);
  }

  /** Copies the uplo part of the column-major src into the column-major dst. */
  method CopyTriangularColMajor(dst: Triangular, src: Triangular) returns (o: Outcome)
    requires dst.data != src.data
    requires Readable(ColMajor, src.stride, TriangularRegion(src.uplo, src.n), src.data.Length)
    requires TriangularCopyCheck(dst, src).Completed? ==> dst.n <= dst.stride
    modifies dst.data
    ensures o == TriangularCopyCheck(dst, src)
    ensures o.Panic? ==> dst.data[..] == old(dst.data[..])
    ensures o.Completed? ==> Copied(dst.data[..], ColMajor, dst.stride, src.data[..], ColMajor, src.stride, TriangularRegion(src.uplo, src.n))
    ensures o.Completed? ==> Untouched(dst.data[..], old(dst.data[..]), ColMajor, dst.stride, TriangularRegion(src.uplo, src.n))
  {
    if dst.n != src.n {
      return Panic(MismatchedDimension);
    }
    if dst.diag != src.diag {
      return Panic(MismatchedDiag);
    }
    if dst.uplo != src.uplo {
      return Panic(MismatchedUplo);
    }
    if dst.data.Length < (dst.n - 1) * dst.stride + dst.n {
      return Panic(ShortDataSlice);
    }
    match src.uplo
    case Upper =>
      CopyRegion(dst.data, ColMajor, dst.stride, src.data, ColMajor, src.stride, UpperTri(src.n));
      o := Completed;
    case Lower =>
      CopyRegion(dst.data, ColMajor, dst.stride, src.data, ColMajor, src.stride, LowerTri(src.n));
      o := Completed;
    case All =>
      CopyRegion(dst.data, ColMajor, dst.stride, src.data, ColMajor, src.stride, Rect(src.n, src.n));
      o := Completed;
    case UploOther(_) =>
      o := Panic(BadUplo);
  }

  /** Converting a triangular view to column-major and back preserves every
      stored cell, for each of Upper, Lower and All and either Diag. */
  method ConvertTriangularRoundTrip(a: Triangular) returns (c: Triangular, b: Triangular, o: Outcome)
    requires Readable(RowMajor, a.stride, TriangularRegion(a.uplo, a.n), a.data.Length)
    ensures o.Completed? <==> a.uplo == Upper || a.uplo == Lower || a.uplo == All
    ensures b.n == a.n && b.stride == a.n && b.uplo == a.uplo && b.diag == a.diag
    ensures o.Completed? ==> Copied(b.data[..], RowMajor, b.stride, a.data[..], RowMajor, a.stride, TriangularRegion(a.uplo, a.n))
  {
    c, o := NewColMajorTriangularFrom(a);
    var o2;
    b, o2 := NewRowMajorTriangularFrom(c);
  }

  /** The 3×3 row-major matrix 1..9 of the package tests, stride 3, becomes
      the column-major buffer 1,4,7,2,5,8,3,6,9. */
  method ConvertThreeByThree() returns (a: General, t: General)
    ensures a.data[..] == [1.0, 2.0, 3.0, 4.0, 5.0, 6.0, 7.0, 8.0, 9.0]
    ensures t.rows == 3 && t.cols == 3 && t.stride == 3
    ensures t.data[..] == [1.0, 4.0, 7.0, 2.0, 5.0, 8.0, 3.0, 6.0, 9.0]
  {
    var data := new real[9];
    data[0], data[1], data[2] := 1.0, 2.0, 3.0;
    data[3], data[4], data[5] := 4.0, 5.0, 6.0;
    data[6], data[7], data[8] := 7.0, 8.0, 9.0;
    a := General(3, 3, 3, data);
    t := NewColMajorGeneralFrom(a);
    ghost var r := Rect(3, 3);
    assert In(r, 0, 0) && In(r, 1, 0) && In(r, 2, 0);
    assert In(r, 0, 1) && In(r, 1, 1) && In(r, 2, 1);
    assert In(r, 0, 2) && In(r, 1, 2) && In(r, 2, 2);
  }

  /** A source whose stride is below its row length is read without a panic:
      the 2×2 row-major view of stride 1 over 1,2,3 holds the cells 1,2 / 2,3,
      which a packed destination of stride 2 receives. */
  method CopyOverlappingSource() returns (o: Outcome, dst: General)
    ensures o == Completed
    ensures dst.data[..] == [1.0, 2.0, 2.0, 3.0]
  {
    var s := new real[3];
    s[0], s[1], s[2] := 1.0, 2.0, 3.0;
    var src := General(2, 2, 1, s);
    var d := new real[4](_ => 0.0);
    dst := General(2, 2, 2, d);
    o := CopyGeneralRowMajor(dst, src);
    ghost var r := Rect(2, 2);
    assert In(r, 0, 0) && In(r, 0, 1) && In(r, 1, 0) && In(r, 1, 1);
  }

  /** An empty source is never read: a 0×3 column-major view of stride 5
      with no data converts without a panic. */
  method ConvertEmptySource() returns (o: Outcome)
    ensures o == Completed
  {
    var ad := new real[0];
    var td := new real[0];
    var a := General(0, 3, 5, ad);
    var t := General(0, 3, 3, td);
    o := GeneralTo(a, t);
  }
}
