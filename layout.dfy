/** Strided storage of a logical matrix in a flat buffer.
    A row-major view stores cell (i, j) at i*stride + j, a column-major view at
    i + j*stride.  A Region names the cells an operation visits: a full
    rectangle, or the upper or lower triangle (diagonal included) of an n×n
    matrix.  CopyRegion and CopyRectColumnwise are the nested loops every
    conversion and copy of the fortran package runs. */
module Layout {

  datatype Order = RowMajor | ColMajor

  datatype Region = Rect(rows: nat, cols: nat) | UpperTri(n: nat) | LowerTri(n: nat)

  /** Bound of the outer (row) loop. */
  function Rows(r: Region): nat {
    match r
    case Rect(m, _) => m
    case UpperTri(n) => n
    case LowerTri(n) => n
  }

  /** Number of columns of the matrix the region lies in. */
  function Cols(r: Region): nat {
    match r
    case Rect(_, c) => c
    case UpperTri(n) => n
    case LowerTri(n) => n
  }

  /** Start of the inner (column) loop in row i: `j := i` for the upper triangle. */
  function Lo(r: Region, i: nat): nat {
    if r.UpperTri? then i else 0
  }

  /** End (exclusive) of the inner loop in row i: `j <= i` for the lower triangle. */
  function Hi(r: Region, i: nat): nat {
    if r.LowerTri? then i + 1 else Cols(r)
  }

  /** Cell (i, j) is one the loops over r visit. */
  predicate In(r: Region, i: nat, j: nat) {
    i < Rows(r) && Lo(r, i) <= j < Hi(r, i)
  }

  /** Position of cell (i, j) in a buffer of the given order and stride. */
  function Index(o: Order, s: nat, i: nat, j: nat): nat {
    match o
    case RowMajor => i * s + j
    case ColMajor => i + j * s
  }

  /** The minor dimension: what the stride must be at least. */
  function Minor(o: Order, rows: nat, cols: nat): nat {
    match o
    case RowMajor => cols
    case ColMajor => rows
  }

  /** The buffer length a rows×cols view needs: (rows-1)*stride + cols for
      row-major, (cols-1)*stride + rows for column-major. */
  function Extent(o: Order, s: nat, rows: nat, cols: nat): int {
    match o
    case RowMajor => (rows - 1) * s + cols
    case ColMajor => (cols - 1) * s + rows
  }

  /** A view of `len` elements with order o and stride s holds every cell of r. */
  predicate Fits(o: Order, s: nat, r: Region, len: nat) {
    Minor(o, Rows(r), Cols(r)) <= s && Extent(o, s, Rows(r), Cols(r)) <= len
  }

  /** Every cell of r can be read from a view of `len` elements with order o
      and stride s: r is empty, or its last position lies inside.  Unlike
      Fits, the stride may be below the minor dimension; cells then share
      positions. */
  predicate Readable(o: Order, s: nat, r: Region, len: nat) {
    Rows(r) == 0 || Cols(r) == 0 || Extent(o, s, Rows(r), Cols(r)) <= len
  }

  /** Row of the cell stored at position k. */
  function DecRow(o: Order, s: nat, k: nat): nat
    requires s > 0
  {
    match o
    case RowMajor => k / s
    case ColMajor => k % s
  }

  /** Column of the cell stored at position k. */
  function DecCol(o: Order, s: nat, k: nat): nat
    requires s > 0
  {
    match o
    case RowMajor => k % s
    case ColMajor => k / s
  }

  /** Position k of the buffer holds a cell of r. */
  predicate Covers(o: Order, s: nat, r: Region, k: nat) {
    s > 0 && In(r, DecRow(o, s, k), DecCol(o, s, k))
  }

  /** Every cell of r holds in d what it holds in s. */
  ghost predicate Copied(d: seq<real>, dOrd: Order, ds: nat, s: seq<real>, sOrd: Order, ss: nat, r: Region) {
    forall p: nat, q: nat :: In(r, p, q) ==>
      Index(dOrd, ds, p, q) < |d| && Index(sOrd, ss, p, q) < |s| &&
      d[Index(dOrd, ds, p, q)] == s[Index(sOrd, ss, p, q)]
  }

  /** d differs from d0 at most at positions that hold a cell of r. */
  ghost predicate Untouched(d: seq<real>, d0: seq<real>, o: Order, s: nat, r: Region) {
    |d| == |d0| && forall k: nat :: k < |d| && !Covers(o, s, r, k) ==> d[k] == d0[k]
  }

  /** Euclidean division is unique: a quotient and a remainder below s are
      the ones / and % compute. */
  lemma DivModUnique(k: nat, s: nat, q: nat, r: nat)
    requires s > 0 && r < s && k == q * s + r
    ensures k / s == q && k % s == r
  {
    var q', r' := k / s, k % s;
    assert k == q' * s + r';
    if q' < q {
      assert (q - q') * s == r' - r;
      assert (q - q') * s >= s by { MulAtLeast(q - q', s); }
      assert false;
    } else if q < q' {
      assert (q' - q) * s == r - r';
      assert (q' - q) * s >= s by { MulAtLeast(q' - q, s); }
      assert false;
    }
  }

  lemma MulAtLeast(a: nat, s: nat)
    requires a >= 1
    ensures a * s >= s
  {
    assert a * s == (a - 1) * s + s;
  }

  lemma MulMono(a: nat, b: nat, s: nat)
    requires a <= b
    ensures a * s <= b * s
  {
    assert b * s == a * s + (b - a) * s;
  }

  /** Decoding the position of a cell gives the cell back, provided the index
      along the minor dimension is below the stride. */
  lemma DecodeIndex(o: Order, s: nat, i: nat, j: nat)
    requires (o.RowMajor? && j < s) || (o.ColMajor? && i < s)
    ensures s > 0 && DecRow(o, s, Index(o, s, i, j)) == i && DecCol(o, s, Index(o, s, i, j)) == j
  {
    match o
    case RowMajor => DivModUnique(i * s + j, s, i, j);
    case ColMajor => DivModUnique(i + j * s, s, j, i);
  }

  /** (i, j) ↦ position is injective on the cells of a view whose stride
      is at least its minor dimension: no position receives two cells. */
  lemma {:induction false} IndexInjective(o: Order, s: nat, r: Region, p: nat, q: nat, p': nat, q': nat)
    requires Minor(o, Rows(r), Cols(r)) <= s
    requires In(r, p, q) && In(r, p', q')
    requires Index(o, s, p, q) == Index(o, s, p', q')
    ensures p == p' && q == q'
  {
    DecodeIndex(o, s, p, q);
    DecodeIndex(o, s, p', q');
  }

  /** Every cell of a region lies below the view's extent:
      i*s + j <= (rows-1)*s + cols - 1, and the column-major analogue. */
  lemma IndexBound(o: Order, s: nat, r: Region, i: nat, j: nat)
    requires In(r, i, j)
    ensures Index(o, s, i, j) < Extent(o, s, Rows(r), Cols(r))
  {
    assert i < Rows(r) && j < Cols(r);
    match o
    case RowMajor =>
      MulMono(i, Rows(r) - 1, s);
    case ColMajor =>
      MulMono(j, Cols(r) - 1, s);
  }

  /** The facts the copy loops rely on, for every cell of a fitting view. */
  lemma IndexFacts(o: Order, s: nat, r: Region, len: nat)
    requires Fits(o, s, r, len)
    ensures forall p: nat, q: nat :: In(r, p, q) ==>
      Index(o, s, p, q) < len && Covers(o, s, r, Index(o, s, p, q)) &&
      DecRow(o, s, Index(o, s, p, q)) == p && DecCol(o, s, Index(o, s, p, q)) == q
  {
    forall p: nat, q: nat | In(r, p, q)
      ensures Index(o, s, p, q) < len && Covers(o, s, r, Index(o, s, p, q)) &&
        DecRow(o, s, Index(o, s, p, q)) == p && DecCol(o, s, Index(o, s, p, q)) == q
    {
      IndexBound(o, s, r, p, q);
      DecodeIndex(o, s, p, q);
    }
  }

  /** Every cell of a readable region lies inside the view. */
  lemma ReadFacts(o: Order, s: nat, r: Region, len: nat)
    requires Readable(o, s, r, len)
    ensures forall p: nat, q: nat :: In(r, p, q) ==> Index(o, s, p, q) < len
  {
    forall p: nat, q: nat | In(r, p, q)
      ensures Index(o, s, p, q) < len
    {
      IndexBound(o, s, r, p, q);
    }
  }

  /** Position k holds a cell the row-by-row loops have written before reaching (i, j). */
  predicate WrittenRowwise(o: Order, s: nat, r: Region, k: nat, i: nat, j: nat) {
    Covers(o, s, r, k) && (DecRow(o, s, k) < i || (DecRow(o, s, k) == i && DecCol(o, s, k) < j))
  }

  /** Position k holds a cell of row i left of column j. */
  predicate WrittenInRow(o: Order, s: nat, r: Region, k: nat, i: nat, j: nat) {
    Covers(o, s, r, k) && DecRow(o, s, k) == i && DecCol(o, s, k) < j
  }

  /** Position k holds a cell the column-by-column loops have written before reaching (i, j). */
  predicate WrittenColumnwise(o: Order, s: nat, r: Region, k: nat, i: nat, j: nat) {
    Covers(o, s, r, k) && (DecCol(o, s, k) < j || (DecCol(o, s, k) == j && DecRow(o, s, k) < i))
  }

  /** The row-by-row loop nest `for i < Rows(r) { for Lo(r,i) <= j < Hi(r,i) {
      dst[Index(dOrd, ds, i, j)] := src[Index(sOrd, ss, i, j)] } }`.
      It writes every cell of r once, with the source's value, and touches no
      other position of dst. */
  method CopyRegion(dst: array<real>, dOrd: Order, ds: nat, src: array<real>, sOrd: Order, ss: nat, r: Region)
    requires dst != src
    requires Fits(dOrd, ds, r, dst.Length) && Readable(sOrd, ss, r, src.Length)
    modifies dst
    ensures Copied(dst[..], dOrd, ds, src[..], sOrd, ss, r)
    ensures Untouched(dst[..], old(dst[..]), dOrd, ds, r)
  {
    IndexFacts(dOrd, ds, r, dst.Length);
    ReadFacts(sOrd, ss, r, src.Length);
    var i := 0;
    while i < Rows(r)
      invariant 0 <= i <= Rows(r)
      invariant forall p: nat, q: nat :: In(r, p, q) && p < i ==>
        dst[Index(dOrd, ds, p, q)] == src[Index(sOrd, ss, p, q)]
      invariant forall k: nat :: k < dst.Length && !WrittenRowwise(dOrd, ds, r, k, i, 0) ==> dst[k] == old(dst[k])
    {
      CopyRow(dst, dOrd, ds, src, sOrd, ss, r, i);
      i := i + 1;
    }
  }

  /** One pass of the inner loop of CopyRegion: row i of r, from Lo(r, i)
      up to Hi(r, i).  It writes exactly the cells of that row. */
  method CopyRow(dst: array<real>, dOrd: Order, ds: nat, src: array<real>, sOrd: Order, ss: nat, r: Region, i: nat)
    requires dst != src && i < Rows(r)
    requires Fits(dOrd, ds, r, dst.Length) && Readable(sOrd, ss, r, src.Length)
    modifies dst
    ensures forall q: nat :: In(r, i, q) ==>
      Index(dOrd, ds, i, q) < dst.Length && Index(sOrd, ss, i, q) < src.Length &&
      dst[Index(dOrd, ds, i, q)] == src[Index(sOrd, ss, i, q)]
    ensures forall k: nat :: k < dst.Length && !(Covers(dOrd, ds, r, k) && DecRow(dOrd, ds, k) == i) ==> dst[k] == old(dst[k])
  {
    IndexFacts(dOrd, ds, r, dst.Length);
    ReadFacts(sOrd, ss, r, src.Length);
    var j := Lo(r, i);
    while j < Hi(r, i)
      invariant Lo(r, i) <= j <= Hi(r, i)
      invariant forall q: nat :: In(r, i, q) && q < j ==> dst[Index(dOrd, ds, i, q)] == src[Index(sOrd, ss, i, q)]
      invariant forall k: nat :: k < dst.Length && !WrittenInRow(dOrd, ds, r, k, i, j) ==> dst[k] == old(dst[k])
    {
      assert In(r, i, j);
      dst[Index(dOrd, ds, i, j)] := src[Index(sOrd, ss, i, j)];
      j := j + 1;
    }
  }

  /** The column-by-column loop nest over a rows×cols rectangle:
      `for j < cols { for i < rows { dst[Index(dOrd, ds, i, j)] := src[Index(sOrd, ss, i, j)] } }`.
      Same effect as CopyRegion on Rect(rows, cols), visiting columns first. */
  method CopyRectColumnwise(dst: array<real>, dOrd: Order, ds: nat, src: array<real>, sOrd: Order, ss: nat, rows: nat, cols: nat)
    requires dst != src
    requires Fits(dOrd, ds, Rect(rows, cols), dst.Length) && Readable(sOrd, ss, Rect(rows, cols), src.Length)
    modifies dst
    ensures Copied(dst[..], dOrd, ds, src[..], sOrd, ss, Rect(rows, cols))
    ensures Untouched(dst[..], old(dst[..]), dOrd, ds, Rect(rows, cols))
  {
    var r := Rect(rows, cols);
    IndexFacts(dOrd, ds, r, dst.Length);
    ReadFacts(sOrd, ss, r, src.Length);
    var j := 0;
    while j < cols
      invariant 0 <= j <= cols
      invariant forall p: nat, q: nat :: In(r, p, q) && q < j ==>
        dst[Index(dOrd, ds, p, q)] == src[Index(sOrd, ss, p, q)]
      invariant forall k: nat :: k < dst.Length && !WrittenColumnwise(dOrd, ds, r, k, 0, j) ==> dst[k] == old(dst[k])
    {
      var i := 0;
      while i < rows
        invariant 0 <= i <= rows
        invariant forall p: nat, q: nat :: In(r, p, q) && (q < j || (q == j && p < i)) ==>
          dst[Index(dOrd, ds, p, q)] == src[Index(sOrd, ss, p, q)]
        invariant forall k: nat :: k < dst.Length && !WrittenColumnwise(dOrd, ds, r, k, i, j) ==> dst[k] == old(dst[k])
      {
        assert In(r, i, j);
        dst[Index(dOrd, ds, i, j)] := src[Index(sOrd, ss, i, j)];
        i := i + 1;
      }
      j := j + 1;
    }
  }
}
