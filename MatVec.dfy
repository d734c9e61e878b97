/** What all three programs compute, and the vocabulary they share.

    A matrix is a row-major buffer: element `(i, j)` of an `rows x cols`
    matrix sits at offset `i * cols + j`. Elements are mathematical integers
    standing for the programs' doubles (see README). */
module MatVec {

  /** The two dimensions in front of every matrix or vector file. */
  datatype Header = Header(rows: int, cols: int)

  /** The checks `main` makes before it allocates anything. */
  datatype Error =
    | BadThreadCount     // P <= 0
    | NotColumnVector    // x has more (or fewer) than one column
    | DimensionMismatch  // A's column count differs from x's row count

  datatype Outcome = Pass | Fail(error: Error)

  datatype Result<T> = Ok(value: T) | Err(error: Error)

  /** What the file loader hands over: a payload of `rows * cols` values. */
  predicate Loaded(h: Header, data: seq<int>) {
    0 <= h.rows && 0 <= h.cols && |data| == h.rows * h.cols
  }

  /** A row-major `rows x cols` matrix and a vector of `cols` entries. */
  predicate Shaped(a: seq<int>, x: seq<int>, rows: int, cols: int) {
    0 <= rows && 0 <= cols && |a| == rows * cols && |x| == cols
  }

  /** Row `i` starts at `i * cols` and its `cols` entries lie inside the buffer. */
  lemma RowInBounds(i: int, rows: int, cols: int)
    requires 0 <= i < rows && 0 <= cols
    ensures 0 <= i * cols && i * cols + cols <= rows * cols
  {
    assert i * cols + cols == (i + 1) * cols;
    assert (i + 1) * cols <= rows * cols;
  }

  /** Sum of the first `k` products of row `i` of `a` with `x`, added in
      ascending `j` order: `((0 + a[i,0]*x[0]) + a[i,1]*x[1]) + ...`. */
  function Dot(a: seq<int>, x: seq<int>, cols: int, i: int, k: int): (s: int)
    requires 0 <= i * cols && 0 <= k <= |x| && i * cols + k <= |a|
  {
    if k == 0 then 0 else Dot(a, x, cols, i, k - 1) + a[i * cols + k - 1] * x[k - 1]
  }

  /** The full dot product of row `i` with `x`. */
  function RowDot(a: seq<int>, x: seq<int>, rows: int, cols: int, i: int): (s: int)
    requires Shaped(a, x, rows, cols) && 0 <= i < rows
  {
    RowInBounds(i, rows, cols);
    Dot(a, x, cols, i, cols)
  }

  /** `y = A x`: entry `i` is the dot product of row `i` with `x`. */
  function Product(a: seq<int>, x: seq<int>, rows: int, cols: int): (y: seq<int>)
    requires Shaped(a, x, rows, cols)
  {
    seq(rows, i requires 0 <= i < rows => RowDot(a, x, rows, cols, i))
  }

  /** Sum of the products for `j` in `lo .. hi-1`, as a right fold: the
      reference meaning of a dot product, independent of accumulation order. */
  function SumFrom(a: seq<int>, x: seq<int>, cols: int, i: int, lo: int, hi: int): (s: int)
    requires 0 <= i * cols && 0 <= lo <= hi <= |x| && i * cols + hi <= |a|
    decreases hi - lo
  {
    if lo == hi then 0 else a[i * cols + lo] * x[lo] + SumFrom(a, x, cols, i, lo + 1, hi)
  }

  lemma {:induction false} SumFromSnoc(a: seq<int>, x: seq<int>, cols: int, i: int, lo: int, hi: int)
    requires 0 <= i * cols && 0 <= lo < hi <= |x| && i * cols + hi <= |a|
    ensures SumFrom(a, x, cols, i, lo, hi)
         == SumFrom(a, x, cols, i, lo, hi - 1) + a[i * cols + hi - 1] * x[hi - 1]
    decreases hi - lo
  {
    if lo + 1 < hi {
      SumFromSnoc(a, x, cols, i, lo + 1, hi);
    }
  }

  /** The ascending left-to-right accumulation the loops perform computes the
      sum of the first `k` products. */
  lemma {:induction false} DotIsSum(a: seq<int>, x: seq<int>, cols: int, i: int, k: int)
    requires 0 <= i * cols && 0 <= k <= |x| && i * cols + k <= |a|
    ensures Dot(a, x, cols, i, k) == SumFrom(a, x, cols, i, 0, k)
  {
    if k > 0 {
      DotIsSum(a, x, cols, i, k - 1);
      SumFromSnoc(a, x, cols, i, 0, k);
    }
  }

  /** The worked example: `[[1,2],[3,4]] * [5,6] == [17, 39]`. */
  lemma Example()
    ensures Product([1, 2, 3, 4], [5, 6], 2, 2) == [17, 39]
  {
    assert RowDot([1, 2, 3, 4], [5, 6], 2, 2, 0) == 17;
    assert RowDot([1, 2, 3, 4], [5, 6], 2, 2, 1) == 39;
  }
}
