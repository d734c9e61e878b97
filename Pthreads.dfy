/** The thread-parallel program, pth_matrix_vector.c.

    Worker `rank` of `p` owns the block of rows `BlockLow .. BlockHigh` and,
    for each of them, zeroes `y[i]` and accumulates the row's dot product.
    The program starts the `p` workers and joins them all. Here they run one
    after another, rank 0 first: a worker reads only `A` and `x`, and writes
    only the entries of `y` in its own block (`MatVectMult`), blocks never
    overlap (`Partition.ExactCover`), and the order in which workers finish
    does not change the result (`WorkersCommute`). */
module Pthreads {
  import opened MatVec
  import opened Partition

  /** `main` checks the thread count first, then the column-vector shape,
      then the inner dimension. */
  function Validate(p: int, a: Header, x: Header): (verdict: Outcome) {
    if p <= 0 then Fail(BadThreadCount)
    else if x.cols != 1 then Fail(NotColumnVector)
    else if a.cols != x.rows then Fail(DimensionMismatch)
    else Pass
  }

  /** The effect of worker `rank` on `y`: the rows of its block become their
      dot products, every other entry is left as it was. */
  function Worker(a: seq<int>, x: seq<int>, y: seq<int>, rows: int, cols: int, p: int, rank: int)
    : (y': seq<int>)
    requires Shaped(a, x, rows, cols) && |y| == rows && 0 < p && 0 <= rank < p
    ensures |y'| == rows
  {
    seq(rows, i requires 0 <= i < rows =>
      if InBlock(i, rank, p, rows) then RowDot(a, x, rows, cols, i) else y[i])
  }

  /** The effect of workers `0 .. k-1`, run in rank order. */
  function RunWorkers(a: seq<int>, x: seq<int>, y: seq<int>, rows: int, cols: int, p: int, k: int)
    : (y': seq<int>)
    requires Shaped(a, x, rows, cols) && |y| == rows && 0 < p && 0 <= k <= p
    ensures |y'| == rows
  {
    if k == 0 then y else Worker(a, x, RunWorkers(a, x, y, rows, cols, p, k - 1), rows, cols, p, k - 1)
  }

  /** Running two workers in either order leaves the same `y`; running one
      twice is the same as running it once. */
  lemma WorkersCommute(a: seq<int>, x: seq<int>, y: seq<int>, rows: int, cols: int, p: int, r1: int, r2: int)
    requires Shaped(a, x, rows, cols) && |y| == rows && 0 < p && 0 <= r1 < p && 0 <= r2 < p
    ensures Worker(a, x, Worker(a, x, y, rows, cols, p, r1), rows, cols, p, r2)
         == Worker(a, x, Worker(a, x, y, rows, cols, p, r2), rows, cols, p, r1)
    ensures Worker(a, x, Worker(a, x, y, rows, cols, p, r1), rows, cols, p, r1)
         == Worker(a, x, y, rows, cols, p, r1)
  {
  }

  /** After workers `0 .. k-1` every row below `BlockLow(k)` holds its dot
      product and every row from `BlockLow(k)` on is untouched. */
  lemma {:induction false} RunWorkersPrefix(a: seq<int>, x: seq<int>, y: seq<int>, rows: int, cols: int, p: int, k: int)
    requires Shaped(a, x, rows, cols) && |y| == rows && 0 < p && 0 <= k <= p
    ensures forall i :: 0 <= i < BlockLow(k, p, rows) ==>
              RunWorkers(a, x, y, rows, cols, p, k)[i] == RowDot(a, x, rows, cols, i)
    ensures forall i :: BlockLow(k, p, rows) <= i < rows ==>
              RunWorkers(a, x, y, rows, cols, p, k)[i] == y[i]
  {
    if k > 0 {
      RunWorkersPrefix(a, x, y, rows, cols, p, k - 1);
      BlockLowMonotone(k - 1, k, p, rows);
    }
  }

  /** Whatever `y` held before and however many workers there are, running
      all `p` of them leaves exactly `A x` in `y`. */
  lemma AllWorkersComputeProduct(a: seq<int>, x: seq<int>, y: seq<int>, rows: int, cols: int, p: int)
    requires Shaped(a, x, rows, cols) && |y| == rows && 0 < p
    ensures RunWorkers(a, x, y, rows, cols, p, p) == Product(a, x, rows, cols)
  {
    RunWorkersPrefix(a, x, y, rows, cols, p, p);
  }

  /** `Mat_vect_mult(rank)`: for each row of the worker's block, zero `y[i]` and
      add `A[i*cols + j] * x[j]` for ascending `j`. `written` is the set of
      indices of `y` assigned: exactly the worker's block, so entries outside
      it are not written and an empty block writes nothing. */
  method MatVectMult(A: array<int>, x: array<int>, y: array<int>, rows: int, cols: int, p: int, rank: int)
    returns (ghost written: set<int>)
    requires 0 < p && 0 <= rank < p
    requires Shaped(A[..], x[..], rows, cols) && y.Length == rows
    requires y != A && y != x
    modifies y
    ensures y[..] == Worker(A[..], x[..], old(y[..]), rows, cols, p, rank)
    ensures forall i :: i in written <==> InBlock(i, rank, p, rows)
  {
    written := {};
    var first := BlockLow(rank, p, rows);
    var last := BlockHigh(rank, p, rows);
    var i := first;
    while i <= last
      invariant first <= i <= last + 1
      invariant forall k :: k in written <==> first <= k < i
      invariant forall k :: 0 <= k < rows ==>
                  y[k] == if first <= k < i then RowDot(A[..], x[..], rows, cols, k) else old(y[k])
    {
      RowInBounds(i, rows, cols);
      y[i] := 0;
      var j := 0;
      while j < cols
        invariant 0 <= j <= cols
        invariant y[i] == Dot(A[..], x[..], cols, i, j)
        invariant forall k :: 0 <= k < rows && k != i ==>
                    y[k] == if first <= k < i then RowDot(A[..], x[..], rows, cols, k) else old(y[k])
      {
        y[i] := y[i] + A[i * cols + j] * x[j];
        j := j + 1;
      }
      written := written + {i};
      i := i + 1;
    }
  }

  /** The spawn and join loops of `main`, with each worker run to completion
      in rank order: the result is `A x` for every thread count. `written[r]`
      is what worker `r` wrote: no index is written by two workers, and every
      row is written by its owner. */
  method ComputePhase(A: array<int>, x: array<int>, y: array<int>, rows: int, cols: int, p: int)
    returns (ghost written: seq<set<int>>)
    requires 0 < p
    requires Shaped(A[..], x[..], rows, cols) && y.Length == rows
    requires y != A && y != x
    modifies y
    ensures y[..] == RunWorkers(A[..], x[..], old(y[..]), rows, cols, p, p)
    ensures y[..] == Product(A[..], x[..], rows, cols)
    ensures |written| == p
    ensures forall r, i :: 0 <= r < p ==> (i in written[r] <==> InBlock(i, r, p, rows))
    ensures forall r1, r2, i :: 0 <= r1 < p && 0 <= r2 < p && i in written[r1] && i in written[r2] ==> r1 == r2
    ensures forall i :: 0 <= i < rows ==> i in written[Owner(i, p, rows)]
  {
    written := [];
    var rank := 0;
    while rank < p
      invariant 0 <= rank <= p
      invariant y[..] == RunWorkers(A[..], x[..], old(y[..]), rows, cols, p, rank)
      invariant |written| == rank
      invariant forall r, i :: 0 <= r < rank ==> (i in written[r] <==> InBlock(i, r, p, rows))
    {
      ghost var w := MatVectMult(A, x, y, rows, cols, p, rank);
      written := written + [w];
      rank := rank + 1;
    }
    AllWorkersComputeProduct(A[..], x[..], old(y[..]), rows, cols, p);
    ExactCover(p, rows);
  }

  /** `main` after the arguments and headers are read: reject `P <= 0`, then a
      non-column `x`, then mismatched dimensions, before allocating; otherwise
      allocate a zeroed `y`, run the workers and hand back the `rows x 1` result. */
  method Run(p: int, aHdr: Header, aData: seq<int>, xHdr: Header, xData: seq<int>)
    returns (r: Result<seq<int>>)
    requires Loaded(aHdr, aData) && Loaded(xHdr, xData)
    ensures r.Err? <==> p <= 0 || xHdr.cols != 1 || aHdr.cols != xHdr.rows
    ensures p <= 0 ==> r == Err(BadThreadCount)
    ensures 0 < p && xHdr.cols != 1 ==> r == Err(NotColumnVector)
    ensures 0 < p && xHdr.cols == 1 && aHdr.cols != xHdr.rows ==> r == Err(DimensionMismatch)
    ensures r.Ok? ==> |r.value| == aHdr.rows
    ensures r.Ok? ==> Shaped(aData, xData, aHdr.rows, aHdr.cols)
                      && r.value == Product(aData, xData, aHdr.rows, aHdr.cols)
  {
    var verdict := Validate(p, aHdr, xHdr);
    if verdict.Fail? {
      return Err(verdict.error);
    }
    var rows, cols := aHdr.rows, aHdr.cols;
    var A := new int[|aData|](k requires 0 <= k < |aData| => aData[k]);
    var x := new int[|xData|](k requires 0 <= k < |xData| => xData[k]);
    var y := new int[rows](_ => 0);
    assert A[..] == aData && x[..] == xData;
    ghost var written := ComputePhase(A, x, y, rows, cols, p);
    r := Ok(y[..]);
  }
}
