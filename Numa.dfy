/** The NUMA-aware program, pth_matrix_vector_numa.c.

    Before computing, each worker writes every element it will later use back
    onto itself (`A[k] = A[k]`, `y[i] = y[i]`, `x[i] = x[i]`) so that, under a
    first-touch page policy, those pages land on its own memory node. Page
    placement is not visible in values: what is modelled is that the pass
    changes no value and which indices each worker touches. The compute phase
    runs the same worker code as pth_matrix_vector.c (`Pthreads.MatVectMult`).

    Unlike the other two programs, this `main` never checks that `x` has one
    column: it reads the first `x_rows` values of the vector file, whatever its
    column count. */
module Numa {
  import opened MatVec
  import opened Partition
  import Pthreads

  /** `main` checks the thread count, then the inner dimension; there is no
      column-vector check. */
  function Validate(p: int, a: Header, x: Header): (verdict: Outcome) {
    if p <= 0 then Fail(BadThreadCount)
    else if a.cols != x.rows then Fail(DimensionMismatch)
    else Pass
  }

  /** The two validations differ only on a vector file with other than one
      column, which this program accepts and pth_matrix_vector.c rejects. */
  lemma ValidationDiffersOnlyOnColumns(p: int, a: Header, x: Header)
    ensures x.cols == 1 ==> Validate(p, a, x) == Pthreads.Validate(p, a, x)
    ensures x.cols != 1 && 0 < p && a.cols == x.rows ==>
              Validate(p, a, x) == Pass && Pthreads.Validate(p, a, x) == Fail(NotColumnVector)
  {
  }

  /** The first loop of `Numa_first_touch`: rewrite `A[i*cols + j]` onto itself
      for the rows `first .. last`, which occupy the offsets
      `first * cols .. (last + 1) * cols - 1`. */
  method TouchRows(A: array<int>, cols: int, first: int, last: int) returns (ghost touched: set<int>)
    requires 0 <= first <= last + 1 && 0 <= cols && (last + 1) * cols <= A.Length
    modifies A
    ensures A[..] == old(A[..])
    ensures forall k :: k in touched <==> first * cols <= k < (last + 1) * cols
  {
    touched := {};
    ghost var start := first * cols;
    var i := first;
    while i <= last
      invariant first <= i <= last + 1
      invariant A[..] == old(A[..])
      invariant forall k :: k in touched <==> start <= k < i * cols
    {
      var row := i * cols;
      Arith.MulLeft(i + 1, last + 1, cols);
      Arith.MulLeft(first, i, cols);
      assert row + cols == (i + 1) * cols;
      var j := 0;
      while j < cols
        invariant 0 <= j <= cols
        invariant A[..] == old(A[..])
        invariant forall k :: k in touched <==> start <= k < row + j
      {
        A[row + j] := A[row + j];
        touched := touched + {row + j};
        j := j + 1;
      }
      i := i + 1;
    }
  }

  /** The second and third loops of `Numa_first_touch`: rewrite `v[i]` onto
      itself for `i` in `first .. last`. */
  method TouchEntries(v: array<int>, first: int, last: int) returns (ghost touched: set<int>)
    requires 0 <= first <= last + 1 <= v.Length
    modifies v
    ensures v[..] == old(v[..])
    ensures forall i :: i in touched <==> first <= i <= last
  {
    touched := {};
    var i := first;
    while i <= last
      invariant first <= i <= last + 1
      invariant v[..] == old(v[..])
      invariant forall k :: k in touched <==> first <= k < i
    {
      v[i] := v[i];
      touched := touched + {i};
      i := i + 1;
    }
  }

  /** `Numa_first_touch(rank)`: rewrite the rows of `A` and the entries of `y`
      in the worker's block of `rows`, then the entries of `x` in its block of
      `xRows`. No value changes; `touchedA`, `touchedY` and `touchedX` are the
      indices written: for `y`, exactly the rows the same worker computes. */
  method NumaFirstTouch(A: array<int>, x: array<int>, y: array<int>,
                        rows: int, cols: int, xRows: int, p: int, rank: int)
    returns (ghost touchedA: set<int>, ghost touchedY: set<int>, ghost touchedX: set<int>)
    requires 0 < p && 0 <= rank < p && 0 <= rows && 0 <= cols && 0 <= xRows
    requires A.Length == rows * cols && y.Length == rows && x.Length == xRows
    requires A != x && A != y && x != y
    modifies A, x, y
    ensures A[..] == old(A[..]) && x[..] == old(x[..]) && y[..] == old(y[..])
    ensures forall k :: k in touchedA <==>
              BlockLow(rank, p, rows) * cols <= k < BlockLow(rank + 1, p, rows) * cols
    ensures forall i :: i in touchedY <==> InBlock(i, rank, p, rows)
    ensures forall i :: i in touchedX <==> InBlock(i, rank, p, xRows)
  {
    var first := BlockLow(rank, p, rows);
    var last := BlockHigh(rank, p, rows);
    Arith.MulLeft(last + 1, rows, cols);
    touchedA := TouchRows(A, cols, first, last);
    touchedY := TouchEntries(y, first, last);
    var firstX := BlockLow(rank, p, xRows);
    var lastX := BlockHigh(rank, p, xRows);
    touchedX := TouchEntries(x, firstX, lastX);
  }

  /** The first-touch spawn and join loops of `main`, run in rank order: no
      value changes, and together the workers touch every index of `A`,
      `y` and `x`. */
  method FirstTouchPhase(A: array<int>, x: array<int>, y: array<int>,
                         rows: int, cols: int, xRows: int, p: int)
    returns (ghost touchedA: set<int>, ghost touchedY: set<int>, ghost touchedX: set<int>,
             ghost yBlocks: seq<set<int>>)
    requires 0 < p && 0 <= rows && 0 <= cols && 0 <= xRows
    requires A.Length == rows * cols && y.Length == rows && x.Length == xRows
    requires A != x && A != y && x != y
    modifies A, x, y
    ensures A[..] == old(A[..]) && x[..] == old(x[..]) && y[..] == old(y[..])
    ensures forall k :: k in touchedA <==> 0 <= k < rows * cols
    ensures forall i :: i in touchedY <==> 0 <= i < rows
    ensures forall i :: i in touchedX <==> 0 <= i < xRows
    ensures |yBlocks| == p
    ensures forall r, i :: 0 <= r < p ==> (i in yBlocks[r] <==> InBlock(i, r, p, rows))
  {
    touchedA, touchedY, touchedX, yBlocks := {}, {}, {}, [];
    var rank := 0;
    while rank < p
      invariant 0 <= rank <= p
      invariant A[..] == old(A[..]) && x[..] == old(x[..]) && y[..] == old(y[..])
      invariant forall k :: k in touchedA <==> 0 <= k < BlockLow(rank, p, rows) * cols
      invariant forall i :: i in touchedY <==> 0 <= i < BlockLow(rank, p, rows)
      invariant forall i :: i in touchedX <==> 0 <= i < BlockLow(rank, p, xRows)
      invariant |yBlocks| == rank
      invariant forall r, i :: 0 <= r < rank ==> (i in yBlocks[r] <==> InBlock(i, r, p, rows))
    {
      ghost var ta, ty, tx := NumaFirstTouch(A, x, y, rows, cols, xRows, p, rank);
      BlockLowMonotone(rank, rank + 1, p, rows);
      BlockLowMonotone(rank, rank + 1, p, xRows);
      Arith.MulLeft(0, BlockLow(rank, p, rows), cols);
      Arith.MulLeft(BlockLow(rank, p, rows), BlockLow(rank + 1, p, rows), cols);
      touchedA, touchedY, touchedX := touchedA + ta, touchedY + ty, touchedX + tx;
      yBlocks := yBlocks + [ty];
      rank := rank + 1;
    }
  }

  /** `main` after the arguments and headers are read: reject `P <= 0`, then
      mismatched dimensions, before allocating; otherwise read the first
      `x_rows` values of the vector file, run the first-touch phase and then
      the compute phase, and hand back the `rows x 1` result. `touchedY[r]`
      holds the entries of `y` worker `r` touched first and `written[r]` those
      it later computed: they are the same, so each worker computes on the
      pages it placed. */
  method Run(p: int, aHdr: Header, aData: seq<int>, xHdr: Header, xData: seq<int>)
    returns (r: Result<seq<int>>, ghost touchedY: seq<set<int>>, ghost written: seq<set<int>>)
    requires Loaded(aHdr, aData) && Loaded(xHdr, xData) && xHdr.rows <= |xData|
    ensures r.Err? <==> p <= 0 || aHdr.cols != xHdr.rows
    ensures p <= 0 ==> r == Err(BadThreadCount)
    ensures 0 < p && aHdr.cols != xHdr.rows ==> r == Err(DimensionMismatch)
    ensures r.Ok? ==> |r.value| == aHdr.rows
    ensures r.Ok? ==> Shaped(aData, xData[..xHdr.rows], aHdr.rows, aHdr.cols)
                      && r.value == Product(aData, xData[..xHdr.rows], aHdr.rows, aHdr.cols)
    ensures r.Ok? ==> |touchedY| == |written| == p && touchedY == written
  {
    touchedY, written := [], [];
    var verdict := Validate(p, aHdr, xHdr);
    if verdict.Fail? {
      return Err(verdict.error), touchedY, written;
    }
    var rows, cols, xRows := aHdr.rows, aHdr.cols, xHdr.rows;
    var A := new int[|aData|](k requires 0 <= k < |aData| => aData[k]);
    var x := new int[xRows](k requires 0 <= k < xRows => xData[k]);
    var y := new int[rows](_ => 0);
    assert A[..] == aData && x[..] == xData[..xRows];
    ghost var ta, ty, tx;
    ta, ty, tx, touchedY := FirstTouchPhase(A, x, y, rows, cols, xRows, p);
    written := Pthreads.ComputePhase(A, x, y, rows, cols, p);
    forall rank | 0 <= rank < p
      ensures touchedY[rank] == written[rank]
    {
      assert forall i :: i in touchedY[rank] <==> i in written[rank];
    }
    r := Ok(y[..]);
  }
}
