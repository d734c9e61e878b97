/** The serial program, matrix_vector.c: validate the headers, allocate,
    and accumulate `y[i] += A[i*cols + j] * x[j]` into a zeroed `y`. */
module Serial {
  import opened MatVec

  /** The column-vector check comes first, then the inner-dimension check. */
  function Validate(a: Header, x: Header): (verdict: Outcome) {
    if x.cols != 1 then Fail(NotColumnVector)
    else if a.cols != x.rows then Fail(DimensionMismatch)
    else Pass
  }

  /** The nested loops of `main`: every `y[i]` gains the dot product of row `i`
      with `x`, added in ascending `j` order. */
  method Multiply(A: array<int>, x: array<int>, y: array<int>, rows: int, cols: int)
    requires Shaped(A[..], x[..], rows, cols) && y.Length == rows
    requires y != A && y != x
    modifies y
    ensures forall i :: 0 <= i < rows ==>
              y[i] == old(y[i]) + RowDot(A[..], x[..], rows, cols, i)
  {
    var i := 0;
    while i < rows
      invariant 0 <= i <= rows
      invariant forall k :: 0 <= k < i ==> y[k] == old(y[k]) + RowDot(A[..], x[..], rows, cols, k)
      invariant forall k :: i <= k < rows ==> y[k] == old(y[k])
    {
      RowInBounds(i, rows, cols);
      var j := 0;
      while j < cols
        invariant 0 <= j <= cols
        invariant y[i] == old(y[i]) + Dot(A[..], x[..], cols, i, j)
        invariant forall k :: 0 <= k < i ==> y[k] == old(y[k]) + RowDot(A[..], x[..], rows, cols, k)
        invariant forall k :: i < k < rows ==> y[k] == old(y[k])
      {
        y[i] := y[i] + A[i * cols + j] * x[j];
        j := j + 1;
      }
      i := i + 1;
    }
  }

  /** `main` after the files are read: reject a non-column `x`, then mismatched
      dimensions, before allocating; otherwise multiply into a zeroed `y`
      (the `calloc` buffer) and hand back the `rows x 1` result. */
  method Run(aHdr: Header, aData: seq<int>, xHdr: Header, xData: seq<int>)
    returns (r: Result<seq<int>>)
    requires Loaded(aHdr, aData) && Loaded(xHdr, xData)
    ensures r.Err? <==> xHdr.cols != 1 || aHdr.cols != xHdr.rows
    ensures xHdr.cols != 1 ==> r == Err(NotColumnVector)
    ensures xHdr.cols == 1 && aHdr.cols != xHdr.rows ==> r == Err(DimensionMismatch)
    ensures r.Ok? ==> |r.value| == aHdr.rows
    ensures r.Ok? ==> Shaped(aData, xData, aHdr.rows, aHdr.cols)
                      && r.value == Product(aData, xData, aHdr.rows, aHdr.cols)
  {
    var verdict := Validate(aHdr, xHdr);
    if verdict.Fail? {
      return Err(verdict.error);
    }
    var rows, cols := aHdr.rows, aHdr.cols;
    var A := new int[|aData|](k requires 0 <= k < |aData| => aData[k]);
    var x := new int[|xData|](k requires 0 <= k < |xData| => xData[k]);
    var y := new int[rows](_ => 0);
    assert A[..] == aData && x[..] == xData;
    Multiply(A, x, y, rows, cols);
    assert y[..] == Product(aData, xData, rows, cols);
    r := Ok(y[..]);
  }
}
