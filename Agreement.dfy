/** How the three programs relate when given the same input files. */
module Agreement {
  import opened MatVec
  import Serial
  import Pthreads
  import Numa

  /** The threaded program returns exactly what the serial one returns for
      every positive thread count; an accepted input yields `A x`. */
  method ThreadedAgreesWithSerial(p: int, aHdr: Header, aData: seq<int>, xHdr: Header, xData: seq<int>)
    returns (serial: Result<seq<int>>, threaded: Result<seq<int>>)
    requires Loaded(aHdr, aData) && Loaded(xHdr, xData)
    ensures 0 < p ==> threaded == serial
    ensures serial.Ok? ==> Shaped(aData, xData, aHdr.rows, aHdr.cols)
                           && serial.value == Product(aData, xData, aHdr.rows, aHdr.cols)
  {
    serial := Serial.Run(aHdr, aData, xHdr, xData);
    threaded := Pthreads.Run(p, aHdr, aData, xHdr, xData);
  }

  /** On a column vector the NUMA program returns exactly what the serial one
      returns, for every positive thread count. */
  method NumaAgreesWithSerial(p: int, aHdr: Header, aData: seq<int>, xHdr: Header, xData: seq<int>)
    returns (serial: Result<seq<int>>, numa: Result<seq<int>>)
    requires Loaded(aHdr, aData) && Loaded(xHdr, xData) && xHdr.cols == 1
    ensures 0 < p ==> numa == serial
  {
    serial := Serial.Run(aHdr, aData, xHdr, xData);
    assert xData[..xHdr.rows] == xData;
    ghost var touched, written;
    numa, touched, written := Numa.Run(p, aHdr, aData, xHdr, xData);
  }

  /** The worked example `[[1,2],[3,4]] * [5,6]` gives `[17, 39]` with one,
      two and four threads. */
  method ExampleAcrossThreadCounts() returns (y1: Result<seq<int>>, y2: Result<seq<int>>, y4: Result<seq<int>>)
    ensures y1 == y2 == y4 == Ok([17, 39])
  {
    Example();
    y1 := Pthreads.Run(1, Header(2, 2), [1, 2, 3, 4], Header(2, 1), [5, 6]);
    y2 := Pthreads.Run(2, Header(2, 2), [1, 2, 3, 4], Header(2, 1), [5, 6]);
    y4 := Pthreads.Run(4, Header(2, 2), [1, 2, 3, 4], Header(2, 1), [5, 6]);
  }

  /** A 2 x 2 "vector" file `[[5,6],[7,8]]` against the 1 x 2 matrix `[1,2]`:
      the threaded program rejects it; the NUMA program accepts it and
      multiplies by the first two stored values `[5,6]` (row 0 of the file),
      giving `[17]`. */
  method NumaAcceptsWideVector() returns (threaded: Result<seq<int>>, numa: Result<seq<int>>)
    ensures threaded == Err(NotColumnVector)
    ensures numa == Ok([17])
  {
    threaded := Pthreads.Run(1, Header(1, 2), [1, 2], Header(2, 2), [5, 6, 7, 8]);
    ghost var touched, written;
    numa, touched, written := Numa.Run(1, Header(1, 2), [1, 2], Header(2, 2), [5, 6, 7, 8]);
    assert [5, 6, 7, 8][..2] == [5, 6];
    assert RowDot([1, 2], [5, 6], 1, 2, 0) == 17;
    assert Product([1, 2], [5, 6], 1, 2) == [17];
  }
}
