# Row-block matrix–vector multiplication, modelled in Dafny

The repository multiplies a dense row-major matrix `A` (`rows x cols`) by a
column vector `x`. It comes as three programs:

- `matrix_vector.c`, the serial program. It checks the file headers,
  allocates a zeroed `y`, and accumulates `y[i] += A[i*cols + j] * x[j]`
  with `i` and `j` ascending.
- `pth_matrix_vector.c`, the threaded program. It starts `P` workers. Worker
  `rank` owns the rows `BLOCK_LOW(rank, P, rows) .. BLOCK_HIGH(rank, P, rows)`.
  For each of those rows it zeroes `y[i]` and accumulates the row's dot
  product.
- `pth_matrix_vector_numa.c`, the NUMA-aware program. Before computing, it
  runs a first-touch pass. Each worker writes the rows of `A` and `y` it will
  compute, and a block of `x`, back onto themselves. Under a first-touch page
  policy this places the pages on that worker's memory node. The compute
  phase is the same as in the threaded program.

The model has one module per component:

- `Partition` holds the block arithmetic.
- `MatVec` holds the shared meaning: `Dot`, the ascending accumulation of a
  row's products, and `Product`, the vector `A x`. It also holds the header
  and error types.
- `Serial`, `Pthreads` and `Numa` model the three programs. Their kernels are
  methods over arrays, with loop invariants, proved against `Product`.
- `Agreement` relates the three programs on the same inputs.

`Arith` holds helper facts about division.

**Assumption.** `quinn.h` is not part of this model. The macros take the
standard Quinn definitions: `BLOCK_LOW(id, p, n) = id * n / p` with floor
division, and `BLOCK_HIGH(id, p, n) = BLOCK_LOW(id + 1, p, n) - 1`.

**Workers run in sequence.** The programs start all `P` workers and then join
them. The model runs each worker to completion, in rank order. This is
faithful for three reasons:

- A worker reads only `A` and `x`.
- A worker writes only the entries of `y` in its own block: the set of
  indices it writes is exactly that block (`MatVectMult`).
- No index is written by two workers (`ComputePhase`, `ExactCover`), and two
  workers give the same result in either order (`WorkersCommute`).

**Where the code departs from the intended design, the model follows the
code:**

- Remainder rows are often described as going to the early workers. With
  the floor formula the extra rows are spread across the ranks: worker 0
  gets `n / P` rows and the last worker gets `(n + P - 1) / P`
  (`EndBlocks`). Seven rows over five workers give blocks of 1, 1, 2, 1 and
  2 rows (`SevenRowsOverFiveWorkers`).
- A vector with more than one column is meant to be rejected by every
  program. The NUMA program does not make that check
  (`pth_matrix_vector_numa.c:111-114`). It then reads the first `x_rows`
  values of the vector file, so its result is `A` times that row-major prefix
  (`Numa.Run`, `NumaAcceptsWideVector`).

## Model

| member | source | states |
|---|---|---|
| `Partition.BlockLow` | pth_matrix_vector.c:36 | the first row of a block lies in `[0, n]`; worker 0 starts at row 0, and `BLOCK_LOW(P)` is `n` |
| `Partition.BlockHigh` | pth_matrix_vector.c:37 | the last row of a block is below `n` and at least `BLOCK_LOW - 1`, so a block is either empty or a run of rows inside `[0, n)` |
| `Partition.BlockLowMonotone` | pth_matrix_vector.c:36 | a lower-ranked worker never starts after a higher-ranked one |
| `Partition.Contiguous` | pth_matrix_vector.c:36-37 | `BLOCK_HIGH(r) + 1 == BLOCK_LOW(r + 1)`, and `BLOCK_LOW(r) <= BLOCK_HIGH(r) + 1` |
| `Partition.BlocksDisjoint` | pth_matrix_vector.c:36-39 | two different workers never own the same row |
| `Partition.Owner` | pth_matrix_vector.c:36-37 | every row in `[0, n)` has a worker in `[0, P)` whose block holds it |
| `Partition.ExactCover` | pth_matrix_vector.c:36-37 | over ranks `0 .. P-1`, every owned row is in `[0, n)`, and each row in `[0, n)` is owned by `Owner(i)` and by no other worker |
| `Partition.SizesSum` | pth_matrix_vector.c:36-37 | the block sizes of workers `0 .. k-1` sum to `BLOCK_LOW(k)`, and over all workers to `n` |
| `Partition.Balanced` | pth_matrix_vector.c:36-37 | every block holds `n / P` or `n / P + 1` rows |
| `Partition.SizesDifferByAtMostOne` | pth_matrix_vector.c:36-37 | any two blocks differ in size by at most one row |
| `Partition.AtMostOneRow` | pth_matrix_vector.c:36-39 | when `P > n`, every block holds zero rows or one row |
| `Partition.EmptyBlocks` | pth_matrix_vector.c:36-39 | when `P > n`, exactly `P - n` workers have `BLOCK_HIGH < BLOCK_LOW`, and so own nothing |
| `Partition.EndBlocks` | pth_matrix_vector.c:36-37 | worker 0 owns `n / P` rows, the floor, and the last worker owns `(n + P - 1) / P`, the ceiling |
| `Partition.FiveRowsOverTwoWorkers` | pth_matrix_vector.c:36-37 | five rows over two workers split as rows 0–1 and rows 2–4 |
| `Partition.SevenRowsOverFiveWorkers` | pth_matrix_vector.c:36-37 | seven rows over five workers start at rows 0, 1, 2, 4 and 5: blocks of 1, 1, 2, 1 and 2 rows |
| `MatVec.RowInBounds` | pth_matrix_vector.c:39-42 | for `0 <= i < rows`, the offsets `i*cols .. i*cols + cols - 1` of row `i` lie inside the `rows*cols` buffer |
| `MatVec.DotIsSum` | matrix_vector.c:88-92 | the ascending left-to-right accumulation of the loops equals the sum of the row's products |
| `MatVec.Example` | matrix_vector.c:88-92 | `[[1,2],[3,4]] * [5,6] == [17, 39]` |
| `Serial.Multiply` | matrix_vector.c:88-92 | after the nested loops, each `y[i]` has gained exactly the dot product of row `i` with `x`; the loop invariants say rows below `i` are done, rows above are untouched, and `y[i]` holds the first `j` products |
| `Serial.Run` | matrix_vector.c:45-106 | rejects `x_cols != 1`, then `A_cols != x_rows`. Otherwise the result starts from a zeroed `y`, has `A_rows` entries, and equals `A x` |
| `Pthreads.MatVectMult` | pth_matrix_vector.c:33-47 | a worker sets each row of its block to the row's dot product and leaves every other entry of `y` as it was. The set of indices it assigns is exactly its block, so an empty block writes nothing. The `Mat_vect_mult` at `pth_matrix_vector_numa.c:68-82` is the same code |
| `Pthreads.WorkersCommute` | pth_matrix_vector.c:137-151 | two workers leave the same `y` in either order, and running one worker twice equals running it once |
| `Pthreads.RunWorkersPrefix` | pth_matrix_vector.c:137-151 | after workers `0 .. k-1`, rows below `BLOCK_LOW(k)` hold their dot products and the other rows are untouched |
| `Pthreads.AllWorkersComputeProduct` | pth_matrix_vector.c:137-151 | for every `P >= 1` and any prior contents of `y`, running all workers yields exactly `A x` |
| `Pthreads.ComputePhase` | pth_matrix_vector.c:137-151 | the spawn and join loops leave `y == A x` for every `P >= 1`. Worker `r` writes exactly its block, no index is written by two workers, and each row is written by its owner |
| `Pthreads.Run` | pth_matrix_vector.c:61-165 | rejects `P <= 0`, then `x_cols != 1`, then `A_cols != x_rows`. Otherwise the result has `A_rows` entries and equals `A x` |
| `Numa.ValidationDiffersOnlyOnColumns` | pth_matrix_vector_numa.c:97-114 | the NUMA checks agree with the threaded program's when `x_cols == 1`. With another column count and valid other dimensions, the NUMA program accepts where the threaded one reports `NotColumnVector` |
| `Numa.TouchRows` | pth_matrix_vector_numa.c:42-46 | rewriting rows `first .. last` of `A` changes no value and writes exactly the offsets `first*cols .. (last+1)*cols - 1` |
| `Numa.TouchEntries` | pth_matrix_vector_numa.c:49-58 | rewriting entries `first .. last` of `y` or `x` changes no value and writes exactly those indices |
| `Numa.NumaFirstTouch` | pth_matrix_vector_numa.c:35-62 | `A`, `x` and `y` are unchanged. The indices of `y` written are exactly the worker's compute block. The offsets of `A` written are exactly that block's rows. The indices of `x` written are the worker's block of `x_rows` |
| `Numa.FirstTouchPhase` | pth_matrix_vector_numa.c:130-142 | over all workers nothing changes, and every index of `A`, `y` and `x` is written |
| `Numa.Run` | pth_matrix_vector_numa.c:97-167 | rejects `P <= 0`, then `A_cols != x_rows`; it never checks `x_cols`. Otherwise, after the first-touch and compute phases, the result has `A_rows` entries and equals `A` times the first `x_rows` values of the vector file. For every worker, the entries of `y` it touches first are exactly the entries it later computes |
| `Agreement.ThreadedAgreesWithSerial` | pth_matrix_vector.c:39-44 | for any loaded inputs, the threaded result equals the serial result for every `P >= 1`, and an accepted input yields `A x` |
| `Agreement.NumaAgreesWithSerial` | pth_matrix_vector_numa.c:68-82 | for a column vector, the NUMA result equals the serial result for every `P >= 1` |
| `Agreement.ExampleAcrossThreadCounts` | pth_matrix_vector.c:137-151 | the worked example gives `[17, 39]` with 1, 2 and 4 threads |
| `Agreement.NumaAcceptsWideVector` | pth_matrix_vector_numa.c:111-121 | a 2 x 2 vector file is rejected by the threaded program. The NUMA program accepts it and multiplies by its row-major prefix `[5, 6]` |

## Left out

- File I/O and the binary header format are not modelled. This covers
  `fopen`, `fread`, `fwrite`, the usage check on `argc` and `atoi`. Each `Run`
  takes the two headers and payloads as already loaded (`Loaded`: dimensions
  `>= 0`, payload of `rows * cols` values). It returns `y` instead of writing
  the output file.
- Numa.Run requires at least `x_rows` values in the vector file. The program's
  `fread` of `x` is unchecked, and a short read leaves `x` partly
  uninitialised.
- Some failure paths are not modelled. These are a
  failed `fopen`, a failed `malloc` or `calloc`, a failed `pthread_create`,
  and the inconsistent cleanup on those paths. Allocation in Dafny does not
  fail.
- The claim "before any buffer is allocated" is shown only by the order of
  statements in each `Run`. No contract states it.
- pthread creation and joining, and thread-handle allocation, are replaced by
  a sequential loop over ranks. The justification is above. Interleavings
  inside a worker are not modelled.
- Elements are mathematical integers, not IEEE-754 doubles. The ascending
  `j` order of accumulation is kept in `Dot`, but rounding is not modelled.
- C `int` overflow is not modelled. This includes `A_rows * A_cols`, `rank * n`
  inside `BLOCK_LOW`, and the sums.
- The timing instrumentation (`GET_TIME`, the printed seconds) is not
  modelled. It is observational only.
- NUMA page placement is not visible in values. Only the value-level identity
  of the first-touch pass and the indices it writes are modelled.
- make_matrix.c, print_matrix.c and plot.py are not part of this model. They
  generate, print and plot files.
