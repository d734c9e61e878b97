/** Row-block decomposition used by both parallel programs.

    The programs call the `BLOCK_LOW` and `BLOCK_HIGH` macros of `quinn.h`,
    a header that is not part of this model. The standard definitions from
    Quinn's textbook are taken as the meaning of those macros:
      BLOCK_LOW(id, p, n)  = id * n / p            (floor division)
      BLOCK_HIGH(id, p, n) = BLOCK_LOW(id + 1, p, n) - 1
    Worker `id` of `p` owns the rows `BLOCK_LOW .. BLOCK_HIGH`, both inclusive;
    when `BLOCK_HIGH < BLOCK_LOW` it owns no row. */
module Partition {
  import Arith

  /** First row owned by worker `id`; `id == p` gives the end of the last block. */
  function BlockLow(id: int, p: int, n: int): (lo: int)
    requires 0 < p && 0 <= id <= p && 0 <= n
    ensures 0 <= lo <= n
    ensures id == 0 ==> lo == 0
    ensures id == p ==> lo == n
  {
    Arith.MulLeft(id, p, n);
    Arith.DivMonotone(0, id * n, p);
    Arith.DivMonotone(id * n, p * n, p);
    Arith.MulDivCancel(n, p);
    id * n / p
  }

  /** Last row owned by worker `id` (inclusive); below `BlockLow` when it owns none. */
  function BlockHigh(id: int, p: int, n: int): (hi: int)
    requires 0 < p && 0 <= id < p && 0 <= n
    ensures BlockLow(id, p, n) - 1 <= hi < n
  {
    BlockLowMonotone(id, id + 1, p, n);
    BlockLow(id + 1, p, n) - 1
  }

  /** Number of rows worker `id` owns (zero for an empty block). */
  function BlockSize(id: int, p: int, n: int): (size: int)
    requires 0 < p && 0 <= id < p && 0 <= n
  {
    BlockHigh(id, p, n) - BlockLow(id, p, n) + 1
  }

  predicate InBlock(i: int, id: int, p: int, n: int)
    requires 0 < p && 0 <= id < p && 0 <= n
  {
    BlockLow(id, p, n) <= i <= BlockHigh(id, p, n)
  }

  /** Sum of the block sizes of workers `0 .. k-1`. */
  function SumSizes(k: int, p: int, n: int): (total: int)
    requires 0 < p && 0 <= k <= p && 0 <= n
  {
    if k == 0 then 0 else SumSizes(k - 1, p, n) + BlockSize(k - 1, p, n)
  }

  /** Number of workers among `0 .. k-1` that own no row. */
  function CountEmpty(k: int, p: int, n: int): (count: int)
    requires 0 < p && 0 <= k <= p && 0 <= n
  {
    if k == 0 then 0
    else CountEmpty(k - 1, p, n) + (if BlockSize(k - 1, p, n) == 0 then 1 else 0)
  }

  /** A lower-ranked worker never starts after a higher-ranked one. */
  lemma BlockLowMonotone(i: int, j: int, p: int, n: int)
    requires 0 < p && 0 <= i <= j <= p && 0 <= n
    ensures BlockLow(i, p, n) <= BlockLow(j, p, n)
  {
    Arith.MulLeft(i, j, n);
    Arith.DivMonotone(i * n, j * n, p);
  }

  /** Adjacent blocks meet: worker `id + 1` starts right after worker `id` ends,
      and every block is either empty or a run of rows in order. */
  lemma Contiguous(id: int, p: int, n: int)
    requires 0 < p && 0 <= id && id + 1 < p && 0 <= n
    ensures BlockHigh(id, p, n) + 1 == BlockLow(id + 1, p, n)
    ensures BlockLow(id, p, n) <= BlockHigh(id, p, n) + 1
  {
  }

  /** Two different workers never own the same row. */
  lemma BlocksDisjoint(r1: int, r2: int, p: int, n: int, i: int)
    requires 0 < p && 0 <= r1 < p && 0 <= r2 < p && 0 <= n
    requires r1 != r2
    ensures !(InBlock(i, r1, p, n) && InBlock(i, r2, p, n))
  {
    if r1 < r2 {
      BlockLowMonotone(r1 + 1, r2, p, n);
    } else {
      BlockLowMonotone(r2 + 1, r1, p, n);
    }
  }

  /** The worker that owns row `i`, searching upwards from worker `r`. */
  function OwnerFrom(i: int, r: int, p: int, n: int): (owner: int)
    requires 0 < p && 0 <= r < p && 0 <= n
    requires BlockLow(r, p, n) <= i < n
    ensures r <= owner < p && InBlock(i, owner, p, n)
    decreases p - r
  {
    if i <= BlockHigh(r, p, n) then r else OwnerFrom(i, r + 1, p, n)
  }

  /** The worker that owns row `i`. */
  function Owner(i: int, p: int, n: int): (owner: int)
    requires 0 < p && 0 <= i < n
    ensures 0 <= owner < p && InBlock(i, owner, p, n)
  {
    OwnerFrom(i, 0, p, n)
  }

  /** Over all `p` workers the blocks cover the rows `0 .. n-1` exactly:
      every owned row is in range, and each row in range is owned by one
      worker, `Owner(i)`, and by no other. */
  lemma ExactCover(p: int, n: int)
    requires 0 < p && 0 <= n
    ensures forall r, i :: 0 <= r < p && InBlock(i, r, p, n) ==> 0 <= i < n
    ensures forall r, i :: 0 <= r < p && 0 <= i < n ==>
              (InBlock(i, r, p, n) <==> r == Owner(i, p, n))
  {
    forall r, i | 0 <= r < p && 0 <= i < n
      ensures InBlock(i, r, p, n) <==> r == Owner(i, p, n)
    {
      if r != Owner(i, p, n) {
        BlocksDisjoint(r, Owner(i, p, n), p, n, i);
      }
    }
  }

  /** The sizes of the blocks of workers `0 .. k-1` add up to `BlockLow(k)`;
      over all workers they add up to `n`. */
  lemma {:induction false} SizesSum(k: int, p: int, n: int)
    requires 0 < p && 0 <= k <= p && 0 <= n
    ensures SumSizes(k, p, n) == BlockLow(k, p, n)
    ensures k == p ==> SumSizes(k, p, n) == n
  {
    if k > 0 {
      SizesSum(k - 1, p, n);
    }
  }

  /** Every block holds `n / p` rows or one more. */
  lemma Balanced(id: int, p: int, n: int)
    requires 0 < p && 0 <= id < p && 0 <= n
    ensures n / p <= BlockSize(id, p, n) <= n / p + 1
  {
    assert (id + 1) * n == id * n + n;
    Arith.DivSumBounds(id * n, n, p);
  }

  /** Any two workers' blocks differ in size by at most one row. */
  lemma SizesDifferByAtMostOne(r1: int, r2: int, p: int, n: int)
    requires 0 < p && 0 <= r1 < p && 0 <= r2 < p && 0 <= n
    ensures -1 <= BlockSize(r1, p, n) - BlockSize(r2, p, n) <= 1
  {
    Balanced(r1, p, n);
    Balanced(r2, p, n);
  }

  /** With more workers than rows every block holds at most one row. */
  lemma AtMostOneRow(id: int, p: int, n: int)
    requires 0 <= n < p && 0 <= id < p
    ensures 0 <= BlockSize(id, p, n) <= 1
  {
    Arith.DivUnique(n, p, 0, n);
    Balanced(id, p, n);
  }

  /** With more workers than rows, workers `0 .. k-1` include exactly
      `k - BlockLow(k)` that own nothing; over all workers that is `p - n`. */
  lemma {:induction false} EmptyBlocks(k: int, p: int, n: int)
    requires 0 <= n < p && 0 <= k <= p
    ensures CountEmpty(k, p, n) == k - BlockLow(k, p, n)
    ensures k == p ==> CountEmpty(k, p, n) == p - n
  {
    if k > 0 {
      EmptyBlocks(k - 1, p, n);
      AtMostOneRow(k - 1, p, n);
    }
  }

  /** The remainder rows are spread across the workers, not handed to the
      first ones: worker 0 gets `n / p` rows (the floor) and the last worker
      gets `(n + p - 1) / p` (the ceiling). */
  lemma EndBlocks(p: int, n: int)
    requires 0 < p && 0 <= n
    ensures BlockSize(0, p, n) == n / p
    ensures BlockSize(p - 1, p, n) == (n + p - 1) / p
  {
    assert 1 * n == n;
    var q, r := n / p, n % p;
    assert (p - 1) * n == p * n - n;
    assert p * (n - q) == p * n - p * q;
    if r == 0 {
      Arith.DivUnique((p - 1) * n, p, n - q, 0);
      Arith.DivUnique(n + p - 1, p, q, p - 1);
    } else {
      assert p * (n - q - 1) == p * (n - q) - p;
      Arith.DivUnique((p - 1) * n, p, n - q - 1, p - r);
      assert p * (q + 1) == p * q + p;
      Arith.DivUnique(n + p - 1, p, q + 1, r - 1);
    }
  }

  /** Five rows over two workers: worker 0 owns rows 0-1 and worker 1 owns
      rows 2-4, so here the extra row goes to the last worker. */
  lemma FiveRowsOverTwoWorkers()
    ensures BlockLow(0, 2, 5) == 0 && BlockHigh(0, 2, 5) == 1
    ensures BlockLow(1, 2, 5) == 2 && BlockHigh(1, 2, 5) == 4
  {
  }

  /** Seven rows over five workers: the blocks start at rows 0, 1, 2, 4 and 5,
      so they are rows 0, 1, 2-3, 4 and 5-6, holding 1, 1, 2, 1 and 2 rows;
      the extra rows fall between the first and the last worker. */
  lemma SevenRowsOverFiveWorkers()
    ensures BlockLow(1, 5, 7) == 1 && BlockLow(2, 5, 7) == 2
    ensures BlockLow(3, 5, 7) == 4 && BlockLow(4, 5, 7) == 5
  {
    Arith.DivUnique(7, 5, 1, 2);
    Arith.DivUnique(14, 5, 2, 4);
    Arith.DivUnique(21, 5, 4, 1);
    Arith.DivUnique(28, 5, 5, 3);
  }
}
