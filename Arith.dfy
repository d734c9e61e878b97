/** Facts about multiplication and floor division of non-negative integers
    that the partition proofs need and the solver does not find unaided. */
module Arith {

  lemma MulLeft(a: int, b: int, c: int)
    requires 0 <= c
    ensures a <= b ==> a * c <= b * c
  {
  }

  /** Floor division is determined by any quotient/remainder pair. */
  lemma DivUnique(x: int, p: int, q: int, r: int)
    requires 0 < p && 0 <= r < p && x == p * q + r
    ensures x / p == q
  {
    var q' := x / p;
    MulLeft(q' + 1, q, p);
    MulLeft(q + 1, q', p);
  }

  lemma DivMonotone(a: int, b: int, p: int)
    requires 0 < p && a <= b
    ensures a / p <= b / p
  {
    MulLeft(b / p + 1, a / p, p);
  }

  /** The quotient of a sum is the sum of the quotients, or one more. */
  lemma DivSumBounds(a: int, b: int, p: int)
    requires 0 < p
    ensures a / p + b / p <= (a + b) / p <= a / p + b / p + 1
  {
    var qa, ra, qb, rb := a / p, a % p, b / p, b % p;
    assert a + b == p * (qa + qb) + (ra + rb);
    if ra + rb < p {
      DivUnique(a + b, p, qa + qb, ra + rb);
    } else {
      DivUnique(a + b, p, qa + qb + 1, ra + rb - p);
    }
  }

  lemma MulDivCancel(n: int, p: int)
    requires 0 < p
    ensures p * n / p == n
  {
    DivUnique(p * n, p, n, 0);
  }
}
