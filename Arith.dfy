/** Integer division facts shared by the topology, partition and layout models.
    Dafny's `/` and `%` on non-negative operands agree with C's, which is the
    only case these models use. */
module Arith {

  lemma MulMonotone(n: nat, j: int, k: int)
    requires j <= k
    ensures n * j <= n * k
  {
    assert n * k - n * j == n * (k - j);
  }

  /** Division by a positive divisor is determined by quotient and remainder. */
  lemma DivModUnique(n: int, q: int, k: int, r: int)
    requires q > 0 && 0 <= r < q && n == q * k + r
    ensures n / q == k && n % q == r
  {
    var k', r' := n / q, n % q;
    assert q * k' + r' == n;
    if k' < k {
      MulMonotone(q, k' + 1, k);
      assert false;
    } else if k' > k {
      MulMonotone(q, k + 1, k');
      assert false;
    }
  }

  /** Integer division by a positive divisor is monotone in the dividend. */
  lemma DivMonotone(a: int, b: int, q: int)
    requires q > 0 && a <= b
    ensures a / q <= b / q
  {
    if a / q > b / q {
      MulMonotone(q, b / q + 1, a / q);
      assert false;
    }
  }
}
