/** The integer logarithm that bounds introsort's depth and sizes the hash table. */
module Logarithm {

  function Log2Floor(n: nat): nat {
    if n <= 1 then 0 else 1 + Log2Floor(n / 2)
  }

  function Pow2(k: nat): nat {
    if k == 0 then 1 else 2 * Pow2(k - 1)
  }

  lemma {:induction false} Log2FloorBrackets(n: nat)
    requires 1 <= n
    ensures Pow2(Log2Floor(n)) <= n < Pow2(Log2Floor(n) + 1)
  {
    if n > 1 {
      Log2FloorBrackets(n / 2);
    }
  }

  lemma {:induction false} Log2FloorMonotone(m: nat, n: nat)
    requires m <= n
    ensures Log2Floor(m) <= Log2Floor(n)
  {
    if m > 1 {
      Log2FloorMonotone(m / 2, n / 2);
    }
  }

  lemma ProductMonotone(x: int, y: int, p: nat)
    ensures x <= y ==> x * p <= y * p
  {
  }

  lemma QuotientAtLeast(n: nat, p: nat, k: nat)
    requires 1 <= p && k * p <= n
    ensures k <= n / p
  {
    ProductMonotone(n / p + 1, k, p);
    assert n < (n / p + 1) * p;
  }

  lemma QuotientHalves(n: nat, p: nat, q: nat)
    requires 1 <= p && 2 * p <= q <= n
    ensures 2 <= n / p && n / q <= (n / p) / 2
  {
    var x := n / q;
    assert x * q <= n;
    ProductMonotone(2 * p, q, x);
    assert (2 * p) * x == (2 * x) * p && q * x == x * q;
    QuotientAtLeast(n, p, 2 * x);
    QuotientAtLeast(n, p, 2);
  }

  /** `n >>= 1` until one bit is left, counting. */
  method ILog2(n: int) returns (k: nat)
    ensures k == Log2Floor(if n < 0 then 0 else n)
  {
    k := 0;
    var m := n;
    while m > 1
      invariant m <= n && (0 <= n ==> 0 <= m && k + Log2Floor(m) == Log2Floor(n)) && (n < 0 ==> k == 0)
    {
      m := m / 2;
      k := k + 1;
    }
  }
}
