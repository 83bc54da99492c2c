/** Division as several components use it. */
module Arithmetic {

  /** `div_roundup` (kernel/lib/memutils.hpp). */
  function DivRoundup(a: nat, b: nat): nat
    requires b > 0
  {
    (a + (b - 1)) / b
  }

  /** A quotient and remainder that fit are the quotient and remainder. */
  lemma QuotientUnique(x: int, m: int, q: int, r: int)
    requires m > 0 && x == q * m + r && 0 <= r < m
    ensures x / m == q && x % m == r
  {
    var d := x / m - q;
    assert d * m == r - x % m;
    ProductSign(d, m);
  }

  lemma ProductSign(d: int, m: int)
    requires m > 0
    ensures d >= 1 ==> d * m >= m
    ensures d <= -1 ==> d * m <= -m
  {
  }

  lemma ProductOrder(a: int, b: int, m: int)
    requires m > 0
    ensures a >= b ==> a * m >= b * m
  {
  }

  lemma QuotientBound(x: nat, n: nat, m: nat)
    requires n > 0 && x < m * n
    ensures x / n < m
  {
    assert x / n * n <= x;
    ProductOrder(x / n, m, n);
  }

  lemma QuotientAtMost(x: nat, m: nat)
    requires m > 0
    ensures x / m <= x
  {
    var q, r := x / m, x % m;
    assert x == q * m + r;
    ProductOrder(m, 1, if q > 0 then q else 1);
  }

  /** Quotient and remainder together determine a number. */
  lemma DivModDetermine(x: int, y: int, m: int)
    requires m > 0
    ensures x / m == y / m && x % m == y % m ==> x == y
  {
    assert x == x / m * m + x % m && y == y / m * m + y % m;
  }

  lemma RoundupCompare(x: int, m: int, k: int, q: int, r: int)
    requires m > 0 && x + (m - 1) == q * m + r && 0 <= r < m
    ensures q <= k <==> x <= k * m
  {
    if q <= k {
      ProductOrder(k, q, m);
    } else {
      ProductOrder(q, k + 1, m);
      assert (k + 1) * m == k * m + m;
    }
  }

  /** Rounding up stays within `k` just when `x` does within `k` times the unit. */
  lemma RoundupIff(x: nat, m: nat, k: nat)
    requires m > 0
    ensures DivRoundup(x, m) <= k <==> x <= k * m
  {
    RoundupCompare(x, m, k, (x + (m - 1)) / m, (x + (m - 1)) % m);
  }
}
