/**
 * Integer facts the rounding code leans on: a quotient is pinned down by a
 * product and a remainder, and a bound on the dividend bounds the quotient.
 */
module Arith {

  lemma MultipleBounds(t: int, m: int)
    requires m > 0
    ensures t >= 1 ==> t * m >= m
    ensures t <= -1 ==> t * m <= -m
  {
    assert t * m - m == (t - 1) * m;
    assert t * m + m == (t + 1) * m;
  }

  lemma SmallMultipleIsZero(t: int, m: int)
    requires m > 0 && -m < t * m < m
    ensures t == 0
  {
    MultipleBounds(t, m);
  }

  /** `n / m == q` whenever `n == q * m + r` with `0 <= r < m`. */
  lemma DivExact(n: int, m: int, q: int, r: int)
    requires m > 0 && n == q * m + r && 0 <= r < m
    ensures n / m == q
  {
    var q', r' := n / m, n % m;
    assert n == q' * m + r';
    assert (q - q') * m == r' - r;
    SmallMultipleIsZero(q - q', m);
  }

  lemma QuotientBelow(n: int, m: int, k: int)
    requires m > 0 && n < k * m
    ensures n / m < k
  {
    var q := n / m;
    assert q * m <= n;
    assert (k - q) * m == k * m - q * m;
  }

  lemma QuotientAtLeast(n: int, m: int, k: int)
    requires m > 0 && k * m <= n
    ensures k <= n / m
  {
    var q := n / m;
    assert n < q * m + m;
    assert (q + 1 - k) * m == q * m + m - k * m;
    MultipleBounds(q + 1 - k, m);
  }
}
