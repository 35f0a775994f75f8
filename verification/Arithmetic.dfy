/** Facts about products, quotients and remainders that the solver does not find by itself. */
module Arithmetic {
  lemma MulAtLeast(k: int, m: int)
    requires m > 0
    ensures k >= 1 ==> k * m >= m
    ensures k == 0 ==> k * m == 0
    ensures k <= -1 ==> k * m <= -m
  {
  }

  lemma DivModUnique(x: int, m: int, q: int, r: int)
    requires m > 0 && x == q * m + r && 0 <= r < m
    ensures x / m == q && x % m == r
  {
    assert x == (x / m) * m + x % m;
    assert (x / m - q) * m == r - x % m;
    MulAtLeast(x / m - q, m);
  }
}
