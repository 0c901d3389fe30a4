/** The few facts about products and quotients that the solver is not left to find. */
module Arith {

  lemma MulMono(a: int, b: int, c: int)
    requires a <= b && c >= 0
    ensures a * c <= b * c
  {
  }

  /** A nonzero multiple of `n` is at least `n` in size. */
  lemma MultipleBelow(k: int, n: int, d: int)
    requires n > 0 && d == k * n && -n < d < n
    ensures k == 0
  {
    if k >= 1 {
      MulMono(1, k, n);
    } else if k <= -1 {
      MulMono(k, -1, n);
    }
  }

  lemma DivModUnique(x: int, n: int, q: int, r: int)
    requires n > 0 && 0 <= r < n && x == q * n + r
    ensures x / n == q && x % n == r
  {
    assert x == (x / n) * n + x % n;
    assert (x / n - q) * n == r - x % n;
    MultipleBelow(x / n - q, n, r - x % n);
  }
}
