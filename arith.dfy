/** Facts about integer remainders that Dafny does not find on its own. */
module Arith {
  /** A multiple of `n` strictly between `-n` and `n` is zero. */
  lemma MulSmall(n: int, d: int)
    requires n > 0 && -n < n * d < n
    ensures d == 0
  {
  }

  /** The remainder is the unique `r` in `[0, n)` with `x == n * q + r`. */
  lemma ModUnique(x: int, n: int, q: int, r: int)
    requires n > 0 && 0 <= r < n && x == n * q + r
    ensures x % n == r
  {
    var q', r' := x / n, x % n;
    assert n * (q' - q) == r - r';
    MulSmall(n, q' - q);
  }
}
