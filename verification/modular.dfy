/** Facts about Dafny's `%` used where the C code advances a cursor with
    `(i + 1) % n`.  Every operand there is non-negative, so C's truncating
    `%` and Dafny's Euclidean `%` agree. */
module Modular {

  lemma MulBound(d: int, n: int)
    requires n >= 1
    ensures d >= 1 ==> d * n >= n
    ensures d <= -1 ==> d * n <= -n
  {
  }

  /** Quotient and remainder are determined by any decomposition
      `x == q * n + r` with `0 <= r < n`. */
  lemma ModUnique(x: int, n: int, q: int, r: int)
    requires n >= 1 && 0 <= r < n && x == q * n + r
    ensures x % n == r && x / n == q
  {
    var q', r' := x / n, x % n;
    assert (q - q') * n == r' - r;
    MulBound(q - q', n);
  }

  /** Reducing first does not change where `k` more steps land. */
  lemma ModAdd(a: int, k: int, n: int)
    requires n >= 1
    ensures ((a % n) + k) % n == (a + k) % n
  {
    var q := a / n;
    var q', r := (a + k) / n, (a + k) % n;
    assert (a % n) + k == (q' - q) * n + r;
    ModUnique((a % n) + k, n, q' - q, r);
  }

  /** On `[0, 2n)`, `% n` subtracts `n` at most once. */
  lemma ModSmall(x: int, n: int)
    requires n >= 1 && 0 <= x < 2 * n
    ensures x % n == (if x < n then x else x - n)
  {
    if x < n {
      ModUnique(x, n, 0, x);
    } else {
      ModUnique(x, n, 1, x - n);
    }
  }

  /** `x <= y` survives multiplication by a positive `n`. */
  lemma MulLeq(x: int, y: int, n: int)
    requires n >= 1 && x <= y
    ensures x * n <= y * n
  {
    MulBound(y - x, n);
    assert y * n - x * n == (y - x) * n;
  }

  /** Floor division by a positive `n` is monotone. */
  lemma QuotientMonotone(x: int, y: int, n: int)
    requires x <= y && n >= 1
    ensures x / n <= y / n
  {
    MulBound(x / n - y / n, n);
  }

  /** Dividing by `n` and then by `b` gives the floor of `c / (b * n)`: the
      quotient `m` satisfies `m * b * n <= c < (m + 1) * b * n`. */
  lemma NestedDivBounds(c: int, n: int, b: int)
    requires c >= 0 && n >= 1 && b >= 1
    ensures (c / n) / b * b * n <= c < ((c / n) / b + 1) * b * n
  {
    var a := c / n;
    var m := a / b;
    assert c == a * n + c % n && 0 <= c % n < n;
    assert a == m * b + a % b && 0 <= a % b < b;
    MulLeq(m * b, a, n);
    MulLeq(a + 1, (m + 1) * b, n);
    assert (a + 1) * n == a * n + n;
  }
}
