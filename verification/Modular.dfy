/** Division by a variable, where the solver needs a hand. */
module Modular {
  lemma NonNegative(k: nat, n: nat)
    ensures k * n >= 0
  {
  }

  /** A multiple of n other than 0 is at least n away from 0. */
  lemma Multiple(k: int, n: nat)
    ensures k == 0 || k * n >= n || k * n <= 0 - n
  {
    if k > 0 { NonNegative(k - 1, n); } else if k < 0 { NonNegative(-k - 1, n); }
  }

  lemma SmallMod(x: nat, n: nat)
    requires x < n
    ensures x % n == x && x / n == 0
  {
  }

  lemma DivUnique(x: int, q: int, r: int, n: nat)
    requires 0 <= r < n && x == q * n + r
    ensures x / n == q && x % n == r
  {
    var q', r' := x / n, x % n;
    assert (q - q') * n == r' - r by { assert x == q' * n + r'; }
    Multiple(q - q', n);
  }

  lemma ModShift(x: int, k: int, n: nat)
    requires n > 0
    ensures (x + k * n) % n == x % n
  {
    assert x == x / n * n + x % n;
    assert x + k * n == (x / n + k) * n + x % n;
    DivUnique(x + k * n, x / n + k, x % n, n);
  }

  /** Counting up by one moves the remainder up, or starts it over. */
  lemma DivStep(x: nat, n: nat)
    requires n > 0
    ensures x % n + 1 < n ==> (x + 1) / n == x / n && (x + 1) % n == x % n + 1
    ensures x % n + 1 == n ==> (x + 1) / n == x / n + 1 && (x + 1) % n == 0
  {
    var q, r := x / n, x % n;
    assert x == q * n + r;
    if r + 1 < n {
      DivUnique(x + 1, q, r + 1, n);
    } else {
      assert (q + 1) * n == q * n + n;
      DivUnique(x + 1, q + 1, 0, n);
    }
  }

  lemma QuotientBound(x: nat, k: nat, n: nat)
    requires n > 0
    ensures x < k * n ==> x / n < k
  {
    var q := x / n;
    assert x == q * n + x % n;
    if q >= k {
      NonNegative(q - k, n);
      assert q * n == k * n + (q - k) * n;
    }
  }
}
