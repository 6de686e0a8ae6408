/** Arithmetic facts about `/`, `%` and products that several components need. */
module Modular {

  lemma MulAtLeast(d: int, n: int)
    requires n > 0
    ensures d >= 1 ==> d * n >= n
    ensures d <= -1 ==> d * n <= -n
  {
    if d >= 1 {
      assert (d - 1) * n >= 0;
    } else if d <= -1 {
      assert (-d - 1) * n >= 0;
    }
  }

  lemma DivNonNegative(x: nat, n: nat)
    requires n > 0
    ensures x / n >= 0
  {
    assert x == x / n * n + x % n;
    MulAtLeast(x / n, n);
  }

  /** Division with remainder has one solution. */
  lemma DivModUnique(x: int, n: nat, q: int, r: int)
    requires n > 0 && x == q * n + r && 0 <= r < n
    ensures x / n == q && x % n == r
  {
    var d := x / n - q;
    assert x == x / n * n + x % n;
    assert d * n == r - x % n by {
      assert d * n == x / n * n - q * n;
    }
    MulAtLeast(d, n);
  }

  lemma SmallMod(x: nat, n: nat)
    requires x < n
    ensures x % n == x
  {
    DivModUnique(x, n, 0, x);
  }

  lemma ModShift(x: int, q: int, n: nat)
    requires n > 0
    ensures (x + q * n) % n == x % n
    ensures (x + q * n) / n == x / n + q
  {
    assert x == x / n * n + x % n;
    assert (x / n + q) * n == x / n * n + q * n;
    DivModUnique(x + q * n, n, x / n + q, x % n);
  }

  /** Wrapping early or late makes no difference. */
  lemma WrapSum(a: int, b: int, n: nat)
    requires n > 0
    ensures (a % n + b) % n == (a + b) % n
  {
    assert a + b == (a % n + b) + a / n * n;
    ModShift(a % n + b, a / n, n);
  }

  /** Equal remainders mean the difference is a multiple. */
  lemma EqualModMultiple(a: int, b: int, n: nat)
    requires n > 0 && a % n == b % n
    ensures (a - b) % n == 0
  {
    assert a == a / n * n + a % n && b == b / n * n + b % n;
    assert a - b == (a / n - b / n) * n by {
      assert (a / n - b / n) * n == a / n * n - b / n * n;
    }
    DivModUnique(a - b, n, a / n - b / n, 0);
  }

  /** Two different indices less than n apart have different remainders. */
  lemma DistinctWraps(j: int, k: int, n: nat)
    requires n > 0 && j < k < j + n
    ensures j % n != k % n
  {
    if j % n == k % n {
      EqualModMultiple(k, j, n);
      SmallMod(k - j, n);
    }
  }
}
