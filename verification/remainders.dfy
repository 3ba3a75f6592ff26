/** Facts about Euclidean remainders used to relate the carousel's
    one-step wraparound to arithmetic modulo the number of slides. */
module Remainders {

  /** The remainder of `a` by `n` is the one `r` in `[0, n)` with `a` a
      multiple of `n` away from `r`. */
  lemma ModUnique(a: int, n: int, q: int, r: int)
    requires n > 0 && 0 <= r < n && a == q * n + r
    ensures a % n == r
  {
    var d := q - a / n;
    assert a == (a / n) * n + a % n;
    assert d * n == q * n - (a / n) * n;
    assert d * n == a % n - r;
  }

  /** One more step, taken modulo `n`, is one more step on the remainder. */
  lemma ModSucc(a: int, n: int)
    requires n > 0
    ensures ((a % n) + 1) % n == (a + 1) % n
  {
    var q, r := a / n, a % n;
    assert a == q * n + r;
    if r + 1 < n {
      ModUnique(a + 1, n, q, r + 1);
      ModUnique(r + 1, n, 0, r + 1);
    } else {
      assert a + 1 == (q + 1) * n + 0;
      ModUnique(a + 1, n, q + 1, 0);
      ModUnique(r + 1, n, 1, 0);
    }
  }

  /** One step back, taken modulo `n`, is one step back on the remainder. */
  lemma ModPred(a: int, n: int)
    requires n > 0
    ensures ((a % n) - 1) % n == (a - 1) % n
  {
    var q, r := a / n, a % n;
    assert a == q * n + r;
    if r > 0 {
      ModUnique(a - 1, n, q, r - 1);
      ModUnique(r - 1, n, 0, r - 1);
    } else {
      assert a - 1 == (q - 1) * n + (n - 1);
      ModUnique(a - 1, n, q - 1, n - 1);
      ModUnique(r - 1, n, -1, n - 1);
    }
  }

  /** A step of at most one place, taken modulo `n`, is the same step on the
      remainder. */
  lemma ModShift(a: int, d: int, n: int)
    requires n > 0 && -1 <= d <= 1
    ensures ((a % n) + d) % n == (a + d) % n
  {
    if d == 1 {
      assert ((a % n) + 1) % n == (a + 1) % n by { ModSucc(a, n); }
    } else if d == -1 {
      assert ((a % n) - 1) % n == (a - 1) % n by { ModPred(a, n); }
    } else {
      assert (a % n) % n == a % n by { ModUnique(a % n, n, 0, a % n); }
    }
  }

  /** `ModShift` stated of named values: if `x` is the remainder of `y`, a
      step `d` from `x` lands on the remainder of `z = y + d`. */
  lemma ModShiftLink(x: int, y: int, d: int, n: int, k: int, z: int)
    requires n > 0 && -1 <= d <= 1
    ensures x == y % n && k == (x + d) % n && z == y + d ==> k == z % n
  {
    ModShift(y, d, n);
  }
}
