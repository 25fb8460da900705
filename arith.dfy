/** Facts about the remainder operator that the probe walks rely on. */
module Arith {

  lemma MulAtLeastDivisor(d: int, n: int)
    requires d >= 1 && n > 0
    ensures d * n >= n
  {
    assert d * n == (d - 1) * n + n;
  }

  lemma MulPred(k: nat, step: nat)
    requires k >= 1
    ensures k * step == (k - 1) * step + step
  {
  }

  /** The next square is the previous one plus the next odd number. */
  lemma SquarePred(k: nat)
    requires k >= 1
    ensures k * k == (k - 1) * (k - 1) + (2 * k - 1)
  {
  }

  /** Advancing a reduced value by step reduces to the advanced value. */
  lemma ModStep(p: int, a: int, step: int, b: int, n: int)
    requires n > 0 && p == a % n && b == a + step
    ensures (p + step) % n == b % n
  {
    ModAddLeft(a, step, n);
  }

  /** The remainder is determined by any quotient-remainder decomposition. */
  lemma ModUnique(x: int, n: int, q: int, r: int)
    requires n > 0 && 0 <= r < n && x == q * n + r
    ensures x % n == r
  {
    var q', r' := x / n, x % n;
    assert x == q' * n + r';
    if q > q' {
      MulAtLeastDivisor(q - q', n);
    } else if q < q' {
      MulAtLeastDivisor(q' - q, n);
    }
  }

  /** Adding a multiple of the modulus leaves the remainder unchanged. */
  lemma ModAddMultiple(a: int, n: int, m: int)
    requires n > 0
    ensures (a + n * m) % n == a % n
  {
    var q := a / n;
    assert a + n * m == (q + m) * n + a % n;
    ModUnique(a + n * m, n, q + m, a % n);
  }

  /** Reducing an addend first does not change the reduced sum. */
  lemma ModAddLeft(a: int, b: int, n: int)
    requires n > 0
    ensures (a % n + b) % n == (a + b) % n
  {
    ModAddMultiple(a % n + b, n, a / n);
    assert a % n + b + n * (a / n) == a + b;
  }
}
