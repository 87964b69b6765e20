/** Facts about Dafny's `%` and `/` with a positive modulus. For a positive
    modulus they agree with Python's floor-based `%` and `//`, which is the only
    case the secret sharer relies on. */
module ModArith {

  /** d is a positive divisor of n. */
  predicate Divides(d: int, n: int) {
    d > 0 && n % d == 0
  }

  lemma MulPositiveGe(p: int, d: int)
    requires p > 0 && d >= 1
    ensures p * d >= p
  {
    assert p * d == p + p * (d - 1);
    assert p * (d - 1) >= 0;
  }

  /** Division with remainder is unique. */
  lemma ModUnique(a: int, p: int, q: int, r: int)
    requires p > 0 && 0 <= r < p && a == p * q + r
    ensures a % p == r && a / p == q
  {
    var q', r' := a / p, a % p;
    assert a == p * q' + r';
    assert p * (q - q') == p * q - p * q';
    if q > q' {
      MulPositiveGe(p, q - q');
      assert false;
    } else if q < q' {
      MulPositiveGe(p, q' - q);
      assert false;
    }
  }

  lemma ModAddMultiple(a: int, k: int, p: int)
    requires p > 0
    ensures (a + p * k) % p == a % p
  {
    var q, r := a / p, a % p;
    assert a + p * k == p * (q + k) + r;
    ModUnique(a + p * k, p, q + k, r);
  }

  lemma ModMod(a: int, p: int)
    requires p > 0
    ensures 0 <= a % p < p && (a % p) % p == a % p
  {
    ModUnique(a % p, p, 0, a % p);
  }

  /** Two integers are congruent exactly when their difference is a multiple of p. */
  lemma ModDiffZero(a: int, b: int, p: int)
    requires p > 0
    ensures (a - b) % p == 0 <==> a % p == b % p
  {
    var qa, qb := a / p, b / p;
    assert a - b == p * (qa - qb) + (a % p - b % p);
    if a % p == b % p {
      ModUnique(a - b, p, qa - qb, 0);
    } else {
      var d := a % p - b % p;
      if d > 0 {
        ModUnique(a - b, p, qa - qb, d);
      } else {
        assert a - b == p * (qa - qb - 1) + (p + d);
        ModUnique(a - b, p, qa - qb - 1, p + d);
      }
    }
  }

  lemma ModCongAdd(a: int, a': int, b: int, b': int, p: int)
    requires p > 0 && a % p == a' % p && b % p == b' % p
    ensures (a + b) % p == (a' + b') % p
  {
    ModDiffZero(a, a', p);
    ModDiffZero(b, b', p);
    var k1, k2 := (a - a') / p, (b - b') / p;
    assert a - a' == p * k1;
    assert b - b' == p * k2;
    ModAddMultiple(a' + b, k1, p);
    ModAddMultiple(a' + b', k2, p);
  }

  lemma ModCongMul(a: int, a': int, b: int, b': int, p: int)
    requires p > 0 && a % p == a' % p && b % p == b' % p
    ensures (a * b) % p == (a' * b') % p
  {
    ModDiffZero(a, a', p);
    ModDiffZero(b, b', p);
    var k1, k2 := (a - a') / p, (b - b') / p;
    assert a == a' + p * k1;
    assert b == b' + p * k2;
    calc {
      a * b;
      (a' + p * k1) * (b' + p * k2);
      a' * b' + p * (k1 * b' + a' * k2 + p * k1 * k2);
    }
    ModAddMultiple(a' * b', k1 * b' + a' * k2 + p * k1 * k2, p);
  }

  lemma ModZeroMul(a: int, b: int, p: int)
    requires p > 0 && a % p == 0
    ensures (a * b) % p == 0
  {
    ModCongMul(a, 0, b, b, p);
  }

  /** A positive multiple of d is at least d. */
  lemma DividesLe(d: int, n: int)
    requires Divides(d, n) && n > 0
    ensures d <= n
  {
    var q := n / d;
    assert n == d * q;
    assert d * (1 - q) == d - d * q;
    if q <= 0 {
      MulPositiveGe(d, 1 - q);
      assert false;
    } else {
      MulPositiveGe(d, q);
    }
  }
}
