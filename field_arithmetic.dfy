/** Field arithmetic modulo a prime: the recursive extended Euclid `egcd` and
    `mod_inverse` built on it (ss.py:7-21), and the facts about primes that the
    reconstruction proof needs. */
module FieldArithmetic {
  import opened ModArith

  /** p is prime: at least 2 and without a divisor strictly between 1 and p. */
  ghost predicate IsPrime(p: int) {
    p >= 2 && forall d :: 1 < d < p ==> !Divides(d, p)
  }

  /** 1 is the only positive common divisor of a and n. */
  ghost predicate Coprime(a: int, n: int) {
    forall d :: Divides(d, a) && Divides(d, n) ==> d == 1
  }

  /** egcd (ss.py:7-12) on the non-negative operands it receives from
      mod_inverse: the result (g, x, y) satisfies a*x + b*y == g, where g is
      zero exactly when both operands are, and otherwise a positive common
      divisor of a and b (hence their greatest one, see CommonDivisorDividesGcd).
      Python's `//` is floor division; for these operands it equals Dafny's `/`. */
  function Egcd(a: nat, b: nat): (r: (int, int, int))
    ensures r.0 >= 0 && a * r.1 + b * r.2 == r.0
    ensures r.0 == 0 <==> a == 0 && b == 0
    ensures r.0 > 0 ==> Divides(r.0, a) && Divides(r.0, b)
    decreases a
  {
    if a == 0 then
      DividesSelf(b);
      (b, 0, 1)
    else
      var (g, y, x) := Egcd(b % a, a);
      EgcdStep(a, b, g, y, x);
      (g, x - (b / a) * y, y)
  }

  lemma DividesSelf(b: nat)
    ensures b > 0 ==> Divides(b, 0) && Divides(b, b)
  {
    if b > 0 {
      ModUnique(b, b, 1, 0);
    }
  }

  /** The recursive step of Egcd keeps the Bezout identity and the common divisor. */
  lemma EgcdStep(a: nat, b: nat, g: int, y: int, x: int)
    requires a > 0 && g > 0
    requires (b % a) * y + a * x == g
    requires Divides(g, b % a) && Divides(g, a)
    ensures a * (x - (b / a) * y) + b * y == g
    ensures Divides(g, b)
  {
    var q := b / a;
    assert b == a * q + b % a;
    calc {
      a * (x - q * y) + b * y;
      a * x - a * q * y + (a * q + b % a) * y;
      a * x + (b % a) * y;
    }
    ModZeroMul(a, q, g);
    ModCongAdd(a * q, 0, b % a, 0, g);
  }

  /** Every common divisor of a and b divides the g that Egcd returns, so g is
      their greatest common divisor. */
  lemma CommonDivisorDividesGcd(a: nat, b: nat, d: int)
    requires Divides(d, a) && Divides(d, b)
    ensures Egcd(a, b).0 % d == 0
  {
    var (g, x, y) := Egcd(a, b);
    ModZeroMul(a, x, d);
    ModZeroMul(b, y, d);
    ModCongAdd(a * x, 0, b * y, 0, d);
  }

  /** mod_inverse (ss.py:15-21): the result lies in [0, prime), and when k is
      coprime to prime it is the inverse of k modulo prime. After `k % prime`
      with a positive prime, k is never negative, so the `k < 0` branch of the
      source cannot run. */
  function ModInverse(k: int, prime: int): (r: int)
    requires prime > 0
    ensures 0 <= r < prime
    ensures Coprime(k % prime, prime) ==> (k * r) % prime == 1 % prime
  {
    var k' := k % prime;
    if k' < 0 then
      assert false; 0
    else
      var r := Egcd(prime, k').2;
      ModInverseStep(k, prime, r);
      (prime + r) % prime
  }

  lemma ModInverseStep(k: int, prime: int, r: int)
    requires prime > 0 && 0 <= k % prime
    requires r == Egcd(prime, k % prime).2
    ensures Coprime(k % prime, prime) ==> (k * ((prime + r) % prime)) % prime == 1 % prime
  {
    var k' := k % prime;
    var (g, x, y) := Egcd(prime, k');
    if Coprime(k', prime) {
      assert g == 1;
      assert prime * x + k' * r == 1;
      ModMod(k, prime);
      ModAddMultiple(r, 1, prime);
      ModMod(prime + r, prime);
      ModCongMul(k, k', (prime + r) % prime, r, prime);
      ModAddMultiple(1, -x, prime);
      assert k' * r == 1 + prime * (-x);
    }
  }

  /** Modulo a prime, every residue other than 0 is coprime to the prime. */
  lemma PrimeCoprime(p: int, a: int)
    requires IsPrime(p) && a % p != 0
    ensures Coprime(a % p, p)
  {
    forall d | Divides(d, a % p) && Divides(d, p) ensures d == 1 {
      DividesLe(d, a % p);
    }
  }

  /** Euclid's lemma: a prime that divides a product divides one of its factors. */
  lemma EuclidLemma(p: int, a: int, b: int)
    requires IsPrime(p) && (a * b) % p == 0
    ensures a % p == 0 || b % p == 0
  {
    if a % p != 0 {
      var a' := a % p;
      PrimeCoprime(p, a);
      var (g, x, y) := Egcd(p, a');
      assert g == 1;
      ModMod(a, p);
      ModCongMul(a', a, b, b, p);
      ModZeroMul(a' * b, y, p);
      calc {
        b;
        (p * x + a' * y) * b;
        (a' * b) * y + p * (x * b);
      }
      ModAddMultiple((a' * b) * y, x * b, p);
    }
  }

  /** The contrapositive used by the interpolation proof: modulo a prime, a
      product of two non-zero residues is non-zero. */
  lemma ProductNonzero(p: int, a: int, b: int)
    requires IsPrime(p) && a % p != 0 && b % p != 0
    ensures (a * b) % p != 0
  {
    if (a * b) % p == 0 {
      EuclidLemma(p, a, b);
    }
  }
}
