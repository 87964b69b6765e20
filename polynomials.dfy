/** Polynomials over the integers as coefficient lists (c[0] is the intercept),
    evaluated exactly, and the root-counting fact that makes Lagrange
    interpolation modulo a prime unique. This is the algebra behind
    get_polynomial_points and modular_lagrange_interpolation. */
module Polynomials {
  import opened ModArith
  import opened FieldArithmetic

  /** A share before encoding: the sample (x, f(x)) of a polynomial. */
  datatype Point = Point(x: int, y: int)

  function Pow(z: int, n: nat): int {
    if n == 0 then 1 else z * Pow(z, n - 1)
  }

  /** The value of c at z, in Horner form. */
  function Eval(c: seq<int>, z: int): int {
    if |c| == 0 then 0 else c[0] + z * Eval(c[1..], z)
  }

  /** A constant polynomial has its constant everywhere. */
  lemma EvalConstant(a: int, z: int)
    ensures Eval([a], z) == a
  {
    assert [a][1..] == [];
  }

  /** Horner form agrees with the power sum c[0] + c[1]*z + ... + c[n-1]*z^(n-1):
      appending a coefficient adds its monomial. */
  lemma {:induction false} EvalSnoc(c: seq<int>, a: int, z: int)
    ensures Eval(c + [a], z) == Eval(c, z) + a * Pow(z, |c|)
  {
    if |c| == 0 {
      assert c + [a] == [a];
      assert [a][1..] == [];
    } else {
      assert (c + [a])[1..] == c[1..] + [a];
      EvalSnoc(c[1..], a, z);
      var e := Eval(c[1..], z);
      calc {
        Eval(c + [a], z);
        c[0] + z * (e + a * Pow(z, |c| - 1));
        c[0] + z * e + a * (z * Pow(z, |c| - 1));
        Eval(c, z) + a * Pow(z, |c|);
      }
    }
  }

  function Max(a: int, b: int): int {
    if a < b then b else a
  }

  /** Coefficient-wise sum; the shorter list is padded with zeros. */
  function Add(a: seq<int>, b: seq<int>): (r: seq<int>)
    ensures |r| == Max(|a|, |b|)
  {
    if |a| == 0 then b
    else if |b| == 0 then a
    else [a[0] + b[0]] + Add(a[1..], b[1..])
  }

  lemma {:induction false} AddEval(a: seq<int>, b: seq<int>, z: int)
    ensures Eval(Add(a, b), z) == Eval(a, z) + Eval(b, z)
  {
    if |a| != 0 && |b| != 0 {
      AddEval(a[1..], b[1..], z);
      assert Add(a, b)[1..] == Add(a[1..], b[1..]);
    }
  }

  function Scale(k: int, c: seq<int>): (r: seq<int>)
    ensures |r| == |c|
  {
    if |c| == 0 then [] else [k * c[0]] + Scale(k, c[1..])
  }

  lemma {:induction false} ScaleEval(k: int, c: seq<int>, z: int)
    ensures Eval(Scale(k, c), z) == k * Eval(c, z)
  {
    if |c| != 0 {
      ScaleEval(k, c[1..], z);
      assert Scale(k, c)[1..] == Scale(k, c[1..]);
      var e := Eval(c[1..], z);
      assert z * (k * e) == k * (z * e);
    }
  }

  /** The coefficients of (z - a) * c(z). */
  function MulLinear(c: seq<int>, a: int): (r: seq<int>)
    ensures |r| == |c| + 1
  {
    Add([0] + c, Scale(-a, c))
  }

  lemma MulLinearEval(c: seq<int>, a: int, z: int)
    ensures Eval(MulLinear(c, a), z) == (z - a) * Eval(c, z)
  {
    AddEval([0] + c, Scale(-a, c), z);
    ScaleEval(-a, c, z);
    assert ([0] + c)[1..] == c;
  }

  /** Synthetic division by (z - r): the quotient has one coefficient fewer. */
  function Quot(c: seq<int>, r: int): (q: seq<int>)
    requires |c| >= 1
    ensures |q| == |c| - 1
  {
    if |c| == 1 then [] else [Eval(c[1..], r)] + Quot(c[1..], r)
  }

  /** Division with remainder by (z - r): the remainder is c(r). */
  lemma {:induction false} QuotEval(c: seq<int>, r: int, z: int)
    requires |c| >= 1
    ensures Eval(c, z) == (z - r) * Eval(Quot(c, r), z) + Eval(c, r)
  {
    if |c| > 1 {
      var c' := c[1..];
      QuotEval(c', r, z);
      var q' := Quot(c', r);
      assert Quot(c, r)[1..] == q';
      var e, f := Eval(c', r), Eval(q', z);
      assert Eval(Quot(c, r), z) == e + z * f;
      assert Eval(c, r) == c[0] + r * e;
      assert Eval(c, z) == c[0] + z * Eval(c', z);
      QuotAlgebra(z, r, e, f, c[0]);
    }
  }

  lemma QuotAlgebra(z: int, r: int, e: int, f: int, a: int)
    ensures (z - r) * (e + z * f) + (a + r * e) == a + z * ((z - r) * f + e)
  {
  }

  /** The elements of xs are pairwise distinct modulo p. */
  ghost predicate DistinctMod(xs: seq<int>, p: int)
    requires p > 0
  {
    forall i, j :: 0 <= i < j < |xs| ==> xs[i] % p != xs[j] % p
  }

  lemma DistinctModTail(xs: seq<int>, p: int)
    requires p > 0 && |xs| > 0 && DistinctMod(xs, p)
    ensures DistinctMod(xs[1..], p)
  {
    forall i, j | 0 <= i < j < |xs[1..]| ensures xs[1..][i] % p != xs[1..][j] % p {
      assert xs[1..][i] == xs[i + 1] && xs[1..][j] == xs[j + 1];
    }
  }

  /** Dividing out a root r leaves a quotient that keeps every other root s. */
  lemma QuotKeepsRoot(c: seq<int>, r: int, s: int, p: int)
    requires IsPrime(p) && |c| >= 1 && s % p != r % p
    requires Eval(c, r) % p == 0 && Eval(c, s) % p == 0
    ensures Eval(Quot(c, r), s) % p == 0
  {
    var q := Eval(Quot(c, r), s);
    QuotEval(c, r, s);
    ModDiffZero(Eval(c, s), Eval(c, r), p);
    assert Eval(c, s) - Eval(c, r) == (s - r) * q;
    ModDiffZero(s, r, p);
    EuclidLemma(p, s - r, q);
  }

  /** If the quotient by (z - r) vanishes at z and c vanishes at r, c vanishes at z. */
  lemma QuotVanishes(c: seq<int>, r: int, z: int, p: int)
    requires p > 0 && |c| >= 1
    requires Eval(c, r) % p == 0 && Eval(Quot(c, r), z) % p == 0
    ensures Eval(c, z) % p == 0
  {
    var q := Eval(Quot(c, r), z);
    QuotEval(c, r, z);
    ModZeroMul(q, z - r, p);
    assert (z - r) * q == q * (z - r);
    ModCongAdd((z - r) * q, 0, Eval(c, r), 0, p);
  }

  /** Modulo a prime, a polynomial with at most n coefficients that vanishes at
      n points distinct modulo p vanishes everywhere. */
  lemma {:induction false} RootsVanish(c: seq<int>, rs: seq<int>, p: int, z: int)
    requires IsPrime(p) && |c| <= |rs| && DistinctMod(rs, p)
    requires forall k :: 0 <= k < |rs| ==> Eval(c, rs[k]) % p == 0
    ensures Eval(c, z) % p == 0
    decreases |c|
  {
    if |c| > 0 {
      var r := rs[0];
      var q := Quot(c, r);
      forall k | 0 <= k < |rs[1..]| ensures Eval(q, rs[1..][k]) % p == 0 {
        assert rs[1..][k] == rs[k + 1];
        QuotKeepsRoot(c, r, rs[k + 1], p);
      }
      DistinctModTail(rs, p);
      RootsVanish(q, rs[1..], p, z);
      QuotVanishes(c, r, z, p);
    }
  }
}
