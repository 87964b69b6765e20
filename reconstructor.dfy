/** Recovering the secret (ss.py:54-73, ss.py:137-155): Lagrange interpolation
    modulo a prime, evaluated at 0 to give the intercept of the polynomial. */
module Reconstructor {
  import opened Results
  import opened ModArith
  import opened FieldArithmetic
  import opened Polynomials
  import opened PrimeRegistry

  /** The first components of zip(*points) (ss.py:56, ss.py:150). */
  function XValues(points: seq<Point>): (xs: seq<int>)
    ensures |xs| == |points| && forall k :: 0 <= k < |points| ==> xs[k] == points[k].x
  {
    seq(|points|, k requires 0 <= k < |points| => points[k].x)
  }

  /** The second components of zip(*points). */
  function YValues(points: seq<Point>): (ys: seq<int>)
    ensures |ys| == |points| && forall k :: 0 <= k < |points| ==> ys[k] == points[k].y
  {
    seq(|points|, k requires 0 <= k < |points| => points[k].y)
  }

  // ---------------------------------------------------------------------------
  // The Lagrange basis, exactly over the integers

  /** The product of (z - xs[j]) over j < n with j != i. */
  function ProdExcept(xs: seq<int>, i: int, z: int, n: nat): int
    requires n <= |xs|
  {
    if n == 0 then 1
    else if n - 1 == i then ProdExcept(xs, i, z, n - 1)
    else ProdExcept(xs, i, z, n - 1) * (z - xs[n - 1])
  }

  /** The coefficients of the same product as a polynomial in z. */
  function BasisPoly(xs: seq<int>, i: int, n: nat): seq<int>
    requires n <= |xs|
  {
    if n == 0 then [1]
    else if n - 1 == i then BasisPoly(xs, i, n - 1)
    else MulLinear(BasisPoly(xs, i, n - 1), xs[n - 1])
  }

  lemma {:induction false} BasisPolyLength(xs: seq<int>, i: int, n: nat)
    requires n <= |xs|
    ensures |BasisPoly(xs, i, n)| == if 0 <= i < n then n else n + 1
  {
    if n > 0 {
      BasisPolyLength(xs, i, n - 1);
    }
  }

  lemma {:induction false} BasisPolyEval(xs: seq<int>, i: int, n: nat, z: int)
    requires n <= |xs|
    ensures Eval(BasisPoly(xs, i, n), z) == ProdExcept(xs, i, z, n)
  {
    if n > 0 && n - 1 != i {
      var b := BasisPoly(xs, i, n - 1);
      BasisPolyEval(xs, i, n - 1, z);
      MulLinearEval(b, xs[n - 1], z);
      MulStep(Eval(b, z), ProdExcept(xs, i, z, n - 1), z - xs[n - 1]);
    } else if n > 0 {
      BasisPolyEval(xs, i, n - 1, z);
    }
  }

  /** Equal factors give equal products, in either order. */
  lemma MulStep(e: int, q: int, d: int)
    requires e == q
    ensures d * e == q * d
  {
  }

  /** The basis product for i vanishes at every other node xs[k]. */
  lemma {:induction false} ProdExceptVanishes(xs: seq<int>, i: int, k: int, n: nat)
    requires 0 <= k < n <= |xs| && k != i
    ensures ProdExcept(xs, i, xs[k], n) == 0
  {
    if k < n - 1 {
      ProdExceptVanishes(xs, i, k, n - 1);
    }
  }

  /** At its own node the basis product is not a multiple of the prime. */
  lemma {:induction false} ProdExceptNonzero(xs: seq<int>, i: int, p: int, n: nat)
    requires IsPrime(p) && DistinctMod(xs, p) && 0 <= i < |xs| && n <= |xs|
    ensures ProdExcept(xs, i, xs[i], n) % p != 0
  {
    if n == 0 {
      ModUnique(1, p, 0, 1);
    } else {
      ProdExceptNonzero(xs, i, p, n - 1);
      if n - 1 != i {
        assert xs[i] % p != xs[n - 1] % p;
        ModDiffZero(xs[i], xs[n - 1], p);
        ProductNonzero(p, ProdExcept(xs, i, xs[i], n - 1), xs[i] - xs[n - 1]);
      }
    }
  }

  /** y_i times the inverse of the basis product at its own node. */
  function Weight(xs: seq<int>, ys: seq<int>, p: int, i: int): int
    requires p > 0 && 0 <= i < |xs| && |ys| == |xs|
  {
    ys[i] * ModInverse(ProdExcept(xs, i, xs[i], |xs|), p)
  }

  /** The weights of the Lagrange form, one per node. */
  function Weights(xs: seq<int>, ys: seq<int>, p: int): (ws: seq<int>)
    requires p > 0 && |ys| == |xs|
    ensures |ws| == |xs| && forall i :: 0 <= i < |xs| ==> ws[i] == Weight(xs, ys, p, i)
  {
    seq(|xs|, i requires 0 <= i < |xs| => Weight(xs, ys, p, i))
  }

  /** The coefficients of the weighted sum over i < n of ws[i] times the basis
      product for node i: at most one coefficient per node. */
  function LagrangePoly(xs: seq<int>, ws: seq<int>, n: nat): (r: seq<int>)
    requires n <= |xs| && |ws| == |xs|
    ensures |r| <= |xs|
  {
    if n == 0 then []
    else
      BasisPolyLength(xs, n - 1, |xs|);
      Add(LagrangePoly(xs, ws, n - 1), Scale(ws[n - 1], BasisPoly(xs, n - 1, |xs|)))
  }

  /** The Lagrange form at z: the sum over i < n of Weight(i) times the basis
      product at z. */
  function LagrangeSum(xs: seq<int>, ys: seq<int>, p: int, z: int, n: nat): int
    requires p > 0 && n <= |xs| && |ys| == |xs|
  {
    Eval(LagrangePoly(xs, Weights(xs, ys, p), n), z)
  }

  /** Each node adds its weight times its basis product to the value. */
  lemma LagrangePolyStep(xs: seq<int>, ws: seq<int>, n: nat, z: int)
    requires 0 < n <= |xs| && |ws| == |xs|
    ensures Eval(LagrangePoly(xs, ws, n), z) ==
      Eval(LagrangePoly(xs, ws, n - 1), z) + ws[n - 1] * ProdExcept(xs, n - 1, z, |xs|)
  {
    BasisPolyEval(xs, n - 1, |xs|, z);
    EvalAddScaled(LagrangePoly(xs, ws, n - 1), ws[n - 1], BasisPoly(xs, n - 1, |xs|), z,
                  Eval(LagrangePoly(xs, ws, n - 1), z), ProdExcept(xs, n - 1, z, |xs|));
  }

  /** Adding a scaled polynomial adds the scaled value. */
  lemma EvalAddScaled(a: seq<int>, w: int, b: seq<int>, z: int, s: int, q: int)
    requires Eval(a, z) == s && Eval(b, z) == q
    ensures Eval(Add(a, Scale(w, b)), z) == s + w * q
  {
    AddEval(a, Scale(w, b), z);
    ScaleEval(w, b, z);
  }

  /** At a node xs[k] only the k-th term of the Lagrange form survives. */
  lemma {:induction false} LagrangePolyAtNode(xs: seq<int>, ws: seq<int>, k: int, n: nat)
    requires 0 <= k < |xs| && n <= |xs| && |ws| == |xs|
    ensures Eval(LagrangePoly(xs, ws, n), xs[k]) ==
      if k < n then ws[k] * ProdExcept(xs, k, xs[k], |xs|) else 0
  {
    if n > 0 {
      LagrangePolyAtNode(xs, ws, k, n - 1);
      LagrangePolyStep(xs, ws, n, xs[k]);
      if n - 1 != k {
        ProdExceptVanishes(xs, n - 1, k, |xs|);
      }
      AtNodeStep(Eval(LagrangePoly(xs, ws, n), xs[k]), Eval(LagrangePoly(xs, ws, n - 1), xs[k]),
                 ws[n - 1], ProdExcept(xs, n - 1, xs[k], |xs|),
                 ws[k], ProdExcept(xs, k, xs[k], |xs|), k, n);
    }
  }

  /** The induction step of LagrangePolyAtNode, as arithmetic on its terms. */
  lemma AtNodeStep(total: int, prev: int, w: int, e: int, wk: int, dk: int, k: int, n: nat)
    requires n > 0 && total == prev + w * e
    requires prev == if k < n - 1 then wk * dk else 0
    requires n - 1 != k ==> e == 0
    requires n - 1 == k ==> w == wk && e == dk
    ensures total == if k < n then wk * dk else 0
  {
  }

  /** The Lagrange form takes the value ys[k] at the node xs[k], modulo p. */
  lemma LagrangeSumAtNode(xs: seq<int>, ys: seq<int>, p: int, k: int)
    requires IsPrime(p) && DistinctMod(xs, p) && 0 <= k < |xs| && |ys| == |xs|
    ensures LagrangeSum(xs, ys, p, xs[k], |xs|) % p == ys[k] % p
  {
    LagrangePolyAtNode(xs, Weights(xs, ys, p), k, |xs|);
    var den := ProdExcept(xs, k, xs[k], |xs|);
    assert LagrangeSum(xs, ys, p, xs[k], |xs|) == ys[k] * ModInverse(den, p) * den;
    ProdExceptNonzero(xs, k, p, |xs|);
    PrimeCoprime(p, den);
    WeightTimesDenominator(ys[k], den, p);
  }

  /** y times the inverse of den, times den, is y modulo p. */
  lemma WeightTimesDenominator(y: int, den: int, p: int)
    requires p > 1 && Coprime(den % p, p)
    ensures (y * ModInverse(den, p) * den) % p == y % p
  {
    var inv := ModInverse(den, p);
    assert (den * inv) % p == 1 % p;
    ModCongMul(y, y, den * inv, 1, p);
    assert y * inv * den == y * (den * inv);
  }

  /** The heart of reconstruction: modulo a prime, the Lagrange form through
      points with pairwise distinct x (mod p) agrees everywhere with any
      polynomial of at most that many coefficients through the same points. */
  lemma LagrangeSumInterpolates(xs: seq<int>, ys: seq<int>, c: seq<int>, p: int, z: int)
    requires IsPrime(p) && DistinctMod(xs, p) && |ys| == |xs| && |c| <= |xs|
    requires forall k :: 0 <= k < |xs| ==> ys[k] % p == Eval(c, xs[k]) % p
    ensures LagrangeSum(xs, ys, p, z, |xs|) % p == Eval(c, z) % p
  {
    var d := Difference(xs, ys, p, c);
    forall k | 0 <= k < |xs| ensures Eval(d, xs[k]) % p == 0 {
      DifferenceEval(xs, ys, p, c, xs[k]);
      LagrangeSumAtNode(xs, ys, p, k);
      ModDiffZero(LagrangeSum(xs, ys, p, xs[k], |xs|), Eval(c, xs[k]), p);
    }
    RootsVanish(d, xs, p, z);
    DifferenceEval(xs, ys, p, c, z);
    ModDiffZero(LagrangeSum(xs, ys, p, z, |xs|), Eval(c, z), p);
  }

  /** The Lagrange polynomial minus c, of at most |xs| coefficients. */
  function Difference(xs: seq<int>, ys: seq<int>, p: int, c: seq<int>): (d: seq<int>)
    requires p > 0 && |ys| == |xs| && |c| <= |xs|
    ensures |d| <= |xs|
  {
    Add(LagrangePoly(xs, Weights(xs, ys, p), |xs|), Scale(-1, c))
  }

  lemma DifferenceEval(xs: seq<int>, ys: seq<int>, p: int, c: seq<int>, w: int)
    requires p > 0 && |ys| == |xs| && |c| <= |xs|
    ensures Eval(Difference(xs, ys, p, c), w) == LagrangeSum(xs, ys, p, w, |xs|) - Eval(c, w)
  {
    AddEval(LagrangePoly(xs, Weights(xs, ys, p), |xs|), Scale(-1, c), w);
    ScaleEval(-1, c, w);
  }

  // ---------------------------------------------------------------------------
  // The loops of modular_lagrange_interpolation

  /** The numerator or denominator of ss.py:61-68 after the inner loop has
      visited j < n: the product of (z - xs[j]) for j != i, reduced modulo p
      at each step. */
  function ProdExceptMod(xs: seq<int>, i: int, z: int, p: int, n: nat): int
    requires p > 0 && n <= |xs|
  {
    if n == 0 then 1
    else if n - 1 == i then ProdExceptMod(xs, i, z, p, n - 1)
    else (ProdExceptMod(xs, i, z, p, n - 1) * (z - xs[n - 1])) % p
  }

  lemma {:induction false} ProdExceptModCong(xs: seq<int>, i: int, z: int, p: int, n: nat)
    requires p > 0 && n <= |xs|
    ensures ProdExceptMod(xs, i, z, p, n) % p == ProdExcept(xs, i, z, n) % p
  {
    if n > 0 {
      ProdExceptModCong(xs, i, z, p, n - 1);
      if n - 1 != i {
        var a := ProdExceptMod(xs, i, z, p, n - 1) * (z - xs[n - 1]);
        ModMod(a, p);
        ModCongMul(ProdExceptMod(xs, i, z, p, n - 1), ProdExcept(xs, i, z, n - 1),
                   z - xs[n - 1], z - xs[n - 1], p);
      }
    }
  }

  /** f_x of ss.py:58-72 after the outer loop has visited i < n. */
  function LagrangeAcc(xs: seq<int>, ys: seq<int>, z: int, p: int, n: nat): (r: int)
    requires p > 0 && n <= |xs| && |ys| == |xs|
    ensures 0 <= r < p
  {
    if n == 0 then 0
    else
      var i := n - 1;
      var numerator := ProdExceptMod(xs, i, z, p, |xs|);
      var denominator := ProdExceptMod(xs, i, xs[i], p, |xs|);
      var lagrangePolynomial := numerator * ModInverse(denominator, p);
      ModMod(p + LagrangeAcc(xs, ys, z, p, n - 1) + ys[i] * lagrangePolynomial, p);
      (p + LagrangeAcc(xs, ys, z, p, n - 1) + ys[i] * lagrangePolynomial) % p
  }

  /** What modular_lagrange_interpolation(z, points, p) returns for a non-empty
      list of points. */
  function LagrangeAt(z: int, points: seq<Point>, p: int): (r: int)
    requires p > 0
    ensures 0 <= r < p
  {
    LagrangeAcc(XValues(points), YValues(points), z, p, |points|)
  }

  /** The value of ModInverse depends only on the residue of its argument. */
  lemma ModInverseCong(a: int, b: int, p: int)
    requires p > 0 && a % p == b % p
    ensures ModInverse(a, p) == ModInverse(b, p)
  {
  }

  /** The loops compute the Lagrange form modulo p. */
  lemma {:induction false} LagrangeAccCong(xs: seq<int>, ys: seq<int>, z: int, p: int, n: nat)
    requires p > 0 && n <= |xs| && |ys| == |xs|
    ensures LagrangeAcc(xs, ys, z, p, n) % p == LagrangeSum(xs, ys, p, z, n) % p
  {
    if n > 0 {
      LagrangeAccCong(xs, ys, z, p, n - 1);
      LagrangeAccStep(xs, ys, z, p, n);
    }
  }

  /** One pass of the outer loop keeps the accumulator congruent to the
      Lagrange form. */
  lemma LagrangeAccStep(xs: seq<int>, ys: seq<int>, z: int, p: int, n: nat)
    requires p > 0 && 0 < n <= |xs| && |ys| == |xs|
    requires LagrangeAcc(xs, ys, z, p, n - 1) % p == LagrangeSum(xs, ys, p, z, n - 1) % p
    ensures LagrangeAcc(xs, ys, z, p, n) % p == LagrangeSum(xs, ys, p, z, n) % p
  {
    var i := n - 1;
    var den := ProdExceptMod(xs, i, xs[i], p, |xs|);
    ProdExceptModCong(xs, i, z, p, |xs|);
    ProdExceptModCong(xs, i, xs[i], p, |xs|);
    ModInverseCong(den, ProdExcept(xs, i, xs[i], |xs|), p);
    LagrangeSumStep(xs, ys, p, z, n);
    AccStep(LagrangeAcc(xs, ys, z, p, i), LagrangeSum(xs, ys, p, z, i), ys[i],
            ProdExceptMod(xs, i, z, p, |xs|), ProdExcept(xs, i, z, |xs|),
            ModInverse(den, p), Weight(xs, ys, p, i), p);
  }

  /** The Lagrange form over n nodes adds the last node's term to the form over n - 1. */
  lemma LagrangeSumStep(xs: seq<int>, ys: seq<int>, p: int, z: int, n: nat)
    requires p > 0 && 0 < n <= |xs| && |ys| == |xs|
    ensures LagrangeSum(xs, ys, p, z, n) ==
      LagrangeSum(xs, ys, p, z, n - 1) + Weight(xs, ys, p, n - 1) * ProdExcept(xs, n - 1, z, |xs|)
  {
    var ws := Weights(xs, ys, p);
    LagrangePolyStep(xs, ws, n, z);
    assert ws[n - 1] == Weight(xs, ys, p, n - 1);
  }

  /** One step of the outer loop, as arithmetic modulo p. */
  lemma AccStep(acc: int, sum: int, y: int, num: int, prod: int, inv: int, w: int, p: int)
    requires p > 0 && acc % p == sum % p && num % p == prod % p && w == y * inv
    ensures (p + acc + y * (num * inv)) % p % p == (sum + w * prod) % p
  {
    var term := y * (num * inv);
    ModCongMul(num, prod, inv, inv, p);
    ModCongMul(y, y, num * inv, prod * inv, p);
    assert y * (prod * inv) == w * prod;
    ModAddMultiple(acc + term, 1, p);
    assert p + acc + term == acc + term + p * 1;
    ModCongAdd(acc, sum, term, w * prod, p);
    ModMod(p + acc + term, p);
  }

  /** Interpolation recovers the polynomial: if the points are samples, modulo
      a prime p, of a polynomial c with at most as many coefficients as there
      are points, and their x values are pairwise distinct modulo p, then
      modular_lagrange_interpolation(z, points, p) is c(z) mod p. */
  lemma InterpolationRecoversPolynomial(points: seq<Point>, c: seq<int>, p: int, z: int)
    requires IsPrime(p) && DistinctMod(XValues(points), p) && |c| <= |points|
    requires forall k :: 0 <= k < |points| ==> points[k].y % p == Eval(c, points[k].x) % p
    ensures LagrangeAt(z, points, p) == Eval(c, z) % p
  {
    var xs, ys := XValues(points), YValues(points);
    forall k | 0 <= k < |xs| ensures ys[k] % p == Eval(c, xs[k]) % p {
      assert ys[k] == points[k].y && xs[k] == points[k].x;
    }
    LagrangeSumInterpolates(xs, ys, c, p, z);
    LagrangeAccCong(xs, ys, z, p, |points|);
    var r := LagrangeAcc(xs, ys, z, p, |points|);
    ModUnique(r, p, 0, r);
  }

  /** The headline property: at x = 0 the interpolation returns the intercept
      c[0] reduced modulo p, which is the secret when it is below p. */
  lemma InterpolationRecoversIntercept(points: seq<Point>, c: seq<int>, p: int)
    requires IsPrime(p) && DistinctMod(XValues(points), p) && 1 <= |c| <= |points|
    requires forall k :: 0 <= k < |points| ==> points[k].y % p == Eval(c, points[k].x) % p
    ensures LagrangeAt(0, points, p) == c[0] % p
  {
    InterpolationRecoversPolynomial(points, c, p, 0);
  }

  /** modular_lagrange_interpolation (ss.py:54-73): the outer loop adds one
      Lagrange term per point, the inner loop builds that term's numerator and
      denominator modulo the prime, skipping j == i. An empty list of points
      cannot be unzipped and is an error. */
  method ModularLagrangeInterpolation(x: int, points: seq<Point>, prime: int) returns (r: Result<int>)
    requires prime > 0
    ensures points == [] <==> r == Failure(EmptyPoints)
    ensures points != [] ==> r == Success(LagrangeAt(x, points, prime))
    ensures r.Success? ==> 0 <= r.value < prime
  {
    if |points| == 0 {
      return Failure(EmptyPoints);
    }
    var xValues, yValues := XValues(points), YValues(points);
    var fx := 0;
    for i := 0 to |points|
      invariant fx == LagrangeAcc(xValues, yValues, x, prime, i)
    {
      var numerator, denominator := 1, 1;
      for j := 0 to |points|
        invariant numerator == ProdExceptMod(xValues, i, x, prime, j)
        invariant denominator == ProdExceptMod(xValues, i, xValues[i], prime, j)
      {
        if i != j {
          numerator := (numerator * (x - xValues[j])) % prime;
          denominator := (denominator * (xValues[i] - xValues[j])) % prime;
        }
      }
      var lagrangePolynomial := numerator * ModInverse(denominator, prime);
      fx := (prime + fx + yValues[i] * lagrangePolynomial) % prime;
    }
    return Success(fx);
  }

  /** The prime points_to_secret_int works with: the caller's, unless it is
      absent or 0 (`if not prime`), else the least table prime strictly above
      every y value (the corrected selection, see LargerPrime). */
  function InferredPrime(points: seq<Point>, prime: Option<int>): (r: Option<int>)
    requires prime.None? || prime.value >= 0
    ensures r.Some? ==> r.value >= 1
    ensures prime.Some? && prime.value != 0 ==> r == prime
    ensures r.Some? && (prime.None? || prime.value == 0) ==>
      r.value in StandardPrimes() && forall k :: 0 <= k < |points| ==> points[k].y < r.value
    ensures r.None? <==>
      (prime.None? || prime.value == 0) && exists k :: 0 <= k < |points| && points[k].y >= Pow2(1279) - 1
  {
    var r := if prime.Some? && prime.value != 0 then prime else LargerPrime(YValues(points));
    InferredPrimeFacts(points, prime, r);
    r
  }

  lemma InferredPrimeFacts(points: seq<Point>, prime: Option<int>, r: Option<int>)
    requires prime.None? || prime.value >= 0
    requires r == if prime.Some? && prime.value != 0 then prime else LargerPrime(YValues(points))
    ensures r.Some? ==> r.value >= 1
    ensures r.Some? && (prime.None? || prime.value == 0) ==>
      r.value in StandardPrimes() && forall k :: 0 <= k < |points| ==> points[k].y < r.value
    ensures r.None? <==>
      (prime.None? || prime.value == 0) && exists k :: 0 <= k < |points| && points[k].y >= Pow2(1279) - 1
  {
    var ys := YValues(points);
    LargerPrimeIsLeast(ys);
    if r.Some? && (prime.None? || prime.value == 0) {
      StandardPrimesAscending();
      StandardPrimesHead();
      var t := StandardPrimes();
      var k :| 0 <= k < |t| && t[k] == r.value;
      assert t[0] <= t[k];
      forall i | 0 <= i < |points| ensures points[i].y < r.value {
        assert ys[i] in ys;
      }
    }
    if prime.None? || prime.value == 0 {
      if exists k :: 0 <= k < |points| && points[k].y >= Pow2(1279) - 1 {
        var k :| 0 <= k < |points| && points[k].y >= Pow2(1279) - 1;
        assert ys[k] in ys;
      }
    }
  }

  /** What points_to_secret_int returns. */
  function SecretOfPoints(points: seq<Point>, prime: Option<int>): (r: Result<int>)
    requires prime.None? || prime.value >= 0
    ensures points == [] ==> r == Failure(EmptyPoints)
    ensures points != [] && InferredPrime(points, prime).None? ==> r == Failure(NoPrimeForPoints)
    ensures r.Success? ==> InferredPrime(points, prime).Some? && 0 <= r.value < InferredPrime(points, prime).value
  {
    if points == [] then Failure(EmptyPoints)
    else match InferredPrime(points, prime)
      case None => Failure(NoPrimeForPoints)
      case Some(p) => Success(LagrangeAt(0, points, p))
  }

  /** points_to_secret_int (ss.py:137-155): unzip the points, infer the prime
      from the y values when none is given (with the corrected selection of
      LargerPrime), and interpolate at x = 0. When the table holds no prime
      large enough, the source reduces modulo None and fails with a TypeError
      at ss.py:67, or at ss.py:16 for a single point; the model reports
      NoPrimeForPoints. */
  method PointsToSecretInt(points: seq<Point>, prime: Option<int>) returns (r: Result<int>)
    requires prime.None? || prime.value >= 0
    ensures r == SecretOfPoints(points, prime)
  {
    if |points| == 0 {
      return Failure(EmptyPoints);
    }
    var p := prime;
    if p.None? || p.value == 0 {
      p := GetLargerPrime(YValues(points));
    }
    if p.None? {
      return Failure(NoPrimeForPoints);
    }
    assert p == InferredPrime(points, prime);
    r := ModularLagrangeInterpolation(0, points, p.value);
  }

  /** Recovery from enough honest points: when the points are samples modulo a
      prime p of a polynomial whose coefficient count does not exceed their
      number, their x values are distinct modulo p, and p is the prime in use,
      points_to_secret_int returns the intercept reduced modulo p. */
  lemma SecretOfPointsRecoversIntercept(points: seq<Point>, prime: Option<int>, c: seq<int>, p: int)
    requires prime.None? || prime.value >= 0
    requires InferredPrime(points, prime) == Some(p)
    requires IsPrime(p) && DistinctMod(XValues(points), p) && 1 <= |c| <= |points|
    requires forall k :: 0 <= k < |points| ==> points[k].y % p == Eval(c, points[k].x) % p
    ensures SecretOfPoints(points, prime) == Success(c[0] % p)
  {
    InterpolationRecoversIntercept(points, c, p);
  }
}
