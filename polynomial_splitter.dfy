/** Splitting a secret integer into points (ss.py:24-51, ss.py:118-134): a
    polynomial whose intercept is the secret and whose other coefficients are
    drawn at random, sampled at x = 1 .. num_points modulo a prime. */
module PolynomialSplitter {
  import opened Results
  import opened ModArith
  import opened Polynomials
  import opened PrimeRegistry

  /** random_polynomial (ss.py:24-33). The random source (secure_randint, ss.py:31)
      is a nondeterministic choice in [0, upper_bound); it raises on the empty
      range, which the first draw meets when upper_bound < 1. */
  method RandomPolynomial(degree: int, intercept: int, upperBound: int) returns (r: Result<seq<int>>)
    ensures degree < 0 ==> r == Failure(NegativeDegree)
    ensures degree > 0 && upperBound < 1 ==> r == Failure(EmptyRandomRange)
    ensures r.Success? <==> degree == 0 || (degree > 0 && upperBound >= 1)
    ensures r.Success? ==> |r.value| == degree + 1 && r.value[0] == intercept
    ensures r.Success? ==> forall i :: 1 <= i < |r.value| ==> 0 <= r.value[i] < upperBound
  {
    if degree < 0 {
      return Failure(NegativeDegree);
    }
    var coefficients := [intercept];
    for i := 0 to degree
      invariant |coefficients| == i + 1 && coefficients[0] == intercept
      invariant i > 0 ==> upperBound >= 1
      invariant forall k :: 1 <= k < |coefficients| ==> 0 <= coefficients[k] < upperBound
    {
      if upperBound < 1 {
        return Failure(EmptyRandomRange);
      }
      var randomCoeff :| 0 <= randomCoeff < upperBound;
      coefficients := coefficients + [randomCoeff];
    }
    return Success(coefficients);
  }

  /** The value y holds before the inner loop of get_polynomial_points takes
      coefficient i: the intercept alone at first, then f restricted to its
      first i coefficients, at x, modulo the prime. */
  function PartialValue(c: seq<int>, i: int, x: int, p: int): int
    requires 1 <= i <= |c| && p > 0
  {
    if i == 1 then c[0] else Eval(c[..i], x) % p
  }

  /** One step of the inner loop of get_polynomial_points (ss.py:46-48) adds the
      next monomial modulo the prime. */
  lemma PointStep(c: seq<int>, i: int, x: int, y: int, p: int)
    requires 1 <= i < |c| && p > 0
    requires y == PartialValue(c, i, x, p)
    ensures (y + (c[i] * (Pow(x, i) % p)) % p) % p == PartialValue(c, i + 1, x, p)
  {
    if i == 1 {
      assert c[..1] == [c[0]];
      EvalConstant(c[0], x);
    } else {
      ModMod(Eval(c[..i], x), p);
    }
    assert y % p == Eval(c[..i], x) % p;
    assert c[..i + 1] == c[..i] + [c[i]];
    EvalSnoc(c[..i], c[i], x);
    ModMod(Pow(x, i), p);
    ModCongMul(c[i], c[i], Pow(x, i) % p, Pow(x, i), p);
    ModMod(c[i] * (Pow(x, i) % p), p);
    ModCongAdd(y, Eval(c[..i], x), (c[i] * (Pow(x, i) % p)) % p, c[i] * Pow(x, i), p);
  }

  /** The inner loop of get_polynomial_points (ss.py:43-48): y starts as the
      intercept and each later coefficient adds its term modulo the prime, so y
      is f(x) mod prime, except with a single coefficient, where the loop does
      not run and y is that coefficient, not reduced. */
  method EvaluateAt(coefficients: seq<int>, x: int, prime: int) returns (y: int)
    requires |coefficients| >= 1 && prime > 0
    ensures |coefficients| >= 2 ==> y == Eval(coefficients, x) % prime
    ensures |coefficients| == 1 ==> y == coefficients[0]
  {
    y := coefficients[0];
    for i := 1 to |coefficients|
      invariant y == PartialValue(coefficients, i, x, prime)
    {
      var exponentiation := Pow(x, i) % prime;
      var term := (coefficients[i] * exponentiation) % prime;
      PointStep(coefficients, i, x, y, prime);
      y := (y + term) % prime;
    }
    assert coefficients[..|coefficients|] == coefficients;
  }

  /** get_polynomial_points (ss.py:36-51): the points (x, f(x) mod prime) for
      x = 1 .. num_points in order. With a single coefficient the inner loop
      does not run and y is that coefficient, not reduced. */
  method GetPolynomialPoints(coefficients: seq<int>, numPoints: int, prime: int) returns (points: seq<Point>)
    requires |coefficients| >= 1 && prime > 0
    ensures |points| == Max(numPoints, 0)
    ensures forall k :: 0 <= k < |points| ==> points[k].x == k + 1
    ensures |coefficients| >= 2 ==>
      forall k :: 0 <= k < |points| ==> points[k].y == Eval(coefficients, k + 1) % prime
    ensures |coefficients| == 1 ==>
      forall k :: 0 <= k < |points| ==> points[k].y == coefficients[0]
  {
    points := [];
    var x := 1;
    while x < numPoints + 1
      invariant 1 <= x <= Max(numPoints, 0) + 1
      invariant |points| == x - 1
      invariant forall k :: 0 <= k < |points| ==> points[k].x == k + 1
      invariant |coefficients| >= 2 ==>
        forall k :: 0 <= k < |points| ==> points[k].y == Eval(coefficients, k + 1) % prime
      invariant |coefficients| == 1 ==>
        forall k :: 0 <= k < |points| ==> points[k].y == coefficients[0]
    {
      var y := EvaluateAt(coefficients, x, prime);
      points := points + [Point(x, y)];
      x := x + 1;
    }
  }

  /** The prime secret_int_to_points works with: the caller's, unless it is
      absent or 0 (`if not prime`), else the least table prime strictly above
      both the secret and n. As written, ss.py:129 accepts a prime equal to
      the secret (LargeEnoughPrime); the model uses the corrected selection
      LargerPrime, so that the secret survives reduction modulo the prime. */
  function ChosenPrime(secretInt: int, numPoints: int, prime: Option<int>): (r: Option<int>)
    ensures prime.Some? && prime.value != 0 ==> r == prime
    ensures (prime.None? || prime.value == 0) && r.Some? ==>
      r.value in StandardPrimes() && secretInt < r.value && numPoints < r.value
    ensures r.None? <==>
      (prime.None? || prime.value == 0) && (secretInt >= Pow2(1279) - 1 || numPoints >= Pow2(1279) - 1)
  {
    if prime.Some? && prime.value != 0 then prime
    else
      LargerPrimeIsLeast([secretInt, numPoints]);
      assert secretInt in [secretInt, numPoints] && numPoints in [secretInt, numPoints];
      LargerPrime([secretInt, numPoints])
  }

  /** secret_int_to_points (ss.py:118-134). It fails when the threshold is below
      2, when it exceeds the number of points, or when no prime is found;
      otherwise it returns num_points points sampled at x = 1 .. num_points from
      a polynomial with threshold-many coefficients, whose intercept is the
      secret and whose other coefficients lie in [0, prime). */
  method SecretIntToPoints(secretInt: int, pointThreshold: int, numPoints: int, prime: Option<int>)
    returns (r: Result<seq<Point>>, ghost coefficients: seq<int>, ghost usedPrime: int)
    ensures pointThreshold < 2 ==> r == Failure(ThresholdTooSmall)
    ensures 2 <= pointThreshold && pointThreshold > numPoints ==> r == Failure(ThresholdExceedsShares)
    ensures 2 <= pointThreshold <= numPoints && ChosenPrime(secretInt, numPoints, prime).None? ==>
      r == Failure(SecretTooLong)
    ensures r.Success? <==>
      2 <= pointThreshold <= numPoints && ChosenPrime(secretInt, numPoints, prime).Some?
      && ChosenPrime(secretInt, numPoints, prime).value >= 1
    ensures r.Success? ==>
      && usedPrime == ChosenPrime(secretInt, numPoints, prime).value
      && |coefficients| == pointThreshold && coefficients[0] == secretInt
      && (forall i :: 1 <= i < |coefficients| ==> 0 <= coefficients[i] < usedPrime)
      && |r.value| == numPoints
      && forall k :: 0 <= k < numPoints ==> r.value[k] == Point(k + 1, Eval(coefficients, k + 1) % usedPrime)
  {
    coefficients, usedPrime := [], 0;
    if pointThreshold < 2 {
      return Failure(ThresholdTooSmall), coefficients, usedPrime;
    }
    if pointThreshold > numPoints {
      return Failure(ThresholdExceedsShares), coefficients, usedPrime;
    }
    var p := prime;
    if p.None? || p.value == 0 {
      p := GetLargerPrime([secretInt, numPoints]);
    }
    if p.None? {
      return Failure(SecretTooLong), coefficients, usedPrime;
    }
    var poly := RandomPolynomial(pointThreshold - 1, secretInt, p.value);
    if poly.Failure? {
      return Failure(poly.error), coefficients, usedPrime;
    }
    coefficients, usedPrime := poly.value, p.value;
    var points := GetPolynomialPoints(poly.value, numPoints, p.value);
    return Success(points), coefficients, usedPrime;
  }
}
