/** The sharer classes (ss.py:195-261): a sharer is a pair of charsets, one
    for secrets and one for shares, and its two class methods chain decoding,
    splitting or recovering, and encoding. The classes only differ in their
    charsets and nothing is ever updated, so a sharer is a value. */
module SecretSharer {
  import opened Results
  import opened ModArith
  import opened FieldArithmetic
  import opened Polynomials
  import opened PrimeRegistry
  import opened PolynomialSplitter
  import opened Reconstructor
  import opened Codec
  import opened Charsets

  datatype Sharer = Sharer(secretCharset: string, shareCharset: string)

  /** SecretSharer and its five subclasses. */
  const DefaultSharer := Sharer(HexDigits, HexDigits)
  const HexToHex := Sharer(HexDigits, HexDigits)
  const PlaintextToHex := Sharer(Printable, HexDigits)
  const BitcoinToB58 := Sharer(Base58, Base58)
  const BitcoinToB32 := Sharer(Base58, Base32)
  const BitcoinToZB32 := Sharer(Base58, ZBase32)

  /** Every preset meets what splitting and recovering ask of a sharer: a
      secret charset of at least two symbols, and a share charset of at least
      two distinct symbols without the '-' separator. */
  lemma PresetsUsable()
    ensures forall s :: s in [DefaultSharer, HexToHex, PlaintextToHex, BitcoinToB58, BitcoinToB32, BitcoinToZB32] ==>
      |s.secretCharset| >= 2 && |s.shareCharset| >= 2 && Distinct(s.shareCharset) && '-' !in s.shareCharset
  {
    HexDigitsUsable();
    PrintableFacts();
    Base58Usable();
    Base32Usable();
    ZBase32Usable();
  }

  // ---------------------------------------------------------------------------
  // split_secret

  /** split_secret (ss.py:207-214): decode the secret with the secret charset,
      split the integer with the prime chosen from {secret, num_shares}, and
      encode every point with the share charset. */
  method SplitSecret(sharer: Sharer, secret: string, shareThreshold: int, numShares: int)
    returns (r: Result<seq<string>>, ghost coefficients: seq<int>, ghost usedPrime: int)
    requires |sharer.shareCharset| >= 2
    ensures CharsetToInt(secret, sharer.secretCharset).Failure? ==> r == Failure(CharNotInCharset)
    ensures CharsetToInt(secret, sharer.secretCharset).Success? && shareThreshold < 2 ==>
      r == Failure(ThresholdTooSmall)
    ensures CharsetToInt(secret, sharer.secretCharset).Success? && 2 <= shareThreshold && shareThreshold > numShares ==>
      r == Failure(ThresholdExceedsShares)
    ensures (CharsetToInt(secret, sharer.secretCharset).Success? && 2 <= shareThreshold <= numShares &&
             ChosenPrime(CharsetToInt(secret, sharer.secretCharset).value, numShares, None).None?) ==>
      r == Failure(SecretTooLong)
    ensures r.Success? <==>
      && CharsetToInt(secret, sharer.secretCharset).Success?
      && 2 <= shareThreshold <= numShares
      && ChosenPrime(CharsetToInt(secret, sharer.secretCharset).value, numShares, None).Some?
      && '-' !in sharer.shareCharset
    ensures r.Success? ==>
      && usedPrime == ChosenPrime(CharsetToInt(secret, sharer.secretCharset).value, numShares, None).value
      && usedPrime >= 3
      && |coefficients| == shareThreshold
      && coefficients[0] == CharsetToInt(secret, sharer.secretCharset).value
      && (forall i :: 1 <= i < |coefficients| ==> 0 <= coefficients[i] < usedPrime)
      && |r.value| == numShares
      && forall k :: 0 <= k < numShares ==>
           PointToShareString(Point(k + 1, Eval(coefficients, k + 1) % usedPrime), sharer.shareCharset)
             == Success(r.value[k])
  {
    coefficients, usedPrime := [], 0;
    var secretInt := CharsetToInt(secret, sharer.secretCharset);
    if secretInt.Failure? {
      return Failure(secretInt.error), coefficients, usedPrime;
    }
    LargerPrimeAtLeastThree([secretInt.value, numShares]);
    var points;
    points, coefficients, usedPrime := SecretIntToPoints(secretInt.value, shareThreshold, numShares, None);
    if points.Failure? {
      return Failure(points.error), coefficients, usedPrime;
    }
    var shares := EncodeShares(points.value, sharer.shareCharset);
    if shares.Failure? {
      return Failure(shares.error), coefficients, usedPrime;
    }
    return Success(shares.value), coefficients, usedPrime;
  }

  /** The share strings of a list of points, encoded left to right; the first
      point that does not encode decides the error. */
  function EncodePoints(points: seq<Point>, charset: string): (r: Result<seq<string>>)
    requires |charset| >= 2
    ensures r.Success? <==> forall k :: 0 <= k < |points| ==> PointToShareString(points[k], charset).Success?
    ensures r.Success? ==>
      && |r.value| == |points|
      && forall k :: 0 <= k < |points| ==> PointToShareString(points[k], charset) == Success(r.value[k])
    ensures r.Failure? ==> exists k :: 0 <= k < |points| && PointToShareString(points[k], charset) == Failure(r.error)
  {
    if |points| == 0 then Success([])
    else
      var init := points[..|points| - 1];
      assert forall k :: 0 <= k < |init| ==> init[k] == points[k];
      match EncodePoints(init, charset)
        case Failure(e) => Failure(e)
        case Success(shares) =>
          match PointToShareString(points[|points| - 1], charset)
            case Failure(e) => Failure(e)
            case Success(share) => Success(shares + [share])
  }

  /** Once a prefix of the points fails to encode, the whole list fails the
      same way. */
  lemma {:induction false} EncodePointsFailureSticks(points: seq<Point>, charset: string, i: nat)
    requires |charset| >= 2 && i <= |points| && EncodePoints(points[..i], charset).Failure?
    ensures EncodePoints(points, charset) == EncodePoints(points[..i], charset)
    decreases |points| - i
  {
    if i < |points| {
      assert points[..i + 1][..i] == points[..i];
      EncodePointsFailureSticks(points, charset, i + 1);
    } else {
      assert points[..i] == points;
    }
  }

  /** The loop of split_secret that turns every point into a share string
      (ss.py:211-213). */
  method EncodeShares(points: seq<Point>, charset: string) returns (r: Result<seq<string>>)
    requires |charset| >= 2
    ensures r == EncodePoints(points, charset)
  {
    var shares: seq<string> := [];
    for i := 0 to |points|
      invariant EncodePoints(points[..i], charset) == Success(shares)
    {
      assert points[..i + 1][..i] == points[..i];
      var share := PointToShareString(points[i], charset);
      if share.Failure? {
        EncodePointsFailureSticks(points, charset, i + 1);
        return Failure(share.error);
      }
      shares := shares + [share.value];
    }
    assert points[..|points|] == points;
    return Success(shares);
  }

  // ---------------------------------------------------------------------------
  // recover_secret

  /** The points of a list of share strings, decoded left to right; the first
      share that does not decode decides the error. */
  function DecodeShares(shares: seq<string>, charset: string): (r: Result<seq<Point>>)
    ensures r.Success? <==> forall k :: 0 <= k < |shares| ==> ShareStringToPoint(shares[k], charset).Success?
    ensures r.Success? ==>
      && |r.value| == |shares|
      && forall k :: 0 <= k < |shares| ==> ShareStringToPoint(shares[k], charset) == Success(r.value[k])
  {
    if |shares| == 0 then Success([])
    else
      var init := shares[..|shares| - 1];
      assert forall k :: 0 <= k < |init| ==> init[k] == shares[k];
      match DecodeShares(init, charset)
        case Failure(e) => Failure(e)
        case Success(points) =>
          match ShareStringToPoint(shares[|shares| - 1], charset)
            case Failure(e) => Failure(e)
            case Success(point) => Success(points + [point])
  }

  /** Once a prefix of the shares fails to decode, the whole list fails the
      same way. */
  lemma {:induction false} DecodeSharesFailureSticks(shares: seq<string>, charset: string, i: nat)
    requires i <= |shares| && DecodeShares(shares[..i], charset).Failure?
    ensures DecodeShares(shares, charset) == DecodeShares(shares[..i], charset)
    decreases |shares| - i
  {
    if i < |shares| {
      assert shares[..i + 1][..i] == shares[..i];
      DecodeSharesFailureSticks(shares, charset, i + 1);
    } else {
      assert shares[..i] == shares;
    }
  }

  /** What recover_secret returns: it fails exactly when a share does not
      decode or no secret integer comes out of the points, and otherwise is a
      non-empty string over the secret charset. */
  function RecoveredSecret(sharer: Sharer, shares: seq<string>): (r: Result<string>)
    requires |sharer.secretCharset| >= 2
    ensures DecodeShares(shares, sharer.shareCharset).Failure? ==>
      r == Failure(DecodeShares(shares, sharer.shareCharset).error)
    ensures r.Success? <==>
      DecodeShares(shares, sharer.shareCharset).Success?
      && SecretOfPoints(DecodeShares(shares, sharer.shareCharset).value, None).Success?
    ensures r.Success? ==> |r.value| >= 1 && forall c :: c in r.value ==> c in sharer.secretCharset
  {
    match DecodeShares(shares, sharer.shareCharset)
      case Failure(e) => Failure(e)
      case Success(points) =>
        match SecretOfPoints(points, None)
          case Failure(e) => Failure(e)
          case Success(v) => IntToCharset(v, sharer.secretCharset)
  }

  /** recover_secret (ss.py:216-223): decode every share with the share
      charset, recover the secret integer with the prime inferred from the y
      values, and encode it with the secret charset. */
  method RecoverSecret(sharer: Sharer, shares: seq<string>) returns (r: Result<string>)
    requires |sharer.secretCharset| >= 2
    ensures r == RecoveredSecret(sharer, shares)
  {
    var points: seq<Point> := [];
    for i := 0 to |shares|
      invariant DecodeShares(shares[..i], sharer.shareCharset) == Success(points)
    {
      assert shares[..i + 1][..i] == shares[..i];
      var point := ShareStringToPoint(shares[i], sharer.shareCharset);
      if point.Failure? {
        DecodeSharesFailureSticks(shares, sharer.shareCharset, i + 1);
        return Failure(point.error);
      }
      points := points + [point.value];
    }
    assert shares[..|shares|] == shares;
    var secretInt := PointsToSecretInt(points, None);
    if secretInt.Failure? {
      return Failure(secretInt.error);
    }
    r := IntToCharset(secretInt.value, sharer.secretCharset);
  }

  // ---------------------------------------------------------------------------
  // Recovering what was split

  /** Distinct values in [0, p) are distinct modulo p. */
  lemma DistinctBelowPrime(xs: seq<int>, p: int)
    requires p > 0 && forall k :: 0 <= k < |xs| ==> 0 <= xs[k] < p
    requires forall i, j :: 0 <= i < j < |xs| ==> xs[i] != xs[j]
    ensures DistinctMod(xs, p)
  {
    forall i, j | 0 <= i < j < |xs| ensures xs[i] % p != xs[j] % p {
      ModUnique(xs[i], p, 0, xs[i]);
      ModUnique(xs[j], p, 0, xs[j]);
    }
  }

  /** Recovery from enough shares (the conditional end-to-end property of
      split_secret and recover_secret): take share strings encoding samples
      (x, c(x) mod p) of a polynomial c, at distinct x in [0, p), at least as
      many as c has coefficients; if p is prime and is also the prime that
      recovery infers from the y values, recover_secret returns the encoding
      of c's intercept modulo p. */
  lemma RecoverFromEnoughShares(sharer: Sharer, shares: seq<string>, points: seq<Point>, c: seq<int>, p: int)
    requires |sharer.secretCharset| >= 2 && |sharer.shareCharset| >= 2
    requires Distinct(sharer.shareCharset) && '-' !in sharer.shareCharset
    requires IsPrime(p) && 1 <= |c| <= |points| && |shares| == |points|
    requires forall k :: 0 <= k < |points| ==> 0 <= points[k].x < p && points[k].y == Eval(c, points[k].x) % p
    requires forall i, j :: 0 <= i < j < |points| ==> points[i].x != points[j].x
    requires forall k :: 0 <= k < |points| ==> PointToShareString(points[k], sharer.shareCharset) == Success(shares[k])
    requires LargerPrime(YValues(points)) == Some(p)
    ensures RecoveredSecret(sharer, shares) == IntToCharset(c[0] % p, sharer.secretCharset)
  {
    DecodeEncodedShares(shares, points, sharer.shareCharset);
    SamplesRecoverIntercept(points, c, p);
  }

  /** Samples at distinct x in [0, p) of a polynomial modulo p, whose
      inferred prime is p, give back its intercept modulo p. */
  lemma SamplesRecoverIntercept(points: seq<Point>, c: seq<int>, p: int)
    requires IsPrime(p) && 1 <= |c| <= |points|
    requires forall k :: 0 <= k < |points| ==> 0 <= points[k].x < p && points[k].y == Eval(c, points[k].x) % p
    requires forall i, j :: 0 <= i < j < |points| ==> points[i].x != points[j].x
    requires LargerPrime(YValues(points)) == Some(p)
    ensures SecretOfPoints(points, None) == Success(c[0] % p)
  {
    DistinctBelowPrime(XValues(points), p);
    forall k | 0 <= k < |points| ensures points[k].y % p == Eval(c, points[k].x) % p {
      ModMod(Eval(c, points[k].x), p);
    }
    SecretOfPointsRecoversIntercept(points, None, c, p);
  }

  /** Share strings of points decode to those points, in order. */
  lemma DecodeEncodedShares(shares: seq<string>, points: seq<Point>, charset: string)
    requires |charset| >= 2 && Distinct(charset) && '-' !in charset && |shares| == |points|
    requires forall k :: 0 <= k < |points| ==> PointToShareString(points[k], charset) == Success(shares[k])
    ensures DecodeShares(shares, charset) == Success(points)
  {
    forall k | 0 <= k < |points| ensures ShareStringToPoint(shares[k], charset) == Success(points[k]) {
      ShareStringRoundTrip(points[k], charset);
    }
    var decoded := DecodeShares(shares, charset);
    assert decoded.value == points;
  }

  // ---------------------------------------------------------------------------
  // A secret that is itself a table prime

  lemma SevenIsPrime()
    ensures IsPrime(7)
  {
    forall d | 1 < d < 7 ensures !Divides(d, 7) {
      assert d == 2 || d == 3 || d == 4 || d == 5 || d == 6;
    }
  }

  /** A point with both coordinates in [1, 16) is the share "x-y" of two hex digits. */
  lemma HexShare(x: nat, y: nat)
    requires 1 <= x < 16 && 1 <= y < 16
    ensures PointToShareString(Point(x, y), HexDigits) == Success([HexDigits[x], '-', HexDigits[y]])
  {
    HexDigitsUsable();
    HexDigit(x);
    HexDigit(y);
    assert [HexDigits[x]] + "-" + [HexDigits[y]] == [HexDigits[x], '-', HexDigits[y]];
  }

  lemma HexDigit(d: nat)
    requires 1 <= d < 16
    ensures IntToCharset(d, HexDigits) == Success([HexDigits[d]])
  {
    HexDigitsUsable();
    assert |HexDigits| == 16;
    assert d / 16 == 0 && d % 16 == d;
    assert Digits(0, HexDigits) == [];
    assert Digits(d, HexDigits) == Digits(0, HexDigits) + [HexDigits[d]];
    assert Digits(0, HexDigits) + [HexDigits[d]] == [HexDigits[d]];
  }

  lemma EvalLine(a: int, b: int, z: int)
    ensures Eval([a, b], z) == a + b * z
  {
    assert [a, b][1..] == [b];
    assert [b][1..] == [];
    assert Eval([b], z) == b;
  }

  lemma SevenDecodes()
    ensures CharsetToInt("7", HexDigits) == Success(7)
  {
    HexDigitsUsable();
    assert "7"[..0] == "";
    assert CharsetToInt("", HexDigits) == Success(0);
    assert "7"[0] == HexDigits[7];
    IndexOfDistinct(HexDigits, 7);
    assert IndexOf(HexDigits, '7') == Some(7);
  }

  /** The three shares of the line 7 + 2x modulo 7, at x = 1, 2, 3. */
  lemma SevenShares()
    ensures PointToShareString(Point(1, 2), HexDigits) == Success("1-2")
    ensures PointToShareString(Point(2, 4), HexDigits) == Success("2-4")
    ensures PointToShareString(Point(3, 6), HexDigits) == Success("3-6")
  {
    HexShare(1, 2);
    HexShare(2, 4);
    HexShare(3, 6);
    HexDigitChars();
  }

  lemma HexDigitChars()
    ensures HexDigits[1] == '1' && HexDigits[2] == '2' && HexDigits[3] == '3'
    ensures HexDigits[4] == '4' && HexDigits[6] == '6'
  {
  }

  /** The line 7 + 2x modulo 7 at x = 1, 2, 3. */
  lemma SevenLine()
    ensures Eval([7, 2], 1) % 7 == 2 && Eval([7, 2], 2) % 7 == 4 && Eval([7, 2], 3) % 7 == 6
  {
    EvalLine(7, 2, 1);
    EvalLine(7, 2, 2);
    EvalLine(7, 2, 3);
  }

  /** The first two shares are samples of the line modulo 7. */
  lemma SevenPointsSample(points: seq<Point>)
    requires points == [Point(1, 2), Point(2, 4)]
    ensures forall k :: 0 <= k < |points| ==> 0 <= points[k].x < 7 && points[k].y == Eval([7, 2], points[k].x) % 7
  {
    EvalLine(7, 2, 1);
    EvalLine(7, 2, 2);
  }

  /** The first two shares, as the points recovery decodes. */
  lemma SevenPointsEncode(points: seq<Point>)
    requires points == [Point(1, 2), Point(2, 4)]
    ensures forall k :: 0 <= k < |points| ==> PointToShareString(points[k], HexDigits) == Success(["1-2", "2-4"][k])
  {
    SevenShares();
  }

  /** The value 0 is written as the single digit "0". */
  lemma ZeroEncodes()
    ensures IntToCharset(0, HexDigits) == Success("0")
  {
    assert Digits(0, HexDigits) == [];
  }

  lemma SevenSharesRecoverZero()
    ensures RecoveredSecret(DefaultSharer, ["1-2", "2-4"]) == Success("0")
  {
    var points := [Point(1, 2), Point(2, 4)];
    SevenPointsSample(points);
    SevenPointsEncode(points);
    assert YValues(points) == [2, 4];
    LargerPrimeOfTwoFour();
    HexDigitsUsable();
    SevenIsPrime();
    RecoverFromEnoughShares(DefaultSharer, ["1-2", "2-4"], points, [7, 2], 7);
    assert 7 % 7 == 0;
    ZeroEncodes();
  }

  /** The secret "7" split 2-of-3 by the hex sharer, as written: the prime
      get_large_enough_prime chooses from {7, 3} is 7 itself, so the
      polynomial 7 + 2x gives the shares "1-2", "2-4" and "3-6", and the first
      two of them recover "0", not "7" (recovery infers 7 from the y values
      [2, 4] under either selection). */
  lemma SplitOfSevenRecoversZero()
    ensures CharsetToInt("7", DefaultSharer.secretCharset) == Success(7)
    ensures LargeEnoughPrime([7, 3]) == Some(7) && LargeEnoughPrime([2, 4]) == Some(7)
    ensures PointToShareString(Point(1, Eval([7, 2], 1) % 7), DefaultSharer.shareCharset) == Success("1-2")
    ensures PointToShareString(Point(2, Eval([7, 2], 2) % 7), DefaultSharer.shareCharset) == Success("2-4")
    ensures PointToShareString(Point(3, Eval([7, 2], 3) % 7), DefaultSharer.shareCharset) == Success("3-6")
    ensures RecoveredSecret(DefaultSharer, ["1-2", "2-4"]) == Success("0")
  {
    SevenDecodes();
    LargeEnoughPrimeAcceptsEqual();
    SevenLine();
    SevenShares();
    SevenSharesRecoverZero();
  }

  /** With the corrected prime choice (the least table prime strictly above the
      secret and the share count) the split secret comes back exactly: shares
      of a canonical secret string, at distinct x in [1, n], at least as many
      as the threshold, recover that string, provided the chosen prime is
      prime and is the one recovery infers. */
  lemma CorrectedPrimeRecoversSecret(sharer: Sharer, secret: string, numShares: int,
                                     shares: seq<string>, points: seq<Point>, c: seq<int>, p: int)
    requires |sharer.secretCharset| >= 2 && |sharer.shareCharset| >= 2
    requires Distinct(sharer.shareCharset) && '-' !in sharer.shareCharset
    requires |secret| >= 1 && (|secret| == 1 || secret[0] != sharer.secretCharset[0])
    requires 1 <= |c| && CharsetToInt(secret, sharer.secretCharset) == Success(c[0])
    requires ChosenPrime(c[0], numShares, None) == Some(p) && IsPrime(p)
    requires |c| <= |points| && |shares| == |points|
    requires forall k :: 0 <= k < |points| ==> 1 <= points[k].x <= numShares && points[k].y == Eval(c, points[k].x) % p
    requires forall i, j :: 0 <= i < j < |points| ==> points[i].x != points[j].x
    requires forall k :: 0 <= k < |points| ==> PointToShareString(points[k], sharer.shareCharset) == Success(shares[k])
    requires LargerPrime(YValues(points)) == Some(p)
    ensures RecoveredSecret(sharer, shares) == Success(secret)
  {
    LargerPrimeIsLeast([c[0], numShares]);
    assert c[0] in [c[0], numShares] && numShares in [c[0], numShares];
    RecoverFromEnoughShares(sharer, shares, points, c, p);
    ModUnique(c[0], p, 0, c[0]);
    EncodeDecode(secret, sharer.secretCharset);
  }

  /** With the corrected selection the secret 7 and three shares get the
      prime 31, strictly above the secret. */
  lemma SevenGetsThirtyOne()
    ensures ChosenPrime(7, 3, None) == Some(31)
  {
    LargerPrimeOfSevenThree();
  }
}
