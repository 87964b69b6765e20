/** The charset codec ss.py imports from utilitybelt (int_to_charset and
    charset_to_int, ss.py:6) and the share-string format built on it
    (point_to_share_string, ss.py:158-175; share_string_to_point,
    ss.py:178-192). A charset is a positional numeral system: its length is
    the base and a symbol's index is its digit value, most significant digit
    first. */
module Codec {
  import opened Results
  import opened ModArith
  import opened Polynomials

  /** A charset whose symbols are pairwise distinct. */
  ghost predicate Distinct(charset: string) {
    forall i, j :: 0 <= i < j < |charset| ==> charset[i] != charset[j]
  }

  /** str.index: the position of the first occurrence of ch, if any. */
  function IndexOf(s: string, ch: char): (r: Option<nat>)
    ensures r.Some? ==> r.value < |s| && s[r.value] == ch && forall k :: 0 <= k < r.value ==> s[k] != ch
    ensures r.None? <==> ch !in s
  {
    if |s| == 0 then None
    else if s[0] == ch then Some(0)
    else match IndexOf(s[1..], ch)
      case None => None
      case Some(k) => Some(k + 1)
  }

  /** In a distinct charset, the index of the symbol at position d is d. */
  lemma IndexOfDistinct(charset: string, d: nat)
    requires Distinct(charset) && d < |charset|
    ensures IndexOf(charset, charset[d]) == Some(d)
  {
    var r := IndexOf(charset, charset[d]);
    if r.value < d {
      assert false;
    }
  }

  /** The digits of a positive value, most significant first; empty for 0. */
  function Digits(v: nat, charset: string): (r: string)
    requires |charset| >= 2
    ensures forall c :: c in r ==> c in charset
    ensures |r| == 0 <==> v == 0
    decreases v
  {
    if v == 0 then []
    else
      var r := Digits(v / |charset|, charset) + [charset[v % |charset|]];
      assert r[|r| - 1] in r;
      r
  }

  /** int_to_charset: a negative value is an error, 0 is the zero symbol,
      anything else its digits without leading zeros. */
  function IntToCharset(v: int, charset: string): (r: Result<string>)
    requires |charset| >= 2
    ensures r.Failure? <==> v < 0
    ensures r.Failure? ==> r.error == NegativeValue
    ensures r.Success? ==> |r.value| >= 1 && forall c :: c in r.value ==> c in charset
  {
    if v < 0 then Failure(NegativeValue)
    else if v == 0 then Success([charset[0]])
    else Success(Digits(v, charset))
  }

  /** charset_to_int: fold the digits from the left, value * base + index;
      a symbol outside the charset is an error. */
  function CharsetToInt(s: string, charset: string): (r: Result<nat>)
    ensures r.Success? <==> forall c :: c in s ==> c in charset
    ensures r.Failure? ==> r.error == CharNotInCharset
    decreases |s|
  {
    if |s| == 0 then Success(0)
    else
      var prefix, last := s[..|s| - 1], s[|s| - 1];
      assert s == prefix + [last];
      match CharsetToInt(prefix, charset)
        case Failure(e) => Failure(e)
        case Success(p) =>
          match IndexOf(charset, last)
            case None => Failure(CharNotInCharset)
            case Some(d) => Success(p * |charset| + d)
  }

  /** charset_to_int on a string extended by one symbol. */
  lemma DecodeSnoc(prefix: string, last: char, charset: string)
    requires CharsetToInt(prefix, charset).Success? && last in charset
    ensures CharsetToInt(prefix + [last], charset) ==
      Success(CharsetToInt(prefix, charset).value * |charset| + IndexOf(charset, last).value)
  {
    var s := prefix + [last];
    assert s[..|s| - 1] == prefix;
  }

  /** Decoding the digits of v gives v back. */
  lemma {:induction false} DecodeDigits(v: nat, charset: string)
    requires |charset| >= 2 && Distinct(charset)
    ensures CharsetToInt(Digits(v, charset), charset) == Success(v)
    decreases v
  {
    if v > 0 {
      var b := |charset|;
      var q, d := v / b, v % b;
      DivModRecombine(v, b);
      var digits := Digits(q, charset);
      assert Digits(v, charset) == digits + [charset[d]];
      DecodeDigits(q, charset);
      IndexOfDistinct(charset, d);
      assert charset[d] in charset;
      DecodeSnoc(digits, charset[d], charset);
    }
  }

  lemma DivModRecombine(v: int, b: int)
    requires b > 0
    ensures (v / b) * b + v % b == v && 0 <= v % b < b && (v >= 0 ==> 0 <= v / b)
    ensures b >= 2 && v > 0 ==> v / b < v
  {
    if b >= 2 && v > 0 && v / b > 0 {
      var q := v / b;
      MulPositiveGe(q, b - 1);
      assert q * (b - 1) == q * b - q;
    }
  }

  /** Decoding inverts encoding: charset_to_int(int_to_charset(v)) == v for
      every non-negative v, provided the charset's symbols are distinct. */
  lemma DecodeEncode(v: int, charset: string)
    requires |charset| >= 2 && Distinct(charset) && v >= 0
    ensures CharsetToInt(IntToCharset(v, charset).value, charset) == Success(v)
  {
    if v == 0 {
      var s := [charset[0]];
      assert s[..0] == [];
      IndexOfDistinct(charset, 0);
    } else {
      DecodeDigits(v, charset);
    }
  }

  /** The digits of the decoded value of a string without a leading zero
      symbol are that string. */
  lemma {:induction false} EncodeDigits(s: string, charset: string)
    requires |charset| >= 2 && CharsetToInt(s, charset).Success?
    requires |s| == 0 || s[0] != charset[0]
    ensures Digits(CharsetToInt(s, charset).value, charset) == s
    decreases |s|
  {
    if |s| > 0 {
      var b := |charset|;
      var prefix, last := s[..|s| - 1], s[|s| - 1];
      assert s == prefix + [last];
      assert |prefix| == 0 || prefix[0] == s[0];
      EncodeDigits(prefix, charset);
      var p := CharsetToInt(prefix, charset).value;
      var d := IndexOf(charset, last).value;
      assert p > 0 || d > 0;
      DigitsSnoc(p, d, charset);
    }
  }

  /** Appending a digit d to the digits of p gives the digits of p * b + d. */
  lemma DigitsSnoc(p: nat, d: nat, charset: string)
    requires |charset| >= 2 && d < |charset| && (p > 0 || d > 0)
    ensures Digits(p * |charset| + d, charset) == Digits(p, charset) + [charset[d]]
  {
    var v := p * |charset| + d;
    ModUnique(v, |charset|, p, d);
  }

  /** Encoding inverts decoding on canonical strings: a non-empty string over
      the charset whose first symbol is not the zero symbol (or which is the
      zero symbol alone) is int_to_charset(charset_to_int(s)). */
  lemma EncodeDecode(s: string, charset: string)
    requires |charset| >= 2 && |s| >= 1 && forall c :: c in s ==> c in charset
    requires |s| == 1 || s[0] != charset[0]
    ensures IntToCharset(CharsetToInt(s, charset).value, charset) == Success(s)
  {
    var v := CharsetToInt(s, charset).value;
    if s[0] == charset[0] {
      assert s == [charset[0]];
      assert s[..0] == [];
    } else {
      EncodeDigits(s, charset);
    }
  }

  /** A leading zero symbol is lost: "00" decodes to 0, which encodes as "0". */
  lemma LeadingZeroLost()
    ensures CharsetToInt("00", "0123456789abcdef") == Success(0)
    ensures IntToCharset(0, "0123456789abcdef") == Success("0")
  {
    assert "00"[..1] == "0";
    assert "0"[..0] == "";
  }

  /** How many times ch occurs in s. */
  function Count(s: string, ch: char): (r: nat)
    ensures r == 0 <==> ch !in s
  {
    if |s| == 0 then 0 else (if s[0] == ch then 1 else 0) + Count(s[1..], ch)
  }

  lemma {:induction false} CountConcat(a: string, b: string, ch: char)
    ensures Count(a + b, ch) == Count(a, ch) + Count(b, ch)
    decreases |a|
  {
    if |a| > 0 {
      assert (a + b)[1..] == a[1..] + b;
      CountConcat(a[1..], b, ch);
    } else {
      assert a + b == b;
    }
  }

  /** point_to_share_string: both coordinates in the charset, joined by '-'. */
  function PointToShareString(point: Point, charset: string): (r: Result<string>)
    requires |charset| >= 2
    ensures '-' in charset ==> r == Failure(DashInCharset)
    ensures '-' !in charset && (point.x < 0 || point.y < 0) ==> r == Failure(NegativeValue)
    ensures r.Success? <==> '-' !in charset && point.x >= 0 && point.y >= 0
    ensures r.Success? ==> Count(r.value, '-') == 1
  {
    if '-' in charset then Failure(DashInCharset)
    else match (IntToCharset(point.x, charset), IntToCharset(point.y, charset))
      case (Failure(e), _) => Failure(e)
      case (_, Failure(e)) => Failure(e)
      case (Success(xs), Success(ys)) =>
        CountConcat(xs + "-", ys, '-');
        CountConcat(xs, "-", '-');
        Success(xs + "-" + ys)
  }

  /** The parts of s before and after its first occurrence of ch, which must
      occur in it. */
  lemma {:induction false} SplitAtFirst(s: string, i: nat, ch: char)
    requires i < |s| && s[i] == ch && Count(s, ch) == 1
    ensures ch !in s[..i] && ch !in s[i + 1..]
    ensures forall c :: c in s && c != ch <==> c in s[..i] + s[i + 1..]
  {
    assert s == s[..i] + [ch] + s[i + 1..];
    CountConcat(s[..i] + [ch], s[i + 1..], ch);
    CountConcat(s[..i], [ch], ch);
  }

  /** share_string_to_point: a charset holding '-' is an error; a share whose
      '-' count is not exactly one cannot be split into two halves; a symbol
      outside the charset is an error; otherwise both halves are decoded. */
  function ShareStringToPoint(share: string, charset: string): (r: Result<Point>)
    ensures '-' in charset ==> r == Failure(DashInCharset)
    ensures '-' !in charset && Count(share, '-') != 1 ==> r == Failure(BadShareFormat)
    ensures r.Success? <==>
      '-' !in charset && Count(share, '-') == 1 && forall c :: c in share && c != '-' ==> c in charset
    ensures r.Success? ==> r.value.x >= 0 && r.value.y >= 0
  {
    if '-' in charset then Failure(DashInCharset)
    else if Count(share, '-') != 1 then Failure(BadShareFormat)
    else
      var i := IndexOf(share, '-').value;
      SplitAtFirst(share, i, '-');
      match (CharsetToInt(share[..i], charset), CharsetToInt(share[i + 1..], charset))
        case (Success(x), Success(y)) => Success(Point(x, y))
        case _ => Failure(CharNotInCharset)
  }

  /** Share strings round-trip: over a charset of distinct symbols without
      '-', decoding the share string of a point with non-negative coordinates
      gives the point back. */
  lemma ShareStringRoundTrip(point: Point, charset: string)
    requires |charset| >= 2 && Distinct(charset) && '-' !in charset
    requires point.x >= 0 && point.y >= 0
    ensures ShareStringToPoint(PointToShareString(point, charset).value, charset) == Success(point)
  {
    var xs := IntToCharset(point.x, charset).value;
    var ys := IntToCharset(point.y, charset).value;
    var share := xs + "-" + ys;
    assert PointToShareString(point, charset).value == share;
    assert share[|xs|] == '-';
    var i := IndexOf(share, '-').value;
    if i < |xs| {
      assert false;
    }
    assert share[..|xs|] == xs && share[|xs| + 1..] == ys;
    DecodeEncode(point.x, charset);
    DecodeEncode(point.y, charset);
  }
}
