/** The table of standard primes (ss.py:74-102) and the linear scan that picks
    a modulus large enough for a batch of numbers (ss.py:105-115). Primality of
    the constants is not part of this model: they are integer constants here. */
module PrimeRegistry {
  import opened Results

  /** 2^e, by squaring on even exponents so that a literal power such as
      2^1279 unfolds in a few steps; Pow2Succ gives the doubling step. */
  function Pow2(e: nat): (r: nat)
    ensures r >= 1
  {
    if e == 0 then 1
    else if e % 2 == 1 then 2 * Pow2(e - 1)
    else
      var h := Pow2(e / 2);
      h * h
  }

  lemma {:induction false} Pow2Succ(e: nat)
    ensures Pow2(e + 1) == 2 * Pow2(e)
    decreases e
  {
    if e % 2 == 1 {
      var g := Pow2((e - 1) / 2);
      Pow2Succ((e - 1) / 2);
      assert (e - 1) / 2 + 1 == (e + 1) / 2;
      var h := Pow2((e + 1) / 2);
      assert Pow2(e + 1) == h * h;
      assert Pow2(e) == 2 * (g * g);
      DoubleSquare(g, h);
    }
  }

  lemma DoubleSquare(g: int, h: int)
    requires h == 2 * g
    ensures h * h == 2 * (2 * (g * g))
  {
  }

  /** The exponents of the Mersenne primes in the table (ss.py:84-86). */
  const MersenneExponents: seq<nat> := [2, 3, 5, 7, 13, 17, 19, 31, 61, 89, 107, 127, 521, 607, 1279]

  /** 2^e - 1 for each listed exponent, in the listed order. */
  function MersennePrimes(): seq<int> {
    seq(|MersenneExponents|, k requires 0 <= k < |MersenneExponents| => Pow2(MersenneExponents[k]) - 1)
  }

  /** calculate_mersenne_primes (ss.py:74-94): each entry is built by doubling
      1 exponent-many times and subtracting 1. */
  method CalculateMersennePrimes() returns (primes: seq<int>)
    ensures |primes| == |MersenneExponents|
    ensures forall k :: 0 <= k < |primes| ==> primes[k] == Pow2(MersenneExponents[k]) - 1
    ensures primes == MersennePrimes()
  {
    primes := [];
    for k := 0 to |MersenneExponents|
      invariant |primes| == k
      invariant forall j :: 0 <= j < k ==> primes[j] == Pow2(MersenneExponents[j]) - 1
    {
      var exp := MersenneExponents[k];
      var prime := 1;
      for i := 0 to exp
        invariant prime == Pow2(i)
      {
        Pow2Succ(i);
        prime := prime * 2;
      }
      prime := prime - 1;
      primes := primes + [prime];
    }
  }

  const Smallest257BitPrime: int := Pow2(256) + 297
  const Smallest321BitPrime: int := Pow2(320) + 27
  const Smallest385BitPrime: int := Pow2(384) + 231

  /** The unsorted table: the Mersenne primes followed by the three fixed primes
      (ss.py:99-101). */
  function UnsortedPrimes(): seq<int> {
    MersennePrimes() + [Smallest257BitPrime, Smallest321BitPrime, Smallest385BitPrime]
  }

  /** STANDARD_PRIMES after `.sort()` (ss.py:102): the three fixed primes fall
      between 2^127 - 1 and 2^521 - 1. StandardPrimesIsSortedTable shows that
      this is the one ascending arrangement of UnsortedPrimes(). */
  function StandardPrimes(): seq<int> {
    MersennePrimes()[..12]
      + [Smallest257BitPrime, Smallest321BitPrime, Smallest385BitPrime]
      + MersennePrimes()[12..]
  }

  ghost predicate Ascending(s: seq<int>) {
    forall i, j :: 0 <= i < j < |s| ==> s[i] < s[j]
  }

  ghost predicate NonDecreasing(s: seq<int>) {
    forall i, j :: 0 <= i < j < |s| ==> s[i] <= s[j]
  }

  lemma {:induction false} Pow2Doubles(a: nat, b: nat)
    requires a < b
    ensures Pow2(b) >= 2 * Pow2(a)
    decreases b
  {
    if b > a + 1 {
      Pow2Doubles(a, b - 1);
      Pow2Succ(b - 1);
    } else {
      Pow2Succ(a);
    }
  }

  lemma {:induction false} Pow2AtLeast512(a: nat)
    requires a >= 9
    ensures Pow2(a) >= 512
  {
    assert Pow2(9) == 512;
    if a > 9 {
      Pow2Doubles(9, a);
    }
  }

  lemma {:induction false} AdjacentAscending(s: seq<int>)
    requires forall i :: 0 < i < |s| ==> s[i - 1] < s[i]
    ensures Ascending(s)
  {
    if |s| > 1 {
      AdjacentAscending(s[1..]);
      forall j | 0 < j < |s| ensures s[0] < s[j] {
        assert s[1..][j - 1] == s[j];
        if j > 1 {
          assert s[1..][0] < s[1..][j - 1];
        }
      }
    }
  }

  lemma StandardPrimesLow(i: int)
    requires 0 <= i < 12
    ensures |StandardPrimes()| == 18
    ensures StandardPrimes()[i] == Pow2(MersenneExponents[i]) - 1
  {
  }

  lemma StandardPrimesHigh(i: int)
    requires 15 <= i < 18
    ensures |StandardPrimes()| == 18
    ensures StandardPrimes()[i] == Pow2(MersenneExponents[i - 3]) - 1
  {
  }

  lemma StandardPrimesMiddle()
    ensures |StandardPrimes()| == 18
    ensures StandardPrimes()[12] == Smallest257BitPrime
    ensures StandardPrimes()[13] == Smallest321BitPrime
    ensures StandardPrimes()[14] == Smallest385BitPrime
  {
  }

  lemma StepWithinLow(i: int)
    requires 0 < i < 12
    ensures StandardPrimes()[i - 1] < StandardPrimes()[i]
  {
    StandardPrimesLow(i - 1);
    StandardPrimesLow(i);
    ExponentsAscending(i);
  }

  lemma ExponentsAscending(i: int)
    requires 0 < i < |MersenneExponents|
    ensures Pow2(MersenneExponents[i - 1]) < Pow2(MersenneExponents[i])
  {
    Pow2Doubles(MersenneExponents[i - 1], MersenneExponents[i]);
  }

  lemma StepWithinHigh(i: int)
    requires 15 < i < 18
    ensures StandardPrimes()[i - 1] < StandardPrimes()[i]
  {
    StandardPrimesHigh(i - 1);
    StandardPrimesHigh(i);
    ExponentsAscending(i - 3);
  }

  lemma StepIntoMiddle()
    ensures StandardPrimes()[11] < StandardPrimes()[12]
  {
    StandardPrimesMiddle();
    StandardPrimesLow(11);
    MiddleAboveLow();
  }

  lemma MiddleAboveLow()
    ensures Pow2(MersenneExponents[11]) - 1 < Smallest257BitPrime
  {
    Pow2Doubles(127, 256);
  }

  lemma MiddleBelowHigh()
    ensures Smallest385BitPrime < Pow2(MersenneExponents[12]) - 1
  {
    Pow2Doubles(384, 521);
    Pow2AtLeast512(384);
  }

  lemma StepWithinMiddle()
    ensures StandardPrimes()[12] < StandardPrimes()[13] < StandardPrimes()[14]
  {
    StandardPrimesMiddle();
    Pow2Doubles(256, 320);
    Pow2Doubles(320, 384);
    Pow2AtLeast512(256);
  }

  lemma StepOutOfMiddle()
    ensures StandardPrimes()[14] < StandardPrimes()[15]
  {
    StandardPrimesMiddle();
    StandardPrimesHigh(15);
    MiddleBelowHigh();
  }

  lemma StandardPrimesStep(i: int)
    requires 0 < i < |StandardPrimes()|
    ensures StandardPrimes()[i - 1] < StandardPrimes()[i]
  {
    if i < 12 {
      StepWithinLow(i);
    } else if i == 12 {
      StepIntoMiddle();
    } else if i < 15 {
      StepWithinMiddle();
    } else if i == 15 {
      StepOutOfMiddle();
    } else {
      StepWithinHigh(i);
    }
  }

  lemma StandardPrimesPermutesTable()
    ensures multiset(StandardPrimes()) == multiset(UnsortedPrimes())
  {
    var m := MersennePrimes();
    assert m == m[..12] + m[12..];
  }

  lemma StandardPrimesAscending()
    ensures Ascending(StandardPrimes())
  {
    var s := StandardPrimes();
    forall i | 0 < i < |s| ensures s[i - 1] < s[i] {
      StandardPrimesStep(i);
    }
    AdjacentAscending(s);
  }

  /** The sorted table lists 2^2 - 1, ..., 2^127 - 1, the 257-, 321- and 385-bit
      primes, then 2^521 - 1, 2^607 - 1 and 2^1279 - 1, strictly ascending, and
      holds exactly the entries of the unsorted table. */
  lemma StandardPrimesSorted()
    ensures |StandardPrimes()| == 18
    ensures StandardPrimes()[0] == 3 && StandardPrimes()[1] == 7
    ensures StandardPrimes()[17] == Pow2(1279) - 1
    ensures Ascending(StandardPrimes())
    ensures multiset(StandardPrimes()) == multiset(UnsortedPrimes())
  {
    StandardPrimesPermutesTable();
    StandardPrimesAscending();
    StandardPrimesHead();
    StandardPrimesHigh(17);
  }

  lemma StandardPrimesHead()
    ensures |StandardPrimes()| == 18
    ensures StandardPrimes()[0] == 3 && StandardPrimes()[1] == 7
  {
    StandardPrimesLow(0);
    StandardPrimesLow(1);
    assert MersenneExponents[0] == 2 && MersenneExponents[1] == 3;
    Pow2TwoThree();
  }

  lemma Pow2TwoThree()
    ensures Pow2(2) == 4 && Pow2(3) == 8
  {
    assert Pow2(1) == 2;
  }

  lemma HeadIsLeast(a: seq<int>, v: int)
    requires NonDecreasing(a) && v in multiset(a)
    ensures |a| > 0 && a[0] <= v
  {
    var j :| 0 <= j < |a| && a[j] == v;
    if j > 0 {
      assert a[0] <= a[j];
    }
  }

  lemma MultisetTail(a: seq<int>, b: seq<int>)
    requires |a| > 0 && |b| > 0 && a[0] == b[0] && multiset(a) == multiset(b)
    ensures multiset(a[1..]) == multiset(b[1..])
  {
    assert a == [a[0]] + a[1..] && b == [b[0]] + b[1..];
    assert multiset(a[1..]) == multiset(a) - multiset{a[0]};
    assert multiset(b[1..]) == multiset(b) - multiset{b[0]};
  }

  lemma NonDecreasingTail(a: seq<int>)
    requires |a| > 0 && NonDecreasing(a)
    ensures NonDecreasing(a[1..])
  {
    forall i, j | 0 <= i < j < |a[1..]| ensures a[1..][i] <= a[1..][j] {
      assert a[1..][i] == a[i + 1] && a[1..][j] == a[j + 1];
    }
  }

  /** Sorting is determined by the multiset: two non-decreasing sequences with
      the same elements are equal. */
  lemma {:induction false} SortIsUnique(a: seq<int>, b: seq<int>)
    requires NonDecreasing(a) && NonDecreasing(b) && multiset(a) == multiset(b)
    ensures a == b
    decreases |a|
  {
    assert |a| == |multiset(a)| == |multiset(b)| == |b|;
    if |a| > 0 {
      assert a[0] in multiset(a) && b[0] in multiset(b);
      HeadIsLeast(b, a[0]);
      HeadIsLeast(a, b[0]);
      MultisetTail(a, b);
      NonDecreasingTail(a);
      NonDecreasingTail(b);
      SortIsUnique(a[1..], b[1..]);
      assert a == [a[0]] + a[1..] && b == [b[0]] + b[1..];
    }
  }

  /** STANDARD_PRIMES.sort() (ss.py:102) yields StandardPrimes(): it is the only
      non-decreasing arrangement of the unsorted table. */
  lemma StandardPrimesIsSortedTable(sorted: seq<int>)
    requires NonDecreasing(sorted) && multiset(sorted) == multiset(UnsortedPrimes())
    ensures sorted == StandardPrimes()
  {
    StandardPrimesAscending();
    StandardPrimesPermutesTable();
    SortIsUnique(sorted, StandardPrimes());
  }

  /** [i for i in batch if i > bound] (ss.py:112). */
  function Exceeding(batch: seq<int>, bound: int): (r: seq<int>)
    ensures forall v :: v in r <==> v in batch && v > bound
  {
    if |batch| == 0 then []
    else (if batch[0] > bound then [batch[0]] else []) + Exceeding(batch[1..], bound)
  }

  /** The first entry of the table that no element of the batch exceeds. */
  function FirstCover(table: seq<int>, batch: seq<int>): (r: Option<int>)
    ensures r.Some? ==> r.value in table && forall b :: b in batch ==> b <= r.value
  {
    if |table| == 0 then None
    else if |Exceeding(batch, table[0])| == 0 then Some(table[0])
    else FirstCover(table[1..], batch)
  }

  /** What get_large_enough_prime returns (ss.py:105-115): a table prime that
      is at least every element of the batch. */
  function LargeEnoughPrime(batch: seq<int>): (r: Option<int>)
    ensures r.Some? ==> r.value in StandardPrimes() && forall b :: b in batch ==> b <= r.value
  {
    FirstCover(StandardPrimes(), batch)
  }

  /** The head of an ascending sequence is its least element, strictly below
      the last one when there are two or more. */
  lemma AscendingHeadLeast(s: seq<int>)
    requires Ascending(s) && |s| > 0
    ensures forall q :: q in s ==> s[0] <= q
    ensures |s| > 1 ==> s[0] < s[|s| - 1]
  {
    forall q | q in s ensures s[0] <= q {
      var k :| 0 <= k < |s| && s[k] == q;
      if k > 0 {
        assert s[0] < s[k];
      }
    }
  }

  lemma AscendingTail(s: seq<int>)
    requires Ascending(s) && |s| > 0
    ensures Ascending(s[1..])
  {
    var rest := s[1..];
    forall i, j | 0 <= i < j < |rest| ensures rest[i] < rest[j] {
      assert rest[i] == s[i + 1] && rest[j] == s[j + 1];
    }
  }

  /** Over an ascending table, FirstCover returns the least entry that is at
      least every element of the batch (an element equal to the entry is
      accepted), and None exactly when some element exceeds the last entry. */
  lemma FirstCoverIsLeast(table: seq<int>, batch: seq<int>)
    requires Ascending(table)
    ensures FirstCover(table, batch).Some? ==>
      var p := FirstCover(table, batch).value;
      && p in table
      && (forall b :: b in batch ==> b <= p)
      && (forall q :: q in table && q < p ==> exists b :: b in batch && b > q)
    ensures FirstCover(table, batch).None? <==>
      |table| == 0 || exists b :: b in batch && b > table[|table| - 1]
  {
    FirstCoverNone(table, batch);
    if FirstCover(table, batch).Some? {
      forall q | q in table && q < FirstCover(table, batch).value
        ensures exists b :: b in batch && b > q
      {
        FirstCoverLeast(table, batch, q);
      }
    }
  }

  /** An entry below the one FirstCover returns is exceeded by some element. */
  lemma {:induction false} FirstCoverLeast(table: seq<int>, batch: seq<int>, q: int)
    requires Ascending(table) && FirstCover(table, batch).Some?
    requires q in table && q < FirstCover(table, batch).value
    ensures exists b :: b in batch && b > q
  {
    var t, rest := table[0], table[1..];
    var e := Exceeding(batch, t);
    AscendingHeadLeast(table);
    assert |e| > 0;
    assert e[0] in e;
    if q != t {
      assert q in rest;
      AscendingTail(table);
      FirstCoverLeast(rest, batch, q);
    }
  }

  /** FirstCover finds nothing exactly when the table is empty or some element
      exceeds its last entry. */
  lemma {:induction false} FirstCoverNone(table: seq<int>, batch: seq<int>)
    requires Ascending(table)
    ensures FirstCover(table, batch).None? <==>
      |table| == 0 || exists b :: b in batch && b > table[|table| - 1]
  {
    if |table| > 0 {
      var t, rest := table[0], table[1..];
      var e := Exceeding(batch, t);
      AscendingHeadLeast(table);
      if |e| > 0 {
        assert e[0] in e;
        AscendingTail(table);
        FirstCoverNone(rest, batch);
        if |rest| > 0 {
          assert rest[|rest| - 1] == table[|table| - 1];
        }
      }
    }
  }

  /** get_large_enough_prime returns the smallest tabulated entry p with every
      element of the batch at most p; an element equal to p is accepted
      although the docstring at ss.py:106 asks for a greater prime. It returns
      None exactly when some element exceeds 2^1279 - 1, the largest entry. */
  lemma LargeEnoughPrimeIsLeast(batch: seq<int>)
    ensures LargeEnoughPrime(batch).Some? ==>
      var p := LargeEnoughPrime(batch).value;
      && p in StandardPrimes()
      && (forall b :: b in batch ==> b <= p)
      && (forall q :: q in StandardPrimes() && q < p ==> exists b :: b in batch && b > q)
    ensures LargeEnoughPrime(batch).None? <==> exists b :: b in batch && b > Pow2(1279) - 1
  {
    StandardPrimesAscending();
    StandardPrimesHigh(17);
    FirstCoverIsLeast(StandardPrimes(), batch);
  }

  /** get_large_enough_prime (ss.py:105-115): a linear scan of the sorted table
      with an early return. */
  method GetLargeEnoughPrime(batch: seq<int>) returns (r: Option<int>)
    ensures r == LargeEnoughPrime(batch)
  {
    var primes := StandardPrimes();
    for k := 0 to |primes|
      invariant FirstCover(primes, batch) == FirstCover(primes[k..], batch)
    {
      var greater := Exceeding(batch, primes[k]);
      if |greater| == 0 {
        return Some(primes[k]);
      }
      assert primes[k..][1..] == primes[k + 1..];
    }
    return None;
  }

  // ---------------------------------------------------------------------------
  // The selection the docstring at ss.py:106 describes, which the split and
  // recovery of this model use: a prime strictly greater than every element.

  /** [i for i in batch if i >= bound]: the elements a prime equal to bound
      does not exceed. */
  function AtLeast(batch: seq<int>, bound: int): (r: seq<int>)
    ensures forall v :: v in r <==> v in batch && v >= bound
  {
    if |batch| == 0 then []
    else (if batch[0] >= bound then [batch[0]] else []) + AtLeast(batch[1..], bound)
  }

  /** The first entry of the table strictly greater than every element of the batch. */
  function FirstAbove(table: seq<int>, batch: seq<int>): (r: Option<int>)
    ensures r.Some? ==> r.value in table && forall b :: b in batch ==> b < r.value
  {
    if |table| == 0 then None
    else if |AtLeast(batch, table[0])| == 0 then Some(table[0])
    else FirstAbove(table[1..], batch)
  }

  /** The corrected get_large_enough_prime: the least tabulated prime strictly
      greater than every element of the batch. */
  function LargerPrime(batch: seq<int>): (r: Option<int>)
    ensures r.Some? ==> r.value in StandardPrimes() && forall b :: b in batch ==> b < r.value
  {
    FirstAbove(StandardPrimes(), batch)
  }

  /** Over an ascending table, FirstAbove returns the least entry strictly
      greater than every element of the batch, and None exactly when some
      element is at least the last entry. */
  lemma FirstAboveIsLeast(table: seq<int>, batch: seq<int>)
    requires Ascending(table)
    ensures FirstAbove(table, batch).Some? ==>
      var p := FirstAbove(table, batch).value;
      && p in table
      && (forall b :: b in batch ==> b < p)
      && (forall q :: q in table && q < p ==> exists b :: b in batch && b >= q)
    ensures FirstAbove(table, batch).None? <==>
      |table| == 0 || exists b :: b in batch && b >= table[|table| - 1]
  {
    FirstAboveNone(table, batch);
    if FirstAbove(table, batch).Some? {
      forall q | q in table && q < FirstAbove(table, batch).value
        ensures exists b :: b in batch && b >= q
      {
        FirstAboveLeast(table, batch, q);
      }
    }
  }

  /** An entry below the one FirstAbove returns is reached by some element. */
  lemma {:induction false} FirstAboveLeast(table: seq<int>, batch: seq<int>, q: int)
    requires Ascending(table) && FirstAbove(table, batch).Some?
    requires q in table && q < FirstAbove(table, batch).value
    ensures exists b :: b in batch && b >= q
  {
    var t, rest := table[0], table[1..];
    var e := AtLeast(batch, t);
    AscendingHeadLeast(table);
    assert |e| > 0;
    assert e[0] in e;
    if q != t {
      assert q in rest;
      AscendingTail(table);
      FirstAboveLeast(rest, batch, q);
    }
  }

  /** FirstAbove finds nothing exactly when the table is empty or some element
      reaches its last entry. */
  lemma {:induction false} FirstAboveNone(table: seq<int>, batch: seq<int>)
    requires Ascending(table)
    ensures FirstAbove(table, batch).None? <==>
      |table| == 0 || exists b :: b in batch && b >= table[|table| - 1]
  {
    if |table| > 0 {
      var t, rest := table[0], table[1..];
      var e := AtLeast(batch, t);
      AscendingHeadLeast(table);
      if |e| > 0 {
        assert e[0] in e;
        AscendingTail(table);
        FirstAboveNone(rest, batch);
        if |rest| > 0 {
          assert rest[|rest| - 1] == table[|table| - 1];
        }
      }
    }
  }

  /** The corrected selection returns the smallest tabulated entry p with every
      element of the batch below p, and None exactly when some element is at
      least 2^1279 - 1, the largest entry. */
  lemma LargerPrimeIsLeast(batch: seq<int>)
    ensures LargerPrime(batch).Some? ==>
      var p := LargerPrime(batch).value;
      && p in StandardPrimes()
      && (forall b :: b in batch ==> b < p)
      && (forall q :: q in StandardPrimes() && q < p ==> exists b :: b in batch && b >= q)
    ensures LargerPrime(batch).None? <==> exists b :: b in batch && b >= Pow2(1279) - 1
  {
    StandardPrimesAscending();
    StandardPrimesHigh(17);
    FirstAboveIsLeast(StandardPrimes(), batch);
  }

  /** The scan of get_large_enough_prime with the corrected test `i >= prime`. */
  method GetLargerPrime(batch: seq<int>) returns (r: Option<int>)
    ensures r == LargerPrime(batch)
  {
    var primes := StandardPrimes();
    for k := 0 to |primes|
      invariant FirstAbove(primes, batch) == FirstAbove(primes[k..], batch)
    {
      var notAbove := AtLeast(batch, primes[k]);
      if |notAbove| == 0 {
        return Some(primes[k]);
      }
      assert primes[k..][1..] == primes[k + 1..];
    }
    return None;
  }

  /** Every prime the corrected selection offers is at least 3. */
  lemma LargerPrimeAtLeastThree(batch: seq<int>)
    ensures LargerPrime(batch).Some? ==> LargerPrime(batch).value >= 3
  {
    LargerPrimeIsLeast(batch);
    StandardPrimesAscending();
    StandardPrimesHead();
    if LargerPrime(batch).Some? {
      var t := StandardPrimes();
      var k :| 0 <= k < |t| && t[k] == LargerPrime(batch).value;
      assert t[0] <= t[k];
    }
  }

  /** Every prime the table offers is at least 3. */
  lemma LargeEnoughPrimeAtLeastThree(batch: seq<int>)
    ensures LargeEnoughPrime(batch).Some? ==> LargeEnoughPrime(batch).value >= 3
  {
    LargeEnoughPrimeIsLeast(batch);
    StandardPrimesAscending();
    StandardPrimesHead();
    if LargeEnoughPrime(batch).Some? {
      var t := StandardPrimes();
      var k :| 0 <= k < |t| && t[k] == LargeEnoughPrime(batch).value;
      assert t[0] <= t[k];
    }
  }

  /** A batch with no element above the bound has an empty excess. */
  lemma {:induction false} NoneExceeding(batch: seq<int>, bound: int)
    requires forall b :: b in batch ==> b <= bound
    ensures |Exceeding(batch, bound)| == 0
  {
    if |batch| > 0 {
      assert batch[0] in batch;
      forall b | b in batch[1..] ensures b <= bound {
        assert b in batch;
      }
      NoneExceeding(batch[1..], bound);
    }
  }

  /** As written, get_large_enough_prime accepts a prime equal to the largest
      element of the batch: for the batch [7, 3] it returns 7, and for the y
      values [2, 4] it returns 7 too. */
  lemma LargeEnoughPrimeAcceptsEqual()
    ensures LargeEnoughPrime([7, 3]) == Some(7)
    ensures LargeEnoughPrime([2, 4]) == Some(7)
  {
    StandardPrimesHead();
    var t := StandardPrimes();
    assert 7 in Exceeding([7, 3], t[0]);
    assert 4 in Exceeding([2, 4], t[0]);
    assert t[1..][0] == 7;
    NoneExceeding([7, 3], 7);
    NoneExceeding([2, 4], 7);
  }

  /** A batch with every element below the bound has nothing at least the bound. */
  lemma {:induction false} NoneAtLeast(batch: seq<int>, bound: int)
    requires forall b :: b in batch ==> b < bound
    ensures |AtLeast(batch, bound)| == 0
  {
    if |batch| > 0 {
      assert batch[0] in batch;
      forall b | b in batch[1..] ensures b < bound {
        assert b in batch;
      }
      NoneAtLeast(batch[1..], bound);
    }
  }

  /** The corrected selection gives the y values [2, 4] the prime 7, as the
      as-written one does, since 7 is strictly above both. */
  lemma LargerPrimeOfTwoFour()
    ensures LargerPrime([2, 4]) == Some(7)
  {
    StandardPrimesHead();
    var t := StandardPrimes();
    assert 4 in AtLeast([2, 4], t[0]);
    assert t[1..][0] == 7;
    NoneAtLeast([2, 4], 7);
  }

  /** The corrected selection passes over 3 and 7 for the batch [7, 3] and
      returns 31 = 2^5 - 1. */
  lemma LargerPrimeOfSevenThree()
    ensures LargerPrime([7, 3]) == Some(31)
  {
    StandardPrimesHead();
    StandardPrimesLow(2);
    var t := StandardPrimes();
    assert 7 in AtLeast([7, 3], t[0]);
    assert 7 in AtLeast([7, 3], t[1]);
    assert t[1..][1..][0] == 31;
    NoneAtLeast([7, 3], 31);
  }
}
