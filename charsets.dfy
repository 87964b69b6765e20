/** The charsets of the sharer classes (ss.py:195-261): string.hexdigits[0:16],
    string.printable, and utilitybelt's base58, base32 and z-base-32 alphabets
    (imported at ss.py:6). */
module Charsets {
  import opened Codec

  /** string.hexdigits[0:16]. */
  const HexDigits: string := "0123456789abcdef"
  /** string.printable: digits, letters, punctuation and whitespace. */
  const Printable: string :=
    "0123456789abcdefghijklmnopqrstuvwxyzABCDEFGHIJKLMNOPQRSTUVWXYZ!\"#$%&'()*+,-./:;<=>?@[\\]^_`{|}~ \t\n\r\U{b}\U{c}"
  /** utilitybelt's base58_chars: digits and letters without 0, O, I and l. */
  const Base58: string := "123456789ABCDEFGHJKLMNPQRSTUVWXYZ" + "abcdefghijkmnopqrstuvwxyz"
  /** utilitybelt's base32_chars. */
  const Base32: string := "ABCDEFGHIJKLMNOPQRSTUVWXYZ234567"
  /** utilitybelt's zbase32_chars. */
  const ZBase32: string := ZBase32Front + ZBase32Back
  const ZBase32Front: string := "ybndrfg8ejkmcpqx"
  const ZBase32Back: string := "ot1uwisza345h769"

  /** Each share charset can carry the share-string format: at least two
      distinct symbols and no '-' separator. */
  lemma HexDigitsUsable()
    ensures |HexDigits| == 16 && Distinct(HexDigits) && '-' !in HexDigits
  {
    AscendingDistinct(HexDigits);
  }

  lemma Base58Usable()
    ensures |Base58| == 58 && Distinct(Base58) && '-' !in Base58
  {
    Base58Ascending();
    AscendingDistinct(Base58);
    Base58NoDash();
  }

  lemma Base58Ascending()
    ensures forall i :: 0 <= i < |Base58| - 1 ==> Base58[i] < Base58[i + 1]
  {
  }

  lemma Base58NoDash()
    ensures |Base58| == 58 && '-' !in Base58
  {
  }

  lemma Base32Usable()
    ensures |Base32| == 32 && Distinct(Base32) && '-' !in Base32
  {
    var letters, digits := "ABCDEFGHIJKLMNOPQRSTUVWXYZ", "234567";
    assert Base32 == letters + digits;
    AscendingDistinct(letters);
    AscendingDistinct(digits);
    assert forall i :: 0 <= i < |letters| ==> 'A' <= letters[i];
    assert forall j :: 0 <= j < |digits| ==> digits[j] <= '7';
    DistinctConcat(letters, digits);
  }

  lemma ZBase32Usable()
    ensures |ZBase32| == 32 && Distinct(ZBase32) && '-' !in ZBase32
  {
    ZBase32Halves();
    DistinctConcat(ZBase32Front, ZBase32Back);
  }

  /** The halves of z-base-32 have distinct symbols, none in common, and no '-'. */
  lemma ZBase32Halves()
    ensures Distinct(ZBase32Front) && Distinct(ZBase32Back) && '-' !in ZBase32
    ensures forall i, j :: 0 <= i < |ZBase32Front| && 0 <= j < |ZBase32Back| ==> ZBase32Front[i] != ZBase32Back[j]
  {
    ZBase32FrontDistinct();
    ZBase32BackDistinct();
    ZBase32HalvesDisjoint();
  }

  lemma ZBase32FrontDistinct()
    ensures Distinct(ZBase32Front)
  {
  }

  lemma ZBase32BackDistinct()
    ensures Distinct(ZBase32Back)
  {
  }

  lemma ZBase32HalvesDisjoint()
    ensures '-' !in ZBase32
    ensures forall i, j :: 0 <= i < |ZBase32Front| && 0 <= j < |ZBase32Back| ==> ZBase32Front[i] != ZBase32Back[j]
  {
  }

  /** A strictly ascending string has distinct symbols. */
  lemma AscendingDistinct(s: string)
    requires forall i :: 0 <= i < |s| - 1 ==> s[i] < s[i + 1]
    ensures Distinct(s)
  {
    forall i, j | 0 <= i < j < |s| ensures s[i] != s[j] {
      AscendingFar(s, i, j);
    }
  }

  lemma {:induction false} AscendingFar(s: string, i: int, j: int)
    requires forall i :: 0 <= i < |s| - 1 ==> s[i] < s[i + 1]
    requires 0 <= i < j < |s|
    ensures s[i] < s[j]
    decreases j - i
  {
    if i + 1 < j {
      AscendingFar(s, i + 1, j);
    }
  }

  /** Two strings with distinct symbols and no symbol in common concatenate
      to a string with distinct symbols. */
  lemma DistinctConcat(a: string, b: string)
    requires Distinct(a) && Distinct(b)
    requires forall i, j :: 0 <= i < |a| && 0 <= j < |b| ==> a[i] != b[j]
    ensures Distinct(a + b)
  {
    forall i, j | 0 <= i < j < |a + b| ensures (a + b)[i] != (a + b)[j] {
      if i < |a| <= j {
        assert (a + b)[i] == a[i] && (a + b)[j] == b[j - |a|];
      }
    }
  }

  /** The plaintext secret charset holds 100 symbols, '-' among them; that is
      harmless because a secret is never split on '-'. */
  lemma PrintableFacts()
    ensures |Printable| == 100 && Printable[74] == '-'
  {
  }
}
