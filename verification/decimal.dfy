/** Decimal text of natural numbers.

The board's header row tags each category cell with its index and labels it
with the index plus one, both interpolated into the markup as text. For the
small naturals interpolated there (0 to 6) that text is the plain decimal
`FromNat` gives; JavaScript writes very large numbers differently (exponent
form from 1e21 on), which this module does not model.
`ToNat` reads such text back; it is the inverse of `FromNat` (`RoundTrip`).
 */
module Decimal {

  predicate IsDigit(c: char)
  {
    '0' <= c <= '9'
  }

  predicate IsDigits(s: string)
  {
    forall k :: 0 <= k < |s| ==> IsDigit(s[k])
  }

  function DigitChar(d: nat): (c: char)
    requires d < 10
    ensures IsDigit(c)
    ensures c as int - '0' as int == d
  {
    (('0' as int) + d) as char
  }

  /** The decimal text of `n`, most significant digit first, without leading zeros. */
  function FromNat(n: nat): (s: string)
    ensures 1 <= |s|
    ensures IsDigits(s)
    ensures |s| > 1 ==> s[0] != '0'
    decreases n
  {
    if n < 10 then [DigitChar(n)] else FromNat(n / 10) + [DigitChar(n % 10)]
  }

  /** The number that a string of decimal digits denotes. */
  function ToNat(s: string): nat
    requires IsDigits(s)
    decreases |s|
  {
    if |s| == 0 then 0
    else ToNat(s[..|s| - 1]) * 10 + (s[|s| - 1] as int - '0' as int)
  }

  /** Reading back the decimal text of a number gives the number. */
  lemma {:induction false} RoundTrip(n: nat)
    ensures ToNat(FromNat(n)) == n
    decreases n
  {
    if n >= 10 {
      var s := FromNat(n);
      var prefix := FromNat(n / 10);
      assert s == prefix + [DigitChar(n % 10)];
      assert s[..|s| - 1] == prefix;
      RoundTrip(n / 10);
    }
  }

  /** Different numbers have different decimal texts. */
  lemma Injective(m: nat, n: nat)
    ensures FromNat(m) == FromNat(n) <==> m == n
  {
    if FromNat(m) == FromNat(n) {
      RoundTrip(m);
      RoundTrip(n);
    }
  }

  /** Numbers below ten are written as one digit. */
  lemma SingleDigit(n: nat)
    requires n < 10
    ensures FromNat(n) == [DigitChar(n)]
  {
  }
}
