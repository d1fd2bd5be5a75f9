/**
 * Decimal rendering of integers, as Java's string concatenation prints a
 * Long (Long.toString), and a reader that undoes it.
 */
module Numerals {

  predicate IsDigit(c: char) {
    '0' <= c <= '9'
  }

  function DigitChar(d: int): char
    requires 0 <= d < 10
  {
    (48 + d) as char
  }

  function DigitValue(c: char): int {
    c as int - 48
  }

  /** The digits of `n`, most significant first, without leading zeros. */
  function NaturalDigits(n: nat): (s: string)
    ensures |s| >= 1
    ensures forall i :: 0 <= i < |s| ==> IsDigit(s[i])
    decreases n
  {
    if n < 10 then [DigitChar(n)] else NaturalDigits(n / 10) + [DigitChar(n % 10)]
  }

  /** Long.toString: an optional minus sign followed by the digits. */
  function DecimalString(n: int): (s: string)
    ensures |s| >= 1 && (IsDigit(s[0]) || s[0] == '-')
    ensures forall i :: 0 <= i < |s| ==> IsDigit(s[i]) || s[i] == '-'
  {
    if n < 0 then "-" + NaturalDigits(-n) else NaturalDigits(n)
  }

  function ParseDigits(s: string): int {
    if s == [] then 0 else 10 * ParseDigits(s[..|s| - 1]) + DigitValue(s[|s| - 1])
  }

  function ParseDecimal(s: string): int {
    if |s| > 0 && s[0] == '-' then -ParseDigits(s[1..]) else ParseDigits(s)
  }

  lemma {:induction false} NaturalDigitsRoundTrip(n: nat)
    ensures ParseDigits(NaturalDigits(n)) == n
  {
    if n >= 10 {
      NaturalDigitsRoundTrip(n / 10);
      var s := NaturalDigits(n);
      assert s[..|s| - 1] == NaturalDigits(n / 10);
    }
  }

  /** The rendering loses nothing: reading it back gives the number. */
  lemma {:induction false} DecimalRoundTrip(n: int)
    ensures ParseDecimal(DecimalString(n)) == n
  {
    if n < 0 {
      NaturalDigitsRoundTrip(-n);
      assert DecimalString(n)[1..] == NaturalDigits(-n);
    } else {
      NaturalDigitsRoundTrip(n);
    }
  }

}
