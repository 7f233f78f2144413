/**
 * Decimal text. The accessors read an option's value as a number; the tests
 * fix that reading only on plain digit strings and on text with no digit at
 * all, so this module provides the decimal notions those cases need.
 */
module Decimal {

  predicate IsDigit(c: char) {
    '0' <= c <= '9'
  }

  /** A non-empty run of decimal digits, such as "11". */
  predicate IsDigits(s: string) {
    |s| > 0 && forall i :: 0 <= i < |s| ==> IsDigit(s[i])
  }

  /** Text with no decimal digit anywhere, such as "NaN" or "". */
  predicate NoDigit(s: string) {
    forall i :: 0 <= i < |s| ==> !IsDigit(s[i])
  }

  function DigitValue(c: char): (d: nat)
    requires IsDigit(c)
    ensures d < 10
  {
    (c as int - '0' as int) as nat
  }

  function DigitChar(d: nat): (c: char)
    requires d < 10
    ensures IsDigit(c) && DigitValue(c) == d
  {
    ('0' as int + d) as char
  }

  /** The number a string of digits denotes, most significant digit first. */
  function DigitsValue(s: string): (n: nat)
    requires forall i :: 0 <= i < |s| ==> IsDigit(s[i])
  {
    if s == [] then 0 else 10 * DigitsValue(s[..|s| - 1]) + DigitValue(s[|s| - 1])
  }

  /** The shortest decimal text of n. */
  function DigitsOf(n: nat): (s: string)
    ensures IsDigits(s)
  {
    if n < 10 then [DigitChar(n)] else DigitsOf(n / 10) + [DigitChar(n % 10)]
  }

  /** Writing a number in decimal and reading it back gives the number. */
  lemma {:induction false} DigitsRoundTrip(n: nat)
    ensures DigitsValue(DigitsOf(n)) == n
  {
    var s := DigitsOf(n);
    if n >= 10 {
      DigitsRoundTrip(n / 10);
      assert s[..|s| - 1] == DigitsOf(n / 10);
    } else {
      assert s[..|s| - 1] == [];
    }
  }

  /** The run of digits at the front of s. */
  function LeadingDigits(s: string): (p: string)
    ensures |p| <= |s| && p == s[..|p|]
    ensures forall i :: 0 <= i < |p| ==> IsDigit(p[i])
    ensures |p| < |s| ==> !IsDigit(s[|p|])
  {
    if s == [] || !IsDigit(s[0]) then []
    else
      var p := LeadingDigits(s[1..]);
      assert [s[0]] + p == s[..1 + |p|];
      [s[0]] + p
  }

  /** A leading-digits reading: the value of the digits at the front, 0 when there are none ("12abc" reads 12). */
  function PrefixNumber(s: string): (n: int)
  {
    DigitsValue(LeadingDigits(s))
  }

  /** A strict reading: the value of a plain digit string, 0 for anything else ("12abc" reads 0). */
  function StrictNumber(s: string): (n: int)
  {
    if IsDigits(s) then DigitsValue(s) else 0
  }

  lemma {:induction false} PrefixNumberOfDigits(s: string)
    ensures IsDigits(s) ==> PrefixNumber(s) == DigitsValue(s)
    ensures NoDigit(s) ==> PrefixNumber(s) == 0
  {
    var p := LeadingDigits(s);
    if IsDigits(s) {
      assert |p| == |s|;
      assert p == s;
    }
  }
}
