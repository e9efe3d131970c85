/**
 Python's `str` of a float that `round(x, 1)` produced: an optional minus
 sign, the integer digits, a point and one decimal digit.
 */
module Decimal {
  import opened Wrappers

  predicate IsDigit(c: char) {
    '0' <= c <= '9'
  }

  predicate AllDigits(s: string) {
    forall i :: 0 <= i < |s| ==> IsDigit(s[i])
  }

  function DigitChar(d: int): (c: char)
    requires 0 <= d <= 9
    ensures IsDigit(c)
  {
    (48 + d) as char
  }

  function DigitValue(c: char): int
    requires IsDigit(c)
  {
    c as int - 48
  }

  /** The decimal digits of `n`, without leading zeros. */
  function ShowNat(n: nat): (s: string)
    ensures 1 <= |s| && AllDigits(s)
    ensures n >= 10 ==> s[0] != '0'
  {
    if n < 10 then [DigitChar(n)] else ShowNat(n / 10) + [DigitChar(n % 10)]
  }

  /** The number a digit string denotes. */
  function DigitsValue(s: string): nat
    requires AllDigits(s)
  {
    if |s| == 0 then 0 else DigitsValue(s[..|s| - 1]) * 10 + DigitValue(s[|s| - 1])
  }

  lemma {:induction false} ShowNatRoundTrip(n: nat)
    ensures DigitsValue(ShowNat(n)) == n
  {
    if n >= 10 {
      ShowNatRoundTrip(n / 10);
      var s := ShowNat(n);
      assert s[..|s| - 1] == ShowNat(n / 10);
    }
  }

  /** The text of a value holding `k` tenths, e.g. 50 as "5.0" and -3 as "-0.3". */
  function ShowTenths(k: int): (s: string)
    ensures 3 <= |s| && s[|s| - 2] == '.' && IsDigit(s[|s| - 1])
    ensures s[0] == '-' <==> k < 0
  {
    var m := if k < 0 then -k else k;
    (if k < 0 then "-" else "") + ShowNat(m / 10) + "." + [DigitChar(m % 10)]
  }

  /** The tenths written as a digit string and one decimal digit, if both are digits. */
  function ParseUnsigned(digits: string, last: char): Option<nat> {
    if |digits| == 0 || !AllDigits(digits) || !IsDigit(last) then None
    else Some(DigitsValue(digits) * 10 + DigitValue(last))
  }

  /** Reads back an unsigned number of tenths: digits, a point and one digit. */
  function ParseUnsignedTenths(s: string): Option<nat> {
    if |s| < 3 || s[|s| - 2] != '.' then None
    else ParseUnsigned(s[..|s| - 2], s[|s| - 1])
  }

  /** Reads back a number of tenths written as `ShowTenths` writes it. */
  function ParseTenths(s: string): Option<int> {
    if 0 < |s| && s[0] == '-' then
      match ParseUnsignedTenths(s[1..])
      case None => None
      case Some(m) => Some(-(m as int))
    else
      match ParseUnsignedTenths(s)
      case None => None
      case Some(m) => Some(m)
  }

  lemma ParseUnsignedValue(digits: string, c: char)
    requires 1 <= |digits| && AllDigits(digits) && IsDigit(c)
    ensures ParseUnsigned(digits, c) == Some(DigitsValue(digits) * 10 + DigitValue(c))
  {
  }

  lemma ParseUnsignedSplit(digits: string, c: char)
    ensures ParseUnsignedTenths(digits + "." + [c]) == ParseUnsigned(digits, c)
  {
    var s := digits + "." + [c];
    assert s[..|s| - 2] == digits;
  }

  /** A leading minus sign negates what follows it. */
  lemma ParseNegative(t: string)
    requires ParseUnsignedTenths(t).Some?
    ensures ParseTenths("-" + t) == Some(-(ParseUnsignedTenths(t).value as int))
  {
    assert ("-" + t)[1..] == t;
  }

  /** Without a sign, the text is read as an unsigned number of tenths. */
  lemma ParsePositive(digits: string, c: char)
    requires 1 <= |digits| && AllDigits(digits) && IsDigit(c)
    ensures ParseTenths(digits + "." + [c]) == Some(DigitsValue(digits) * 10 + DigitValue(c))
  {
    ParseUnsignedSplit(digits, c);
    ParseUnsignedValue(digits, c);
    assert (digits + "." + [c])[0] == digits[0];
  }

  /** The text of a rounded value reads back as the same number of tenths. */
  lemma ShowTenthsRoundTrip(k: int)
    ensures ParseTenths(ShowTenths(k)) == Some(k)
  {
    var m := if k < 0 then -k else k;
    var digits := ShowNat(m / 10);
    var c := DigitChar(m % 10);
    var t := digits + "." + [c];
    ShowNatRoundTrip(m / 10);
    ParseUnsignedSplit(digits, c);
    ParseUnsignedValue(digits, c);
    assert DigitValue(c) == m % 10;
    if k < 0 {
      assert ShowTenths(k) == "-" + t;
      ParseNegative(t);
    } else {
      assert ShowTenths(k) == t;
      ParsePositive(digits, c);
    }
  }
}
