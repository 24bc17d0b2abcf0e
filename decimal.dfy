/** Decimal text as Qt writes and reads it for the values the lyrics and
    tag code exchange: QString::number(n, 10) for a non-negative n, and
    QString::toLongLong() for the id attribute of a discovered record. */
module Decimal {

  const Int64Min: int := -0x8000_0000_0000_0000
  const Int64Bound: int := 0x8000_0000_0000_0000

  predicate IsDigit(c: char)
  {
    '0' <= c <= '9'
  }

  predicate IsDigits(s: string)
  {
    |s| > 0 && forall i :: 0 <= i < |s| ==> IsDigit(s[i])
  }

  function DigitChar(d: nat): (c: char)
    requires d < 10
    ensures IsDigit(c)
  {
    ('0' as int + d) as char
  }

  /** QString::number(n, 10) for n >= 0: the digits of n, most significant
      first, without leading zeros. */
  function DecimalText(n: nat): (s: string)
    ensures IsDigits(s)
    ensures |s| > 1 ==> s[0] != '0'
    decreases n
  {
    if n < 10 then [DigitChar(n)] else DecimalText(n / 10) + [DigitChar(n % 10)]
  }

  /** QString::number(n, 10) for any n: a '-' before the digits of a
      negative number. */
  function NumberText(n: int): (s: string)
    ensures IsDigits(s) || (|s| > 1 && s[0] == '-' && IsDigits(s[1..]))
  {
    if n >= 0 then DecimalText(n) else "-" + DecimalText(-n)
  }

  /** The value of a string of decimal digits. */
  function DigitsValue(s: string): (v: nat)
    requires IsDigits(s)
    decreases |s|
  {
    var last := s[|s| - 1] as int - '0' as int;
    if |s| == 1 then last
    else
      assert IsDigits(s[..|s| - 1]);
      10 * DigitsValue(s[..|s| - 1]) + last
  }

  /** QString::toLongLong() without the ok flag: an optional sign and
      decimal digits denoting a value in the qint64 range convert to that
      value; anything else converts to 0. */
  function ToLongLong(s: string): (v: int)
    ensures Int64Min <= v < Int64Bound
  {
    if |s| > 1 && s[0] == '-' && IsDigits(s[1..]) && DigitsValue(s[1..]) <= Int64Bound then
      0 - DigitsValue(s[1..]) as int
    else if |s| > 1 && s[0] == '+' && IsDigits(s[1..]) && DigitsValue(s[1..]) < Int64Bound then
      DigitsValue(s[1..])
    else if IsDigits(s) && DigitsValue(s) < Int64Bound then
      DigitsValue(s)
    else
      0
  }

  lemma {:induction false} DigitsValueOfDecimalText(n: nat)
    ensures DigitsValue(DecimalText(n)) == n
    decreases n
  {
    if n >= 10 {
      var s := DecimalText(n);
      assert s[..|s| - 1] == DecimalText(n / 10);
      DigitsValueOfDecimalText(n / 10);
    }
  }

  /** Text written by QString::number reads back as the same number. */
  lemma DecimalTextRoundTrip(n: nat)
    requires n < Int64Bound
    ensures ToLongLong(DecimalText(n)) == n
  {
    DigitsValueOfDecimalText(n);
    var s := DecimalText(n);
    assert IsDigit(s[0]);
  }

  /** Any qint64 written by QString::number reads back as itself. */
  lemma NumberTextRoundTrip(n: int)
    requires Int64Min <= n < Int64Bound
    ensures ToLongLong(NumberText(n)) == n
  {
    if n >= 0 {
      DecimalTextRoundTrip(n);
    } else {
      var s := NumberText(n);
      assert s[1..] == DecimalText(-n);
      DigitsValueOfDecimalText(-n);
    }
  }
}
