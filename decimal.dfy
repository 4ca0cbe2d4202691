/** Python's decimal rendering of an integer in an f-string: `f"{n}"`. */
module Decimal {

  predicate IsDigit(c: char) { '0' <= c <= '9' }

  /** A non-empty string of decimal digits. */
  predicate IsNumeral(s: string)
  {
    |s| > 0 && forall i :: 0 <= i < |s| ==> IsDigit(s[i])
  }

  function DigitChar(d: nat): (c: char)
    requires d < 10
    ensures IsDigit(c) && c as int - '0' as int == d
  {
    ('0' as int + d) as char
  }

  /** `str(n)` for a non-negative `n`: the shortest decimal numeral, no leading zeros. */
  function NatToDecimal(n: nat): (s: string)
    ensures IsNumeral(s)
    ensures s[0] == '0' <==> n == 0
    ensures |s| > 1 ==> s[0] != '0'
    decreases n
  {
    if n < 10 then [DigitChar(n)] else NatToDecimal(n / 10) + [DigitChar(n % 10)]
  }

  /** `str(i)` for any integer: a minus sign before the numeral of a negative value. The numeral
      denotes the integer's magnitude. */
  function IntToDecimal(i: int): (s: string)
    ensures |s| > 0
    ensures i >= 0 <==> IsDigit(s[0])
    ensures i >= 0 ==> IsNumeral(s) && DecimalValue(s) == i
    ensures i < 0 ==> s[0] == '-' && IsNumeral(s[1..]) && DecimalValue(s[1..]) == -i
  {
    if i < 0 then
      DecimalRoundTrip(-i);
      assert ("-" + NatToDecimal(-i))[1..] == NatToDecimal(-i);
      "-" + NatToDecimal(-i)
    else
      DecimalRoundTrip(i);
      NatToDecimal(i)
  }

  /** The value a numeral denotes: the inverse of `NatToDecimal`. */
  function DecimalValue(s: string): nat
    requires forall i :: 0 <= i < |s| ==> IsDigit(s[i])
    decreases |s|
  {
    if |s| == 0 then 0 else 10 * DecimalValue(s[..|s| - 1]) + DigitValue(s[|s| - 1])
  }

  function DigitValue(c: char): nat
    requires IsDigit(c)
  {
    c as int - '0' as int
  }

  lemma {:induction false} DecimalRoundTrip(n: nat)
    ensures DecimalValue(NatToDecimal(n)) == n
    decreases n
  {
    var s := NatToDecimal(n);
    if n >= 10 {
      DecimalRoundTrip(n / 10);
      assert s[..|s| - 1] == NatToDecimal(n / 10);
    }
  }

  lemma NatToDecimalInjective(a: nat, b: nat)
    requires NatToDecimal(a) == NatToDecimal(b)
    ensures a == b
  {
    DecimalRoundTrip(a);
    DecimalRoundTrip(b);
  }

  /** The length of the longest all-digit prefix of `s`. */
  function DigitRun(s: string): (n: nat)
    ensures n <= |s|
    decreases |s|
  {
    if |s| > 0 && IsDigit(s[0]) then 1 + DigitRun(s[1..]) else 0
  }

  lemma {:induction false} DigitRunOfNumeral(d: string, x: string)
    requires forall i :: 0 <= i < |d| ==> IsDigit(d[i])
    requires |x| > 0 && !IsDigit(x[0])
    ensures DigitRun(d + x) == |d|
    decreases |d|
  {
    if |d| > 0 {
      assert (d + x)[1..] == d[1..] + x;
      DigitRunOfNumeral(d[1..], x);
    }
  }

  /** A numeral followed by text that does not start with a digit can be read back unambiguously:
      the numeral ends where the digits end. */
  lemma NumeralPrefixUnique(a: nat, x: string, b: nat, y: string)
    requires NatToDecimal(a) + x == NatToDecimal(b) + y
    requires |x| > 0 && !IsDigit(x[0])
    requires |y| > 0 && !IsDigit(y[0])
    ensures a == b && x == y
  {
    var da, db := NatToDecimal(a), NatToDecimal(b);
    var s := da + x;
    DigitRunOfNumeral(da, x);
    DigitRunOfNumeral(db, y);
    assert da == s[..|da|] == db;
    NatToDecimalInjective(a, b);
    assert x == s[|da|..] == y;
  }
}
