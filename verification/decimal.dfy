/** Decimal rendering of integers, as `string.Format("{0}", n)` prints an `int`
    under the invariant culture: optional leading '-' followed by the digits of
    the absolute value, most significant first, with no leading zeros. */
module Decimal {

  predicate IsDigit(c: char) {
    '0' <= c <= '9'
  }

  function DigitChar(d: int): (c: char)
    requires 0 <= d < 10
    ensures IsDigit(c)
    ensures c as int - '0' as int == d
  {
    ('0' as int + d) as char
  }

  function DigitValue(c: char): (d: nat)
    requires IsDigit(c)
    ensures d < 10
  {
    c as int - '0' as int
  }

  predicate AllDigits(s: string) {
    forall i :: 0 <= i < |s| ==> IsDigit(s[i])
  }

  /** Digits of `n`, most significant first. */
  function NatToString(n: nat): (s: string)
    ensures 0 < |s|
    ensures AllDigits(s)
    ensures n < 10 <==> |s| == 1
    ensures s[0] == '0' <==> n == 0
    decreases n
  {
    if n < 10 then [DigitChar(n)] else NatToString(n / 10) + [DigitChar(n % 10)]
  }

  /** The value of a string of decimal digits. */
  function StringToNat(s: string): nat
    requires AllDigits(s)
    decreases |s|
  {
    if |s| == 0 then 0 else StringToNat(s[..|s| - 1]) * 10 + DigitValue(s[|s| - 1])
  }

  /** Text an `int` can print as: digits, optionally after a '-'. */
  predicate IsIntText(s: string) {
    0 < |s| && (if s[0] == '-' then 1 < |s| && AllDigits(s[1..]) else AllDigits(s))
  }

  /** The value of a signed decimal text. */
  function StringToInt(s: string): int
    requires IsIntText(s)
  {
    if s[0] == '-' then 0 - StringToNat(s[1..]) else StringToNat(s)
  }

  function IntToString(i: int): (s: string)
    ensures IsIntText(s)
    ensures i < 0 <==> s[0] == '-'
    ensures s[0] == '-' ==> 1 < |s| && s[1] != '0'
    ensures s[0] != '-' && 1 < |s| ==> s[0] != '0'
    ensures StringToInt(s) == i
  {
    if i < 0 then
      var s := "-" + NatToString(-i);
      assert s[1..] == NatToString(-i);
      NatRoundTrip(-i);
      s
    else
      NatRoundTrip(i);
      NatToString(i)
  }

  /** Reading the digits back gives the number that was printed. */
  lemma {:induction false} NatRoundTrip(n: nat)
    ensures StringToNat(NatToString(n)) == n
    decreases n
  {
    var s := NatToString(n);
    if n < 10 {
      assert s == [DigitChar(n)];
      assert s[..0] == [];
    } else {
      var p := NatToString(n / 10);
      assert s == p + [DigitChar(n % 10)];
      assert s[..|s| - 1] == p;
      NatRoundTrip(n / 10);
    }
  }

  /** Distinct integers print differently. */
  lemma IntToStringInjective(a: int, b: int)
    requires IntToString(a) == IntToString(b)
    ensures a == b
  {
  }
}
