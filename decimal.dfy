/**
 * Decimal numerals of integers, as JavaScript's `String(n)` writes them for an
 * integer-valued number: no leading zeros, a leading `-` for negatives.
 */
module Decimal {

  predicate IsDigit(c: char) {
    '0' <= c <= '9'
  }

  predicate AllDigits(s: string) {
    forall i :: 0 <= i < |s| ==> IsDigit(s[i])
  }

  function DigitValue(c: char): (v: int) {
    c as int - '0' as int
  }

  function DigitChar(k: nat): (c: char)
    requires k < 10
    ensures IsDigit(c) && DigitValue(c) == k
  {
    ('0' as int + k) as char
  }

  /** The numeral of a non-negative integer, most significant digit first. */
  function NatToString(n: nat): (s: string)
    ensures 1 <= |s| && AllDigits(s)
    ensures s[0] == '0' <==> n == 0
  {
    if n < 10 then [DigitChar(n)] else NatToString(n / 10) + [DigitChar(n % 10)]
  }

  /** `String(n)` for an integer-valued number. */
  function IntToString(n: int): (s: string) {
    if n < 0 then "-" + NatToString(-n) else NatToString(n)
  }

  /** The number a digit string denotes, read most significant digit first. */
  function Value(s: string): (v: int)
    decreases |s|
  {
    if s == [] then 0 else Value(s[..|s| - 1]) * 10 + DigitValue(s[|s| - 1])
  }

  /** Reading a numeral back gives the number it was written from. */
  lemma {:induction false} ValueOfNatToString(n: nat)
    ensures Value(NatToString(n)) == n
  {
    if n >= 10 {
      var s := NatToString(n);
      assert s[..|s| - 1] == NatToString(n / 10);
      ValueOfNatToString(n / 10);
    }
  }

  /** A number below ten is written with one digit. */
  lemma OneDigit(n: nat)
    requires n < 10
    ensures NatToString(n) == [DigitChar(n)]
  {
  }

  /** A number from 10 to 99 is written with two digits. */
  lemma TwoDigits(n: nat)
    requires 10 <= n < 100
    ensures NatToString(n) == [DigitChar(n / 10), DigitChar(n % 10)]
  {
    assert NatToString(n / 10) == [DigitChar(n / 10)];
  }

  /** A number from 1000 to 9999 is written with four digits. */
  lemma FourDigits(n: nat)
    requires 1000 <= n < 10000
    ensures NatToString(n) == [DigitChar(n / 1000), DigitChar(n / 100 % 10), DigitChar(n / 10 % 10), DigitChar(n % 10)]
  {
    var q := n / 10;
    assert q / 10 == n / 100 && q % 10 == n / 10 % 10;
    assert q / 10 / 10 == n / 1000 && q / 10 % 10 == n / 100 % 10;
    assert NatToString(q / 10) == NatToString(q / 10 / 10) + [DigitChar(q / 10 % 10)];
    assert NatToString(q) == NatToString(q / 10) + [DigitChar(q % 10)];
  }
}
