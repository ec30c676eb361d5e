/** Decimal notation of natural numbers, as JavaScript writes a
    non-negative integer when concatenating it to a string. */
module Decimal {

  predicate IsDigit(ch: char)
  {
    '0' <= ch <= '9'
  }

  function DigitChar(d: nat): (ch: char)
    requires d < 10
    ensures IsDigit(ch) && DigitValue(ch) == d
  {
    ['0', '1', '2', '3', '4', '5', '6', '7', '8', '9'][d]
  }

  function DigitValue(ch: char): (d: nat)
    requires IsDigit(ch)
    ensures d < 10
  {
    (ch as int - '0' as int) as nat
  }

  /** The shortest decimal numeral of n (no leading zeros). */
  function NatToString(n: nat): (s: string)
    ensures |s| >= 1
    ensures |s| > 1 ==> s[0] != '0'
    decreases n
  {
    if n < 10 then [DigitChar(n)] else NatToString(n / 10) + [DigitChar(n % 10)]
  }

  /** A numeral is made of digits only. */
  lemma {:induction false} NatToStringDigits(n: nat)
    ensures forall k :: 0 <= k < |NatToString(n)| ==> IsDigit(NatToString(n)[k])
    decreases n
  {
    if n >= 10 {
      NatToStringDigits(n / 10);
    }
  }

  /** The value of a string of digits. */
  function ParseNat(s: string): nat
    requires forall k :: 0 <= k < |s| ==> IsDigit(s[k])
  {
    if s == [] then 0 else 10 * ParseNat(s[..|s| - 1]) + DigitValue(s[|s| - 1])
  }

  /** Reading back the numeral gives the number. */
  lemma {:induction false} ParseNatToString(n: nat)
    ensures (forall k :: 0 <= k < |NatToString(n)| ==> IsDigit(NatToString(n)[k]))
      && ParseNat(NatToString(n)) == n
    decreases n
  {
    var s := NatToString(n);
    NatToStringDigits(n);
    if n >= 10 {
      ParseNatToString(n / 10);
      assert s[..|s| - 1] == NatToString(n / 10);
    }
  }

  /** Different numbers have different numerals. */
  lemma NatToStringInjective(a: nat, b: nat)
    requires NatToString(a) == NatToString(b)
    ensures a == b
  {
    ParseNatToString(a);
    ParseNatToString(b);
  }
}
