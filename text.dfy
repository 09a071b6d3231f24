/**
 * SimpleItoa for the non-negative numbers the generators substitute into
 * their templates (field numbers, tags, tag sizes, fixed sizes).
 */
module Text {
  predicate IsDigit(c: char)
  {
    '0' <= c <= '9'
  }

  function DigitChar(d: nat): (c: char)
    requires d < 10
    ensures IsDigit(c) && c as int - '0' as int == d
  {
    ('0' as int + d) as char
  }

  /** The decimal numeral of n: digits only, no leading zero. */
  function Itoa(n: nat): (s: string)
    ensures |s| >= 1
    ensures forall i :: 0 <= i < |s| ==> IsDigit(s[i])
    ensures |s| > 1 ==> s[0] != '0'
    decreases n
  {
    if n < 10 then [DigitChar(n)] else Itoa(n / 10) + [DigitChar(n % 10)]
  }

  /** What Itoa produces: digits only, at least one, no leading zero. */
  predicate IsNumeral(s: string)
  {
    |s| >= 1 && (forall i :: 0 <= i < |s| ==> IsDigit(s[i])) && (|s| > 1 ==> s[0] != '0')
  }

  /** The number a string of digits denotes. */
  function NumeralValue(s: string): nat
    requires forall i :: 0 <= i < |s| ==> IsDigit(s[i])
  {
    if |s| == 0 then 0
    else
      assert IsDigit(s[|s| - 1]);
      10 * NumeralValue(s[..|s| - 1]) + (s[|s| - 1] as int - '0' as int)
  }

  /** Reading the numeral back gives the number. */
  lemma {:induction false} ItoaRoundTrip(n: nat)
    ensures NumeralValue(Itoa(n)) == n
  {
    if n >= 10 {
      var s := Itoa(n);
      assert s[..|s| - 1] == Itoa(n / 10);
      ItoaRoundTrip(n / 10);
    }
  }

  /** Itoa gives a numeral that reads back as the number. */
  lemma NumeralOf(n: nat)
    ensures IsNumeral(Itoa(n)) && NumeralValue(Itoa(n)) == n
  {
    ItoaRoundTrip(n);
  }

  /** Distinct numbers print differently. */
  lemma ItoaInjective(a: nat, b: nat)
    requires Itoa(a) == Itoa(b)
    ensures a == b
  {
    ItoaRoundTrip(a);
    ItoaRoundTrip(b);
  }
}
