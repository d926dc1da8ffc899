/** How JavaScript renders a non-negative integer inside a template literal or
    a `+` with a string: decimal digits, no sign, no leading zeros. */
module Decimal {

  predicate IsDigit(c: char) {
    '0' <= c <= '9'
  }

  predicate AllDigits(s: string) {
    forall i :: 0 <= i < |s| ==> IsDigit(s[i])
  }

  /** The form `Show` produces: one or more digits, and no leading zero unless the
      number is zero itself. */
  predicate IsCanonical(s: string) {
    |s| > 0 && AllDigits(s) && (|s| > 1 ==> s[0] != '0')
  }

  function DigitChar(d: nat): (c: char)
    requires d < 10
    ensures IsDigit(c)
  {
    "0123456789"[d]
  }

  function DigitValue(c: char): (d: nat)
    requires IsDigit(c)
    ensures d < 10
  {
    (c as int) - ('0' as int)
  }

  /** `String(n)` for a non-negative integer `n`. */
  function Show(n: nat): (s: string)
    ensures IsCanonical(s)
  {
    if n < 10 then
      [DigitChar(n)]
    else
      var p := Show(n / 10);
      assert (p + [DigitChar(n % 10)])[0] == p[0];
      p + [DigitChar(n % 10)]
  }

  /** The number a string of decimal digits denotes. */
  function Value(s: string): nat
    requires AllDigits(s)
  {
    if |s| == 0 then 0 else Value(s[..|s| - 1]) * 10 + DigitValue(s[|s| - 1])
  }

  lemma DigitRoundTrip(d: nat)
    requires d < 10
    ensures DigitValue(DigitChar(d)) == d
  {
    var digits := "0123456789";
    assert digits[d] as int == '0' as int + d by {
      assert digits[0] == '0' && digits[1] == '1' && digits[2] == '2' && digits[3] == '3';
      assert digits[4] == '4' && digits[5] == '5' && digits[6] == '6' && digits[7] == '7';
      assert digits[8] == '8' && digits[9] == '9';
    }
  }

  /** Reading back what `Show` writes gives the number. */
  lemma {:induction false} ValueShow(n: nat)
    ensures Value(Show(n)) == n
  {
    DigitRoundTrip(n % 10);
    if n >= 10 {
      ValueShow(n / 10);
      var s := Show(n);
      assert s[..|s| - 1] == Show(n / 10);
    }
  }

  /** Different numbers render differently. */
  lemma ShowInjective(m: nat, n: nat)
    ensures Show(m) == Show(n) ==> m == n
  {
    ValueShow(m);
    ValueShow(n);
  }

  /** A canonical digit string with a non-zero first digit denotes a positive number. */
  lemma {:induction false} ValuePositive(s: string)
    requires |s| > 0 && AllDigits(s) && s[0] != '0'
    ensures Value(s) > 0
  {
    if |s| > 1 {
      ValuePositive(s[..|s| - 1]);
    }
  }

  lemma DigitCharOfValue(c: char)
    requires IsDigit(c)
    ensures DigitChar(DigitValue(c)) == c
  {
    DigitRoundTrip(DigitValue(c));
    assert DigitChar(DigitValue(c)) as int == c as int;
  }

  /** Writing the number a canonical digit string denotes gives back that string. */
  lemma {:induction false} ShowValue(s: string)
    requires IsCanonical(s)
    ensures Show(Value(s)) == s
    decreases |s|
  {
    var c := s[|s| - 1];
    DigitCharOfValue(c);
    if |s| > 1 {
      var p := s[..|s| - 1];
      ValuePositive(p);
      ShowValue(p);
      var n := Value(s);
      assert n / 10 == Value(p) && n % 10 == DigitValue(c);
      assert s == p + [c];
    }
  }
}
