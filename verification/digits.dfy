/**
 * Decimal rendering of natural numbers, as a JavaScript template literal
 * renders an integer, and its inverse.
 */
module Digits {

  predicate IsDigit(c: char) { '0' <= c <= '9' }

  predicate AllDigits(s: string) { forall i :: 0 <= i < |s| ==> IsDigit(s[i]) }

  /** A numeral as the renderer writes one: digits, no leading zero unless it is "0". */
  predicate IsNumeral(s: string) {
    |s| >= 1 && AllDigits(s) && (|s| > 1 ==> s[0] != '0')
  }

  function DigitChar(d: nat): (c: char)
    requires d < 10
    ensures IsDigit(c)
  {
    "0123456789"[d]
  }

  function DigitValue(c: char): (d: nat)
    requires IsDigit(c)
    ensures d < 10 && DigitChar(d) == c
  {
    (c as int - '0' as int) as nat
  }

  /** The shortest decimal numeral of `n`. */
  function Show(n: nat): (s: string)
    ensures IsNumeral(s)
    ensures |s| > 1 <==> n >= 10
  {
    if n < 10 then [DigitChar(n)] else Show(n / 10) + [DigitChar(n % 10)]
  }

  /** The value of a non-empty string of decimal digits. */
  function Read(s: string): (n: nat)
    requires |s| >= 1 && AllDigits(s)
  {
    if |s| == 1 then DigitValue(s[0])
    else 10 * Read(s[..|s| - 1]) + DigitValue(s[|s| - 1])
  }

  /** Reading back a rendered number gives the number. */
  lemma {:induction false} ReadShow(n: nat)
    ensures Read(Show(n)) == n
  {
    if n >= 10 {
      ReadShow(n / 10);
      var s, last := Show(n), DigitChar(n % 10);
      assert s == Show(n / 10) + [last];
      assert s[..|s| - 1] == Show(n / 10) && s[|s| - 1] == last;
      assert DigitValue(last) == n % 10;
      assert 10 * (n / 10) + n % 10 == n;
    }
  }

  /** A numeral without a leading zero has a positive value when it has more than one digit. */
  lemma {:induction false} ReadLeading(s: string)
    requires |s| >= 1 && AllDigits(s) && s[0] != '0'
    ensures Read(s) >= 1
  {
    if |s| > 1 {
      ReadLeading(s[..|s| - 1]);
    }
  }

  /** Rendering the value of a numeral gives the numeral back. */
  lemma {:induction false} ShowRead(s: string)
    requires IsNumeral(s)
    ensures Show(Read(s)) == s
  {
    if |s| > 1 {
      var t := s[..|s| - 1];
      ReadLeading(t);
      ShowRead(t);
      var n := Read(s);
      assert n / 10 == Read(t) && n % 10 == DigitValue(s[|s| - 1]);
      assert s == t + [s[|s| - 1]];
    }
  }
}
