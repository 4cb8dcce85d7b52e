/**
 * Decimal rendering and parsing shared by the file-name and text helpers
 * (`numToStr` / `strToNum` of the engine library).
 */
module Text {

  predicate IsDigit(c: char)
  {
    '0' <= c <= '9'
  }

  predicate AllDigits(s: string)
  {
    forall i :: 0 <= i < |s| ==> IsDigit(s[i])
  }

  function DigitChar(d: int): (c: char)
    requires 0 <= d < 10
    ensures IsDigit(c)
  {
    ('0' as int + d) as char
  }

  /** Decimal rendering of `n` without leading zeros. */
  function NumToStr(n: nat): string
  {
    if n < 10 then [DigitChar(n)] else NumToStr(n / 10) + [DigitChar(n % 10)]
  }

  /** Value of a string of decimal digits. */
  function DecimalValue(s: string): nat
    requires AllDigits(s)
  {
    if s == [] then 0 else DecimalValue(s[..|s| - 1]) * 10 + (s[|s| - 1] as int - '0' as int)
  }

  /** Number of decimal digits of `n`. */
  function Width(n: nat): nat
  {
    if n < 10 then 1 else Width(n / 10) + 1
  }

  /** `NumToStr` writes only digits, as many as `n` has, and parses back to `n`. */
  lemma {:induction false} NumToStrRoundTrip(n: nat)
    ensures AllDigits(NumToStr(n))
    ensures |NumToStr(n)| == Width(n)
    ensures DecimalValue(NumToStr(n)) == n
  {
    if n >= 10 {
      NumToStrRoundTrip(n / 10);
      var s := NumToStr(n);
      assert s[..|s| - 1] == NumToStr(n / 10);
    }
  }

  /** Two-character rendering with a leading zero below 10. */
  function Pad2(n: nat): string
  {
    (if n < 10 then "0" else "") + NumToStr(n)
  }

  /** A two-digit field is rendered as its tens and units digits. */
  lemma Pad2Digits(n: nat)
    requires n < 100
    ensures Pad2(n) == [DigitChar(n / 10), DigitChar(n % 10)]
  {
    if n >= 10 {
      assert NumToStr(n / 10) == [DigitChar(n / 10)];
    }
  }

  /** A number from 1000 to 9999 is rendered as its four digits. */
  lemma FourDigits(n: nat)
    requires 1000 <= n < 10000
    ensures NumToStr(n) == [DigitChar(n / 1000), DigitChar(n / 100 % 10), DigitChar(n / 10 % 10), DigitChar(n % 10)]
  {
    assert NumToStr(n / 1000) == [DigitChar(n / 1000)];
    assert n / 10 / 10 / 10 == n / 1000;
    assert NumToStr(n / 10 / 10) == NumToStr(n / 1000) + [DigitChar(n / 100 % 10)];
  }
}
