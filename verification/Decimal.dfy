/** Natural numbers in decimal text. */
module Decimal {
  predicate IsDigit(c: char) {
    '0' <= c <= '9'
  }

  function Digit(n: nat): (c: char)
    requires n < 10
    ensures IsDigit(c) && c as int - '0' as int == n
  {
    '0' + n as char
  }

  /** `String(n)` */
  function Digits(n: nat): (s: string)
    ensures s != [] && forall i :: 0 <= i < |s| ==> IsDigit(s[i])
  {
    if n < 10 then [Digit(n)] else Digits(n / 10) + [Digit(n % 10)]
  }

  /** `Number.parseInt(s, 10)` of a run of decimal digits. */
  function Number(s: string): nat
    requires forall i :: 0 <= i < |s| ==> IsDigit(s[i])
  {
    if s == [] then 0
    else
      assert IsDigit(s[|s| - 1]);
      Number(s[..|s| - 1]) * 10 + (s[|s| - 1] as int - '0' as int)
  }

  lemma OneDigit(n: nat)
    requires n < 10
    ensures Digits(n) == [Digit(n)]
  {
  }

  lemma OneMoreDigit(n: nat, d: nat)
    requires n > 0 && d < 10
    ensures Digits(n * 10 + d) == Digits(n) + [Digit(d)]
  {
  }

  /** A numeral without a leading zero is what its number is written as. */
  lemma {:induction false} NumeralIsWritten(s: string)
    requires s != [] && (forall i :: 0 <= i < |s| ==> IsDigit(s[i])) && (s[0] == '0' ==> |s| == 1)
    ensures Digits(Number(s)) == s
  {
    hide Digits;
    var n := |s| - 1;
    if n > 0 {
      NumeralIsWritten(s[..n]);
      assert s[..n][0] == s[0];
      if Number(s[..n]) == 0 {
        OneDigit(0);
      }
      assert IsDigit(s[n]);
      OneMoreDigit(Number(s[..n]), s[n] as int - '0' as int);
      assert s == s[..n] + [s[n]];
    } else {
      assert IsDigit(s[0]) && Number(s[..0]) == 0;
      OneDigit(Number(s));
    }
  }

  lemma {:induction false} DigitsDenote(n: nat)
    ensures Number(Digits(n)) == n
  {
    if n >= 10 {
      DigitsDenote(n / 10);
      assert Digits(n)[..|Digits(n)| - 1] == Digits(n / 10);
    } else {
      assert Number([]) == 0;
    }
  }
}
