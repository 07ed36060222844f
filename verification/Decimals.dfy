/** Numbers written in decimal, as strconv and time write them. */
module Decimals {
  function Digit(d: nat): (c: char)
    requires d < 10
    ensures IsDigit(c) && DigitValue(c) == d
  {
    '0' + d as char
  }

  predicate IsDigit(c: char) {
    '0' <= c <= '9'
  }

  function DigitValue(c: char): nat
    requires IsDigit(c)
  {
    (c - '0') as nat
  }

  predicate AllDigits(s: string) {
    forall i :: 0 <= i < |s| ==> IsDigit(s[i])
  }

  function Decimal(s: string): nat
    requires AllDigits(s)
  {
    if s == "" then 0 else Decimal(s[..|s| - 1]) * 10 + DigitValue(s[|s| - 1])
  }

  /** n in decimal, padded with zeros to w digits. */
  function Digits(n: nat, w: nat): (s: string)
    ensures |s| > 0
  {
    if n < 10 && w <= 1 then [Digit(n)]
    else Digits(n / 10, if w == 0 then 0 else w - 1) + [Digit(n % 10)]
  }

  lemma {:induction false} DigitsDecimal(n: nat, w: nat)
    ensures AllDigits(Digits(n, w)) && Decimal(Digits(n, w)) == n
  {
    var s := Digits(n, w);
    if n < 10 && w <= 1 {
      assert s[..0] == "";
    } else {
      var v := if w == 0 then 0 else w - 1;
      DigitsDecimal(n / 10, v);
      assert s[..|s| - 1] == Digits(n / 10, v);
    }
  }
}
