/** Decimal digit text of integers, as `String(n)` writes it and as JSON reads it. */
module Decimal {

  predicate IsDigit(c: char) {
    '0' <= c <= '9'
  }

  function DigitChar(d: nat): (c: char)
    requires d < 10
    ensures IsDigit(c)
  {
    "0123456789"[d]
  }

  function DigitVal(c: char): (d: nat)
    requires IsDigit(c)
    ensures d < 10
  {
    (c as int - '0' as int) as nat
  }

  predicate AllDigits(s: string) {
    forall i :: 0 <= i < |s| ==> IsDigit(s[i])
  }

  /** Decimal text of `n`, most significant digit first, no leading zeros. */
  function NatText(n: nat): (r: string)
  {
    if n < 10 then [DigitChar(n)] else NatText(n / 10) + [DigitChar(n % 10)]
  }

  /** Decimal text of an integer, with a leading '-' when negative. */
  function IntText(n: int): string {
    if n < 0 then "-" + NatText(-n) else NatText(n)
  }

  /** The value of a run of digits. */
  function DigitsValue(s: string): nat
    requires AllDigits(s)
  {
    if s == [] then 0 else DigitsValue(s[..|s| - 1]) * 10 + DigitVal(s[|s| - 1])
  }

  /** Length of the longest prefix of `s` made of digits. */
  function DigitRun(s: string): (k: nat)
    ensures k <= |s|
    ensures AllDigits(s[..k])
    ensures k < |s| ==> !IsDigit(s[k])
  {
    if s == [] || !IsDigit(s[0]) then 0
    else
      var k := 1 + DigitRun(s[1..]);
      assert s[..k] == [s[0]] + s[1..][..k - 1];
      k
  }

  /** `NatText` writes digits only, at least one, and no leading zero except for 0 itself. */
  lemma {:induction false} NatTextShape(n: nat)
    ensures |NatText(n)| > 0 && AllDigits(NatText(n))
    ensures NatText(n)[0] == '0' <==> n == 0
  {
    if n >= 10 {
      NatTextShape(n / 10);
    }
  }

  /** Reading back the digits `NatText` writes gives the number. */
  lemma {:induction false} NatTextValue(n: nat)
    ensures AllDigits(NatText(n)) && DigitsValue(NatText(n)) == n
  {
    NatTextShape(n);
    if n >= 10 {
      NatTextValue(n / 10);
      var s := NatText(n);
      assert s[..|s| - 1] == NatText(n / 10);
    }
  }

  /** The digit run at the start of `NatText(n) + rest` is exactly `NatText(n)` when `rest` does not start with a digit. */
  lemma {:induction false} DigitRunOfNatText(n: nat, rest: string)
    requires rest == [] || !IsDigit(rest[0])
    ensures DigitRun(NatText(n) + rest) == |NatText(n)|
  {
    NatTextShape(n);
    DigitRunPrefix(NatText(n), rest);
  }

  lemma {:induction false} DigitRunPrefix(ds: string, rest: string)
    requires AllDigits(ds)
    requires rest == [] || !IsDigit(rest[0])
    ensures DigitRun(ds + rest) == |ds|
  {
    if ds != [] {
      assert (ds + rest)[1..] == ds[1..] + rest;
      DigitRunPrefix(ds[1..], rest);
    } else {
      assert ds + rest == rest;
    }
  }

  /** Ten to the power `w`. */
  function Pow10(w: nat): (r: nat)
    ensures r >= 1
  {
    if w == 0 then 1 else 10 * Pow10(w - 1)
  }

  /** A number below `10^w` is written in at most `w` digits. */
  lemma {:induction false} NatTextWidth(n: nat, w: nat)
    requires 1 <= w && n < Pow10(w)
    ensures |NatText(n)| <= w
  {
    if n >= 10 {
      NatTextWidth(n / 10, w - 1);
    }
  }

  /** Leading zeros do not change the value of a run of digits. */
  lemma {:induction false} LeadingZeros(z: nat, ds: string)
    requires AllDigits(ds)
    ensures AllDigits(seq(z, _ => '0') + ds)
    ensures DigitsValue(seq(z, _ => '0') + ds) == DigitsValue(ds)
    decreases |ds|, z
  {
    var u := seq(z, _ => '0') + ds;
    if ds != [] {
      assert u[..|u| - 1] == seq(z, _ => '0') + ds[..|ds| - 1];
      LeadingZeros(z, ds[..|ds| - 1]);
    } else if z > 0 {
      assert u[..|u| - 1] == seq(z - 1, _ => '0') + ds;
      LeadingZeros(z - 1, ds);
    }
  }
}
