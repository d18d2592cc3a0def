/**
 * Decimal numerals over ASCII digits: `str(n)` for a non-negative integer
 * and `int(s)` for a string of digits (leading zeros allowed).
 */
module Decimal {

  predicate IsDigit(c: char) {
    '0' <= c <= '9'
  }

  predicate AllDigits(s: string) {
    forall i :: 0 <= i < |s| ==> IsDigit(s[i])
  }

  function DigitValue(c: char): (d: nat)
    requires IsDigit(c)
    ensures d < 10
  {
    c as int - '0' as int
  }

  function DigitChar(d: nat): (c: char)
    requires d < 10
    ensures IsDigit(c) && DigitValue(c) == d
  {
    ('0' as int + d) as char
  }

  /** `int(s)` on a string of digits. */
  function Parse(s: string): nat
    requires AllDigits(s)
  {
    if s == [] then 0 else Parse(s[..|s| - 1]) * 10 + DigitValue(s[|s| - 1])
  }

  /** `str(n)`: no leading zero, at least one digit. */
  function Digits(n: nat): (s: string)
    ensures AllDigits(s) && |s| >= 1
    ensures |s| > 1 ==> s[0] != '0'
  {
    if n < 10 then [DigitChar(n)] else Digits(n / 10) + [DigitChar(n % 10)]
  }

  /** Reading back a numeral gives the number. */
  lemma {:induction false} ParseDigits(n: nat)
    ensures Parse(Digits(n)) == n
  {
    if n >= 10 {
      ParseDigits(n / 10);
      var s := Digits(n);
      assert s[..|s| - 1] == Digits(n / 10);
    } else {
      assert Digits(n)[..0] == [];
    }
  }

  lemma DigitsInjective(i: nat, j: nat)
    ensures Digits(i) == Digits(j) <==> i == j
  {
    ParseDigits(i);
    ParseDigits(j);
  }

  /** A numeral followed by text that does not start with a digit can be
      split again: the numeral and the text are both determined. */
  lemma {:induction false} DigitsThenText(i: nat, j: nat, x: string, y: string)
    requires x != [] && !IsDigit(x[0]) && y != [] && !IsDigit(y[0])
    ensures Digits(i) + x == Digits(j) + y <==> i == j && x == y
  {
    var di, dj := Digits(i), Digits(j);
    if di + x == dj + y {
      assert forall k :: 0 <= k < |dj| ==> IsDigit((dj + y)[k]);
      assert forall k :: 0 <= k < |di| ==> IsDigit((di + x)[k]);
      assert !IsDigit((di + x)[|di|]) && !IsDigit((dj + y)[|dj|]);
      assert |di| == |dj|;
      assert di == (di + x)[..|di|] && dj == (dj + y)[..|dj|];
      assert x == (di + x)[|di|..] && y == (dj + y)[|dj|..];
      DigitsInjective(i, j);
    }
  }
}
