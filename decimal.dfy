/** Decimal rendering of integers, as a JavaScript template literal `${n}` renders
    an integer-valued number: an optional minus sign followed by the digits, with
    no leading zeros. Student ids are built from it, so what matters here is that
    the rendering is injective. */
module Decimal {

  predicate IsDigit(c: char) {
    '0' <= c <= '9'
  }

  function DigitChar(d: nat): (c: char)
    requires d < 10
    ensures IsDigit(c) && DigitValue(c) == d
  {
    ('0' as int + d) as char
  }

  function DigitValue(c: char): (d: nat)
    requires IsDigit(c)
    ensures d < 10
  {
    c as int - '0' as int
  }

  /** The digits of a natural number, most significant first. */
  function FromNat(n: nat): (s: string)
    ensures |s| >= 1
    ensures forall i :: 0 <= i < |s| ==> IsDigit(s[i])
  {
    if n < 10 then [DigitChar(n)] else FromNat(n / 10) + [DigitChar(n % 10)]
  }

  /** `${n}` for an integer n. */
  function FromInt(n: int): string {
    if n < 0 then "-" + FromNat(-n) else FromNat(n)
  }

  /** The value of a string of digits (the reading back of FromNat). */
  function ToNat(s: string): nat
    requires forall i :: 0 <= i < |s| ==> IsDigit(s[i])
  {
    if s == [] then 0 else ToNat(s[..|s| - 1]) * 10 + DigitValue(s[|s| - 1])
  }

  lemma {:induction false} ToNatFromNat(n: nat)
    ensures ToNat(FromNat(n)) == n
  {
    var s := FromNat(n);
    if n < 10 {
      assert s[..|s| - 1] == [];
    } else {
      ToNatFromNat(n / 10);
      assert s[..|s| - 1] == FromNat(n / 10);
    }
  }

  lemma FromNatInjective(a: nat, b: nat)
    requires FromNat(a) == FromNat(b)
    ensures a == b
  {
    ToNatFromNat(a);
    ToNatFromNat(b);
  }

  /** Only the rendering of a negative number starts with a minus sign. */
  lemma FromIntSign(n: int)
    ensures |FromInt(n)| >= 1
    ensures FromInt(n)[0] == '-' <==> n < 0
  {
    if n >= 0 {
      assert IsDigit(FromNat(n)[0]);
    }
  }

  lemma FromIntInjective(a: int, b: int)
    requires FromInt(a) == FromInt(b)
    ensures a == b
  {
    FromIntSign(a);
    FromIntSign(b);
    if a < 0 && b < 0 {
      assert FromNat(-a) == FromInt(a)[1..];
      assert FromNat(-b) == FromInt(b)[1..];
      FromNatInjective(-a, -b);
    } else if a >= 0 && b >= 0 {
      FromNatInjective(a, b);
    }
  }
}
