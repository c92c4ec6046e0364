/**
  Decimal rendering of unsigned integers, as Rust's `u32::to_string` produces it:
  the shortest string of ASCII digits, with no sign and no leading zero.
*/
module Decimal {

  const U32_MAX: nat := 0xFFFF_FFFF

  predicate IsDigit(c: char)
  {
    '0' <= c <= '9'
  }

  predicate AllDigits(s: string)
  {
    forall i :: 0 <= i < |s| ==> IsDigit(s[i])
  }

  function DigitChar(d: nat): (c: char)
    requires d < 10
    ensures IsDigit(c) && c as int - '0' as int == d
  {
    ('0' as int + d) as char
  }

  /** The value a string of decimal digits denotes. */
  function ValueOf(s: string): nat
    requires AllDigits(s)
  {
    if s == [] then 0 else ValueOf(s[..|s| - 1]) * 10 + (s[|s| - 1] as int - '0' as int)
  }

  /** `n.to_string()`. */
  function ToDecimal(n: nat): (s: string)
    ensures Canonical(s)
    ensures n >= 10 ==> |s| >= 2
  {
    if n < 10 then [DigitChar(n)] else ToDecimal(n / 10) + [DigitChar(n % 10)]
  }

  /** Reading back a rendered number gives the number. */
  lemma {:induction false} ValueOfToDecimal(n: nat)
    ensures ValueOf(ToDecimal(n)) == n
  {
    var s := ToDecimal(n);
    if n >= 10 {
      ValueOfToDecimal(n / 10);
      assert s[..|s| - 1] == ToDecimal(n / 10);
    }
  }

  /** Different numbers render differently. */
  lemma ToDecimalInjective(m: nat, n: nat)
    ensures ToDecimal(m) == ToDecimal(n) ==> m == n
  {
    ValueOfToDecimal(m);
    ValueOfToDecimal(n);
  }

  /** The strings `to_string` can produce: digits only, and no leading zero unless it is "0". */
  predicate Canonical(s: string)
  {
    1 <= |s| && AllDigits(s) && (s[0] == '0' ==> s == "0")
  }

  lemma {:induction false} LeadingDigitPositive(s: string)
    requires 1 <= |s| && AllDigits(s) && s[0] != '0'
    ensures ValueOf(s) >= 1
  {
    if |s| > 1 {
      LeadingDigitPositive(s[..|s| - 1]);
    }
  }

  /** Rendering the value of a canonical digit string gives the string back. */
  lemma {:induction false} ToDecimalValueOf(s: string)
    requires Canonical(s)
    ensures ToDecimal(ValueOf(s)) == s
  {
    if |s| > 1 {
      var init := s[..|s| - 1];
      assert Canonical(init);
      LeadingDigitPositive(init);
      ToDecimalValueOf(init);
      var v := ValueOf(s);
      assert v / 10 == ValueOf(init) && v % 10 == s[|s| - 1] as int - '0' as int;
    }
  }

  /** `u32::saturating_add`: the sum, or `u32::MAX` when the sum does not fit. */
  function SaturatingAdd(a: nat, b: nat): (r: nat)
    requires a <= U32_MAX && b <= U32_MAX
    ensures r <= U32_MAX
    ensures a + b <= U32_MAX ==> r == a + b
    ensures a + b > U32_MAX ==> r == U32_MAX
  {
    if a + b <= U32_MAX then a + b else U32_MAX
  }
}
