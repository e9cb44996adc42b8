/** Decimal text of natural numbers: what Python's `str` prints for a
    non-negative `int`, and the digit arithmetic the weight renderer needs. */
module Decimal {

  /** 10^n. */
  function Pow10(n: nat): (r: nat)
    ensures r >= 1
    ensures n >= 1 ==> r >= 10
  {
    if n == 0 then 1 else 10 * Pow10(n - 1)
  }

  predicate IsDigit(c: char) {
    '0' <= c <= '9'
  }

  predicate AllDigits(s: string) {
    forall i :: 0 <= i < |s| ==> IsDigit(s[i])
  }

  function DigitChar(d: nat): (c: char)
    requires d < 10
    ensures IsDigit(c) && c as int - '0' as int == d
  {
    ('0' as int + d) as char
  }

  /** Reads a string of decimal digits back as a number (most significant digit first). */
  function ParseDigits(s: string): nat
    requires AllDigits(s)
  {
    if s == [] then 0
    else 10 * ParseDigits(s[..|s| - 1]) + (s[|s| - 1] as int - '0' as int)
  }

  /** `str(n)` for a non-negative Python int: shortest decimal text, no sign. */
  function NatToString(n: nat): (r: string)
    ensures |r| >= 1 && AllDigits(r)
    ensures ParseDigits(r) == n
    ensures |r| > 1 ==> r[0] != '0'
  {
    if n < 10 then [DigitChar(n)]
    else
      var prefix := NatToString(n / 10);
      var r := prefix + [DigitChar(n % 10)];
      assert r[..|r| - 1] == prefix;
      r
  }

  /** Two numbers print alike only when they are equal. */
  lemma NatToStringInjective(a: nat, b: nat)
    requires NatToString(a) == NatToString(b)
    ensures a == b
  {
  }

  /** `n` zero characters. */
  function Zeros(n: nat): (r: string)
    ensures |r| == n && forall i :: 0 <= i < n ==> r[i] == '0'
  {
    seq(n, _ => '0')
  }

  lemma MulPow10Step(m: nat, z: nat)
    ensures m * Pow10(z + 1) == 10 * (m * Pow10(z))
  {
    assert Pow10(z + 1) == 10 * Pow10(z);
    assert m * (10 * Pow10(z)) == 10 * (m * Pow10(z));
  }

  /** Splits a positive number into `m * 10^z` with `m` not ending in a zero digit. */
  function StripTrailingZeros(a: nat): (p: (nat, nat))
    requires a > 0
    ensures p.0 * Pow10(p.1) == a
    ensures p.0 > 0 && p.0 % 10 != 0
    decreases a
  {
    if a % 10 == 0 then
      var (m, z) := StripTrailingZeros(a / 10);
      MulPow10Step(m, z);
      (m, z + 1)
    else (a, 0)
  }
}
