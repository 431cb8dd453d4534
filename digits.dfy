/** ASCII decimal text, as the client's command-line patterns see it: the
    character class [0-9], the decimal value of a digit string (what `atoi`
    yields for such a string, leading zeros included), the fixed-width integer
    types the socket address stores, and the canonical decimal spelling of a
    number, which serves as the inverse of `Value`. */
module Digits {

  /** One octet: a group of the 32-bit IPv4 address (section 3.1 of RFC 791). */
  newtype byte = x: int | 0 <= x < 0x100

  /** The 16-bit TCP port (section 3.1 of RFC 793), C's `in_port_t`. */
  newtype uint16 = x: int | 0 <= x < 0x1_0000

  /** The regular-expression class [0-9]. */
  predicate IsDigit(c: char) {
    '0' <= c <= '9'
  }

  predicate AllDigits(s: string) {
    forall i :: 0 <= i < |s| ==> IsDigit(s[i])
  }

  function DigitValue(c: char): (d: nat)
    requires IsDigit(c)
    ensures d < 10
  {
    c as int - '0' as int
  }

  function DigitChar(d: nat): (c: char)
    requires d < 10
    ensures IsDigit(c) && DigitValue(c) == d
  {
    ('0' as int + d) as char
  }

  function Pow10(n: nat): (p: nat)
    ensures p >= 1
  {
    if n == 0 then 1 else 10 * Pow10(n - 1)
  }

  /** Decimal value of a digit string, most significant digit first. */
  function Value(s: string): (v: nat)
    requires AllDigits(s)
    ensures v < Pow10(|s|)
  {
    if s == [] then 0 else Value(s[..|s| - 1]) * 10 + DigitValue(s[|s| - 1])
  }

  /** The value of a digit string split at its first digit. */
  lemma {:induction false} ValueFront(s: string)
    requires AllDigits(s) && |s| >= 1
    ensures Value(s) == DigitValue(s[0]) * Pow10(|s| - 1) + Value(s[1..])
  {
    var n := |s|;
    if n > 1 {
      var init, rest := s[..n - 1], s[1..];
      ValueFront(init);
      assert init[1..] == rest[..n - 2];
      assert rest[n - 2] == s[n - 1];
      ShiftDigit(Value(s), Value(init), Value(rest), DigitValue(s[0]), Pow10(n - 2),
                 Value(init[1..]), DigitValue(s[n - 1]), Pow10(n - 1));
    }
  }

  /** The arithmetic of moving the last digit past the first. */
  lemma ShiftDigit(whole: int, init: int, rest: int, first: int, p: int, middle: int, last: int, q: int)
    requires whole == init * 10 + last && init == first * p + middle
    requires rest == middle * 10 + last && q == 10 * p
    ensures whole == first * q + rest
  {
  }

  /** A digit string that does not start with '0' is at least 10^(length - 1). */
  lemma LeadingDigitBound(s: string)
    requires AllDigits(s) && |s| >= 1 && s[0] != '0'
    ensures Value(s) >= Pow10(|s| - 1)
  {
    ValueFront(s);
  }

  /** Canonical decimal spelling of n: no leading zero unless n is 0. */
  function DecimalText(n: nat): (s: string)
    ensures AllDigits(s) && |s| >= 1
    ensures Value(s) == n
    ensures |s| > 1 ==> s[0] != '0'
  {
    if n < 10 then [DigitChar(n)]
    else
      var init := DecimalText(n / 10);
      var s := init + [DigitChar(n % 10)];
      assert s[..|s| - 1] == init;
      s
  }

  /** The canonical spelling of a number below 10^k has at most k digits. */
  lemma DecimalTextLength(n: nat, k: nat)
    requires k >= 1 && n < Pow10(k)
    ensures |DecimalText(n)| <= k
  {
    var s := DecimalText(n);
    if |s| > 1 {
      LeadingDigitBound(s);
      PowMonotone(k, |s| - 1);
    }
  }

  lemma {:induction false} PowMonotone(i: nat, j: nat)
    ensures i <= j ==> Pow10(i) <= Pow10(j)
  {
    if i < j {
      PowMonotone(i, j - 1);
    }
  }
}
