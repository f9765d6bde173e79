/** Positional numerals, as `{}` and `{:x}` print integers: bases ten and sixteen. */
module Numerals {
  import opened Wrappers

  predicate IsBase(base: nat) {
    base == 10 || base == 16
  }

  function DigitChar(d: nat): (c: char)
    requires d < 16
  {
    if d < 10 then '0' + (d as char) else 'a' + ((d - 10) as char)
  }

  function DigitValue(c: char): (d: nat) {
    if '0' <= c <= '9' then (c - '0') as nat
    else if 'a' <= c <= 'f' then (c - 'a') as nat + 10
    else 16
  }

  predicate IsDigit(c: char, base: nat) {
    DigitValue(c) < base
  }

  predicate AllDigits(s: string, base: nat) {
    forall c :: c in s ==> IsDigit(c, base)
  }

  lemma DigitRoundTrip(d: nat)
    requires d < 16
    ensures DigitValue(DigitChar(d)) == d
  {
  }

  function Quotient(n: nat, base: nat): (q: nat)
    requires IsBase(base)
    ensures n >= base ==> q < n
  {
    if base == 10 then n / 10 else n / 16
  }

  function Remainder(n: nat, base: nat): (r: nat)
    requires IsBase(base)
    ensures r < base && n == Quotient(n, base) * base + r
  {
    if base == 10 then n % 10 else n % 16
  }

  function Numeral(n: nat, base: nat): (s: string)
    requires IsBase(base)
    ensures |s| > 0 && AllDigits(s, base)
    decreases n
  {
    DigitRoundTrip(Remainder(n, base));
    DigitRoundTrip(if n < base then n else 0);
    if n < base then [DigitChar(n)] else Numeral(Quotient(n, base), base) + [DigitChar(Remainder(n, base))]
  }

  function Value(s: string, base: nat): nat {
    if s == "" then 0 else Value(s[..|s| - 1], base) * base + DigitValue(s[|s| - 1])
  }

  /** Reading a printed numeral gives the number back. */
  lemma {:induction false} ValueOfNumeral(n: nat, base: nat)
    requires IsBase(base)
    ensures Value(Numeral(n, base), base) == n
    decreases n
  {
    DigitRoundTrip(Remainder(n, base));
    var s := Numeral(n, base);
    if n < base {
      assert s[..|s| - 1] == "";
      DigitRoundTrip(n);
    } else {
      ValueOfNumeral(Quotient(n, base), base);
      assert s[..|s| - 1] == Numeral(Quotient(n, base), base);
    }
  }

  lemma NumeralInjective(m: nat, n: nat, base: nat)
    requires IsBase(base) && Numeral(m, base) == Numeral(n, base)
    ensures m == n
  {
    ValueOfNumeral(m, base);
    ValueOfNumeral(n, base);
  }

  function Decimal(n: nat): string {
    Numeral(n, 10)
  }

  /** `{}` on a signed integer. */
  function IntText(i: int): (s: string)
    ensures |s| > 0
  {
    if i < 0 then "-" + Decimal(-i) else Decimal(i)
  }

  /** `str::parse` of an unsigned number: an optional plus, digits, and no overflow. On text
      without a minus sign, also of a signed one. */
  function ParseUnsigned(text: string, max: nat): (r: Option<nat>)
    ensures r.Some? ==> r.value <= max
  {
    var digits := if "+" <= text then text[1..] else text;
    if digits == "" || !AllDigits(digits, 10) || Value(digits, 10) > max then None
    else Some(Value(digits, 10))
  }

  lemma ParseOfDecimal(n: nat, max: nat)
    requires n <= max
    ensures ParseUnsigned(Decimal(n), max) == Some(n)
  {
    ValueOfNumeral(n, 10);
    var s := Decimal(n);
    assert s[0] in s && IsDigit(s[0], 10);
  }
}
