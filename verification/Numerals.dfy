/** Positional numerals: what kernel_itoa is to print, and how such a text is read back. */
module Numerals {

  function Digit(d: int): char
    requires 0 <= d < 16
  {
    "0123456789ABCDEF"[d]
  }

  /** The value of a digit character, or -1. */
  function DigitValue(c: char): int {
    if '0' <= c <= '9' then c as int - '0' as int
    else if 'A' <= c <= 'F' then c as int - 'A' as int + 10
    else -1
  }

  predicate IsBase(base: int) { base == 2 || base == 8 || base == 10 || base == 16 }

  function Numeral(n: nat, base: int): string
    requires IsBase(base)
  {
    if n < base then [Digit(n)] else Numeral(n / base, base) + [Digit(n % base)]
  }

  /** Horner's rule, most significant digit first. */
  function Value(s: string, base: int): int {
    if s == "" then 0 else Value(s[..|s| - 1], base) * base + DigitValue(s[|s| - 1])
  }

  /** A non-empty text of digits below base, without a leading zero unless it is "0". */
  ghost predicate Canonical(s: string, base: int) {
    && s != ""
    && (forall i :: 0 <= i < |s| ==> 0 <= DigitValue(s[i]) < base)
    && (s[0] == '0' ==> |s| == 1)
  }

  lemma DigitRoundTrip(d: int)
    requires 0 <= d < 16
    ensures DigitValue(Digit(d)) == d && (Digit(d) == '0' <==> d == 0) && Digit(d) != '\0' && Digit(d) != '-'
  {
  }

  lemma {:induction false} NumeralIsCanonical(n: nat, base: int)
    requires IsBase(base)
    ensures Canonical(Numeral(n, base), base) && Value(Numeral(n, base), base) == n
    ensures Numeral(n, base)[0] == '0' <==> n == 0
  {
    Quotient(n, base);
    if n >= base {
      hide Canonical, Value;
      NumeralIsCanonical(n / base, base);
      CanonicalAppend(Numeral(n / base, base), base, n % base);
    } else {
      DigitRoundTrip(n);
      OneDigit(n, base);
    }
  }

  lemma OneDigit(d: int, base: int)
    requires IsBase(base) && 0 <= d < base
    ensures Canonical([Digit(d)], base) && Value([Digit(d)], base) == d
  {
    DigitRoundTrip(d);
    assert [Digit(d)][..0] == "";
  }

  /** A numeral holds neither a NUL nor a sign. */
  lemma {:induction false} NumeralIsText(n: nat, base: int)
    requires IsBase(base)
    ensures '\0' !in Numeral(n, base) && '-' !in Numeral(n, base)
  {
    DigitRoundTrip(n % base);
    if n >= base {
      NumeralIsText(n / base, base);
    }
  }

  lemma CanonicalAppend(high: string, base: int, d: int)
    requires IsBase(base) && Canonical(high, base) && high[0] != '0' && 0 <= d < base
    ensures Canonical(high + [Digit(d)], base)
    ensures Value(high + [Digit(d)], base) == Value(high, base) * base + d
    ensures (high + [Digit(d)])[0] == high[0]
  {
    DigitRoundTrip(d);
    assert (high + [Digit(d)])[..|high|] == high;
  }

  lemma CharOfDigit(c: char)
    requires 0 <= DigitValue(c) < 16
    ensures Digit(DigitValue(c)) == c
  {
  }

  lemma {:induction false} ValueBounds(s: string, base: int)
    requires IsBase(base) && Canonical(s, base)
    ensures Value(s, base) >= 0
    ensures |s| > 1 ==> Value(s, base) >= base
    ensures |s| == 1 ==> Value(s, base) < base
    ensures |s| == 1 && s[0] != '0' ==> Value(s, base) > 0
  {
    var high := s[..|s| - 1];
    if |s| == 1 {
      assert high == "";
      assert Value(high, base) == 0;
    } else {
      assert Canonical(high, base);
      ValueBounds(high, base);
      assert Value(high, base) * base >= base;
    }
  }

  /** There is exactly one canonical numeral for each number: reading and printing are inverse. */
  lemma {:induction false} CanonicalIsNumeral(s: string, base: int)
    requires IsBase(base) && Canonical(s, base)
    ensures Value(s, base) >= 0 && Numeral(Value(s, base), base) == s
  {
    ValueBounds(s, base);
    var high, last := s[..|s| - 1], s[|s| - 1];
    CharOfDigit(last);
    assert s == high + [last];
    if |s| > 1 {
      assert Canonical(high, base);
      CanonicalIsNumeral(high, base);
      var v := Value(high, base);
      DivisionByBase(v, base, DigitValue(last));
    } else {
      assert high == "";
      assert Value(s, base) == 0 * base + DigitValue(last);
    }
  }

  lemma DivisionByBase(v: int, base: int, d: int)
    requires v >= 0 && IsBase(base) && 0 <= d < base
    ensures (v * base + d) / base == v && (v * base + d) % base == d
  {
    if base == 2 {} else if base == 8 {} else if base == 10 {} else {}
  }

  lemma Quotient(n: nat, base: int)
    requires IsBase(base)
    ensures n == n / base * base + n % base
    ensures 0 <= n % base < base && n / base >= 0
    ensures n / base >= 1 <==> n >= base
    ensures n > 0 ==> n / base < n
    ensures n < base ==> n % base == n
  {
    if base == 2 {} else if base == 8 {} else if base == 10 {} else {}
  }

  lemma {:induction false} NumeralLength(n: nat, base: int, digits: nat)
    requires IsBase(base) && digits >= 1 && n < Power(base, digits)
    ensures |Numeral(n, base)| <= digits
    decreases digits
  {
    if n >= base {
      Quotient(n, base);
      if digits > 1 {
        QuotientBelow(n, base, Power(base, digits - 1));
        NumeralLength(n / base, base, digits - 1);
      }
    }
  }

  lemma QuotientBelow(n: nat, base: int, rest: int)
    requires IsBase(base) && n < base * rest
    ensures n / base < rest
  {
    if base == 2 {} else if base == 8 {} else if base == 10 {} else {}
  }

  function Power(b: int, e: nat): int {
    if e == 0 then 1 else b * Power(b, e - 1)
  }
}
