/** kernel_itoa, kernel_strlen and kernel_vsprintf of source/kernel/tools/klib.c on character memory. */
module Klib {
  import opened Sequences
  import opened Numerals

  const INT_MIN: int := -0x8000_0000
  const INT_MAX: int := 0x7FFF_FFFF
  const UINT32: int := 0x1_0000_0000

  /** The source's digit table, indexed by a remainder between -15 and 15 after adding 15. */
  const NUM2CH: string := "FEDCBA9876543210123456789ABCDEF"

  /** C's division and remainder, which round towards zero. */
  function CDiv(a: int, b: int): int
    requires b > 0
  {
    if a >= 0 then a / b else -(-a / b)
  }

  function CRem(a: int, b: int): int
    requires b > 0
  {
    if a >= 0 then a % b else -(-a % b)
  }

  // ---------- C strings ----------

  /** The text of the NUL-terminated string at the start of mem. */
  function CString(mem: seq<char>): string
    requires '\0' in mem
  {
    if mem[0] == '\0' then "" else [mem[0]] + CString(mem[1..])
  }

  lemma {:induction false} CStringIs(mem: seq<char>, n: nat)
    requires n < |mem| && mem[n] == '\0' && '\0' !in mem[..n]
    ensures CString(mem) == mem[..n]
  {
    if n > 0 {
      assert mem[0] in mem[..n];
      assert mem[1..][n - 1] == '\0';
      assert mem[1..][..n - 1] == mem[..n][1..];
      CStringIs(mem[1..], n - 1);
    }
  }

  lemma {:induction false} CStringEnds(mem: seq<char>)
    requires '\0' in mem
    ensures |CString(mem)| < |mem| && mem[|CString(mem)|] == '\0'
    ensures mem[..|CString(mem)|] == CString(mem) && '\0' !in CString(mem)
  {
    if mem[0] != '\0' {
      assert '\0' in mem[1..];
      CStringEnds(mem[1..]);
      var n := |CString(mem[1..])|;
      assert mem[..n + 1] == [mem[0]] + mem[1..][..n];
    }
  }

  /** kernel_strlen of a non-null pointer */
  method Strlen(mem: seq<char>) returns (len: nat)
    requires '\0' in mem
    ensures len == |CString(mem)|
  {
    CStringEnds(mem);
    assert forall i :: 0 <= i < |CString(mem)| ==> CString(mem)[i] != '\0' && mem[i] == CString(mem)[i];
    len := 0;
    while mem[len] != '\0'
      invariant len <= |CString(mem)|
      decreases |mem| - len
    {
      len := len + 1;
    }
  }

  // ---------- kernel_itoa ----------

  /** What kernel_itoa prints: signed in base 10, otherwise the unsigned 32-bit pattern. */
  function Rendered(num: int, base: int): string
    requires INT_MIN <= num <= INT_MAX
  {
    if !IsBase(base) then ""
    else if num < 0 && base == 10 then "-" + Numeral(-num, 10)
    else Numeral(num % UINT32, base)
  }

  /** Reading such a text back. */
  function Parse(s: string, base: int): int {
    if s != "" && s[0] == '-' then -Value(s[1..], base) else Value(s, base)
  }

  /** Printing loses nothing: base 10 gives back the number, INT_MIN included, and the other bases the
      number modulo 2^32; the digits form the one numeral without leading zeros; no NUL is printed. */
  lemma ItoaRoundTrip(num: int, base: int)
    requires INT_MIN <= num <= INT_MAX && IsBase(base)
    ensures Parse(Rendered(num, base), base) == if base == 10 then num else num % UINT32
    ensures var digits := if num < 0 && base == 10 then Rendered(num, base)[1..] else Rendered(num, base);
            Canonical(digits, base)
    ensures '\0' !in Rendered(num, base)
  {
    var m := if num < 0 && base == 10 then -num else num % UINT32;
    NumeralIsCanonical(m, base);
    NumeralIsText(m, base);
    if num < 0 && base == 10 {
      assert Rendered(num, base)[1..] == Numeral(m, base);
    } else {
      assert Numeral(m, base)[0] in Numeral(m, base);
    }
  }

  /** Different numbers are printed differently, in any one base. */
  lemma ItoaInjective(a: int, b: int, base: int)
    requires INT_MIN <= a <= INT_MAX && INT_MIN <= b <= INT_MAX && IsBase(base)
    requires Rendered(a, base) == Rendered(b, base)
    ensures a == b
  {
    hide *;
    ItoaRoundTrip(a, base);
    ItoaRoundTrip(b, base);
    SamePattern(a, b);
  }

  /** A 32-bit int is given by its bit pattern. */
  lemma SamePattern(a: int, b: int)
    requires INT_MIN <= a <= INT_MAX && INT_MIN <= b <= INT_MAX
    ensures a % UINT32 == b % UINT32 <==> a == b
  {
  }

  /** With the NUL, at most 33 bytes are written. */
  lemma ItoaLength(num: int, base: int)
    requires INT_MIN <= num <= INT_MAX
    ensures |Rendered(num, base)| <= 32
    ensures base == 10 ==> |Rendered(num, base)| <= 11
  {
    if IsBase(base) {
      var m := if num < 0 && base == 10 then -num else num % UINT32;
      if base == 10 {
        assert Power(10, 10) == 10_000_000_000 by { PowerOfTen(); }
        NumeralLength(m, 10, 10);
      } else if base == 2 {
        PowerOfTwo();
        NumeralLength(m, 2, 32);
      } else if base == 8 {
        PowerOfEight();
        NumeralLength(m, 8, 11);
      } else {
        PowerOfSixteen();
        NumeralLength(m, 16, 8);
      }
    }
  }

  lemma PowerOfTen()
    ensures Power(10, 10) == 10_000_000_000
  {
    assert Power(10, 5) == 100_000;
  }

  lemma PowerOfTwo()
    ensures Power(2, 32) == UINT32
  {
    assert Power(2, 8) == 256;
    assert Power(2, 16) == 256 * 256;
    assert Power(2, 24) == 256 * 256 * 256;
  }

  lemma PowerOfEight()
    ensures Power(8, 11) == 8 * 0x4000_0000
  {
    assert Power(8, 5) == 0x8000;
    assert Power(8, 10) == 0x4000_0000;
  }

  lemma PowerOfSixteen()
    ensures Power(16, 8) == UINT32
  {
    assert Power(16, 4) == 0x1_0000;
  }

  lemma Num2Ch(r: int)
    requires -15 <= r <= 15
    ensures NUM2CH[r + 15] == Digit(if r < 0 then -r else r)
  {
    assert forall k :: 0 <= k <= 15 ==> NUM2CH[15 + k] == "0123456789ABCDEF"[k];
    assert forall k :: 0 <= k <= 15 ==> NUM2CH[15 - k] == "0123456789ABCDEF"[k];
  }

  lemma ReversedSnoc<T>(s: seq<T>, x: T)
    ensures Reversed(s + [x]) == [x] + Reversed(s)
  {
  }

  /** buf[from..to] holds the digits of n, least significant first, that are still missing from `rest`. */
  ghost predicate DigitsSoFar(written: string, rest: nat, more: bool, n: nat, base: int)
    requires IsBase(base)
  {
    Numeral(n, base) == (if more then Numeral(rest, base) else "") + Reversed(written)
  }

  lemma NextDigit(written: string, rest: nat, n: nat, base: int)
    requires IsBase(base) && DigitsSoFar(written, rest, true, n, base)
    ensures DigitsSoFar(written + [Digit(rest % base)], rest / base, rest / base != 0, n, base)
    ensures |written| < |Numeral(n, base)|
  {
    hide Reversed;
    Quotient(rest, base);
    ReversedSnoc(written, Digit(rest % base));
    var d, r := [Digit(rest % base)], Reversed(written);
    if rest >= base {
      var high := Numeral(rest / base, base);
      assert (high + d) + r == high + (d + r);
    } else {
      assert d + r == "" + (d + r);
    }
  }

  /** The do-while loop of kernel_itoa for negative numbers, on C's truncated remainders. */
  method EmitSigned(buf: array<char>, start: nat, num: int) returns (p: nat)
    requires INT_MIN <= num < 0 && start + |Numeral(-num, 10)| <= buf.Length
    modifies buf
    ensures p == start + |Numeral(-num, 10)|
    ensures Reversed(buf[start..p]) == Numeral(-num, 10)
    ensures forall i :: 0 <= i < buf.Length && !(start <= i < p) ==> buf[i] == old(buf[i])
  {
    hide *;
    p := start;
    var rest, more := num, true;
    NoDigitsYet(buf[start..p], -num);
    while more
      invariant start <= p <= buf.Length && INT_MIN <= rest <= 0
      invariant DigitsSoFar(buf[start..p], -rest, more, -num, 10)
      invariant forall i :: 0 <= i < buf.Length && !(start <= i < p) ==> buf[i] == old(buf[i])
      decreases more, -rest
    {
      SignedDigit(rest);
      NextDigit(buf[start..p], -rest, -num, 10);
      ghost var written := buf[start..p];
      buf[p] := NUM2CH[CRem(rest, 10) + 15];
      p := p + 1;
      assert buf[start..p] == written + [Digit(-rest % 10)];
      rest := CDiv(rest, 10);
      more := rest != 0;
    }
    AllDigits(buf[start..p], -rest, -num);
  }

  /** A truncated remainder and quotient of a negative number, by its absolute value. */
  lemma SignedDigit(rest: int)
    requires INT_MIN <= rest <= 0
    ensures 0 <= CRem(rest, 10) + 15 < |NUM2CH| && NUM2CH[CRem(rest, 10) + 15] == Digit(-rest % 10)
    ensures INT_MIN <= CDiv(rest, 10) <= 0 && -CDiv(rest, 10) == -rest / 10
    ensures CDiv(rest, 10) != 0 ==> -CDiv(rest, 10) < -rest
  {
    Num2Ch(CRem(rest, 10));
  }

  lemma NoDigitsYet(written: string, n: nat)
    requires written == ""
    ensures DigitsSoFar(written, n, true, n, 10) && IsBase(10)
  {
    assert Reversed(written) == "" && Numeral(n, 10) + "" == Numeral(n, 10);
  }

  lemma AllDigits(written: string, rest: nat, n: nat)
    requires DigitsSoFar(written, rest, false, n, 10)
    ensures Reversed(written) == Numeral(n, 10) && |written| == |Numeral(n, 10)|
  {
    assert "" + Reversed(written) == Reversed(written);
  }

  /** The do-while loop of kernel_itoa on the unsigned 32-bit value. */
  method EmitUnsigned(buf: array<char>, start: nat, u: nat, base: int) returns (p: nat)
    requires IsBase(base) && u < UINT32 && start + |Numeral(u, base)| <= buf.Length
    modifies buf
    ensures p == start + |Numeral(u, base)|
    ensures Reversed(buf[start..p]) == Numeral(u, base)
    ensures forall i :: 0 <= i < buf.Length && !(start <= i < p) ==> buf[i] == old(buf[i])
  {
    hide Reversed, Numeral;
    p := start;
    var rest: nat := u;
    var more := true;
    while more
      invariant start <= p <= buf.Length
      invariant DigitsSoFar(buf[start..p], rest, more, u, base)
      invariant forall i :: 0 <= i < buf.Length && !(start <= i < p) ==> buf[i] == old(buf[i])
      decreases more, rest
    {
      Quotient(rest, base);
      Num2Ch(rest % base);
      NextDigit(buf[start..p], rest, u, base);
      ghost var written := buf[start..p];
      buf[p] := NUM2CH[rest % base + 15];
      p := p + 1;
      assert buf[start..p] == written + [Digit(rest % base)];
      rest := rest / base;
      more := rest != 0;
    }
  }

  /** The final loop of kernel_itoa: the characters from lo to hi, both included, change places. */
  method ReverseInPlace(buf: array<char>, lo: nat, hi: nat)
    requires lo <= hi < buf.Length
    modifies buf
    ensures buf[lo..hi + 1] == Reversed(old(buf[lo..hi + 1]))
    ensures forall i :: 0 <= i < buf.Length && !(lo <= i <= hi) ==> buf[i] == old(buf[i])
  {
    ghost var was := buf[..];
    var start, p := lo, hi;
    while start < p
      invariant lo <= start && p <= hi && start - lo == hi - p && start <= p + 1
      invariant forall i :: 0 <= i < buf.Length ==>
                  buf[i] == was[if lo <= i < start || p < i <= hi then lo + hi - i else i]
      decreases p - start
    {
      buf[start], buf[p] := buf[p], buf[start];
      p := p - 1;
      start := start + 1;
    }
    MirrorIsReversed(was, buf[..], lo, hi);
  }

  lemma MirrorIsReversed(was: seq<char>, now: seq<char>, lo: nat, hi: nat)
    requires lo <= hi < |was| == |now|
    requires forall i :: lo <= i <= hi ==> now[i] == was[lo + hi - i]
    ensures now[lo..hi + 1] == Reversed(was[lo..hi + 1])
  {
    var s := was[lo..hi + 1];
    assert forall k :: 0 <= k < |s| ==> Reversed(s)[k] == s[|s| - 1 - k] == was[lo + hi - (lo + k)];
  }

  /** The tail of kernel_itoa: the NUL after the digits, and the digits into reading order. */
  method Finish(buf: array<char>, start: nat, end: nat)
    requires start < end < buf.Length
    modifies buf
    ensures buf[start..end] == Reversed(old(buf[start..end])) && buf[end] == '\0'
    ensures forall i :: 0 <= i < buf.Length && !(start <= i <= end) ==> buf[i] == old(buf[i])
  {
    ghost var digits := buf[start..end];
    buf[end] := '\0';
    assert buf[start..end] == digits;
    ReverseInPlace(buf, start, end - 1);
  }

  /** kernel_itoa(buf + off, num, base), given room for the text and its NUL */
  method Itoa(buf: array<char>, off: nat, num: int, base: int)
    requires INT_MIN <= num <= INT_MAX && off + |Rendered(num, base)| < buf.Length
    modifies buf
    ensures buf[off..off + |Rendered(num, base)|] == Rendered(num, base)
    ensures buf[off + |Rendered(num, base)|] == '\0'
    ensures !IsBase(base) ==> buf[off] == '\0'
    ensures forall i :: 0 <= i < buf.Length && !(off <= i <= off + |Rendered(num, base)|) ==> buf[i] == old(buf[i])
  {
    hide Numeral;
    if base != 2 && base != 8 && base != 10 && base != 16 {
      buf[off] := '\0';
      return;
    }
    hide Reversed, Numeral, Value;
    if num < 0 && base == 10 {
      ItoaSigned(buf, off, num);
    } else {
      ItoaUnsigned(buf, off, num % UINT32, base);
    }
  }

  method ItoaSigned(buf: array<char>, off: nat, num: int)
    requires INT_MIN <= num < 0 && off + 1 + |Numeral(-num, 10)| < buf.Length
    modifies buf
    ensures var n := |Numeral(-num, 10)|;
            && buf[off..off + 1 + n] == "-" + Numeral(-num, 10) && buf[off + 1 + n] == '\0'
            && forall i :: 0 <= i < buf.Length && !(off <= i <= off + 1 + n) ==> buf[i] == old(buf[i])
  {
    hide Reversed, Numeral, Value;
    buf[off] := '-';
    var p := EmitSigned(buf, off + 1, num);
    NumeralIsCanonical(-num, 10);
    Finish(buf, off + 1, p);
    assert buf[off..p] == [buf[off]] + buf[off + 1..p];
  }

  method ItoaUnsigned(buf: array<char>, off: nat, u: nat, base: int)
    requires IsBase(base) && u < UINT32 && off + |Numeral(u, base)| < buf.Length
    modifies buf
    ensures var n := |Numeral(u, base)|;
            && buf[off..off + n] == Numeral(u, base) && buf[off + n] == '\0'
            && forall i :: 0 <= i < buf.Length && !(off <= i <= off + n) ==> buf[i] == old(buf[i])
  {
    hide Reversed, Numeral, Value;
    var p := EmitUnsigned(buf, off, u, base);
    NumeralIsCanonical(u, base);
    Finish(buf, off, p);
  }
}
