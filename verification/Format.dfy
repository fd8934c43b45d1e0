/** kernel_vsprintf of source/kernel/tools/klib.c against a recursive description of formatting. */
module Format {
  import opened Numerals
  import opened Klib

  /** A variadic argument: an int, or a pointer to characters, null or not. */
  datatype Arg = IntArg(value: int) | NullArg | StrArg(mem: seq<char>)

  /** What the caller of kernel_vsprintf owes it: for each conversion of the format an argument of its kind. */
  ghost predicate Matches(fmt: string, args: seq<Arg>) {
    if fmt == "" then true
    else if fmt[0] != '%' then Matches(fmt[1..], args)
    else if |fmt| == 1 then true
    else if fmt[1] in "dxc" then
      args != [] && args[0].IntArg? && INT_MIN <= args[0].value <= INT_MAX && Matches(fmt[2..], args[1..])
    else if fmt[1] == 's' then
      args != [] && (args[0].NullArg? || (args[0].StrArg? && '\0' in args[0].mem)) && Matches(fmt[2..], args[1..])
    else Matches(fmt[2..], args)
  }

  /** The text of one conversion. */
  function Conversion(c: char, arg: Arg): string
    requires c in "dxc" ==> arg.IntArg? && INT_MIN <= arg.value <= INT_MAX
    requires c == 's' ==> arg.NullArg? || (arg.StrArg? && '\0' in arg.mem)
    requires c in "dxcs"
  {
    if c == 'd' then Rendered(arg.value, 10)
    else if c == 'x' then Rendered(arg.value, 16)
    else if c == 'c' then [(arg.value % 256) as char]
    else if arg.NullArg? then ""
    else CString(arg.mem)
  }

  /** The output: literal characters and conversions in order.  A '%' before any other character
      swallows it, "%%" included, and a '%' at the end prints nothing. */
  ghost function Formatted(fmt: string, args: seq<Arg>): string
    requires Matches(fmt, args)
  {
    if fmt == "" then ""
    else if fmt[0] != '%' then [fmt[0]] + Formatted(fmt[1..], args)
    else if |fmt| == 1 then ""
    else if fmt[1] in "dxcs" then Conversion(fmt[1], args[0]) + Formatted(fmt[2..], args[1..])
    else Formatted(fmt[2..], args)
  }

  // ---------- what the text says to whoever reads it ----------

  predicate Signed(text: string) { text != "" && text[0] == '-' }

  function Unsigned(text: string): string { if Signed(text) then text[1..] else text }

  /** The text of one conversion, by what it reads back as: the number in base 10 with a sign if negative, its 32-bit
      pattern in base 16, one character, or a string up to its NUL. */
  ghost predicate Shows(c: char, arg: Arg, text: string)
    requires c in "dxc" ==> arg.IntArg? && INT_MIN <= arg.value <= INT_MAX
    requires c == 's' ==> arg.NullArg? || arg.StrArg?
    requires c in "dxcs"
  {
    match c
    case 'd' => (Signed(text) <==> arg.value < 0) && Canonical(Unsigned(text), 10) && Parse(text, 10) == arg.value
    case 'x' => Canonical(text, 16) && Value(text, 16) == arg.value % UINT32
    case 'c' => |text| == 1 && text[0] as int == arg.value % 256
    case _ => if arg.NullArg? then text == "" else '\0' !in text && text + ['\0'] <= arg.mem
  }

  lemma ShowsNumber(num: int, base: int, text: string)
    requires INT_MIN <= num <= INT_MAX && (base == 10 || base == 16)
    ensures base == 10 && (Signed(text) <==> num < 0) && Canonical(Unsigned(text), 10) && Parse(text, 10) == num ==>
              text == Rendered(num, 10)
    ensures base == 16 && Canonical(text, 16) && Value(text, 16) == num % UINT32 ==> text == Rendered(num, 16)
  {
    hide Canonical, Value, Numeral;
    if base == 10 && (Signed(text) <==> num < 0) && Canonical(Unsigned(text), 10) && Parse(text, 10) == num {
      CanonicalIsNumeral(Unsigned(text), 10);
      if num < 0 { assert text == "-" + Unsigned(text); }
    }
    if base == 16 && Canonical(text, 16) && Value(text, 16) == num % UINT32 {
      CanonicalIsNumeral(text, 16);
    }
  }

  lemma NumberShows(num: int, base: int)
    requires INT_MIN <= num <= INT_MAX && (base == 10 || base == 16)
    ensures base == 10 ==>
              var text := Rendered(num, 10);
              (Signed(text) <==> num < 0) && Canonical(Unsigned(text), 10) && Parse(text, 10) == num
    ensures base == 16 ==> Canonical(Rendered(num, 16), 16) && Value(Rendered(num, 16), 16) == num % UINT32
  {
    hide Canonical, Value, Numeral;
    ItoaRoundTrip(num, base);
    var m := if num < 0 && base == 10 then -num else num % UINT32;
    NumeralIsText(m, base);
    NumeralIsCanonical(m, base);
    NotEmpty(Numeral(m, base), base);
  }

  lemma NotEmpty(s: string, base: int)
    requires Canonical(s, base)
    ensures s != "" && s[0] in s
  {
  }

  lemma ShowsString(mem: seq<char>, text: string)
    requires '\0' in mem
    ensures '\0' !in text && text + ['\0'] <= mem <==> text == CString(mem)
  {
    CStringEnds(mem);
    var n, s := |text|, text + ['\0'];
    if '\0' !in text && s <= mem {
      assert mem[..n] == s[..n] == text && mem[n] == s[n];
      CStringIs(mem, n);
    }
  }

  /** That reading back fits one text only, and it is the one that is printed. */
  lemma ShowsExactly(c: char, arg: Arg, text: string)
    requires c in "dxcs" && (c != 's' ==> arg.IntArg? && INT_MIN <= arg.value <= INT_MAX)
    requires c == 's' ==> arg.NullArg? || (arg.StrArg? && '\0' in arg.mem)
    ensures Shows(c, arg, text) <==> text == Conversion(c, arg)
  {
    hide Canonical, Value, Rendered, CString, Parse, Unsigned, Signed;
    if c == 'd' {
      ShowsNumber(arg.value, 10, text);
      NumberShows(arg.value, 10);
    } else if c == 'x' {
      ShowsNumber(arg.value, 16, text);
      NumberShows(arg.value, 16);
    } else if c == 's' && arg.StrArg? {
      ShowsString(arg.mem, text);
    }
  }

  /** out is what a reader of the format expects: the literal characters in place, and for each conversion a text that
      shows its argument.  A '%' before any other character, or at the end, stands for nothing. */
  ghost predicate Prints(fmt: string, args: seq<Arg>, out: string)
    requires Matches(fmt, args)
  {
    if fmt == "" then out == ""
    else if fmt[0] != '%' then out != "" && out[0] == fmt[0] && Prints(fmt[1..], args, out[1..])
    else if |fmt| == 1 then out == ""
    else if fmt[1] in "dxcs" then
      exists n: nat :: n <= |out| && Shows(fmt[1], args[0], out[..n]) && Prints(fmt[2..], args[1..], out[n..])
    else Prints(fmt[2..], args, out)
  }

  /** Every format prints exactly one text a reader can expect of it, and that is the formatted one. */
  lemma {:induction false} PrintsExactly(fmt: string, args: seq<Arg>, out: string)
    requires Matches(fmt, args)
    ensures Prints(fmt, args, out) <==> out == Formatted(fmt, args)
  {
    hide Shows, Conversion;
    if fmt == "" || (|fmt| == 1 && fmt[0] == '%') {
    } else if fmt[0] != '%' {
      if out != "" {
        PrintsExactly(fmt[1..], args, out[1..]);
        assert out == [out[0]] + out[1..];
      }
    } else if fmt[1] in "dxcs" {
      var text, rest := Conversion(fmt[1], args[0]), Formatted(fmt[2..], args[1..]);
      forall n: nat | n <= |out|
        ensures Shows(fmt[1], args[0], out[..n]) <==> out[..n] == text
        ensures Prints(fmt[2..], args[1..], out[n..]) <==> out[n..] == rest
      {
        ShowsExactly(fmt[1], args[0], out[..n]);
        PrintsExactly(fmt[2..], args[1..], out[n..]);
      }
      PrintsTwo(out, text, rest);
      if out == text + rest {
        assert out[..|text|] == text && out[|text|..] == rest;
      }
    } else {
      PrintsExactly(fmt[2..], args, out);
    }
  }

  lemma OneConversion(c: char, args: seq<Arg>)
    requires c in "dxcs" && Matches(['%', c], args)
    ensures Formatted(['%', c], args) == Conversion(c, args[0])
  {
    assert ['%', c][2..] == "";
    assert Formatted("", args[1..]) == "";
  }

  /** "%d" prints a text that reads back as the number in base 10, INT_MIN included; "%x" the canonical hexadecimal
      numeral of its 32-bit pattern; "%c" one character. */
  lemma NumberPrinted(n: int)
    requires INT_MIN <= n <= INT_MAX
    ensures Parse(Formatted("%d", [IntArg(n)]), 10) == n
    ensures var t := Formatted("%x", [IntArg(n)]); Canonical(t, 16) && Value(t, 16) == n % 0x1_0000_0000
    ensures Formatted("%c", [IntArg(n)]) == [(n % 256) as char]
  {
    hide Parse, Rendered, Canonical, Value, Formatted;
    OneConversion('d', [IntArg(n)]);
    OneConversion('x', [IntArg(n)]);
    OneConversion('c', [IntArg(n)]);
    ItoaRoundTrip(n, 10);
    NumberShows(n, 16);
  }

  /** "%s" prints the string before its NUL, and nothing for a null pointer. */
  lemma StringPrinted(text: string, behind: seq<char>)
    requires '\0' !in text
    ensures Formatted("%s", [StrArg(text + ['\0'] + behind)]) == text
    ensures Formatted("%s", [NullArg]) == ""
  {
    var mem := text + ['\0'] + behind;
    assert mem[|text|] == '\0' && mem[..|text|] == text;
    CStringIs(mem, |text|);
    hide CString, Formatted;
    OneConversion('s', [StrArg(mem)]);
    OneConversion('s', [NullArg]);
  }

  /** A format without '%' prints itself and takes no argument. */
  lemma {:induction false} PlainPrintsItself(f: string, args: seq<Arg>)
    requires '%' !in f
    ensures Matches(f, args) && Formatted(f, args) == f && ArgCount(f) == 0 && Closed(f)
  {
    if f != "" {
      PlainPrintsItself(f[1..], args);
      assert f == [f[0]] + f[1..];
    }
  }

  /** A '%' before any other character prints nothing and takes no argument, nor does one at the end. */
  lemma OthersSwallowed(c: char, args: seq<Arg>)
    requires c !in "dxcs"
    ensures Matches(['%', c], args) && Formatted(['%', c], args) == "" && ArgCount(['%', c]) == 0
    ensures Matches("%", args) && Formatted("%", args) == ""
  {
    assert ['%', c][2..] == "";
    assert Formatted("", args) == "";
  }

  lemma PrintsTwo(out: string, text: string, rest: string)
    ensures (exists n: nat :: n <= |out| && out[..n] == text && out[n..] == rest) <==> out == text + rest
  {
    if out == text + rest {
      assert out[..|text|] == text && out[|text|..] == rest;
    }
    if n: nat :| n <= |out| && out[..n] == text && out[n..] == rest {
      assert out == out[..n] + out[n..];
    }
  }

  /** Formats concatenate: a format that does not end in an open '%' can be continued. */
  predicate Closed(fmt: string) {
    if fmt == "" then true
    else if fmt[0] != '%' then Closed(fmt[1..])
    else |fmt| > 1 && Closed(fmt[2..])
  }

  function ArgCount(fmt: string): nat {
    if fmt == "" || (fmt[0] == '%' && |fmt| == 1) then 0
    else if fmt[0] != '%' then ArgCount(fmt[1..])
    else (if fmt[1] in "dxcs" then 1 else 0) + ArgCount(fmt[2..])
  }

  lemma {:induction false} FormatsConcatenate(f: string, g: string, args: seq<Arg>)
    requires Closed(f) && Matches(f + g, args)
    ensures Matches(f, args) && ArgCount(f) <= |args| && Matches(g, args[ArgCount(f)..])
    ensures Formatted(f + g, args) == Formatted(f, args) + Formatted(g, args[ArgCount(f)..])
    decreases |f|
  {
    hide Conversion;
    if f == "" {
      assert f + g == g;
    } else if f[0] != '%' {
      assert (f + g)[1..] == f[1..] + g;
      FormatsConcatenate(f[1..], g, args);
    } else {
      assert (f + g)[2..] == f[2..] + g;
      if f[1] in "dxcs" {
        FormatsConcatenate(f[2..], g, args[1..]);
        assert args[1..][ArgCount(f[2..])..] == args[ArgCount(f)..];
      } else {
        FormatsConcatenate(f[2..], g, args);
      }
    }
  }

  /** Behind the last %d or %x nothing more is printed. */
  ghost predicate NumberLast(fmt: string, args: seq<Arg>)
    requires Matches(fmt, args)
  {
    if fmt == "" then false
    else if fmt[0] != '%' then NumberLast(fmt[1..], args)
    else if |fmt| == 1 then false
    else if fmt[1] in "dx" then Formatted(fmt[2..], args[1..]) == "" || NumberLast(fmt[2..], args[1..])
    else if fmt[1] in "cs" then NumberLast(fmt[2..], args[1..])
    else NumberLast(fmt[2..], args)
  }

  datatype State = Normal | ReadFmt

  /** What is still to be printed in the given state of the machine. */
  ghost predicate CanGoOn(state: State, rest: string, args: seq<Arg>) {
    match state
    case Normal => Matches(rest, args)
    case ReadFmt => Matches("%" + rest, args)
  }

  ghost function StillToCome(state: State, rest: string, args: seq<Arg>): string
    requires CanGoOn(state, rest, args)
  {
    match state
    case Normal => Formatted(rest, args)
    case ReadFmt => Formatted("%" + rest, args)
  }

  ghost predicate NumberStillLast(state: State, rest: string, args: seq<Arg>)
    requires CanGoOn(state, rest, args)
  {
    match state
    case Normal => NumberLast(rest, args)
    case ReadFmt => NumberLast("%" + rest, args)
  }

  lemma NormalStep(rest: string, args: seq<Arg>)
    requires rest != "" && CanGoOn(Normal, rest, args)
    ensures rest[0] == '%' ==>
              CanGoOn(ReadFmt, rest[1..], args) &&
              StillToCome(Normal, rest, args) == StillToCome(ReadFmt, rest[1..], args) &&
              NumberStillLast(Normal, rest, args) == NumberStillLast(ReadFmt, rest[1..], args)
    ensures rest[0] != '%' ==>
              CanGoOn(Normal, rest[1..], args) &&
              StillToCome(Normal, rest, args) == [rest[0]] + StillToCome(Normal, rest[1..], args) &&
              NumberStillLast(Normal, rest, args) == NumberStillLast(Normal, rest[1..], args)
  {
    assert rest == [rest[0]] + rest[1..];
  }

  lemma ReadStep(rest: string, args: seq<Arg>)
    requires rest != "" && CanGoOn(ReadFmt, rest, args)
    ensures rest[0] in "dxcs" ==>
              && args != []
              && (rest[0] != 's' ==> args[0].IntArg? && INT_MIN <= args[0].value <= INT_MAX)
              && (rest[0] == 's' ==> args[0].NullArg? || (args[0].StrArg? && '\0' in args[0].mem))
              && CanGoOn(Normal, rest[1..], args[1..])
              && StillToCome(ReadFmt, rest, args) ==
                 Conversion(rest[0], args[0]) + StillToCome(Normal, rest[1..], args[1..])
              && (NumberStillLast(ReadFmt, rest, args) <==>
                    || NumberStillLast(Normal, rest[1..], args[1..])
                    || (rest[0] in "dx" && StillToCome(Normal, rest[1..], args[1..]) == ""))
              && (rest[0] in "dx" ==> Conversion(rest[0], args[0]) != "")
    ensures rest[0] !in "dxcs" ==>
              CanGoOn(Normal, rest[1..], args) &&
              StillToCome(ReadFmt, rest, args) == StillToCome(Normal, rest[1..], args) &&
              NumberStillLast(ReadFmt, rest, args) == NumberStillLast(Normal, rest[1..], args)
  {
    assert ("%" + rest)[2..] == rest[1..];
    assert ("%" + rest)[1] == rest[0];
    if rest[0] in "dx" {
      SomethingRendered(args[0].value, if rest[0] == 'd' then 10 else 16);
    }
  }

  lemma SomethingRendered(num: int, base: int)
    requires INT_MIN <= num <= INT_MAX && IsBase(base)
    ensures Rendered(num, base) != ""
  {
    ItoaRoundTrip(num, base);
  }

  /** buf is as before from position curr on, but for a NUL at curr itself if there is to be one. */
  ghost predicate Untouched(was: seq<char>, now: seq<char>, curr: nat, nul: bool) {
    && curr <= |was| == |now|
    && (nul ==> curr < |was| && now[curr] == '\0')
    && forall i :: curr <= i < |was| && !(nul && i == curr) ==> now[i] == was[i]
  }

  /** The loop that copies a string's characters. */
  method CopyText(buf: array<char>, curr: nat, mem: seq<char>, len: nat)
    requires len <= |mem| && curr + len <= buf.Length
    modifies buf
    ensures buf[curr..curr + len] == mem[..len]
    ensures buf[..curr] == old(buf[..curr]) && buf[curr + len..] == old(buf[curr + len..])
  {
    var i := 0;
    while i < len
      invariant i <= len
      invariant forall k :: 0 <= k < buf.Length ==>
                  buf[k] == if curr <= k < curr + i then mem[k - curr] else old(buf[k])
    {
      buf[curr + i] := mem[i];
      i := i + 1;
    }
  }

  lemma UntouchedOn(was: seq<char>, mid: seq<char>, now: seq<char>, curr: nat, next: nat, nul: bool, nul': bool)
    requires curr <= next && Untouched(was, mid, curr, nul) && Untouched(mid, now, next, nul')
    ensures Untouched(was, now, next, nul' || (nul && next == curr))
  {
  }

  /** kernel_itoa at curr, and the new position found by measuring what it left. */
  method ConvertInt(buf: array<char>, curr: nat, num: int, base: int) returns (next: nat)
    requires INT_MIN <= num <= INT_MAX && IsBase(base) && curr + |Rendered(num, base)| < buf.Length
    modifies buf
    ensures next == curr + |Rendered(num, base)|
    ensures buf[..next] == old(buf[..curr]) + Rendered(num, base)
    ensures Untouched(old(buf[..]), buf[..], next, true)
  {
    hide *;
    ghost var was, text := buf[..], Rendered(num, base);
    Itoa(buf, curr, num, base);
    ItoaRoundTrip(num, base);
    TextAt(buf[..], curr, text);
    assert buf[..][curr..] == buf[curr..];
    var len := Strlen(buf[curr..]);
    next := curr + len;
    TextBehind(was, buf[..], curr, text);
    assert buf[..][..next] == buf[..next] && was[..curr] == old(buf[..curr]);
  }

  lemma TextAt(mem: seq<char>, at: nat, text: string)
    requires at + |text| < |mem| && mem[at..at + |text|] == text && mem[at + |text|] == '\0' && '\0' !in text
    ensures '\0' in mem[at..] && CString(mem[at..]) == text
  {
    assert mem[at..][..|text|] == text && mem[at..][|text|] == '\0';
    CStringIs(mem[at..], |text|);
  }

  lemma TextBehind(was: seq<char>, now: seq<char>, at: nat, text: string)
    requires |was| == |now| && at + |text| < |now| && now[at..at + |text|] == text && now[at + |text|] == '\0'
    requires forall i :: 0 <= i < |was| && !(at <= i <= at + |text|) ==> now[i] == was[i]
    ensures now[..at + |text|] == was[..at] + text
    ensures Untouched(was, now, at + |text|, true)
  {
    assert now[..at] == was[..at];
    assert now[..at + |text|] == now[..at] + now[at..at + |text|];
  }

  /** The string conversion: kernel_strlen, which is 0 of a null pointer, then the copying loop. */
  method ConvertStr(buf: array<char>, curr: nat, arg: Arg) returns (next: nat)
    requires arg.NullArg? || (arg.StrArg? && '\0' in arg.mem)
    requires curr + |Conversion('s', arg)| <= buf.Length
    modifies buf
    ensures next == curr + |Conversion('s', arg)|
    ensures buf[..next] == old(buf[..curr]) + Conversion('s', arg)
    ensures Untouched(old(buf[..]), buf[..], next, false)
  {
    hide *;
    ghost var was := buf[..];
    StringText(arg);
    if arg.NullArg? {
      TextCopied(was, was, curr, "");
      assert was[..curr] == buf[..curr];
      return curr;
    }
    CStringEnds(arg.mem);
    var len := Strlen(arg.mem);
    CopyText(buf, curr, arg.mem, len);
    next := curr + len;
    assert buf[..][curr..next] == buf[curr..next] && buf[..][..curr] == buf[..curr] && buf[..][next..] == buf[next..];
    TextCopied(was, buf[..], curr, CString(arg.mem));
    assert buf[..][..next] == buf[..next] && was[..curr] == old(buf[..curr]);
  }

  lemma StringText(arg: Arg)
    requires arg.NullArg? || (arg.StrArg? && '\0' in arg.mem)
    ensures Conversion('s', arg) == if arg.NullArg? then "" else CString(arg.mem)
  {
    hide CString;
  }

  lemma TextCopied(was: seq<char>, now: seq<char>, at: nat, text: string)
    requires |was| == |now| && at + |text| <= |now| && now[at..at + |text|] == text
    requires now[..at] == was[..at] && now[at + |text|..] == was[at + |text|..]
    ensures now[..at + |text|] == was[..at] + text
    ensures Untouched(was, now, at + |text|, false)
  {
    assert now[..at + |text|] == now[..at] + now[at..at + |text|];
    var next := at + |text|;
    assert forall i :: next <= i < |was| ==> now[i] == now[next..][i - next] == was[next..][i - next] == was[i];
  }

  /** The four known conversions. */
  method Convert(buf: array<char>, curr: nat, c: char, arg: Arg) returns (next: nat)
    requires c in "dxcs"
    requires c != 's' ==> arg.IntArg? && INT_MIN <= arg.value <= INT_MAX
    requires c == 's' ==> arg.NullArg? || (arg.StrArg? && '\0' in arg.mem)
    requires curr + |Conversion(c, arg)| <= buf.Length && (c in "dx" ==> curr + |Conversion(c, arg)| < buf.Length)
    modifies buf
    ensures next == curr + |Conversion(c, arg)|
    ensures buf[..next] == old(buf[..curr]) + Conversion(c, arg)
    ensures Untouched(old(buf[..]), buf[..], next, c in "dx")
  {
    hide Rendered, CString, Untouched;
    if c == 'd' {
      next := ConvertInt(buf, curr, arg.value, 10);
    } else if c == 'x' {
      next := ConvertInt(buf, curr, arg.value, 16);
    } else if c == 'c' {
      next := PutChar(buf, curr, (arg.value % 256) as char);
    } else {
      next := ConvertStr(buf, curr, arg);
    }
  }

  method PutChar(buf: array<char>, curr: nat, c: char) returns (next: nat)
    requires curr < buf.Length
    modifies buf
    ensures next == curr + 1 && buf[..next] == old(buf[..curr]) + [c]
    ensures Untouched(old(buf[..]), buf[..], next, false)
  {
    buf[curr] := c;
    next := curr + 1;
  }

  /** The buffer holds the text, and the NUL that a number at its end leaves behind it. */
  ghost predicate HasRoom(size: nat, fmt: string, args: seq<Arg>)
    requires Matches(fmt, args)
  {
    |Formatted(fmt, args)| <= size && (NumberLast(fmt, args) ==> |Formatted(fmt, args)| < size)
  }

  /** kernel_vsprintf(buf, fmt, args).  For every format and matching arguments it writes the formatted text;
      beyond the text nothing changes, but that the next byte becomes a NUL exactly if the text ends in a number. */
  method Vsprintf(buf: array<char>, fmt: seq<char>, args: seq<Arg>) returns (ghost len: nat)
    requires '\0' in fmt && Matches(CString(fmt), args) && HasRoom(buf.Length, CString(fmt), args)
    modifies buf
    ensures len == |Formatted(CString(fmt), args)| && buf[..len] == Formatted(CString(fmt), args)
    ensures Prints(CString(fmt), args, buf[..len])
    ensures Untouched(old(buf[..]), buf[..], len, NumberLast(CString(fmt), args))
    ensures len < buf.Length ==> (buf[len] == '\0' <==> old(buf[..])[len] == '\0' || NumberLast(CString(fmt), args))
  {
    hide Rendered, CString, Formatted, Matches, Conversion, StillToCome, CanGoOn, NumberLast, NumberStillLast, Prints;
    ghost var text := CString(fmt);
    CStringEnds(fmt);
    ghost var was, nul := buf[..], false;
    var state := Normal;
    var curr: nat, i: nat, j: nat := 0, 0, 0;
    Start(text, args, was);
    while fmt[i] != '\0'
      invariant i <= |text| && j <= |args| && curr <= buf.Length
      invariant CanGoOn(state, text[i..], args[j..])
      invariant Formatted(text, args) == buf[..curr] + StillToCome(state, text[i..], args[j..])
      invariant NumberLast(text, args) <==>
                (nul && StillToCome(state, text[i..], args[j..]) == "") || NumberStillLast(state, text[i..], args[j..])
      invariant Untouched(was, buf[..], curr, nul)
      decreases |fmt| - i
    {
      AtChar(fmt, text, i);
      state, curr, j, nul := OneChar(buf, fmt[i], args, state, curr, j, was, text, text[i..], nul);
      i := i + 1;
    }
    len := curr;
    PrintsExactly(text, args, buf[..len]);
    Stop(fmt, text, i, state, args[j..]);
  }

  /** A round of that loop. */
  method OneChar(buf: array<char>, ch: char, args: seq<Arg>, state: State, curr: nat, j: nat,
                 ghost was: seq<char>, ghost text: string, ghost rest: string, ghost nul: bool)
    returns (state': State, curr': nat, j': nat, ghost nul': bool)
    requires rest != "" && ch == rest[0] && j <= |args| && curr <= buf.Length
    requires Matches(text, args) && HasRoom(buf.Length, text, args) && CanGoOn(state, rest, args[j..])
    requires Formatted(text, args) == buf[..curr] + StillToCome(state, rest, args[j..])
    requires NumberLast(text, args) <==>
             (nul && StillToCome(state, rest, args[j..]) == "") || NumberStillLast(state, rest, args[j..])
    requires Untouched(was, buf[..], curr, nul)
    modifies buf
    ensures j' <= |args| && curr' <= buf.Length && CanGoOn(state', rest[1..], args[j'..])
    ensures Formatted(text, args) == buf[..curr'] + StillToCome(state', rest[1..], args[j'..])
    ensures NumberLast(text, args) <==>
            (nul' && StillToCome(state', rest[1..], args[j'..]) == "") || NumberStillLast(state', rest[1..], args[j'..])
    ensures Untouched(was, buf[..], curr', nul')
  {
    hide Rendered, CString, Formatted, Matches, Conversion, Untouched;
    hide StillToCome, CanGoOn, NumberLast, NumberStillLast;
    state', curr', j', nul' := state, curr, j, nul;
    ghost var given, out, now := args[j..], buf[..curr], buf[..];
    match state {
      case Normal =>
        NormalStep(rest, given);
        if ch == '%' {
          state' := ReadFmt;
        } else {
          Appended(out, [ch], StillToCome(Normal, rest[1..], given));
          curr' := PutChar(buf, curr, ch);
          UntouchedOn(was, now, buf[..], curr, curr', nul, false);
          nul' := false;
        }
      case ReadFmt =>
        ReadStep(rest, given);
        if ch in "dxcs" {
          Appended(out, Conversion(ch, args[j]), StillToCome(Normal, rest[1..], given[1..]));
          curr' := Convert(buf, curr, ch, args[j]);
          UntouchedOn(was, now, buf[..], curr, curr', nul, ch in "dx");
          nul' := ch in "dx" || (nul && curr' == curr);
          j' := j + 1;
        }
        state' := Normal;
    }
  }

  lemma Start(text: string, args: seq<Arg>, was: seq<char>)
    requires Matches(text, args)
    ensures text[0..] == text && args[0..] == args
    ensures CanGoOn(Normal, text, args) && Formatted(text, args) == "" + StillToCome(Normal, text, args)
    ensures NumberLast(text, args) <==> NumberStillLast(Normal, text, args)
    ensures Untouched(was, was, 0, false)
  {
  }

  lemma AtChar(fmt: seq<char>, text: string, i: nat)
    requires '\0' in fmt && text == CString(fmt) && i <= |text| && i < |fmt| && fmt[i] != '\0'
    ensures i < |text| && text[i] == fmt[i] && text[i..] == [fmt[i]] + text[i + 1..] && text[i..][1..] == text[i + 1..]
  {
    CStringEnds(fmt);
  }

  lemma Appended(out: string, piece: string, rest: string)
    ensures (out + piece) + rest == out + (piece + rest)
  {
  }

  lemma Stop(fmt: seq<char>, text: string, i: nat, state: State, args: seq<Arg>)
    requires '\0' in fmt && text == CString(fmt) && i <= |text| && i < |fmt| && fmt[i] == '\0'
    requires CanGoOn(state, text[i..], args)
    ensures StillToCome(state, text[i..], args) == "" && !NumberStillLast(state, text[i..], args)
  {
    CStringEnds(fmt);
    assert forall k :: 0 <= k < |text| ==> text[k] in text && fmt[..|text|][k] == fmt[k];
  }

  /** log_printf zeroes its buffer first: then the buffer holds the formatted text as a C string. */
  lemma ZeroedBufferTerminated(was: seq<char>, now: seq<char>, text: string, nul: bool)
    requires |text| < |was| == |now| && now[..|text|] == text && Untouched(was, now, |text|, nul)
    requires forall i :: 0 <= i < |was| ==> was[i] == '\0'
    ensures '\0' in now && now[|text|] == '\0'
    ensures '\0' !in text ==> CString(now) == text
  {
    assert now[|text|] == '\0';
    if '\0' !in text {
      CStringIs(now, |text|);
    }
  }

  const LOG_SIZE: nat := 128

  /** log_printf(fmt, args), and what it sends to the serial port: the formatted text up to a NUL that was printed
      into it, or else all of it, and the end of the line. */
  method LogPrintf(fmt: seq<char>, args: seq<Arg>) returns (sent: string)
    requires '\0' in fmt && Matches(CString(fmt), args) && |Formatted(CString(fmt), args)| < LOG_SIZE
    ensures sent == CString(Formatted(CString(fmt), args) + ['\0']) + "\r\n"
    ensures '\0' !in Formatted(CString(fmt), args) ==> sent == Formatted(CString(fmt), args) + "\r\n"
  {
    hide CString, Formatted, Matches, NumberLast, Untouched, Prints;
    ghost var text := Formatted(CString(fmt), args);
    var buf := new char[LOG_SIZE](_ => '\0');
    ghost var was := buf[..];
    ghost var len := Vsprintf(buf, fmt, args);
    ZeroedBufferTerminated(was, buf[..], text, NumberLast(CString(fmt), args));
    SameToNul(buf[..], text);
    CStringEnds(buf[..]);
    ghost var out := CString(buf[..]);
    assert forall i :: 0 <= i < |out| ==> out[i] in out && out[i] == buf[..|out|][i] == buf[i];
    var p := 0;
    sent := "";
    while buf[p] != '\0'
      invariant p <= |out| && sent == out[..p]
      decreases |out| - p
    {
      sent := sent + [buf[p]];
      p := p + 1;
    }
    assert out[..p] == out;
    sent := sent + "\r\n";
  }

  /** Only what comes before the first NUL makes the string. */
  lemma SameToNul(mem: seq<char>, text: string)
    requires |text| < |mem| && mem[..|text|] == text && mem[|text|] == '\0'
    ensures '\0' in mem && CString(mem) == CString(text + ['\0'])
    ensures '\0' !in text ==> CString(mem) == text
  {
    var rest := text + ['\0'];
    CStringEnds(rest);
    var n := |CString(rest)|;
    assert mem[..n] == rest[..n] && mem[n] == rest[n];
    CStringIs(mem, n);
    if '\0' !in text {
      CStringIs(mem, |text|);
    }
  }
}
