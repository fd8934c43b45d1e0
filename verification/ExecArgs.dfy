/** copy_args of source/kernel/core/task.c: argc, the argument pointers and the argument strings are written
    to the new program's stack, and read back there by the program. */
module ExecArgs {
  import opened Elf
  import opened Paging

  const ARGS_SIZE: nat := 12 // sizeof(task_args_t): return address, argc, argv

  /** A 32-bit value as it lies in memory. */
  function Bytes(w: nat): (r: seq<byte>)
    requires w < UINT32
    ensures |r| == 4
  {
    [w % 0x100, w / 0x100 % 0x100, w / 0x1_0000 % 0x100, w / 0x100_0000]
  }

  lemma BytesWord(w: nat)
    requires w < UINT32
    ensures Word(Bytes(w), 0) == w
    ensures Bytes(w)[0] == w % 0x100 && Bytes(w)[3] == w / 0x100_0000
  {
    assert w / 0x100 / 0x100 == w / 0x1_0000 && w / 0x1_0000 / 0x100 == w / 0x100_0000;
  }

  predicate IsText(s: seq<byte>) { 0 !in s }

  predicate AreTexts(argv: seq<seq<byte>>) { forall s :: s in argv ==> IsText(s) }

  /** The strings, each with its NUL, one behind the other. */
  function Strings(argv: seq<seq<byte>>): seq<byte> {
    if argv == [] then [] else Strings(argv[..|argv| - 1]) + argv[|argv| - 1] + [0]
  }

  /** The pointers to strings that lie one behind the other from address `at` on. */
  function Pointers(argv: seq<seq<byte>>, at: nat): (r: seq<byte>)
    requires at + |Strings(argv)| < UINT32
    ensures |r| == 4 * |argv|
  {
    if argv == [] then []
    else
      var rest := argv[..|argv| - 1];
      Pointers(rest, at) + Bytes(at + |Strings(rest)|)
  }

  /** Where the strings begin. */
  function Base(argv: seq<seq<byte>>): nat { ARGS_SIZE + 4 * |argv| }

  predicate FitsBelow4G(argv: seq<seq<byte>>, to: nat) {
    to + Base(argv) + |Strings(argv)| < UINT32
  }

  /** The block copy_args builds at address `to`; the return address it leaves uninitialised. */
  function Image(argv: seq<seq<byte>>, to: nat, retAddr: seq<byte>): seq<byte>
    requires FitsBelow4G(argv, to) && |retAddr| == 4
  {
    retAddr + Bytes(|argv|) + Bytes(to + ARGS_SIZE) + Pointers(argv, to + Base(argv)) + Strings(argv)
  }

  // ---------- what the new program reads ----------

  function VWord(mem: seq<byte>, table: PageTable, v: nat): nat {
    Byte(mem, table, v) + 0x100 * (Byte(mem, table, v + 1) as int) +
    0x1_0000 * (Byte(mem, table, v + 2) as int) + 0x100_0000 * (Byte(mem, table, v + 3) as int)
  }

  /** The C string at v, given up after `limit` characters. */
  function VString(mem: seq<byte>, table: PageTable, v: nat, limit: nat): seq<byte>
    decreases limit
  {
    if limit == 0 || Byte(mem, table, v) == 0 then []
    else [Byte(mem, table, v)] + VString(mem, table, v + 1, limit - 1)
  }

  /** main's arguments as crt0 and cstart find them on the stack. */
  function Argc(mem: seq<byte>, table: PageTable, sp: nat): nat { VWord(mem, table, sp + 4) }

  function Argv(mem: seq<byte>, table: PageTable, sp: nat, i: nat): seq<byte> {
    VString(mem, table, VWord(mem, table, VWord(mem, table, sp + 8) + 4 * i), UINT32)
  }

  // ---------- the layout ----------

  lemma SliceOfLeft(a: seq<byte>, b: seq<byte>, i: nat, j: nat)
    requires i <= j <= |a|
    ensures (a + b)[i..j] == a[i..j]
  {
  }

  lemma PartOfPart(s: seq<byte>, a: nat, b: nat, i: nat, j: nat)
    requires i <= j && a + j <= b <= |s|
    ensures s[a..b][i..j] == s[a + i..a + j]
  {
    var p, q := s[a..b][i..j], s[a + i..a + j];
    forall k | 0 <= k < j - i ensures p[k] == q[k] {
      assert p[k] == s[a..b][i + k] == s[a + (i + k)];
      assert q[k] == s[(a + i) + k];
    }
  }

  lemma {:induction false} PointerAt(argv: seq<seq<byte>>, at: nat, i: nat)
    requires at + |Strings(argv)| < UINT32 && i < |argv|
    ensures |Strings(argv[..i])| <= |Strings(argv)|
    ensures Pointers(argv, at)[4 * i..4 * i + 4] == Bytes(at + |Strings(argv[..i])|)
    decreases |argv|
  {
    hide Bytes;
    var rest := argv[..|argv| - 1];
    assert |Strings(rest)| <= |Strings(argv)| && Pointers(argv, at) == Pointers(rest, at) + Bytes(at + |Strings(rest)|);
    hide Strings, Pointers;
    if i < |argv| - 1 {
      PointerAt(rest, at, i);
      assert rest[..i] == argv[..i];
      SliceOfLeft(Pointers(rest, at), Bytes(at + |Strings(rest)|), 4 * i, 4 * i + 4);
    } else {
      assert argv[..i] == rest;
    }
  }

  lemma {:induction false} StringAt(argv: seq<seq<byte>>, i: nat)
    requires i < |argv|
    ensures var at := |Strings(argv[..i])|;
            && at + |argv[i]| < |Strings(argv)|
            && Strings(argv)[at..at + |argv[i]|] == argv[i]
            && Strings(argv)[at + |argv[i]|] == 0
    decreases |argv|
  {
    var rest := argv[..|argv| - 1];
    if i < |argv| - 1 {
      StringAt(rest, i);
      assert rest[..i] == argv[..i];
      var at := |Strings(argv[..i])|;
      assert Strings(argv)[at..at + |argv[i]|] == Strings(rest)[at..at + |argv[i]|];
    } else {
      assert argv[..i] == rest;
    }
  }

  // ---------- reading the image back ----------

  /** The image stands at address `to`. */
  ghost predicate Holds(mem: seq<byte>, table: PageTable, to: nat, image: seq<byte>) {
    forall v :: to <= v < to + |image| ==> Byte(mem, table, v) == image[v - to]
  }

  lemma WordHeld(mem: seq<byte>, table: PageTable, to: nat, image: seq<byte>, at: nat, w: nat)
    requires Holds(mem, table, to, image) && at + 4 <= |image| && w < UINT32 && image[at..at + 4] == Bytes(w)
    ensures VWord(mem, table, to + at) == w
  {
    BytesWord(w);
    var s := image[at..at + 4];
    assert image[at] == s[0] && image[at + 1] == s[1] && image[at + 2] == s[2] && image[at + 3] == s[3];
    assert to <= to + at + 3 < to + |image|;
  }

  lemma {:induction false} TextHeld(mem: seq<byte>, table: PageTable, v: nat, s: seq<byte>, limit: nat)
    requires IsText(s) && |s| < limit
    requires forall k :: v <= k < v + |s| ==> Byte(mem, table, k) == s[k - v]
    requires Byte(mem, table, v + |s|) == 0
    ensures VString(mem, table, v, limit) == s
    decreases |s|
  {
    if s != [] {
      assert s[0] in s;
      assert Byte(mem, table, v) == s[0];
      TextHeld(mem, table, v + 1, s[1..], limit - 1);
    }
  }

  lemma ImageParts(argv: seq<seq<byte>>, to: nat, retAddr: seq<byte>)
    requires FitsBelow4G(argv, to) && |retAddr| == 4
    ensures var image := Image(argv, to, retAddr);
            && |image| == Base(argv) + |Strings(argv)|
            && image[4..8] == Bytes(|argv|)
            && image[8..12] == Bytes(to + ARGS_SIZE)
            && image[ARGS_SIZE..Base(argv)] == Pointers(argv, to + Base(argv))
            && image[Base(argv)..] == Strings(argv)
  {
    hide Bytes, Pointers, Strings;
  }

  /** The round trip: a program that finds the image on its stack gets back argc and every string. */
  lemma ArgsReadBack(mem: seq<byte>, table: PageTable, to: nat, argv: seq<seq<byte>>, retAddr: seq<byte>)
    requires FitsBelow4G(argv, to) && |retAddr| == 4 && AreTexts(argv)
    requires Holds(mem, table, to, Image(argv, to, retAddr))
    ensures Argc(mem, table, to) == |argv|
    ensures forall i :: 0 <= i < |argv| ==> Argv(mem, table, to, i) == argv[i]
  {
    hide Bytes, Pointers, Strings, Image, Holds, VWord, VString, Argv;
    var image := Image(argv, to, retAddr);
    ImageParts(argv, to, retAddr);
    WordHeld(mem, table, to, image, 4, |argv|);
    WordHeld(mem, table, to, image, 8, to + ARGS_SIZE);
    forall i | 0 <= i < |argv| ensures Argv(mem, table, to, i) == argv[i] {
      OneReadBack(mem, table, to, argv, retAddr, i);
    }
  }

  /** The string at offset off of what the image has from base on. */
  lemma StringHeld(mem: seq<byte>, table: PageTable, to: nat, image: seq<byte>, base: nat, off: nat, s: seq<byte>)
    requires Holds(mem, table, to, image) && IsText(s) && base + off + |s| < |image| < UINT32
    requires image[base..][off..off + |s|] == s && image[base..][off + |s|] == 0
    ensures VString(mem, table, to + base + off, UINT32) == s
  {
    hide VString;
    var at := to + base + off;
    forall k | at <= k < at + |s| ensures Byte(mem, table, k) == s[k - at] {
      assert image[base..][off..off + |s|][k - at] == image[k - to];
    }
    TextHeld(mem, table, at, s, UINT32);
  }

  lemma OneReadBack(mem: seq<byte>, table: PageTable, to: nat, argv: seq<seq<byte>>, retAddr: seq<byte>, i: nat)
    requires FitsBelow4G(argv, to) && |retAddr| == 4 && AreTexts(argv) && i < |argv|
    requires Holds(mem, table, to, Image(argv, to, retAddr)) && VWord(mem, table, to + 8) == to + ARGS_SIZE
    ensures Argv(mem, table, to, i) == argv[i]
  {
    hide Bytes, Pointers, Strings, Image, VWord, VString, Holds, IsText;
    var image, at := Image(argv, to, retAddr), to + Base(argv);
    ImageParts(argv, to, retAddr);
    PointerAt(argv, at, i);
    StringAt(argv, i);
    var off := |Strings(argv[..i])|;
    PartOfPart(image, ARGS_SIZE, Base(argv), 4 * i, 4 * i + 4);
    WordHeld(mem, table, to, image, ARGS_SIZE + 4 * i, at + off);
    assert argv[i] in argv;
    StringHeld(mem, table, to, image, Base(argv), off, argv[i]);
  }

  // ---------- copy_args ----------

  lemma StringsSnoc(argv: seq<seq<byte>>, i: nat)
    requires i < |argv|
    ensures Strings(argv[..i + 1]) == Strings(argv[..i]) + (argv[i] + [0])
  {
    assert argv[..i + 1][..i] == argv[..i];
    assert Strings(argv[..i + 1]) == Strings(argv[..i]) + argv[i] + [0];
  }

  lemma StringsPrefix(argv: seq<seq<byte>>, i: nat)
    requires i < |argv|
    ensures Strings(argv[..i + 1]) == Strings(argv[..i]) + (argv[i] + [0])
    ensures |Strings(argv[..i])| + |argv[i]| + 1 <= |Strings(argv)|
    ensures var at := |Strings(argv[..i])|; Strings(argv)[at..at + |argv[i]| + 1] == argv[i] + [0]
  {
    hide Strings;
    StringsSnoc(argv, i);
    StringAt(argv, i);
    var at, n, t := |Strings(argv[..i])|, |argv[i]|, Strings(argv);
    assert t[at..at + n + 1] == t[at..at + n] + [t[at + n]];
  }

  lemma StringsBelow(argv: seq<seq<byte>>, i: nat)
    requires i <= |argv|
    ensures |Strings(argv[..i])| <= |Strings(argv)|
    ensures i == |argv| ==> Strings(argv[..i]) == Strings(argv)
  {
    if i < |argv| {
      StringsPrefix(argv, i);
    } else {
      assert argv[..i] == argv;
    }
  }

  /** Where string i goes. */
  function ArgAt(argv: seq<seq<byte>>, to: nat, i: nat): (r: nat)
    requires FitsBelow4G(argv, to) && i <= |argv|
    ensures 0 < r < UINT32
  {
    StringsBelow(argv, i);
    to + Base(argv) + |Strings(argv[..i])|
  }

  lemma {:induction false} ArgsApart(argv: seq<seq<byte>>, to: nat, i: nat, j: nat)
    requires FitsBelow4G(argv, to) && i < j <= |argv|
    ensures ArgAt(argv, to, i) < ArgAt(argv, to, j)
    decreases j
  {
    StringsPrefix(argv, j - 1);
    if i < j - 1 {
      ArgsApart(argv, to, i, j - 1);
    }
  }

  /** The task_args_t. */
  function Header(argv: seq<seq<byte>>, to: nat, retAddr: seq<byte>): (r: seq<byte>)
    requires FitsBelow4G(argv, to) && |retAddr| == 4
    ensures |r| == ARGS_SIZE
  {
    retAddr + Bytes(|argv|) + Bytes(to + ARGS_SIZE)
  }

  /** Pages for the whole block, an answer for the table's address, and physical memory up to where the table,
      written through that one answer, ends. */
  ghost predicate Block(table: PageTable, to: nat, argv: seq<seq<byte>>, size: nat) {
    && Fits(table, size) && FitsBelow4G(argv, to)
    && AllMapped(table, to, Base(argv) + |Strings(argv)|)
    && Paddr(table, to + ARGS_SIZE) != 0 && Paddr(table, to + ARGS_SIZE) + 4 * |argv| <= size
  }

  /** What copy_args needs of the new address space: also, the strip of physical memory the pointers go to must
      meet no page table, or a pointer becomes a mapping. */
  ghost predicate Room(table: PageTable, to: nat, argv: seq<seq<byte>>, size: nat) {
    Block(table, to, argv, size) && ClearOfTables(table, Paddr(table, to + ARGS_SIZE), 4 * |argv|)
  }

  /** Memory when i arguments are done: each string through the page map, then its pointer at the i-th place
      behind the physical address of the table's beginning. */
  ghost function ArgsDone(was: seq<byte>, table: PageTable, to: nat, argv: seq<seq<byte>>, i: nat): (r: seq<byte>)
    requires Room(table, to, argv, |was|) && i <= |argv|
    ensures |r| == |was|
  {
    if i == 0 then was
    else
      var at := ArgAt(argv, to, i - 1);
      Overwritten(Written(ArgsDone(was, table, to, argv, i - 1), table, at, argv[i - 1] + [0]),
                  Paddr(table, to + ARGS_SIZE) + 4 * (i - 1), Bytes(at))
  }

  /** Memory after copy_args. */
  ghost function ArgsCopied(was: seq<byte>, table: PageTable, to: nat, argv: seq<seq<byte>>, retAddr: seq<byte>):
    (r: seq<byte>)
    requires Room(table, to, argv, |was|) && |retAddr| == 4
    ensures |r| == |was|
  {
    Written(ArgsDone(was, table, to, argv, |argv|), table, to, Header(argv, to, retAddr))
  }

  lemma RangeOfArg(table: PageTable, to: nat, argv: seq<seq<byte>>, size: nat, i: nat)
    requires Room(table, to, argv, size) && i < |argv|
    ensures AllMapped(table, ArgAt(argv, to, i), |argv[i]| + 1)
    ensures ArgAt(argv, to, i + 1) == ArgAt(argv, to, i) + |argv[i]| + 1
    ensures Fits(table, size) && FitsBelow4G(argv, to) && Paddr(table, to + ARGS_SIZE) + 4 * i + 4 <= size
  {
    StringsPrefix(argv, i);
  }

  lemma RangeOfHeader(table: PageTable, to: nat, argv: seq<seq<byte>>, size: nat)
    requires Room(table, to, argv, size)
    ensures Fits(table, size) && FitsBelow4G(argv, to) && AllMapped(table, to, ARGS_SIZE)
    ensures |argv| < UINT32 && to + ARGS_SIZE < UINT32 && ArgAt(argv, to, 0) == to + ARGS_SIZE + 4 * |argv|
  {
    assert argv[..0] == [];
  }

  /** One round of the loop over the arguments. */
  method CopyArg(mem: array<byte>, table: PageTable, to: nat, argv: seq<seq<byte>>, tb: nat, destArg: nat, i: nat,
                 ghost was: seq<byte>)
    requires Room(table, to, argv, |was|) && |was| == mem.Length && i < |argv|
    requires tb == Paddr(table, to + ARGS_SIZE) && destArg == ArgAt(argv, to, i)
    requires mem[..] == ArgsDone(was, table, to, argv, i)
    modifies mem
    ensures mem[..] == ArgsDone(was, table, to, argv, i + 1)
  {
    hide *;
    RangeOfArg(table, to, argv, mem.Length, i);
    ghost var before := mem[..];
    var err := CopyUvmData(mem, table, destArg, argv[i] + [0]);
    PutIsWritten(before, mem[..], table, destArg, argv[i] + [0]);
    ghost var between := mem[..];
    CopyIn(mem, tb + 4 * i, Bytes(destArg));
    assert mem[..] == Overwritten(between, tb + 4 * i, Bytes(destArg));
    NextArg(was, table, to, argv, i);
  }

  lemma NextArg(was: seq<byte>, table: PageTable, to: nat, argv: seq<seq<byte>>, i: nat)
    requires Room(table, to, argv, |was|) && i < |argv|
    requires Paddr(table, to + ARGS_SIZE) + 4 * i + 4 <= |was|
    ensures ArgsDone(was, table, to, argv, i + 1) ==
            Overwritten(Written(ArgsDone(was, table, to, argv, i), table, ArgAt(argv, to, i), argv[i] + [0]),
                        Paddr(table, to + ARGS_SIZE) + 4 * i, Bytes(ArgAt(argv, to, i)))
  {
  }

  /** copy_args, on any frames that keep its pointers away from the page tables. */
  method CopyArgs(mem: array<byte>, table: PageTable, to: nat, argv: seq<seq<byte>>, retAddr: seq<byte>)
    returns (err: int)
    requires Room(table, to, argv, mem.Length) && |retAddr| == 4
    modifies mem
    ensures err == 0 && mem[..] == ArgsCopied(old(mem[..]), table, to, argv, retAddr)
  {
    hide *;
    ghost var was := mem[..];
    RangeOfHeader(table, to, argv, mem.Length);
    var destArg := to + ARGS_SIZE + 4 * |argv|;
    var tb := Paddr(table, to + ARGS_SIZE);
    NoArgs(was, table, to, argv);
    for i := 0 to |argv|
      invariant destArg == ArgAt(argv, to, i)
      invariant mem[..] == ArgsDone(was, table, to, argv, i)
    {
      RangeOfArg(table, to, argv, mem.Length, i);
      CopyArg(mem, table, to, argv, tb, destArg, i, was);
      destArg := destArg + |argv[i]| + 1;
    }
    ghost var before := mem[..];
    err := CopyUvmData(mem, table, to, Header(argv, to, retAddr));
    PutIsWritten(before, mem[..], table, to, Header(argv, to, retAddr));
    AllArgs(was, table, to, argv, retAddr);
  }

  lemma NoArgs(was: seq<byte>, table: PageTable, to: nat, argv: seq<seq<byte>>)
    requires Room(table, to, argv, |was|)
    ensures ArgsDone(was, table, to, argv, 0) == was
  {
  }

  lemma AllArgs(was: seq<byte>, table: PageTable, to: nat, argv: seq<seq<byte>>, retAddr: seq<byte>)
    requires Room(table, to, argv, |was|) && |retAddr| == 4
    ensures ArgsCopied(was, table, to, argv, retAddr) ==
            Written(ArgsDone(was, table, to, argv, |argv|), table, to, Header(argv, to, retAddr))
  {
  }

  // ---------- the pointer table on arbitrary frames ----------

  /** Word i of the pointer table, as the program addresses it. */
  function WordAt(to: nat, i: nat): nat { to + ARGS_SIZE + 4 * i }

  /** Pointer k is stored where the program finds word i. */
  predicate Hits(table: PageTable, to: nat, k: nat, i: nat) {
    Paddr(table, to + ARGS_SIZE) + 4 * k == Paddr(table, WordAt(to, i))
  }

  lemma WordOfBytes(m: seq<byte>, at: nat, w: nat)
    requires w < UINT32 && at + 4 <= |m|
    ensures Word(Overwritten(m, at, Bytes(w)), at) == w
  {
    BytesWord(w);
    var r, b := Overwritten(m, at, Bytes(w)), Bytes(w);
    assert r[at] == b[0] && r[at + 1] == b[1] && r[at + 2] == b[2] && r[at + 3] == b[3];
  }

  lemma OtherWord(m: seq<byte>, at: nat, data: seq<byte>, q: nat)
    requires at + |data| <= |m| && q + 4 <= |m| && (q + 4 <= at || at + |data| <= q)
    ensures Word(Overwritten(m, at, data), q) == Word(m, q)
  {
  }

  lemma AlignedOffset(v: nat)
    requires v % 4 == 0
    ensures v % PAGE % 4 == 0 && v % PAGE + 4 <= PAGE
  {
  }

  /** An aligned word lies in one page. */
  lemma ByteOfWord(table: PageTable, v: nat, b: nat)
    requires v % 4 == 0 && Mapped(table, v) && b < 4
    ensures Mapped(table, v + b) && Paddr(table, v + b) == Paddr(table, v) + b
  {
    AlignedOffset(v);
    PaddrInPage(table, v, b);
  }

  lemma WordFits(table: PageTable, size: nat, v: nat)
    requires Fits(table, size) && v % 4 == 0 && Mapped(table, v)
    ensures Paddr(table, v) % 4 == 0 && Paddr(table, v) + 4 <= size
  {
    AlignedOffset(v);
    PaddrFits(table, size, v);
    hide Paddr, Fits;
  }

  lemma WordInPage(mem: seq<byte>, table: PageTable, v: nat)
    requires v % 4 == 0 && Mapped(table, v) && Paddr(table, v) + 4 <= |mem|
    ensures VWord(mem, table, v) == Word(mem, Paddr(table, v))
  {
    hide Paddr, Mapped;
    ByteOfWord(table, v, 1);
    ByteOfWord(table, v, 2);
    ByteOfWord(table, v, 3);
  }

  /** What is written elsewhere through the page map does not touch the byte. */
  lemma ByteKept(m: seq<byte>, table: PageTable, at: nat, data: seq<byte>, v: nat)
    requires Fits(table, |m|) && Mapped(table, v) && !(at <= v < at + |data|) && Paddr(table, v) < |m|
    ensures Written(m, table, at, data)[Paddr(table, v)] == m[Paddr(table, v)]
  {
    hide Paddr, Written;
    if Behind(table, at, |data|, Paddr(table, v)) {
      PaddrInjective(table, v, InFront(table, at, |data|, Paddr(table, v)));
      assert false;
    }
  }

  /** Nor the word. */
  lemma WordKept(m: seq<byte>, table: PageTable, at: nat, data: seq<byte>, v: nat)
    requires Fits(table, |m|) && v % 4 == 0 && Mapped(table, v) && Paddr(table, v) + 4 <= |m|
    requires v + 4 <= at || at + |data| <= v
    ensures Word(Written(m, table, at, data), Paddr(table, v)) == Word(m, Paddr(table, v))
  {
    hide Paddr, Written, Fits, Mapped;
    ByteKept(m, table, at, data, v);
    ByteOfWord(table, v, 1);
    ByteKept(m, table, at, data, v + 1);
    ByteOfWord(table, v, 2);
    ByteKept(m, table, at, data, v + 2);
    ByteOfWord(table, v, 3);
    ByteKept(m, table, at, data, v + 3);
  }

  lemma TableWordPlace(table: PageTable, to: nat, argv: seq<seq<byte>>, size: nat, i: nat)
    requires Room(table, to, argv, size) && to % 4 == 0 && i < |argv|
    ensures Fits(table, size) && Mapped(table, WordAt(to, i)) && WordAt(to, i) % 4 == 0
    ensures Paddr(table, WordAt(to, i)) + 4 <= size && Paddr(table, WordAt(to, i)) % 4 == 0
    ensures Paddr(table, to + ARGS_SIZE) % 4 == 0
  {
    WordPlaces(table, to, argv, size, i);
    WordPlaces(table, to, argv, size, 0);
    hide *;
    WordFits(table, size, WordAt(to, i));
    WordFits(table, size, WordAt(to, 0));
  }

  lemma WordPlaces(table: PageTable, to: nat, argv: seq<seq<byte>>, size: nat, i: nat)
    requires Room(table, to, argv, size) && to % 4 == 0 && i < |argv|
    ensures Fits(table, size) && Mapped(table, WordAt(to, i)) && WordAt(to, i) % 4 == 0
    ensures WordAt(to, 0) == to + ARGS_SIZE
  {
    hide Paddr, Fits, ClearOfTables, FitsBelow4G, Mapped;
  }

  /** A round of copy_args at word j of the table: pointer i if it hits the word, and otherwise nothing. */
  lemma WordInRound(was: seq<byte>, table: PageTable, to: nat, argv: seq<seq<byte>>, i: nat, j: nat)
    requires Room(table, to, argv, |was|) && to % 4 == 0 && i < |argv| && j < |argv|
    ensures var q := Paddr(table, WordAt(to, j));
            q + 4 <= |was| && Word(ArgsDone(was, table, to, argv, i + 1), q) ==
                                if Hits(table, to, i, j) then ArgAt(argv, to, i)
                                else Word(ArgsDone(was, table, to, argv, i), q)
  {
    hide *;
    TableWordPlace(table, to, argv, |was|, j);
    RangeOfArg(table, to, argv, |was|, i);
    NextArg(was, table, to, argv, i);
    StringsBehindTable(argv, to, i, j);
    HitsMeans(table, to, i, j);
    StringAndPointer(ArgsDone(was, table, to, argv, i), table, ArgAt(argv, to, i), argv[i] + [0],
                     Paddr(table, to + ARGS_SIZE) + 4 * i, WordAt(to, j));
  }

  lemma HitsMeans(table: PageTable, to: nat, k: nat, i: nat)
    ensures Hits(table, to, k, i) <==> Paddr(table, to + ARGS_SIZE) + 4 * k == Paddr(table, WordAt(to, i))
  {
  }

  lemma StringAndPointer(m: seq<byte>, table: PageTable, at: nat, data: seq<byte>, p: nat, v: nat)
    requires Fits(table, |m|) && v % 4 == 0 && Mapped(table, v)
    requires Paddr(table, v) + 4 <= |m| && Paddr(table, v) % 4 == 0
    requires v + 4 <= at < UINT32 && p % 4 == 0 && p + 4 <= |m|
    ensures Word(Overwritten(Written(m, table, at, data), p, Bytes(at)), Paddr(table, v)) ==
            if p == Paddr(table, v) then at else Word(m, Paddr(table, v))
  {
    hide Fits, Paddr, Written, Mapped, Bytes, Word;
    var q, w := Paddr(table, v), Written(m, table, at, data);
    WordKept(m, table, at, data, v);
    if p == q {
      WordOfBytes(w, p, at);
    } else {
      OtherWord(w, p, Bytes(at), q);
    }
  }

  lemma StringsBehindTable(argv: seq<seq<byte>>, to: nat, i: nat, j: nat)
    requires FitsBelow4G(argv, to) && i <= |argv| && j < |argv|
    ensures WordAt(to, j) + 4 <= ArgAt(argv, to, i)
  {
  }

  lemma {:induction false} WordAfter(was: seq<byte>, table: PageTable, to: nat, argv: seq<seq<byte>>, i: nat, j: nat)
    requires Room(table, to, argv, |was|) && to % 4 == 0 && i <= |argv| && j < |argv|
    ensures Paddr(table, WordAt(to, j)) + 4 <= |was|
    ensures forall k: nat :: k < i && Hits(table, to, k, j) ==>
              Word(ArgsDone(was, table, to, argv, i), Paddr(table, WordAt(to, j))) == ArgAt(argv, to, k)
    ensures (forall k: nat :: k < i ==> !Hits(table, to, k, j)) ==>
              Word(ArgsDone(was, table, to, argv, i), Paddr(table, WordAt(to, j))) ==
              Word(was, Paddr(table, WordAt(to, j)))
  {
    hide Paddr, Word, Fits, Written, ArgAt;
    TableWordPlace(table, to, argv, |was|, j);
    if i > 0 {
      WordAfter(was, table, to, argv, i - 1, j);
      WordInRound(was, table, to, argv, i - 1, j);
    }
  }

  /** What the program finds in word j: the pointer stored at its physical address, if there is one, and otherwise
      whatever was there before. */
  lemma TableWord(was: seq<byte>, table: PageTable, to: nat, argv: seq<seq<byte>>, retAddr: seq<byte>, j: nat)
    requires Room(table, to, argv, |was|) && to % 4 == 0 && |retAddr| == 4 && j < |argv|
    ensures forall k: nat :: k < |argv| && Hits(table, to, k, j) ==>
              VWord(ArgsCopied(was, table, to, argv, retAddr), table, WordAt(to, j)) == ArgAt(argv, to, k)
    ensures (forall k: nat :: k < |argv| ==> !Hits(table, to, k, j)) ==>
              VWord(ArgsCopied(was, table, to, argv, retAddr), table, WordAt(to, j)) == VWord(was, table, WordAt(to, j))
  {
    TableWordPlace(table, to, argv, |was|, j);
    WordAfter(was, table, to, argv, |argv|, j);
    AllArgs(was, table, to, argv, retAddr);
    hide Room, Fits, Paddr, Written, ArgsDone, ArgsCopied, ArgAt, Mapped, Header, Word, VWord, Hits;
    var v, m := WordAt(to, j), ArgsDone(was, table, to, argv, |argv|);
    WordKept(m, table, to, Header(argv, to, retAddr), v);
    WordInPage(was, table, v);
    WordInPage(ArgsCopied(was, table, to, argv, retAddr), table, v);
  }

  /** The pointer table is written through one physical address: its pages must have neighbouring frames,
      as they trivially have when it lies within one page. */
  ghost predicate TableContiguous(table: PageTable, at: nat, n: nat) {
    forall v :: at <= v < at + n ==> Mapped(table, v) && Paddr(table, v) == Paddr(table, at) + (v - at)
  }

  lemma OnePageIsContiguous(table: PageTable, at: nat, n: nat)
    requires Mapped(table, at) && at % PAGE + n <= PAGE
    ensures TableContiguous(table, at, n)
  {
    forall v | at <= v < at + n ensures Mapped(table, v) && Paddr(table, v) == Paddr(table, at) + (v - at) {
      PaddrInPage(table, at, v - at);
    }
  }

  /** sys_execve passes a page-aligned address: then up to 1021 arguments are safe. */
  lemma ExecveTableFits(table: PageTable, to: nat, argc: nat)
    requires to % PAGE == 0 && Mapped(table, to) && argc <= 1021
    ensures TableContiguous(table, to + ARGS_SIZE, 4 * argc)
  {
    PaddrInPage(table, to, ARGS_SIZE);
    OnePageIsContiguous(table, to + ARGS_SIZE, 4 * argc);
  }

  /** The program finds string j behind word j. */
  ghost predicate PointerRight(was: seq<byte>, table: PageTable, to: nat, argv: seq<seq<byte>>, retAddr: seq<byte>,
                               j: nat)
    requires Room(table, to, argv, |was|) && |retAddr| == 4 && j < |argv|
  {
    VWord(ArgsCopied(was, table, to, argv, retAddr), table, WordAt(to, j)) == ArgAt(argv, to, j)
  }

  /** Every word, from every memory to begin with. */
  ghost predicate PointersRight(table: PageTable, to: nat, argv: seq<seq<byte>>, retAddr: seq<byte>, size: nat)
    requires Room(table, to, argv, size) && |retAddr| == 4
  {
    forall was: seq<byte>, j: nat :: |was| == size && j < |argv| ==> PointerRight(was, table, to, argv, retAddr, j)
  }

  /** In a table on frames that are not neighbours, a word whose physical address is not its place behind the
      first word's is wrong after copy_args, if it was 0 before. */
  lemma MisplacedPointer(was: seq<byte>, table: PageTable, to: nat, argv: seq<seq<byte>>, retAddr: seq<byte>, j: nat)
    requires Room(table, to, argv, |was|) && to % 4 == 0 && |retAddr| == 4 && j < |argv|
    requires !Hits(table, to, j, j) && VWord(was, table, WordAt(to, j)) == 0
    ensures !PointerRight(was, table, to, argv, retAddr, j)
  {
    TableWord(was, table, to, argv, retAddr, j);
    hide Room, Paddr, ArgsCopied, ArgAt, VWord;
    if k: nat :| k < |argv| && Hits(table, to, k, j) {
      if k < j { ArgsApart(argv, to, k, j); } else { ArgsApart(argv, to, j, k); }
    }
  }

  function Zeros(n: nat): (r: seq<byte>)
    ensures |r| == n && forall a :: 0 <= a < n ==> r[a] == 0
  {
    seq(n, _ => 0)
  }

  /** Words in their places make a table in its place. */
  lemma ContiguousByWords(table: PageTable, to: nat, argv: seq<seq<byte>>, size: nat)
    requires Room(table, to, argv, size) && to % 4 == 0
    ensures TableContiguous(table, to + ARGS_SIZE, 4 * |argv|) <==>
            forall j: nat :: j < |argv| ==> Hits(table, to, j, j)
  {
    if forall j: nat :: j < |argv| ==> Hits(table, to, j, j) {
      forall v | to + ARGS_SIZE <= v < to + ARGS_SIZE + 4 * |argv|
        ensures Mapped(table, v) && Paddr(table, v) == Paddr(table, to + ARGS_SIZE) + (v - (to + ARGS_SIZE))
      {
        var j, b := (v - (to + ARGS_SIZE)) / 4, (v - (to + ARGS_SIZE)) % 4;
        ByteInPlace(table, to, argv, size, j, b);
      }
    }
    hide Room, Paddr;
    if TableContiguous(table, to + ARGS_SIZE, 4 * |argv|) {
      forall j: nat | j < |argv| ensures Hits(table, to, j, j) {
        assert Paddr(table, WordAt(to, j)) == Paddr(table, to + ARGS_SIZE) + (WordAt(to, j) - (to + ARGS_SIZE));
      }
    }
  }

  lemma ByteInPlace(table: PageTable, to: nat, argv: seq<seq<byte>>, size: nat, j: nat, b: nat)
    requires Room(table, to, argv, size) && to % 4 == 0 && j < |argv| && b < 4 && Hits(table, to, j, j)
    ensures var v := to + ARGS_SIZE + (4 * j + b);
            Mapped(table, v) && Paddr(table, v) == Paddr(table, to + ARGS_SIZE) + (4 * j + b)
  {
    TableWordPlace(table, to, argv, size, j);
    hide Room, Paddr;
    ByteOfWord(table, WordAt(to, j), b);
  }

  /** The pointers of an argument vector arrive, whatever memory held before, exactly if the pages of its pointer
      table have neighbouring frames. */
  lemma PointersRightIff(table: PageTable, to: nat, argv: seq<seq<byte>>, retAddr: seq<byte>, size: nat)
    requires Room(table, to, argv, size) && to % 4 == 0 && |retAddr| == 4
    ensures PointersRight(table, to, argv, retAddr, size) <==> TableContiguous(table, to + ARGS_SIZE, 4 * |argv|)
  {
    ContiguousByWords(table, to, argv, size);
    hide Paddr, Room, ArgsCopied, TableContiguous, Hits, VWord, ArgAt;
    if j: nat :| j < |argv| && !Hits(table, to, j, j) {
      ZeroWord(table, size, WordAt(to, j));
      MisplacedPointer(Zeros(size), table, to, argv, retAddr, j);
      assert !PointerRight(Zeros(size), table, to, argv, retAddr, j);
    } else {
      forall was: seq<byte>, j: nat | |was| == size && j < |argv|
        ensures PointerRight(was, table, to, argv, retAddr, j)
      {
        assert Hits(table, to, j, j);
        TableWord(was, table, to, argv, retAddr, j);
      }
    }
  }

  lemma ZeroWord(table: PageTable, size: nat, v: nat)
    ensures VWord(Zeros(size), table, v) == 0
  {
  }

  /** argc and the address of the table are always right: the header is written last. */
  lemma HeaderCopied(was: seq<byte>, table: PageTable, to: nat, argv: seq<seq<byte>>, retAddr: seq<byte>)
    requires Room(table, to, argv, |was|) && |retAddr| == 4
    ensures var now := ArgsCopied(was, table, to, argv, retAddr);
            Argc(now, table, to) == |argv| && VWord(now, table, to + 8) == to + ARGS_SIZE
  {
    hide *;
    RangeOfHeader(table, to, argv, |was|);
    AllArgs(was, table, to, argv, retAddr);
    var h, now := Header(argv, to, retAddr), ArgsCopied(was, table, to, argv, retAddr);
    WrittenPut(ArgsDone(was, table, to, argv, |argv|), table, to, h);
    PutHolds(ArgsDone(was, table, to, argv, |argv|), now, table, to, h);
    HeaderWords(argv, to, retAddr);
    WordHeld(now, table, to, h, 4, |argv|);
    WordHeld(now, table, to, h, 8, to + ARGS_SIZE);
    ArgcIs(now, table, to);
  }

  lemma HeaderWords(argv: seq<seq<byte>>, to: nat, retAddr: seq<byte>)
    requires FitsBelow4G(argv, to) && |retAddr| == 4
    ensures |Header(argv, to, retAddr)| == 12 && |argv| < UINT32 && to + ARGS_SIZE < UINT32
    ensures Header(argv, to, retAddr)[4..8] == Bytes(|argv|)
    ensures Header(argv, to, retAddr)[8..12] == Bytes(to + ARGS_SIZE)
  {
    hide Bytes;
  }

  lemma ArgcIs(mem: seq<byte>, table: PageTable, sp: nat)
    ensures Argc(mem, table, sp) == VWord(mem, table, sp + 4)
  {
  }

  /** What has changed lies behind the block or in the strip the pointers are stored in. */
  lemma {:induction false} ChangedByArgs(was: seq<byte>, table: PageTable, to: nat, argv: seq<seq<byte>>, i: nat,
                                         a: nat)
    requires Room(table, to, argv, |was|) && i <= |argv| && a < |was|
    requires !Behind(table, to, Base(argv) + |Strings(argv)|, a)
    requires !(Paddr(table, to + ARGS_SIZE) <= a < Paddr(table, to + ARGS_SIZE) + 4 * |argv|)
    ensures ArgsDone(was, table, to, argv, i)[a] == was[a]
  {
    hide *;
    if i > 0 {
      ChangedByArgs(was, table, to, argv, i - 1, a);
      RangeOfArg(table, to, argv, |was|, i - 1);
      ArgInside(argv, to, i - 1);
      NextArg(was, table, to, argv, i - 1);
      NotBehindPart(table, to, Base(argv) + |Strings(argv)|, ArgAt(argv, to, i - 1), |argv[i - 1] + [0]|, a);
    } else {
      NoArgs(was, table, to, argv);
    }
  }

  lemma ArgInside(argv: seq<seq<byte>>, to: nat, i: nat)
    requires FitsBelow4G(argv, to) && i < |argv|
    ensures to <= ArgAt(argv, to, i) && ArgAt(argv, to, i) + |argv[i] + [0]| <= to + (Base(argv) + |Strings(argv)|)
  {
    StringsPrefix(argv, i);
  }

  lemma NotBehindPart(table: PageTable, to: nat, n: nat, at: nat, k: nat, a: nat)
    requires to <= at && at + k <= to + n && !Behind(table, to, n, a)
    ensures !Behind(table, at, k, a)
  {
  }

  lemma ChangedByCopyArgs(was: seq<byte>, table: PageTable, to: nat, argv: seq<seq<byte>>, retAddr: seq<byte>, a: nat)
    requires Room(table, to, argv, |was|) && |retAddr| == 4 && a < |was|
    requires !Behind(table, to, Base(argv) + |Strings(argv)|, a)
    requires !(Paddr(table, to + ARGS_SIZE) <= a < Paddr(table, to + ARGS_SIZE) + 4 * |argv|)
    ensures ArgsCopied(was, table, to, argv, retAddr)[a] == was[a]
  {
    hide Room, Paddr, ArgsDone, ArgsCopied;
    ChangedByArgs(was, table, to, argv, |argv|, a);
    AllArgs(was, table, to, argv, retAddr);
    NotBehindPart(table, to, Base(argv) + |Strings(argv)|, to, ARGS_SIZE, a);
  }

  /** In particular no page table has changed, so that the map the writes went through was right throughout. */
  lemma PageTablesKept(was: seq<byte>, table: PageTable, to: nat, argv: seq<seq<byte>>, retAddr: seq<byte>,
                       d: nat, a: nat)
    requires Room(table, to, argv, |was|) && |retAddr| == 4 && d in table.tables
    requires table.tables[d] * PAGE <= a < (table.tables[d] + 1) * PAGE
    ensures a < |was| && ArgsCopied(was, table, to, argv, retAddr)[a] == was[a]
  {
    forall v: nat | Mapped(table, v) ensures Paddr(table, v) != a {
      MappedIsNoTable(table, v, d);
    }
    assert !Behind(table, to, Base(argv) + |Strings(argv)|, a);
    ChangedByCopyArgs(was, table, to, argv, retAddr, a);
  }

  /** Pointers in their places are in the pages of the block, and so in no page table. */
  lemma ContiguousIsClear(table: PageTable, to: nat, argv: seq<seq<byte>>, size: nat)
    requires Block(table, to, argv, size) && TableContiguous(table, to + ARGS_SIZE, 4 * |argv|)
    ensures Room(table, to, argv, size)
  {
    var p, n := Paddr(table, to + ARGS_SIZE), 4 * |argv|;
    hide Paddr, FitsBelow4G, AllMapped;
    forall d | d in table.tables && n > 0
      ensures p + n <= table.tables[d] * PAGE || (table.tables[d] + 1) * PAGE <= p
    {
      if table.tables[d] * PAGE < p + n && p < (table.tables[d] + 1) * PAGE {
        var x := StripMeets(p, n, table.tables[d]);
        MappedIsNoTable(table, to + ARGS_SIZE + x, d);
        assert false;
      }
    }
  }

  lemma StripMeets(p: nat, n: nat, f: nat) returns (x: nat)
    requires f * PAGE < p + n && p < (f + 1) * PAGE && n > 0
    ensures x < n && (p + x) / PAGE == f
  {
    x := if p <= f * PAGE then f * PAGE - p else 0;
  }

  lemma MappedIsNoTable(table: PageTable, v: nat, d: nat)
    requires Injective(table) && Mapped(table, v) && d in table.tables
    ensures Paddr(table, v) / PAGE != table.tables[d]
  {
    assert Paddr(table, v) / PAGE == table.pages[v / PAGE];
  }

  // ---------- argument vectors that do not arrive ----------

  function EmptyArgs(n: nat): (r: seq<seq<byte>>)
    ensures |r| == n && forall i :: 0 <= i < n ==> r[i] == []
  {
    seq(n, _ => [])
  }

  lemma {:induction false} EmptyStrings(n: nat)
    ensures |Strings(EmptyArgs(n))| == n
  {
    if n > 0 {
      assert EmptyArgs(n)[..n - 1] == EmptyArgs(n - 1);
      EmptyStrings(n - 1);
    }
  }

  lemma {:induction false} EmptyArgAt(n: nat, to: nat, i: nat)
    requires FitsBelow4G(EmptyArgs(n), to) && i <= n
    ensures ArgAt(EmptyArgs(n), to, i) == to + ARGS_SIZE + 4 * n + i
  {
    assert EmptyArgs(n)[..i] == EmptyArgs(i);
    EmptyStrings(i);
  }

  /** Two pages with the frame of their page table between theirs, as two mappings in a new address space leave
      them. */
  const PAGE_TABLE_BETWEEN: PageTable := PageTable(map[0x80000 := 2, 0x80001 := 4], map[512 := 3])

  /** With 1022 arguments there, the last pointer is stored into the very entry that maps the block's first page,
      which then names the frame in the pointer's upper bits. */
  lemma PointerBecomesMapping()
    ensures var to, argv, t := 0x8000_0000, EmptyArgs(1022), PAGE_TABLE_BETWEEN;
            && Block(t, to, argv, 5 * PAGE) && !Room(t, to, argv, 5 * PAGE) && DirOf(to / PAGE) in t.tables
            && Paddr(t, to + ARGS_SIZE) + 4 * 1021 == EntryAt(t, to)
            && ArgAt(argv, to, 1021) / PAGE != t.pages[to / PAGE]
  {
    BetweenFits();
    EmptyStrings(1022);
    EmptyArgAt(1022, 0x8000_0000, 1021);
    hide Fits, Paddr, Strings, ArgAt, AllMapped;
    assert EntryAt(PAGE_TABLE_BETWEEN, 0x8000_0000) == 3 * PAGE;
  }

  lemma BetweenFits()
    ensures Fits(PAGE_TABLE_BETWEEN, 5 * PAGE) && AllMapped(PAGE_TABLE_BETWEEN, 0x8000_0000, 5122)
    ensures Paddr(PAGE_TABLE_BETWEEN, 0x8000_0000 + ARGS_SIZE) == 2 * PAGE + ARGS_SIZE
    ensures 512 in PAGE_TABLE_BETWEEN.tables && PAGE_TABLE_BETWEEN.tables[512] == 3
  {
    forall w | 0x8000_0000 <= w < 0x8000_0000 + 5122 ensures Mapped(PAGE_TABLE_BETWEEN, w) {
      BetweenMapped(w);
    }
    hide AllMapped, Mapped;
  }

  lemma BetweenMapped(w: nat)
    requires 0x8000_0000 <= w < 0x8000_0000 + 5122
    ensures Mapped(PAGE_TABLE_BETWEEN, w)
  {
    assert w / PAGE == 0x80000 || w / PAGE == 0x80001;
  }

  // ---------- the whole block, on a table in its place ----------

  ghost function Span(at: nat, n: nat): (r: set<nat>)
    ensures forall v :: v in r <==> at <= v < at + n
  {
    if n == 0 then {} else Span(at, n - 1) + {at + n - 1}
  }

  /** now is was with the image's bytes at the addresses in `done`. */
  ghost predicate Patched(was: seq<byte>, now: seq<byte>, table: PageTable, to: nat, image: seq<byte>, done: set<nat>)
    requires done <= Span(to, |image|)
  {
    && |now| == |was|
    && (forall v {:trigger Byte(now, table, v)} :: 0 <= v && Mapped(table, v) ==>
          Byte(now, table, v) == if v in done then image[v - to] else Byte(was, table, v))
    && (forall a :: 0 <= a < |was| && now[a] != was[a] ==> Behind(table, to, |image|, a))
  }

  lemma PatchMore(was: seq<byte>, mid: seq<byte>, now: seq<byte>, table: PageTable, to: nat, image: seq<byte>,
                  done: set<nat>, at: nat, data: seq<byte>)
    requires done <= Span(to, |image|) && Patched(was, mid, table, to, image, done)
    requires Put(mid, now, table, at, data)
    requires to <= at && at + |data| <= to + |image| && data == image[at - to..at - to + |data|]
    ensures Patched(was, now, table, to, image, done + Span(at, |data|))
  {
    forall v: nat | Mapped(table, v)
      ensures Byte(now, table, v) ==
                if v in done + Span(at, |data|) then image[v - to] else Byte(was, table, v)
    {
      assert Byte(mid, table, v) == if v in done then image[v - to] else Byte(was, table, v);
      if at <= v < at + |data| {
        assert data[v - at] == image[at - to..at - to + |data|][v - at] == image[v - to];
      }
    }
    forall a | 0 <= a < |was| && now[a] != was[a] ensures Behind(table, to, |image|, a) {
      if mid[a] == was[a] {
        assert Behind(table, at, |data|, a);
        var v :| at <= v < at + |data| && Mapped(table, v) && Paddr(table, v) == a;
      }
    }
  }

  lemma FullyPatched(was: seq<byte>, now: seq<byte>, table: PageTable, to: nat, image: seq<byte>, done: set<nat>)
    requires done <= Span(to, |image|) && Patched(was, now, table, to, image, done)
    requires forall v :: to <= v < to + |image| ==> v in done
    ensures Put(was, now, table, to, image)
  {
  }

  lemma PutHolds(was: seq<byte>, now: seq<byte>, table: PageTable, to: nat, image: seq<byte>)
    requires Put(was, now, table, to, image) && AllMapped(table, to, |image|)
    ensures Holds(now, table, to, image)
  {
  }

  /** A write to neighbouring physical addresses is a write to the virtual ones in front of them. */
  lemma PutContiguous(was: seq<byte>, now: seq<byte>, table: PageTable, to: nat, data: seq<byte>, p: nat)
    requires Fits(table, |was|) && |now| == |was| && p + |data| <= |was|
    requires forall v :: to <= v < to + |data| ==> Mapped(table, v) && Paddr(table, v) == p + (v - to)
    requires forall a :: 0 <= a < |was| ==> now[a] == if p <= a < p + |data| then data[a - p] else was[a]
    ensures Put(was, now, table, to, data)
  {
    forall v: nat | Mapped(table, v)
      ensures Byte(now, table, v) == if to <= v < to + |data| then data[v - to] else Byte(was, table, v)
    {
      PaddrFits(table, |was|, v);
      if p <= Paddr(table, v) < p + |data| {
        PaddrInjective(table, v, to + (Paddr(table, v) - p));
      }
    }
    forall a | 0 <= a < |was| && now[a] != was[a] ensures Behind(table, to, |data|, a) {
      assert Mapped(table, to + (a - p)) && Paddr(table, to + (a - p)) == a;
    }
  }

  /** The addresses written when i arguments are done. */
  ghost function DoneAt(argv: seq<seq<byte>>, to: nat, i: nat): set<nat>
    requires i <= |argv|
  {
    Span(to + ARGS_SIZE, 4 * i) + Span(to + Base(argv), |Strings(argv[..i])|)
  }

  lemma DoneMore(argv: seq<seq<byte>>, to: nat, i: nat)
    requires i < |argv|
    ensures DoneAt(argv, to, i + 1) ==
            DoneAt(argv, to, i) + Span(to + Base(argv) + |Strings(argv[..i])|, |argv[i]| + 1)
                                + Span(to + ARGS_SIZE + 4 * i, 4)
  {
    StringsPrefix(argv, i);
  }

  /** The parts of the image that one argument fills. */
  lemma ImageOfArg(argv: seq<seq<byte>>, to: nat, retAddr: seq<byte>, i: nat)
    requires FitsBelow4G(argv, to) && |retAddr| == 4 && i < |argv|
    ensures var image, at := Image(argv, to, retAddr), Base(argv) + |Strings(argv[..i])|;
            && |image| == Base(argv) + |Strings(argv)| && at + |argv[i]| + 1 <= |image| && to + at < UINT32
            && image[at..at + |argv[i]| + 1] == argv[i] + [0]
            && image[ARGS_SIZE + 4 * i..ARGS_SIZE + 4 * i + 4] == Bytes(to + at)
  {
    hide Bytes, Pointers, Strings, Image;
    ImageParts(argv, to, retAddr);
    StringsPrefix(argv, i);
    PointerAt(argv, to + Base(argv), i);
    var image, off := Image(argv, to, retAddr), |Strings(argv[..i])|;
    assert image[Base(argv)..|image|] == image[Base(argv)..];
    PartOfPart(image, Base(argv), |image|, off, off + |argv[i]| + 1);
    PartOfPart(image, ARGS_SIZE, Base(argv), 4 * i, 4 * i + 4);
  }

  lemma NothingDone(was: seq<byte>, table: PageTable, to: nat, argv: seq<seq<byte>>, image: seq<byte>)
    ensures DoneAt(argv, to, 0) == {} && Patched(was, was, table, to, image, {})
  {
    assert argv[..0] == [];
  }

  /** After i arguments exactly their parts of the image are in memory. */
  lemma {:induction false} PatchedAfter(was: seq<byte>, table: PageTable, to: nat, argv: seq<seq<byte>>,
                                        retAddr: seq<byte>, i: nat)
    requires Room(table, to, argv, |was|) && |retAddr| == 4 && i <= |argv|
    requires TableContiguous(table, to + ARGS_SIZE, 4 * |argv|)
    ensures var image := Image(argv, to, retAddr);
            && DoneAt(argv, to, i) <= Span(to, |image|)
            && Patched(was, ArgsDone(was, table, to, argv, i), table, to, image, DoneAt(argv, to, i))
  {
    hide *;
    RangeOfHeader(table, to, argv, |was|);
    var image := Image(argv, to, retAddr);
    if i == 0 {
      NothingDone(was, table, to, argv, image);
      NoArgs(was, table, to, argv);
    } else {
      PatchedAfter(was, table, to, argv, retAddr, i - 1);
      RangeOfArg(table, to, argv, |was|, i - 1);
      ArgInImage(argv, to, retAddr, i - 1);
      NextArg(was, table, to, argv, i - 1);
      var m, d, at := ArgsDone(was, table, to, argv, i - 1), DoneAt(argv, to, i - 1), ArgAt(argv, to, i - 1);
      var text := argv[i - 1] + [0];
      WrittenPut(m, table, at, text);
      PatchMore(was, m, Written(m, table, at, text), table, to, image, d, at, text);
      PointerPatches(was, Written(m, table, at, text), table, to, |argv|, i - 1, image, d + Span(at, |text|), at);
    }
  }

  /** Where argument i stands in the image, in terms of the addresses copy_args computes. */
  lemma ArgInImage(argv: seq<seq<byte>>, to: nat, retAddr: seq<byte>, i: nat)
    requires FitsBelow4G(argv, to) && |retAddr| == 4 && i < |argv|
    ensures var image, at := Image(argv, to, retAddr), ArgAt(argv, to, i);
            && to <= at && at + |argv[i] + [0]| <= to + |image|
            && image[at - to..at - to + |argv[i] + [0]|] == argv[i] + [0]
            && ARGS_SIZE + 4 * i + 4 <= |image| && image[ARGS_SIZE + 4 * i..ARGS_SIZE + 4 * i + 4] == Bytes(at)
            && DoneAt(argv, to, i + 1) == DoneAt(argv, to, i) + Span(at, |argv[i] + [0]|) + Span(WordAt(to, i), 4)
  {
    ImageOfArg(argv, to, retAddr, i);
    DoneMore(argv, to, i);
  }

  /** A pointer stored in its place is a part of the image, too. */
  lemma PointerPatches(was: seq<byte>, m: seq<byte>, table: PageTable, to: nat, n: nat, i: nat,
                       image: seq<byte>, d: set<nat>, ptr: nat)
    requires Fits(table, |m|) && |m| == |was| && i < n && ptr < UINT32
    requires TableContiguous(table, to + ARGS_SIZE, 4 * n) && Paddr(table, to + ARGS_SIZE) + 4 * i + 4 <= |m|
    requires d <= Span(to, |image|) && Patched(was, m, table, to, image, d)
    requires ARGS_SIZE + 4 * i + 4 <= |image| && image[ARGS_SIZE + 4 * i..ARGS_SIZE + 4 * i + 4] == Bytes(ptr)
    ensures var now := Overwritten(m, Paddr(table, to + ARGS_SIZE) + 4 * i, Bytes(ptr));
            && d + Span(WordAt(to, i), 4) <= Span(to, |image|)
            && Patched(was, now, table, to, image, d + Span(WordAt(to, i), 4))
  {
    hide *;
    PlaceOfWord(table, to, n, i);
    var p := Paddr(table, to + ARGS_SIZE) + 4 * i;
    var now := Overwritten(m, p, Bytes(ptr));
    PutContiguous(m, now, table, WordAt(to, i), Bytes(ptr), p);
    PatchMore(was, m, now, table, to, image, d, WordAt(to, i), Bytes(ptr));
  }

  lemma PlaceOfWord(table: PageTable, to: nat, n: nat, i: nat)
    requires TableContiguous(table, to + ARGS_SIZE, 4 * n) && i < n
    ensures WordAt(to, i) == to + ARGS_SIZE + 4 * i
    ensures forall v :: WordAt(to, i) <= v < WordAt(to, i) + 4 ==>
              Mapped(table, v) && Paddr(table, v) == Paddr(table, to + ARGS_SIZE) + 4 * i + (v - WordAt(to, i))
  {
    hide Paddr, Mapped;
  }

  /** With the pointer table on neighbouring frames copy_args leaves the block, and nothing else that is mapped
      has changed. */
  lemma BlockCopied(was: seq<byte>, table: PageTable, to: nat, argv: seq<seq<byte>>, retAddr: seq<byte>)
    requires Room(table, to, argv, |was|) && |retAddr| == 4
    requires TableContiguous(table, to + ARGS_SIZE, 4 * |argv|)
    ensures Put(was, ArgsCopied(was, table, to, argv, retAddr), table, to, Image(argv, to, retAddr))
  {
    hide *;
    PatchedAfter(was, table, to, argv, retAddr, |argv|);
    AllArgs(was, table, to, argv, retAddr);
    RangeOfHeader(table, to, argv, |was|);
    HeaderOfImage(argv, to, retAddr);
    var m, image, d := ArgsDone(was, table, to, argv, |argv|), Image(argv, to, retAddr), DoneAt(argv, to, |argv|);
    var now := Written(m, table, to, Header(argv, to, retAddr));
    WrittenPut(m, table, to, Header(argv, to, retAddr));
    PatchMore(was, m, now, table, to, image, d, to, Header(argv, to, retAddr));
    EverythingDone(argv, to, retAddr);
    FullyPatched(was, now, table, to, image, d + Span(to, ARGS_SIZE));
  }

  lemma EverythingDone(argv: seq<seq<byte>>, to: nat, retAddr: seq<byte>)
    requires FitsBelow4G(argv, to) && |retAddr| == 4
    ensures forall v :: to <= v < to + |Image(argv, to, retAddr)| ==>
              v in DoneAt(argv, to, |argv|) + Span(to, ARGS_SIZE)
  {
    ImageParts(argv, to, retAddr);
    StringsBelow(argv, |argv|);
  }

  /** The round trip of copy_args: the program reads back argc and every string. */
  lemma CopiedReadsBack(was: seq<byte>, table: PageTable, to: nat, argv: seq<seq<byte>>, retAddr: seq<byte>)
    requires Room(table, to, argv, |was|) && |retAddr| == 4 && AreTexts(argv)
    requires TableContiguous(table, to + ARGS_SIZE, 4 * |argv|)
    ensures var now := ArgsCopied(was, table, to, argv, retAddr);
            && Argc(now, table, to) == |argv|
            && forall i :: 0 <= i < |argv| ==> Argv(now, table, to, i) == argv[i]
  {
    BlockCopied(was, table, to, argv, retAddr);
    ImageParts(argv, to, retAddr);
    hide Put, Image, Argc, Argv, ArgsCopied, TableContiguous, AreTexts;
    PutHolds(was, ArgsCopied(was, table, to, argv, retAddr), table, to, Image(argv, to, retAddr));
    ArgsReadBack(ArgsCopied(was, table, to, argv, retAddr), table, to, argv, retAddr);
  }

  lemma HeaderOfImage(argv: seq<seq<byte>>, to: nat, retAddr: seq<byte>)
    requires FitsBelow4G(argv, to) && |retAddr| == 4
    ensures |argv| < UINT32 && to + ARGS_SIZE < UINT32 && ARGS_SIZE <= |Image(argv, to, retAddr)|
    ensures Image(argv, to, retAddr)[0..ARGS_SIZE] == Header(argv, to, retAddr)
  {
    hide Bytes, Pointers, Strings;
  }
}
