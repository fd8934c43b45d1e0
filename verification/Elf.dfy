/** The ELF structures of source/comm/elf.h as bytes in memory, least significant byte first. */
module Elf {

  type byte = x: int | 0 <= x < 256

  const ELF_MAGIC: byte := 0x7F
  const ET_EXEC: int := 2
  const ET_386: int := 3
  const PT_LOAD: int := 1
  const EHDR_SIZE: nat := 52
  const PHDR_SIZE: nat := 32

  function At(m: seq<byte>, a: nat, i: nat): int
    requires a + i < |m|
  {
    m[a + i]
  }

  function Half(m: seq<byte>, a: nat): nat
    requires a + 2 <= |m|
  {
    At(m, a, 0) + 0x100 * At(m, a, 1)
  }

  function Word(m: seq<byte>, a: nat): nat
    requires a + 4 <= |m|
  {
    At(m, a, 0) + 0x100 * At(m, a, 1) + 0x1_0000 * At(m, a, 2) + 0x100_0000 * At(m, a, 3)
  }

  lemma WordBound(m: seq<byte>, a: nat)
    requires a + 4 <= |m|
    ensures Word(m, a) < 0x1_0000_0000
  {
  }

  datatype Ehdr = Ehdr(e_type: nat, e_machine: nat, e_entry: nat, e_phoff: nat, e_phentsize: nat, e_phnum: nat)

  datatype Phdr = Phdr(p_type: nat, p_offset: nat, p_vaddr: nat, p_paddr: nat, p_filesz: nat, p_memsz: nat)

  predicate MagicAt(m: seq<byte>, a: nat)
    requires a + 4 <= |m|
  {
    m[a] == ELF_MAGIC && m[a + 1] == 'E' as int && m[a + 2] == 'L' as int && m[a + 3] == 'F' as int
  }

  function EhdrAt(m: seq<byte>, a: nat): Ehdr
    requires a + EHDR_SIZE <= |m|
  {
    Ehdr(Half(m, a + 16), Half(m, a + 18), Word(m, a + 24), Word(m, a + 28), Half(m, a + 42), Half(m, a + 44))
  }

  function PhdrAt(m: seq<byte>, a: nat): Phdr
    requires a + PHDR_SIZE <= |m|
  {
    Phdr(Word(m, a), Word(m, a + 4), Word(m, a + 8), Word(m, a + 12), Word(m, a + 16), Word(m, a + 20))
  }

  lemma SameWord(m: seq<byte>, n: seq<byte>, a: nat, b: nat)
    requires a + 4 <= |m| && b + 4 <= |n| && m[a..a + 4] == n[b..b + 4]
    ensures Word(m, a) == Word(n, b) && Half(m, a) == Half(n, b)
  {
    assert m[a] == m[a..a + 4][0] && n[b] == n[b..b + 4][0];
    assert m[a + 1] == m[a..a + 4][1] && n[b + 1] == n[b..b + 4][1];
    assert m[a + 2] == m[a..a + 4][2] && n[b + 2] == n[b..b + 4][2];
    assert m[a + 3] == m[a..a + 4][3] && n[b + 3] == n[b..b + 4][3];
  }

  lemma SliceOfSlice(m: seq<byte>, a: nat, size: nat, k: nat)
    requires a + size <= |m| && k + 4 <= size
    ensures m[a + k..a + k + 4] == m[a..a + size][k..k + 4]
  {
    var s, t := m[a + k..a + k + 4], m[a..a + size][k..k + 4];
    assert |s| == |t| == 4;
    assert s[0] == t[0] && s[1] == t[1] && s[2] == t[2] && s[3] == t[3];
  }

  lemma SameWordIn(m: seq<byte>, n: seq<byte>, a: nat, b: nat, size: nat, k: nat)
    requires a + size <= |m| && b + size <= |n| && m[a..a + size] == n[b..b + size] && k + 4 <= size
    ensures Word(m, a + k) == Word(n, b + k) && Half(m, a + k) == Half(n, b + k)
  {
    SliceOfSlice(m, a, size, k);
    SliceOfSlice(n, b, size, k);
    SameWord(m, n, a + k, b + k);
  }

  /** A header depends on its own bytes only. */
  lemma SameEhdr(m: seq<byte>, n: seq<byte>, a: nat, b: nat)
    requires a + EHDR_SIZE <= |m| && b + EHDR_SIZE <= |n| && m[a..a + EHDR_SIZE] == n[b..b + EHDR_SIZE]
    ensures EhdrAt(m, a) == EhdrAt(n, b)
  {
    hide Word, Half;
    SameWordIn(m, n, a, b, EHDR_SIZE, 16);
    SameWordIn(m, n, a, b, EHDR_SIZE, 18);
    SameWordIn(m, n, a, b, EHDR_SIZE, 24);
    SameWordIn(m, n, a, b, EHDR_SIZE, 28);
    SameWordIn(m, n, a, b, EHDR_SIZE, 42);
    SameWordIn(m, n, a, b, EHDR_SIZE, 44);
  }

  lemma SamePhdr(m: seq<byte>, n: seq<byte>, a: nat, b: nat)
    requires a + PHDR_SIZE <= |m| && b + PHDR_SIZE <= |n| && m[a..a + PHDR_SIZE] == n[b..b + PHDR_SIZE]
    ensures PhdrAt(m, a) == PhdrAt(n, b)
  {
    hide Word, Half;
    SameWordIn(m, n, a, b, PHDR_SIZE, 0);
    SameWordIn(m, n, a, b, PHDR_SIZE, 4);
    SameWordIn(m, n, a, b, PHDR_SIZE, 8);
    SameWordIn(m, n, a, b, PHDR_SIZE, 12);
    SameWordIn(m, n, a, b, PHDR_SIZE, 16);
    SameWordIn(m, n, a, b, PHDR_SIZE, 20);
  }
}
