/** Writing the structures of source/comm/elf.h field by field, in the order of their declaration, and reading them back
    with the offsets the loaders use. */
module ElfLayout {
  import opened Elf
  import opened Paging
  import opened ExecArgs
  import BootLoader
  import opened ProgramLoad

  const UINT16: nat := 0x1_0000
  const EI_NIDENT: nat := 16

  function HalfBytes(w: nat): (r: seq<byte>)
    requires w < UINT16
    ensures |r| == 2
  {
    [w % 0x100, w / 0x100]
  }

  /** All fields of Elf32_Ehdr. */
  datatype EhdrFields = EhdrFields(
    e_ident: seq<byte>, e_type: nat, e_machine: nat, e_version: nat, e_entry: nat, e_phoff: nat, e_shoff: nat,
    e_flags: nat, e_ehsize: nat, e_phentsize: nat, e_phnum: nat, e_shentsize: nat, e_shnum: nat, e_shstrndx: nat)

  /** All fields of Elf32_Phdr. */
  datatype PhdrFields = PhdrFields(
    p_type: nat, p_offset: nat, p_vaddr: nat, p_paddr: nat, p_filesz: nat, p_memsz: nat, p_flags: nat, p_align: nat)

  predicate EhdrInRange(h: EhdrFields) {
    && |h.e_ident| == EI_NIDENT && h.e_type < UINT16 && h.e_machine < UINT16 && h.e_version < UINT32
    && h.e_entry < UINT32 && h.e_phoff < UINT32 && h.e_shoff < UINT32 && h.e_flags < UINT32 && h.e_ehsize < UINT16
    && h.e_phentsize < UINT16 && h.e_phnum < UINT16 && h.e_shentsize < UINT16 && h.e_shnum < UINT16
    && h.e_shstrndx < UINT16
  }

  predicate PhdrInRange(p: PhdrFields) {
    && p.p_type < UINT32 && p.p_offset < UINT32 && p.p_vaddr < UINT32 && p.p_paddr < UINT32 && p.p_filesz < UINT32
    && p.p_memsz < UINT32 && p.p_flags < UINT32 && p.p_align < UINT32
  }

  /** The packed structure, one field behind the other. */
  function EhdrBytes(h: EhdrFields): seq<byte>
    requires EhdrInRange(h)
  {
    h.e_ident + HalfBytes(h.e_type) + HalfBytes(h.e_machine) + Bytes(h.e_version) + Bytes(h.e_entry) +
    Bytes(h.e_phoff) + Bytes(h.e_shoff) + Bytes(h.e_flags) + HalfBytes(h.e_ehsize) + HalfBytes(h.e_phentsize) +
    HalfBytes(h.e_phnum) + HalfBytes(h.e_shentsize) + HalfBytes(h.e_shnum) + HalfBytes(h.e_shstrndx)
  }

  function PhdrBytes(p: PhdrFields): seq<byte>
    requires PhdrInRange(p)
  {
    Bytes(p.p_type) + Bytes(p.p_offset) + Bytes(p.p_vaddr) + Bytes(p.p_paddr) + Bytes(p.p_filesz) +
    Bytes(p.p_memsz) + Bytes(p.p_flags) + Bytes(p.p_align)
  }

  /** What the loaders keep of the fields. */
  function EhdrKept(h: EhdrFields): Ehdr {
    Ehdr(h.e_type, h.e_machine, h.e_entry, h.e_phoff, h.e_phentsize, h.e_phnum)
  }

  function PhdrKept(p: PhdrFields): Phdr { Phdr(p.p_type, p.p_offset, p.p_vaddr, p.p_paddr, p.p_filesz, p.p_memsz) }

  /** The bytes of a value, read back where they stand. */
  lemma WordAtPlace(m: seq<byte>, a: nat, w: nat)
    requires w < UINT32 && a + 4 <= |m| && m[a..a + 4] == Bytes(w)
    ensures Word(m, a) == w
  {
    BytesWord(w);
    SameWord(m, Bytes(w), a, 0);
  }

  lemma HalfAtPlace(m: seq<byte>, a: nat, w: nat)
    requires w < UINT16 && a + 2 <= |m| && m[a..a + 2] == HalfBytes(w)
    ensures Half(m, a) == w
  {
    assert m[a] == m[a..a + 2][0] && m[a + 1] == m[a..a + 2][1];
  }

  /** A part of a part. */
  lemma PartAt(m: seq<byte>, a: nat, whole: seq<byte>, k: nat, n: nat)
    requires a + |whole| <= |m| && m[a..a + |whole|] == whole && k + n <= |whole|
    ensures m[a + k..a + k + n] == whole[k..k + n]
  {
    var s, t := m[a + k..a + k + n], whole[k..k + n];
    forall i | 0 <= i < n ensures s[i] == t[i] {
      assert m[a..a + |whole|][k + i] == whole[k + i];
    }
  }

  lemma EhdrParts(h: EhdrFields)
    requires EhdrInRange(h)
    ensures var b := EhdrBytes(h);
            && |b| == EHDR_SIZE && b[..16] == h.e_ident
            && b[16..18] == HalfBytes(h.e_type) && b[18..20] == HalfBytes(h.e_machine)
            && b[24..28] == Bytes(h.e_entry) && b[28..32] == Bytes(h.e_phoff)
            && b[42..44] == HalfBytes(h.e_phentsize) && b[44..46] == HalfBytes(h.e_phnum)
  {
    hide Bytes, HalfBytes;
  }

  lemma PhdrParts(p: PhdrFields)
    requires PhdrInRange(p)
    ensures var b := PhdrBytes(p);
            && |b| == PHDR_SIZE && b[0..4] == Bytes(p.p_type) && b[4..8] == Bytes(p.p_offset)
            && b[8..12] == Bytes(p.p_vaddr) && b[12..16] == Bytes(p.p_paddr)
            && b[16..20] == Bytes(p.p_filesz) && b[20..24] == Bytes(p.p_memsz)
  {
    hide Bytes;
  }

  /** The ELF header reads back as it was written, and passes the magic test exactly if its first bytes are
      0x7F 'E' 'L' 'F'. */
  lemma EhdrReadsBack(m: seq<byte>, a: nat, h: EhdrFields)
    requires EhdrInRange(h) && a + EHDR_SIZE <= |m| && m[a..a + EHDR_SIZE] == EhdrBytes(h)
    ensures EhdrAt(m, a) == EhdrKept(h)
    ensures MagicAt(m, a) <==> h.e_ident[..4] == [0x7F, 0x45, 0x4C, 0x46]
  {
    var b := EhdrBytes(h);
    EhdrParts(h);
    hide EhdrBytes, Bytes, HalfBytes, Word, Half;
    PartAt(m, a, b, 16, 2);
    PartAt(m, a, b, 18, 2);
    PartAt(m, a, b, 24, 4);
    PartAt(m, a, b, 28, 4);
    PartAt(m, a, b, 42, 2);
    PartAt(m, a, b, 44, 2);
    HalfAtPlace(m, a + 16, h.e_type);
    HalfAtPlace(m, a + 18, h.e_machine);
    WordAtPlace(m, a + 24, h.e_entry);
    WordAtPlace(m, a + 28, h.e_phoff);
    HalfAtPlace(m, a + 42, h.e_phentsize);
    HalfAtPlace(m, a + 44, h.e_phnum);
    PartAt(m, a, b, 0, 4);
    MagicOf(m, a, h.e_ident);
  }

  lemma MagicOf(m: seq<byte>, a: nat, ident: seq<byte>)
    requires a + 4 <= |m| && |ident| >= 4 && m[a..a + 4] == ident[..4]
    ensures MagicAt(m, a) <==> ident[..4] == [0x7F, 0x45, 0x4C, 0x46]
  {
    var s := m[a..a + 4];
    assert s == [m[a], m[a + 1], m[a + 2], m[a + 3]];
    assert 'E' as int == 0x45 && 'L' as int == 0x4C && 'F' as int == 0x46;
  }

  lemma PhdrReadsBack(m: seq<byte>, a: nat, p: PhdrFields)
    requires PhdrInRange(p) && a + PHDR_SIZE <= |m| && m[a..a + PHDR_SIZE] == PhdrBytes(p)
    ensures PhdrAt(m, a) == PhdrKept(p)
  {
    var b := PhdrBytes(p);
    PhdrParts(p);
    hide PhdrBytes, Bytes, Word;
    PartAt(m, a, b, 0, 4);
    PartAt(m, a, b, 4, 4);
    PartAt(m, a, b, 8, 4);
    PartAt(m, a, b, 12, 4);
    PartAt(m, a, b, 16, 4);
    PartAt(m, a, b, 20, 4);
    WordAtPlace(m, a, p.p_type);
    WordAtPlace(m, a + 4, p.p_offset);
    WordAtPlace(m, a + 8, p.p_vaddr);
    WordAtPlace(m, a + 12, p.p_paddr);
    WordAtPlace(m, a + 16, p.p_filesz);
    WordAtPlace(m, a + 20, p.p_memsz);
  }

  // ---------- tables of program headers ----------

  predicate TableInRange(ps: seq<PhdrFields>) { forall p :: p in ps ==> PhdrInRange(p) }

  /** The headers one behind the other, each followed by `pad` more bytes. */
  function Table(ps: seq<PhdrFields>, pad: seq<byte>): (r: seq<byte>)
    requires TableInRange(ps)
  {
    if ps == [] then [] else PhdrBytes(ps[0]) + pad + Table(ps[1..], pad)
  }

  lemma {:induction false} TableEntry(ps: seq<PhdrFields>, pad: seq<byte>, i: nat)
    requires TableInRange(ps) && i < |ps|
    ensures var at := Times(i, PHDR_SIZE + |pad|);
            at + PHDR_SIZE <= |Table(ps, pad)| && Table(ps, pad)[at..at + PHDR_SIZE] == PhdrBytes(ps[i])
  {
    hide *;
    TableCons(ps, pad);
    TimesNext(i, PHDR_SIZE + |pad|);
    var entry, rest := PhdrBytes(ps[0]), Table(ps[1..], pad);
    if i == 0 {
      InFront(entry, pad, rest);
    } else {
      TableEntry(ps[1..], pad, i - 1);
      InBack(entry + pad, rest, Times(i - 1, PHDR_SIZE + |pad|), PHDR_SIZE);
    }
  }

  lemma TableCons(ps: seq<PhdrFields>, pad: seq<byte>)
    requires TableInRange(ps) && ps != []
    ensures PhdrInRange(ps[0]) && |PhdrBytes(ps[0])| == PHDR_SIZE && TableInRange(ps[1..])
    ensures Table(ps, pad) == PhdrBytes(ps[0]) + pad + Table(ps[1..], pad)
  {
    PhdrParts(ps[0]);
    hide PhdrBytes, PhdrInRange;
  }

  lemma InFront(a: seq<byte>, b: seq<byte>, c: seq<byte>)
    ensures (a + b + c)[..|a|] == a
  {
  }

  lemma InBack(first: seq<byte>, rest: seq<byte>, k: nat, n: nat)
    requires k + n <= |rest|
    ensures (first + rest)[|first| + k..|first| + k + n] == rest[k..k + n]
  {
  }

  lemma TimesNext(i: nat, size: nat)
    ensures i == 0 ==> Times(i, size) == 0
    ensures i > 0 ==> Times(i, size) == size + Times(i - 1, size)
  {
  }

  /** The file stands at address fb: its header, and at e_phoff its program headers. */
  ghost predicate FileStands(m: seq<byte>, fb: nat, h: EhdrFields, ps: seq<PhdrFields>, pad: seq<byte>) {
    && EhdrInRange(h) && TableInRange(ps) && h.e_phnum == |ps|
    && fb + EHDR_SIZE <= |m| && m[fb..fb + EHDR_SIZE] == EhdrBytes(h)
    && fb + h.e_phoff + |Table(ps, pad)| <= |m|
    && m[fb + h.e_phoff..fb + h.e_phoff + |Table(ps, pad)|] == Table(ps, pad)
  }

  /** A program header at its place in the table. */
  lemma HeaderStands(m: seq<byte>, fb: nat, h: EhdrFields, ps: seq<PhdrFields>, pad: seq<byte>, i: nat)
    requires FileStands(m, fb, h, ps, pad) && i < |ps|
    ensures var at := fb + h.e_phoff + Times(i, PHDR_SIZE + |pad|);
            at + PHDR_SIZE <= |m| && PhdrAt(m, at) == PhdrKept(ps[i])
    ensures fb + EHDR_SIZE <= |m| && EhdrAt(m, fb) == EhdrKept(h)
  {
    hide *;
    EhdrFits(m, fb, h, ps, pad);
    EhdrReadsBack(m, fb, h);
    EntryStands(m, fb + h.e_phoff, ps, pad, i);
  }

  lemma EntryStands(m: seq<byte>, a: nat, ps: seq<PhdrFields>, pad: seq<byte>, i: nat)
    requires TableInRange(ps) && i < |ps| && a + |Table(ps, pad)| <= |m|
    requires m[a..a + |Table(ps, pad)|] == Table(ps, pad)
    ensures var at := a + Times(i, PHDR_SIZE + |pad|);
            at + PHDR_SIZE <= |m| && PhdrAt(m, at) == PhdrKept(ps[i])
  {
    hide *;
    EntryInRange(ps, i);
    TableEntry(ps, pad, i);
    var k := Times(i, PHDR_SIZE + |pad|);
    PartAt(m, a, Table(ps, pad), k, PHDR_SIZE);
    PhdrReadsBack(m, a + k, ps[i]);
  }

  lemma EntryInRange(ps: seq<PhdrFields>, i: nat)
    requires TableInRange(ps) && i < |ps|
    ensures PhdrInRange(ps[i])
  {
    hide PhdrInRange;
  }

  /** reload_elf_file finds each program header of a file whose headers lie one behind the other. */
  lemma BootHeaders(m: seq<byte>, fb: nat, h: EhdrFields, ps: seq<PhdrFields>, i: nat)
    requires FileStands(m, fb, h, ps, []) && i < |ps|
    ensures fb + EHDR_SIZE <= |m| && EhdrAt(m, fb) == EhdrKept(h) && fb + h.e_phoff + PHDR_SIZE * (i + 1) <= |m|
    ensures BootLoader.PhdrOf(m, fb, i) == PhdrKept(ps[i])
  {
    hide EhdrAt, PhdrAt, FileStands;
    EhdrFits(m, fb, h, ps, []);
    HeaderStands(m, fb, h, ps, [], i);
    TimesIs(i);
    hide Times;
  }

  lemma TimesIs(i: nat)
    ensures Times(i, PHDR_SIZE) == PHDR_SIZE * i && PHDR_SIZE * (i + 1) == PHDR_SIZE * i + PHDR_SIZE
  {
  }

  /** So, by the fields as they were written: a segment that shares no address with another one is in memory at its
      physical address when reload_elf_file is done, p_filesz bytes of the file and then zeros. */
  lemma SegmentBooted(m: seq<byte>, fb: nat, size: nat, h: EhdrFields, ps: seq<PhdrFields>, i: nat, k: nat)
    requires FileStands(m, fb, h, ps, []) && BootLoader.FileOk(m, fb, size) && i < |ps|
    requires h.e_ident[..4] == [0x7F, 0x45, 0x4C, 0x46] && ps[i].p_type == 1 && k < ps[i].p_memsz
    requires forall j :: 0 <= j < |ps| && j != i && ps[j].p_type == 1 ==>
               !(ps[j].p_paddr <= ps[i].p_paddr + k < ps[j].p_paddr + ps[j].p_memsz)
    ensures fb + EHDR_SIZE <= |m| && MagicAt(m, fb) && EhdrAt(m, fb).e_phnum == |ps| && ps[i].p_paddr + k < |m|
    ensures k < ps[i].p_filesz ==> fb + ps[i].p_offset + k < |m|
    ensures BootLoader.ImageByte(m, fb, size, |ps|, ps[i].p_paddr + k) ==
            if k < ps[i].p_filesz then m[fb + ps[i].p_offset + k] else 0
  {
    hide FileStands, EhdrAt, PhdrAt, MagicAt, BootLoader.PhdrOf, BootLoader.ImageByte, BootLoader.SegmentOk;
    EhdrFits(m, fb, h, ps, []);
    EhdrReadsBack(m, fb, h);
    BootHeaders(m, fb, h, ps, i);
    OthersElsewhere(m, fb, size, h, ps, i, k);
    assert BootLoader.SegmentOk(m, fb, size, BootLoader.PhdrOf(m, fb, i));
    SegmentBounds(m, fb, size, PhdrKept(ps[i]));
    hide BootLoader.FileOk;
    BootLoader.DisjointSegments(m, fb, size, i, k);
  }

  lemma SegmentBounds(m: seq<byte>, fb: nat, size: nat, ph: Phdr)
    requires BootLoader.SegmentOk(m, fb, size, ph) && ph.p_type == 1
    ensures ph.p_paddr + ph.p_memsz <= |m| && ph.p_offset + ph.p_filesz <= size
  {
  }

  lemma OthersElsewhere(m: seq<byte>, fb: nat, size: nat, h: EhdrFields, ps: seq<PhdrFields>, i: nat, k: nat)
    requires FileStands(m, fb, h, ps, []) && i < |ps|
    requires fb + EHDR_SIZE <= |m| && EhdrAt(m, fb) == EhdrKept(h) && h.e_phnum == |ps|
    requires fb + h.e_phoff + PHDR_SIZE * |ps| <= |m|
    requires forall j :: 0 <= j < |ps| && j != i && ps[j].p_type == 1 ==>
               !(ps[j].p_paddr <= ps[i].p_paddr + k < ps[j].p_paddr + ps[j].p_memsz)
    ensures forall j {:trigger BootLoader.PhdrOf(m, fb, j)} :: 0 <= j < |ps| && j != i ==>
              !BootLoader.Covers(BootLoader.PhdrOf(m, fb, j), ps[i].p_paddr + k)
  {
    hide FileStands, EhdrAt, PhdrAt, BootLoader.PhdrOf;
    forall j: nat | j < |ps| && j != i
      ensures fb + h.e_phoff + PHDR_SIZE * (j + 1) <= |m|
      ensures !BootLoader.Covers(BootLoader.PhdrOf(m, fb, j), ps[i].p_paddr + k)
    {
      BootHeaders(m, fb, h, ps, j);
    }
  }

  /** load_elf_file finds each program header of a file whose headers lie e_phentsize apart, and accepts it exactly if
      it is of type 1 for an address from 0x80000000 on. */
  lemma FileHeaders(content: seq<byte>, h: EhdrFields, ps: seq<PhdrFields>, pad: seq<byte>, i: nat)
    requires FileStands(content, 0, h, ps, pad) && i < |ps| && |content| < UINT32
    requires h.e_phentsize == PHDR_SIZE + |pad|
    ensures PhdrCount(content) == |ps| && PhdrReadable(content, i) && FilePhdr(content, i) == PhdrKept(ps[i])
    ensures Accepted(content, i) <==> ps[i].p_type == 1 && ps[i].p_vaddr >= 0x8000_0000
  {
    hide *;
    HeaderStands(content, 0, h, ps, pad, i);
    EhdrFits(content, 0, h, ps, pad);
    PosInFile(content, h, i, h.e_phoff + Times(i, h.e_phentsize));
    HeaderFound(content, i, PhdrKept(ps[i]));
    Kept(h, ps[i]);
  }

  lemma Kept(h: EhdrFields, p: PhdrFields)
    ensures EhdrKept(h).e_phnum == h.e_phnum && PhdrKept(p).p_type == p.p_type && PhdrKept(p).p_vaddr == p.p_vaddr
  {
  }

  lemma PosInFile(content: seq<byte>, h: EhdrFields, i: nat, at: nat)
    requires |content| >= EHDR_SIZE && EhdrAt(content, 0) == EhdrKept(h)
    requires at == h.e_phoff + Times(i, h.e_phentsize) && at + PHDR_SIZE <= |content| < UINT32
    ensures PhdrPos(content, i) == at && PhdrReadable(content, i) && PhdrCount(content) == EhdrKept(h).e_phnum
    ensures FilePhdr(content, i) == PhdrAt(content, at)
  {
    hide EhdrAt, PhdrAt, Times;
  }

  lemma HeaderFound(content: seq<byte>, i: nat, ph: Phdr)
    requires PhdrReadable(content, i) && FilePhdr(content, i) == ph
    ensures Accepted(content, i) <==> ph.p_type == 1 && ph.p_vaddr >= 0x8000_0000
  {
    hide FilePhdr, PhdrReadable;
  }

  lemma EhdrFits(m: seq<byte>, fb: nat, h: EhdrFields, ps: seq<PhdrFields>, pad: seq<byte>)
    requires FileStands(m, fb, h, ps, pad)
    ensures fb + EHDR_SIZE <= |m| && h.e_phnum == |ps| && TableInRange(ps)
    ensures EhdrInRange(h) && m[fb..fb + EHDR_SIZE] == EhdrBytes(h)
    ensures fb + h.e_phoff + |Table(ps, pad)| <= |m|
    ensures m[fb + h.e_phoff..fb + h.e_phoff + |Table(ps, pad)|] == Table(ps, pad)
  {
    hide EhdrBytes, Table, EhdrInRange, TableInRange;
  }

  /** The header check of load_elf_file, by the fields as they were written: an ELF file, executable, for the 80386,
      with an entry point and program headers. */
  lemma HeaderChecked(content: seq<byte>, h: EhdrFields)
    requires EhdrInRange(h) && EHDR_SIZE <= |content| && content[..EHDR_SIZE] == EhdrBytes(h)
    ensures HeaderOk(content) <==>
            && h.e_ident[..4] == [0x7F, 0x45, 0x4C, 0x46] && h.e_type == 2 && h.e_machine == 3
            && h.e_entry != 0 && h.e_phentsize != 0 && h.e_phoff != 0
  {
    hide EhdrBytes, EhdrAt, MagicAt;
    assert content[0..0 + EHDR_SIZE] == content[..EHDR_SIZE];
    EhdrReadsBack(content, 0, h);
  }
}
