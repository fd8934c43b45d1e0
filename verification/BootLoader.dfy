/** reload_elf_file of source/loader/loader_32.c: the kernel image is built in physical memory. */
module BootLoader {
  import opened Elf

  /** The i-th program header of the file at fb: sizeof(Elf32_Phdr) apart, whatever e_phentsize says. */
  function PhdrOf(m: seq<byte>, fb: nat, i: nat): Phdr
    requires fb + EHDR_SIZE <= |m| && fb + EhdrAt(m, fb).e_phoff + PHDR_SIZE * (i + 1) <= |m|
  {
    PhdrAt(m, fb + EhdrAt(m, fb).e_phoff + PHDR_SIZE * i)
  }

  /** The segment of a loadable header lies in memory clear of the file, and its bytes in the file. */
  predicate SegmentOk(m: seq<byte>, fb: nat, size: nat, ph: Phdr) {
    ph.p_type == PT_LOAD ==>
      && ph.p_filesz <= ph.p_memsz < 0x8000_0000
      && ph.p_offset + ph.p_filesz <= size
      && ph.p_paddr + ph.p_memsz <= |m|
      && (ph.p_paddr + ph.p_memsz <= fb || fb + size <= ph.p_paddr)
  }

  /** What the loader takes for granted of the `size` bytes it was given at fb. */
  ghost predicate FileOk(m: seq<byte>, fb: nat, size: nat) {
    && fb + size <= |m|
    && size >= 4
    && (MagicAt(m, fb) ==>
          && size >= EHDR_SIZE
          && EhdrAt(m, fb).e_phoff + PHDR_SIZE * EhdrAt(m, fb).e_phnum <= size
          && forall i {:trigger PhdrOf(m, fb, i)} :: 0 <= i < EhdrAt(m, fb).e_phnum ==>
               SegmentOk(m, fb, size, PhdrOf(m, fb, i)))
  }

  predicate Covers(ph: Phdr, a: int) {
    ph.p_type == PT_LOAD && ph.p_paddr <= a < ph.p_paddr + ph.p_memsz
  }

  /** The byte the segment of ph puts at address a: from the file, or 0 behind p_filesz. */
  function SegmentByte(m: seq<byte>, fb: nat, ph: Phdr, a: int): byte
    requires Covers(ph, a) && ph.p_filesz <= ph.p_memsz && fb + ph.p_offset + ph.p_filesz <= |m|
  {
    if a < ph.p_paddr + ph.p_filesz then m[fb + ph.p_offset + (a - ph.p_paddr)] else 0
  }

  /** Memory m at address a once the first n headers are loaded: the last segment that covers a decides. */
  ghost function ImageByte(m: seq<byte>, fb: nat, size: nat, n: nat, a: nat): byte
    requires FileOk(m, fb, size) && MagicAt(m, fb) && n <= EhdrAt(m, fb).e_phnum && a < |m|
  {
    if n == 0 then m[a]
    else if Covers(PhdrOf(m, fb, n - 1), a) then SegmentByte(m, fb, PhdrOf(m, fb, n - 1), a)
    else ImageByte(m, fb, size, n - 1, a)
  }

  /** An address that no loadable segment covers keeps its byte. */
  lemma {:induction false} OutsideUnchanged(m: seq<byte>, fb: nat, size: nat, n: nat, a: nat)
    requires FileOk(m, fb, size) && MagicAt(m, fb) && n <= EhdrAt(m, fb).e_phnum && a < |m|
    requires forall i {:trigger PhdrOf(m, fb, i)} :: 0 <= i < n ==> !Covers(PhdrOf(m, fb, i), a)
    ensures ImageByte(m, fb, size, n, a) == m[a]
  {
    hide PhdrAt, EhdrAt, SegmentByte, FileOk;
    if n > 0 {
      OutsideUnchanged(m, fb, size, n - 1, a);
    }
  }

  /** Where segments overlap, the last header's segment is the one in memory. */
  lemma {:induction false} LastSegmentWins(m: seq<byte>, fb: nat, size: nat, n: nat, i: nat, a: nat)
    requires FileOk(m, fb, size) && MagicAt(m, fb) && i < n <= EhdrAt(m, fb).e_phnum && a < |m|
    requires Covers(PhdrOf(m, fb, i), a) && SegmentOk(m, fb, size, PhdrOf(m, fb, i))
    requires forall j {:trigger PhdrOf(m, fb, j)} :: i < j < n ==> !Covers(PhdrOf(m, fb, j), a)
    ensures ImageByte(m, fb, size, n, a) == SegmentByte(m, fb, PhdrOf(m, fb, i), a)
    decreases n
  {
    hide PhdrAt, EhdrAt, SegmentByte, FileOk;
    if i < n - 1 {
      LastSegmentWins(m, fb, size, n - 1, i, a);
    }
  }

  /** With segments that do not overlap, each address range holds the file's bytes and then zeros. */
  lemma DisjointSegments(m: seq<byte>, fb: nat, size: nat, i: nat, k: nat)
    requires FileOk(m, fb, size) && MagicAt(m, fb) && i < EhdrAt(m, fb).e_phnum
    requires PhdrOf(m, fb, i).p_type == PT_LOAD && k < PhdrOf(m, fb, i).p_memsz
    requires forall j {:trigger PhdrOf(m, fb, j)} :: 0 <= j < EhdrAt(m, fb).e_phnum && j != i ==>
               !Covers(PhdrOf(m, fb, j), PhdrOf(m, fb, i).p_paddr + k)
    ensures SegmentOk(m, fb, size, PhdrOf(m, fb, i))
    ensures var ph := PhdrOf(m, fb, i);
            ImageByte(m, fb, size, EhdrAt(m, fb).e_phnum, ph.p_paddr + k) ==
              if k < ph.p_filesz then m[fb + ph.p_offset + k] else 0
  {
    var ph := PhdrOf(m, fb, i);
    hide PhdrAt, EhdrAt, PhdrOf;
    LastSegmentWins(m, fb, size, EhdrAt(m, fb).e_phnum, i, ph.p_paddr + k);
  }

  /** The file's own bytes are never overwritten. */
  lemma {:induction false} FileKept(m: seq<byte>, fb: nat, size: nat, n: nat, a: nat)
    requires FileOk(m, fb, size) && MagicAt(m, fb) && n <= EhdrAt(m, fb).e_phnum && fb <= a < fb + size
    ensures ImageByte(m, fb, size, n, a) == m[a]
  {
    hide PhdrAt, EhdrAt;
    if n > 0 {
      FileKept(m, fb, size, n - 1, a);
      assert SegmentOk(m, fb, size, PhdrOf(m, fb, n - 1));
    }
  }

  /** The copying loop. */
  method CopyBytes(mem: array<byte>, from: nat, to: nat, size: nat)
    requires from + size <= mem.Length && to + size <= mem.Length
    requires to + size <= from || from + size <= to
    modifies mem
    ensures forall a :: to <= a < to + size ==> mem[a] == old(mem[from + (a - to)])
    ensures forall a :: 0 <= a < mem.Length && !(to <= a < to + size) ==> mem[a] == old(mem[a])
  {
    var src, dest := from, to;
    for j := 0 to size
      invariant src == from + j && dest == to + j
      invariant forall a :: 0 <= a < mem.Length && !(to <= a < dest) ==> mem[a] == old(mem[a])
      invariant forall a :: to <= a < dest ==> mem[a] == old(mem[from + (a - to)])
    {
      mem[dest] := mem[src];
      dest := dest + 1;
      src := src + 1;
    }
  }

  /** The zeroing loop. */
  method ZeroBytes(mem: array<byte>, to: nat, size: nat)
    requires to + size <= mem.Length
    modifies mem
    ensures forall a :: 0 <= a < mem.Length ==> mem[a] == if to <= a < to + size then 0 else old(mem[a])
  {
    var dest := to;
    for j := 0 to size
      invariant dest == to + j
      invariant forall a :: 0 <= a < mem.Length ==> mem[a] == if to <= a < dest then 0 else old(mem[a])
    {
      mem[dest] := 0;
      dest := dest + 1;
    }
  }

  /** One loadable header: p_filesz bytes copied, then zeros up to p_memsz. */
  method LoadSegment(mem: array<byte>, fb: nat, ph: Phdr)
    requires ph.p_type == PT_LOAD && ph.p_filesz <= ph.p_memsz && ph.p_paddr + ph.p_memsz <= mem.Length
    requires fb + ph.p_offset + ph.p_filesz <= mem.Length
    requires ph.p_paddr + ph.p_memsz <= fb + ph.p_offset || fb + ph.p_offset + ph.p_filesz <= ph.p_paddr
    modifies mem
    ensures forall a :: 0 <= a < mem.Length ==>
              mem[a] == if Covers(ph, a) then SegmentByte(old(mem[..]), fb, ph, a) else old(mem[a])
  {
    CopyBytes(mem, fb + ph.p_offset, ph.p_paddr, ph.p_filesz);
    ZeroBytes(mem, ph.p_paddr + ph.p_filesz, ph.p_memsz - ph.p_filesz);
  }

  ghost predicate HasImage(now: seq<byte>, m: seq<byte>, fb: nat, size: nat, n: nat)
    requires FileOk(m, fb, size) && MagicAt(m, fb) && n <= EhdrAt(m, fb).e_phnum
  {
    |now| == |m| && forall a :: 0 <= a < |m| ==> now[a] == ImageByte(m, fb, size, n, a)
  }

  /** The headers read from memory during loading are still those of the file. */
  lemma HeadersKept(now: seq<byte>, m: seq<byte>, fb: nat, size: nat, n: nat)
    requires FileOk(m, fb, size) && MagicAt(m, fb) && n <= EhdrAt(m, fb).e_phnum && HasImage(now, m, fb, size, n)
    ensures now[fb..fb + size] == m[fb..fb + size]
    ensures EhdrAt(now, fb) == EhdrAt(m, fb)
    ensures n < EhdrAt(m, fb).e_phnum ==> PhdrOf(now, fb, n) == PhdrOf(m, fb, n)
  {
    hide PhdrAt, EhdrAt;
    forall a | fb <= a < fb + size ensures now[a] == m[a] {
      FileKept(m, fb, size, n, a);
    }
    SamePart(now, m, fb, EHDR_SIZE);
    SameEhdr(now, m, fb, fb);
    if n < EhdrAt(m, fb).e_phnum {
      var h := fb + EhdrAt(m, fb).e_phoff + PHDR_SIZE * n;
      SamePart(now, m, h, PHDR_SIZE);
      SamePhdr(now, m, h, h);
    }
  }

  lemma SamePart(now: seq<byte>, m: seq<byte>, a: nat, size: nat)
    requires a + size <= |m| == |now| && forall i :: a <= i < a + size ==> now[i] == m[i]
    ensures now[a..a + size] == m[a..a + size]
  {
  }

  lemma ImageStep(now: seq<byte>, next: seq<byte>, m: seq<byte>, fb: nat, size: nat, n: nat)
    requires FileOk(m, fb, size) && MagicAt(m, fb) && n < EhdrAt(m, fb).e_phnum && HasImage(now, m, fb, size, n)
    requires SegmentOk(m, fb, size, PhdrOf(m, fb, n)) && now[fb..fb + size] == m[fb..fb + size]
    requires |next| == |m| && forall a :: 0 <= a < |m| ==>
               next[a] == if Covers(PhdrOf(m, fb, n), a) then SegmentByte(now, fb, PhdrOf(m, fb, n), a) else now[a]
    ensures HasImage(next, m, fb, size, n + 1)
  {
    var ph := PhdrOf(m, fb, n);
    assert ph.p_type == PT_LOAD ==> ph.p_offset + ph.p_filesz <= size && fb + size <= |m|;
    hide PhdrAt, EhdrAt, PhdrOf, FileOk;
    forall a | 0 <= a < |m| && Covers(ph, a) ensures SegmentByte(now, fb, ph, a) == SegmentByte(m, fb, ph, a) {
      if a < ph.p_paddr + ph.p_filesz {
        var k := ph.p_offset + (a - ph.p_paddr);
        assert now[fb..fb + size][k] == m[fb..fb + size][k];
      }
    }
  }

  /** One round of the loop over the program headers, read from the file where it stands in memory. */
  method LoadHeader(mem: array<byte>, fb: nat, i: nat, ghost m: seq<byte>, ghost size: nat)
    requires FileOk(m, fb, size) && MagicAt(m, fb) && i < EhdrAt(m, fb).e_phnum
    requires HasImage(mem[..], m, fb, size, i)
    modifies mem
    ensures HasImage(mem[..], m, fb, size, i + 1)
  {
    hide PhdrAt, EhdrAt, SegmentByte, MagicAt, HasImage, ImageByte;
    HeadersKept(mem[..], m, fb, size, i);
    ghost var now := mem[..];
    ImageSize(now, m, fb, size, i);
    assert SegmentOk(m, fb, size, PhdrOf(m, fb, i));
    hide FileOk;
    var ph := PhdrOf(mem[..], fb, i);
    if ph.p_type == PT_LOAD {
      LoadSegment(mem, fb, ph);
    }
    ImageStep(now, mem[..], m, fb, size, i);
  }

  lemma ImageSize(now: seq<byte>, m: seq<byte>, fb: nat, size: nat, n: nat)
    requires FileOk(m, fb, size) && MagicAt(m, fb) && n <= EhdrAt(m, fb).e_phnum && HasImage(now, m, fb, size, n)
    ensures |now| == |m| && fb + EHDR_SIZE <= |m|
    ensures n < EhdrAt(m, fb).e_phnum ==> fb + EhdrAt(m, fb).e_phoff + PHDR_SIZE * (n + 1) <= |m|
  {
  }

  /** The loop over the program headers. */
  method LoadHeaders(mem: array<byte>, fb: nat, ghost m: seq<byte>, ghost size: nat)
    requires FileOk(m, fb, size) && MagicAt(m, fb) && HasImage(mem[..], m, fb, size, 0)
    requires fb + EHDR_SIZE <= mem.Length && EhdrAt(mem[..], fb) == EhdrAt(m, fb)
    modifies mem
    ensures HasImage(mem[..], m, fb, size, EhdrAt(m, fb).e_phnum)
    ensures EhdrAt(mem[..], fb) == EhdrAt(m, fb)
  {
    ImageSize(mem[..], m, fb, size, 0);
    hide *;
    var i := 0;
    while i < EhdrAt(mem[..], fb).e_phnum
      invariant EhdrAt(mem[..], fb) == EhdrAt(m, fb)
      invariant i <= EhdrAt(m, fb).e_phnum && HasImage(mem[..], m, fb, size, i)
      decreases EhdrAt(m, fb).e_phnum - i
    {
      LoadHeader(mem, fb, i, m, size);
      i := i + 1;
      ImageSize(mem[..], m, fb, size, i);
      HeadersKept(mem[..], m, fb, size, i);
    }
  }

  /** reload_elf_file(mem + fb): a bad magic number returns 0 and changes nothing; otherwise every byte of
      memory is what the image says, and the entry point is returned. */
  method ReloadElfFile(mem: array<byte>, fb: nat, ghost size: nat) returns (entry: nat)
    requires FileOk(mem[..], fb, size)
    modifies mem
    ensures !MagicAt(old(mem[..]), fb) ==> entry == 0 && mem[..] == old(mem[..])
    ensures MagicAt(old(mem[..]), fb) ==>
              && entry == EhdrAt(old(mem[..]), fb).e_entry
              && HasImage(mem[..], old(mem[..]), fb, size, EhdrAt(old(mem[..]), fb).e_phnum)
  {
    hide EhdrAt, PhdrAt;
    ghost var m := mem[..];
    if !MagicAt(mem[..], fb) {
      return 0;
    }
    assert HasImage(mem[..], m, fb, size, 0);
    ImageSize(mem[..], m, fb, size, 0);
    LoadHeaders(mem, fb, m, size);
    entry := EhdrAt(mem[..], fb).e_entry;
  }
}
