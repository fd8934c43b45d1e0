/** load_phdr and load_elf_file of source/kernel/core/task.c: a program's segments are read from a file
    into the pages of a new address space. */
module ProgramLoad {
  import opened Elf
  import opened Paging

  const MEMORY_TASK_BASE: nat := 0x8000_0000

  /** A file as sys_open, sys_read, sys_lseek and sys_close show it. */
  class File {
    const content: seq<byte>
    const present: bool  // sys_open finds it
    const seekable: bool // sys_lseek accepts the descriptor
    var pos: nat
    var opens: nat
    var closes: nat

    constructor (content: seq<byte>, present: bool, seekable: bool)
      ensures this.content == content && this.present == present && this.seekable == seekable
      ensures pos == 0 && opens == 0 && closes == 0
    {
      this.content, this.present, this.seekable := content, present, seekable;
      pos, opens, closes := 0, 0, 0;
    }

    method Open() returns (fd: int)
      modifies this
      ensures fd >= 0 <==> present
      ensures present ==> pos == 0
      ensures opens == old(opens) + (if present then 1 else 0) && closes == old(closes)
    {
      if !present {
        return -1;
      }
      pos, opens, fd := 0, opens + 1, 0;
    }

    method Close()
      modifies this`closes
      ensures closes == old(closes) + 1
    {
      closes := closes + 1;
    }

    method Seek(offset: nat) returns (err: int)
      modifies this`pos
      ensures err < 0 <==> !seekable
      ensures seekable ==> pos == offset
    {
      if !seekable {
        return -1;
      }
      pos, err := offset, 0;
    }

    /** sys_read of n bytes into physical memory at address to, which kernel_memcpy leaves alone if it is null; at
        the end of the file fewer are read. */
    method Read(mem: array<byte>, to: nat, n: nat) returns (cnt: nat)
      requires to + n <= mem.Length && n > 0
      modifies this`pos, mem
      ensures cnt <= n && (cnt == n <==> old(pos) + n <= |content|)
      ensures cnt == n ==> pos == old(pos) + n
      ensures cnt == n ==> forall a :: 0 <= a < mem.Length ==>
                mem[a] == if to != 0 && to <= a < to + n then content[old(pos) + (a - to)] else old(mem[a])
    {
      var start := if pos <= |content| then pos else |content|;
      var len := if start + n <= |content| then n else |content| - start;
      if to != 0 {
        CopyIn(mem, to, content[start..start + len]);
      }
      pos, cnt := pos + len, len;
    }

    /** sys_read of n bytes into a variable of the kernel's. */
    method ReadVar(n: nat) returns (cnt: nat, bytes: seq<byte>)
      requires n > 0
      modifies this`pos
      ensures cnt <= n && (cnt == n <==> old(pos) + n <= |content|)
      ensures cnt == n ==> bytes == content[old(pos)..old(pos) + n]
    {
      var start := if pos <= |content| then pos else |content|;
      cnt := if start + n <= |content| then n else |content| - start;
      bytes := content[start..start + cnt];
      pos := pos + cnt;
    }
  }

  /** The frames in `free` exist, once each, and nobody uses them. */
  ghost predicate Unused(free: seq<nat>, table: PageTable, size: nat) {
    && (forall i, j :: 0 <= i < j < |free| ==> free[i] != free[j])
    && (forall i :: 0 <= i < |free| ==> 0 < free[i] && (free[i] + 1) * PAGE <= size)
    && (forall i, p :: 0 <= i < |free| && p in table.pages ==> free[i] != table.pages[p])
    && (forall i, d :: 0 <= i < |free| && d in table.tables ==> free[i] != table.tables[d])
  }

  lemma TableEntered(table: PageTable, frame: nat, free: seq<nat>, size: nat, d: nat)
    requires Fits(table, size) && free != [] && Unused([frame] + free, table, size) && d !in table.tables
    ensures var t := table.(tables := table.tables[d := free[0]]); Fits(t, size) && Unused([frame] + free[1..], t, size)
  {
    var all, rest, f := [frame] + free, [frame] + free[1..], free[0];
    assert all[1] == f;
    TableFits(table, f, size, d, all);
    forall i | 0 <= i < |rest| ensures rest[i] != f && rest[i] in all {
      assert rest[i] == all[if i == 0 then 0 else i + 1];
    }
    forall i, j | 0 <= i < j < |rest| ensures rest[i] != rest[j] {
      assert rest[i] == all[if i == 0 then 0 else i + 1] && rest[j] == all[j + 1];
    }
    hide Fits;
  }

  lemma TableFits(table: PageTable, f: nat, size: nat, d: nat, all: seq<nat>)
    requires Fits(table, size) && Unused(all, table, size) && f in all && d !in table.tables
    ensures Fits(table.(tables := table.tables[d := f]), size)
  {
  }

  lemma PageEntered(table: PageTable, frame: nat, free: seq<nat>, size: nat, page: nat)
    requires Fits(table, size) && Unused([frame] + free, table, size)
    requires page !in table.pages && DirOf(page) in table.tables
    ensures var t := table.(pages := table.pages[page := frame]); Fits(t, size) && Unused(free, t, size)
  {
    var all := [frame] + free;
    assert all[0] == frame && forall i :: 0 <= i < |free| ==> free[i] == all[i + 1];
  }

  lemma UnusedTail(free: seq<nat>, table: PageTable, size: nat)
    requires Unused(free, table, size) && free != []
    ensures Unused(free[1..], table, size) && [free[0]] + free[1..] == free
  {
  }

  /** The free frames come lowest first, and whatever the address space uses was taken before them. */
  ghost predicate Ascending(free: seq<nat>, table: PageTable) {
    && (forall i, j :: 0 <= i < j < |free| ==> free[i] < free[j])
    && (forall i, p :: 0 <= i < |free| && p in table.pages ==> table.pages[p] < free[i])
    && (forall i, d :: 0 <= i < |free| && d in table.tables ==> table.tables[d] < free[i])
  }

  /** The directory entries of the pages from `first` up to page q. */
  ghost function DirsUpTo(first: nat, q: nat): set<nat> { if q < first then {} else DirSet(first, q - first) }

  /** Each of the i pages from `first` on has a higher frame than the pages before it. */
  ghost predicate PagesRise(was: PageTable, table: PageTable, first: nat, i: nat) {
    forall p: nat, q: nat :: p in table.pages && q in table.pages && first <= q < first + i ==>
      (p in was.pages || first <= p < q) ==> table.pages[p] < table.pages[q]
  }

  /** And than the page tables before it. */
  ghost predicate TablesBelow(was: PageTable, table: PageTable, first: nat, i: nat) {
    forall q: nat, d: nat :: q in table.pages && d in table.tables && first <= q < first + i ==>
      d in was.tables.Keys + DirsUpTo(first, q) ==> table.tables[d] < table.pages[q]
  }

  lemma {:induction false} DirSetGrows(first: nat, i: nat, count: nat)
    requires i <= count
    ensures DirSet(first, i) <= DirSet(first, count)
    decreases count - i
  {
    if i < count {
      DirSetGrows(first, i + 1, count);
    }
  }

  /** The table and the frames MapPage leaves. */
  ghost predicate Entered(table: PageTable, free: seq<nat>, table': PageTable, free': seq<nat>, page: nat) {
    var k := FramesForPage(table.tables.Keys, page);
    && k <= |free| && free' == free[k..]
    && table'.pages == table.pages[page := free[0]]
    && table'.tables == (if DirOf(page) in table.tables then table.tables else table.tables[DirOf(page) := free[1]])
  }

  lemma EnteredAscending(table: PageTable, free: seq<nat>, table': PageTable, free': seq<nat>, page: nat)
    requires Ascending(free, table) && Entered(table, free, table', free', page)
    ensures Ascending(free', table')
  {
    var k := FramesForPage(table.tables.Keys, page);
    assert forall i :: 0 <= i < |free'| ==> free'[i] == free[i + k];
  }

  lemma EnteredRises(was: PageTable, table: PageTable, free: seq<nat>, table': PageTable, free': seq<nat>,
                     first: nat, i: nat)
    requires PagesRise(was, table, first, i) && Ascending(free, table) && Entered(table, free, table', free', first + i)
    requires first + i !in table.pages && first + i !in was.pages
    ensures PagesRise(was, table', first, i + 1)
  {
    hide DirOf;
  }

  lemma EnteredAbove(was: PageTable, table: PageTable, free: seq<nat>, table': PageTable, free': seq<nat>,
                     first: nat, i: nat)
    requires TablesBelow(was, table, first, i) && Ascending(free, table)
    requires Entered(table, free, table', free', first + i) && first + i !in table.pages
    requires table.tables.Keys == was.tables.Keys + DirSet(first, i)
    ensures TablesBelow(was, table', first, i + 1)
  {
    hide DirOf, DirSet;
    forall q: nat, d: nat | q in table'.pages && d in table'.tables && first <= q < first + i + 1 &&
                            d in was.tables.Keys + DirsUpTo(first, q)
      ensures table'.tables[d] < table'.pages[q]
    {
      DirSetGrows(first, q - first, i);
      assert d in table.tables;
    }
  }

  /** An address space under construction, and the frames still free. */
  class AddressSpace {
    var table: PageTable
    var free: seq<nat>

    ghost predicate Valid(size: nat)
      reads this
    {
      Fits(table, size) && Unused(free, table, size)
    }

    constructor (free: seq<nat>, size: nat)
      requires PAGE <= size
      requires forall i, j :: 0 <= i < j < |free| ==> free[i] != free[j]
      requires forall i :: 0 <= i < |free| ==> 0 < free[i] && (free[i] + 1) * PAGE <= size
      ensures Valid(size) && table == PageTable(map[], map[]) && this.free == free
    {
      table, this.free := PageTable(map[], map[]), free;
    }

    /** One more page: a frame for it, and one for its page table if the directory has none there yet. */
    method MapPage(page: nat, ghost size: nat) returns (err: int)
      requires Valid(size) && page !in table.pages
      modifies this
      ensures Valid(size) && (err == 0 || err == -1)
      ensures err == 0 <==> FramesForPage(old(table).tables.Keys, page) <= |old(free)|
      ensures err == 0 ==> Entered(old(table), old(free), table, free, page)
      ensures err != 0 ==> table == old(table)
    {
      hide Fits, Unused, DirOf;
      if free == [] {
        return -1;
      }
      UnusedTail(free, table, size);
      var frame := free[0];
      free := free[1..];
      if DirOf(page) !in table.tables {
        if free == [] {
          return -1;
        }
        TableEntered(table, frame, free, size, DirOf(page));
        table := table.(tables := table.tables[DirOf(page) := free[0]]);
        free := free[1..];
      }
      PageEntered(table, frame, free, size, page);
      table := table.(pages := table.pages[page := frame]);
      return 0;
    }

    /** memory_alloc_for_page_dir: a frame for every page of the range, none of which has one yet, and a frame
        for every page table that is missing. */
    method Alloc(v: nat, bytes: nat, ghost size: nat) returns (err: int)
      requires Valid(size) && v % PAGE == 0 && bytes + PAGE <= UINT32
      requires forall p :: v / PAGE <= p < v / PAGE + Pages(bytes) ==> p !in table.pages
      modifies this
      ensures Valid(size) && Extends(old(table), table)
      ensures err == 0 || err == -1
      ensures err == 0 <==> FramesFor(old(table).tables.Keys, v / PAGE, Pages(bytes)) <= |old(free)|
      ensures err == 0 ==> Taken(old(table), old(free), table, free, v / PAGE, Pages(bytes))
    {
      err := AllocPages(v / PAGE, Pages(bytes), size);
    }

    /** The loop over the pages of the range. */
    method AllocPages(first: nat, count: nat, ghost size: nat) returns (err: int)
      requires Valid(size) && forall p :: first <= p < first + count ==> p !in table.pages
      modifies this
      ensures Valid(size) && Extends(old(table), table)
      ensures err == 0 || err == -1
      ensures err == 0 <==> FramesFor(old(table).tables.Keys, first, count) <= |old(free)|
      ensures err == 0 ==> Taken(old(table), old(free), table, free, first, count)
    {
      hide *;
      ghost var was, frames := table, free;
      NothingTaken(was, frames, first);
      for i := 0 to count
        invariant Valid(size) && Taken(was, frames, table, free, first, i)
      {
        TakenMeans(was, frames, table, free, first, i);
        var err' := AllocRound(first, i, was, frames, size);
        if err' < 0 {
          FramesForGrows(was.tables.Keys, first, i + 1, count);
          return -1;
        }
      }
      TakenMeans(was, frames, table, free, first, count);
      return 0;
    }

    /** A round of that loop. */
    method AllocRound(first: nat, i: nat, ghost was: PageTable, ghost frames: seq<nat>, ghost size: nat)
      returns (err: int)
      requires Valid(size) && Taken(was, frames, table, free, first, i) && first + i !in was.pages
      modifies this
      ensures Valid(size) && (err == 0 || err == -1)
      ensures err == 0 <==> FramesFor(was.tables.Keys, first, i + 1) <= |frames|
      ensures err == 0 ==> Taken(was, frames, table, free, first, i + 1)
      ensures err != 0 ==> table == old(table)
    {
      hide Valid, DirSet, PageSet, FramesFor, Ascending, PagesRise, TablesBelow;
      FramesForNext(was.tables.Keys, first, i);
      ghost var table0, free0 := table, free;
      err := MapPage(first + i, size);
      if err == 0 && Ascending(frames, was) {
        EnteredAscending(table0, free0, table, free, first + i);
        EnteredRises(was, table0, free0, table, free, first, i);
        EnteredAbove(was, table0, free0, table, free, first, i);
      }
    }
  }

  /** The first i pages from `first` on are entered, with frames from the front of `frames`. */
  ghost predicate Taken(was: PageTable, frames: seq<nat>, table: PageTable, free: seq<nat>, first: nat, i: nat) {
    && Extends(was, table)
    && table.pages.Keys == was.pages.Keys + PageSet(first, i)
    && table.tables.Keys == was.tables.Keys + DirSet(first, i)
    && FramesFor(was.tables.Keys, first, i) <= |frames| && free == frames[FramesFor(was.tables.Keys, first, i)..]
    && (forall p :: p in table.pages && p !in was.pages ==> table.pages[p] in frames)
    && (forall d :: d in table.tables && d !in was.tables ==> table.tables[d] in frames)
    && (Ascending(frames, was) ==>
          Ascending(free, table) && PagesRise(was, table, first, i) && TablesBelow(was, table, first, i))
  }

  lemma NothingTaken(table: PageTable, free: seq<nat>, first: nat)
    ensures Taken(table, free, table, free, first, 0)
  {
    NoFrames(table.tables.Keys, first);
  }

  lemma TakenMeans(was: PageTable, frames: seq<nat>, table: PageTable, free: seq<nat>, first: nat, i: nat)
    requires Taken(was, frames, table, free, first, i)
    ensures Extends(was, table) && FramesFor(was.tables.Keys, first, i) <= |frames|
  {
  }

  /** Every page and every page table stays where it is. */
  ghost predicate Extends(table: PageTable, table': PageTable) {
    && (forall p :: p in table.pages ==> p in table'.pages && table'.pages[p] == table.pages[p])
    && (forall d :: d in table.tables ==> d in table'.tables && table'.tables[d] == table.tables[d])
  }

  /** The pages that hold a number of bytes: up2(bytes) / MEM_PAGE_SIZE. */
  function Pages(bytes: nat): nat {
    (bytes + PAGE - 1) / PAGE
  }

  ghost function PageSet(first: nat, count: nat): (r: set<nat>)
    ensures forall p :: p in r <==> first <= p < first + count
  {
    if count == 0 then {} else PageSet(first, count - 1) + {first + count - 1}
  }

  /** The directory entries of a range of pages. */
  ghost function DirSet(first: nat, count: nat): set<nat> {
    if count == 0 then {} else DirSet(first, count - 1) + {DirOf(first + count - 1)}
  }

  function FramesForPage(dirs: set<nat>, page: nat): nat { if DirOf(page) in dirs then 1 else 2 }

  /** One frame for each page, and one for each page table not among `dirs`. */
  ghost function FramesFor(dirs: set<nat>, first: nat, count: nat): nat {
    count + |DirSet(first, count) - dirs|
  }

  lemma NoFrames(dirs: set<nat>, first: nat)
    ensures FramesFor(dirs, first, 0) == 0 && DirSet(first, 0) == {} && PageSet(first, 0) == {}
  {
    assert DirSet(first, 0) - dirs == {};
  }

  /** Page after page, a page table is needed where neither `dirs` nor an earlier page brought it. */
  lemma FramesForNext(dirs: set<nat>, first: nat, count: nat)
    ensures DirSet(first, count + 1) == DirSet(first, count) + {DirOf(first + count)}
    ensures FramesFor(dirs, first, count + 1) ==
            FramesFor(dirs, first, count) + FramesForPage(dirs + DirSet(first, count), first + count)
  {
    var s, d := DirSet(first, count), DirOf(first + count);
    if d in dirs + s {
      assert (s + {d}) - dirs == s - dirs;
    } else {
      assert (s + {d}) - dirs == (s - dirs) + {d};
    }
  }

  lemma {:induction false} FramesForGrows(dirs: set<nat>, first: nat, i: nat, count: nat)
    requires i <= count
    ensures FramesFor(dirs, first, i) <= FramesFor(dirs, first, count)
    decreases count - i
  {
    if i < count {
      FramesForNext(dirs, first, i);
      FramesForGrows(dirs, first, i + 1, count);
    }
  }

  /** The bytes a file must have for the segment to be read, if it needs any. */
  predicate SegmentReadable(content: seq<byte>, ph: Phdr) {
    ph.p_filesz == 0 || ph.p_offset + ph.p_filesz <= |content|
  }

  /** Neither the segment's ends nor its size rounded up to pages wrap around in 32 bits. */
  predicate BelowTop(ph: Phdr) {
    && ph.p_vaddr + Pages(ph.p_memsz) * PAGE <= UINT32 && ph.p_memsz + PAGE <= UINT32
    && ph.p_vaddr + ph.p_filesz <= UINT32
  }

  /** What load_phdr asserts or takes for granted of a header. */
  ghost predicate LoadableInto(table: PageTable, ph: Phdr) {
    && ph.p_vaddr % PAGE == 0 && BelowTop(ph)
    && forall p :: p in PageSet(ph.p_vaddr / PAGE, Pages(ph.p_memsz)) ==> p !in table.pages
  }

  /** n bytes of the file from position `from` on, if it has them. */
  function Part(content: seq<byte>, from: nat, n: nat): seq<byte> {
    if n > 0 && from + n <= |content| then content[from..from + n] else []
  }

  lemma PartsJoin(content: seq<byte>, from: nat, a: nat, b: nat)
    requires b > 0 && from + a + b <= |content|
    ensures Part(content, from, a) + Part(content, from + a, b) == Part(content, from, a + b)
    ensures |Part(content, from, a)| == a
  {
  }

  lemma PutParts(was: seq<byte>, mid: seq<byte>, now: seq<byte>, table: PageTable, v: nat,
                 content: seq<byte>, from: nat, a: nat, b: nat)
    requires b > 0 && from + a + b <= |content|
    requires Put(was, mid, table, v, Part(content, from, a))
    requires Put(mid, now, table, v + a, Part(content, from + a, b))
    ensures Put(was, now, table, v, Part(content, from, a + b))
  {
    hide Put;
    PartsJoin(content, from, a, b);
    PutTwice(was, mid, now, table, v, Part(content, from, a), Part(content, from + a, b));
  }

  lemma AlignedNext(v: nat)
    requires PageAligned(v)
    ensures PageAligned(v + PAGE)
  {
  }

  /** The reading loop of load_phdr: one read for each page, since the pages' frames need not be neighbours.  What
      belongs to a page that is not there is read over. */
  method ReadPages(file: File, mem: array<byte>, table: PageTable, v: nat, bytes: nat) returns (err: int)
    requires Fits(table, mem.Length) && PageAligned(v)
    modifies file`pos, mem
    ensures err == 0 || err == -1
    ensures err == 0 <==> bytes == 0 || old(file.pos) + bytes <= |file.content|
    ensures err == 0 ==> Put(old(mem[..]), mem[..], table, v, Part(file.content, old(file.pos), bytes))
  {
    hide *;
    ghost var was, start := mem[..], file.pos;
    NothingRead(was, table, v, file.content, start);
    var done: nat := 0;
    while done < bytes
      invariant done <= bytes && (done < bytes ==> PageAligned(done) && PageAligned(v + done))
      invariant file.pos == start + done && (done > 0 ==> start + done <= |file.content|)
      invariant Put(was, mem[..], table, v, Part(file.content, start, done))
    {
      var currSize: nat := if bytes - done > PAGE then PAGE else bytes - done;
      var err' := ReadRound(file, mem, table, v, done, currSize, was);
      if err' < 0 {
        return -1;
      }
      done := done + currSize;
    }
    return 0;
  }

  lemma NothingRead(was: seq<byte>, table: PageTable, v: nat, content: seq<byte>, from: nat)
    ensures Put(was, was, table, v, Part(content, from, 0)) && PageAligned(0) && 0 < PAGE
  {
    PutNothing(was, table, v);
    assert Part(content, from, 0) == [];
  }

  /** A round of that loop, `done` bytes being in place already. */
  method ReadRound(file: File, mem: array<byte>, table: PageTable, v: nat, done: nat, n: nat, ghost was: seq<byte>)
    returns (err: int)
    requires Fits(table, mem.Length) && PageAligned(done) && PageAligned(v + done)
    requires 0 < n <= PAGE && done <= file.pos
    requires Put(was, mem[..], table, v, Part(file.content, file.pos - done, done))
    modifies file`pos, mem
    ensures err == 0 || err == -1
    ensures err == 0 <==> old(file.pos) + n <= |file.content|
    ensures err == 0 ==> file.pos == old(file.pos) + n
    ensures err == 0 ==> Put(was, mem[..], table, v, Part(file.content, old(file.pos) - done, done + n))
    ensures n == PAGE ==> PageAligned(done + n) && PageAligned(v + (done + n))
  {
    hide *;
    ghost var mid, at, start := mem[..], file.pos, file.pos - done;
    AlignedNext(done);
    AlignedNext(v + done);
    var cnt := ReadPage(file, mem, table, v + done, n);
    if cnt < n {
      return -1;
    }
    assert Put(mid, mem[..], table, v + done, Part(file.content, at, n));
    PutParts(was, mid, mem[..], table, v, file.content, start, done, n);
    return 0;
  }

  /** One sys_read, which stays inside one page. */
  method ReadPage(file: File, mem: array<byte>, table: PageTable, v: nat, n: nat) returns (cnt: int)
    requires Fits(table, mem.Length) && PageAligned(v) && 0 < n <= PAGE
    modifies file`pos, mem
    ensures cnt <= n
    ensures cnt == n <==> old(file.pos) + n <= |file.content|
    ensures cnt == n ==> file.pos == old(file.pos) + n
    ensures cnt == n ==> Put(old(mem[..]), mem[..], table, v, Part(file.content, old(file.pos), n))
  {
    ghost var was, start := mem[..], file.pos;
    if Mapped(table, v) {
      PaddrFits(table, mem.Length, v);
    }
    cnt := file.Read(mem, Paddr(table, v), n);
    if cnt == n {
      if Mapped(table, v) {
        PutPiece(was, mem[..], table, v, Part(file.content, start, n));
      } else {
        assert mem[..] == was;
        PutNowhere(was, table, v, Part(file.content, start, n));
      }
    }
  }

  /** Putting data into a page that is not there changes nothing. */
  lemma PutNowhere(m: seq<byte>, table: PageTable, v: nat, data: seq<byte>)
    requires !Mapped(table, v) && PageAligned(v) && |data| <= PAGE
    ensures Put(m, m, table, v, data)
  {
    forall w: nat | v <= w < v + |data| ensures !Mapped(table, w) {
      assert w / PAGE == v / PAGE;
    }
  }

  ghost function FramesForSegment(dirs: set<nat>, ph: Phdr): nat {
    FramesFor(dirs, ph.p_vaddr / PAGE, Pages(ph.p_memsz))
  }

  /** load_phdr: every byte of the segment's file part is at its virtual address; no other mapped address
      and no frame outside the segment is touched.  It fails exactly when frames or file bytes are missing. */
  method LoadPhdr(file: File, ph: Phdr, space: AddressSpace, mem: array<byte>) returns (err: int)
    requires space.Valid(mem.Length) && LoadableInto(space.table, ph)
    modifies file`pos, space, mem
    ensures space.Valid(mem.Length)
    ensures Extends(old(space.table), space.table)
    ensures err == 0 || err == -1
    ensures err == 0 <==> && FramesForSegment(old(space.table).tables.Keys, ph) <= |old(space.free)|
                          && file.seekable && SegmentReadable(file.content, ph)
    ensures err == 0 ==>
              && |space.free| == |old(space.free)| - FramesForSegment(old(space.table).tables.Keys, ph)
              && space.table.pages.Keys == old(space.table).pages.Keys + PageSet(ph.p_vaddr / PAGE, Pages(ph.p_memsz))
              && space.table.tables.Keys == old(space.table).tables.Keys + DirSet(ph.p_vaddr / PAGE, Pages(ph.p_memsz))
              && Put(old(mem[..]), mem[..], space.table, ph.p_vaddr, Part(file.content, ph.p_offset, ph.p_filesz))
    ensures err == 0 && Ascending(old(space.free), old(space.table)) ==> Ascending(space.free, space.table)
  {
    hide Put, Part, PageSet, DirSet, FramesFor, Extends, Ascending, PagesRise, TablesBelow;
    err := space.Alloc(ph.p_vaddr, ph.p_memsz, mem.Length);
    if err < 0 {
      return -1;
    }
    err := file.Seek(ph.p_offset);
    if err < 0 {
      return -1;
    }
    err := ReadPages(file, mem, space.table, ph.p_vaddr, ph.p_filesz);
  }

  // ---------- the whole file ----------

  /** The fields of a task_t that load_elf_file sets. */
  class TaskHeap {
    var heapStart: nat
    var heapEnd: nat

    constructor (start: nat, end: nat)
      ensures heapStart == start && heapEnd == end
    {
      heapStart, heapEnd := start, end;
    }
  }

  /** The checks of the ELF header. */
  predicate HeaderOk(content: seq<byte>) {
    && |content| >= EHDR_SIZE
    && MagicAt(content, 0)
    && var h := EhdrAt(content, 0);
       h.e_type == ET_EXEC && h.e_machine == ET_386 && h.e_entry != 0 && h.e_phentsize != 0 && h.e_phoff != 0
  }

  function Wrapped(x: nat): nat { x % UINT32 }

  function Times(n: nat, size: nat): nat { n * size }

  /** The position of program header i, in the source's 32-bit arithmetic. */
  function PhdrPos(content: seq<byte>, i: nat): nat
    requires |content| >= EHDR_SIZE
  {
    Wrapped(EhdrAt(content, 0).e_phoff + Times(i, EhdrAt(content, 0).e_phentsize))
  }

  predicate PhdrReadable(content: seq<byte>, i: nat) {
    |content| >= EHDR_SIZE && PhdrPos(content, i) + PHDR_SIZE <= |content|
  }

  function FilePhdr(content: seq<byte>, i: nat): Phdr
    requires PhdrReadable(content, i)
  {
    PhdrAt(content, PhdrPos(content, i))
  }

  /** Program header i is readable, loadable and in user space. */
  predicate Accepted(content: seq<byte>, i: nat) {
    PhdrReadable(content, i) &&
    FilePhdr(content, i).p_type == PT_LOAD && FilePhdr(content, i).p_vaddr >= MEMORY_TASK_BASE
  }

  ghost function SegmentPages(content: seq<byte>, i: nat): set<nat> {
    if Accepted(content, i) then PageSet(FilePhdr(content, i).p_vaddr / PAGE, Pages(FilePhdr(content, i).p_memsz))
    else {}
  }

  ghost function PagesBefore(content: seq<byte>, n: nat): set<nat> {
    if n == 0 then {} else PagesBefore(content, n - 1) + SegmentPages(content, n - 1)
  }

  /** What loading starts from. */
  datatype Setting = Setting(table: PageTable, frames: nat, seekable: bool)

  /** How many program headers the file says it has. */
  function PhdrCount(content: seq<byte>): nat {
    if |content| >= EHDR_SIZE then EhdrAt(content, 0).e_phnum else 0
  }

  ghost function SegmentDirs(content: seq<byte>, i: nat): set<nat> {
    if Accepted(content, i) then DirSet(FilePhdr(content, i).p_vaddr / PAGE, Pages(FilePhdr(content, i).p_memsz))
    else {}
  }

  ghost function SegmentFrames(content: seq<byte>, dirs: set<nat>, i: nat): nat {
    if Accepted(content, i) then FramesForSegment(dirs, FilePhdr(content, i)) else 0
  }

  /** The page tables there are when the first n headers are loaded. */
  ghost function DirsBefore(content: seq<byte>, n: nat, dirs: set<nat>): set<nat> {
    if n == 0 then dirs else DirsBefore(content, n - 1, dirs) + SegmentDirs(content, n - 1)
  }

  /** The frames the first n headers take. */
  ghost function FramesBefore(content: seq<byte>, n: nat, dirs: set<nat>): nat {
    if n == 0 then 0
    else FramesBefore(content, n - 1, dirs) + SegmentFrames(content, DirsBefore(content, n - 1, dirs), n - 1)
  }

  /** The first n program headers can be loaded. */
  ghost predicate Loads(content: seq<byte>, n: nat, b: Setting) {
    n == 0 ||
    (&& Loads(content, n - 1, b)
     && b.seekable && PhdrReadable(content, n - 1)
     && FramesBefore(content, n, b.table.tables.Keys) <= b.frames
     && (Accepted(content, n - 1) ==> SegmentReadable(content, FilePhdr(content, n - 1))))
  }

  lemma {:induction false} LoadsPrefix(content: seq<byte>, i: nat, n: nat, b: Setting)
    requires i <= n && Loads(content, n, b)
    ensures Loads(content, i, b)
  {
    if i < n {
      LoadsPrefix(content, i, n - 1, b);
    }
  }

  /** What load_phdr asserts or takes for granted of each accepted header it is called for: page-aligned, below
      2^32, no page twice. */
  ghost predicate SegmentsOk(content: seq<byte>, n: nat, b: Setting) {
    forall i: nat {:trigger Accepted(content, i)} :: i < n && Accepted(content, i) && Loads(content, i, b) ==>
      var ph := FilePhdr(content, i);
      && ph.p_vaddr % PAGE == 0 && BelowTop(ph)
      && SegmentPages(content, i) !! b.table.pages.Keys
      && SegmentPages(content, i) !! PagesBefore(content, i)
  }

  /** The accepted headers among the first n ask for memory for all their bytes, as they should. */
  ghost predicate Fitting(content: seq<byte>, n: nat) {
    forall i: nat {:trigger Accepted(content, i)} :: i < n && Accepted(content, i) ==>
      FilePhdr(content, i).p_filesz <= FilePhdr(content, i).p_memsz
  }

  /** The end of the last accepted segment among the first n, in 32 bits; `none` if there is none. */
  function HeapAfter(content: seq<byte>, n: nat, none: nat): nat {
    if n == 0 then none
    else if Accepted(content, n - 1)
    then (FilePhdr(content, n - 1).p_vaddr + FilePhdr(content, n - 1).p_memsz) % UINT32
    else HeapAfter(content, n - 1, none)
  }

  /** Segment i is in memory: each byte of its file part at its virtual address. */
  ghost predicate SegmentIn(content: seq<byte>, i: nat, mem: seq<byte>, table: PageTable) {
    Accepted(content, i) ==>
      var ph := FilePhdr(content, i);
      && SegmentPages(content, i) <= table.pages.Keys
      && SegmentReadable(content, ph)
      && forall v :: ph.p_vaddr <= v < ph.p_vaddr + ph.p_filesz ==>
           Byte(mem, table, v) == content[ph.p_offset + (v - ph.p_vaddr)]
  }

  ghost predicate SegmentsIn(content: seq<byte>, n: nat, mem: seq<byte>, table: PageTable) {
    forall i: nat {:trigger Accepted(content, i)} :: i < n ==> SegmentIn(content, i, mem, table)
  }

  lemma PagesBeforeHas(content: seq<byte>, i: nat, n: nat)
    requires i < n
    ensures SegmentPages(content, i) <= PagesBefore(content, n)
  {
  }

  lemma AddressInPages(ph: Phdr, v: nat)
    requires ph.p_vaddr % PAGE == 0 && ph.p_filesz <= ph.p_memsz && ph.p_vaddr <= v < ph.p_vaddr + ph.p_filesz
    ensures v / PAGE in PageSet(ph.p_vaddr / PAGE, Pages(ph.p_memsz))
  {
    assert ph.p_vaddr / PAGE <= v / PAGE < ph.p_vaddr / PAGE + Pages(ph.p_memsz);
  }

  /** A later segment's bytes go elsewhere. */
  lemma SegmentStays(content: seq<byte>, i: nat, was: seq<byte>, now: seq<byte>, table: PageTable, table': PageTable,
                     ph: Phdr, data: seq<byte>)
    requires SegmentIn(content, i, was, table) && Extends(table, table')
    requires Accepted(content, i) ==> FilePhdr(content, i).p_vaddr % PAGE == 0 &&
                                      FilePhdr(content, i).p_filesz <= FilePhdr(content, i).p_memsz
    requires ph.p_vaddr % PAGE == 0 && |data| <= ph.p_filesz <= ph.p_memsz
    requires Put(was, now, table', ph.p_vaddr, data)
    requires SegmentPages(content, i) !! PageSet(ph.p_vaddr / PAGE, Pages(ph.p_memsz))
    ensures SegmentIn(content, i, now, table')
  {
    hide PageSet, FilePhdr, Pages;
    if Accepted(content, i) {
      var own := FilePhdr(content, i);
      forall v | own.p_vaddr <= v < own.p_vaddr + own.p_filesz
        ensures Byte(now, table', v) == content[own.p_offset + (v - own.p_vaddr)]
      {
        AddressInPages(own, v);
        assert Byte(was, table', v) == Byte(was, table, v);
        if ph.p_vaddr <= v < ph.p_vaddr + |data| {
          AddressInPages(ph, v);
        }
      }
    }
  }

  /** After the first n headers: only their pages, page tables and frames are taken, and their segments are in
      memory. */
  ghost predicate LoadedUpTo(content: seq<byte>, b: Setting, n: nat, mem: seq<byte>, table: PageTable, free: seq<nat>) {
    && Extends(b.table, table)
    && table.pages.Keys == b.table.pages.Keys + PagesBefore(content, n)
    && table.tables.Keys == DirsBefore(content, n, b.table.tables.Keys)
    && |free| == b.frames - FramesBefore(content, n, b.table.tables.Keys)
    && (Fitting(content, n) ==> SegmentsIn(content, n, mem, table))
  }

  lemma SegmentOkAt(content: seq<byte>, b: Setting, n: nat, i: nat, table: PageTable)
    requires i < n && SegmentsOk(content, n, b) && Accepted(content, i) && Loads(content, i, b)
    requires table.pages.Keys == b.table.pages.Keys + PagesBefore(content, i)
    ensures LoadableInto(table, FilePhdr(content, i))
    ensures SegmentPages(content, i) !! PagesBefore(content, i)
  {
  }

  lemma OtherHeader(content: seq<byte>, b: Setting, n: nat, mem: seq<byte>, table: PageTable, free: seq<nat>)
    requires LoadedUpTo(content, b, n, mem, table, free) && !Accepted(content, n)
    ensures LoadedUpTo(content, b, n + 1, mem, table, free)
  {
    NothingNew(content, n, b.table.tables.Keys);
    hide PagesBefore, DirsBefore, FramesBefore, Accepted, SegmentsIn, Fitting, Extends;
    if Fitting(content, n + 1) {
      FittingPrefix(content, n);
      OtherSegments(content, n, mem, table);
    }
  }

  lemma NothingNew(content: seq<byte>, n: nat, dirs: set<nat>)
    requires !Accepted(content, n)
    ensures PagesBefore(content, n + 1) == PagesBefore(content, n)
    ensures DirsBefore(content, n + 1, dirs) == DirsBefore(content, n, dirs)
    ensures FramesBefore(content, n + 1, dirs) == FramesBefore(content, n, dirs)
  {
  }

  lemma FittingPrefix(content: seq<byte>, n: nat)
    requires Fitting(content, n + 1)
    ensures Fitting(content, n)
  {
  }

  lemma OtherSegments(content: seq<byte>, n: nat, mem: seq<byte>, table: PageTable)
    requires SegmentsIn(content, n, mem, table) && !Accepted(content, n)
    ensures SegmentsIn(content, n + 1, mem, table)
  {
    hide Accepted, FilePhdr;
    forall i: nat | i < n + 1 ensures SegmentIn(content, i, mem, table) {
      assert Accepted(content, i) || !Accepted(content, i);
    }
  }

  lemma NewSegment(content: seq<byte>, n: nat, was: seq<byte>, now: seq<byte>, table: PageTable)
    requires Accepted(content, n) && SegmentReadable(content, FilePhdr(content, n))
    requires var ph := FilePhdr(content, n);
             && ph.p_vaddr % PAGE == 0 && ph.p_filesz <= ph.p_memsz
             && Put(was, now, table, ph.p_vaddr, Part(content, ph.p_offset, ph.p_filesz))
    requires SegmentPages(content, n) <= table.pages.Keys
    ensures SegmentIn(content, n, now, table)
  {
    hide PageSet, FilePhdr, Pages;
    var ph := FilePhdr(content, n);
    forall v | ph.p_vaddr <= v < ph.p_vaddr + ph.p_filesz
      ensures Byte(now, table, v) == content[ph.p_offset + (v - ph.p_vaddr)]
    {
      AddressInPages(ph, v);
    }
  }

  lemma OneMoreSegment(content: seq<byte>, b: Setting, all: nat, n: nat, was: seq<byte>, now: seq<byte>,
                       mid: PageTable, table: PageTable)
    requires n < all && SegmentsOk(content, all, b) && Loads(content, n, b) && Fitting(content, n + 1)
    requires Accepted(content, n) && SegmentReadable(content, FilePhdr(content, n))
    requires SegmentsIn(content, n, was, mid) && Extends(mid, table)
    requires mid.pages.Keys == b.table.pages.Keys + PagesBefore(content, n)
    requires table.pages.Keys == mid.pages.Keys + SegmentPages(content, n)
    requires Put(was, now, table, FilePhdr(content, n).p_vaddr,
                 Part(content, FilePhdr(content, n).p_offset, FilePhdr(content, n).p_filesz))
    ensures SegmentsIn(content, n + 1, now, table)
  {
    hide *;
    SegmentOkAt(content, b, all, n, mid);
    LastFits(content, b, all, n);
    NewSegment(content, n, was, now, table);
    forall i: nat | i < n ensures SegmentIn(content, i, now, table) {
      EarlierSegment(content, b, all, n, i, was, now, mid, table);
    }
    SegmentsTogether(content, n, now, table);
  }

  lemma LastFits(content: seq<byte>, b: Setting, all: nat, n: nat)
    requires n < all && SegmentsOk(content, all, b) && Loads(content, n, b) && Fitting(content, n + 1)
    requires Accepted(content, n)
    ensures FilePhdr(content, n).p_vaddr % PAGE == 0 && FilePhdr(content, n).p_filesz <= FilePhdr(content, n).p_memsz
  {
  }

  lemma SegmentsTogether(content: seq<byte>, n: nat, mem: seq<byte>, table: PageTable)
    requires SegmentIn(content, n, mem, table) && forall i: nat :: i < n ==> SegmentIn(content, i, mem, table)
    ensures SegmentsIn(content, n + 1, mem, table)
  {
    hide SegmentIn;
  }

  lemma EarlierSegment(content: seq<byte>, b: Setting, all: nat, n: nat, i: nat, was: seq<byte>, now: seq<byte>,
                       mid: PageTable, table: PageTable)
    requires i < n < all && SegmentsOk(content, all, b) && Loads(content, n, b) && Fitting(content, n + 1)
    requires Accepted(content, n) && SegmentsIn(content, n, was, mid) && Extends(mid, table)
    requires SegmentPages(content, n) !! PagesBefore(content, n)
    requires Put(was, now, table, FilePhdr(content, n).p_vaddr,
                 Part(content, FilePhdr(content, n).p_offset, FilePhdr(content, n).p_filesz))
    ensures SegmentIn(content, i, now, table)
  {
    var ph := FilePhdr(content, n);
    assert SegmentIn(content, i, was, mid) by { assert Accepted(content, i) || !Accepted(content, i); }
    LastFits(content, b, all, n);
    LoadsPrefix(content, i, n, b);
    assert Accepted(content, i) ==> FilePhdr(content, i).p_vaddr % PAGE == 0;
    hide Put, Part, PagesBefore, FilePhdr, Extends, SegmentIn, SegmentsIn, Loads;
    PagesBeforeHas(content, i, n);
    PartSize(content, ph.p_offset, ph.p_filesz);
    SegmentStays(content, i, was, now, mid, table, ph, Part(content, ph.p_offset, ph.p_filesz));
  }

  lemma PartSize(content: seq<byte>, from: nat, n: nat)
    ensures |Part(content, from, n)| <= n
  {
  }

  /** load_phdr's effect, in terms of the whole file. */
  lemma SegmentLoaded(content: seq<byte>, b: Setting, all: nat, n: nat, was: seq<byte>, now: seq<byte>,
                      mid: PageTable, before: seq<nat>, table: PageTable, free: seq<nat>)
    requires n < all && SegmentsOk(content, all, b) && Loads(content, n, b)
    requires Accepted(content, n) && SegmentReadable(content, FilePhdr(content, n))
    requires LoadedUpTo(content, b, n, was, mid, before) && Extends(mid, table)
    requires table.pages.Keys == mid.pages.Keys + SegmentPages(content, n)
    requires table.tables.Keys == mid.tables.Keys + SegmentDirs(content, n)
    requires |free| == |before| - SegmentFrames(content, mid.tables.Keys, n)
    requires Put(was, now, table, FilePhdr(content, n).p_vaddr,
                 Part(content, FilePhdr(content, n).p_offset, FilePhdr(content, n).p_filesz))
    ensures LoadedUpTo(content, b, n + 1, now, table, free)
  {
    hide Put, Part, FilePhdr, SegmentPages, SegmentDirs, SegmentFrames, SegmentReadable, SegmentsOk, SegmentIn;
    if Fitting(content, n + 1) {
      FittingPrefix(content, n);
      OneMoreSegment(content, b, all, n, was, now, mid, table);
    }
  }

  /** One round of the loop over the program headers: false for `goto load_failed`. */
  method LoadHeader(file: File, pos: nat, space: AddressSpace, mem: array<byte>, heap: TaskHeap,
                    ghost b: Setting, ghost n: nat, ghost i: nat) returns (ok: bool)
    requires |file.content| >= EHDR_SIZE && pos == PhdrPos(file.content, i) && file.seekable == b.seekable
    requires space.Valid(mem.Length) && SegmentsOk(file.content, n, b) && i < n && Loads(file.content, i, b)
    requires LoadedUpTo(file.content, b, i, mem[..], space.table, space.free)
    modifies file`pos, space, mem, heap
    ensures space.Valid(mem.Length)
    ensures ok <==> Loads(file.content, i + 1, b)
    ensures ok ==> LoadedUpTo(file.content, b, i + 1, mem[..], space.table, space.free)
    ensures ok && Ascending(old(space.free), old(space.table)) ==> Ascending(space.free, space.table)
    ensures ok && Accepted(file.content, i) ==>
              heap.heapStart == heap.heapEnd ==
                (FilePhdr(file.content, i).p_vaddr + FilePhdr(file.content, i).p_memsz) % UINT32
    ensures !Accepted(file.content, i) ==> heap.heapStart == old(heap.heapStart) && heap.heapEnd == old(heap.heapEnd)
  {
    hide LoadedUpTo, SegmentsOk, SegmentFrames, SegmentDirs, AddressSpace.Valid, Accepted, FilePhdr, SegmentReadable;
    hide PhdrAt, PhdrPos, FramesForSegment, Loads, Ascending;
    LoadsStep(file.content, i, b, mem[..], space.table, space.free);
    var err := file.Seek(pos);
    if err < 0 {
      return false;
    }
    var cnt, hdr := file.ReadVar(PHDR_SIZE);
    if cnt < PHDR_SIZE {
      return false;
    }
    HeaderRead(hdr, file.content, i, space.table.tables.Keys);
    var ph := PhdrAt(hdr, 0);
    if ph.p_type != PT_LOAD || ph.p_vaddr < MEMORY_TASK_BASE {
      OtherHeader(file.content, b, i, mem[..], space.table, space.free);
      return true;
    }
    err := LoadAccepted(file, ph, space, mem, b, n, i);
    if err < 0 {
      return false;
    }
    heap.heapStart := (ph.p_vaddr + ph.p_memsz) % UINT32;
    heap.heapEnd := heap.heapStart;
    return true;
  }

  /** What decides whether one more header can be loaded. */
  lemma LoadsStep(content: seq<byte>, i: nat, b: Setting, mem: seq<byte>, table: PageTable, free: seq<nat>)
    requires Loads(content, i, b) && LoadedUpTo(content, b, i, mem, table, free)
    ensures Loads(content, i + 1, b) <==>
              && b.seekable && PhdrReadable(content, i)
              && SegmentFrames(content, table.tables.Keys, i) <= |free|
              && (Accepted(content, i) ==> SegmentReadable(content, FilePhdr(content, i)))
  {
    hide PhdrReadable, Accepted, SegmentFrames, SegmentDirs, SegmentsIn, Fitting, PagesBefore, Extends;
  }

  /** The header as read decides whether it is accepted, and what it asks for. */
  lemma HeaderRead(hdr: seq<byte>, content: seq<byte>, i: nat, dirs: set<nat>)
    requires PhdrReadable(content, i) && hdr == content[PhdrPos(content, i)..PhdrPos(content, i) + PHDR_SIZE]
    ensures PhdrAt(hdr, 0) == FilePhdr(content, i)
    ensures Accepted(content, i) <==>
            FilePhdr(content, i).p_type == PT_LOAD && FilePhdr(content, i).p_vaddr >= MEMORY_TASK_BASE
    ensures SegmentFrames(content, dirs, i) ==
            if Accepted(content, i) then FramesForSegment(dirs, FilePhdr(content, i)) else 0
  {
    SamePhdr(hdr, content, 0, PhdrPos(content, i));
  }

  /** The call of load_phdr for an accepted header. */
  method LoadAccepted(file: File, ph: Phdr, space: AddressSpace, mem: array<byte>,
                      ghost b: Setting, ghost n: nat, ghost i: nat) returns (err: int)
    requires Accepted(file.content, i) && ph == FilePhdr(file.content, i)
    requires space.Valid(mem.Length) && SegmentsOk(file.content, n, b) && i < n && Loads(file.content, i, b)
    requires LoadedUpTo(file.content, b, i, mem[..], space.table, space.free)
    modifies file`pos, space, mem
    ensures space.Valid(mem.Length)
    ensures err == 0 || err == -1
    ensures err == 0 <==> && FramesForSegment(old(space.table).tables.Keys, ph) <= |old(space.free)|
                          && file.seekable && SegmentReadable(file.content, ph)
    ensures err == 0 ==> LoadedUpTo(file.content, b, i + 1, mem[..], space.table, space.free)
    ensures err == 0 && Ascending(old(space.free), old(space.table)) ==> Ascending(space.free, space.table)
  {
    hide *;
    ghost var was, mid, before := mem[..], space.table, space.free;
    KeysUpTo(file.content, b, i, was, mid, before);
    SegmentOkAt(file.content, b, n, i, mid);
    err := LoadPhdr(file, ph, space, mem);
    if err == 0 {
      SegmentRanges(file.content, i, mid.tables.Keys);
      SegmentLoaded(file.content, b, n, i, was, mem[..], mid, before, space.table, space.free);
    }
  }

  lemma SegmentRanges(content: seq<byte>, i: nat, dirs: set<nat>)
    requires Accepted(content, i)
    ensures var ph := FilePhdr(content, i);
            && SegmentPages(content, i) == PageSet(ph.p_vaddr / PAGE, Pages(ph.p_memsz))
            && SegmentDirs(content, i) == DirSet(ph.p_vaddr / PAGE, Pages(ph.p_memsz))
            && SegmentFrames(content, dirs, i) == FramesForSegment(dirs, ph)
  {
  }

  lemma KeysUpTo(content: seq<byte>, b: Setting, n: nat, mem: seq<byte>, table: PageTable, free: seq<nat>)
    requires LoadedUpTo(content, b, n, mem, table, free)
    ensures table.pages.Keys == b.table.pages.Keys + PagesBefore(content, n)
  {
  }

  /** The loop over the program headers; e_phoff advances in 32 bits. */
  method LoadHeaders(file: File, h: Ehdr, space: AddressSpace, mem: array<byte>, heap: TaskHeap, ghost b: Setting)
    returns (ok: bool)
    requires |file.content| >= EHDR_SIZE && h == EhdrAt(file.content, 0)
    requires b == Setting(space.table, |space.free|, file.seekable)
    requires space.Valid(mem.Length) && SegmentsOk(file.content, h.e_phnum, b)
    modifies file`pos, space, mem, heap
    ensures space.Valid(mem.Length)
    ensures ok <==> Loads(file.content, h.e_phnum, b)
    ensures ok ==> LoadedUpTo(file.content, b, h.e_phnum, mem[..], space.table, space.free)
    ensures ok && Ascending(old(space.free), old(space.table)) ==> Ascending(space.free, space.table)
    ensures ok ==> heap.heapStart == HeapAfter(file.content, h.e_phnum, old(heap.heapStart))
    ensures ok ==> heap.heapEnd == HeapAfter(file.content, h.e_phnum, old(heap.heapEnd))
  {
    hide *;
    ghost var start, end := heap.heapStart, heap.heapEnd;
    NothingLoaded(file.content, b, mem[..], space.free, start, end);
    var pos: nat, i := h.e_phoff, 0;
    FirstPos(file.content);
    while i < h.e_phnum
      invariant i <= h.e_phnum && pos == PhdrPos(file.content, i)
      invariant space.Valid(mem.Length) && Loads(file.content, i, b)
      invariant LoadedUpTo(file.content, b, i, mem[..], space.table, space.free)
      invariant Ascending(old(space.free), old(space.table)) ==> Ascending(space.free, space.table)
      invariant heap.heapStart == HeapAfter(file.content, i, start) && heap.heapEnd == HeapAfter(file.content, i, end)
    {
      ok := LoadHeader(file, pos, space, mem, heap, b, h.e_phnum, i);
      if !ok {
        NoLongerLoads(file.content, i + 1, h.e_phnum, b);
        return;
      }
      NextPos(file.content, i);
      HeapStep(file.content, i, start);
      HeapStep(file.content, i, end);
      i := i + 1;
      pos := Wrapped(pos + h.e_phentsize);
    }
    ok := true;
  }

  lemma NothingLoaded(content: seq<byte>, b: Setting, mem: seq<byte>, free: seq<nat>, start: nat, end: nat)
    requires |free| == b.frames
    ensures Loads(content, 0, b) && LoadedUpTo(content, b, 0, mem, b.table, free)
    ensures HeapAfter(content, 0, start) == start && HeapAfter(content, 0, end) == end
  {
  }

  lemma NoLongerLoads(content: seq<byte>, i: nat, n: nat, b: Setting)
    requires i <= n && !Loads(content, i, b)
    ensures !Loads(content, n, b)
  {
    hide Loads;
    if Loads(content, n, b) {
      LoadsPrefix(content, i, n, b);
      assert false;
    }
  }

  lemma HeapStep(content: seq<byte>, i: nat, none: nat)
    ensures HeapAfter(content, i + 1, none) ==
            if Accepted(content, i) then (FilePhdr(content, i).p_vaddr + FilePhdr(content, i).p_memsz) % UINT32
            else HeapAfter(content, i, none)
  {
  }

  lemma FirstPos(content: seq<byte>)
    requires |content| >= EHDR_SIZE
    ensures PhdrPos(content, 0) == EhdrAt(content, 0).e_phoff
  {
    WordBound(content, 28);
  }

  lemma NextPos(content: seq<byte>, i: nat)
    requires |content| >= EHDR_SIZE
    ensures PhdrPos(content, i + 1) == Wrapped(PhdrPos(content, i) + EhdrAt(content, 0).e_phentsize)
  {
    hide EhdrAt;
    var a, s := EhdrAt(content, 0).e_phoff, EhdrAt(content, 0).e_phentsize;
    assert Times(i + 1, s) == Times(i, s) + s;
    ModAdd(a + Times(i, s), s);
  }

  lemma ModAdd(x: nat, y: nat)
    ensures (x + y) % UINT32 == (x % UINT32 + y) % UINT32
  {
  }

  /** The file is there, its header passes and all its program headers can be loaded. */
  ghost predicate FileLoads(file: File, b: Setting) {
    file.present && HeaderOk(file.content) && Loads(file.content, PhdrCount(file.content), b)
  }

  /** load_elf_file: the entry point exactly if the file is there, its header passes and every program header
      can be loaded; then each accepted segment's bytes are at their virtual addresses and the heap begins
      behind the last one.  Whatever happens, a file that was opened is closed, once. */
  method LoadElfFile(file: File, space: AddressSpace, mem: array<byte>, heap: TaskHeap, ghost b: Setting)
    returns (entry: nat)
    requires space.Valid(mem.Length) && b == Setting(space.table, |space.free|, file.seekable)
    requires file.present && HeaderOk(file.content) ==> SegmentsOk(file.content, PhdrCount(file.content), b)
    modifies file, space, mem, heap
    ensures space.Valid(mem.Length)
    ensures entry != 0 <==> FileLoads(file, b)
    ensures entry != 0 ==>
              && var h := EhdrAt(file.content, 0);
              && entry == h.e_entry
              && LoadedUpTo(file.content, b, h.e_phnum, mem[..], space.table, space.free)
              && heap.heapStart == HeapAfter(file.content, h.e_phnum, old(heap.heapStart))
              && heap.heapEnd == HeapAfter(file.content, h.e_phnum, old(heap.heapEnd))
    ensures entry != 0 && Ascending(old(space.free), old(space.table)) ==> Ascending(space.free, space.table)
    ensures file.closes - old(file.closes) == file.opens - old(file.opens) == if file.present then 1 else 0
  {
    hide LoadedUpTo, SegmentsOk, EhdrAt, MagicAt, Loads, HeapAfter, Ascending, AddressSpace.Valid;
    var fd := file.Open();
    if fd < 0 {
      return 0;
    }
    var cnt, hdr := file.ReadVar(EHDR_SIZE);
    if cnt < EHDR_SIZE {
      file.Close();
      return 0;
    }
    SameHeader(hdr, file.content);
    var h := EhdrAt(hdr, 0);
    if !MagicAt(hdr, 0) || h.e_type != ET_EXEC || h.e_machine != ET_386 || h.e_entry == 0 ||
       h.e_phentsize == 0 || h.e_phoff == 0 {
      file.Close();
      return 0;
    }
    var ok := LoadHeaders(file, h, space, mem, heap, b);
    file.Close();
    entry := if ok then h.e_entry else 0;
  }

  lemma SameHeader(hdr: seq<byte>, content: seq<byte>)
    requires |content| >= EHDR_SIZE && hdr == content[0..EHDR_SIZE]
    ensures MagicAt(hdr, 0) == MagicAt(content, 0) && EhdrAt(hdr, 0) == EhdrAt(content, 0)
  {
    SameEhdr(hdr, content, 0, 0);
  }

  /** With the accepted segments in ascending order, as the ELF 'Program Header' chapter demands of PT_LOAD
      entries, and below 2^32, the heap begins at or above the end of every loaded segment, and it is empty
      whatever its bounds were before. */
  lemma {:induction false} HeapAboveSegments(content: seq<byte>, n: nat, none: nat, none': nat, i: nat)
    requires i < n && Accepted(content, i)
    requires forall j: nat {:trigger Accepted(content, j)} :: j < n && Accepted(content, j) ==>
               FilePhdr(content, j).p_vaddr + FilePhdr(content, j).p_memsz < UINT32
    requires forall j: nat, k: nat {:trigger Accepted(content, j), Accepted(content, k)} ::
               j < k < n && Accepted(content, j) && Accepted(content, k) ==>
                 FilePhdr(content, j).p_vaddr + FilePhdr(content, j).p_memsz <= FilePhdr(content, k).p_vaddr
    ensures HeapAfter(content, n, none) >= FilePhdr(content, i).p_vaddr + FilePhdr(content, i).p_memsz
    ensures HeapAfter(content, n, none) == HeapAfter(content, n, none')
  {
    hide FilePhdr;
    if i < n - 1 && !Accepted(content, n - 1) {
      HeapAboveSegments(content, n - 1, none, none', i);
    }
  }
}
