/** The page directory and the page tables as the words of memory they are: the walk of find_pte and memory_get_paddr
    through them, the entries memory_create_map writes, and what keeps them in order. */
module PageWalk {
  import opened Elf
  import opened Paging
  import opened ProgramLoad
  import opened ExecArgs
  import BootLoader

  const PDE_CNT: nat := 1024
  /** The directory entry of MEMORY_TASK_BASE; those below it are the kernel's. */
  const USER_DIR: nat := 512

  function Entry(m: seq<byte>, a: nat): nat { if a + 4 <= |m| then Word(m, a) else 0 }

  /** The lowest bit of an entry. */
  predicate Present(e: nat) { e % 2 == 1 }

  /** The address in the upper 20 bits of an entry. */
  function Target(e: nat): nat { e / PAGE * PAGE }

  /** find_pte without allocation: where the entry for v is, or 0. */
  function FindPte(m: seq<byte>, dir: nat, v: nat): nat {
    var pde := Entry(m, dir + 4 * (v / 0x40_0000));
    if Present(pde) then Target(pde) + 4 * (v / PAGE % PTE_CNT) else 0
  }

  /** memory_get_paddr: it does not ask whether the page is present. */
  function GetPaddr(m: seq<byte>, dir: nat, v: nat): nat {
    var pte := FindPte(m, dir, v);
    if pte == 0 then 0 else Target(Entry(m, pte)) + v % PAGE
  }

  predicate Points(e: nat, frame: nat) { Present(e) && e / PAGE == frame }

  /** Directory entry d says what the map says. */
  predicate PdeStands(m: seq<byte>, dir: nat, table: PageTable, d: nat) {
    var e := Entry(m, dir * PAGE + 4 * d);
    if d in table.tables then Points(e, table.tables[d]) else !Present(e)
  }

  /** Where the entry for page p is. */
  function Slot(table: PageTable, p: nat): nat
    requires DirOf(p) in table.tables
  {
    table.tables[DirOf(p)] * PAGE + 4 * (p % PTE_CNT)
  }

  /** And so does the entry for page p, in a page table that was zeroed when it was made. */
  predicate PteStands(m: seq<byte>, table: PageTable, p: nat)
    requires DirOf(p) in table.tables
  {
    var e := Entry(m, Slot(table, p));
    if p in table.pages then Points(e, table.pages[p]) else e == 0
  }

  /** The words of memory in the directory's frame and the page tables' frames hold the map of the user's pages. */
  ghost predicate Stands(m: seq<byte>, dir: nat, table: PageTable) {
    && 0 < dir && (dir + 1) * PAGE <= |m|
    && (forall d {:trigger PdeStands(m, dir, table, d)} :: USER_DIR <= d < PDE_CNT ==> PdeStands(m, dir, table, d))
    && forall p: nat {:trigger PteStands(m, table, p)} :: DirOf(p) in table.tables ==> PteStands(m, table, p)
  }

  /** The walk through memory answers exactly what the map says, for an absent page and an absent page table too. */
  lemma WalkIsPaddr(m: seq<byte>, dir: nat, table: PageTable, v: nat)
    requires Stands(m, dir, table) && Fits(table, |m|) && MEMORY_TASK_BASE <= v < UINT32
    ensures GetPaddr(m, dir * PAGE, v) == Paddr(table, v)
  {
    var p := v / PAGE;
    assert v / 0x40_0000 == DirOf(p) && USER_DIR <= DirOf(p) < PDE_CNT;
    assert PdeStands(m, dir, table, DirOf(p));
    hide Injective, Entry, DirOf;
    if DirOf(p) in table.tables {
      assert PteStands(m, table, p);
      assert table.tables[DirOf(p)] > 0;
    }
  }

  /** memory_create_uvm leaves the user's half of the directory zero: no page yet. */
  lemma NewDirectoryStands(m: seq<byte>, dir: nat)
    requires 0 < dir && (dir + 1) * PAGE <= |m|
    requires forall a :: dir * PAGE + 4 * USER_DIR <= a < (dir + 1) * PAGE ==> m[a] == 0
    ensures Stands(m, dir, PageTable(map[], map[]))
  {
    hide DirOf;
  }

  // ---------- what leaves it in order ----------

  /** No byte of the directory's frame or of a page table's frame has changed. */
  ghost predicate EntriesKept(m: seq<byte>, n: seq<byte>, dir: nat, table: PageTable) {
    && |n| == |m|
    && (forall a :: dir * PAGE <= a < (dir + 1) * PAGE && 0 <= a < |m| ==> n[a] == m[a])
    && forall d, a {:trigger table.tables[d], n[a]} ::
         d in table.tables && table.tables[d] * PAGE <= a < (table.tables[d] + 1) * PAGE && 0 <= a < |m| ==>
           n[a] == m[a]
  }

  lemma SameEntry(m: seq<byte>, n: seq<byte>, frame: nat, i: nat)
    requires |n| == |m| && i < 1024
    requires forall a :: frame * PAGE <= a < (frame + 1) * PAGE && 0 <= a < |m| ==> n[a] == m[a]
    ensures Entry(n, frame * PAGE + 4 * i) == Entry(m, frame * PAGE + 4 * i)
  {
  }

  lemma StandsKept(m: seq<byte>, n: seq<byte>, dir: nat, table: PageTable)
    requires Stands(m, dir, table) && EntriesKept(m, n, dir, table)
    ensures Stands(n, dir, table)
  {
    hide Entry, DirOf;
    forall d | USER_DIR <= d < PDE_CNT ensures PdeStands(n, dir, table, d) {
      assert PdeStands(m, dir, table, d);
      SameEntry(m, n, dir, d);
    }
    forall p: nat | DirOf(p) in table.tables ensures PteStands(n, table, p) {
      assert PteStands(m, table, p);
      SameEntry(m, n, table.tables[DirOf(p)], p % PTE_CNT);
    }
  }

  /** The directory has a frame of its own. */
  ghost predicate DirApart(dir: nat, table: PageTable) {
    (forall p :: p in table.pages ==> table.pages[p] != dir) && forall d :: d in table.tables ==> table.tables[d] != dir
  }

  lemma NoPageBehind(table: PageTable, to: nat, n: nat, frame: nat, a: nat)
    requires forall p :: p in table.pages ==> table.pages[p] != frame
    requires frame * PAGE <= a < (frame + 1) * PAGE
    ensures !Behind(table, to, n, a)
  {
    forall v: nat | Mapped(table, v) ensures Paddr(table, v) != a {
      assert Paddr(table, v) / PAGE == table.pages[v / PAGE];
    }
  }

  /** Copying through the map leaves the walk as it was: memory_copy_uvm_data cannot mislead its own later pieces. */
  lemma CopyKeepsWalk(was: seq<byte>, now: seq<byte>, dir: nat, table: PageTable, to: nat, data: seq<byte>)
    requires Stands(was, dir, table) && Fits(table, |was|) && DirApart(dir, table)
    requires Put(was, now, table, to, data)
    ensures Stands(now, dir, table)
  {
    forall d, a | d in table.tables && table.tables[d] * PAGE <= a < (table.tables[d] + 1) * PAGE && 0 <= a < |was|
      ensures now[a] == was[a]
    {
      TablesSpared(was, now, table, to, data, d, a);
    }
    hide Stands;
    forall a | dir * PAGE <= a < (dir + 1) * PAGE && 0 <= a < |was| ensures now[a] == was[a] {
      NoPageBehind(table, to, |data|, dir, a);
    }
    StandsKept(was, now, dir, table);
  }

  /** So does the whole of copy_args, if its pointer strip meets neither a page table nor the directory: every address
      it looks up on the way is the one the map gives. */
  lemma CopyArgsKeepsWalk(was: seq<byte>, dir: nat, table: PageTable, to: nat, argv: seq<seq<byte>>, retAddr: seq<byte>)
    requires Stands(was, dir, table) && Room(table, to, argv, |was|) && |retAddr| == 4 && DirApart(dir, table)
    requires var p := Paddr(table, to + ARGS_SIZE);
             argv == [] || p + 4 * |argv| <= dir * PAGE || (dir + 1) * PAGE <= p
    ensures Stands(ArgsCopied(was, table, to, argv, retAddr), dir, table)
  {
    hide Stands, Room, Fits, ArgsCopied, Strings;
    var now := ArgsCopied(was, table, to, argv, retAddr);
    forall d, a | d in table.tables && table.tables[d] * PAGE <= a < (table.tables[d] + 1) * PAGE && 0 <= a < |was|
      ensures now[a] == was[a]
    {
      PageTablesKept(was, table, to, argv, retAddr, d, a);
    }
    forall a | dir * PAGE <= a < (dir + 1) * PAGE && 0 <= a < |was| ensures now[a] == was[a] {
      NoPageBehind(table, to, Base(argv) + |Strings(argv)|, dir, a);
      ChangedByCopyArgs(was, table, to, argv, retAddr, a);
    }
    ArgsCopiedSize(was, table, to, argv, retAddr);
    StandsKept(was, now, dir, table);
  }

  lemma ArgsCopiedSize(was: seq<byte>, table: PageTable, to: nat, argv: seq<seq<byte>>, retAddr: seq<byte>)
    requires Room(table, to, argv, |was|) && |retAddr| == 4
    ensures |ArgsCopied(was, table, to, argv, retAddr)| == |was|
  {
  }

  // ---------- a pointer over an entry ----------

  lemma EntryWritten(m: seq<byte>, at: nat, w: nat)
    requires w < UINT32 && at + 4 <= |m|
    ensures Entry(Overwritten(m, at, Bytes(w)), at) == w
    ensures forall q: nat :: q + 4 <= at || at + 4 <= q ==> Entry(Overwritten(m, at, Bytes(w)), q) == Entry(m, q)
  {
    WordOfBytes(m, at, w);
    forall q: nat | q + 4 <= at || at + 4 <= q
      ensures Entry(Overwritten(m, at, Bytes(w)), q) == Entry(m, q)
    {
      if q + 4 <= |m| {
        OtherWord(m, at, Bytes(w), q);
      }
    }
  }

  /** A page takes its frame before its page table does: allocated lowest first, the page table lies above it, and
      below all pages entered later. */
  lemma TableAbovePage(table: PageTable, free: seq<nat>, table': PageTable, free': seq<nat>, page: nat)
    requires Ascending(free, table) && Entered(table, free, table', free', page) && DirOf(page) !in table.tables
    ensures DirOf(page) in table'.tables && page in table'.pages && table'.pages[page] < table'.tables[DirOf(page)]
    ensures forall i :: 0 <= i < |free'| ==> table'.tables[DirOf(page)] < free'[i]
  {
    hide DirOf;
  }

  /** So two pages mapped one after the other in a new address space leave their page table's frame between theirs. */
  lemma BetweenArises(mid: PageTable, left: seq<nat>, table: PageTable, left': seq<nat>)
    requires Entered(PageTable(map[], map[]), [2, 3, 4], mid, left, 0x80000)
    requires Entered(mid, left, table, left', 0x80001)
    ensures table == PAGE_TABLE_BETWEEN
  {
  }

  /** The 1022 arguments of PointerBecomesMapping, in memory: whatever it holds, once the last pointer is stored the
      walk for the block's first address no longer ends in the block's frame. */
  lemma PointerMisleadsWalk(m: seq<byte>)
    requires |m| == 5 * PAGE && Stands(m, 1, PAGE_TABLE_BETWEEN)
    ensures var to, argv, t := 0x8000_0000, EmptyArgs(1022), PAGE_TABLE_BETWEEN;
            && FitsBelow4G(argv, to) && Paddr(t, to + ARGS_SIZE) + 4 * 1021 + 4 <= |m|
            && GetPaddr(m, PAGE, to) == 2 * PAGE
            && var now := Overwritten(m, Paddr(t, to + ARGS_SIZE) + 4 * 1021, Bytes(ArgAt(argv, to, 1021)));
               GetPaddr(now, PAGE, to) == 0x8000_1000
  {
    var to, t := 0x8000_0000, PAGE_TABLE_BETWEEN;
    BetweenFits();
    EmptyStrings(1022);
    EmptyArgAt(1022, to, 1021);
    assert ArgAt(EmptyArgs(1022), to, 1021) == 0x8000_1401;
    hide Strings, ArgAt, Fits, Bytes, Stands, GetPaddr;
    WalkIsPaddr(m, 1, t, to);
    PointerOverEntry(m, 0x8000_1401);
  }

  lemma PointerOverEntry(m: seq<byte>, ptr: nat)
    requires |m| == 5 * PAGE && Stands(m, 1, PAGE_TABLE_BETWEEN) && ptr < UINT32
    ensures GetPaddr(Overwritten(m, 3 * PAGE, Bytes(ptr)), PAGE, 0x8000_0000) == Target(ptr)
  {
    DirStands(m, 1, PAGE_TABLE_BETWEEN, 512);
    EntryWritten(m, 3 * PAGE, ptr);
    WalkOver(Overwritten(m, 3 * PAGE, Bytes(ptr)), Entry(m, PAGE + 4 * 512), ptr);
  }

  lemma WalkOver(n: seq<byte>, pde: nat, ptr: nat)
    requires Entry(n, PAGE + 4 * 512) == pde && Points(pde, 3) && Entry(n, 3 * PAGE) == ptr
    ensures GetPaddr(n, PAGE, 0x8000_0000) == Target(ptr)
  {
    hide Entry;
  }

  // ---------- memory_create_map ----------

  /** The entry of an absent page table as memory_create_map writes it, and the new page table's frame zeroed. */
  ghost predicate TableMade(m: seq<byte>, n: seq<byte>, dir: nat, table: PageTable, d: nat, f: nat, e: nat) {
    && |n| == |m| && USER_DIR <= d < PDE_CNT && d !in table.tables && Points(e, f) && e < UINT32
    && f != dir && (f + 1) * PAGE <= |m| && (dir + 1) * PAGE <= |m|
    && (forall g :: g in table.tables ==> table.tables[g] != f)
    && (forall g :: g in table.tables ==> table.tables[g] != dir)
    && forall a :: 0 <= a < |m| ==>
         n[a] == if f * PAGE <= a < (f + 1) * PAGE then 0 else Overwritten(m, dir * PAGE + 4 * d, Bytes(e))[a]
  }

  lemma TableMadeDir(m: seq<byte>, n: seq<byte>, dir: nat, table: PageTable, d: nat, f: nat, e: nat, k: nat)
    requires TableMade(m, n, dir, table, d, f, e) && k < PDE_CNT
    ensures Entry(n, dir * PAGE + 4 * k) == if k == d then e else Entry(m, dir * PAGE + 4 * k)
  {
    var mid := Overwritten(m, dir * PAGE + 4 * d, Bytes(e));
    SameEntry(mid, n, dir, k);
    EntryWritten(m, dir * PAGE + 4 * d, e);
    hide Entry, Overwritten, Bytes, Points;
  }

  lemma TableMadeTables(m: seq<byte>, n: seq<byte>, dir: nat, table: PageTable, d: nat, f: nat, e: nat, k: nat, i: nat)
    requires TableMade(m, n, dir, table, d, f, e) && k in table.tables && i < 1024
    ensures Entry(n, table.tables[k] * PAGE + 4 * i) == Entry(m, table.tables[k] * PAGE + 4 * i)
    ensures Entry(n, f * PAGE + 4 * i) == 0
  {
    hide Points, Bytes;
    var g := table.tables[k];
    forall a | g * PAGE <= a < (g + 1) * PAGE && 0 <= a < |m| ensures n[a] == m[a] {
      FramesApart(g, f, a);
      FramesApart(g, dir, a);
    }
    SameEntry(m, n, g, i);
    ZeroEntry(n, f, i);
  }

  lemma FramesApart(g: nat, f: nat, a: nat)
    requires g != f && g * PAGE <= a < (g + 1) * PAGE
    ensures !(f * PAGE <= a < (f + 1) * PAGE)
  {
  }

  lemma ZeroEntry(n: seq<byte>, f: nat, i: nat)
    requires i < 1024 && (f + 1) * PAGE <= |n| && forall a :: f * PAGE <= a < (f + 1) * PAGE ==> n[a] == 0
    ensures Entry(n, f * PAGE + 4 * i) == 0
  {
  }

  lemma NewTableStands(m: seq<byte>, n: seq<byte>, dir: nat, table: PageTable, d: nat, f: nat, e: nat)
    requires Stands(m, dir, table) && TableMade(m, n, dir, table, d, f, e)
    requires forall p :: p in table.pages ==> DirOf(p) in table.tables
    ensures Stands(n, dir, table.(tables := table.tables[d := f]))
  {
    var t := table.(tables := table.tables[d := f]);
    hide Entry, DirOf;
    forall k | USER_DIR <= k < PDE_CNT ensures PdeStands(n, dir, t, k) {
      assert PdeStands(m, dir, table, k);
      TableMadeDir(m, n, dir, table, d, f, e, k);
    }
    forall p: nat | DirOf(p) in t.tables ensures PteStands(n, t, p) {
      if DirOf(p) == d {
        assert p !in table.pages;
        MadeZero(m, n, dir, table, d, f, e, p % PTE_CNT);
      } else {
        assert PteStands(m, table, p);
        TableMadeTables(m, n, dir, table, d, f, e, DirOf(p), p % PTE_CNT);
      }
    }
  }

  lemma MadeZero(m: seq<byte>, n: seq<byte>, dir: nat, table: PageTable, d: nat, f: nat, e: nat, i: nat)
    requires TableMade(m, n, dir, table, d, f, e) && i < 1024
    ensures Entry(n, f * PAGE + 4 * i) == 0
  {
    ZeroEntry(n, f, i);
  }

  lemma NewPageStands(m: seq<byte>, dir: nat, table: PageTable, page: nat, frame: nat, e: nat)
    requires Stands(m, dir, table) && Fits(table, |m|) && DirApart(dir, table)
    requires DirOf(page) in table.tables && page !in table.pages && Points(e, frame) && e < UINT32
    ensures Entry(m, Slot(table, page)) == 0 && Slot(table, page) + 4 <= |m|
    ensures Stands(Overwritten(m, Slot(table, page), Bytes(e)), dir, table.(pages := table.pages[page := frame]))
  {
    hide *;
    EmptySlot(m, dir, table, page);
    var n, t := Overwritten(m, Slot(table, page), Bytes(e)), table.(pages := table.pages[page := frame]);
    forall k | USER_DIR <= k < PDE_CNT ensures PdeStands(n, dir, t, k) {
      DirStands(m, dir, table, k);
      DirEntryKept(m, dir, table, page, frame, e, k);
    }
    forall p: nat | DirOf(p) in t.tables ensures PteStands(n, t, p) {
      PageEntry(m, dir, table, page, frame, e, p);
    }
    DirInMemory(m, dir, table);
    StandsBy(n, dir, t);
  }

  lemma EmptySlot(m: seq<byte>, dir: nat, table: PageTable, page: nat)
    requires Stands(m, dir, table) && Fits(table, |m|) && DirApart(dir, table)
    requires DirOf(page) in table.tables && page !in table.pages
    ensures Entry(m, Slot(table, page)) == 0 && Slot(table, page) + 4 <= |m|
    ensures table.tables[DirOf(page)] != dir && Injective(table)
  {
    assert PteStands(m, table, page) && (table.tables[DirOf(page)] + 1) * PAGE <= |m|;
    hide Stands, Entry, DirOf, Injective;
  }

  lemma DirStands(m: seq<byte>, dir: nat, table: PageTable, k: nat)
    requires Stands(m, dir, table) && USER_DIR <= k < PDE_CNT
    ensures PdeStands(m, dir, table, k)
  {
    hide PdeStands, PteStands;
  }

  lemma PageStands(m: seq<byte>, dir: nat, table: PageTable, p: nat)
    requires Stands(m, dir, table) && DirOf(p) in table.tables
    ensures PteStands(m, table, p)
  {
    hide PdeStands, PteStands, DirOf;
  }

  lemma DirInMemory(m: seq<byte>, dir: nat, table: PageTable)
    requires Stands(m, dir, table)
    ensures 0 < dir && (dir + 1) * PAGE <= |m|
  {
    hide PdeStands, PteStands;
  }

  lemma StandsBy(m: seq<byte>, dir: nat, table: PageTable)
    requires 0 < dir && (dir + 1) * PAGE <= |m|
    requires forall d {:trigger PdeStands(m, dir, table, d)} :: USER_DIR <= d < PDE_CNT ==> PdeStands(m, dir, table, d)
    requires forall p: nat {:trigger PteStands(m, table, p)} :: DirOf(p) in table.tables ==> PteStands(m, table, p)
    ensures Stands(m, dir, table)
  {
    hide PdeStands, PteStands, DirOf;
  }

  lemma DirEntryKept(m: seq<byte>, dir: nat, table: PageTable, page: nat, frame: nat, e: nat, k: nat)
    requires DirOf(page) in table.tables && table.tables[DirOf(page)] != dir
    requires PdeStands(m, dir, table, k) && k < PDE_CNT && e < UINT32
    requires Slot(table, page) + 4 <= |m|
    ensures PdeStands(Overwritten(m, Slot(table, page), Bytes(e)), dir, table.(pages := table.pages[page := frame]), k)
  {
    EntriesApart(dir, k, table.tables[DirOf(page)], page % PTE_CNT);
    hide Entry, Overwritten, Bytes, DirOf, Points;
    EntryWritten(m, Slot(table, page), e);
  }

  lemma PageEntry(m: seq<byte>, dir: nat, table: PageTable, page: nat, frame: nat, e: nat, p: nat)
    requires Stands(m, dir, table) && Injective(table) && Points(e, frame) && e < UINT32
    requires DirOf(page) in table.tables && DirOf(p) in table.tables && Slot(table, page) + 4 <= |m|
    ensures PteStands(Overwritten(m, Slot(table, page), Bytes(e)), table.(pages := table.pages[page := frame]), p)
  {
    hide *;
    PageStands(m, dir, table, p);
    EntryWritten(m, Slot(table, page), e);
    if p != page {
      SlotsApart(table, p, page);
    }
    EntryNow(m, Overwritten(m, Slot(table, page), Bytes(e)), table, page, frame, e, p);
  }

  lemma EntryNow(m: seq<byte>, n: seq<byte>, table: PageTable, page: nat, frame: nat, e: nat, p: nat)
    requires DirOf(page) in table.tables && DirOf(p) in table.tables && PteStands(m, table, p) && Points(e, frame)
    requires Entry(n, Slot(table, p)) == if p == page then e else Entry(m, Slot(table, p))
    ensures PteStands(n, table.(pages := table.pages[page := frame]), p)
  {
    hide Entry, DirOf, Points;
  }

  lemma EntriesApart(f: nat, i: nat, g: nat, j: nat)
    requires f != g && i < 1024 && j < 1024
    ensures f * PAGE + 4 * i + 4 <= g * PAGE + 4 * j || g * PAGE + 4 * j + 4 <= f * PAGE + 4 * i
  {
  }

  lemma SlotsApart(table: PageTable, p: nat, q: nat)
    requires Injective(table) && DirOf(p) in table.tables && DirOf(q) in table.tables && p != q
    ensures Slot(table, p) + 4 <= Slot(table, q) || Slot(table, q) + 4 <= Slot(table, p)
  {
    if DirOf(p) == DirOf(q) {
      assert p % PTE_CNT != q % PTE_CNT;
    } else {
      EntriesApart(table.tables[DirOf(p)], p % PTE_CNT, table.tables[DirOf(q)], q % PTE_CNT);
    }
  }

  /** An entry for a frame: paddr | perm | present. */
  function EntryFor(frame: nat, perm: nat): (e: nat)
    requires frame < 0x10_0000 && perm < PAGE
    ensures Points(e, frame) && e < UINT32
  {
    frame * PAGE + if perm % 2 == 1 then perm else perm + 1
  }

  method WriteEntry(mem: array<byte>, at: nat, e: nat)
    requires at + 4 <= mem.Length && e < UINT32
    modifies mem
    ensures mem[..] == Overwritten(old(mem[..]), at, Bytes(e))
  {
    CopyIn(mem, at, Bytes(e));
  }

  /** find_pte with allocation, on memory: the page table of directory entry d, made from the first free frame if
      there is none. */
  method FindTable(mem: array<byte>, dir: nat, d: nat, free: seq<nat>, ghost table: PageTable)
    returns (found: nat, left: seq<nat>, ghost table': PageTable)
    requires mem.Length <= UINT32 && USER_DIR <= d < PDE_CNT
    requires Stands(mem[..], dir, table) && Fits(table, mem.Length) && DirApart(dir, table)
    requires Unused(free, table, mem.Length) && dir !in free
    modifies mem
    ensures Stands(mem[..], dir, table')
    ensures found == 0 <==> d !in table.tables && free == []
    ensures found == 0 ==> table' == table
    ensures found != 0 && d in table.tables ==> table' == table && left == free
    ensures found != 0 && d !in table.tables ==>
              free != [] && left == free[1..] && table' == table.(tables := table.tables[d := free[0]])
    ensures found != 0 ==> found == table'.tables[d] * PAGE
  {
    var e := Entry(mem[..], dir * PAGE + 4 * d);
    assert PdeStands(mem[..], dir, table, d);
    table', left := table, free;
    if Present(e) {
      return Target(e), left, table';
    }
    if free == [] {
      return 0, left, table';
    }
    ghost var was := mem[..];
    var f := free[0];
    assert f in free;
    WriteEntry(mem, dir * PAGE + 4 * d, EntryFor(f, 7));
    BootLoader.ZeroBytes(mem, f * PAGE, PAGE);
    NewTableStands(was, mem[..], dir, table, d, f, EntryFor(f, 7));
    found, left, table' := f * PAGE, free[1..], table.(tables := table.tables[d := f]);
  }

  /** A round of memory_alloc_for_page_dir on memory: it does to the words what MapPage does to the map. */
  method MapPageInMemory(mem: array<byte>, dir: nat, page: nat, perm: nat, free: seq<nat>, ghost table: PageTable)
    returns (err: int, left: seq<nat>, ghost table': PageTable)
    requires mem.Length <= UINT32 && USER_DIR <= DirOf(page) < PDE_CNT && perm < PAGE && page !in table.pages
    requires Stands(mem[..], dir, table) && Fits(table, mem.Length) && DirApart(dir, table)
    requires Unused(free, table, mem.Length) && dir !in free
    modifies mem
    ensures err == 0 || err == -1
    ensures err == 0 <==> FramesForPage(table.tables.Keys, page) <= |free|
    ensures err == 0 ==> Entered(table, free, table', left, page)
    ensures Stands(mem[..], dir, table')
  {
    hide Fits, Unused, DirOf, Stands, DirApart, Entered, FramesForPage, Entry, Bytes, Overwritten, EntryFor, Points;
    table', left := table, free;
    if free == [] {
      NoFrameLeft(table, page);
      return -1, left, table';
    }
    ghost var was := table;
    var frame := free[0];
    FirstFrame(free, table, mem.Length, dir);
    var found;
    found, left, table' := FindTable(mem, dir, DirOf(page), free[1..], table);
    OneOrTwo(was, free, page);
    if found == 0 {
      return -1, left, table';
    }
    WithTable(was, free, mem.Length, dir, page, table');
    NewPageStands(mem[..], dir, table', page, frame, EntryFor(frame, perm));
    WriteEntry(mem, found + 4 * (page % PTE_CNT), EntryFor(frame, perm));
    table' := table'.(pages := table'.pages[page := frame]);
    NowEntered(was, free, table', left, page);
    err := 0;
  }

  lemma NoFrameLeft(table: PageTable, page: nat)
    ensures FramesForPage(table.tables.Keys, page) > 0
  {
  }

  lemma OneOrTwo(table: PageTable, free: seq<nat>, page: nat)
    requires free != []
    ensures FramesForPage(table.tables.Keys, page) <= |free| <==> DirOf(page) in table.tables || free[1..] != []
  {
    hide DirOf;
  }

  lemma FirstFrame(free: seq<nat>, table: PageTable, size: nat, dir: nat)
    requires Unused(free, table, size) && free != [] && dir !in free && size <= UINT32
    ensures free[0] < 0x10_0000 && Unused(free[1..], table, size) && dir !in free[1..]
  {
    UnusedTail(free, table, size);
    assert (free[0] + 1) * PAGE <= size;
  }

  /** What the new page's entry needs of the page table found or made. */
  lemma WithTable(table: PageTable, free: seq<nat>, size: nat, dir: nat, page: nat, table': PageTable)
    requires Fits(table, size) && Unused(free, table, size) && free != [] && DirApart(dir, table) && dir !in free
    requires page !in table.pages
    requires DirOf(page) in table.tables ==> table' == table
    requires DirOf(page) !in table.tables ==>
               free[1..] != [] && table' == table.(tables := table.tables[DirOf(page) := free[1..][0]])
    ensures Fits(table', size) && DirApart(dir, table') && DirOf(page) in table'.tables && page !in table'.pages
  {
    hide Fits, Unused, DirOf;
    if DirOf(page) !in table.tables {
      UnusedTail(free, table, size);
      TableEntered(table, free[0], free[1..], size, DirOf(page));
      assert free[1..][0] in free;
    }
  }

  lemma NowEntered(table: PageTable, free: seq<nat>, table': PageTable, left: seq<nat>, page: nat)
    requires free != [] && FramesForPage(table.tables.Keys, page) <= |free|
    requires table'.pages == table.pages[page := free[0]]
    requires DirOf(page) in table.tables ==> table'.tables == table.tables && left == free[1..]
    requires DirOf(page) !in table.tables ==>
               |free| > 1 && table'.tables == table.tables[DirOf(page) := free[1..][0]] && left == free[1..][1..]
    ensures Entered(table, free, table', left, page)
  {
    hide DirOf;
  }
}
