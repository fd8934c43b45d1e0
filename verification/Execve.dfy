/** The new program of sys_execve: its segments, its stack and its arguments, all in one address space. */
module Execve {
  import opened Elf
  import opened Paging
  import opened ProgramLoad
  import opened ExecArgs

  const MEM_TASK_STACK_TOP: nat := 0xE000_0000
  const MEM_TASK_STACK_SIZE: nat := 500 * PAGE
  const MEM_TASK_ARG_SIZE: nat := 4 * PAGE
  const STACK_BASE: nat := MEM_TASK_STACK_TOP - MEM_TASK_STACK_SIZE
  const STACK_PAGE: nat := STACK_BASE / PAGE
  const STACK_PAGES: nat := MEM_TASK_STACK_SIZE / PAGE
  /** Where sys_execve has the argument block built. */
  const ARGS_AT: nat := MEM_TASK_STACK_TOP - MEM_TASK_ARG_SIZE
  const ARGS_PAGE: nat := ARGS_AT / PAGE

  ghost function StackPages(): set<nat> { PageSet(STACK_PAGE, STACK_PAGES) }

  /** The argument block fits into the pages set aside for it. */
  predicate ArgsFit(argv: seq<seq<byte>>) { Base(argv) + |Strings(argv)| <= MEM_TASK_ARG_SIZE }

  /** No accepted segment reaches into the stack; the source asserts it when it maps the stack's pages. */
  ghost predicate ClearOfStack(content: seq<byte>, n: nat) {
    forall i: nat {:trigger Accepted(content, i)} :: i < n ==> SegmentPages(content, i) !! StackPages()
  }

  lemma ArgPages(v: nat)
    requires ARGS_AT <= v < ARGS_AT + MEM_TASK_ARG_SIZE
    ensures v / PAGE in StackPages()
  {
    assert STACK_PAGE <= v / PAGE < STACK_PAGE + STACK_PAGES;
  }

  /** The whole stack needs one page table. */
  lemma {:induction false} StackDirs(i: nat)
    requires 0 < i <= STACK_PAGES
    ensures DirSet(STACK_PAGE, i) == {DirOf(ARGS_PAGE)}
  {
    assert DirOf(STACK_PAGE + i - 1) == DirOf(ARGS_PAGE);
    if i > 1 {
      StackDirs(i - 1);
    } else {
      assert DirSet(STACK_PAGE, 0) == {};
    }
  }

  /** What the stack's allocation, lowest frame first, says about the pages of the arguments. */
  ghost predicate ArgsOnTop(was: PageTable, table: PageTable) {
    && StackPages() <= table.pages.Keys && was.pages.Keys !! StackPages() && Extends(was, table)
    && (forall p :: p in was.pages ==> table.pages[p] < table.pages[ARGS_PAGE])
    && (forall d :: d in table.tables ==> table.tables[d] < table.pages[ARGS_PAGE])
    && table.pages[ARGS_PAGE] + 3 <= table.pages[ARGS_PAGE + 3]
  }

  lemma TakenParts(was: PageTable, frames: seq<nat>, table: PageTable, free: seq<nat>, first: nat, i: nat)
    requires Taken(was, frames, table, free, first, i) && Ascending(frames, was)
    ensures Extends(was, table) && PagesRise(was, table, first, i) && TablesBelow(was, table, first, i)
    ensures table.pages.Keys == was.pages.Keys + PageSet(first, i)
    ensures table.tables.Keys == was.tables.Keys + DirSet(first, i)
  {
    hide Extends, PagesRise, TablesBelow, Ascending, PageSet, DirSet;
  }

  lemma ArgsFramesOnTop(was: PageTable, frames: seq<nat>, table: PageTable, free: seq<nat>)
    requires Taken(was, frames, table, free, STACK_PAGE, STACK_PAGES) && Ascending(frames, was)
    requires was.pages.Keys !! StackPages()
    ensures ArgsOnTop(was, table)
  {
    hide *;
    TakenParts(was, frames, table, free, STACK_PAGE, STACK_PAGES);
    ArgsRise(was, table);
    ArgsAboveTables(was, table);
    OnTop(was, table);
  }

  lemma OnTop(was: PageTable, table: PageTable)
    requires StackPages() <= table.pages.Keys && was.pages.Keys !! StackPages() && Extends(was, table)
    requires ARGS_PAGE in table.pages && ARGS_PAGE + 3 in table.pages
    requires forall p :: p in was.pages ==> p in table.pages && table.pages[p] < table.pages[ARGS_PAGE]
    requires forall d :: d in table.tables ==> table.tables[d] < table.pages[ARGS_PAGE]
    requires table.pages[ARGS_PAGE] + 3 <= table.pages[ARGS_PAGE + 3]
    ensures ArgsOnTop(was, table)
  {
    hide StackPages;
  }

  lemma ArgsRise(was: PageTable, table: PageTable)
    requires PagesRise(was, table, STACK_PAGE, STACK_PAGES)
    requires table.pages.Keys == was.pages.Keys + PageSet(STACK_PAGE, STACK_PAGES)
    ensures StackPages() <= table.pages.Keys && ARGS_PAGE in table.pages && ARGS_PAGE + 3 in table.pages
    ensures forall p :: p in was.pages ==> p in table.pages && table.pages[p] < table.pages[ARGS_PAGE]
    ensures table.pages[ARGS_PAGE] + 3 <= table.pages[ARGS_PAGE + 3]
  {
    hide PageSet;
    assert ARGS_PAGE in table.pages.Keys && ARGS_PAGE + 1 in table.pages.Keys && ARGS_PAGE + 2 in table.pages.Keys
           && ARGS_PAGE + 3 in table.pages.Keys;
    assert table.pages[ARGS_PAGE] < table.pages[ARGS_PAGE + 1] < table.pages[ARGS_PAGE + 2];
    assert table.pages[ARGS_PAGE + 2] < table.pages[ARGS_PAGE + 3];
    forall p | p in was.pages ensures p in table.pages && table.pages[p] < table.pages[ARGS_PAGE] {
      assert p in table.pages.Keys;
    }
  }

  lemma ArgsAboveTables(was: PageTable, table: PageTable)
    requires TablesBelow(was, table, STACK_PAGE, STACK_PAGES) && ARGS_PAGE in table.pages
    requires table.tables.Keys == was.tables.Keys + DirSet(STACK_PAGE, STACK_PAGES)
    ensures forall d :: d in table.tables ==> table.tables[d] < table.pages[ARGS_PAGE]
  {
    StackDirs(STACK_PAGES);
    StackDirs(ARGS_PAGE - STACK_PAGE);
    hide DirSet, DirOf;
    forall d | d in table.tables ensures table.tables[d] < table.pages[ARGS_PAGE] {
      assert d in table.tables.Keys && DirsUpTo(STACK_PAGE, ARGS_PAGE) == DirSet(STACK_PAGE, ARGS_PAGE - STACK_PAGE);
    }
  }

  /** Wherever the frames of the argument pages are, the pointers end below the last one's end and above every page
      table. */
  lemma RoomOnStack(was: PageTable, table: PageTable, argv: seq<seq<byte>>, size: nat)
    requires Fits(table, size) && ArgsOnTop(was, table) && ArgsFit(argv)
    ensures Room(table, ARGS_AT, argv, size)
    ensures |argv| <= 1021 ==> TableContiguous(table, ARGS_AT + ARGS_SIZE, 4 * |argv|)
  {
    hide *;
    TableOnStack(was, table, size);
    ArgsMapped(was, table);
    RoomHere(table, argv, size);
  }

  lemma ArgsMapped(was: PageTable, table: PageTable)
    requires ArgsOnTop(was, table)
    ensures AllMapped(table, ARGS_AT, MEM_TASK_ARG_SIZE)
  {
    hide StackPages;
    forall v | ARGS_AT <= v < ARGS_AT + MEM_TASK_ARG_SIZE ensures Mapped(table, v) {
      ArgPages(v);
    }
  }

  lemma RoomHere(table: PageTable, argv: seq<seq<byte>>, size: nat)
    requires Fits(table, size) && AllMapped(table, ARGS_AT, MEM_TASK_ARG_SIZE) && ArgsFit(argv)
    requires ARGS_SIZE <= Paddr(table, ARGS_AT + ARGS_SIZE)
    requires Paddr(table, ARGS_AT + ARGS_SIZE) + 4 * PAGE <= size + ARGS_SIZE
    requires forall d :: d in table.tables ==> (table.tables[d] + 1) * PAGE <= Paddr(table, ARGS_AT + ARGS_SIZE)
    ensures Room(table, ARGS_AT, argv, size)
    ensures |argv| <= 1021 ==> TableContiguous(table, ARGS_AT + ARGS_SIZE, 4 * |argv|)
  {
    hide Strings, Fits, Paddr;
    if |argv| <= 1021 {
      ExecveTableFits(table, ARGS_AT, |argv|);
    }
  }

  /** The table begins in the frame of the first argument page. */
  lemma TableOnStack(was: PageTable, table: PageTable, size: nat)
    requires Fits(table, size) && ArgsOnTop(was, table)
    ensures var p := Paddr(table, ARGS_AT + ARGS_SIZE);
            && ARGS_SIZE <= p && p + 4 * PAGE <= size + ARGS_SIZE
            && (forall d :: d in table.tables ==> (table.tables[d] + 1) * PAGE <= p)
            && (forall q :: q in was.pages ==> q in table.pages && (table.pages[q] + 1) * PAGE <= p)
  {
    hide *;
    TopFits(was, table, size);
    PaddrOnPage(table, ARGS_PAGE, ARGS_SIZE);
    FramesEnd(was, table, table.pages[ARGS_PAGE], Paddr(table, ARGS_PAGE * PAGE + ARGS_SIZE), size);
    ArgsAligned();
  }

  lemma ArgsAligned()
    ensures ARGS_AT == ARGS_PAGE * PAGE
  {
  }

  lemma FramesEnd(was: PageTable, table: PageTable, f: nat, p: nat, size: nat)
    requires p == f * PAGE + ARGS_SIZE && (f + 4) * PAGE <= size
    requires forall d :: d in table.tables ==> table.tables[d] < f
    requires forall q :: q in was.pages ==> q in table.pages && table.pages[q] < f
    ensures ARGS_SIZE <= p && p + 4 * PAGE <= size + ARGS_SIZE
    ensures forall d :: d in table.tables ==> (table.tables[d] + 1) * PAGE <= p
    ensures forall q :: q in was.pages ==> (table.pages[q] + 1) * PAGE <= p
  {
  }

  lemma TopFits(was: PageTable, table: PageTable, size: nat)
    requires Fits(table, size) && ArgsOnTop(was, table)
    ensures ARGS_PAGE in table.pages && (table.pages[ARGS_PAGE] + 4) * PAGE <= size
    ensures forall q :: q in was.pages ==> q in table.pages && table.pages[q] < table.pages[ARGS_PAGE]
    ensures forall d :: d in table.tables ==> table.tables[d] < table.pages[ARGS_PAGE]
    ensures ARGS_SIZE < PAGE
  {
    hide StackPages, Injective;
    ArgPages(ARGS_AT);
    ArgPages(ARGS_AT + 3 * PAGE);
    assert ARGS_PAGE in table.pages.Keys && ARGS_PAGE + 3 in table.pages.Keys;
    assert (table.pages[ARGS_PAGE + 3] + 1) * PAGE <= size;
  }

  lemma PaddrOnPage(table: PageTable, page: nat, k: nat)
    requires page in table.pages && k < PAGE
    ensures Paddr(table, page * PAGE + k) == table.pages[page] * PAGE + k
  {
    assert (page * PAGE + k) / PAGE == page;
  }

  /** Writing the arguments leaves every page that was there before the stack as it was. */
  lemma OldPagesKept(m: seq<byte>, was: PageTable, table: PageTable, argv: seq<seq<byte>>, retAddr: seq<byte>, v: nat)
    requires Fits(table, |m|) && ArgsOnTop(was, table) && ArgsFit(argv) && |retAddr| == 4 && v / PAGE in was.pages
    ensures Room(table, ARGS_AT, argv, |m|)
    ensures Byte(ArgsCopied(m, table, ARGS_AT, argv, retAddr), table, v) == Byte(m, table, v)
  {
    hide *;
    RoomOnStack(was, table, argv, |m|);
    OldPageBelow(was, table, |m|, v, argv);
    ChangedByCopyArgs(m, table, ARGS_AT, argv, retAddr, Paddr(table, v));
    ByteIs(m, table, v);
    ByteIs(ArgsCopied(m, table, ARGS_AT, argv, retAddr), table, v);
  }

  lemma ByteIs(m: seq<byte>, table: PageTable, v: nat)
    requires Mapped(table, v) && Paddr(table, v) < |m|
    ensures Byte(m, table, v) == m[Paddr(table, v)]
  {
  }

  lemma OldPageBelow(was: PageTable, table: PageTable, size: nat, v: nat, argv: seq<seq<byte>>)
    requires Fits(table, size) && ArgsOnTop(was, table) && v / PAGE in was.pages && ArgsFit(argv)
    ensures Mapped(table, v) && Paddr(table, v) < size && Paddr(table, v) < Paddr(table, ARGS_AT + ARGS_SIZE)
    ensures !Behind(table, ARGS_AT, Base(argv) + |Strings(argv)|, Paddr(table, v))
  {
    hide *;
    TableOnStack(was, table, size);
    NotInBlock(was, table, size, v, argv);
    PaddrFits(table, size, v);
    PageEnd(table, v);
  }

  lemma PageEnd(table: PageTable, v: nat)
    requires Mapped(table, v)
    ensures v / PAGE in table.pages && Paddr(table, v) < (table.pages[v / PAGE] + 1) * PAGE
  {
  }

  lemma NotInBlock(was: PageTable, table: PageTable, size: nat, v: nat, argv: seq<seq<byte>>)
    requires Fits(table, size) && ArgsOnTop(was, table) && v / PAGE in was.pages && ArgsFit(argv)
    ensures Mapped(table, v) && !Behind(table, ARGS_AT, Base(argv) + |Strings(argv)|, Paddr(table, v))
  {
    hide Injective, StackPages, Strings;
    var n := Base(argv) + |Strings(argv)|;
    if Behind(table, ARGS_AT, n, Paddr(table, v)) {
      var w := InFront(table, ARGS_AT, n, Paddr(table, v));
      ArgPages(w);
      PaddrInjective(table, v, w);
      assert false;
    }
  }

  ghost predicate SameOnPages(was: seq<byte>, now: seq<byte>, before: PageTable, table: PageTable) {
    forall v: nat {:trigger Byte(now, table, v)} ::
      v / PAGE in before.pages ==> Byte(now, table, v) == Byte(was, table, v)
  }

  /** So every loaded segment stays as it is. */
  lemma SegmentsKept(content: seq<byte>, n: nat, b: Setting, was: seq<byte>, now: seq<byte>, before: PageTable,
                     table: PageTable)
    requires SegmentsIn(content, n, was, before) && Extends(before, table) && SameOnPages(was, now, before, table)
    requires SegmentsOk(content, n, b) && Fitting(content, n) && Loads(content, n, b)
    ensures SegmentsIn(content, n, now, table)
  {
    forall i: nat | i < n ensures SegmentIn(content, i, now, table) {
      LoadsPrefix(content, i, n, b);
      if Accepted(content, i) {
        SegmentKept(content, i, was, now, before, table);
      }
    }
  }

  lemma SegmentKept(content: seq<byte>, i: nat, was: seq<byte>, now: seq<byte>, before: PageTable, table: PageTable)
    requires Accepted(content, i) && SegmentIn(content, i, was, before) && Extends(before, table)
    requires FilePhdr(content, i).p_vaddr % PAGE == 0 && FilePhdr(content, i).p_filesz <= FilePhdr(content, i).p_memsz
    requires SameOnPages(was, now, before, table)
    ensures SegmentIn(content, i, now, table)
  {
    var ph := FilePhdr(content, i);
    hide FilePhdr, Pages, PageSet;
    forall v | ph.p_vaddr <= v < ph.p_vaddr + ph.p_filesz
      ensures Byte(now, table, v) == content[ph.p_offset + (v - ph.p_vaddr)]
    {
      AddressInPages(ph, v);
      assert Byte(was, table, v) == Byte(was, before, v);
    }
  }

  lemma {:induction false} StackNotLoaded(content: seq<byte>, n: nat)
    requires ClearOfStack(content, n)
    ensures PagesBefore(content, n) !! StackPages()
  {
    hide StackPages, SegmentPages;
    if n > 0 {
      forall i: nat | i < n ensures SegmentPages(content, i) !! StackPages() {
        assert Accepted(content, i) || !Accepted(content, i);
      }
      StackNotLoaded(content, n - 1);
    }
  }

  lemma StackFree(content: seq<byte>, b: Setting, n: nat, mem: seq<byte>, table: PageTable, free: seq<nat>)
    requires LoadedUpTo(content, b, n, mem, table, free) && ClearOfStack(content, n)
    requires b.table.pages.Keys !! StackPages()
    ensures table.pages.Keys !! StackPages()
    ensures forall p :: STACK_PAGE <= p < STACK_PAGE + Pages(MEM_TASK_STACK_SIZE) ==> p !in table.pages
    ensures Fitting(content, n) ==> SegmentsIn(content, n, mem, table)
    ensures table.tables.Keys == DirsBefore(content, n, b.table.tables.Keys)
    ensures |free| == b.frames - FramesBefore(content, n, b.table.tables.Keys)
  {
    hide StackPages, PagesBefore, Extends, SegmentsIn, Fitting, ClearOfStack, DirsBefore, FramesBefore;
    StackNotLoaded(content, n);
    StackRange();
  }

  lemma StackRange()
    ensures forall p :: STACK_PAGE <= p < STACK_PAGE + Pages(MEM_TASK_STACK_SIZE) ==> p in StackPages()
  {
  }

  /** The frames for the segments and the stack. */
  ghost function FramesForProgram(content: seq<byte>, b: Setting): nat {
    var n, dirs := PhdrCount(content), b.table.tables.Keys;
    FramesBefore(content, n, dirs) + FramesFor(DirsBefore(content, n, dirs), STACK_PAGE, STACK_PAGES)
  }

  /** In numbers: the stack's 500 pages end at 0xE0000000, all behind directory entry 895, and the argument block is in
      the last four of them. */
  lemma FramesInNumbers(content: seq<byte>, b: Setting)
    ensures FramesForProgram(content, b) ==
            FramesBefore(content, PhdrCount(content), b.table.tables.Keys) + 500 +
            if 895 in DirsBefore(content, PhdrCount(content), b.table.tables.Keys) then 0 else 1
    ensures STACK_BASE == 0xDFE0_C000 && ARGS_AT == 0xDFFF_C000
  {
    StackDirs(STACK_PAGES);
    hide FramesBefore, DirsBefore, DirSet, PhdrCount;
    var dirs := DirsBefore(content, PhdrCount(content), b.table.tables.Keys);
    assert DirSet(STACK_PAGE, STACK_PAGES) == {895};
    if 895 in dirs {
      assert {895} - dirs == {};
    } else {
      assert {895} - dirs == {895};
    }
  }

  /** What the new program finds.  The strings are sure to arrive if their pointers are in one page, or in pages with
      neighbouring frames. */
  ghost predicate ProgramReady(content: seq<byte>, mem: seq<byte>, table: PageTable, argv: seq<seq<byte>>) {
    && (Fitting(content, PhdrCount(content)) ==> SegmentsIn(content, PhdrCount(content), mem, table))
    && Argc(mem, table, ARGS_AT) == |argv|
    && (|argv| <= 1021 || TableContiguous(table, ARGS_AT + ARGS_SIZE, 4 * |argv|) ==>
          forall i :: 0 <= i < |argv| ==> Argv(mem, table, ARGS_AT, i) == argv[i])
  }

  lemma ProgramIsReady(content: seq<byte>, b: Setting, was: seq<byte>, before: PageTable, table: PageTable,
                       argv: seq<seq<byte>>, retAddr: seq<byte>)
    requires Fits(table, |was|) && ArgsOnTop(before, table)
    requires ArgsFit(argv) && AreTexts(argv) && |retAddr| == 4
    requires SegmentsOk(content, PhdrCount(content), b) && Loads(content, PhdrCount(content), b)
    requires Fitting(content, PhdrCount(content)) ==> SegmentsIn(content, PhdrCount(content), was, before)
    ensures Room(table, ARGS_AT, argv, |was|)
    ensures ProgramReady(content, ArgsCopied(was, table, ARGS_AT, argv, retAddr), table, argv)
  {
    RoomOnStack(before, table, argv, |was|);
    OnTopExtends(before, table);
    hide Room, ArgsOnTop, Fits, ArgsFit, Argc, Argv, ArgsCopied, SegmentsIn, TableContiguous, Fitting, AreTexts, Paddr;
    var now, n := ArgsCopied(was, table, ARGS_AT, argv, retAddr), PhdrCount(content);
    HeaderCopied(was, table, ARGS_AT, argv, retAddr);
    if |argv| <= 1021 || TableContiguous(table, ARGS_AT + ARGS_SIZE, 4 * |argv|) {
      CopiedReadsBack(was, table, ARGS_AT, argv, retAddr);
    }
    if Fitting(content, n) {
      forall v: nat | v / PAGE in before.pages ensures Byte(now, table, v) == Byte(was, table, v) {
        OldPagesKept(was, before, table, argv, retAddr, v);
      }
      SegmentsKept(content, n, b, was, now, before, table);
    }
  }

  lemma OnTopExtends(was: PageTable, table: PageTable)
    requires ArgsOnTop(was, table)
    ensures Extends(was, table)
  {
  }

  /** The stack's pages and the arguments, behind the segments already loaded. */
  method MakeStack(space: AddressSpace, mem: array<byte>, argv: seq<seq<byte>>, retAddr: seq<byte>,
                   ghost content: seq<byte>, ghost b: Setting) returns (err: int)
    requires space.Valid(mem.Length) && Ascending(space.free, space.table) && b.table.pages.Keys !! StackPages()
    requires LoadedUpTo(content, b, PhdrCount(content), mem[..], space.table, space.free)
    requires Loads(content, PhdrCount(content), b) && SegmentsOk(content, PhdrCount(content), b)
    requires ClearOfStack(content, PhdrCount(content))
    requires ArgsFit(argv) && AreTexts(argv) && |retAddr| == 4
    modifies space, mem
    ensures err == 0 || err == -1
    ensures err == 0 <==> FramesForProgram(content, b) <= b.frames
    ensures err == 0 ==> ProgramReady(content, mem[..], space.table, argv)
  {
    hide *;
    StackFree(content, b, PhdrCount(content), mem[..], space.table, space.free);
    ghost var loaded, frames, was := space.table, space.free, mem[..];
    StackAligned(content, b);
    err := space.Alloc(STACK_BASE, MEM_TASK_STACK_SIZE, mem.Length);
    if err < 0 {
      return -1;
    }
    ArgsFramesOnTop(loaded, frames, space.table, space.free);
    SpaceFits(space, mem.Length);
    ProgramIsReady(content, b, was, loaded, space.table, argv, retAddr);
    err := CopyArgs(mem, space.table, ARGS_AT, argv, retAddr);
  }

  lemma StackAligned(content: seq<byte>, b: Setting)
    ensures STACK_BASE % PAGE == 0 && MEM_TASK_STACK_SIZE + PAGE <= UINT32
    ensures Pages(MEM_TASK_STACK_SIZE) == STACK_PAGES && STACK_BASE / PAGE == STACK_PAGE
    ensures FramesForProgram(content, b) ==
            FramesBefore(content, PhdrCount(content), b.table.tables.Keys) +
            FramesFor(DirsBefore(content, PhdrCount(content), b.table.tables.Keys), STACK_PAGE, STACK_PAGES)
  {
  }

  lemma SpaceFits(space: AddressSpace, size: nat)
    requires space.Valid(size)
    ensures Fits(space.table, size)
  {
  }

  /** sys_execve from the loading of the file to the arguments: it succeeds exactly if the file loads and the frames
      suffice for the segments, the stack and their page tables; then the program finds its segments, argc and its
      arguments. */
  method Execve(file: File, space: AddressSpace, mem: array<byte>, heap: TaskHeap, argv: seq<seq<byte>>,
                retAddr: seq<byte>, ghost b: Setting) returns (err: int, entry: nat)
    requires space.Valid(mem.Length) && b == Setting(space.table, |space.free|, file.seekable)
    requires Ascending(space.free, space.table) && space.table.pages.Keys !! StackPages()
    requires file.present && HeaderOk(file.content) ==> SegmentsOk(file.content, PhdrCount(file.content), b)
    requires FileLoads(file, b) ==> ClearOfStack(file.content, PhdrCount(file.content))
    requires ArgsFit(argv) && AreTexts(argv) && |retAddr| == 4
    modifies file, space, mem, heap
    ensures err == 0 || err == -1
    ensures err == 0 <==> FileLoads(file, b) && FramesForProgram(file.content, b) <= b.frames
    ensures err == 0 ==>
              && HeaderOk(file.content) && entry == EhdrAt(file.content, 0).e_entry != 0
              && ProgramReady(file.content, mem[..], space.table, argv)
    ensures file.closes - old(file.closes) == file.opens - old(file.opens)
  {
    hide *;
    entry := LoadElfFile(file, space, mem, heap, b);
    if entry == 0 {
      return -1, 0;
    }
    FileLoaded(file, b);
    err := MakeStack(space, mem, argv, retAddr, file.content, b);
  }

  lemma FileLoaded(file: File, b: Setting)
    requires FileLoads(file, b)
    ensures file.present && HeaderOk(file.content) && Loads(file.content, PhdrCount(file.content), b)
    ensures |file.content| >= EHDR_SIZE && PhdrCount(file.content) == EhdrAt(file.content, 0).e_phnum
  {
  }

  // ---------- an argument vector that does not arrive ----------

  /** The frames of a stack whose allocation found one frame taken between those of the first two argument pages. */
  function GapFrame(page: nat): nat
    requires STACK_PAGE <= page
  {
    if page == STACK_PAGE then 1 else if page <= ARGS_PAGE then page - STACK_PAGE + 2 else page - STACK_PAGE + 3
  }

  ghost function GapTable(): PageTable {
    PageTable(map p: nat | STACK_PAGE <= p < STACK_PAGE + STACK_PAGES :: GapFrame(p), map[DirOf(ARGS_PAGE) := 2])
  }

  lemma GapFits()
    ensures Fits(GapTable(), 600 * PAGE)
  {
    var t := GapTable();
    assert forall p :: p in t.pages ==> DirOf(p) == DirOf(ARGS_PAGE);
    hide DirOf;
    assert forall p :: p in t.pages ==> t.pages[p] != 2 && 0 < t.pages[p] < 503;
  }

  lemma GapOnTop()
    ensures ArgsOnTop(PageTable(map[], map[]), GapTable())
    ensures ARGS_PAGE in GapTable().pages && GapTable().pages[ARGS_PAGE] == 498
    ensures ARGS_PAGE + 1 in GapTable().pages && GapTable().pages[ARGS_PAGE + 1] == 500
  {
    hide DirOf;
  }

  lemma GapPlaces()
    ensures Paddr(GapTable(), ARGS_AT + ARGS_SIZE) == 498 * PAGE + ARGS_SIZE
    ensures WordAt(ARGS_AT, 1021) == (ARGS_PAGE + 1) * PAGE
    ensures Paddr(GapTable(), WordAt(ARGS_AT, 1021)) == 500 * PAGE
  {
    GapOnTop();
    ArgsAligned();
    hide GapTable, ArgsOnTop;
    PaddrOnPage(GapTable(), ARGS_PAGE, ARGS_SIZE);
    PaddrOnPage(GapTable(), ARGS_PAGE + 1, 0);
    hide Paddr;
    assert WordAt(ARGS_AT, 1021) == (ARGS_PAGE + 1) * PAGE;
  }

  lemma NoHit()
    ensures forall k: nat :: k < 1022 ==> !Hits(GapTable(), ARGS_AT, k, 1021)
  {
    GapPlaces();
    hide Paddr, GapTable;
  }

  /** 1022 arguments on that stack, in memory that was zero: the last pointer is null. */
  lemma LastPointerMissing(retAddr: seq<byte>)
    requires |retAddr| == 4
    ensures var argv, zeros, t := EmptyArgs(1022), Zeros(600 * PAGE), GapTable();
            && ArgsFit(argv) && Room(t, ARGS_AT, argv, |zeros|)
            && VWord(ArgsCopied(zeros, t, ARGS_AT, argv, retAddr), t, WordAt(ARGS_AT, 1021)) == 0
            && !PointerRight(zeros, t, ARGS_AT, argv, retAddr, 1021)
  {
    hide *;
    GapFits();
    GapOnTop();
    NoHit();
    ManyArgsFit();
    RoomOnStack(PageTable(map[], map[]), GapTable(), EmptyArgs(1022), 600 * PAGE);
    ZeroWord(GapTable(), 600 * PAGE, WordAt(ARGS_AT, 1021));
    TableWord(Zeros(600 * PAGE), GapTable(), ARGS_AT, EmptyArgs(1022), retAddr, 1021);
    MisplacedPointer(Zeros(600 * PAGE), GapTable(), ARGS_AT, EmptyArgs(1022), retAddr, 1021);
  }

  lemma ManyArgsFit()
    ensures ArgsFit(EmptyArgs(1022)) && ARGS_AT % 4 == 0
  {
    EmptyStrings(1022);
    hide Strings;
  }
}
