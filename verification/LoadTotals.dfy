/** What the loading of a whole file amounts to, header by header: which headers decide it, which pages and page tables
    it brings, how many frames it takes, and where the heap begins. */
module LoadTotals {
  import opened Elf
  import opened Paging
  import opened ProgramLoad

  /** A range of bytes takes the least number of pages that holds it. */
  lemma PagesHold(bytes: nat)
    ensures PAGE * Pages(bytes) >= bytes
    ensures bytes > 0 ==> PAGE * (Pages(bytes) - 1) < bytes
    ensures Pages(0) == 0
  {
  }

  /** The first n headers load exactly if each of them can be read, each accepted one has its bytes in the file, and the
      frames suffice for all of them together. */
  lemma {:induction false} LoadsIff(content: seq<byte>, n: nat, b: Setting)
    ensures Loads(content, n, b) <==>
            && (n > 0 ==> b.seekable)
            && (forall i: nat {:trigger PhdrReadable(content, i)} :: i < n ==> PhdrReadable(content, i))
            && (forall i: nat {:trigger Accepted(content, i)} :: i < n && Accepted(content, i) ==>
                  SegmentReadable(content, FilePhdr(content, i)))
            && FramesBefore(content, n, b.table.tables.Keys) <= b.frames
  {
    hide PhdrReadable, Accepted, FilePhdr, SegmentReadable, SegmentFrames, DirsBefore;
    if n > 0 {
      LoadsIff(content, n - 1, b);
    }
  }

  /** A page is mapped for the file exactly if an accepted header asks for it. */
  lemma {:induction false} PagesAskedFor(content: seq<byte>, n: nat, p: nat)
    ensures p in PagesBefore(content, n) <==>
            exists i: nat {:trigger Accepted(content, i)} ::
              && i < n && Accepted(content, i)
              && var ph := FilePhdr(content, i); ph.p_vaddr / PAGE <= p < ph.p_vaddr / PAGE + Pages(ph.p_memsz)
  {
    hide Accepted, FilePhdr, Pages;
    if n > 0 {
      PagesAskedFor(content, n - 1, p);
    }
  }

  lemma {:induction false} DirSetIs(first: nat, count: nat, d: nat)
    ensures d in DirSet(first, count) <==> exists p {:trigger DirOf(p)} :: p in PageSet(first, count) && DirOf(p) == d
  {
    hide DirOf;
    if count > 0 {
      DirSetIs(first, count - 1, d);
      assert PageSet(first, count) == PageSet(first, count - 1) + {first + count - 1};
    }
  }

  /** What header i brings is a range of pages, empty if it is not accepted. */
  lemma SegmentRange(content: seq<byte>, i: nat, dirs: set<nat>) returns (first: nat, count: nat)
    ensures SegmentPages(content, i) == PageSet(first, count) && SegmentDirs(content, i) == DirSet(first, count)
    ensures SegmentFrames(content, dirs, i) == FramesFor(dirs, first, count)
  {
    first, count := 0, 0;
    NoFrames(dirs, 0);
    if Accepted(content, i) {
      hide FilePhdr, Pages, PageSet, DirSet, FramesFor, PhdrReadable;
      var ph := FilePhdr(content, i);
      first, count := ph.p_vaddr / PAGE, Pages(ph.p_memsz);
      SegmentRanges(content, i, dirs);
    }
  }

  /** There is a page table exactly where there was one and for the pages that are mapped. */
  lemma {:induction false} TablesAskedFor(content: seq<byte>, n: nat, dirs: set<nat>, d: nat)
    ensures d in DirsBefore(content, n, dirs) <==>
            d in dirs || exists p {:trigger DirOf(p)} :: p in PagesBefore(content, n) && DirOf(p) == d
  {
    hide DirOf, DirSet, PageSet, SegmentPages, SegmentDirs;
    if n > 0 {
      TablesAskedFor(content, n - 1, dirs, d);
      var first, count := SegmentRange(content, n - 1, dirs);
      DirSetIs(first, count, d);
      assert PagesBefore(content, n) == PagesBefore(content, n - 1) + PageSet(first, count);
    }
  }

  lemma {:induction false} PageSetSize(first: nat, count: nat)
    ensures |PageSet(first, count)| == count
  {
    if count > 0 {
      PageSetSize(first, count - 1);
    }
  }

  lemma {:induction false} DirsGrow(content: seq<byte>, n: nat, dirs: set<nat>)
    ensures dirs <= DirsBefore(content, n, dirs)
  {
    if n > 0 {
      DirsGrow(content, n - 1, dirs);
    }
  }

  /** The segments share no page. */
  ghost predicate PagesApart(content: seq<byte>, n: nat) {
    forall i: nat {:trigger Accepted(content, i)} :: i < n && Accepted(content, i) ==>
      SegmentPages(content, i) !! PagesBefore(content, i)
  }

  /** The sets and the count behind one more header. */
  lemma BeforeNext(content: seq<byte>, n: nat, dirs: set<nat>)
    requires n > 0
    ensures PagesBefore(content, n) == PagesBefore(content, n - 1) + SegmentPages(content, n - 1)
    ensures DirsBefore(content, n, dirs) == DirsBefore(content, n - 1, dirs) + SegmentDirs(content, n - 1)
    ensures FramesBefore(content, n, dirs) ==
            FramesBefore(content, n - 1, dirs) + SegmentFrames(content, DirsBefore(content, n - 1, dirs), n - 1)
  {
    hide SegmentPages, SegmentDirs, SegmentFrames;
  }

  lemma SegmentCounted(content: seq<byte>, i: nat, dirs: set<nat>)
    ensures SegmentFrames(content, dirs, i) == |SegmentPages(content, i)| + |SegmentDirs(content, i) - dirs|
  {
    hide *;
    var first, count := SegmentRange(content, i, dirs);
    PageSetSize(first, count);
    RangeFrames(dirs, first, count);
  }

  lemma RangeFrames(dirs: set<nat>, first: nat, count: nat)
    ensures FramesFor(dirs, first, count) == count + |DirSet(first, count) - dirs|
  {
    hide DirSet;
  }

  /** Loading takes one frame for each page that is mapped and one for each page table that is new, no more. */
  lemma {:induction false} FramesCounted(content: seq<byte>, n: nat, dirs: set<nat>)
    requires PagesApart(content, n)
    ensures FramesBefore(content, n, dirs) == |PagesBefore(content, n)| + |DirsBefore(content, n, dirs) - dirs|
  {
    hide *;
    if n == 0 {
      NothingCounted(content, dirs);
    } else {
      ApartBelow(content, n);
      FramesCounted(content, n - 1, dirs);
      DirsGrow(content, n - 1, dirs);
      BeforeNext(content, n, dirs);
      SegmentCounted(content, n - 1, DirsBefore(content, n - 1, dirs));
      Summed(PagesBefore(content, n - 1), SegmentPages(content, n - 1), dirs, DirsBefore(content, n - 1, dirs),
             SegmentDirs(content, n - 1));
    }
  }

  lemma NothingCounted(content: seq<byte>, dirs: set<nat>)
    ensures FramesBefore(content, 0, dirs) == |PagesBefore(content, 0)| + |DirsBefore(content, 0, dirs) - dirs|
  {
    assert dirs - dirs == {};
  }

  lemma Summed(pages: set<nat>, more: set<nat>, dirs: set<nat>, had: set<nat>, added: set<nat>)
    requires pages !! more && dirs <= had
    ensures |pages + more| == |pages| + |more|
    ensures |had + added - dirs| == |had - dirs| + |added - had|
  {
    assert had + added - dirs == (had - dirs) + (added - had);
  }

  lemma ApartBelow(content: seq<byte>, n: nat)
    requires PagesApart(content, n) && n > 0
    ensures PagesApart(content, n - 1) && SegmentPages(content, n - 1) !! PagesBefore(content, n - 1)
  {
    hide Accepted, FilePhdr, PagesBefore;
    if Accepted(content, n - 1) {}
  }

  /** The heap begins at the end of the last accepted segment, in 32 bits, whatever its address; with none it stays. */
  lemma {:induction false} HeapIsLastEnd(content: seq<byte>, n: nat, none: nat, i: nat)
    requires forall j: nat {:trigger Accepted(content, j)} :: i < j < n ==> !Accepted(content, j)
    ensures i < n && Accepted(content, i) ==>
              var ph := FilePhdr(content, i); HeapAfter(content, n, none) == (ph.p_vaddr + ph.p_memsz) % 0x1_0000_0000
    ensures i == 0 && (n > 0 ==> !Accepted(content, 0)) ==> HeapAfter(content, n, none) == none
  {
    hide Accepted, FilePhdr;
    if n > 0 && i < n - 1 {
      HeapIsLastEnd(content, n - 1, none, i);
    }
  }

  /** The positions load_elf_file seeks to: e_phentsize apart, in 32 bits. */
  lemma PositionIs(content: seq<byte>, i: nat)
    requires |content| >= EHDR_SIZE
    ensures PhdrPos(content, i) == (EhdrAt(content, 0).e_phoff + i * EhdrAt(content, 0).e_phentsize) % 0x1_0000_0000
  {
    hide EhdrAt;
  }
}
