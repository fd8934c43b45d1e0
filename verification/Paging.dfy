/** Address spaces: a page table over physical memory, and the copying done through it by
    memory_get_paddr and memory_copy_uvm_data of source/kernel/core/memory.c. */
module Paging {
  import opened Elf

  const PAGE: nat := 4096
  const PTE_CNT: nat := 1024
  const UINT32: nat := 0x1_0000_0000

  /** Both levels: the frame of each page that is present, and the frame of the page table behind each
      directory entry that is present. */
  datatype PageTable = PageTable(pages: map<nat, nat>, tables: map<nat, nat>)

  /** pde_index of an address in the given page */
  function DirOf(page: nat): nat { page / PTE_CNT }

  /** No frame is used twice, neither for two pages nor for a page and a page table. */
  ghost predicate Injective(table: PageTable) {
    && (forall p, q :: p in table.pages && q in table.pages && p != q ==> table.pages[p] != table.pages[q])
    && (forall d, e :: d in table.tables && e in table.tables && d != e ==> table.tables[d] != table.tables[e])
    && (forall p, d :: p in table.pages && d in table.tables ==> table.pages[p] != table.tables[d])
  }

  /** A page is entered in a page table, and the frames exist in a physical memory of the given size.
      Frame 0 is never given out. */
  ghost predicate Fits(table: PageTable, size: nat) {
    && Injective(table) && PAGE <= size
    && (forall p :: p in table.pages ==> DirOf(p) in table.tables)
    && (forall p :: p in table.pages ==> 0 < table.pages[p] && (table.pages[p] + 1) * PAGE <= size)
    && (forall d :: d in table.tables ==> 0 < table.tables[d] && (table.tables[d] + 1) * PAGE <= size)
  }

  predicate Mapped(table: PageTable, v: nat) { v / PAGE in table.pages }

  ghost predicate AllMapped(table: PageTable, v: nat, n: nat) {
    forall w :: v <= w < v + n ==> Mapped(table, w)
  }

  /** memory_get_paddr: 0 without a page table; with one, an absent page's entry is still read, as frame 0. */
  function Paddr(table: PageTable, v: nat): nat {
    if v / PAGE in table.pages then table.pages[v / PAGE] * PAGE + v % PAGE
    else if DirOf(v / PAGE) in table.tables then v % PAGE
    else 0
  }

  lemma PaddrFits(table: PageTable, size: nat, v: nat)
    requires Fits(table, size) && Mapped(table, v)
    ensures 0 < Paddr(table, v) < size
    ensures Paddr(table, v) % PAGE == v % PAGE
    ensures Paddr(table, v) - v % PAGE + PAGE <= size
    ensures PAGE <= Paddr(table, v)
  {
    var f := table.pages[v / PAGE];
    assert f >= 1;
  }

  /** Within a page, neighbours stay neighbours. */
  lemma PaddrInPage(table: PageTable, v: nat, k: nat)
    requires Mapped(table, v) && v % PAGE + k < PAGE
    ensures Mapped(table, v + k) && Paddr(table, v + k) == Paddr(table, v) + k
  {
    assert (v + k) / PAGE == v / PAGE;
  }

  /** Only the page itself has its frame. */
  lemma PaddrInRange(table: PageTable, to: nat, n: nat, v: nat)
    requires Injective(table) && Mapped(table, to) && Mapped(table, v) && to % PAGE + n <= PAGE
    requires Paddr(table, to) <= Paddr(table, v) < Paddr(table, to) + n
    ensures to <= v < to + n
  {
    var f, g := table.pages[v / PAGE], table.pages[to / PAGE];
    assert Paddr(table, v) / PAGE == f && Paddr(table, to) / PAGE == g;
    assert f == g;
    assert v / PAGE == to / PAGE;
  }

  lemma PaddrInjective(table: PageTable, v: nat, w: nat)
    requires Injective(table) && Mapped(table, v) && Mapped(table, w) && Paddr(table, v) == Paddr(table, w)
    ensures v == w
  {
    var f, g := table.pages[v / PAGE], table.pages[w / PAGE];
    assert Paddr(table, v) / PAGE == f && Paddr(table, w) / PAGE == g;
    assert v / PAGE == w / PAGE;
  }

  /** The byte a program sees at virtual address v, if it sees one. */
  function Byte(mem: seq<byte>, table: PageTable, v: nat): byte {
    if Mapped(table, v) && Paddr(table, v) < |mem| then mem[Paddr(table, v)] else 0
  }

  /** now is was with the bytes of data put at the virtual addresses from `to` on: every other mapped
      address, and every physical byte behind none of these addresses, is as it was. */
  ghost predicate Put(was: seq<byte>, now: seq<byte>, table: PageTable, to: nat, data: seq<byte>) {
    && |now| == |was|
    && (forall v {:trigger Byte(now, table, v)} :: 0 <= v && Mapped(table, v) ==>
          Byte(now, table, v) == if to <= v < to + |data| then data[v - to] else Byte(was, table, v))
    && (forall a :: 0 <= a < |was| && now[a] != was[a] ==> Behind(table, to, |data|, a))
  }

  /** Physical address a lies behind one of the n virtual addresses from `to` on. */
  ghost predicate Behind(table: PageTable, to: nat, n: nat, a: nat) {
    exists v {:trigger Paddr(table, v)} :: to <= v < to + n && Mapped(table, v) && Paddr(table, v) == a
  }

  lemma PutNothing(was: seq<byte>, table: PageTable, to: nat)
    ensures Put(was, was, table, to, [])
  {
  }

  /** One piece of at most a page, copied with a single kernel_memcpy. */
  lemma PutPiece(was: seq<byte>, now: seq<byte>, table: PageTable, to: nat, data: seq<byte>)
    requires Fits(table, |was|) && Mapped(table, to) && to % PAGE + |data| <= PAGE && |now| == |was|
    requires Paddr(table, to) + |data| <= |was|
    requires forall a :: 0 <= a < |was| ==>
               now[a] == if Paddr(table, to) <= a < Paddr(table, to) + |data| then data[a - Paddr(table, to)]
                         else was[a]
    ensures Put(was, now, table, to, data)
  {
    var p := Paddr(table, to);
    forall v: nat | Mapped(table, v)
      ensures Byte(now, table, v) == if to <= v < to + |data| then data[v - to] else Byte(was, table, v)
    {
      PaddrFits(table, |was|, v);
      if to <= v < to + |data| {
        PaddrInPage(table, to, v - to);
      } else if p <= Paddr(table, v) < p + |data| {
        PaddrInRange(table, to, |data|, v);
      }
    }
    forall a | 0 <= a < |was| && now[a] != was[a] ensures Behind(table, to, |data|, a) {
      PaddrInPage(table, to, a - p);
    }
  }

  lemma PutTwice(was: seq<byte>, mid: seq<byte>, now: seq<byte>, table: PageTable, to: nat, a: seq<byte>, b: seq<byte>)
    requires Put(was, mid, table, to, a) && Put(mid, now, table, to + |a|, b)
    ensures Put(was, now, table, to, a + b)
  {
    forall v: nat | Mapped(table, v)
      ensures Byte(now, table, v) ==
                if to <= v < to + |a + b| then (a + b)[v - to] else Byte(was, table, v)
    {
      assert Byte(mid, table, v) == if to <= v < to + |a| then a[v - to] else Byte(was, table, v);
    }
    forall p | 0 <= p < |was| && now[p] != was[p] ensures Behind(table, to, |a + b|, p) {
      if mid[p] != was[p] {
        assert Behind(table, to, |a|, p);
      } else {
        assert Behind(table, to + |a|, |b|, p);
      }
    }
  }

  /** kernel_memcpy of one piece. */
  method CopyIn(mem: array<byte>, to: nat, data: seq<byte>)
    requires to + |data| <= mem.Length
    modifies mem
    ensures forall a :: 0 <= a < mem.Length ==> mem[a] == if to <= a < to + |data| then data[a - to] else old(mem[a])
  {
    for i := 0 to |data|
      invariant forall a :: 0 <= a < mem.Length ==> mem[a] == if to <= a < to + i then data[a - to] else old(mem[a])
    {
      mem[to + i] := data[i];
    }
  }

  /** The address in front of physical address a. */
  ghost function InFront(table: PageTable, to: nat, n: nat, a: nat): (v: nat)
    requires Behind(table, to, n, a)
    ensures to <= v < to + n && Mapped(table, v) && Paddr(table, v) == a
  {
    var v: nat :| to <= v < to + n && Mapped(table, v) && Paddr(table, v) == a;
    v
  }

  /** The memory that Put describes. */
  ghost function Written(m: seq<byte>, table: PageTable, to: nat, data: seq<byte>): (r: seq<byte>)
    ensures |r| == |m|
    ensures forall a :: 0 <= a < |m| ==>
              r[a] == if Behind(table, to, |data|, a) then data[InFront(table, to, |data|, a) - to] else m[a]
  {
    seq(|m|, a requires 0 <= a < |m| =>
      if Behind(table, to, |data|, a) then data[InFront(table, to, |data|, a) - to] else m[a])
  }

  /** There is only one. */
  lemma PutIsWritten(was: seq<byte>, now: seq<byte>, table: PageTable, to: nat, data: seq<byte>)
    requires Put(was, now, table, to, data)
    ensures now == Written(was, table, to, data)
  {
    var w := Written(was, table, to, data);
    forall a | 0 <= a < |was| ensures now[a] == w[a] {
      if Behind(table, to, |data|, a) {
        var v := InFront(table, to, |data|, a);
        assert Byte(now, table, v) == data[v - to];
      }
    }
  }

  lemma WrittenPut(was: seq<byte>, table: PageTable, to: nat, data: seq<byte>)
    requires Fits(table, |was|)
    ensures Put(was, Written(was, table, to, data), table, to, data)
  {
    var w := Written(was, table, to, data);
    forall v: nat | Mapped(table, v)
      ensures Byte(w, table, v) == if to <= v < to + |data| then data[v - to] else Byte(was, table, v)
    {
      PaddrFits(table, |was|, v);
      var a := Paddr(table, v);
      if Behind(table, to, |data|, a) {
        PaddrInjective(table, v, InFront(table, to, |data|, a));
      }
    }
  }

  /** Writing through the page map never hits a page table. */
  lemma TablesSpared(was: seq<byte>, now: seq<byte>, table: PageTable, to: nat, data: seq<byte>, d: nat, a: nat)
    requires Fits(table, |was|) && Put(was, now, table, to, data) && d in table.tables
    requires table.tables[d] * PAGE <= a < (table.tables[d] + 1) * PAGE
    ensures a < |was| && now[a] == was[a]
  {
    forall v: nat | Mapped(table, v) ensures Paddr(table, v) != a {
      assert Paddr(table, v) / PAGE == table.pages[v / PAGE];
    }
    assert !Behind(table, to, |data|, a);
  }

  /** Where the page table has the entry for the page of v. */
  function EntryAt(table: PageTable, v: nat): nat
    requires DirOf(v / PAGE) in table.tables
  {
    table.tables[DirOf(v / PAGE)] * PAGE + 4 * (v / PAGE % PTE_CNT)
  }

  /** The n bytes of physical memory from p on are in no page table's frame. */
  ghost predicate ClearOfTables(table: PageTable, p: nat, n: nat) {
    forall d :: d in table.tables && n > 0 ==> p + n <= table.tables[d] * PAGE || (table.tables[d] + 1) * PAGE <= p
  }

  /** Then a write there leaves every mapping alone. */
  lemma EntrySpared(table: PageTable, p: nat, n: nat, v: nat)
    requires ClearOfTables(table, p, n) && n > 0 && DirOf(v / PAGE) in table.tables
    ensures p + n <= EntryAt(table, v) || EntryAt(table, v) + 4 <= p
  {
    var f := table.tables[DirOf(v / PAGE)];
    assert f * PAGE <= EntryAt(table, v) && EntryAt(table, v) + 4 <= (f + 1) * PAGE;
  }

  // ---------- memory_copy_uvm_data ----------

  /** memory_get_paddr gives an address for each of the n addresses from `to` on. */
  ghost predicate Answered(table: PageTable, to: nat, n: nat) {
    forall w :: to <= w < to + n ==> Paddr(table, w) != 0
  }

  /** How many of n bytes at `to` lie in the page of `to`. */
  function InPage(to: nat, n: nat): (r: nat)
    ensures r <= n && (n > 0 ==> r > 0)
  {
    if PAGE - to % PAGE > n then n else PAGE - to % PAGE
  }

  predicate PageAligned(v: nat) { v % PAGE == 0 }

  function Overwritten(m: seq<byte>, at: nat, data: seq<byte>): (r: seq<byte>)
    requires at + |data| <= |m|
    ensures |r| == |m|
    ensures forall a :: 0 <= a < |m| ==> r[a] == if at <= a < at + |data| then data[a - at] else m[a]
  {
    m[..at] + data + m[at + |data|..]
  }

  /** What a successful copy leaves.  If the first page is absent under a present page table, its part of
      the data has gone to the bottom of physical memory instead. */
  ghost predicate CopiedOut(was: seq<byte>, now: seq<byte>, table: PageTable, to: nat, data: seq<byte>)
    requires PAGE <= |was|
  {
    if data == [] || Mapped(table, to) then Put(was, now, table, to, data)
    else
      var n := InPage(to, |data|);
      Put(Overwritten(was, to % PAGE, data[..n]), now, table, to + n, data[n..])
  }

  /** One address of a page answers for the rest of the page. */
  lemma PageAnswered(table: PageTable, size: nat, to: nat, n: nat)
    requires Fits(table, size) && Paddr(table, to) != 0 && to % PAGE + n <= PAGE
    ensures Answered(table, to, n)
    ensures Mapped(table, to) ==> AllMapped(table, to, n)
  {
    forall w | to <= w < to + n ensures Paddr(table, w) != 0 && (Mapped(table, to) ==> Mapped(table, w)) {
      assert w / PAGE == to / PAGE && w % PAGE >= to % PAGE;
      if Mapped(table, w) {
        PaddrFits(table, size, w);
      }
    }
  }

  /** A page's first address answers only for a page that is there. */
  lemma AlignedAnswers(table: PageTable, v: nat)
    requires Paddr(table, v) != 0 && PageAligned(v)
    ensures Mapped(table, v)
  {
  }

  lemma CopiedMore(was: seq<byte>, mid: seq<byte>, now: seq<byte>, table: PageTable, to: nat, data: seq<byte>,
                   done: nat, n: nat)
    requires PAGE <= |was| && 0 < done && done + n <= |data| && PageAligned(to + done)
    requires CopiedOut(was, mid, table, to, data[..done])
    requires |mid| == |was| && Mapped(table, to + done)
    requires CopiedOut(mid, now, table, to + done, data[done..done + n])
    ensures CopiedOut(was, now, table, to, data[..done + n])
  {
    hide Put;
    var a, b := data[..done], data[done..done + n];
    assert a + b == data[..done + n];
    if Mapped(table, to) {
      PutTwice(was, mid, now, table, to, a, b);
    } else {
      var k := InPage(to, done);
      assert k == PAGE - to % PAGE == InPage(to, done + n);
      assert data[..done + n][..k] == a[..k] && data[..done + n][k..] == a[k..] + b;
      PutTwice(Overwritten(was, to % PAGE, a[..k]), mid, now, table, to + k, a[k..], b);
    }
  }

  /** As much of data as fits in the page of address curr. */
  method CopyPiece(mem: array<byte>, table: PageTable, curr: nat, data: seq<byte>) returns (currSize: nat)
    requires Fits(table, mem.Length) && Paddr(table, curr) != 0 && data != []
    modifies mem
    ensures currSize == InPage(curr, |data|)
    ensures CopiedOut(old(mem[..]), mem[..], table, curr, data[..currSize])
  {
    hide Put;
    var toPaddr := Paddr(table, curr);
    OffsetKept(table, mem.Length, curr);
    var offsetInPage := toPaddr % PAGE;
    currSize := PAGE - offsetInPage;
    if currSize > |data| {
      currSize := |data|;
    }
    ghost var was := mem[..];
    CopyIn(mem, toPaddr, data[..currSize]);
    if Mapped(table, curr) {
      PutPiece(was, mem[..], table, curr, data[..currSize]);
    } else {
      StrayPiece(was, mem[..], table, curr, data[..currSize]);
    }
  }

  lemma OffsetKept(table: PageTable, size: nat, v: nat)
    requires Fits(table, size) && Paddr(table, v) != 0
    ensures Paddr(table, v) % PAGE == v % PAGE && Paddr(table, v) - v % PAGE + PAGE <= size
    ensures !Mapped(table, v) ==> Paddr(table, v) == v % PAGE
  {
    if Mapped(table, v) {
      PaddrFits(table, size, v);
    }
  }

  lemma StrayPiece(was: seq<byte>, now: seq<byte>, table: PageTable, to: nat, data: seq<byte>)
    requires PAGE <= |was| == |now| && !Mapped(table, to) && data != [] && to % PAGE + |data| <= PAGE
    requires forall a :: 0 <= a < |was| ==>
               now[a] == if to % PAGE <= a < to % PAGE + |data| then data[a - to % PAGE] else was[a]
    ensures CopiedOut(was, now, table, to, data)
  {
    assert InPage(to, |data|) == |data|;
    assert data[..|data|] == data && data[|data|..] == [];
    assert now == Overwritten(was, to % PAGE, data);
    PutNothing(now, table, to + |data|);
  }

  /** memory_copy_uvm_data(to, table, data): page by page.  It stops with -1 at an address for which
      memory_get_paddr has no answer. */
  method CopyUvmData(mem: array<byte>, table: PageTable, to: nat, data: seq<byte>) returns (err: int)
    requires Fits(table, mem.Length)
    modifies mem
    ensures err == 0 || err == -1
    ensures err == 0 <==> Answered(table, to, |data|)
    ensures err == 0 ==> CopiedOut(old(mem[..]), mem[..], table, to, data)
    ensures AllMapped(table, to, |data|) ==> err == 0 && Put(old(mem[..]), mem[..], table, to, data)
  {
    hide *;
    ghost var was := mem[..];
    FitsMeans(table, mem.Length);
    NothingCopied(was, table, to);
    assert data[..0] == [];
    var done: nat := 0;
    while done < |data|
      invariant done <= |data| && Answered(table, to, done)
      invariant 0 < done < |data| ==> PageAligned(to + done)
      invariant CopiedOut(was, mem[..], table, to, data[..done])
    {
      if Paddr(table, to + done) == 0 {
        NotAnswered(table, mem.Length, to, |data|, done);
        return -1;
      }
      var n := CopyRound(mem, table, to, data, done, was);
      done := done + n;
    }
    assert data[..done] == data;
    WhenMapped(was, mem[..], table, to, data);
    return 0;
  }

  lemma NothingCopied(was: seq<byte>, table: PageTable, to: nat)
    requires PAGE <= |was|
    ensures CopiedOut(was, was, table, to, []) && Answered(table, to, 0)
  {
    PutNothing(was, table, to);
  }

  lemma MappedAnswers(table: PageTable, size: nat, v: nat)
    requires Fits(table, size)
    ensures Mapped(table, v) ==> Paddr(table, v) > 0
  {
    if Mapped(table, v) {
      PaddrFits(table, size, v);
    }
  }

  lemma NotAnswered(table: PageTable, size: nat, to: nat, n: nat, k: nat)
    requires Fits(table, size) && k < n && Paddr(table, to + k) == 0
    ensures !Answered(table, to, n) && !AllMapped(table, to, n)
  {
    MappedAnswers(table, size, to + k);
  }

  lemma WhenMapped(was: seq<byte>, now: seq<byte>, table: PageTable, to: nat, data: seq<byte>)
    requires PAGE <= |was| && CopiedOut(was, now, table, to, data)
    ensures AllMapped(table, to, |data|) ==> Put(was, now, table, to, data)
  {
    hide Put;
  }

  /** A round of that loop. */
  method CopyRound(mem: array<byte>, table: PageTable, to: nat, data: seq<byte>, done: nat, ghost was: seq<byte>)
    returns (n: nat)
    requires Fits(table, mem.Length) && |was| == mem.Length && done < |data| && Paddr(table, to + done) != 0
    requires done > 0 ==> PageAligned(to + done)
    requires Answered(table, to, done) && CopiedOut(was, mem[..], table, to, data[..done])
    modifies mem
    ensures 0 < n && done + n <= |data| && Answered(table, to, done + n)
    ensures done + n < |data| ==> PageAligned(to + (done + n))
    ensures CopiedOut(was, mem[..], table, to, data[..done + n])
  {
    hide *;
    ghost var mid := mem[..];
    FitsMeans(table, mem.Length);
    n := CopyPiece(mem, table, to + done, data[done..]);
    RoundAnswered(table, mem.Length, to, |data|, done, n);
    assert data[done..][..n] == data[done..done + n];
    if done > 0 {
      AlignedAnswers(table, to + done);
      CopiedMore(was, mid, mem[..], table, to, data, done, n);
    } else {
      assert data[..0] == [] && data[0..n] == data[..n];
      NothingYet(was, mid, table, to);
    }
  }

  lemma FitsMeans(table: PageTable, size: nat)
    requires Fits(table, size)
    ensures PAGE <= size
  {
  }

  lemma RoundAnswered(table: PageTable, size: nat, to: nat, total: nat, done: nat, n: nat)
    requires Fits(table, size) && done < total && n == InPage(to + done, total - done)
    requires Answered(table, to, done) && Paddr(table, to + done) != 0
    ensures 0 < n && done + n <= total && Answered(table, to, done + n)
    ensures done + n < total ==> PageAligned(to + (done + n))
  {
    PageAnswered(table, size, to + done, n);
    hide Paddr, Fits;
  }

  lemma NothingYet(was: seq<byte>, mid: seq<byte>, table: PageTable, to: nat)
    requires PAGE <= |was| && CopiedOut(was, mid, table, to, [])
    ensures mid == was
  {
    forall a | 0 <= a < |was| ensures mid[a] == was[a] {
      assert !Behind(table, to, 0, a);
    }
  }
}
