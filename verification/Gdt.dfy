/** The global descriptor table of source/kernel/cpu/cpu.c: 256 packed entries of 8 bytes, allocated first
    fit by their attribute field. */
module Gdt {

  const GDT_TABLE_SIZE: nat := 256
  const DESC_SIZE: nat := 8
  const SEG_P_PRESENT: bv16 := 0x80
  const SEG_G: bv16 := 0x8000
  const KERNEL_SELECTOR_CS: nat := 8
  const KERNEL_SELECTOR_DS: nat := 16
  const SELECTOR_SYSCALL: nat := 24

  /** One entry as memory holds it. */
  datatype Entry = Entry(b0: bv8, b1: bv8, b2: bv8, b3: bv8, b4: bv8, b5: bv8, b6: bv8, b7: bv8)

  function Low(w: bv16): bv8 { (w & 0xFF) as bv8 }
  function High(w: bv16): bv8 { (w >> 8) as bv8 }
  function Pair(low: bv8, high: bv8): bv16 { ((high as bv16) << 8) | (low as bv16) }

  /** segment_desc_t laid over an entry: limit15_0, base15_0, base23_16, attr, base31_24. */
  function SegmentEntry(limit15_0: bv16, base15_0: bv16, base23_16: bv8, attr: bv16, base31_24: bv8): Entry {
    Entry(Low(limit15_0), High(limit15_0), Low(base15_0), High(base15_0), base23_16, Low(attr), High(attr), base31_24)
  }

  /** gate_desc_t laid over an entry: offset15_0, selector, attr, offset31_16. */
  function GateEntry(offset15_0: bv16, selector: bv16, attr: bv16, offset31_16: bv16): Entry {
    Entry(Low(offset15_0), High(offset15_0), Low(selector), High(selector), Low(attr), High(attr),
          Low(offset31_16), High(offset31_16))
  }

  /** The attr field of segment_desc_t, whatever was written there. */
  function Attr(e: Entry): bv16 { Pair(e.b5, e.b6) }

  /** limit /= 0x1000 */
  function Units(limit: bv32): (r: bv32)
    ensures r == limit >> 12
  {
    limit / 0x1000
  }

  /** The attr word as stored, with the upper four bits of limit l in its bits 8 to 11. */
  function StoredAttr(l: bv32, a: bv16): bv16 { a | (((l >> 16) & 0xF) << 8) as bv16 }

  /** The assignments of segment_desc_set to the entry's fields. */
  function Packed(base: bv32, l: bv32, a: bv16): Entry {
    SegmentEntry((l & 0xFFFF) as bv16, (base & 0xFFFF) as bv16, ((base >> 16) & 0xFF) as bv8, StoredAttr(l, a),
                 ((base >> 24) & 0xFF) as bv8)
  }

  /** segment_desc_set: a limit beyond 20 bits is counted in units of 4096 bytes. */
  function Segment(base: bv32, limit: bv32, attr: bv16): Entry {
    if limit > 0xFFFFF then Packed(base, Units(limit), attr | SEG_G) else Packed(base, limit, attr)
  }

  /** gate_desc_set */
  function Gate(selector: bv16, offset: bv32, attr: bv16): Entry {
    GateEntry((offset & 0xFFFF) as bv16, selector, attr, ((offset >> 16) & 0xFFFF) as bv16)
  }

  // ---------- what the processor reads (Intel SDM Vol. 3A, section 3.4.5) ----------

  function BaseOf(e: Entry): bv32 {
    (e.b2 as bv32) | ((e.b3 as bv32) << 8) | ((e.b4 as bv32) << 16) | ((e.b7 as bv32) << 24)
  }

  /** The 20 bits of the limit field. */
  function LimitField(e: Entry): bv32 {
    (e.b0 as bv32) | ((e.b1 as bv32) << 8) | (((e.b6 & 0xF) as bv32) << 16)
  }

  predicate Granular(e: Entry) { e.b6 & 0x80 != 0 }

  /** The last offset of the segment: in units of 4096 bytes if G is set. */
  function EffectiveLimit(e: Entry): bv32 {
    if Granular(e) then Rounded(LimitField(e)) else LimitField(e)
  }

  function Rounded(units: bv32): bv32 { (units << 12) | 0xFFF }

  /** The access byte and the flags, without the limit bits between them. */
  function AttrOf(e: Entry): bv16 { Attr(e) & 0xF0FF }

  // Facts about bits alone; the words are named by parameters to keep them apart from the entries.

  lemma BitsOfBase(base: bv32, low: bv16)
    requires low == (base & 0xFFFF) as bv16
    ensures ((low & 0xFF) as bv8) as bv32 | ((((low >> 8) as bv8) as bv32) << 8) |
            ((((base >> 16) & 0xFF) as bv8) as bv32 << 16) | ((((base >> 24) & 0xFF) as bv8) as bv32 << 24) == base
  {
  }

  lemma BitsOfLimit(l: bv32, a: bv16, low: bv16, s: bv16, b0: bv8, b1: bv8, b6: bv8)
    requires l <= 0xFFFFF && low == (l & 0xFFFF) as bv16 && s == a | (((l >> 16) & 0xF) << 8) as bv16
    requires b0 == (low & 0xFF) as bv8 && b1 == (low >> 8) as bv8 && b6 == (s >> 8) as bv8
    ensures (b0 as bv32) | ((b1 as bv32) << 8) | (((b6 & 0xF) as bv32) << 16) == l | (((a & 0x0F00) as bv32) << 8)
  {
  }

  lemma BitG(l: bv32, a: bv16, s: bv16)
    requires s == a | (((l >> 16) & 0xF) << 8) as bv16
    ensures (s >> 8) as bv8 & 0x80 != 0 <==> a & 0x8000 != 0
  {
  }

  lemma BitsOfAttr(l: bv32, a: bv16, s: bv16)
    requires s == a | (((l >> 16) & 0xF) << 8) as bv16
    ensures (((((s >> 8) as bv8) as bv16) << 8) | ((s & 0xFF) as bv8) as bv16) & 0xF0FF == a & 0xF0FF
    ensures a != 0 ==> ((((s >> 8) as bv8) as bv16) << 8) | ((s & 0xFF) as bv8) as bv16 != 0
  {
  }

  lemma BitsOfUnits(limit: bv32)
    requires limit > 0xFFFFF
    ensures limit >> 12 <= 0xFFFFF && ((limit >> 12) << 12) | 0xFFF == limit | 0xFFF
  {
  }

  lemma BitsWithG(attr: bv16)
    ensures (attr | 0x8000) & 0xF00 == attr & 0xF00 && (attr | 0x8000) & 0x8000 != 0
    ensures (attr | 0x8000) & 0xF0FF == (attr & 0xF0FF) | 0x8000
  {
  }

  lemma BitsClear(attr: bv16)
    requires attr & 0x8F00 == 0
    ensures attr & 0x0F00 == 0 && attr & 0x8000 == 0 && attr & 0xF0FF == attr
  {
  }

  lemma BitsOfEffective(limit: bv32, attr: bv16, f: bv32)
    requires attr & 0x0F00 == 0 && limit > 0xFFFFF && f == (limit >> 12) | (((attr & 0x0F00) as bv32) << 8)
    ensures (f << 12) | 0xFFF == limit | 0xFFF
  {
  }

  lemma BitsOfMixed(limit: bv32, attr: bv16, f: bv32, e: bv32)
    requires limit > 0xFFFFF && f == (limit >> 12) | (((attr & 0x0F00) as bv32) << 8) && e == (f << 12) | 0xFFF
    ensures e == limit | 0xFFF <==> (((attr & 0x0F00) as bv32) << 8) & !(limit >> 12) == 0
  {
  }

  lemma BitsOfLargeAttr(attr: bv16)
    requires attr & 0x8F00 == 0
    ensures (attr | SEG_G) & 0xF0FF == attr | SEG_G
  {
  }

  lemma NothingMixedIn(limit: bv32, attr: bv16)
    requires attr & 0x0F00 == 0
    ensures limit | (((attr & 0x0F00) as bv32) << 8) == limit
  {
  }

  lemma BitsOfBytes(w: bv16, low: bv8, high: bv8)
    requires low == (w & 0xFF) as bv8 && high == (w >> 8) as bv8
    ensures ((high as bv16) << 8) | (low as bv16) == w
  {
  }

  lemma Absorbed(x: bv32, y: bv32)
    ensures x | y == x <==> y & !x == 0
  {
  }

  // The entries.

  lemma PackedBase(base: bv32, l: bv32, a: bv16)
    ensures BaseOf(Packed(base, l, a)) == base
  {
    BitsOfBase(base, (base & 0xFFFF) as bv16);
  }

  lemma PackedBytes(base: bv32, l: bv32, a: bv16, e: Entry, low: bv16, s: bv16)
    requires e == Packed(base, l, a) && low == (l & 0xFFFF) as bv16 && s == StoredAttr(l, a)
    ensures e.b0 == (low & 0xFF) as bv8 && e.b1 == (low >> 8) as bv8 && e.b6 == (s >> 8) as bv8
  {
    hide StoredAttr;
  }

  lemma StoredAttrIs(l: bv32, a: bv16)
    ensures StoredAttr(l, a) == a | (((l >> 16) & 0xF) << 8) as bv16
  {
  }

  lemma PackedLimit(base: bv32, l: bv32, a: bv16)
    requires l <= 0xFFFFF
    ensures LimitField(Packed(base, l, a)) == l | (((a & 0x0F00) as bv32) << 8)
  {
    hide Packed, StoredAttr;
    var e, low, s := Packed(base, l, a), (l & 0xFFFF) as bv16, StoredAttr(l, a);
    PackedBytes(base, l, a, e, low, s);
    StoredAttrIs(l, a);
    BitsOfLimit(l, a, low, s, e.b0, e.b1, e.b6);
  }

  lemma PackedG(base: bv32, l: bv32, a: bv16)
    ensures Granular(Packed(base, l, a)) <==> a & SEG_G != 0
  {
    BitG(l, a, StoredAttr(l, a));
  }

  lemma PackedAttr(base: bv32, l: bv32, a: bv16)
    ensures AttrOf(Packed(base, l, a)) == a & 0xF0FF
    ensures a != 0 ==> Attr(Packed(base, l, a)) != 0
  {
    BitsOfAttr(l, a, StoredAttr(l, a));
  }

  /** What is stored as the limit: bits 8 to 11 of attr get mixed into its upper four bits. */
  lemma LimitStored(base: bv32, limit: bv32, attr: bv16)
    ensures LimitField(Segment(base, limit, attr)) ==
            ((if limit > 0xFFFFF then limit >> 12 else limit) | (((attr & 0x0F00) as bv32) << 8))
    ensures Granular(Segment(base, limit, attr)) <==> limit > 0xFFFFF || attr & SEG_G != 0
  {
    hide Packed, LimitField, Granular, Units;
    if limit > 0xFFFFF {
      LargeLimitStored(base, limit, attr);
    } else {
      PackedLimit(base, limit, attr);
      PackedG(base, limit, attr);
    }
  }

  lemma LargeLimitStored(base: bv32, limit: bv32, attr: bv16)
    requires limit > 0xFFFFF
    ensures LimitField(Segment(base, limit, attr)) == (limit >> 12) | (((attr & 0x0F00) as bv32) << 8)
    ensures Granular(Segment(base, limit, attr))
  {
    hide Packed, LimitField, Granular, Units;
    var l, a := Units(limit), attr | SEG_G;
    BitsOfUnits(limit);
    BitsWithG(attr);
    assert a & 0xF00 == attr & 0xF00;
    PackedLimit(base, l, a);
    PackedG(base, l, a);
  }

  /** The round trip: base and attributes come back, the limit exactly if it fits in 20 bits, and otherwise
      rounded up to the end of its 4096-byte unit. */
  lemma SegmentReadBack(base: bv32, limit: bv32, attr: bv16)
    requires attr & 0x8F00 == 0
    ensures BaseOf(Segment(base, limit, attr)) == base
    ensures limit <= 0xFFFFF ==>
              AttrOf(Segment(base, limit, attr)) == attr && EffectiveLimit(Segment(base, limit, attr)) == limit
    ensures limit > 0xFFFFF ==>
              && AttrOf(Segment(base, limit, attr)) == attr | SEG_G
              && EffectiveLimit(Segment(base, limit, attr)) == limit | 0xFFF
  {
    hide Segment, EffectiveLimit, AttrOf, BaseOf;
    if limit > 0xFFFFF {
      LargeReadBack(base, limit, attr);
    } else {
      SmallReadBack(base, limit, attr);
    }
  }

  lemma LargeReadBack(base: bv32, limit: bv32, attr: bv16)
    requires attr & 0x8F00 == 0 && limit > 0xFFFFF
    ensures BaseOf(Segment(base, limit, attr)) == base
    ensures AttrOf(Segment(base, limit, attr)) == attr | SEG_G
    ensures EffectiveLimit(Segment(base, limit, attr)) == limit | 0xFFF
  {
    hide Segment, Packed, Units, AttrOf, BaseOf, EffectiveLimit;
    SegmentIs(base, limit, attr);
    PackedBase(base, Units(limit), attr | SEG_G);
    LargeAttrBack(base, Units(limit), attr);
    LargeLimitBack(base, limit, attr);
  }

  lemma LargeAttrBack(base: bv32, l: bv32, attr: bv16)
    requires attr & 0x8F00 == 0
    ensures AttrOf(Packed(base, l, attr | SEG_G)) == attr | SEG_G
  {
    hide Packed, AttrOf;
    PackedAttr(base, l, attr | SEG_G);
    BitsOfLargeAttr(attr);
  }

  lemma LargeLimitBack(base: bv32, limit: bv32, attr: bv16)
    requires attr & 0x8F00 == 0 && limit > 0xFFFFF
    ensures EffectiveLimit(Segment(base, limit, attr)) == limit | 0xFFF
  {
    hide Segment, LimitField, Granular, EffectiveLimit, Rounded;
    var e := Segment(base, limit, attr);
    LargeLimitStored(base, limit, attr);
    EffectiveIs(e);
    BitsClear(attr);
    RoundedLimit(limit, attr, LimitField(e));
  }

  lemma SmallReadBack(base: bv32, limit: bv32, attr: bv16)
    requires attr & 0x8F00 == 0 && limit <= 0xFFFFF
    ensures BaseOf(Segment(base, limit, attr)) == base
    ensures AttrOf(Segment(base, limit, attr)) == attr
    ensures EffectiveLimit(Segment(base, limit, attr)) == limit
  {
    hide Segment, Packed, LimitField, Granular, Units, AttrOf, BaseOf, EffectiveLimit;
    var e := Segment(base, limit, attr);
    SegmentIs(base, limit, attr);
    PackedBase(base, limit, attr);
    PackedAttr(base, limit, attr);
    BitsClear(attr);
    LimitStored(base, limit, attr);
    EffectiveIs(e);
    NothingMixedIn(limit, attr);
  }

  lemma SegmentIs(base: bv32, limit: bv32, attr: bv16)
    ensures Segment(base, limit, attr) ==
            if limit > 0xFFFFF then Packed(base, Units(limit), attr | SEG_G) else Packed(base, limit, attr)
  {
    hide Packed, Units;
  }

  lemma EffectiveIs(e: Entry)
    ensures EffectiveLimit(e) == if Granular(e) then Rounded(LimitField(e)) else LimitField(e)
  {
    hide Granular, LimitField, Rounded;
  }

  /** A limit that fits in 20 bits is kept exactly when attr claims none of the limit's bits that are 0,
      and not G. */
  lemma SmallLimitKept(base: bv32, limit: bv32, attr: bv16)
    requires limit <= 0xFFFFF
    ensures LimitField(Segment(base, limit, attr)) == limit && !Granular(Segment(base, limit, attr)) <==>
            (((attr & 0x0F00) as bv32) << 8) & !limit == 0 && attr & SEG_G == 0
  {
    hide Segment, Granular, LimitField;
    LimitStored(base, limit, attr);
    Absorbed(limit, ((attr & 0x0F00) as bv32) << 8);
  }

  /** A larger limit keeps its upper 20 bits, and the processor sees it rounded up to its 4096-byte unit, exactly
      when attr claims none of these bits that are 0. */
  lemma LargeLimitKept(base: bv32, limit: bv32, attr: bv16)
    requires limit > 0xFFFFF
    ensures LimitField(Segment(base, limit, attr)) == limit >> 12 <==>
            (((attr & 0x0F00) as bv32) << 8) & !(limit >> 12) == 0
    ensures EffectiveLimit(Segment(base, limit, attr)) == limit | 0xFFF <==>
            (((attr & 0x0F00) as bv32) << 8) & !(limit >> 12) == 0
  {
    hide Segment, Granular, LimitField, EffectiveLimit, Rounded;
    var e := Segment(base, limit, attr);
    LargeLimitStored(base, limit, attr);
    EffectiveIs(e);
    MixedField(limit, attr, LimitField(e));
    MixedRounded(limit, attr, LimitField(e));
  }

  lemma MixedField(limit: bv32, attr: bv16, f: bv32)
    requires limit > 0xFFFFF && f == (limit >> 12) | (((attr & 0x0F00) as bv32) << 8)
    ensures f == limit >> 12 <==> (((attr & 0x0F00) as bv32) << 8) & !(limit >> 12) == 0
  {
  }

  lemma RoundedLimit(limit: bv32, attr: bv16, f: bv32)
    requires attr & 0x0F00 == 0 && limit > 0xFFFFF && f == (limit >> 12) | (((attr & 0x0F00) as bv32) << 8)
    ensures Rounded(f) == limit | 0xFFF
  {
    BitsOfEffective(limit, attr, f);
  }

  lemma MixedRounded(limit: bv32, attr: bv16, f: bv32)
    requires limit > 0xFFFFF && f == (limit >> 12) | (((attr & 0x0F00) as bv32) << 8)
    ensures Rounded(f) == limit | 0xFFF <==> (((attr & 0x0F00) as bv32) << 8) & !(limit >> 12) == 0
  {
    BitsOfMixed(limit, attr, f, Rounded(f));
  }

  /** segment_desc_set with a non-zero attr leaves a non-zero mark where gdt_alloc_desc looks for one. */
  lemma SegmentMarksTaken(base: bv32, limit: bv32, attr: bv16)
    requires attr != 0
    ensures Attr(Segment(base, limit, attr)) != 0
  {
    hide Packed, Units, Attr;
    BitsWithG(attr);
    if limit > 0xFFFFF {
      GIsSomething(attr);
      PackedAttr(base, Units(limit), attr | SEG_G);
    } else {
      PackedAttr(base, limit, attr);
    }
  }

  lemma GIsSomething(attr: bv16)
    ensures attr | SEG_G != 0
  {
  }

  /** So does gate_desc_set: the gate's type byte lies where the segment layout has the low byte of attr. */
  lemma GateMarksTaken(selector: bv16, offset: bv32, attr: bv16)
    requires attr & 0xFF00 != 0
    ensures Attr(Gate(selector, offset, attr)) != 0
  {
    HighByte(attr, ((offset >> 16) & 0xFFFF) as bv16);
  }

  lemma HighByte(attr: bv16, o: bv16)
    requires attr & 0xFF00 != 0
    ensures ((((o & 0xFF) as bv8) as bv16) << 8) | ((attr >> 8) as bv8) as bv16 != 0
  {
  }

  // ---------- what the processor reads of a call gate (Intel SDM Vol. 3A, section 5.8.3) ----------

  function GateSelector(e: Entry): bv16 { Pair(e.b2, e.b3) }

  function GateOffset(e: Entry): bv32 { Quad(e.b0, e.b1, e.b6, e.b7) }

  function GateAttr(e: Entry): bv16 { Pair(e.b4, e.b5) }

  /** Four bytes, the lowest first. */
  function Quad(b0: bv8, b1: bv8, b2: bv8, b3: bv8): bv32 {
    (b0 as bv32) | ((b1 as bv32) << 8) | ((b2 as bv32) << 16) | ((b3 as bv32) << 24)
  }

  function GateParams(e: Entry): bv8 { e.b4 & 0x1F }
  function GateType(e: Entry): bv8 { e.b5 & 0xF }

  predicate IsSystem(e: Entry) { e.b5 & 0x10 == 0 }

  function Privilege(e: Entry): bv8 { (e.b5 >> 5) & 3 }

  predicate Present(e: Entry) { e.b5 & 0x80 != 0 }

  lemma BitsOfOffset(offset: bv32, low: bv16, high: bv16)
    requires low == (offset & 0xFFFF) as bv16 && high == ((offset >> 16) & 0xFFFF) as bv16
    ensures ((low & 0xFF) as bv8) as bv32 | ((((low >> 8) as bv8) as bv32) << 8) |
            ((((high & 0xFF) as bv8) as bv32) << 16) | ((((high >> 8) as bv8) as bv32) << 24) == offset
  {
  }

  lemma QuadOf(offset: bv32, low: bv16, high: bv16)
    requires low == (offset & 0xFFFF) as bv16 && high == ((offset >> 16) & 0xFFFF) as bv16
    ensures Quad(Low(low), High(low), Low(high), High(high)) == offset
  {
    BitsOfOffset(offset, low, high);
  }

  lemma GateBytes(selector: bv16, offset: bv32, attr: bv16, low: bv16, high: bv16)
    requires low == (offset & 0xFFFF) as bv16 && high == ((offset >> 16) & 0xFFFF) as bv16
    ensures var e := Gate(selector, offset, attr);
            && GateSelector(e) == Pair(Low(selector), High(selector)) && GateAttr(e) == Pair(Low(attr), High(attr))
            && GateOffset(e) == Quad(Low(low), High(low), Low(high), High(high))
  {
    hide Low, High, Pair, Quad;
  }

  /** The round trip for gates: the selector, the whole offset and the attributes come back. */
  lemma GateReadBack(selector: bv16, offset: bv32, attr: bv16)
    ensures GateSelector(Gate(selector, offset, attr)) == selector
    ensures GateOffset(Gate(selector, offset, attr)) == offset
    ensures GateAttr(Gate(selector, offset, attr)) == attr
  {
    hide *;
    var low, high := (offset & 0xFFFF) as bv16, ((offset >> 16) & 0xFFFF) as bv16;
    GateBytes(selector, offset, attr, low, high);
    BothBytes(selector);
    BothBytes(attr);
    QuadOf(offset, low, high);
  }

  // ---------- allocation ----------

  const FIRST_FREE: nat := 4
  const KERNEL_DATA_ATTR: bv16 := 0x4092
  const KERNEL_CODE_ATTR: bv16 := 0x409A
  const SYSCALL_GATE_ATTR: bv16 := 0xEC05

  /** The selector of the first entry from index i on that nobody owns, or -1. */
  function FirstUnowned(owned: set<nat>, i: nat): (sel: int)
    requires i <= GDT_TABLE_SIZE
    ensures sel == -1 ==> forall k :: i <= k < GDT_TABLE_SIZE ==> k in owned
    ensures sel != -1 ==>
              && 0 <= sel && sel % DESC_SIZE == 0 && i <= sel / DESC_SIZE < GDT_TABLE_SIZE
              && sel / DESC_SIZE !in owned
              && forall k :: i <= k < sel / DESC_SIZE ==> k in owned
    decreases GDT_TABLE_SIZE - i
  {
    if i == GDT_TABLE_SIZE then -1
    else if i in owned then FirstUnowned(owned, i + 1)
    else i * DESC_SIZE
  }

  /** The first index without an owner is found wherever the search begins below it. */
  lemma {:induction false} FirstUnownedIs(owned: set<nat>, i: nat, found: nat)
    requires i <= found <= GDT_TABLE_SIZE
    requires forall k :: i <= k < found ==> k in owned
    requires found < GDT_TABLE_SIZE ==> found !in owned
    ensures FirstUnowned(owned, i) == if found < GDT_TABLE_SIZE then found * DESC_SIZE else -1
    decreases found - i
  {
    if i < found {
      FirstUnownedIs(owned, i + 1, found);
    }
  }

  /** The entry with its attr field, and nothing else, assigned. */
  function WithAttr(e: Entry, attr: bv16): Entry { e.(b5 := Low(attr), b6 := High(attr)) }

  /** It reads back, and no other byte of the entry has changed. */
  lemma AttrAssigned(e: Entry, attr: bv16)
    ensures Attr(WithAttr(e, attr)) == attr
    ensures WithAttr(e, attr).(b5 := e.b5, b6 := e.b6) == e
  {
    hide Low, High, Pair;
    BothBytes(attr);
  }

  lemma BothBytes(attr: bv16)
    ensures Pair(Low(attr), High(attr)) == attr
  {
    BitsOfBytes(attr, Low(attr), High(attr));
  }

  class DescriptorTable {
    const table: array<Entry>
    const handler: bv32
    /** The indices handed out and not given back. */
    ghost var owned: set<nat>

    /** The kernel's own entries, as init_gdt wrote them. */
    ghost predicate SystemEntries()
      requires table.Length == GDT_TABLE_SIZE
      reads table
    {
      && table[0] == Segment(0, 0, 0)
      && table[KERNEL_SELECTOR_CS / DESC_SIZE] == Segment(0, 0xFFFFFFFF, KERNEL_CODE_ATTR)
      && table[KERNEL_SELECTOR_DS / DESC_SIZE] == Segment(0, 0xFFFFFFFF, KERNEL_DATA_ATTR)
      && table[SELECTOR_SYSCALL / DESC_SIZE] == Gate(KERNEL_SELECTOR_CS as bv16, handler, SYSCALL_GATE_ATTR)
    }

    ghost predicate Valid()
      reads this, table
    {
      && table.Length == GDT_TABLE_SIZE
      && (forall i :: i in owned ==> FIRST_FREE <= i < GDT_TABLE_SIZE)
      && (forall i :: FIRST_FREE <= i < GDT_TABLE_SIZE ==> (Attr(table[i]) != 0 <==> i in owned))
      && SystemEntries()
    }

    /** init_gdt */
    constructor (handler: bv32)
      ensures Valid() && fresh(table) && owned == {} && this.handler == handler
    {
      this.handler := handler;
      table := new Entry[GDT_TABLE_SIZE];
      owned := {};
      new;
      hide Segment, Gate, Attr;
      for i := 0 to GDT_TABLE_SIZE
        invariant owned == {}
        invariant forall k :: 0 <= k < i ==> table[k] == Segment(0, 0, 0)
      {
        table[i] := Segment(0, 0, 0);
      }
      NothingMarked();
      table[KERNEL_SELECTOR_DS / DESC_SIZE] := Segment(0, 0xFFFFFFFF, KERNEL_DATA_ATTR);
      table[KERNEL_SELECTOR_CS / DESC_SIZE] := Segment(0, 0xFFFFFFFF, KERNEL_CODE_ATTR);
      table[SELECTOR_SYSCALL / DESC_SIZE] := Gate(KERNEL_SELECTOR_CS as bv16, handler, SYSCALL_GATE_ATTR);
    }

    /** gdt_alloc_desc: first fit, by the attr fields alone. */
    method AllocDesc() returns (sel: int)
      requires Valid()
      modifies this`owned, table
      ensures Valid()
      ensures sel == FirstUnowned(old(owned), FIRST_FREE)
      ensures owned == After(old(owned), Alloc)
      ensures table[..] == if sel == -1 then old(table[..]) else
                old(table[..])[sel / DESC_SIZE := WithAttr(old(table[..])[sel / DESC_SIZE], SEG_P_PRESENT)]
    {
      hide Attr, WithAttr, Segment, Gate, FirstUnowned;
      SystemEntriesMarked(handler);
      var i: nat := 1;
      while i < GDT_TABLE_SIZE && Attr(table[i]) != 0
        invariant 1 <= i <= GDT_TABLE_SIZE
        invariant forall k :: FIRST_FREE <= k < i ==> k in owned
      {
        i := i + 1;
      }
      FirstUnownedIs(owned, FIRST_FREE, i);
      if i < GDT_TABLE_SIZE {
        AttrAssigned(table[i], SEG_P_PRESENT);
        table[i] := WithAttr(table[i], SEG_P_PRESENT);
        owned := owned + {i};
        sel := i * DESC_SIZE;
      } else {
        sel := -1;
      }
    }

    /** segment_desc_set.  The table stays in order if the caller owns the selector and marks it as taken. */
    method SegmentDescSet(sel: nat, base: bv32, limit: bv32, attr: bv16)
      requires Valid() && sel / DESC_SIZE < GDT_TABLE_SIZE
      modifies table
      ensures table[..] == old(table[..])[sel / DESC_SIZE := Segment(base, limit, attr)]
      ensures sel / DESC_SIZE in owned && attr != 0 ==> Valid()
    {
      hide Attr, Segment, Gate;
      if attr != 0 {
        SegmentMarksTaken(base, limit, attr);
      }
      table[sel / DESC_SIZE] := Segment(base, limit, attr);
    }

    /** gdt_free_sel.  The table stays in order if the caller owns the selector. */
    method FreeSel(sel: nat)
      requires Valid() && sel / DESC_SIZE < GDT_TABLE_SIZE
      modifies this`owned, table
      ensures table[..] == old(table[..])[sel / DESC_SIZE := WithAttr(old(table[..])[sel / DESC_SIZE], 0)]
      ensures owned == After(old(owned), Free(sel))
      ensures sel / DESC_SIZE in old(owned) ==> Valid()
    {
      hide Attr, WithAttr, Segment, Gate;
      var i := sel / DESC_SIZE;
      AttrAssigned(table[i], 0);
      table[i] := WithAttr(table[i], 0);
      owned := owned - {i};
    }
  }

  lemma NothingMarked()
    ensures Attr(Segment(0, 0, 0)) == 0
  {
  }

  /** No search for a free entry can stop at the kernel's code, data or gate entry. */
  lemma SystemEntriesMarked(handler: bv32)
    ensures Attr(Segment(0, 0xFFFFFFFF, KERNEL_CODE_ATTR)) != 0
    ensures Attr(Segment(0, 0xFFFFFFFF, KERNEL_DATA_ATTR)) != 0
    ensures Attr(Gate(KERNEL_SELECTOR_CS as bv16, handler, SYSCALL_GATE_ATTR)) != 0
  {
    hide Attr, Segment, Gate;
    SegmentMarksTaken(0, 0xFFFFFFFF, KERNEL_CODE_ATTR);
    SegmentMarksTaken(0, 0xFFFFFFFF, KERNEL_DATA_ATTR);
    GateMarksTaken(KERNEL_SELECTOR_CS as bv16, handler, SYSCALL_GATE_ATTR);
  }

  /** The system call gate is present, open to privilege 3, a call gate for 32 bits with 5 parameters, and leads to the
      kernel's code segment at the handler. */
  lemma SyscallGate(t: DescriptorTable)
    requires t.Valid()
    ensures var gate := t.table[3];
            && GateSelector(gate) == 8 && GateOffset(gate) == t.handler
            && Present(gate) && Privilege(gate) == 3 && IsSystem(gate) && GateType(gate) == 0xC && GateParams(gate) == 5
  {
    hide Segment, Gate, Attr;
    var gate := t.table[SELECTOR_SYSCALL / DESC_SIZE];
    GateReadBack(KERNEL_SELECTOR_CS as bv16, t.handler, SYSCALL_GATE_ATTR);
    CallGateBits(gate, gate.b4, gate.b5);
  }

  lemma CallGateBits(gate: Entry, b4: bv8, b5: bv8)
    requires gate.b4 == b4 && gate.b5 == b5 && Pair(b4, b5) == 0xEC05
    ensures Present(gate) && Privilege(gate) == 3 && IsSystem(gate) && GateType(gate) == 0xC && GateParams(gate) == 5
  {
    assert b5 == 0xEC && b4 == 5;
  }

  /** The kernel's two segments are present, for privilege 0 only, and for 32 bits: the first is code that can be read,
      the second data that can be written. */
  lemma KernelSegmentKinds(t: DescriptorTable)
    requires t.Valid()
    ensures var cs := t.table[1];
            Present(cs) && Privilege(cs) == 0 && !IsSystem(cs) && cs.b5 & 0xE == 0xA && cs.b6 & 0x40 != 0
    ensures var ds := t.table[2];
            Present(ds) && Privilege(ds) == 0 && !IsSystem(ds) && ds.b5 & 0xE == 2 && ds.b6 & 0x40 != 0
  {
    hide Segment, Gate, EffectiveLimit, BaseOf;
    KernelSegmentsAreFlat(t);
    var cs, ds := t.table[1], t.table[2];
    SegmentBits(cs, cs.b5, cs.b6, KERNEL_CODE_ATTR);
    SegmentBits(ds, ds.b5, ds.b6, KERNEL_DATA_ATTR);
  }

  lemma SegmentBits(e: Entry, b5: bv8, b6: bv8, attr: bv16)
    requires e.b5 == b5 && e.b6 == b6 && (((b6 as bv16) << 8) | (b5 as bv16)) & 0xF0FF == attr | 0x8000
    ensures b5 == (attr & 0xFF) as bv8 && b6 & 0x40 == ((attr >> 8) & 0x40) as bv8
  {
  }

  /** The processor sees flat four-gigabyte segments behind the kernel's two selectors. */
  lemma KernelSegmentsAreFlat(t: DescriptorTable)
    requires t.Valid()
    ensures var cs := t.table[KERNEL_SELECTOR_CS / DESC_SIZE];
            BaseOf(cs) == 0 && EffectiveLimit(cs) == 0xFFFFFFFF && AttrOf(cs) == KERNEL_CODE_ATTR | SEG_G
    ensures var ds := t.table[KERNEL_SELECTOR_DS / DESC_SIZE];
            BaseOf(ds) == 0 && EffectiveLimit(ds) == 0xFFFFFFFF && AttrOf(ds) == KERNEL_DATA_ATTR | SEG_G
  {
    hide Segment, Gate, BaseOf, EffectiveLimit, AttrOf, Attr;
    SegmentReadBack(0, 0xFFFFFFFF, KERNEL_CODE_ATTR);
    SegmentReadBack(0, 0xFFFFFFFF, KERNEL_DATA_ATTR);
  }

  // ---------- runs ----------

  /** One call on the table. */
  datatype Call = Alloc | Set(sel: nat, base: bv32, limit: bv32, attr: bv16) | Free(sel: nat)

  /** The callers' side of the contract: they set and free only what they were given. */
  predicate MayCall(owned: set<nat>, call: Call) {
    match call
    case Alloc => true
    case Set(sel, _, _, attr) => sel % DESC_SIZE == 0 && sel / DESC_SIZE in owned && attr != 0
    case Free(sel) => sel % DESC_SIZE == 0 && sel / DESC_SIZE in owned
  }

  function After(owned: set<nat>, call: Call): set<nat> {
    match call
    case Alloc => var sel := FirstUnowned(owned, FIRST_FREE); if sel == -1 then owned else owned + {sel / DESC_SIZE}
    case Set(_, _, _, _) => owned
    case Free(sel) => owned - {sel / DESC_SIZE}
  }

  function OwnedAfter(owned: set<nat>, calls: seq<Call>): set<nat>
    decreases calls
  {
    if calls == [] then owned else OwnedAfter(After(owned, calls[0]), calls[1..])
  }

  predicate CanCall(owned: set<nat>, calls: seq<Call>)
    decreases calls
  {
    calls == [] || (MayCall(owned, calls[0]) && CanCall(After(owned, calls[0]), calls[1..]))
  }

  /** How often the calls handed sel out. */
  function TimesGiven(owned: set<nat>, calls: seq<Call>, sel: nat): nat
    decreases calls
  {
    if calls == [] then 0
    else (if calls[0].Alloc? && FirstUnowned(owned, FIRST_FREE) == sel then 1 else 0) +
         TimesGiven(After(owned, calls[0]), calls[1..], sel)
  }

  function TimesFreed(calls: seq<Call>, sel: nat): nat {
    if calls == [] then 0 else (if calls[0] == Free(sel) then 1 else 0) + TimesFreed(calls[1..], sel)
  }

  predicate Allocatable(owned: set<nat>) { forall i :: i in owned ==> FIRST_FREE <= i < GDT_TABLE_SIZE }

  /** Over every run a selector is handed out exactly as often as it is given back, and once more if it is owned
      at the end; as this holds for every prefix of a run, no selector is handed out while it is owned, and no
      two owners hold the same one. */
  lemma {:induction false} GivenAndFreed(owned: set<nat>, calls: seq<Call>, sel: nat)
    requires Allocatable(owned) && CanCall(owned, calls) && sel % DESC_SIZE == 0
    ensures Allocatable(OwnedAfter(owned, calls))
    ensures TimesGiven(owned, calls, sel) + (if sel / DESC_SIZE in owned then 1 else 0) ==
            TimesFreed(calls, sel) + (if sel / DESC_SIZE in OwnedAfter(owned, calls) then 1 else 0)
    decreases calls
  {
    if calls != [] {
      GivenAndFreed(After(owned, calls[0]), calls[1..], sel);
    }
  }

  /** Only selectors of the entries behind the kernel's own are ever handed out. */
  lemma {:induction false} OnlySpareEntriesGiven(owned: set<nat>, calls: seq<Call>, sel: nat)
    requires TimesGiven(owned, calls, sel) > 0
    ensures sel % DESC_SIZE == 0 && FIRST_FREE * DESC_SIZE <= sel < GDT_TABLE_SIZE * DESC_SIZE
    ensures sel != 0 && sel != KERNEL_SELECTOR_CS && sel != KERNEL_SELECTOR_DS && sel != SELECTOR_SYSCALL
    decreases calls
  {
    if !(calls[0].Alloc? && FirstUnowned(owned, FIRST_FREE) == sel) {
      OnlySpareEntriesGiven(After(owned, calls[0]), calls[1..], sel);
    }
  }

  /** Any run of calls on the table itself: it stays in order, the kernel's entries with it; the owners are those of
      the abstract run, and each selector is returned as often as TimesGiven says. */
  method Drive(t: DescriptorTable, calls: seq<Call>) returns (sels: seq<int>)
    requires t.Valid() && CanCall(t.owned, calls)
    modifies t`owned, t.table
    ensures t.Valid() && t.owned == OwnedAfter(old(t.owned), calls)
    ensures forall sel: nat :: multiset(sels)[sel] == TimesGiven(old(t.owned), calls, sel)
    decreases calls
  {
    sels := [];
    if calls != [] {
      ghost var owned := t.owned;
      var given := Perform(t, calls[0]);
      var rest := Drive(t, calls[1..]);
      sels := given + rest;
      hide FirstUnowned, After;
      forall sel: nat ensures multiset(sels)[sel] == TimesGiven(owned, calls, sel) {
        assert multiset(sels)[sel] == multiset(given)[sel] + multiset(rest)[sel];
      }
    }
  }

  /** The call itself, and the selector it returned, if it is an allocation that found one. */
  method Perform(t: DescriptorTable, call: Call) returns (given: seq<int>)
    requires t.Valid() && MayCall(t.owned, call)
    modifies t`owned, t.table
    ensures t.Valid() && t.owned == After(old(t.owned), call)
    ensures forall sel: nat :: multiset(given)[sel] ==
              if call.Alloc? && FirstUnowned(old(t.owned), FIRST_FREE) == sel then 1 else 0
  {
    hide DescriptorTable.Valid, FirstUnowned;
    given := [];
    match call {
      case Alloc =>
        var sel := t.AllocDesc();
        given := if sel == -1 then [] else [sel];
      case Set(sel, base, limit, attr) =>
        OwnedInTable(t, sel / DESC_SIZE);
        t.SegmentDescSet(sel, base, limit, attr);
      case Free(sel) =>
        OwnedInTable(t, sel / DESC_SIZE);
        t.FreeSel(sel);
    }
  }

  lemma OwnedInTable(t: DescriptorTable, i: nat)
    requires t.Valid() && i in t.owned
    ensures i < GDT_TABLE_SIZE
  {
  }

  function Spare(): (s: set<nat>)
    ensures |s| == GDT_TABLE_SIZE - FIRST_FREE
    ensures forall i :: i in s <==> FIRST_FREE <= i < GDT_TABLE_SIZE
  {
    Range(FIRST_FREE, GDT_TABLE_SIZE)
  }

  function Range(lo: nat, hi: nat): (s: set<nat>)
    requires lo <= hi
    ensures |s| == hi - lo && forall i :: i in s <==> lo <= i < hi
    decreases hi - lo
  {
    if lo == hi then {} else Range(lo + 1, hi) + {lo}
  }

  /** An allocation fails exactly when all 252 spare entries are owned. */
  lemma FailsOnlyWhenFull(owned: set<nat>)
    requires Allocatable(owned)
    ensures FirstUnowned(owned, FIRST_FREE) == -1 <==> |owned| == GDT_TABLE_SIZE - FIRST_FREE
  {
    hide FirstUnowned, Spare, Range;
    assert owned <= Spare();
    if FirstUnowned(owned, FIRST_FREE) == -1 {
      assert owned == Spare();
    } else if |owned| == |Spare()| {
      SameSize(owned, Spare());
      assert false;
    }
  }

  lemma SameSize(a: set<nat>, b: set<nat>)
    requires a <= b && |a| == |b|
    ensures a == b
  {
    assert b == a + (b - a);
    assert |b| == |a| + |b - a|;
  }
}
