/**
 * Four-level page tables in physical memory (kernel/mm/paging_impl.c, include/paging.h),
 * as values. Memory is a sequence of frames of 512 words; the direct map at
 * KERNEL_VIRT_BASE is taken as given, so a table is named by its frame number.
 *
 * A table is addressed by its level (0 = PML4 ... 3 = PT) and by the prefix of the page
 * number that leads to it. The radix walk is shown to refine a flat map from page numbers
 * to entries, which rests on table frames never being shared.
 */
module PageTables {
  import opened Prelude
  import opened Bits
  import opened FrameAllocatorSpec

  const TWO_63: nat := 0x8000_0000_0000_0000
  const PAGES: nat := 0x10_0000_0000 // 2^36 page numbers

  type Mem = seq<seq<nat>>

  ghost predicate WellFormedMem(m: Mem) {
    forall f :: 0 <= f < |m| ==> |m[f]| == 512
  }

  function Zeros(): seq<nat> {
    seq(512, _ => 0)
  }

  function Store(m: Mem, f: nat, i: nat, w: nat): Mem
    requires f < |m| && i < |m[f]|
  {
    var frame: seq<nat> := m[f];
    var written: seq<nat> := frame[i := w];
    m[f := written]
  }

  lemma StoreRead(m: Mem, f: nat, i: nat, w: nat, h: nat, j: nat)
    requires WellFormedMem(m) && f < |m| && h < |m| && i < 512 && j < 512
    ensures |Store(m, f, i, w)| == |m| && WellFormedMem(Store(m, f, i, w))
    ensures Store(m, f, i, w)[h][j] == if h == f && j == i then w else m[h][j]
  {
  }

  // ----- Entries -----

  /** The words make_pte builds: address bits, flags in the low bits, NX in bit 63. */
  function MakePte(phys: U64, present: bool, writable: bool, user: bool, nx: bool): (w: U64) {
    var w := phys - phys % 4096 + (if present then 1 else 0) + (if writable then 2 else 0) + (if user then 4 else 0);
    if nx && w < TWO_63 then w + TWO_63 else w
  }

  predicate Present(w: nat) {
    w % 2 == 1
  }

  /** The frame a table entry names: (entry & ~0xFFF) >> 12. */
  function FrameOf(w: nat): nat {
    w / 4096
  }

  /** The entry that links a page table into its parent. */
  function Link(f: nat): nat {
    f * 4096 + 3
  }

  /**
   * What an entry for a frame has to be, bit by bit (section 4.5 of the Intel SDM, Volume 3A): P, R/W,
   * U/S, no other flag, the address bits, and execute-disable, where bit 63 of the address shows as well.
   */
  ghost predicate IsEntry(w: nat, phys: nat, present: bool, writable: bool, user: bool, nx: bool) {
    && w < TWO_64
    && TestBit(w, 0) == present && TestBit(w, 1) == writable && TestBit(w, 2) == user
    && (forall j: nat :: 3 <= j < 12 ==> !TestBit(w, j))
    && (forall j: nat :: 12 <= j < 63 ==> TestBit(w, j) == TestBit(phys, j))
    && (TestBit(w, 63) <==> nx || phys >= TWO_63)
  }

  lemma PowersOfTwo()
    ensures Pow2(3) == 8 && Pow2(12) == 4096 && Pow2(63) == TWO_63 && Pow2(64) == TWO_64
  {
    Pow2Sum(12, 12);
    Pow2Sum(24, 24);
    Pow2Sum(48, 12);
    Pow2Sum(60, 3);
    Pow2Sum(63, 1);
  }

  lemma LowBits(w: nat, flags: nat)
    requires w % 4096 == flags < 8
    ensures TestBit(w, 0) == (flags % 2 == 1) && TestBit(w, 1) == (flags / 2 % 2 == 1) && TestBit(w, 2) == (flags / 4 == 1)
    ensures forall j: nat :: 3 <= j < 12 ==> !TestBit(w, j)
  {
    PowersOfTwo();
    forall j: nat | j < 12 ensures TestBit(w, j) == TestBit(flags, j) && (j >= 3 ==> !TestBit(flags, j)) {
      TestCut(w, 12, w / 4096, flags, j);
      if j >= 3 {
        Pow2Grows(3, j);
        NoBitsAbove(flags, j);
      }
    }
    assert TestBit(flags, 1) == TestBit(flags / 2, 0) && TestBit(flags, 2) == TestBit(flags / 2, 1) == TestBit(flags / 4, 0);
  }

  lemma HighBits(w: nat, j: nat)
    requires w < TWO_64 && 12 <= j < 64
    ensures TestBit(w, j) == if j < 63 then TestBit(w / 4096 % (TWO_63 / 4096), j - 12) else w >= TWO_63
  {
    PowersOfTwo();
    TestCut(w, 63, w / TWO_63, w % TWO_63, j);
    TestCut(w % TWO_63, 12, w / 4096 % (TWO_63 / 4096), w % 4096, j);
  }

  lemma AddressBits(w: nat, phys: U64, bit63: bool)
    requires w < TWO_64 && w / 4096 == phys / 4096 + if bit63 then TWO_63 / 4096 else 0
    ensures forall j: nat :: 12 <= j < 63 ==> TestBit(w, j) == TestBit(phys, j)
    ensures TestBit(w, 63) <==> bit63 || phys >= TWO_63
  {
    forall j: nat | 12 <= j < 63 ensures TestBit(w, j) == TestBit(phys, j) {
      HighBits(w, j);
      HighBits(phys, j);
    }
    HighBits(w, 63);
  }

  /** make_pte builds exactly the entry asked for. */
  lemma PteBits(phys: U64, present: bool, writable: bool, user: bool, nx: bool, w: nat)
    ensures IsEntry(w, phys, present, writable, user, nx) <==> w == MakePte(phys, present, writable, user, nx)
  {
    var e := MakePte(phys, present, writable, user, nx);
    var flags := (if present then 1 else 0) + (if writable then 2 else 0) + if user then 4 else 0;
    LowBits(e, flags);
    AddressBits(e, phys, nx && phys < TWO_63);
    assert IsEntry(e, phys, present, writable, user, nx);
    if IsEntry(w, phys, present, writable, user, nx) {
      PowersOfTwo();
      forall j: nat | j < 64 ensures TestBit(w, j) == TestBit(e, j) {
        assert j < 3 || 3 <= j < 12 || 12 <= j < 63 || j == 63;
      }
      BitsDetermine(w, e, 64);
    }
  }

  lemma LinkIsPte(f: nat)
    requires f * 4096 < TWO_64
    ensures Link(f) == MakePte(f * 4096, true, true, false, false)
    ensures Present(Link(f)) && FrameOf(Link(f)) == f && IsEntry(Link(f), f * 4096, true, true, false, false)
  {
    PteBits(f * 4096, true, true, false, false, Link(f));
  }

  // ----- Page numbers -----

  function PageNumber(virt: nat): nat {
    (virt / 4096) % PAGES
  }

  /** virt_to_indices agrees with the prefixes of the page number. */
  lemma IndicesArePrefixes(virt: nat)
    ensures var v := PageNumber(virt);
            && v / 512 / 512 / 512 == (virt / 0x80_0000_0000) % 512
            && v / 512 / 512 % 512 == (virt / 0x4000_0000) % 512
            && v / 512 % 512 == (virt / 0x20_0000) % 512
            && v % 512 == (virt / 0x1000) % 512
  {
    var q := virt / 4096;
    assert virt / 0x20_0000 == q / 512;
    assert virt / 0x4000_0000 == q / 512 / 512;
    assert virt / 0x80_0000_0000 == q / 512 / 512 / 512;
    var v := q % PAGES;
    assert q == v + (q / PAGES) * PAGES;
    assert q / 512 == v / 512 + (q / PAGES) * 0x800_0000;
    assert q / 512 / 512 == v / 512 / 512 + (q / PAGES) * 0x4_0000;
    assert q / 512 / 512 / 512 == v / 512 / 512 / 512 + (q / PAGES) * 512;
  }

  /** The number of prefixes at a level. */
  function Size(level: nat): nat {
    if level == 0 then 1 else 512 * Size(level - 1)
  }

  lemma SizeOfLevels()
    ensures Size(1) == 512 && Size(2) == 0x4_0000 && Size(3) == 0x800_0000
  {
    assert Size(1) == 512 * Size(0);
    assert Size(2) == 512 * Size(1);
    assert Size(3) == 512 * Size(2);
  }

  // ----- The walk -----

  /** The frame of the table at `level` for the page-number prefix `p`. */
  function Table(m: Mem, root: nat, level: nat, p: nat): Option<nat>
    requires WellFormedMem(m)
  {
    if level == 0 then Some(root)
    else
      var parent := Table(m, root, level - 1, p / 512);
      if parent.Some? && parent.value < |m| && Present(m[parent.value][p % 512])
      then Some(FrameOf(m[parent.value][p % 512]))
      else None
  }

  /** The present leaf entry for page number `v`. */
  function Lookup(m: Mem, root: nat, v: nat): Option<nat>
    requires WellFormedMem(m)
  {
    var t := Table(m, root, 3, v / 512);
    if t.Some? && t.value < |m| && Present(m[t.value][v % 512]) then Some(m[t.value][v % 512]) else None
  }

  // ----- Address spaces -----

  datatype Space = Space(mem: Mem, a: Alloc, root: nat)

  ghost predicate IsTable(s: Space, level: nat, p: nat, f: nat)
    requires WellFormedMem(s.mem)
  {
    level <= 3 && p < Size(level) && Table(s.mem, s.root, level, p) == Some(f)
  }

  /** The allocator manages frames that exist, and frame numbers fit in an entry. */
  ghost predicate Sized(s: Space) {
    && WellFormedMem(s.mem) && WellFormed(s.a)
    && s.a.maxPages <= |s.mem| <= TWO_64 / 4096
    && s.root < |s.mem|
  }

  /** The frame of the root is not managed, or marked used. */
  ghost predicate RootKept(s: Space)
    requires Sized(s)
  {
    s.root < s.a.maxPages ==> s.a.bits[s.root]
  }

  ghost predicate Shaped(s: Space) {
    Sized(s) && RootKept(s)
  }

  /** Table frames other than the root are managed, nonzero and marked used. */
  ghost predicate TablesUsed(s: Space)
    requires Shaped(s)
  {
    forall level: nat, p: nat, f: nat :: IsTable(s, level, p, f) && level > 0 ==> 0 < f < s.a.maxPages && s.a.bits[f]
  }

  /** No frame serves as two tables. */
  ghost predicate TablesDistinct(s: Space)
    requires Shaped(s)
  {
    forall level: nat, p: nat, f: nat, level': nat, p': nat :: IsTable(s, level, p, f) && IsTable(s, level', p', f) ==>
      level == level' && p == p'
  }

  ghost predicate Inv(s: Space) {
    Shaped(s) && TablesUsed(s) && TablesDistinct(s)
  }

  /** The flat map the walk refines: page number to present entry. */
  ghost function Flat(s: Space): map<nat, nat>
    requires WellFormedMem(s.mem)
  {
    map v: nat | v < PAGES && Lookup(s.mem, s.root, v).Some? :: Lookup(s.mem, s.root, v).value
  }

  // ----- Frames that are not tables -----

  ghost predicate NotATable(s: Space, g: nat)
    requires WellFormedMem(s.mem)
  {
    forall level: nat, p: nat :: !IsTable(s, level, p, g)
  }

  /** Rewriting a frame that is no table moves no table. */
  lemma {:induction false} WriteElsewhere(s: Space, g: nat, words: seq<nat>, level: nat, p: nat)
    requires Shaped(s) && g < |s.mem| && |words| == 512 && NotATable(s, g)
    requires level <= 3 && p < Size(level)
    ensures Table(s.mem[g := words], s.root, level, p) == Table(s.mem, s.root, level, p)
  {
    if level != 0 {
      WriteElsewhere(s, g, words, level - 1, p / 512);
      assert !IsTable(s, level - 1, p / 512, g);
    }
  }

  lemma WriteElsewhereKeepsLookup(s: Space, g: nat, words: seq<nat>, v: nat)
    requires Shaped(s) && g < |s.mem| && |words| == 512 && NotATable(s, g) && v < PAGES
    ensures Lookup(s.mem[g := words], s.root, v) == Lookup(s.mem, s.root, v)
  {
    SizeOfLevels();
    WriteElsewhere(s, g, words, 3, v / 512);
    assert !IsTable(s, 3, v / 512, g);
  }

  /** A frame the bitmap calls free is no table. */
  lemma FreeFrameIsNoTable(s: Space, g: nat)
    requires Inv(s) && g < s.a.maxPages && !s.a.bits[g]
    ensures NotATable(s, g)
  {
    forall level: nat, p: nat ensures !IsTable(s, level, p, g) {
      if level == 0 {
        assert g != s.root;
      }
    }
  }

  // ----- Leaf writes -----

  lemma {:induction false} LeafWriteKeepsTables(s: Space, p3: nat, f: nat, i: nat, w: nat, level: nat, p: nat)
    requires Inv(s) && IsTable(s, 3, p3, f) && i < 512 && level <= 3 && p < Size(level)
    requires f < |s.mem|
    ensures Table(Store(s.mem, f, i, w), s.root, level, p) == Table(s.mem, s.root, level, p)
  {
    if level != 0 {
      LeafWriteKeepsTables(s, p3, f, i, w, level - 1, p / 512);
      assert !IsTable(s, level - 1, p / 512, f);
    }
  }

  /** Writing a leaf entry changes the lookup of its page and of no other. */
  lemma LeafWrite(s: Space, page: nat, f: nat, w: nat, v: nat)
    requires Inv(s) && page < PAGES && v < PAGES && f < |s.mem|
    requires Table(s.mem, s.root, 3, page / 512) == Some(f)
    ensures Lookup(Store(s.mem, f, page % 512, w), s.root, v) ==
            if v == page then (if Present(w) then Some(w) else None) else Lookup(s.mem, s.root, v)
  {
    SizeOfLevels();
    assert IsTable(s, 3, page / 512, f);
    LeafWriteKeepsTables(s, page / 512, f, page % 512, w, 3, v / 512);
    StoreRead(s.mem, f, page % 512, w, f, v % 512);
    if v / 512 != page / 512 {
      assert !IsTable(s, 3, v / 512, f);
    }
  }

  // ----- Linking a new table -----

  /** The memory after a zeroed frame `g` is linked at entry `i` of table `f`. */
  function Linked(m: Mem, f: nat, i: nat, g: nat): Mem
    requires WellFormedMem(m) && f < |m| && g < |m| && i < 512
  {
    Store(m[g := Zeros()], f, i, Link(g))
  }

  ghost predicate CanLink(s: Space, level: nat, p: nat, f: nat, i: nat, g: nat) {
    && Inv(s) && level < 3 && IsTable(s, level, p, f) && f < |s.mem|
    && i < 512 && !Present(s.mem[f][i])
    && g < |s.mem| && NotATable(s, g)
  }

  lemma LinkedRead(m: Mem, f: nat, i: nat, g: nat, h: nat, j: nat)
    requires WellFormedMem(m) && f < |m| && g < |m| && h < |m| && f != g && i < 512 && j < 512
    ensures |Linked(m, f, i, g)| == |m| && WellFormedMem(Linked(m, f, i, g))
    ensures Linked(m, f, i, g)[h][j] ==
            if h == f && j == i then Link(g) else if h == g then 0 else m[h][j]
  {
    StoreRead(m[g := Zeros()], f, i, Link(g), h, j);
  }

  lemma Split(q: nat, p: nat, i: nat)
    requires i < 512
    ensures q == p * 512 + i <==> q / 512 == p && q % 512 == i
  {
  }

  lemma LinkTargetsDiffer(s: Space, level: nat, p: nat, f: nat, i: nat, g: nat)
    requires CanLink(s, level, p, f, i, g)
    ensures f != g
  {
    assert !IsTable(s, level, p, g);
  }

  /** Linking adds one table, at the prefix one level down, and changes no other. */
  lemma {:induction false} LinkAddsOneTable(s: Space, level: nat, p: nat, f: nat, i: nat, g: nat, l: nat, q: nat)
    requires CanLink(s, level, p, f, i, g) && l <= 3 && q < Size(l)
    ensures Table(Linked(s.mem, f, i, g), s.root, l, q) ==
            if l == level + 1 && q == p * 512 + i then Some(g) else Table(s.mem, s.root, l, q)
  {
    LinkTargetsDiffer(s, level, p, f, i, g);
    if l != 0 {
      LinkAddsOneTable(s, level, p, f, i, g, l - 1, q / 512);
      LinkStep(s, level, p, f, i, g, l, q);
    }
  }

  lemma LinkStep(s: Space, level: nat, p: nat, f: nat, i: nat, g: nat, l: nat, q: nat)
    requires CanLink(s, level, p, f, i, g) && f != g && 0 < l <= 3 && q < Size(l)
    requires Table(Linked(s.mem, f, i, g), s.root, l - 1, q / 512) ==
             if l == level + 2 && q / 512 == p * 512 + i then Some(g) else Table(s.mem, s.root, l - 1, q / 512)
    ensures Table(Linked(s.mem, f, i, g), s.root, l, q) ==
            if l == level + 1 && q == p * 512 + i then Some(g) else Table(s.mem, s.root, l, q)
  {
    Split(q, p, i);
    if l == level + 2 && q / 512 == p * 512 + i {
      Split(q / 512, p, i);
      LinkedRead(s.mem, f, i, g, g, q % 512);
    } else {
      ParentOfStep(s, level, p, f, g, l, q);
      LinkStepAcross(s.mem, s.root, f, i, g, l, q);
    }
  }

  lemma ParentOfStep(s: Space, level: nat, p: nat, f: nat, g: nat, l: nat, q: nat)
    requires Inv(s) && IsTable(s, level, p, f) && NotATable(s, g) && 0 < l <= 3 && q < Size(l)
    ensures var parent := Table(s.mem, s.root, l - 1, q / 512);
            parent != Some(g) && (parent == Some(f) <==> l == level + 1 && q / 512 == p)
  {
    assert !IsTable(s, l - 1, q / 512, g);
    assert IsTable(s, l - 1, q / 512, f) ==> l - 1 == level && q / 512 == p;
  }

  lemma EntryOfParent(m: Mem, root: nat, l: nat, q: nat)
    requires WellFormedMem(m) && 0 < l
    ensures var parent := Table(m, root, l - 1, q / 512);
            Table(m, root, l, q) ==
            if parent.Some? && parent.value < |m| && Present(m[parent.value][q % 512])
            then Some(FrameOf(m[parent.value][q % 512])) else None
  {
  }

  lemma LinkStepAcross(m: Mem, root: nat, f: nat, i: nat, g: nat, l: nat, q: nat)
    requires WellFormedMem(m) && f < |m| && g < |m| && f != g && i < 512 && 0 < l
    requires WellFormedMem(Linked(m, f, i, g))
    requires Table(m, root, l - 1, q / 512) != Some(g)
    requires Table(Linked(m, f, i, g), root, l - 1, q / 512) == Table(m, root, l - 1, q / 512)
    ensures Table(Linked(m, f, i, g), root, l, q) ==
            if Table(m, root, l - 1, q / 512) == Some(f) && q % 512 == i then Some(g) else Table(m, root, l, q)
  {
    assert Present(Link(g)) && FrameOf(Link(g)) == g;
    var parent := Table(m, root, l - 1, q / 512);
    EntryOfParent(m, root, l, q);
    EntryOfParent(Linked(m, f, i, g), root, l, q);
    hide Linked, Link, FrameOf, Present, Table;
    if parent.Some? && parent.value < |m| {
      LinkedRead(m, f, i, g, parent.value, q % 512);
    }
  }

  lemma LinkKeepsLookup(s: Space, level: nat, p: nat, f: nat, i: nat, g: nat, v: nat)
    requires CanLink(s, level, p, f, i, g) && v < PAGES
    ensures Lookup(Linked(s.mem, f, i, g), s.root, v) == Lookup(s.mem, s.root, v)
  {
    SizeOfLevels();
    LinkTargetsDiffer(s, level, p, f, i, g);
    LinkAddsOneTable(s, level, p, f, i, g, 3, v / 512);
    var t := Table(s.mem, s.root, 3, v / 512);
    if level == 2 && v / 512 == p * 512 + i {
      Split(v / 512, p, i);
      LinkedRead(s.mem, f, i, g, g, v % 512);
    } else if t.Some? && t.value < |s.mem| {
      LinkedRead(s.mem, f, i, g, t.value, v % 512);
      assert IsTable(s, 3, v / 512, t.value);
      assert t.value != g;
    }
  }
}
