/**
 * The mapping operations of kernel/mm/paging_impl.c on address spaces as values, and what
 * they keep: single operations first, then every run.
 */
module PagingSpec {
  import opened Prelude
  import opened FrameAllocatorSpec
  import opened PageTables

  // ----- Operations -----

  /**
   * allocate_page_table: one zeroed frame. Page 0 cannot be told from failure, so when the
   * allocator hands it out it is marked used and lost.
   */
  ghost function AllocTable(s: Space): (Space, Option<nat>)
    requires Sized(s)
  {
    var (a, page) := AllocRun(s.a, 1);
    AllocRunEffect(s.a, 1);
    match page
    case None => (s.(a := a), None)
    case Some(g) =>
      if g == 0 then (s.(a := a), None)
      else (s.(a := a, mem := s.mem[g := Zeros()]), Some(g))
  }

  /** One level of paging_map_page: follow the entry, or link a new table there first. */
  ghost function Descend(s: Space, f: nat, i: nat): (Space, Option<nat>)
    requires Sized(s) && f < |s.mem| && i < 512
  {
    if Present(s.mem[f][i]) then (s, Some(FrameOf(s.mem[f][i])))
    else
      AllocRunEffect(s.a, 1);
      var (s', page) := AllocTable(s);
      match page
      case None => (s', None)
      case Some(g) =>
        assert s'.mem == s.mem[g := Zeros()] && |s'.mem[f]| == 512;
        (s'.(mem := Store(s'.mem, f, i, Link(g))), Some(g))
  }

  /** The descent to the table at `level` for prefix `p`, creating missing tables on the way. */
  ghost function Reach(s: Space, level: nat, p: nat): (Space, Option<nat>)
    requires Inv(s) && level <= 3 && p < Size(level)
    decreases level, 0
  {
    if level == 0 then (s, Some(s.root))
    else
      ReachEffect(s, level - 1, p / 512);
      var (s', parent) := Reach(s, level - 1, p / 512);
      if parent.None? then (s', None) else Descend(s', parent.value, p % 512)
  }

  /** paging_map_page: writes `w` as the entry of page number `v`. */
  ghost function MapPage(s: Space, v: nat, w: nat): (Space, bool)
    requires Inv(s) && v < PAGES
  {
    SizeOfLevels();
    ReachEffect(s, 3, v / 512);
    var (s', pt) := Reach(s, 3, v / 512);
    if pt.None? then (s', false) else (s'.(mem := Store(s'.mem, pt.value, v % 512, w)), true)
  }

  /** paging_unmap_page */
  ghost function UnmapPage(s: Space, v: nat): (Space, bool)
    requires Inv(s) && v < PAGES
  {
    if Lookup(s.mem, s.root, v).None? then (s, false)
    else (s.(mem := Store(s.mem, Table(s.mem, s.root, 3, v / 512).value, v % 512, 0)), true)
  }

  /** paging_virt_to_phys: 0 when the page is not mapped. */
  ghost function VirtToPhys(s: Space, virt: nat): nat
    requires WellFormedMem(s.mem)
  {
    match Lookup(s.mem, s.root, PageNumber(virt))
    case None => 0
    case Some(w) => w - w % 4096 + virt % 4096
  }

  // ----- One level down -----

  /** What every operation that maps no page keeps: the invariant, the sizes, every translation. */
  ghost predicate Keeps(s: Space, s': Space) {
    && Shaped(s) && Inv(s') && s'.root == s.root && |s'.mem| == |s.mem| && s'.a.maxPages == s.a.maxPages
    && |s'.a.bits| == |s.a.bits| && Slack(s'.a) == Slack(s.a)
    && (forall v: nat :: v < PAGES ==> Lookup(s'.mem, s'.root, v) == Lookup(s.mem, s.root, v))
  }

  /** Why a table could not be had: page 0 came up and was lost, or no frame is free. */
  ghost predicate Starved(s: Space, s': Space) {
    && WellFormed(s.a) && WellFormed(s'.a)
    && s'.a.maxPages == s.a.maxPages
    && ((0 < s.a.maxPages && !s.a.bits[0] && s'.a.bits[0]) || forall k :: 0 <= k < s'.a.maxPages ==> s'.a.bits[k])
  }

  ghost predicate Reached(s: Space, s': Space, level: nat, p: nat, t: Option<nat>) {
    && Keeps(s, s')
    && (forall k :: 0 <= k < s.a.maxPages && s.a.bits[k] ==> s'.a.bits[k])
    && (if t.Some? then t.value < |s.mem| && IsTable(s', level, p, t.value) else Starved(s, s'))
  }

  lemma ChildPrefix(level: nat, p: nat, i: nat)
    requires p < Size(level) && i < 512
    ensures p * 512 + i < Size(level + 1)
  {
  }

  lemma DescendPresent(s: Space, level: nat, p: nat, f: nat, i: nat)
    requires Inv(s) && level < 3 && IsTable(s, level, p, f) && f < |s.mem| && i < 512
    requires Present(s.mem[f][i])
    ensures Reached(s, s, level + 1, p * 512 + i, Some(FrameOf(s.mem[f][i])))
  {
    ChildPrefix(level, p, i);
    Split(p * 512 + i, p, i);
    assert IsTable(s, level + 1, p * 512 + i, FrameOf(s.mem[f][i]));
  }

  /** Marking a frame used that is no table keeps the invariant. */
  lemma UseFrame(s: Space, a: Alloc)
    requires Inv(s) && WellFormed(a) && a.maxPages == s.a.maxPages
    requires forall f :: 0 <= f < a.maxPages && s.a.bits[f] ==> a.bits[f]
    ensures Inv(s.(a := a))
  {
    var t := s.(a := a);
    assert forall level: nat, p: nat, f: nat :: IsTable(t, level, p, f) ==> IsTable(s, level, p, f);
  }

  lemma LinkKeepsInv(s: Space, level: nat, p: nat, f: nat, i: nat, g: nat)
    requires CanLink(s, level, p, f, i, g) && 0 < g < s.a.maxPages && s.a.bits[g]
    ensures Inv(s.(mem := Linked(s.mem, f, i, g)))
    ensures IsTable(s.(mem := Linked(s.mem, f, i, g)), level + 1, p * 512 + i, g)
  {
    LinkTargetsDiffer(s, level, p, f, i, g);
    LinkedRead(s.mem, f, i, g, f, i);
    ChildPrefix(level, p, i);
    var t := s.(mem := Linked(s.mem, f, i, g));
    forall l: nat, q: nat | l <= 3 && q < Size(l)
      ensures Table(t.mem, t.root, l, q) ==
              if l == level + 1 && q == p * 512 + i then Some(g) else Table(s.mem, s.root, l, q)
    {
      LinkAddsOneTable(s, level, p, f, i, g, l, q);
    }
    forall l: nat, q: nat, h: nat | IsTable(t, l, q, h)
      ensures if l == level + 1 && q == p * 512 + i then h == g else IsTable(s, l, q, h) && h != g
    {
      assert !IsTable(s, l, q, g);
    }
  }

  lemma AllocTableEffect(s: Space)
    requires Inv(s)
    ensures var (t, page) := AllocTable(s);
            && WellFormed(t.a) && t.a.maxPages == s.a.maxPages && |t.a.bits| == |s.a.bits|
            && Slack(t.a) == Slack(s.a) && t.root == s.root
            && (forall f :: 0 <= f < t.a.maxPages && s.a.bits[f] ==> t.a.bits[f])
            && match page
               case None => t.mem == s.mem && Starved(s, t)
               case Some(g) => 0 < g < s.a.maxPages && !s.a.bits[g] && t.a.bits[g] && t.mem == s.mem[g := Zeros()]
  {
    AllocRunEffect(s.a, 1);
    if AllocRun(s.a, 1).1.None? {
      forall k: nat | k < s.a.maxPages ensures s.a.bits[k] {
        assert !ClearRun(s.a.bits, k, 1);
      }
    }
  }

  lemma DescendMissing(s: Space, level: nat, p: nat, f: nat, i: nat)
    requires Inv(s) && level < 3 && IsTable(s, level, p, f) && f < |s.mem| && i < 512
    requires !Present(s.mem[f][i])
    ensures Reached(s, Descend(s, f, i).0, level + 1, p * 512 + i, Descend(s, f, i).1)
  {
    AllocTableEffect(s);
    var (t, page) := AllocTable(s);
    UseFrame(s, t.a);
    if page.Some? {
      var g := page.value;
      FreeFrameIsNoTable(s, g);
      assert CanLink(s, level, p, f, i, g);
      var u := s.(a := t.a);
      assert CanLink(u, level, p, f, i, g) by {
        assert forall l: nat, q: nat :: IsTable(u, l, q, g) ==> IsTable(s, l, q, g);
      }
      LinkKeepsInv(u, level, p, f, i, g);
      forall v: nat | v < PAGES
        ensures Lookup(Linked(s.mem, f, i, g), s.root, v) == Lookup(s.mem, s.root, v)
      {
        LinkKeepsLookup(s, level, p, f, i, g, v);
      }
    }
  }

  /** A level of the walk keeps the invariant and every translation, and ends in the child table. */
  lemma DescendEffect(s: Space, level: nat, p: nat, f: nat, i: nat)
    requires Inv(s) && level < 3 && IsTable(s, level, p, f) && f < |s.mem| && i < 512
    ensures Reached(s, Descend(s, f, i).0, level + 1, p * 512 + i, Descend(s, f, i).1)
  {
    if Present(s.mem[f][i]) {
      DescendPresent(s, level, p, f, i);
    } else {
      DescendMissing(s, level, p, f, i);
    }
  }

  lemma {:induction false} ReachEffect(s: Space, level: nat, p: nat)
    requires Inv(s) && level <= 3 && p < Size(level)
    ensures Reached(s, Reach(s, level, p).0, level, p, Reach(s, level, p).1)
    decreases level, 1
  {
    if level != 0 {
      ReachEffect(s, level - 1, p / 512);
      var (s1, parent) := Reach(s, level - 1, p / 512);
      if parent.Some? {
        DescendEffect(s1, level - 1, p / 512, parent.value, p % 512);
        ReachedThrough(s, s1, Descend(s1, parent.value, p % 512).0, level, p, Descend(s1, parent.value, p % 512).1);
      }
    }
  }

  lemma ReachedThrough(s: Space, s1: Space, s2: Space, level: nat, p: nat, t: Option<nat>)
    requires Keeps(s, s1) && Reached(s1, s2, level, p, t)
    requires forall k :: 0 <= k < s.a.maxPages && s.a.bits[k] ==> s1.a.bits[k]
    ensures Reached(s, s2, level, p, t)
  {
  }

  // ----- What the operations do to the flat map -----

  lemma SameLookupsSameFlat(s: Space, t: Space)
    requires WellFormedMem(s.mem) && WellFormedMem(t.mem)
    requires forall v: nat :: v < PAGES ==> Lookup(t.mem, t.root, v) == Lookup(s.mem, s.root, v)
    ensures Flat(t) == Flat(s)
  {
  }

  lemma OneLookupChanged(s: Space, m: Mem, page: nat, w: nat)
    requires WellFormedMem(s.mem) && WellFormedMem(m) && page < PAGES
    requires forall v: nat :: v < PAGES ==>
      Lookup(m, s.root, v) ==
      if v == page then (if Present(w) then Some(w) else None) else Lookup(s.mem, s.root, v)
    ensures Flat(s.(mem := m)) == if Present(w) then Flat(s)[page := w] else Flat(s) - {page}
  {
  }

  lemma LeafWriteKeepsInv(s: Space, page: nat, f: nat, w: nat)
    requires Inv(s) && page < PAGES && f < |s.mem| && Table(s.mem, s.root, 3, page / 512) == Some(f)
    ensures Inv(s.(mem := Store(s.mem, f, page % 512, w)))
  {
    SizeOfLevels();
    StoreRead(s.mem, f, page % 512, w, f, 0);
    var t := s.(mem := Store(s.mem, f, page % 512, w));
    assert IsTable(s, 3, page / 512, f);
    forall l: nat, p: nat, h: nat | IsTable(t, l, p, h) ensures IsTable(s, l, p, h) {
      LeafWriteKeepsTables(s, page / 512, f, page % 512, w, l, p);
    }
  }

  lemma LeafWriteUpdatesFlat(s: Space, page: nat, f: nat, w: nat)
    requires Inv(s) && page < PAGES && f < |s.mem| && Table(s.mem, s.root, 3, page / 512) == Some(f)
    ensures WellFormedMem(Store(s.mem, f, page % 512, w))
    ensures Flat(s.(mem := Store(s.mem, f, page % 512, w))) ==
            if Present(w) then Flat(s)[page := w] else Flat(s) - {page}
  {
    StoreRead(s.mem, f, page % 512, w, f, 0);
    var m := Store(s.mem, f, page % 512, w);
    forall v: nat | v < PAGES
      ensures Lookup(m, s.root, v) ==
              if v == page then (if Present(w) then Some(w) else None) else Lookup(s.mem, s.root, v)
    {
      LeafWrite(s, page, f, w, v);
    }
    OneLookupChanged(s, m, page, w);
  }

  /**
   * paging_map_page refines one update of the flat map. It fails only for want of a frame,
   * and then changes no translation.
   */
  lemma MapPageEffect(s: Space, v: nat, w: nat)
    requires Inv(s) && v < PAGES && Present(w)
    ensures var (t, ok) := MapPage(s, v, w);
            && Inv(t) && t.root == s.root && Slack(t.a) == Slack(s.a) && t.a.maxPages == s.a.maxPages
            && Flat(t) == (if ok then Flat(s)[v := w] else Flat(s))
            && (!ok ==> Starved(s, t))
  {
    SizeOfLevels();
    ReachEffect(s, 3, v / 512);
    var (s', pt) := Reach(s, 3, v / 512);
    SameLookupsSameFlat(s, s');
    if pt.Some? {
      LeafWriteKeepsInv(s', v, pt.value, w);
      LeafWriteUpdatesFlat(s', v, pt.value, w);
    }
  }

  /** paging_unmap_page succeeds exactly on mapped pages and removes only that page. */
  lemma UnmapPageEffect(s: Space, v: nat)
    requires Inv(s) && v < PAGES
    ensures var (t, ok) := UnmapPage(s, v);
            && Inv(t) && t.root == s.root && t.a == s.a
            && (ok <==> v in Flat(s)) && Flat(t) == Flat(s) - {v}
  {
    if Lookup(s.mem, s.root, v).Some? {
      var f := Table(s.mem, s.root, 3, v / 512).value;
      LeafWriteKeepsInv(s, v, f, 0);
      LeafWriteUpdatesFlat(s, v, f, 0);
    }
  }

  /** After a successful map the page has exactly the entry asked for; a failed one changes no entry. */
  lemma EntryAfterMap(s: Space, virt: nat, phys: U64, writable: bool, user: bool, nx: bool)
    requires Inv(s)
    ensures var page := PageNumber(virt);
            var (t, ok) := MapPage(s, page, MakePte(phys, true, writable, user, nx));
            && Inv(t) && Flat(t) - {page} == Flat(s) - {page}
            && if ok then page in Flat(t) && IsEntry(Flat(t)[page], phys, true, writable, user, nx) else Flat(t) == Flat(s)
  {
    var w := MakePte(phys, true, writable, user, nx);
    PteBits(phys, true, writable, user, nx, w);
    PteAddress(phys, writable, user, nx);
    MapPageEffect(s, PageNumber(virt), w);
  }

  /**
   * After a successful map, the address translates to its frame plus its offset if and only
   * if NX was not asked for (or the address already has bit 63): the flag stays in the result.
   */
  lemma TranslationAfterMap(s: Space, virt: nat, phys: U64, writable: bool, user: bool, nx: bool, addr: nat)
    requires Inv(s) && PageNumber(addr) == PageNumber(virt)
    requires MapPage(s, PageNumber(virt), MakePte(phys, true, writable, user, nx)).1
    ensures var t := MapPage(s, PageNumber(virt), MakePte(phys, true, writable, user, nx)).0;
            && Inv(t)
            && (VirtToPhys(t, addr) == phys - phys % 4096 + addr % 4096 <==> !nx || phys >= TWO_63)
  {
    var w := MakePte(phys, true, writable, user, nx);
    PteAddress(phys, writable, user, nx);
    MapPageEffect(s, PageNumber(virt), w);
    TranslationFromFlat(MapPage(s, PageNumber(virt), w).0, addr, w);
  }

  lemma PteAddress(phys: U64, writable: bool, user: bool, nx: bool)
    ensures var w := MakePte(phys, true, writable, user, nx);
            Present(w) && (w - w % 4096 == phys - phys % 4096 <==> !nx || phys >= TWO_63)
  {
  }

  lemma TranslationFromFlat(s: Space, addr: nat, w: nat)
    requires Inv(s) && PageNumber(addr) in Flat(s) && Flat(s)[PageNumber(addr)] == w
    ensures VirtToPhys(s, addr) == w - w % 4096 + addr % 4096
  {
  }

  // ----- When a map succeeds -----

  /** How many tables are missing on the way to the table at `level` for prefix `p`. */
  ghost function Missing(s: Space, level: nat, p: nat): nat
    requires WellFormedMem(s.mem)
  {
    if level == 0 || Table(s.mem, s.root, level, p).Some? then 0 else 1 + Missing(s, level - 1, p / 512)
  }

  /** What a caller can check: frame 0 is not free, and there is a free frame for each missing table. */
  ghost predicate EnoughFrames(a: Alloc, missing: nat) {
    missing == 0 || ((0 < a.maxPages <= |a.bits| ==> a.bits[0]) && missing <= ClearCount(a.bits))
  }

  /** A table can be had if and only if a frame is free and frame 0 is not; it uses up one free frame. */
  lemma AllocTableIff(s: Space)
    requires Inv(s)
    ensures var (t, page) := AllocTable(s);
            && (page.Some? <==> OneFrameToHave(s.a))
            && (page.Some? ==> ClearCount(t.a.bits) == ClearCount(s.a.bits) - 1 &&
                               (0 < s.a.maxPages ==> t.a.bits[0] == s.a.bits[0]))
  {
    OneFrameIff(s.a);
    AllocRunEffect(s.a, 1);
  }

  /** The descent with the count of frames, and the emptiness of tables it creates. */
  ghost predicate Spent(s: Space, s': Space, t: Option<nat>, missing: nat) {
    && (t.Some? <==> EnoughFrames(s.a, missing))
    && |s'.a.bits| == |s.a.bits| && s'.a.maxPages == s.a.maxPages <= |s.a.bits|
    && (missing == 0 ==> s' == s)
    && (t.Some? && missing > 0 ==>
          && ClearCount(s'.a.bits) == ClearCount(s.a.bits) - missing
          && (0 < s.a.maxPages ==> s'.a.bits[0])
          && t.value < |s'.mem| && s'.mem[t.value] == Zeros())
  }

  lemma DescendSpends(s: Space, level: nat, p: nat, f: nat, i: nat)
    requires Inv(s) && level < 3 && IsTable(s, level, p, f) && f < |s.mem| && i < 512
    ensures Spent(s, Descend(s, f, i).0, Descend(s, f, i).1, if Present(s.mem[f][i]) then 0 else 1)
  {
    DescendEffect(s, level, p, f, i);
    if !Present(s.mem[f][i]) {
      AllocTableEffect(s);
      AllocTableIff(s);
      var page := AllocTable(s).1;
      if page.Some? {
        FreeFrameIsNoTable(s, page.value);
        assert f != page.value;
      }
    }
  }

  lemma SpentTwice(s: Space, s1: Space, s2: Space, t1: Option<nat>, t2: Option<nat>, m1: nat, m2: nat)
    requires Spent(s, s1, t1, m1) && t1.Some? && Spent(s1, s2, t2, m2) && (m1 > 0 ==> 0 < m2)
    ensures Spent(s, s2, t2, m1 + m2)
  {
  }

  lemma SpentNone(s: Space, s1: Space, m: nat)
    requires Spent(s, s1, None, m)
    ensures m > 0
  {
  }

  lemma SpentInVain(s: Space, s1: Space, m: nat)
    requires Spent(s, s1, None, m) && m > 0
    ensures Spent(s, s1, None, m + 1)
  {
  }

  lemma {:induction false} ReachSpends(s: Space, level: nat, p: nat)
    requires Inv(s) && level <= 3 && p < Size(level)
    ensures Spent(s, Reach(s, level, p).0, Reach(s, level, p).1, Missing(s, level, p))
    decreases level
  {
    if level != 0 {
      ReachSpends(s, level - 1, p / 512);
      ReachEffect(s, level - 1, p / 512);
      hide Spent;
      var (s1, parent) := Reach(s, level - 1, p / 512);
      if parent.Some? {
        DescendSpends(s1, level - 1, p / 512, parent.value, p % 512);
        MissingBelow(s, level, p, s1, parent.value);
        var (s2, t) := Descend(s1, parent.value, p % 512);
        SpentTwice(s, s1, s2, parent, t, Missing(s, level - 1, p / 512), if Present(s1.mem[parent.value][p % 512]) then 0 else 1);
      } else {
        SpentNone(s, s1, Missing(s, level - 1, p / 512));
        NoneBelowMissing(s, level, p);
        SpentInVain(s, s1, Missing(s, level - 1, p / 512));
      }
    }
  }

  /** Below a missing table everything is missing. */
  lemma {:induction false} NoneBelowMissing(s: Space, level: nat, p: nat)
    requires WellFormedMem(s.mem) && 0 < level && Missing(s, level - 1, p / 512) > 0
    ensures Missing(s, level, p) == 1 + Missing(s, level - 1, p / 512)
  {
  }

  /** What is missing for the child shows in the entry of its parent, once that is there. */
  lemma MissingBelow(s: Space, level: nat, p: nat, s1: Space, f: nat)
    requires Inv(s) && Inv(s1) && 0 < level <= 3 && f < |s1.mem|
    requires p / 512 < Size(level - 1) && Reach(s, level - 1, p / 512) == (s1, Some(f))
    requires Spent(s, s1, Some(f), Missing(s, level - 1, p / 512)) && IsTable(s1, level - 1, p / 512, f)
    ensures Missing(s, level, p) == Missing(s, level - 1, p / 512) + if Present(s1.mem[f][p % 512]) then 0 else 1
    ensures Missing(s, level - 1, p / 512) > 0 ==> !Present(s1.mem[f][p % 512])
  {
    if Missing(s, level - 1, p / 512) > 0 {
      NoneBelowMissing(s, level, p);
      assert s1.mem[f][p % 512] == 0;
    } else {
      assert Table(s.mem, s.root, level - 1, p / 512) == Some(f);
      assert level - 1 == 0 || Table(s.mem, s.root, level - 1, p / 512).Some?;
    }
  }

  /**
   * The exact condition for paging_map_page: no table is missing on the way, or frame 0 is not free
   * and enough frames are.
   */
  lemma MapPageIff(s: Space, v: nat, w: nat)
    requires Inv(s) && v < PAGES
    ensures v / 512 < Size(3)
    ensures MapPage(s, v, w).1 <==> EnoughFrames(s.a, Missing(s, 3, v / 512))
  {
    SizeOfLevels();
    ReachSpends(s, 3, v / 512);
  }

  /** While frame 0 is free, a map that needs a table fails, and frame 0 is lost. */
  lemma {:induction false} ReachWhilePageZeroIsFree(s: Space, level: nat, p: nat)
    requires Inv(s) && level <= 3 && p < Size(level) && 0 < s.a.maxPages && !s.a.bits[0] && Missing(s, level, p) > 0
    ensures Reach(s, level, p).1 == None && Reach(s, level, p).0.a.bits == s.a.bits[0 := true]
    decreases level
  {
    if Missing(s, level - 1, p / 512) > 0 {
      ReachWhilePageZeroIsFree(s, level - 1, p / 512);
    } else {
      ReachSpends(s, level - 1, p / 512);
      ReachEffect(s, level - 1, p / 512);
      var (s1, parent) := Reach(s, level - 1, p / 512);
      MissingBelow(s, level, p, s1, parent.value);
      AllocRunEffect(s.a, 1);
      assert ClearRun(s.a.bits, 0, 1);
      assert Descend(s, parent.value, p % 512).0.a.bits == s.a.bits[0 := true];
    }
  }

  lemma MapFailsWhilePageZeroIsFree(s: Space, v: nat, w: nat)
    requires Inv(s) && v < PAGES && 0 < s.a.maxPages && !s.a.bits[0] && Missing(s, 3, v / 512) > 0
    ensures !MapPage(s, v, w).1 && MapPage(s, v, w).0.a.bits == s.a.bits[0 := true]
  {
    SizeOfLevels();
    ReachWhilePageZeroIsFree(s, 3, v / 512);
  }

  /** Each table is referenced by one entry of one table only. */
  lemma TablesHaveOneParent(s: Space, l: nat, p: nat, f: nat, i: nat, l': nat, p': nat, f': nat, i': nat)
    requires Inv(s) && l < 3 && l' < 3 && IsTable(s, l, p, f) && IsTable(s, l', p', f')
    requires f < |s.mem| && f' < |s.mem| && i < 512 && i' < 512
    requires Present(s.mem[f][i]) && Present(s.mem[f'][i']) && FrameOf(s.mem[f][i]) == FrameOf(s.mem[f'][i'])
    ensures f == f' && i == i' && l == l' && p == p'
  {
    DescendPresent(s, l, p, f, i);
    DescendPresent(s, l', p', f', i');
    Split(p * 512 + i, p, i);
    Split(p' * 512 + i', p', i');
  }
}
