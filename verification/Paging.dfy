/** Paging as the kernel runs it: table words written in place, frames taken from the bitmap. */
module Paging {
  import opened Prelude
  import opened FrameAllocatorSpec
  import opened FrameBitmap
  import opened PageTables
  import opened PagingSpec
  import opened PagingRuns
  import opened PagingBoot

  /** Physical memory, reached through the direct map; `frames` is its contents as a value. */
  class PhysMem {
    const words: array2<nat>
    ghost var frames: Mem

    ghost predicate Valid()
      reads this, words
    {
      && words.Length1 == 512 && |frames| == words.Length0 && WellFormedMem(frames)
      && forall f, i :: 0 <= f < words.Length0 && 0 <= i < 512 ==> words[f, i] == frames[f][i]
    }

    constructor (n: nat)
      ensures Valid() && frames == seq(n, _ => Zeros()) && fresh(words)
    {
      words := new nat[n, 512]((_, _) => 0);
      frames := seq(n, _ => Zeros());
    }

    method Read(f: nat, i: nat) returns (w: nat)
      requires Valid() && f < |frames| && i < 512
      ensures w == frames[f][i]
    {
      w := words[f, i];
    }

    method Write(f: nat, i: nat, w: nat)
      requires Valid() && f < |frames| && i < 512
      modifies this, words
      ensures Valid() && frames == Store(old(frames), f, i, w)
    {
      words[f, i] := w;
      frames := Store(frames, f, i, w);
    }

    /** memset(page, 0, PAGE_SIZE) */
    method Zero(f: nat)
      requires Valid() && f < |frames|
      modifies this, words
      ensures Valid() && frames == old(frames)[f := Zeros()]
    {
      ghost var was := frames;
      var i := 0;
      while i < 512
        invariant 0 <= i <= 512
        invariant Valid() && |frames| == |was|
        invariant forall g :: 0 <= g < |was| && g != f ==> frames[g] == was[g]
        invariant forall j :: 0 <= j < i ==> frames[f][j] == 0
      {
        Write(f, i, 0);
        i := i + 1;
      }
      assert frames[f] == Zeros();
    }
  }

  class Vmm {
    const mem: PhysMem
    const alloc: FrameAllocator
    const pml4: nat

    ghost function State(): Space
      reads mem, alloc, alloc.bitmap
    {
      Space(mem.frames, alloc.State(), pml4)
    }

    ghost predicate Sound()
      reads mem, mem.words, alloc, alloc.bitmap, alloc.bitmap.words
    {
      mem.Valid() && alloc.Valid()
    }

    ghost predicate Valid()
      reads mem, mem.words, alloc, alloc.bitmap, alloc.bitmap.words
    {
      Sound() && Inv(State())
    }

    /** paging_init with an empty boot PML4: as it should be if and only if the allocator keeps its frame. */
    constructor (mem: PhysMem, alloc: FrameAllocator, pml4: nat)
      requires mem.Valid() && alloc.Valid()
      requires Sized(Space(mem.frames, alloc.State(), pml4)) && mem.frames[pml4] == Zeros()
      ensures this.mem == mem && this.alloc == alloc && this.pml4 == pml4
      ensures Sized(State()) && Flat(State()) == map[] && (Valid() <==> RootKept(State()))
    {
      this.mem := mem;
      this.alloc := alloc;
      this.pml4 := pml4;
      EmptyRoot(Space(mem.frames, alloc.State(), pml4));
    }

    /** allocate_page_table */
    method AllocateTable() returns (phys: nat)
      requires Sound() && Sized(State())
      modifies mem, mem.words, alloc, alloc.bitmap, alloc.bitmap.words
      ensures Sound() && State() == AllocTable(old(State())).0
      ensures phys == (match AllocTable(old(State())).1 case None => 0 case Some(g) => g * 4096)
    {
      AllocRunEffect(alloc.State(), 1);
      phys := alloc.AllocPage();
      if phys == 0 {
        return;
      }
      mem.Zero(phys / 4096);
    }

    /** One level of paging_map_page: create the table behind entry `i` if it is missing, then follow it. */
    method Follow(f: nat, i: nat) returns (ok: bool, next: nat)
      requires Sound() && Sized(State()) && f < |mem.frames| && i < 512
      modifies mem, mem.words, alloc, alloc.bitmap, alloc.bitmap.words
      ensures Sound() && State() == Descend(old(State()), f, i).0
      ensures (if ok then Some(next) else None) == Descend(old(State()), f, i).1
    {
      var entry := mem.Read(f, i);
      if !Present(entry) {
        AllocRunEffect(alloc.State(), 1);
        var phys := AllocateTable();
        if phys == 0 {
          return false, 0;
        }
        LinkIsPte(phys / 4096);
        mem.Write(f, i, MakePte(phys, true, true, false, false));
      }
      entry := mem.Read(f, i);
      return true, FrameOf(entry);
    }

    /** The descent of paging_map_page to the page table of `virt`. */
    method ReachPageTable(virt: U64) returns (ok: bool, pt: nat)
      requires Valid()
      modifies mem, mem.words, alloc, alloc.bitmap, alloc.bitmap.words
      ensures PageNumber(virt) / 512 < Size(3)
      ensures Sound() && State() == Reach(old(State()), 3, PageNumber(virt) / 512).0
      ensures (if ok then Some(pt) else None) == Reach(old(State()), 3, PageNumber(virt) / 512).1
    {
      IndicesArePrefixes(virt);
      ReachLevels(State(), PageNumber(virt));
      var pdp, pd;
      ok, pdp := Follow(pml4, (virt / 0x80_0000_0000) % 512);
      if !ok {
        return false, 0;
      }
      ok, pd := Follow(pdp, (virt / 0x4000_0000) % 512);
      if !ok {
        return false, 0;
      }
      ok, pt := Follow(pd, (virt / 0x20_0000) % 512);
    }

    /** paging_map_page */
    method MapPage(virt: U64, phys: U64, writable: bool, user: bool, nx: bool) returns (ret: int)
      requires Valid()
      modifies mem, mem.words, alloc, alloc.bitmap, alloc.bitmap.words
      ensures Valid()
      ensures State() ==
              PagingSpec.MapPage(old(State()), PageNumber(virt), MakePte(phys, true, writable, user, nx)).0
      ensures ret ==
              if PagingSpec.MapPage(old(State()), PageNumber(virt), MakePte(phys, true, writable, user, nx)).1
              then 0 else -1
      ensures Flat(State()) - {PageNumber(virt)} == Flat(old(State())) - {PageNumber(virt)}
      ensures if ret == 0 then PageNumber(virt) in Flat(State())
                               && IsEntry(Flat(State())[PageNumber(virt)], phys, true, writable, user, nx)
              else Flat(State()) == Flat(old(State()))
    {
      ghost var s, v := State(), PageNumber(virt);
      EntryAfterMap(s, virt, phys, writable, user, nx);
      var ok, pt := ReachPageTable(virt);
      ReachEffect(s, 3, v / 512);
      if !ok {
        return -1;
      }
      IndicesArePrefixes(virt);
      mem.Write(pt, (virt / 0x1000) % 512, MakePte(phys, true, writable, user, nx));
      return 0;
    }

    method MapNthPage(virt: U64, phys: U64, i: nat, fl: Flags) returns (ret: int)
      requires Valid()
      modifies mem, mem.words, alloc, alloc.bitmap, alloc.bitmap.words
      ensures Valid()
      ensures State() == MapNth(old(State()), virt, phys, i, fl).0
      ensures ret == if MapNth(old(State()), virt, phys, i, fl).1 then 0 else -1
    {
      ret := MapPage(Nth(virt, i), Nth(phys, i), fl.writable, fl.user, fl.nx);
    }

    /** paging_map_range */
    method MapRange(virt: U64, phys: U64, n: nat, fl: Flags) returns (ret: int)
      requires Valid()
      modifies mem, mem.words, alloc, alloc.bitmap, alloc.bitmap.words
      ensures Valid()
      ensures State() == PagingRuns.MapRange(old(State()), virt, phys, n, fl).0
      ensures ret == if PagingRuns.MapRange(old(State()), virt, phys, n, fl).1 == n then 0 else -1
      ensures ret == 0 && n <= PAGES ==> forall i :: 0 <= i < n ==>
                var page := PageNumber((virt + i * 4096) % TWO_64);
                page in Flat(State())
                && IsEntry(Flat(State())[page], (phys + i * 4096) % TWO_64, true, fl.writable, fl.user, fl.nx)
    {
      ghost var s := State();
      var i := 0;
      while i < n
        invariant 0 <= i <= n && Valid()
        invariant PagingRuns.MapRange(s, virt, phys, i, fl) == (State(), i)
      {
        RangeStep(s, State(), virt, phys, i, fl);
        var r := MapNthPage(virt, phys, i, fl);
        if r != 0 {
          RangeStaysStopped(s, virt, phys, i + 1, n, fl);
          return -1;
        }
        i := i + 1;
      }
      if n <= PAGES {
        forall k | 0 <= k < n
          ensures var page := PageNumber((virt + k * 4096) % TWO_64);
                  page in Flat(State())
                  && IsEntry(Flat(State())[page], (phys + k * 4096) % TWO_64, true, fl.writable, fl.user, fl.nx)
        {
          RangeEntry(s, virt, phys, n, fl, k);
        }
      }
      return 0;
    }

    /** The read-only walk: the page table of `virt` and its present leaf entry. */
    method Walk(virt: U64) returns (mapped: bool, pt: nat, entry: nat)
      requires Valid()
      ensures (if mapped then Some(entry) else None) == Lookup(mem.frames, pml4, PageNumber(virt))
      ensures mapped ==> Table(mem.frames, pml4, 3, PageNumber(virt) / 512) == Some(pt)
    {
      IndicesArePrefixes(virt);
      TablesInBounds(State(), PageNumber(virt));
      entry := mem.Read(pml4, (virt / 0x80_0000_0000) % 512);
      if !Present(entry) {
        return false, 0, 0;
      }
      entry := mem.Read(FrameOf(entry), (virt / 0x4000_0000) % 512);
      if !Present(entry) {
        return false, 0, 0;
      }
      entry := mem.Read(FrameOf(entry), (virt / 0x20_0000) % 512);
      if !Present(entry) {
        return false, 0, 0;
      }
      pt := FrameOf(entry);
      entry := mem.Read(pt, (virt / 0x1000) % 512);
      return Present(entry), pt, entry;
    }

    /** paging_unmap_page */
    method UnmapPage(virt: U64) returns (ret: int)
      requires Valid()
      modifies mem, mem.words
      ensures Valid()
      ensures State() == PagingSpec.UnmapPage(old(State()), PageNumber(virt)).0
      ensures ret == if PageNumber(virt) in Flat(old(State())) then 0 else -1
    {
      UnmapPageEffect(State(), PageNumber(virt));
      var mapped, pt, _ := Walk(virt);
      if !mapped {
        return -1;
      }
      IndicesArePrefixes(virt);
      mem.Write(pt, (virt / 0x1000) % 512, 0);
      return 0;
    }

    /** paging_virt_to_phys */
    method VirtToPhys(virt: U64) returns (phys: nat)
      requires Valid()
      ensures phys == PagingSpec.VirtToPhys(State(), virt)
      ensures PageNumber(virt) !in Flat(State()) ==> phys == 0
    {
      var mapped, _, entry := Walk(virt);
      phys := if mapped then entry - entry % 4096 + virt % 4096 else 0;
    }

    /** paging_is_mapped */
    method IsMapped(virt: U64) returns (mapped: bool)
      requires Valid()
      ensures mapped <==> PageNumber(virt) in Flat(State())
    {
      var present, _, _ := Walk(virt);
      mapped := present;
    }
  }

  lemma RangeStep(s: Space, s1: Space, virt: nat, phys: nat, i: nat, fl: Flags)
    requires Inv(s) && Inv(s1) && PagingRuns.MapRange(s, virt, phys, i, fl) == (s1, i)
    ensures PagingRuns.MapRange(s, virt, phys, i + 1, fl) ==
            (MapNth(s1, virt, phys, i, fl).0, if MapNth(s1, virt, phys, i, fl).1 then i + 1 else i)
  {
    MapNthEffect(s1, virt, phys, i, fl);
  }

  /** Once a page fails to map, the range maps no more. */
  lemma {:induction false} RangeStaysStopped(s: Space, virt: nat, phys: nat, i: nat, n: nat, fl: Flags)
    requires Inv(s) && i <= n && PagingRuns.MapRange(s, virt, phys, i, fl).1 < i
    ensures PagingRuns.MapRange(s, virt, phys, n, fl) == PagingRuns.MapRange(s, virt, phys, i, fl)
  {
    if i < n {
      RangeStaysStopped(s, virt, phys, i, n - 1, fl);
    }
  }

  lemma TablesInBounds(s: Space, v: nat)
    requires Inv(s) && v < PAGES
    ensures var t1 := Table(s.mem, s.root, 1, v / 512 / 512 / 512);
            && t1 == (if Present(s.mem[s.root][v / 512 / 512 / 512])
                      then Some(FrameOf(s.mem[s.root][v / 512 / 512 / 512])) else None)
            && (t1.Some? ==> t1.value < |s.mem|)
    ensures var t2 := Table(s.mem, s.root, 2, v / 512 / 512); t2.Some? ==> t2.value < |s.mem|
    ensures var t3 := Table(s.mem, s.root, 3, v / 512); t3.Some? ==> t3.value < |s.mem|
  {
    SizeOfLevels();
    assert Table(s.mem, s.root, 0, 0) == Some(s.root);
    var t1 := Table(s.mem, s.root, 1, v / 512 / 512 / 512);
    assert t1.Some? ==> IsTable(s, 1, v / 512 / 512 / 512, t1.value);
    var t2 := Table(s.mem, s.root, 2, v / 512 / 512);
    assert t2.Some? ==> IsTable(s, 2, v / 512 / 512, t2.value);
    var t3 := Table(s.mem, s.root, 3, v / 512);
    assert t3.Some? ==> IsTable(s, 3, v / 512, t3.value);
  }

  /** A start that meets what the walk relies on: the frame of the PML4 is reserved before any is handed out. */
  method Boot(entries: seq<E820Entry>, pml4: nat, n: nat) returns (vmm: Vmm)
    requires pml4 < n && BytesToPages(TotalFree(entries)) <= n <= TWO_64 / 4096
    ensures vmm.Valid() && Flat(vmm.State()) == map[] && vmm.pml4 == pml4
  {
    var alloc := new FrameAllocator(entries);
    ReserveRunBits(alloc.State(), pml4, 1);
    alloc.Reserve(pml4 * PAGE_SIZE, 1);
    var mem := new PhysMem(n);
    vmm := new Vmm(mem, alloc, pml4);
  }

  lemma ReachLevels(s: Space, v: nat)
    requires Inv(s) && v < PAGES
    ensures v / 512 / 512 / 512 < Size(1) && v / 512 / 512 < Size(2) && v / 512 < Size(3)
    ensures Reach(s, 1, v / 512 / 512 / 512) == Descend(s, s.root, v / 512 / 512 / 512)
    ensures var (s1, t1) := Reach(s, 1, v / 512 / 512 / 512);
            && Reached(s, s1, 1, v / 512 / 512 / 512, t1)
            && Reach(s, 2, v / 512 / 512) ==
               if t1.None? then (s1, None) else Descend(s1, t1.value, v / 512 / 512 % 512)
    ensures var (s2, t2) := Reach(s, 2, v / 512 / 512);
            && Reached(s, s2, 2, v / 512 / 512, t2)
            && Reach(s, 3, v / 512) == if t2.None? then (s2, None) else Descend(s2, t2.value, v / 512 % 512)
    ensures Reached(s, Reach(s, 3, v / 512).0, 3, v / 512, Reach(s, 3, v / 512).1)
  {
    SizeOfLevels();
    ReachEffect(s, 1, v / 512 / 512 / 512);
    ReachEffect(s, 2, v / 512 / 512);
    ReachEffect(s, 3, v / 512);
    assert Reach(s, 0, 0) == (s, Some(s.root));
  }
}
