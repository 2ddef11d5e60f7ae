/**
 * The slab allocator (kernel/mm/slab.c) over physical memory: a slab is known by its header, which
 * has a pointer to the first free object, and the rest of the free list is in the free objects.
 * Every operation here reads and writes that memory, and is shown to do on the lists in memory what
 * SlabSpec does on sequences.
 */
module SlabMachine {
  import opened Prelude
  import opened FrameAllocatorSpec
  import opened SlabLayout
  import opened SlabMemory
  import opened SlabSpec

  /** What slab_t keeps about the free objects of its page. */
  datatype Header = Header(head: nat, numFree: int)

  /** Physical memory, and slab_cache_t with the headers of its slabs by page. */
  datatype Machine = Machine(mem: Mem, objSize: nat, headers: map<nat, Header>,
                             partial: seq<nat>, full: seq<nat>, empty: seq<nat>,
                             numSlabs: int, total: int, freeCount: int, allocs: int, frees: int)

  function EmptyMachine(mem: Mem, objSize: nat): Machine {
    Machine(mem, objSize, map[], [], [], [], 0, 0, 0, 0, 0)
  }

  // ----- Operations -----

  /** The first partial slab has a first free object in memory. */
  ghost predicate Takeable(k: Machine) {
    && k.partial != [] && k.partial[0] in k.headers
    && 0 < k.headers[k.partial[0]].head && k.headers[k.partial[0]].head + LINK_SIZE <= |k.mem|
  }

  /** slab_alloc from the first partial slab: its list goes on at the link found in the object. */
  ghost function TakeFirst(k: Machine): (Machine, nat)
    requires Takeable(k)
  {
    var p := k.partial[0];
    var obj := k.headers[p].head;
    var h := Header(LoadWord(k.mem, obj), k.headers[p].numFree - 1);
    var k' := k.(headers := k.headers[p := h], freeCount := k.freeCount - 1, allocs := k.allocs + 1);
    (if h.numFree == 0 then k'.(partial := k.partial[1..], full := [p] + k.full) else k', obj)
  }

  /** An empty slab moves to the head of the partial list. */
  function Promoted(k: Machine): Machine
    requires k.empty != []
  {
    k.(empty := k.empty[1..], partial := [k.empty[0]] + k.partial)
  }

  /** slab_create: links the slots of the page in memory and counts the new slab. */
  function Created(k: Machine, page: nat): Machine
    requires page + PAGE_SIZE <= |k.mem|
  {
    var n := NumObjs(k.objSize);
    k.(mem := Threaded(k.mem, k.objSize, page),
       headers := k.headers[page := Header(SlotAddr(k.objSize, page, 0), n)], partial := [page] + k.partial,
       numSlabs := k.numSlabs + 1, total := k.total + n, freeCount := k.freeCount + n)
  }

  ghost function TakeIfAny(k: Machine, a: Alloc): (Machine, Alloc, Option<nat>) {
    if Takeable(k) then (TakeFirst(k).0, a, Some(TakeFirst(k).1)) else (k, a, None)
  }

  /** slab_alloc */
  ghost function Allocate(k: Machine, a: Alloc, kmallocOk: bool): (Machine, Alloc, Option<nat>)
    requires WellFormed(a) && a.maxPages * PAGE_SIZE <= |k.mem|
  {
    if k.partial != [] then TakeIfAny(k, a)
    else if k.empty != [] then TakeIfAny(Promoted(k), a)
    else
      var (a', page) := AllocRun(a, 1);
      AllocRunEffect(a, 1);
      if page.None? || page.value == 0 then (k, a', None)
      else if !kmallocOk then (k, FreeRun(a', page.value, 1), None)
      else TakeIfAny(Created(k, page.value * PAGE_SIZE), a')
  }

  /** slab_free once it has found the slab: the object is linked in before the first free one. */
  function Pushed(k: Machine, p: nat, x: nat): Machine
    requires p in k.headers && x + LINK_SIZE <= |k.mem|
  {
    k.(mem := StoreWord(k.mem, x, k.headers[p].head),
       headers := k.headers[p := Header(x, k.headers[p].numFree + 1)],
       freeCount := k.freeCount + 1, frees := k.frees + 1)
  }

  /** slab_free, for any address. */
  function Release(k: Machine, x: nat): Machine {
    var p := PageOf(x);
    if p !in k.headers || |k.mem| < x + LINK_SIZE then k
    else if p in k.full then Pushed(k, p, x).(full := Without(k.full, p), partial := [p] + k.partial)
    else if p in k.partial then
      if k.headers[p].numFree + 1 == NumObjs(k.objSize)
      then Pushed(k, p, x).(partial := Without(k.partial, p), empty := [p] + k.empty)
      else Pushed(k, p, x)
    else k
  }

  function Dropped(k: Machine): Machine
    requires k.empty != [] && k.empty[0] in k.headers
  {
    var p := k.empty[0];
    k.(empty := k.empty[1..], headers := k.headers - {p}, numSlabs := k.numSlabs - 1,
       total := k.total - NumObjs(k.objSize), freeCount := k.freeCount - k.headers[p].numFree)
  }

  /** slab_shrink with limit `n`. */
  ghost function Shrunk(k: Machine, a: Alloc, n: nat): (Machine, Alloc, nat)
    requires WellFormed(a)
    decreases n
  {
    if n == 0 || k.empty == [] || k.empty[0] !in k.headers then (k, a, 0)
    else
      FreeRunKeeps(a, k.empty[0] / PAGE_SIZE, 1);
      var (k', a', freed) := Shrunk(Dropped(k), FreeRun(a, k.empty[0] / PAGE_SIZE, 1), n - 1);
      (k', a', freed + 1)
  }

  // ----- The lists in memory -----

  ghost predicate HeaderFits(m: Mem, h: Header, s: Slab) {
    h.numFree == s.numFree && Chain(m, h.head, s.free)
  }

  ghost predicate HeadersFit(m: Mem, headers: map<nat, Header>, slabs: map<nat, Slab>) {
    && (forall p :: p in headers <==> p in slabs)
    && (forall p :: p in slabs ==> HeaderFits(m, headers[p], slabs[p]))
  }

  lemma HeaderChanged(m: Mem, headers: map<nat, Header>, slabs: map<nat, Slab>, p: nat, h: Header, s: Slab)
    requires HeadersFit(m, headers, slabs) && HeaderFits(m, h, s)
    ensures HeadersFit(m, headers[p := h], slabs[p := s])
  {
    hide HeaderFits;
  }

  /** The machine stands for the cache: from each header, memory chains exactly the free list. */
  ghost predicate Represents(k: Machine, c: Cache) {
    && |k.mem| <= TWO_64 && k.objSize == c.objSize && MIN_OBJ_SIZE <= c.objSize
    && k.partial == c.partial && k.full == c.full && k.empty == c.empty
    && k.numSlabs == c.numSlabs && k.total == c.total && k.freeCount == c.freeCount
    && k.allocs == c.allocs && k.frees == c.frees
    && HeadersFit(k.mem, k.headers, c.slabs)
  }

  /** Memory determines the free lists. */
  lemma RepresentedIsUnique(k: Machine, c: Cache, d: Cache)
    requires Represents(k, c) && Represents(k, d)
    ensures c == d
  {
    forall p | p in c.slabs ensures c.slabs[p] == d.slabs[p] {
      ChainIsUnique(k.mem, k.headers[p].head, c.slabs[p].free, d.slabs[p].free);
    }
    assert c.slabs == d.slabs;
  }

  lemma EmptyRepresents(mem: Mem, objSize: nat)
    requires |mem| <= TWO_64 && MIN_OBJ_SIZE <= objSize
    ensures Represents(EmptyMachine(mem, objSize), EmptyCache(objSize))
  {
  }

  /** Free objects are slots of their slab. */
  lemma FreeIsSlot(c: Cache, p: nat, y: nat)
    requires p in c.slabs && GoodSlab(c.objSize, p, c.slabs[p]) && y in c.slabs[p].free
    ensures p % PAGE_SIZE == 0 && y in Slots(c.objSize, p) && PageOf(y) == p && 0 < y
  {
    assert y in ToSet(c.slabs[p].free);
    SlotBelongsToPage(c.objSize, p, y);
  }

  ghost predicate GoodSlabs(c: Cache) {
    forall p :: p in c.slabs ==> GoodSlab(c.objSize, p, c.slabs[p])
  }

  /** Memory outside the links of free objects may change. */
  lemma RepresentsSame(k: Machine, c: Cache, m: Mem)
    requires Represents(k, c) && |m| == |k.mem|
    requires forall p, y :: p in c.slabs && y in c.slabs[p].free ==> Same(k.mem, m, y, LINK_SIZE)
    ensures Represents(k.(mem := m), c)
  {
    forall p | p in c.slabs ensures HeaderFits(m, k.headers[p], c.slabs[p]) {
      ChainSame(k.mem, m, k.headers[p].head, c.slabs[p].free);
    }
  }

  lemma FreeInMemory(k: Machine, c: Cache, p: nat, y: nat)
    requires Represents(k, c) && p in c.slabs && y in c.slabs[p].free
    ensures 0 < y && y + LINK_SIZE <= |k.mem|
  {
    InMemory(k.mem, k.headers[p].head, c.slabs[p].free, y);
  }

  // ----- Each operation does in memory what SlabSpec does on sequences -----

  lemma TakeRefines(k: Machine, c: Cache)
    requires Represents(k, c) && CanTake(c)
    ensures Takeable(k) && TakeFirst(k).1 == Take(c).1 && Represents(TakeFirst(k).0, Take(c).0)
  {
    var p := c.partial[0];
    assert Chain(k.mem, k.headers[p].head, c.slabs[p].free);
    assert HeaderFits(k.mem, TakeFirst(k).0.headers[p], Take(c).0.slabs[p]);
    HeaderChanged(k.mem, k.headers, c.slabs, p, TakeFirst(k).0.headers[p], Take(c).0.slabs[p]);
    hide HeaderFits, LoadWord, HeadersFit;
  }

  /** Linking up a new page touches no free list of another slab. */
  lemma ThreadedSame(k: Machine, c: Cache, page: nat, p: nat, y: nat)
    requires Represents(k, c) && GoodSlabs(c) && page !in c.slabs && p in c.slabs && y in c.slabs[p].free
    requires page % PAGE_SIZE == 0 && page + PAGE_SIZE <= |k.mem|
    ensures Same(k.mem, Threaded(k.mem, k.objSize, page), y, LINK_SIZE)
  {
    hide HeaderFits, NumObjs, Threaded;
    FreeInMemory(k, c, p, y);
    FreeIsSlot(c, p, y);
    forall b | y <= b < y + LINK_SIZE ensures Threaded(k.mem, k.objSize, page)[b] == k.mem[b] {
      forall z | z in Slots(k.objSize, page) ensures !(z <= b < z + LINK_SIZE) {
        SlotBelongsToPage(k.objSize, page, z);
        ObjectsSeparate(k.objSize, p, y, page, z);
      }
      ThreadedElsewhere(k.mem, k.objSize, page, b);
    }
  }

  lemma ThreadedFits(k: Machine, page: nat)
    requires MIN_OBJ_SIZE <= k.objSize && 0 < page && page % PAGE_SIZE == 0 && page + PAGE_SIZE <= |k.mem| <= TWO_64
    ensures var n := NumObjs(k.objSize);
            HeaderFits(Threaded(k.mem, k.objSize, page), Header(SlotAddr(k.objSize, page, 0), n),
                       Slab(SlotList(k.objSize, page, n), n))
  {
    hide Threaded, NumObjs, SlotList, Chain;
    ThreadedIsChainIff(k.mem, k.objSize, page);
  }

  lemma CreateRefines(k: Machine, c: Cache, page: nat)
    requires Represents(k, c) && GoodSlabs(c) && page !in c.slabs
    requires 0 < page && page % PAGE_SIZE == 0 && page + PAGE_SIZE <= |k.mem|
    ensures Represents(Created(k, page), Create(c, page))
  {
    hide HeaderFits, Chain, Threaded, NumObjs, SlotList, GoodSlabs, HeadersFit;
    var m, n := Threaded(k.mem, k.objSize, page), NumObjs(c.objSize);
    ThreadedFits(k, page);
    forall p, y | p in c.slabs && y in c.slabs[p].free ensures Same(k.mem, m, y, LINK_SIZE) {
      ThreadedSame(k, c, page, p, y);
    }
    RepresentsSame(k, c, m);
    HeaderChanged(m, k.headers, c.slabs, page, Header(SlotAddr(k.objSize, page, 0), n), Slab(SlotList(c.objSize, page, n), n));
  }

  /** The link of an object outside all free lists is none of their links. */
  lemma OutsideLinks(k: Machine, c: Cache, p: nat, x: nat, q: nat, y: nat)
    requires Represents(k, c) && GoodSlabs(c) && p in c.slabs && p % PAGE_SIZE == 0
    requires x in Slots(c.objSize, p) && x !in c.slabs[p].free && q in c.slabs && y in c.slabs[q].free
    ensures y + LINK_SIZE <= |k.mem| && (y + LINK_SIZE <= x || x + LINK_SIZE <= y)
  {
    SlotBelongsToPage(c.objSize, p, x);
    FreeInMemory(k, c, q, y);
    FreeIsSlot(c, q, y);
    ObjectsSeparate(c.objSize, p, x, q, y);
  }

  lemma PushSame(k: Machine, c: Cache, p: nat, x: nat, q: nat, y: nat)
    requires Represents(k, c) && GoodSlabs(c) && p in c.slabs && p % PAGE_SIZE == 0 && x + LINK_SIZE <= |k.mem|
    requires x in Slots(c.objSize, p) && x !in c.slabs[p].free && q in c.slabs && y in c.slabs[q].free
    ensures Same(k.mem, StoreWord(k.mem, x, k.headers[p].head), y, LINK_SIZE)
  {
    OutsideLinks(k, c, p, x, q, y);
    ChainHead(k.mem, k.headers[p].head, c.slabs[p].free);
    WordStored(k.mem, x, k.headers[p].head);
  }

  lemma PushedFits(k: Machine, c: Cache, p: nat, x: nat)
    requires Represents(k, c) && GoodSlabs(c) && p in c.slabs
    requires x in Slots(c.objSize, p) && x !in c.slabs[p].free && x + LINK_SIZE <= |k.mem|
    ensures HeaderFits(Pushed(k, p, x).mem, Pushed(k, p, x).headers[p], Push(c, p, x).slabs[p])
  {
    SlotBelongsToPage(c.objSize, p, x);
    forall y | y in c.slabs[p].free ensures y + LINK_SIZE <= x || x + LINK_SIZE <= y {
      OutsideLinks(k, c, p, x, p, y);
    }
    hide StoreWord, GoodSlab, Slots;
    ChainPush(k.mem, k.headers[p].head, c.slabs[p].free, x);
  }

  /** Such an object can be linked in without hurting any list. */
  lemma PushRefines(k: Machine, c: Cache, p: nat, x: nat)
    requires Represents(k, c) && GoodSlabs(c) && p in c.slabs
    requires x in Slots(c.objSize, p) && x !in c.slabs[p].free && x + LINK_SIZE <= |k.mem|
    ensures Represents(Pushed(k, p, x), Push(c, p, x))
  {
    PushedFits(k, c, p, x);
    assert p % PAGE_SIZE == 0;
    var m := StoreWord(k.mem, x, k.headers[p].head);
    hide HeaderFits, StoreWord, GoodSlabs, Slots, HeadersFit;
    forall q, y | q in c.slabs && y in c.slabs[q].free
      ensures Same(k.mem, StoreWord(k.mem, x, k.headers[p].head), y, LINK_SIZE)
    {
      PushSame(k, c, p, x, q, y);
    }
    RepresentsSame(k, c, m);
    HeaderChanged(m, k.headers, c.slabs, p, Pushed(k, p, x).headers[p], Push(c, p, x).slabs[p]);
  }

  lemma ReleaseKeepsSize(k: Machine, x: nat)
    ensures |Release(k, x).mem| == |k.mem| && Release(k, x).objSize == k.objSize
  {
    hide StoreWord, NumObjs;
  }

  lemma LiveInMemory(k: Machine, c: Cache, a: Alloc, live: set<nat>, x: nat)
    requires Represents(k, c) && Inv(c, a, live) && x in live && a.maxPages * PAGE_SIZE <= |k.mem|
    ensures x + LINK_SIZE <= |k.mem|
  {
    assert HandedOut(c, x);
    var p := PageOf(x);
    FreeLinkInPage(c, p, x);
    assert PageUsed(a, p);
    assert p / PAGE_SIZE * PAGE_SIZE == p && (p / PAGE_SIZE + 1) * PAGE_SIZE <= a.maxPages * PAGE_SIZE;
  }

  lemma ReleaseRefines(k: Machine, c: Cache, a: Alloc, live: set<nat>, x: nat)
    requires Represents(k, c) && Inv(c, a, live) && a.maxPages * PAGE_SIZE <= |k.mem|
    requires x in live || (PageOf(x) !in c.full && PageOf(x) !in c.partial)
    ensures Represents(Release(k, x), GiveBack(c, x))
  {
    var p := PageOf(x);
    if x in live {
      LiveInMemory(k, c, a, live, x);
      LiveSlab(c, a, live, x);
      PushRefines(k, c, p, x);
    }
    hide HeaderFits, NumObjs, StoreWord;
  }

  lemma AllocateRefines(k: Machine, c: Cache, a: Alloc, live: set<nat>, kmallocOk: bool)
    requires Represents(k, c) && Inv(c, a, live) && a.maxPages * PAGE_SIZE <= |k.mem|
    ensures var (k', a', obj) := Allocate(k, a, kmallocOk);
            var (c', b, x) := AllocObj(c, a, kmallocOk);
            Represents(k', c') && a' == b && obj == x
  {
    hide HeadersFit, NumObjs, Threaded, FindFrom;
    if c.partial != [] {
      PartialIsReady(c, a, live);
      TakeRefines(k, c);
    } else if c.empty != [] {
      PromotedIsReady(c, a, live);
      TakeRefines(Promoted(k), Promote(c));
    } else {
      AllocRunEffect(a, 1);
      var (a', page) := AllocRun(a, 1);
      if page.Some? && page.value != 0 && kmallocOk {
        var at := page.value * PAGE_SIZE;
        assert at / PAGE_SIZE == page.value && at % PAGE_SIZE == 0 && at + PAGE_SIZE <= a.maxPages * PAGE_SIZE;
        assert at !in c.slabs;
        CreateRefines(k, c, at);
        MoreUsed(c, a, live, a');
        CreatedIsReady(c, a', live, at);
        TakeRefines(Created(k, at), Create(c, at));
      }
    }
  }

  /**
   * The exact condition for slab_alloc to fail: no slab has a free object, and no frame can be had
   * (frame 0 is free, or none is), or kmalloc fails.
   */
  lemma AllocateFailsIff(k: Machine, c: Cache, a: Alloc, live: set<nat>, kmallocOk: bool)
    requires Represents(k, c) && Inv(c, a, live) && a.maxPages * PAGE_SIZE <= |k.mem|
    ensures WellFormed(a)
    ensures Allocate(k, a, kmallocOk).2 == None <==>
            k.partial == [] && k.empty == [] && (!OneFrameToHave(a) || !kmallocOk)
  {
    AllocateRefines(k, c, a, live, kmallocOk);
    AllocFailsIff(c, a, live, kmallocOk);
    hide HeadersFit, AllocObj, Allocate, OneFrameToHave;
  }

  lemma DropRefines(k: Machine, c: Cache)
    requires Represents(k, c) && c.empty != [] && c.empty[0] in c.slabs
    ensures Represents(Dropped(k), Drop(c))
  {
  }

  lemma {:induction false} ShrinkRefines(k: Machine, c: Cache, a: Alloc, live: set<nat>, n: nat)
    requires Represents(k, c) && Inv(c, a, live)
    ensures var (k', a', freed) := Shrunk(k, a, n);
            var (c', b, f) := SlabSpec.Shrink(c, a, n);
            Represents(k', c') && a' == b && freed == f && k'.mem == k.mem
    decreases n
  {
    hide Inv, GoodSlab, HeaderFits, NumObjs, Slack;
    if n != 0 && c.empty != [] {
      DropEffect(c, a, live);
      DropRefines(k, c);
      assert k.empty == c.empty && k.empty[0] in k.headers;
      hide Represents;
      ShrinkRefines(Dropped(k), Drop(c), FreeRun(a, c.empty[0] / PAGE_SIZE, 1), live, n - 1);
    }
  }

  // ----- Writes by clients and by others -----

  /** The bytes a client may write: those of its object, as far as a page reaches. */
  predicate InObject(objSize: nat, x: nat, addr: nat) {
    x <= addr < x + Min(objSize, PAGE_SIZE)
  }

  /** A write inside a live object leaves every free list as it is. */
  lemma ClientWriteRefines(k: Machine, c: Cache, a: Alloc, live: set<nat>, x: nat, addr: nat, b: Byte)
    requires Represents(k, c) && Inv(c, a, live) && x in live && addr < |k.mem| && InObject(c.objSize, x, addr)
    ensures Represents(k.(mem := k.mem[addr := b]), c)
  {
    assert HandedOut(c, x);
    forall q, y | q in c.slabs && y in c.slabs[q].free ensures Same(k.mem, k.mem[addr := b], y, LINK_SIZE) {
      FreeInMemory(k, c, q, y);
      FreeIsSlot(c, q, y);
      ObjectsSeparate(c.objSize, PageOf(x), x, q, y);
    }
    RepresentsSame(k, c, k.mem[addr := b]);
  }

  lemma FreeLinkInPage(c: Cache, q: nat, y: nat)
    requires y in Slots(c.objSize, q)
    ensures q <= y && y + LINK_SIZE <= q + PAGE_SIZE
  {
    var i :| 0 <= i < NumObjs(c.objSize) && y == SlotAddr(c.objSize, q, i);
    LinkInPage(c.objSize, q, i);
  }

  lemma OtherPage(q: nat, addr: nat)
    requires q % PAGE_SIZE == 0 && PageOf(addr) != q
    ensures addr < q || q + PAGE_SIZE <= addr
  {
  }

  /** So does a write outside the pages of the slabs. */
  lemma OtherWriteRefines(k: Machine, c: Cache, a: Alloc, live: set<nat>, addr: nat, b: Byte)
    requires Represents(k, c) && Inv(c, a, live) && addr < |k.mem| && PageOf(addr) !in c.slabs
    ensures Represents(k.(mem := k.mem[addr := b]), c)
  {
    forall q, y | q in c.slabs && y in c.slabs[q].free ensures Same(k.mem, k.mem[addr := b], y, LINK_SIZE) {
      FreeInMemory(k, c, q, y);
      FreeIsSlot(c, q, y);
      FreeLinkInPage(c, q, y);
      OtherPage(q, addr);
    }
    RepresentsSame(k, c, k.mem[addr := b]);
  }

  // ----- What the allocator itself writes -----

  /** The byte is part of an object that is out. */
  ghost predicate LiveByte(objSize: nat, live: set<nat>, addr: nat) {
    exists x :: x in live && InObject(objSize, x, addr)
  }

  /** slab_alloc changes no byte of an object that is out. */
  lemma AllocateKeepsObjects(k: Machine, c: Cache, a: Alloc, live: set<nat>, kmallocOk: bool, addr: nat)
    requires Represents(k, c) && Inv(c, a, live) && a.maxPages * PAGE_SIZE <= |k.mem|
    requires addr < |k.mem| && LiveByte(c.objSize, live, addr)
    ensures |Allocate(k, a, kmallocOk).0.mem| == |k.mem| && Allocate(k, a, kmallocOk).0.mem[addr] == k.mem[addr]
  {
    hide HeadersFit, NumObjs, FindFrom;
    if c.partial == [] && c.empty == [] {
      AllocRunEffect(a, 1);
      var page := AllocRun(a, 1).1;
      if page.Some? && page.value != 0 && kmallocOk {
        var at := page.value * PAGE_SIZE;
        assert at / PAGE_SIZE == page.value && at % PAGE_SIZE == 0 && at + PAGE_SIZE <= a.maxPages * PAGE_SIZE;
        assert at !in c.slabs;
        var x :| x in live && InObject(c.objSize, x, addr);
        assert HandedOut(c, x);
        forall z | z in Slots(k.objSize, at) ensures !(z <= addr < z + LINK_SIZE) {
          SlotBelongsToPage(k.objSize, at, z);
          ObjectsSeparate(k.objSize, PageOf(x), x, at, z);
        }
        ThreadedElsewhere(k.mem, k.objSize, at, addr);
      }
    }
  }

  /** slab_free changes no byte of another object that is out. */
  lemma ReleaseKeepsObjects(k: Machine, c: Cache, a: Alloc, live: set<nat>, x: nat, addr: nat)
    requires Represents(k, c) && Inv(c, a, live) && x in live
    requires addr < |k.mem| && LiveByte(c.objSize, live - {x}, addr)
    ensures |Release(k, x).mem| == |k.mem| && Release(k, x).mem[addr] == k.mem[addr]
  {
    LiveSlab(c, a, live, x);
    var y :| y in live - {x} && InObject(c.objSize, y, addr);
    assert HandedOut(c, y);
    ObjectsSeparate(c.objSize, PageOf(y), y, PageOf(x), x);
    if x + LINK_SIZE <= |k.mem| {
      StoreElsewhere(k.mem, x, k.headers[PageOf(x)].head, LINK_SIZE, addr);
    }
  }
}
