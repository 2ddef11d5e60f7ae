/**
 * The slab allocator (kernel/mm/slab.c) as values: an object cache on top of the frame allocator.
 *
 * A slab is named by the address of its page. Here its free list is a sequence of object addresses;
 * SlabMachine has the lists as they are, threaded through the memory of the free objects.
 */
module SlabSpec {
  import opened Prelude
  import opened FrameAllocatorSpec
  import opened SlabLayout

  /** slab_t: the free list and the count kept beside it. */
  datatype Slab = Slab(free: seq<nat>, numFree: int)

  /** slab_cache_t: the slabs by page, the three lists of pages, and the counters. */
  datatype Cache = Cache(objSize: nat, slabs: map<nat, Slab>, partial: seq<nat>, full: seq<nat>, empty: seq<nat>,
                         numSlabs: int, total: int, freeCount: int, allocs: int, frees: int)

  function EmptyCache(objSize: nat): Cache {
    Cache(objSize, map[], [], [], [], 0, 0, 0, 0, 0)
  }

  // ----- The invariant -----

  /** The page is a managed frame, marked used. */
  ghost predicate PageUsed(a: Alloc, page: nat) {
    && page % PAGE_SIZE == 0 && 0 < page / PAGE_SIZE < a.maxPages && a.maxPages <= |a.bits|
    && a.bits[page / PAGE_SIZE]
  }

  ghost predicate GoodSlab(objSize: nat, page: nat, s: Slab) {
    && page % PAGE_SIZE == 0
    && NoDup(s.free) && ToSet(s.free) <= Slots(objSize, page) && s.numFree == |s.free|
  }

  ghost predicate Listed(c: Cache, page: nat) {
    page in c.partial || page in c.full || page in c.empty
  }

  /** Every slab is on exactly one list, once. */
  ghost predicate ListsExact(c: Cache) {
    && NoDup(c.partial) && NoDup(c.full) && NoDup(c.empty)
    && (forall p :: p in c.slabs <==> Listed(c, p))
    && (forall p :: p in c.partial ==> p !in c.full && p !in c.empty)
    && (forall p :: p in c.full ==> p !in c.empty)
  }

  /** The list says how full the slab is. */
  ghost predicate ListsSorted(c: Cache) {
    forall p :: p in c.slabs ==>
      && (p in c.full ==> c.slabs[p].numFree == 0)
      && (p in c.partial ==> 1 <= c.slabs[p].numFree && (c.slabs[p].numFree < NumObjs(c.objSize) || NumObjs(c.objSize) == 1))
      && (p in c.empty ==> c.slabs[p].numFree == NumObjs(c.objSize))
  }

  /** The object is a slot of a slab and not on its free list. */
  ghost predicate HandedOut(c: Cache, a: nat) {
    && PageOf(a) in c.slabs && a in Slots(c.objSize, PageOf(a)) && a !in c.slabs[PageOf(a)].free
  }

  function NumFree(slabs: map<nat, Slab>, page: nat): int {
    if page in slabs then slabs[page].numFree else 0
  }

  function SumFree(slabs: map<nat, Slab>, list: seq<nat>): int {
    if list == [] then 0 else NumFree(slabs, list[0]) + SumFree(slabs, list[1..])
  }

  ghost predicate Counted(c: Cache, live: set<nat>) {
    && c.numSlabs == |c.partial| + |c.full| + |c.empty|
    && c.total == c.numSlabs * NumObjs(c.objSize)
    && c.freeCount == SumFree(c.slabs, c.partial) + SumFree(c.slabs, c.full) + SumFree(c.slabs, c.empty)
    && c.total - c.freeCount == |live|
    && c.allocs - c.frees == |live|
  }

  /** `live` are the objects handed out and not given back. */
  ghost predicate Inv(c: Cache, a: Alloc, live: set<nat>) {
    && 0 < c.objSize && WellFormed(a)
    && ListsExact(c) && ListsSorted(c)
    && (forall p :: p in c.slabs ==> GoodSlab(c.objSize, p, c.slabs[p]) && PageUsed(a, p))
    && (forall x :: x in live <==> HandedOut(c, x))
    && Counted(c, live)
  }

  lemma EmptyInv(objSize: nat, a: Alloc)
    requires 0 < objSize && WellFormed(a)
    ensures Inv(EmptyCache(objSize), a, {})
  {
  }

  // ----- Sums over lists -----

  lemma {:induction false} SumElsewhere(slabs: map<nat, Slab>, list: seq<nat>, p: nat, s: Slab)
    requires p !in list
    ensures SumFree(slabs[p := s], list) == SumFree(slabs, list)
  {
    if list != [] {
      SumElsewhere(slabs, list[1..], p, s);
    }
  }

  lemma {:induction false} SumRemoved(slabs: map<nat, Slab>, list: seq<nat>, p: nat)
    requires p !in list
    ensures SumFree(slabs - {p}, list) == SumFree(slabs, list)
  {
    if list != [] {
      SumRemoved(slabs, list[1..], p);
    }
  }

  function Without(list: seq<nat>, p: nat): seq<nat> {
    if list == [] then [] else if list[0] == p then list[1..] else [list[0]] + Without(list[1..], p)
  }

  lemma NoDupCons(x: nat, s: seq<nat>)
    ensures NoDup([x] + s) <==> NoDup(s) && x !in s
    ensures ([x] + s)[1..] == s && forall y :: y in [x] + s <==> y == x || y in s
  {
    var r := [x] + s;
    assert forall i :: 0 <= i < |s| ==> r[i + 1] == s[i];
    assert r[0] == x;
  }

  lemma {:induction false} WithoutEffect(slabs: map<nat, Slab>, list: seq<nat>, p: nat)
    requires NoDup(list) && p in list
    ensures var r := Without(list, p);
            && NoDup(r) && |r| == |list| - 1 && (forall x :: x in r <==> x in list && x != p)
            && SumFree(slabs, r) == SumFree(slabs, list) - NumFree(slabs, p)
  {
    var x, rest := list[0], list[1..];
    assert list == [x] + rest;
    NoDupCons(x, rest);
    if x != p {
      WithoutEffect(slabs, rest, p);
      NoDupCons(x, Without(rest, p));
    }
  }

  lemma {:induction false} SumNonNegative(slabs: map<nat, Slab>, list: seq<nat>)
    requires forall p :: p in slabs ==> slabs[p].numFree >= 0
    ensures SumFree(slabs, list) >= 0
  {
    if list != [] {
      SumNonNegative(slabs, list[1..]);
    }
  }

  /** The unsigned counters never underflow. */
  lemma CountersNonNegative(c: Cache, a: Alloc, live: set<nat>)
    requires Inv(c, a, live)
    ensures 0 <= c.freeCount <= c.total && 0 <= c.numSlabs && c.frees <= c.allocs
  {
    SumNonNegative(c.slabs, c.partial);
    SumNonNegative(c.slabs, c.full);
    SumNonNegative(c.slabs, c.empty);
  }

  // ----- slab_alloc from the first partial slab -----

  ghost predicate CanTake(c: Cache) {
    c.partial != [] && c.partial[0] in c.slabs && c.slabs[c.partial[0]].free != []
  }

  ghost function Take(c: Cache): (Cache, nat)
    requires CanTake(c)
  {
    var p := c.partial[0];
    var s := Slab(c.slabs[p].free[1..], c.slabs[p].numFree - 1);
    var c' := c.(slabs := c.slabs[p := s], freeCount := c.freeCount - 1, allocs := c.allocs + 1);
    (if s.numFree == 0 then c'.(partial := c.partial[1..], full := [p] + c.full) else c', c.slabs[p].free[0])
  }

  /** The first partial slab may have all its objects free, as one fresh from the empty list has. */
  ghost predicate ReadyToTake(c: Cache, a: Alloc, live: set<nat>) {
    && 0 < c.objSize && WellFormed(a) && ListsExact(c)
    && CanTake(c)
    && (forall p :: p in c.slabs ==>
          && GoodSlab(c.objSize, p, c.slabs[p]) && PageUsed(a, p)
          && (p in c.full ==> c.slabs[p].numFree == 0)
          && (p in c.partial ==> 1 <= c.slabs[p].numFree)
          && (p in c.partial[1..] ==> c.slabs[p].numFree < NumObjs(c.objSize) || NumObjs(c.objSize) == 1)
          && (p in c.empty ==> c.slabs[p].numFree == NumObjs(c.objSize)))
    && (forall x :: x in live <==> HandedOut(c, x))
    && Counted(c, live)
  }

  lemma TakeKeepsLists(c: Cache, a: Alloc, live: set<nat>)
    requires ReadyToTake(c, a, live)
    ensures ListsExact(Take(c).0)
  {
    var p, rest := c.partial[0], c.partial[1..];
    assert c.partial == [p] + rest;
    NoDupCons(p, rest);
    NoDupCons(p, c.full);
  }

  lemma TakeKeepsSorted(c: Cache, a: Alloc, live: set<nat>)
    requires ReadyToTake(c, a, live)
    ensures ListsSorted(Take(c).0)
  {
    var p, rest := c.partial[0], c.partial[1..];
    assert c.partial == [p] + rest;
    NoDupCons(p, rest);
    NoDupCons(p, c.full);
    FreeListBound(c.objSize, p, c.slabs[p].free);
  }

  lemma TakeKeepsSlabs(c: Cache, a: Alloc, live: set<nat>)
    requires ReadyToTake(c, a, live)
    ensures var c' := Take(c).0;
            forall p :: p in c'.slabs ==> GoodSlab(c'.objSize, p, c'.slabs[p]) && PageUsed(a, p)
  {
    var p := c.partial[0];
    var free := c.slabs[p].free;
    assert free == [free[0]] + free[1..];
    NoDupCons(free[0], free[1..]);
  }

  /** The object handed out is not one that is still out. */
  lemma TakeIsFresh(c: Cache, a: Alloc, live: set<nat>)
    requires ReadyToTake(c, a, live)
    ensures var (c', x) := Take(c);
            && x !in live && x in Slots(c.objSize, PageOf(x))
            && forall y :: y in live + {x} <==> HandedOut(c', y)
  {
    var p := c.partial[0];
    var free := c.slabs[p].free;
    var (c', x) := Take(c);
    assert x in ToSet(free);
    SlotBelongsToPage(c.objSize, p, x);
    assert free == [x] + free[1..];
    NoDupCons(x, free[1..]);
    forall y ensures y in live + {x} <==> HandedOut(c', y) {
      assert y in live <==> HandedOut(c, y);
    }
  }

  lemma TakeCounts(c: Cache, a: Alloc, live: set<nat>)
    requires ReadyToTake(c, a, live)
    ensures var (c', x) := Take(c); x !in live && Counted(c', live + {x})
  {
    TakeIsFresh(c, a, live);
    var p, rest := c.partial[0], c.partial[1..];
    var (c', x) := Take(c);
    assert c.partial == [p] + rest;
    NoDupCons(p, rest);
    SumElsewhere(c.slabs, rest, p, c'.slabs[p]);
    SumElsewhere(c.slabs, c.full, p, c'.slabs[p]);
    SumElsewhere(c.slabs, c.empty, p, c'.slabs[p]);
    NoDupCons(p, c.full);
    assert SumFree(c'.slabs, c.partial) == c'.slabs[p].numFree + SumFree(c'.slabs, rest);
    assert SumFree(c'.slabs, [p] + c.full) == c'.slabs[p].numFree + SumFree(c'.slabs, c.full);
  }

  lemma TakeEffect(c: Cache, a: Alloc, live: set<nat>)
    requires ReadyToTake(c, a, live)
    ensures var (c', x) := Take(c);
            x !in live && x in Slots(c.objSize, PageOf(x)) && Inv(c', a, live + {x})
  {
    TakeKeepsLists(c, a, live);
    TakeKeepsSorted(c, a, live);
    TakeKeepsSlabs(c, a, live);
    TakeIsFresh(c, a, live);
    TakeCounts(c, a, live);
  }

  // ----- slab_alloc -----

  /** An empty slab moves to the head of the partial list. */
  function Promote(c: Cache): Cache
    requires c.empty != []
  {
    c.(empty := c.empty[1..], partial := [c.empty[0]] + c.partial)
  }

  /** slab_create and its link at the head of the partial list. */
  function Create(c: Cache, page: nat): Cache {
    var n := NumObjs(c.objSize);
    c.(slabs := c.slabs[page := Slab(SlotList(c.objSize, page, n), n)], partial := [page] + c.partial,
       numSlabs := c.numSlabs + 1, total := c.total + n, freeCount := c.freeCount + n)
  }

  ghost function TakeSome(c: Cache, a: Alloc): (Cache, Alloc, Option<nat>) {
    if CanTake(c) then (Take(c).0, a, Some(Take(c).1)) else (c, a, None)
  }

  /** slab_alloc: `kmallocOk` says whether kmalloc finds room for a slab_t. */
  ghost function AllocObj(c: Cache, a: Alloc, kmallocOk: bool): (Cache, Alloc, Option<nat>)
    requires WellFormed(a)
  {
    if c.partial != [] then TakeSome(c, a)
    else if c.empty != [] then TakeSome(Promote(c), a)
    else
      var (a', page) := AllocRun(a, 1);
      AllocRunEffect(a, 1);
      if page.None? || page.value == 0 then (c, a', None)
      else if !kmallocOk then (c, FreeRun(a', page.value, 1), None)
      else TakeSome(Create(c, page.value * PAGE_SIZE), a')
  }

  lemma PartialIsReady(c: Cache, a: Alloc, live: set<nat>)
    requires Inv(c, a, live) && c.partial != []
    ensures ReadyToTake(c, a, live)
  {
    assert c.partial[0] in c.partial;
  }

  lemma PromotedIsReady(c: Cache, a: Alloc, live: set<nat>)
    requires Inv(c, a, live) && c.partial == [] && c.empty != []
    ensures ReadyToTake(Promote(c), a, live)
  {
    var p, rest := c.empty[0], c.empty[1..];
    assert c.empty == [p] + rest;
    NoDupCons(p, rest);
    assert Promote(c).partial == [p];
    assert forall x :: HandedOut(Promote(c), x) <==> HandedOut(c, x);
    assert SumFree(c.slabs, [p]) == NumFree(c.slabs, p) + SumFree(c.slabs, [p][1..]);
  }

  /** Pages of slabs stay used when more frames are taken. */
  lemma MoreUsed(c: Cache, a: Alloc, live: set<nat>, a': Alloc)
    requires Inv(c, a, live) && WellFormed(a') && a'.maxPages == a.maxPages
    requires forall f :: 0 <= f < a.maxPages && a.bits[f] ==> a'.bits[f]
    ensures Inv(c, a', live)
  {
  }

  lemma CreatedCounts(c: Cache, live: set<nat>, page: nat)
    requires Counted(c, live) && page !in c.full && page !in c.empty && c.partial == []
    ensures Counted(Create(c, page), live)
  {
    hide NumObjs;
    var c' := Create(c, page);
    SumElsewhere(c.slabs, c.full, page, c'.slabs[page]);
    SumElsewhere(c.slabs, c.empty, page, c'.slabs[page]);
    assert c'.partial == [page];
    assert SumFree(c'.slabs, [page]) == NumFree(c'.slabs, page) + SumFree(c'.slabs, [page][1..]);
    assert c'.total == c'.numSlabs * NumObjs(c.objSize);
  }

  lemma CreatedIsReady(c: Cache, a: Alloc, live: set<nat>, page: nat)
    requires Inv(c, a, live) && c.partial == [] && page !in c.slabs && PageUsed(a, page)
    ensures ReadyToTake(Create(c, page), a, live)
  {
    SlotListIsSlots(c.objSize, page);
    CreatedLive(c, a, live, page);
    CreatedCounts(c, live, page);
    assert Create(c, page).partial == [page];
  }

  lemma CreatedLive(c: Cache, a: Alloc, live: set<nat>, page: nat)
    requires Inv(c, a, live) && page !in c.slabs && page % PAGE_SIZE == 0
    ensures forall x :: x in live <==> HandedOut(Create(c, page), x)
  {
    SlotListIsSlots(c.objSize, page);
    forall x ensures x in live <==> HandedOut(Create(c, page), x) {
      assert x in live <==> HandedOut(c, x);
      if PageOf(x) == page && x in Slots(c.objSize, page) {
        assert x in ToSet(SlotList(c.objSize, page, NumObjs(c.objSize)));
      }
    }
  }

  /**
   * slab_alloc hands out an object that is not out already, or fails: only when no slab has a free
   * object, and then the cache is as it was, and so are the frames, but for frame 0 which is lost.
   */
  lemma AllocEffect(c: Cache, a: Alloc, live: set<nat>, kmallocOk: bool)
    requires Inv(c, a, live)
    ensures var (c', a', obj) := AllocObj(c, a, kmallocOk);
            && a'.maxPages == a.maxPages && Slack(a') == Slack(a)
            && (forall f :: 0 <= f < a.maxPages && a.bits[f] ==> f < |a'.bits| && a'.bits[f])
            && match obj
               case None =>
                 && Inv(c', a', live) && c' == c && c.partial == [] && c.empty == []
                 && forall f :: 0 < f < a.maxPages ==> f < |a'.bits| && a'.bits[f] == a.bits[f]
               case Some(x) => x !in live && x in Slots(c.objSize, PageOf(x)) && Inv(c', a', live + {x})
  {
    if c.partial != [] {
      PartialIsReady(c, a, live);
      TakeEffect(c, a, live);
    } else if c.empty != [] {
      PromotedIsReady(c, a, live);
      TakeEffect(Promote(c), a, live);
    } else {
      AllocFromNewSlab(c, a, live, kmallocOk);
    }
  }

  /** Where the object comes from: the first partial slab, else the first empty one, else one newly taken frame. */
  lemma AllocPlace(c: Cache, a: Alloc, live: set<nat>, kmallocOk: bool)
    requires Inv(c, a, live) && AllocObj(c, a, kmallocOk).2.Some?
    ensures var (c', a', obj) := AllocObj(c, a, kmallocOk);
            var p := PageOf(obj.value);
            if c.partial != [] then p == c.partial[0] && a' == a && c'.empty == c.empty
            else if c.empty != [] then p == c.empty[0] && a' == a && c'.empty == c.empty[1..]
            else p / PAGE_SIZE < |a.bits| && !a.bits[p / PAGE_SIZE] && a'.bits == a.bits[p / PAGE_SIZE := true]
  {
    if c.partial != [] {
      PartialIsReady(c, a, live);
      TakenFrom(c, a, live);
    } else if c.empty != [] {
      PromotedIsReady(c, a, live);
      TakenFrom(Promote(c), a, live);
    } else {
      AllocRunEffect(a, 1);
      var page := AllocRun(a, 1).1.value * PAGE_SIZE;
      var x := SlotAddr(c.objSize, page, 0);
      assert x in Slots(c.objSize, page);
      SlotBelongsToPage(c.objSize, page, x);
      assert Create(c, page).slabs[page].free[0] == x;
    }
  }

  lemma TakenFrom(c: Cache, a: Alloc, live: set<nat>)
    requires ReadyToTake(c, a, live)
    ensures PageOf(Take(c).1) == c.partial[0]
  {
    var p := c.partial[0];
    assert Take(c).1 in ToSet(c.slabs[p].free);
    SlotBelongsToPage(c.objSize, p, Take(c).1);
  }

  /** An object freed from a full slab is the next one handed out. */
  lemma FreedComesBackFirst(c: Cache, a: Alloc, live: set<nat>, x: nat, kmallocOk: bool)
    requires Inv(c, a, live) && x in live && PageOf(x) in c.full
    ensures AllocObj(GiveBack(c, x), a, kmallocOk).2 == Some(x)
  {
    assert HandedOut(c, x);
  }

  /**
   * When slab_alloc fails: no slab has a free object, and page 0 is free (it comes up and is lost), or
   * no frame is free, or kmalloc fails.
   */
  lemma AllocFailsIff(c: Cache, a: Alloc, live: set<nat>, kmallocOk: bool)
    requires Inv(c, a, live)
    ensures AllocObj(c, a, kmallocOk).2 == None <==>
            c.partial == [] && c.empty == [] && (!OneFrameToHave(a) || !kmallocOk)
  {
    AllocEffect(c, a, live, kmallocOk);
    OneFrameIff(a);
    if c.partial == [] && c.empty == [] {
      var page := AllocRun(a, 1).1;
      if page.Some? && page.value != 0 && kmallocOk {
        assert SlotList(c.objSize, page.value * PAGE_SIZE, NumObjs(c.objSize)) != [];
        assert CanTake(Create(c, page.value * PAGE_SIZE));
      }
    } else if c.partial != [] {
      PartialIsReady(c, a, live);
    } else {
      PromotedIsReady(c, a, live);
    }
  }

  lemma AllocFromNewSlab(c: Cache, a: Alloc, live: set<nat>, kmallocOk: bool)
    requires Inv(c, a, live) && c.partial == [] && c.empty == []
    ensures var (c', a', obj) := AllocObj(c, a, kmallocOk);
            && a'.maxPages == a.maxPages && Slack(a') == Slack(a)
            && (forall f :: 0 <= f < a.maxPages && a.bits[f] ==> f < |a'.bits| && a'.bits[f])
            && match obj
               case None =>
                 Inv(c', a', live) && c' == c && forall f :: 0 < f < a.maxPages ==> f < |a'.bits| && a'.bits[f] == a.bits[f]
               case Some(x) => x !in live && x in Slots(c.objSize, PageOf(x)) && Inv(c', a', live + {x})
  {
    AllocRunEffect(a, 1);
    var (a', page) := AllocRun(a, 1);
    MoreUsed(c, a, live, a');
    if page.Some? && page.value != 0 {
      if kmallocOk {
        assert page.value * PAGE_SIZE / PAGE_SIZE == page.value;
        CreatedIsReady(c, a', live, page.value * PAGE_SIZE);
        TakeEffect(Create(c, page.value * PAGE_SIZE), a', live);
      } else {
        FreeRunBits(a', page.value, 1);
        FreeRunKeeps(a', page.value, 1);
        MoreUsed(c, a, live, FreeRun(a', page.value, 1));
      }
    }
  }

  // ----- slab_free -----

  function Push(c: Cache, p: nat, x: nat): Cache
    requires p in c.slabs
  {
    c.(slabs := c.slabs[p := Slab([x] + c.slabs[p].free, c.slabs[p].numFree + 1)],
       freeCount := c.freeCount + 1, frees := c.frees + 1)
  }

  /** slab_free: a full slab becomes partial, a partial one with everything free becomes empty. */
  function GiveBack(c: Cache, x: nat): Cache {
    var p := PageOf(x);
    if p !in c.slabs then c
    else if p in c.full then Push(c, p, x).(full := Without(c.full, p), partial := [p] + c.partial)
    else if p in c.partial then
      if c.slabs[p].numFree + 1 == NumObjs(c.objSize)
      then Push(c, p, x).(partial := Without(c.partial, p), empty := [p] + c.empty)
      else Push(c, p, x)
    else c
  }

  /** A slab with an object out is not on the empty list, and has room on its free list. */
  lemma LiveSlab(c: Cache, a: Alloc, live: set<nat>, x: nat)
    requires Inv(c, a, live) && x in live
    ensures var p := PageOf(x);
            && HandedOut(c, x) && c.slabs[p].numFree < NumObjs(c.objSize) && p !in c.empty
            && (p in c.full || p in c.partial)
  {
    var p := PageOf(x);
    assert HandedOut(c, x);
    FreeListBound(c.objSize, p, c.slabs[p].free);
    assert x !in ToSet(c.slabs[p].free);
    assert Listed(c, p);
  }

  lemma GiveBackLists(c: Cache, a: Alloc, live: set<nat>, x: nat)
    requires Inv(c, a, live) && x in live
    ensures ListsExact(GiveBack(c, x))
  {
    LiveSlab(c, a, live, x);
    var p := PageOf(x);
    if p in c.full {
      WithoutEffect(c.slabs, c.full, p);
      NoDupCons(p, c.partial);
    } else {
      WithoutEffect(c.slabs, c.partial, p);
      NoDupCons(p, c.empty);
    }
  }

  lemma GiveBackSorted(c: Cache, a: Alloc, live: set<nat>, x: nat)
    requires Inv(c, a, live) && x in live
    ensures ListsSorted(GiveBack(c, x))
  {
    LiveSlab(c, a, live, x);
    var p := PageOf(x);
    if p in c.full {
      WithoutEffect(c.slabs, c.full, p);
      NoDupCons(p, c.partial);
    } else {
      WithoutEffect(c.slabs, c.partial, p);
      NoDupCons(p, c.empty);
    }
  }

  lemma GiveBackSlabs(c: Cache, a: Alloc, live: set<nat>, x: nat)
    requires Inv(c, a, live) && x in live
    ensures var c' := GiveBack(c, x);
            && (forall p :: p in c'.slabs ==> GoodSlab(c'.objSize, p, c'.slabs[p]) && PageUsed(a, p))
            && (forall y :: y in live - {x} <==> HandedOut(c', y))
  {
    LiveSlab(c, a, live, x);
    NoDupCons(x, c.slabs[PageOf(x)].free);
    var c' := GiveBack(c, x);
    forall y ensures y in live - {x} <==> HandedOut(c', y) {
      assert y in live <==> HandedOut(c, y);
    }
  }

  lemma {:induction false} SumUpdated(slabs: map<nat, Slab>, list: seq<nat>, p: nat, s: Slab)
    requires NoDup(list) && p in list
    ensures SumFree(slabs[p := s], list) == SumFree(slabs, list) - NumFree(slabs, p) + s.numFree
  {
    var x, rest := list[0], list[1..];
    assert list == [x] + rest;
    NoDupCons(x, rest);
    if x == p {
      SumElsewhere(slabs, rest, p, s);
    } else {
      SumUpdated(slabs, rest, p, s);
    }
  }

  lemma GiveBackCounts(c: Cache, a: Alloc, live: set<nat>, x: nat)
    requires Inv(c, a, live) && x in live
    ensures Counted(GiveBack(c, x), live - {x})
  {
    LiveSlab(c, a, live, x);
    var p := PageOf(x);
    var s := Push(c, p, x).slabs[p];
    SumElsewhere(c.slabs, c.empty, p, s);
    if p in c.full {
      SumElsewhere(c.slabs, c.partial, p, s);
      SumUpdated(c.slabs, c.full, p, s);
      MovedCounts(c.slabs[p := s], c.full, c.partial, p);
    } else {
      SumElsewhere(c.slabs, c.full, p, s);
      SumUpdated(c.slabs, c.partial, p, s);
      MovedCounts(c.slabs[p := s], c.partial, c.empty, p);
    }
  }

  lemma MovedCounts(slabs: map<nat, Slab>, from: seq<nat>, to: seq<nat>, p: nat)
    requires NoDup(from) && p in from
    ensures SumFree(slabs, Without(from, p)) + SumFree(slabs, [p] + to) == SumFree(slabs, from) + SumFree(slabs, to)
    ensures |Without(from, p)| == |from| - 1
  {
    WithoutEffect(slabs, from, p);
    NoDupCons(p, to);
  }

  lemma GiveBackEffect(c: Cache, a: Alloc, live: set<nat>, x: nat)
    requires Inv(c, a, live) && x in live
    ensures Inv(GiveBack(c, x), a, live - {x})
  {
    GiveBackLists(c, a, live, x);
    GiveBackSorted(c, a, live, x);
    GiveBackSlabs(c, a, live, x);
    GiveBackCounts(c, a, live, x);
  }

  /** There is a set of live objects with which the cache is as it should be. */
  ghost predicate SomeInv(c: Cache, a: Alloc) {
    exists live :: Inv(c, a, live)
  }

  /**
   * What may be freed: the invariant survives if and only if the object is live, or its page is none
   * of a full or partial slab, in which case nothing happens. A double free breaks it.
   */
  lemma GiveBackIff(c: Cache, a: Alloc, live: set<nat>, x: nat)
    requires Inv(c, a, live)
    ensures SomeInv(GiveBack(c, x), a) <==> x in live || (PageOf(x) !in c.full && PageOf(x) !in c.partial)
  {
    var p := PageOf(x);
    if x in live {
      GiveBackEffect(c, a, live, x);
    } else if p in c.full || p in c.partial {
      assert Listed(c, p) && !HandedOut(c, x);
      var s := GiveBack(c, x).slabs[p];
      assert s.free == [x] + c.slabs[p].free;
      NoDupCons(x, c.slabs[p].free);
      assert !GoodSlab(c.objSize, p, s) by {
        assert x in ToSet(s.free);
      }
    } else {
      assert p in c.slabs ==> Listed(c, p);
      assert GiveBack(c, x) == c;
    }
  }

  // ----- slab_shrink -----

  function Drop(c: Cache): Cache
    requires c.empty != [] && c.empty[0] in c.slabs
  {
    var p := c.empty[0];
    c.(empty := c.empty[1..], slabs := c.slabs - {p}, numSlabs := c.numSlabs - 1,
       total := c.total - NumObjs(c.objSize), freeCount := c.freeCount - c.slabs[p].numFree)
  }

  /** Gives back the pages of at most `n` empty slabs. */
  ghost function Shrink(c: Cache, a: Alloc, n: nat): (Cache, Alloc, nat)
    requires WellFormed(a)
    decreases n
  {
    if n == 0 || c.empty == [] || c.empty[0] !in c.slabs then (c, a, 0)
    else
      FreeRunKeeps(a, c.empty[0] / PAGE_SIZE, 1);
      var (c', a', k) := Shrink(Drop(c), FreeRun(a, c.empty[0] / PAGE_SIZE, 1), n - 1);
      (c', a', k + 1)
  }

  lemma DropLive(c: Cache, a: Alloc, live: set<nat>)
    requires Inv(c, a, live) && c.empty != []
    ensures c.empty[0] in c.slabs && forall x :: x in live <==> HandedOut(Drop(c), x)
  {
    var p := c.empty[0];
    assert p in c.empty;
    assert Listed(c, p);
    forall x ensures x in live <==> HandedOut(Drop(c), x) {
      assert x in live <==> HandedOut(c, x);
      if x in live {
        LiveSlab(c, a, live, x);
      }
    }
  }

  lemma DropCounts(c: Cache, live: set<nat>)
    requires c.empty != [] && c.empty[0] in c.slabs && c.slabs[c.empty[0]].numFree == NumObjs(c.objSize)
    requires c.empty[0] !in c.partial && c.empty[0] !in c.full && c.empty[0] !in c.empty[1..]
    requires Counted(c, live)
    ensures Counted(Drop(c), live)
  {
    hide NumObjs;
    var p, rest := c.empty[0], c.empty[1..];
    SumRemoved(c.slabs, c.partial, p);
    SumRemoved(c.slabs, c.full, p);
    SumRemoved(c.slabs, rest, p);
    Distribute(c.numSlabs, NumObjs(c.objSize));
  }

  lemma Distribute(k: int, n: int)
    ensures k * n - n == (k - 1) * n
  {
  }

  lemma DropLists(c: Cache, a: Alloc, live: set<nat>)
    requires Inv(c, a, live) && c.empty != []
    ensures c.empty[0] in c.slabs && c.empty[0] !in c.empty[1..] && ListsExact(Drop(c)) && ListsSorted(Drop(c))
  {
    var p, rest := c.empty[0], c.empty[1..];
    assert c.empty == [p] + rest;
    NoDupCons(p, rest);
    assert Listed(c, p);
  }

  lemma DropEffect(c: Cache, a: Alloc, live: set<nat>)
    requires Inv(c, a, live) && c.empty != []
    ensures var a' := FreeRun(a, c.empty[0] / PAGE_SIZE, 1);
            && c.empty[0] in c.slabs && PageUsed(a, c.empty[0])
            && Inv(Drop(c), a', live) && Slack(a') == Slack(a)
  {
    DropLive(c, a, live);
    DropLists(c, a, live);
    var p := c.empty[0];
    DropCounts(c, live);
    FreeRunKeeps(a, p / PAGE_SIZE, 1);
    FreeRunBits(a, p / PAGE_SIZE, 1);
    forall q | q in Drop(c).slabs ensures PageUsed(FreeRun(a, p / PAGE_SIZE, 1), q) {
      assert PageUsed(a, q) && q != p;
    }
  }

  /** slab_shrink keeps everything, and gives back at most `n` pages, each of a slab with no object out. */
  lemma {:induction false} ShrinkEffect(c: Cache, a: Alloc, live: set<nat>, n: nat)
    requires Inv(c, a, live)
    ensures var (c', a', k) := Shrink(c, a, n);
            && Inv(c', a', live) && Slack(a') == Slack(a) && a'.maxPages == a.maxPages && k <= n
            && c'.numSlabs == c.numSlabs - k && |c'.empty| == |c.empty| - k && (k < n ==> c'.empty == [])
            && c'.partial == c.partial && c'.full == c.full
    decreases n
  {
    hide Inv, NumObjs, Slack;
    if n != 0 && c.empty != [] {
      DropEffect(c, a, live);
      ShrinkEffect(Drop(c), FreeRun(a, c.empty[0] / PAGE_SIZE, 1), live, n - 1);
    }
  }

  /** The page of one of the first `k` empty slabs. */
  ghost predicate AmongEmpty(c: Cache, k: nat, f: nat) {
    exists i :: 0 <= i < k && i < |c.empty| && c.empty[i] / PAGE_SIZE == f
  }

  /** As many slabs as may be, and exactly their frames, are given back. */
  ghost predicate FreesExactly(c: Cache, a: Alloc, n: nat, a': Alloc, k: nat) {
    && k == Min(n, |c.empty|) && |a'.bits| == |a.bits|
    && forall f: nat :: f < |a.bits| ==> a'.bits[f] == (a.bits[f] && !AmongEmpty(c, k, f))
  }

  lemma {:induction false} ShrinkFrees(c: Cache, a: Alloc, live: set<nat>, n: nat)
    requires Inv(c, a, live)
    ensures FreesExactly(c, a, n, Shrink(c, a, n).1, Shrink(c, a, n).2)
    decreases n
  {
    hide Inv, NumObjs, Drop, Slack, PageUsed, FreesExactly;
    if n != 0 && c.empty != [] {
      DropEffect(c, a, live);
      FreedBits(c, a);
      var b := FreeRun(a, c.empty[0] / PAGE_SIZE, 1);
      ShrinkFrees(Drop(c), b, live, n - 1);
      FreesOneMore(c, a, n, Shrink(Drop(c), b, n - 1).1, Shrink(Drop(c), b, n - 1).2);
    } else {
      FreesNone(c, a, n);
    }
  }

  lemma FreesNone(c: Cache, a: Alloc, n: nat)
    requires n == 0 || c.empty == []
    ensures FreesExactly(c, a, n, a, 0)
  {
  }

  lemma FreesOneMore(c: Cache, a: Alloc, n: nat, a': Alloc, k: nat)
    requires 0 < n && c.empty != [] && c.empty[0] in c.slabs && PageUsed(a, c.empty[0])
    requires FreesExactly(Drop(c), FreeRun(a, c.empty[0] / PAGE_SIZE, 1), n - 1, a', k)
    ensures FreesExactly(c, a, n, a', k + 1)
  {
    FreedBits(c, a);
    DropShape(c);
    forall f: nat ensures AmongEmpty(c, k + 1, f) <==> f == c.empty[0] / PAGE_SIZE || AmongEmpty(Drop(c), k, f) {
      MoreAmongEmpty(c, k, f);
    }
    hide Drop, AmongEmpty;
  }

  lemma DropShape(c: Cache)
    requires c.empty != [] && c.empty[0] in c.slabs
    ensures |Drop(c).empty| == |c.empty| - 1
  {
  }

  lemma FreedBits(c: Cache, a: Alloc)
    requires c.empty != [] && PageUsed(a, c.empty[0])
    ensures var b := FreeRun(a, c.empty[0] / PAGE_SIZE, 1);
            |b.bits| == |a.bits| && forall f: nat :: f < |a.bits| ==> b.bits[f] == (a.bits[f] && f != c.empty[0] / PAGE_SIZE)
  {
    FreeRunBits(a, c.empty[0] / PAGE_SIZE, 1);
  }

  lemma MoreAmongEmpty(c: Cache, k: nat, f: nat)
    requires c.empty != [] && c.empty[0] in c.slabs
    ensures AmongEmpty(c, k + 1, f) <==> f == c.empty[0] / PAGE_SIZE || AmongEmpty(Drop(c), k, f)
  {
    if AmongEmpty(c, k + 1, f) && f != c.empty[0] / PAGE_SIZE {
      var i :| 0 <= i < k + 1 && i < |c.empty| && c.empty[i] / PAGE_SIZE == f;
      assert Drop(c).empty[i - 1] == c.empty[i];
    }
    if AmongEmpty(Drop(c), k, f) {
      var i :| 0 <= i < k && i < |Drop(c).empty| && Drop(c).empty[i] / PAGE_SIZE == f;
      assert c.empty[i + 1] / PAGE_SIZE == f;
    }
  }
}
