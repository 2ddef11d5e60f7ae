/**
 * The slab cache as the kernel runs it (kernel/mm/slab.c): slab headers linked into three lists, free
 * objects linked through the bytes of physical memory, everything updated in place.
 */
module SlabCaches {
  import opened Prelude
  import opened FrameAllocatorSpec
  import opened FrameBitmap
  import opened SlabLayout
  import opened SlabMemory
  import opened SlabSpec
  import opened SlabMachine

  /** slab_t */
  class SlabNode {
    const page: nat
    var freeList: nat
    var numFree: int
    var next: SlabNode?

    constructor (page: nat, numFree: int, next: SlabNode?)
      ensures this.page == page && this.numFree == numFree && this.next == next
    {
      this.page := page;
      this.numFree := numFree;
      this.next := next;
    }
  }

  // ----- Lists of slabs, as values -----

  /** What a slab's fields hold. */
  datatype Fields = Fields(page: nat, freeList: nat, numFree: int, next: SlabNode?)

  type Heap = map<SlabNode, Fields>

  /** From `head` on, `next` links the headers of exactly these pages, in order. */
  ghost predicate Linked(head: SlabNode?, pages: seq<nat>, headers: map<nat, Header>, h: Heap)
    decreases |pages|
  {
    if pages == [] then head == null
    else
      && head != null && head in h && h[head].page == pages[0] && pages[0] in headers
      && headers[pages[0]] == Header(h[head].freeList, h[head].numFree)
      && Linked(h[head].next, pages[1..], headers, h)
  }

  /** Slabs of other pages do not matter. */
  lemma {:induction false} LinkedElsewhere(head: SlabNode?, pages: seq<nat>, headers: map<nat, Header>, h: Heap,
                                           headers': map<nat, Header>, h': Heap)
    requires Linked(head, pages, headers, h)
    requires forall p :: p in pages && p in headers ==> p in headers' && headers'[p] == headers[p]
    requires forall n :: n in h && h[n].page in pages ==> n in h' && h'[n] == h[n]
    ensures Linked(head, pages, headers', h')
    decreases |pages|
  {
    if pages != [] {
      LinkedElsewhere(h[head].next, pages[1..], headers, h, headers', h');
    }
  }

  /** The node after `k` links. */
  ghost function Walk(head: SlabNode?, h: Heap, k: nat): SlabNode? {
    if k == 0 || head == null || head !in h then head else Walk(h[head].next, h, k - 1)
  }

  lemma {:induction false} WalkReaches(head: SlabNode?, pages: seq<nat>, headers: map<nat, Header>, h: Heap, k: nat)
    requires Linked(head, pages, headers, h) && k <= |pages|
    ensures var n := Walk(head, h, k);
            if k == |pages| then n == null
            else n != null && n in h && h[n].page == pages[k] && h[n].next == Walk(head, h, k + 1)
    decreases k
  {
    if k > 0 {
      WalkReaches(h[head].next, pages[1..], headers, h, k - 1);
    }
  }

  /** A change at a slab of a page that is not on the list. */
  lemma LinkedKept(head: SlabNode?, pages: seq<nat>, headers: map<nat, Header>, h: Heap, n: SlabNode, f: Fields, d: Header)
    requires Linked(head, pages, headers, h) && f.page !in pages && (n in h ==> h[n].page == f.page)
    ensures Linked(head, pages, headers[f.page := d], h[n := f]) && Linked(head, pages, headers, h[n := f])
  {
    LinkedElsewhere(head, pages, headers, h, headers[f.page := d], h[n := f]);
    LinkedElsewhere(head, pages, headers, h, headers, h[n := f]);
  }

  /** A new header for a slab on the list. */
  lemma {:induction false} LinkedHeader(head: SlabNode?, pages: seq<nat>, headers: map<nat, Header>, h: Heap, n: SlabNode, d: Header)
    requires Linked(head, pages, headers, h) && NoDup(pages) && n in h && h[n].page in pages
    requires exists k: nat :: k < |pages| && Walk(head, h, k) == n
    ensures Linked(head, pages, headers[h[n].page := d], h[n := h[n].(freeList := d.head, numFree := d.numFree)])
    decreases |pages|
  {
    var rest := pages[1..];
    assert pages == [pages[0]] + rest;
    NoDupCons(pages[0], rest);
    var k: nat :| k < |pages| && Walk(head, h, k) == n;
    WalkReaches(head, pages, headers, h, k);
    var f := h[n].(freeList := d.head, numFree := d.numFree);
    if k == 0 {
      LinkedKept(h[head].next, rest, headers, h, n, f, d);
    } else {
      assert pages[k] == rest[k - 1];
      assert Walk(h[head].next, h, k - 1) == n;
      LinkedHeader(h[head].next, rest, headers, h, n, d);
    }
  }

  /** The head of one list becomes the head of another. */
  lemma HeadMoved(from: SlabNode, pages: seq<nat>, to: SlabNode?, others: seq<nat>, headers: map<nat, Header>, h: Heap)
    requires Linked(from, pages, headers, h) && Linked(to, others, headers, h)
    requires pages != [] && NoDup(pages) && pages[0] !in others
    ensures from in h && h[from].page == pages[0]
    ensures var h' := h[from := h[from].(next := to)];
            Linked(h[from].next, pages[1..], headers, h') && Linked(from, [pages[0]] + others, headers, h')
  {
    var rest := pages[1..];
    assert pages == [pages[0]] + rest;
    NoDupCons(pages[0], rest);
    var f := h[from].(next := to);
    LinkedKept(h[from].next, rest, headers, h, from, f, headers[pages[0]]);
    LinkedKept(to, others, headers, h, from, f, headers[pages[0]]);
    assert ([pages[0]] + others)[1..] == others;
  }

  /** The three lists of the machine. */
  ghost predicate Lists(k: Machine, partial: SlabNode?, full: SlabNode?, empty: SlabNode?, h: Heap) {
    && Linked(partial, k.partial, k.headers, h)
    && Linked(full, k.full, k.headers, h)
    && Linked(empty, k.empty, k.headers, h)
  }

  /** No page is listed twice. */
  ghost predicate Distinct(k: Machine) {
    && NoDup(k.partial) && NoDup(k.full) && NoDup(k.empty)
    && (forall p :: p in k.partial ==> p !in k.full && p !in k.empty)
    && (forall p :: p in k.full ==> p !in k.empty)
  }

  ghost predicate OtherArray(a: object, b: object) {
    a != b
  }

  class SlabCache {
    const frames: FrameAllocator
    const bytes: array<Byte>
    const objSize: nat
    const numObjs: nat
    var partial: SlabNode?
    var full: SlabNode?
    var empty: SlabNode?
    var numSlabs: int
    var total: int
    var freeCount: int
    var allocs: int
    var frees: int
    ghost var heap: Heap
    ghost var state: Machine
    ghost var view: Cache
    ghost var live: set<nat>

    /** The fields of the slabs are those of `heap`. */
    ghost predicate InHeap()
      reads this`heap, heap.Keys
    {
      forall n :: n in heap ==> heap[n] == Fields(n.page, n.freeList, n.numFree, n.next)
    }

    ghost predicate Counts(k: Machine)
      reads this`numSlabs, this`total, this`freeCount, this`allocs, this`frees
    {
      && numSlabs == k.numSlabs && total == k.total && freeCount == k.freeCount
      && allocs == k.allocs && frees == k.frees
    }

    /** Lists, counters and memory are those of `state`. */
    ghost predicate Agrees()
      reads this, bytes, heap.Keys
    {
      && InHeap() && Lists(state, partial, full, empty, heap) && Counts(state)
      && state.mem == bytes[..] && state.objSize == objSize && numObjs == NumObjs(objSize)
    }

    /** The state stands for a cache that is as it should be, and so is the frame allocator. */
    ghost predicate Valid()
      reads this, bytes, heap.Keys, frames, frames.bitmap, frames.bitmap.words
    {
      && frames.Valid() && OtherArray(bytes, frames.bitmap.words)
      && Agrees() && frames.maxPages * PAGE_SIZE <= bytes.Length
      && Represents(state, view) && Inv(view, frames.State(), live)
    }

    /** slab_cache_create: the cache is usable if and only if its objects have room for a link. */
    constructor (frames: FrameAllocator, bytes: array<Byte>, objSize: nat)
      requires frames.Valid() && OtherArray(bytes, frames.bitmap.words)
      requires frames.maxPages * PAGE_SIZE <= bytes.Length <= TWO_64
      ensures Valid() <==> MIN_OBJ_SIZE <= objSize
      ensures this.frames == frames && this.bytes == bytes && this.objSize == objSize && live == {} && heap == map[]
    {
      this.frames := frames;
      this.bytes := bytes;
      this.objSize := objSize;
      numObjs := NumObjs(objSize);
      partial, full, empty := null, null, null;
      numSlabs, total, freeCount, allocs, frees := 0, 0, 0, 0, 0;
      heap, live := map[], {};
      state := EmptyMachine(bytes[..], objSize);
      view := EmptyCache(objSize);
    }

    // ----- Words of memory -----

    method LoadLink(at: nat) returns (w: nat)
      requires at + LINK_SIZE <= bytes.Length
      ensures w == LoadWord(bytes[..], at)
    {
      w := 0;
      var i := LINK_SIZE;
      while i > 0
        invariant 0 <= i <= LINK_SIZE && w == Load(bytes[..], at + i, LINK_SIZE - i)
      {
        i := i - 1;
        w := bytes[at + i] + 256 * w;
      }
    }

    method StoreLink(at: nat, w: nat)
      requires at + LINK_SIZE <= bytes.Length
      modifies bytes
      ensures bytes[..] == StoreWord(old(bytes[..]), at, w)
    {
      var rest := w;
      var i := 0;
      while i < LINK_SIZE
        invariant 0 <= i <= LINK_SIZE
        invariant Store(bytes[..], at + i, rest, LINK_SIZE - i) == StoreWord(old(bytes[..]), at, w)
      {
        ghost var before := bytes[..];
        bytes[at + i] := rest % 256;
        assert bytes[..] == before[at + i := rest % 256];
        rest := rest / 256;
        i := i + 1;
      }
    }

    /** The loop of slab_create: each slot gets the next one as its link, the last one gets none. */
    method ThreadSlots(page: nat) returns (freeList: nat)
      requires numObjs == NumObjs(objSize) && page + PAGE_SIZE <= bytes.Length
      modifies bytes
      ensures bytes[..] == Threaded(old(bytes[..]), objSize, page) && freeList == SlotAddr(objSize, page, 0)
    {
      hide NumObjs, StoreWord;
      ghost var was := bytes[..];
      var objPtr := page + SLAB_HEADER;
      var freePtr := 0;
      freeList := 0;
      var i := 0;
      while i < numObjs
        invariant 0 <= i <= numObjs && objPtr == SlotAddr(objSize, page, i)
        invariant if i == 0 then bytes[..] == was
                  else freeList == SlotAddr(objSize, page, 0) && freePtr == SlotAddr(objSize, page, i - 1)
                       && bytes[..] == LinkUp(was, objSize, page, i - 1)
      {
        if i == 0 { // the first link is the one in the header
          freeList := objPtr;
        } else {
          LinkInPage(objSize, page, i - 1);
          StoreLink(freePtr, objPtr);
        }
        freePtr := objPtr;
        objPtr := objPtr + objSize;
        i := i + 1;
      }
      LinkInPage(objSize, page, numObjs - 1);
      StoreLink(freePtr, 0);
    }

    // ----- slab_alloc -----

    /** Stores a slab's free list and count. */
    method SetHeader(slab: SlabNode, freeList: nat, numFree: int, ghost k: nat, ghost which: nat)
      requires Agrees() && Distinct(state) && slab in heap
      requires OnList(state, partial, full, heap, slab, k, which)
      modifies slab`freeList, slab`numFree, this`heap, this`state
      ensures Agrees() && slab in heap && heap.Keys == old(heap.Keys)
      ensures heap == old(heap)[slab := old(heap[slab]).(freeList := freeList, numFree := numFree)]
      ensures state == old(state).(headers := old(state.headers)[slab.page := Header(freeList, numFree)])
      ensures slab.numFree == numFree && slab.next == old(slab.next)
    {
      HeaderSet(state, partial, full, empty, heap, slab, k, which, Header(freeList, numFree));
      hide Linked, Walk, NumObjs;
      slab.freeList := freeList;
      slab.numFree := numFree;
      heap := heap[slab := heap[slab].(freeList := freeList, numFree := numFree)];
      state := state.(headers := state.headers[slab.page := Header(freeList, numFree)]);
    }

    /** The head of the partial list goes to the full list. */
    method Retire()
      requires Agrees() && Distinct(state) && state.partial != []
      modifies this`partial, this`full, this`heap, this`state, heap.Keys
      ensures Agrees() && heap.Keys == old(heap.Keys)
      ensures state == old(state).(partial := old(state.partial)[1..], full := [old(state.partial)[0]] + old(state.full))
    {
      Retired(state, partial, full, empty, heap);
      hide Linked, NumObjs;
      var slab := partial;
      partial := slab.next;
      slab.next := full;
      heap := heap[slab := heap[slab].(next := full)];
      full := slab;
      state := state.(partial := state.partial[1..], full := [state.partial[0]] + state.full);
    }

    method CountTaken()
      requires Agrees()
      modifies this`freeCount, this`allocs, this`state
      ensures Agrees() && state == old(state).(freeCount := old(state.freeCount) - 1, allocs := old(state.allocs) + 1)
    {
      hide Linked, NumObjs;
      freeCount := freeCount - 1;
      allocs := allocs + 1;
      state := state.(freeCount := freeCount, allocs := allocs);
    }

    /** slab_alloc when the partial list is not empty. */
    method TakeFromPartial() returns (x: nat)
      requires Agrees() && Distinct(state) && Takeable(state)
      modifies this`partial, this`full, this`freeCount, this`allocs, this`heap, this`state, heap.Keys
      ensures Agrees() && (state, x) == TakeFirst(old(state)) && heap.Keys == old(heap.Keys)
    {
      FirstPartial(state, partial, full, empty, heap);
      assert state.mem == bytes[..] && heap[partial] == Fields(partial.page, partial.freeList, partial.numFree, partial.next);
      hide Linked, NumObjs, LoadWord, Agrees, Distinct, OnList;
      var slab := partial;
      x := slab.freeList;
      var link := LoadLink(x);
      KeepsDistinct(state);
      SetHeader(slab, link, slab.numFree - 1, 0, 0);
      CountTaken();
      if slab.numFree == 0 {
        Retire();
      }
    }

    /** The head of the empty list goes to the partial list. */
    method Promote()
      requires Agrees() && Distinct(state) && state.empty != []
      modifies this`partial, this`empty, this`heap, this`state, heap.Keys
      ensures Agrees() && heap.Keys == old(heap.Keys) && state == Promoted(old(state))
    {
      PromotedLists(state, partial, full, empty, heap);
      hide Linked, NumObjs;
      var slab := empty;
      empty := slab.next;
      slab.next := partial;
      heap := heap[slab := heap[slab].(next := partial)];
      partial := slab;
      state := Promoted(state);
    }

    /** The header of a new slab goes to the head of the partial list. */
    method LinkIn(page: nat, freeList: nat)
      requires Agrees() && page !in state.partial && page !in state.full && page !in state.empty
      modifies this`partial, this`heap, this`state
      ensures Agrees() && old(heap.Keys) <= heap.Keys && fresh(heap.Keys - old(heap.Keys))
      ensures state == old(state).(headers := old(state.headers)[page := Header(freeList, numObjs)],
                                   partial := [page] + old(state.partial))
    {
      hide Linked, NumObjs;
      var slab := new SlabNode(page, numObjs, partial);
      slab.freeList := freeList;
      assert slab !in heap;
      ghost var f := Fields(page, freeList, numObjs, partial);
      Added(state, partial, full, empty, heap, slab, f);
      heap := heap[slab := f];
      partial := slab;
      state := state.(headers := state.headers[page := Header(freeList, numObjs)], partial := [page] + state.partial);
    }

    /** slab_create once it has its page, and the link at the head of the partial list. */
    method Add(page: nat)
      requires Agrees() && page !in state.partial && page !in state.full && page !in state.empty
      requires page + PAGE_SIZE <= bytes.Length
      modifies this`partial, this`numSlabs, this`total, this`freeCount, this`heap, this`state, bytes
      ensures Agrees() && |old(state.mem)| == bytes.Length && state == Created(old(state), page)
      ensures old(heap.Keys) <= heap.Keys && fresh(heap.Keys - old(heap.Keys))
    {
      hide Linked, NumObjs, Threaded;
      var freeList := ThreadSlots(page);
      state := state.(mem := bytes[..]);
      LinkIn(page, freeList);
      numSlabs := numSlabs + 1;
      total := total + numObjs;
      freeCount := freeCount + numObjs;
      state := state.(numSlabs := numSlabs, total := total, freeCount := freeCount);
    }

    /** slab_alloc when no slab has a free object: takes one from a new slab, or gives up. */
    method AllocFromNewPage(kmallocOk: bool) returns (x: nat)
      requires frames.Valid() && OtherArray(bytes, frames.bitmap.words) && Agrees()
      requires frames.maxPages * PAGE_SIZE <= bytes.Length && WellFormed(frames.State())
      requires CanAllocate(state, frames.State()) && state.partial == [] && state.empty == []
      modifies this, bytes, heap.Keys, frames, frames.bitmap, frames.bitmap.words
      ensures frames.Valid() && Agrees() && view == old(view) && live == old(live)
      ensures var (k, a, obj) := Allocate(old(state), old(frames.State()), kmallocOk);
              state == k && frames.State() == a && x == (if obj.Some? then obj.value else 0)
      ensures fresh(heap.Keys - old(heap.Keys))
    {
      hide Linked, NumObjs, Threaded, FrameAllocator.Valid, Slack, FindFrom, TakeFirst, Distinct, Created, Takeable;
      assert |state.mem| == bytes.Length;
      hide Agrees;
      x := 0;
      AllocRunEffect(frames.State(), 1);
      var page := frames.AllocPage();
      if page != 0 {
        if !kmallocOk {
          frames.FreePage(page);
        } else {
          Add(page);
          x := TakeFromPartial();
        }
      }
    }

    /** The body of slab_alloc. */
    method FindObject(kmallocOk: bool) returns (x: nat)
      requires frames.Valid() && OtherArray(bytes, frames.bitmap.words) && Agrees()
      requires frames.maxPages * PAGE_SIZE <= bytes.Length && WellFormed(frames.State())
      requires Distinct(state) && CanAllocate(state, frames.State())
      modifies this, bytes, heap.Keys, frames, frames.bitmap, frames.bitmap.words
      ensures frames.Valid() && Agrees() && view == old(view) && live == old(live)
      ensures var (k, a, obj) := Allocate(old(state), old(frames.State()), kmallocOk);
              state == k && frames.State() == a && x == (if obj.Some? then obj.value else 0)
      ensures fresh(heap.Keys - old(heap.Keys))
    {
      hide Linked, NumObjs, Threaded, FrameAllocator.Valid, Slack, FindFrom, TakeFirst, Distinct, Created, Takeable;
      EmptyLists(state, partial, full, empty, heap);
      assert |state.mem| == bytes.Length;
      hide Agrees;
      if partial != null {
        x := TakeFromPartial();
      } else if empty != null {
        Promote();
        x := TakeFromPartial();
      } else {
        x := AllocFromNewPage(kmallocOk);
      }
    }

    /** slab_alloc: an object that is not out already, or 0 when none can be had. */
    method Alloc(kmallocOk: bool) returns (x: nat)
      requires Valid()
      modifies this, bytes, heap.Keys, frames, frames.bitmap, frames.bitmap.words
      ensures Valid() && fresh(heap.Keys - old(heap.Keys))
      ensures WellFormed(old(frames.State())) && old(frames.maxPages * PAGE_SIZE <= |state.mem|)
      ensures (state, frames.State(), if x == 0 then None else Some(x)) ==
              Allocate(old(state), old(frames.State()), kmallocOk)
      ensures x != 0 ==> x !in old(live)
      ensures live == old(live) + (if x == 0 then {} else {x})
    {
      hide Inv, NumObjs, Allocate, AllocObj, CanAllocate, Represents, Distinct, Linked, FrameAllocator.Valid, Slack;
      ghost var c, a := view, frames.State();
      AllocateStands(state, c, a, live, kmallocOk);
      x := FindObject(kmallocOk);
      view := AllocObj(c, a, kmallocOk).0;
      if x != 0 {
        live := live + {x};
      }
    }

    // ----- slab_free -----

    /** The search of slab_free along a list: the slab whose page holds the object, and the one before it. */
    method Search(head: SlabNode?, x: nat, ghost pages: seq<nat>)
      returns (prev: SlabNode?, cur: SlabNode?, ghost k: nat)
      requires InHeap() && Linked(head, pages, state.headers, heap) && forall p :: p in pages ==> p % PAGE_SIZE == 0
      ensures k <= |pages| && cur == Walk(head, heap, k) && PageOf(x) !in pages[..k]
      ensures prev == if k == 0 then null else Walk(head, heap, k - 1)
      ensures if k == |pages| then cur == null else cur != null && cur in heap && pages[k] == PageOf(x)
      ensures cur == null <==> PageOf(x) !in pages
      ensures cur != null ==> heap[cur].page == PageOf(x) && (if prev == null then cur == head else prev in heap && heap[prev].next == cur)
    {
      prev, cur, k := null, head, 0;
      WalkReaches(head, pages, state.headers, heap, 0);
      while cur != null && !(cur.page <= x < cur.page + PAGE_SIZE)
        invariant k <= |pages| && cur == Walk(head, heap, k) && PageOf(x) !in pages[..k]
        invariant prev == if k == 0 then null else Walk(head, heap, k - 1)
        invariant if k == |pages| then cur == null else cur != null && cur in heap && heap[cur].page == pages[k]
        decreases |pages| - k
      {
        WalkReaches(head, pages, state.headers, heap, k);
        WalkReaches(head, pages, state.headers, heap, k + 1);
        assert pages[k] in pages && PageOf(x) != pages[k];
        prev, cur, k := cur, cur.next, k + 1;
      }
      if cur != null {
        assert pages[k] in pages;
        InPage(cur.page, x);
        if k > 0 {
          WalkReaches(head, pages, state.headers, heap, k - 1);
        }
      } else {
        assert pages[..k] == pages;
      }
    }

    /** Links the object in before the first free one of its slab. */
    method PushObject(slab: SlabNode, x: nat, ghost k: nat, ghost which: nat)
      requires Agrees() && Distinct(state) && slab in heap && OnList(state, partial, full, heap, slab, k, which)
      requires slab.page in state.headers && state.headers[slab.page] == Header(slab.freeList, slab.numFree)
      requires x + LINK_SIZE <= |state.mem|
      modifies slab`freeList, slab`numFree, this`heap, this`state, this`freeCount, this`frees, bytes
      ensures Agrees() && heap.Keys == old(heap.Keys) && slab in heap
      ensures heap == old(heap)[slab := old(heap[slab]).(freeList := x, numFree := old(slab.numFree) + 1)]
      ensures old(slab.page in state.headers && x + LINK_SIZE <= |state.mem|) && state == Pushed(old(state), slab.page, x)
      ensures slab.numFree == old(slab.numFree) + 1
    {
      hide Linked, NumObjs, StoreWord, Walk, OnList, Distinct;
      KeepsDistinct(state);
      KeepsOnList(state, partial, full, heap, slab, k, which);
      StoreLink(x, slab.freeList);
      state := state.(mem := bytes[..]);
      freeCount := freeCount + 1;
      frees := frees + 1;
      state := state.(freeCount := freeCount, frees := frees);
      SetHeader(slab, x, slab.numFree + 1, k, which);
    }

    method SetNext(slab: SlabNode, next: SlabNode?)
      requires InHeap() && slab in heap
      modifies slab`next, this`heap
      ensures InHeap() && slab in old(heap) && heap == old(heap)[slab := old(heap)[slab].(next := next)]
    {
      slab.next := next;
      heap := heap[slab := heap[slab].(next := next)];
    }

    /** *slab_ptr = slab->next, where slab_ptr is in the slab before or is the list itself. */
    method Skip(prev: SlabNode?, slab: SlabNode, head: SlabNode?, ghost k: nat) returns (first: SlabNode?)
      requires InHeap() && slab in heap && slab == Walk(head, heap, k)
      requires prev == (if k == 0 then null else Walk(head, heap, k - 1)) && (k > 0 ==> prev != null && prev in heap)
      modifies this`heap, if prev == null then {} else {prev}
      ensures InHeap() && heap == AfterUnlink(head, old(heap), k)
      ensures slab in old(heap) && first == if k == 0 then old(heap)[slab].next else head
    {
      hide Walk;
      first := head;
      if prev == null {
        first := slab.next;
      } else {
        SetNext(prev, slab.next);
      }
    }

    /** *slab_ptr = slab->next, and the slab goes to the head of the partial list. */
    method FullToPartial(prev: SlabNode?, slab: SlabNode, ghost k: nat)
      requires Agrees() && Distinct(state) && k < |state.full| && slab == Walk(full, heap, k)
      requires prev == if k == 0 then null else Walk(full, heap, k - 1)
      modifies this`partial, this`full, this`heap, this`state, heap.Keys
      ensures Agrees() && heap.Keys == old(heap.Keys)
      ensures state == old(state).(full := DropAt(old(state.full), k), partial := [old(state.full)[k]] + old(state.partial))
    {
      hide Linked, NumObjs, Walk, Distinct, InHeap, AfterUnlink, DropAt, Lists;
      FullToPartialLists(state, partial, full, empty, heap, k);
      full := Skip(prev, slab, full, k);
      SetNext(slab, partial);
      partial := slab;
      state := state.(full := DropAt(state.full, k), partial := [state.full[k]] + state.partial);
    }

    /** The same from the partial list to the empty list. */
    method PartialToEmpty(prev: SlabNode?, slab: SlabNode, ghost k: nat)
      requires Agrees() && Distinct(state) && k < |state.partial| && slab == Walk(partial, heap, k)
      requires prev == if k == 0 then null else Walk(partial, heap, k - 1)
      modifies this`partial, this`empty, this`heap, this`state, heap.Keys
      ensures Agrees() && heap.Keys == old(heap.Keys)
      ensures state == old(state).(partial := DropAt(old(state.partial), k), empty := [old(state.partial)[k]] + old(state.empty))
    {
      hide Linked, NumObjs, Walk, Distinct, InHeap, AfterUnlink, DropAt, Lists;
      PartialToEmptyLists(state, partial, full, empty, heap, k);
      partial := Skip(prev, slab, partial, k);
      SetNext(slab, empty);
      empty := slab;
      state := state.(partial := DropAt(state.partial, k), empty := [state.partial[k]] + state.empty);
    }

    /** slab_free for an object in a full slab. */
    method FreeIntoFull(x: nat, prev: SlabNode?, slab: SlabNode, ghost k: nat)
      requires Agrees() && Distinct(state) && CanRelease(state, x)
      requires k < |state.full| && state.full[k] == PageOf(x) && PageOf(x) !in state.full[..k]
      requires slab == Walk(full, heap, k) && prev == if k == 0 then null else Walk(full, heap, k - 1)
      modifies this`partial, this`full, this`heap, this`state, this`freeCount, this`frees, bytes, heap.Keys
      ensures Agrees() && heap.Keys == old(heap.Keys) && state == Release(old(state), x)
    {
      ghost var m, h := state, heap;
      SlabOnFull(m, partial, full, empty, h, k);
      FoundAt(m.full, k);
      assert m.full[k] in m.full;
      hide Linked, NumObjs, StoreWord, Distinct, Without;
      assert h[slab] == Fields(slab.page, slab.freeList, slab.numFree, slab.next);
      KeepsDistinct(m);
      PushObject(slab, x, k, 1);
      WalkHeader(full, h, slab, x, slab.numFree, k);
      WalkHeader(full, h, slab, x, slab.numFree, if k == 0 then 0 else k - 1);
      if slab.numFree == 1 { // a full slab had none free, so this is always so
        FullToPartial(prev, slab, k);
      }
    }

    /** slab_free for an object in a partial slab. */
    method FreeIntoPartial(x: nat, prev: SlabNode?, slab: SlabNode, ghost k: nat)
      requires Agrees() && Distinct(state) && CanRelease(state, x) && PageOf(x) !in state.full
      requires k < |state.partial| && state.partial[k] == PageOf(x) && PageOf(x) !in state.partial[..k]
      requires slab == Walk(partial, heap, k) && prev == if k == 0 then null else Walk(partial, heap, k - 1)
      modifies this`partial, this`empty, this`heap, this`state, this`freeCount, this`frees, bytes, heap.Keys
      ensures Agrees() && heap.Keys == old(heap.Keys) && state == Release(old(state), x)
    {
      ghost var m, h := state, heap;
      SlabOnPartial(m, partial, full, empty, h, k);
      FoundAt(m.partial, k);
      assert m.partial[k] in m.partial;
      hide Linked, NumObjs, StoreWord, Distinct, Without;
      assert h[slab] == Fields(slab.page, slab.freeList, slab.numFree, slab.next);
      KeepsDistinct(m);
      PushObject(slab, x, k, 0);
      WalkHeader(partial, h, slab, x, slab.numFree, k);
      WalkHeader(partial, h, slab, x, slab.numFree, if k == 0 then 0 else k - 1);
      if slab.numFree == numObjs {
        PartialToEmpty(prev, slab, k);
      }
    }

    /** The body of slab_free: nothing happens when neither list has the page. */
    method ReleaseObject(x: nat)
      requires Agrees() && Distinct(state) && CanRelease(state, x)
      modifies this`partial, this`full, this`empty, this`heap, this`state, this`freeCount, this`frees, bytes, heap.Keys
      ensures Agrees() && heap.Keys == old(heap.Keys) && state == Release(old(state), x)
    {
      var before, slab, i := Search(full, x, state.full);
      if slab != null {
        FreeIntoFull(x, before, slab, i);
        return;
      }
      assert state.full[..i] == state.full;
      var prev, cur, k := Search(partial, x, state.partial);
      if cur != null {
        FreeIntoPartial(x, prev, cur, k);
        return;
      }
      assert state.partial[..k] == state.partial;
    }

    /** slab_free: of a live object, or of an address in no full or partial slab, which changes nothing. */
    method Free(x: nat)
      requires Valid() && (x in live || (PageOf(x) !in state.full && PageOf(x) !in state.partial))
      modifies this, bytes, heap.Keys
      ensures Valid() && heap.Keys == old(heap.Keys)
      ensures state == Release(old(state), x) && live == old(live) - {x}
    {
      hide Inv, NumObjs, Represents, Distinct, Linked, FrameAllocator.Valid, Slack, Release, GiveBack, CanRelease;
      ghost var c := view;
      ReleaseStands(state, c, frames.State(), live, x);
      hide Lists, InHeap;
      ReleaseObject(x);
      view := GiveBack(c, x);
      live := live - {x};
    }

    /** A client writes a byte of its object: no list notices. */
    method WriteObject(x: nat, addr: nat, b: Byte)
      requires Valid() && x in live && InObject(objSize, x, addr) && addr < bytes.Length
      modifies bytes, this`state
      ensures Valid() && addr < |old(state.mem)| && state == old(state).(mem := old(state.mem)[addr := b])
    {
      hide Inv, NumObjs, Represents, Linked, FrameAllocator.Valid, Slack, LiveByte;
      HeadersAgree(state, view);
      ClientWriteRefines(state, view, frames.State(), live, x, addr, b);
      bytes[addr] := b;
      state := state.(mem := bytes[..]);
    }

    // ----- slab_shrink -----

    /** Takes the first empty slab off its list and counts it out. */
    method UnlinkEmpty() returns (page: nat)
      requires Agrees() && Distinct(state) && state.empty != [] && state.empty[0] in state.headers
      modifies this`empty, this`numSlabs, this`total, this`freeCount, this`heap, this`state
      ensures Agrees() && heap.Keys <= old(heap.Keys)
      ensures page == old(state.empty)[0] && old(state.empty[0] in state.headers) && state == Dropped(old(state))
    {
      FirstEmpty(state, partial, full, empty, heap);
      hide Linked, NumObjs, Distinct;
      var slab := empty;
      page := slab.page;
      empty := slab.next;
      numSlabs := numSlabs - 1;
      total := total - numObjs;
      freeCount := freeCount - slab.numFree;
      heap := heap - {slab};
      state := Dropped(state);
    }

    /** Takes off the first empty slab and gives back its page. */
    method DropOne()
      requires Valid() && empty != null
      modifies this, frames, frames.bitmap, frames.bitmap.words
      ensures Valid() && heap.Keys <= old(heap.Keys) && live == old(live)
      ensures old(state.empty) != [] && old(state.empty)[0] in old(state.headers) && state == Dropped(old(state))
      ensures WellFormed(frames.State())
      ensures frames.State() == FreeRun(old(frames.State()), old(state.empty)[0] / PAGE_SIZE, 1)
    {
      hide Inv, NumObjs, Represents, Distinct, Linked, Slack, Drop;
      ghost var c, a := view, frames.State();
      EmptyLists(state, partial, full, empty, heap);
      DropStands(state, c, a, live);
      hide Lists, InHeap;
      var page := UnlinkEmpty();
      frames.FreePage(page);
      view := Drop(c);
    }

    /** One round of slab_shrink on the way to `goal`. */
    method ShrinkRound(ghost n: nat, ghost freed: nat, ghost goal: (Machine, Alloc, nat))
      requires Valid() && empty != null && n > 0
      requires WellFormed(frames.State()) && ShrinksTo(state, frames.State(), n, freed, goal)
      modifies this, frames, frames.bitmap, frames.bitmap.words
      ensures Valid() && heap.Keys <= old(heap.Keys) && live == old(live)
      ensures WellFormed(frames.State()) && ShrinksTo(state, frames.State(), n - 1, freed + 1, goal)
    {
      hide Valid, ShrinksTo, FreeRun, Dropped, FrameAllocator.State;
      ghost var m, a := state, frames.State();
      DropOne();
      ShrinkUnfold(m, a, n, freed, goal);
    }

    lemma NothingEmpty()
      requires Valid()
      ensures WellFormed(frames.State())
      ensures empty == null <==> state.empty == []
    {
      EmptyLists(state, partial, full, empty, heap);
    }

    /** The loop of slab_shrink, which has limit 4. */
    method ShrinkUpTo(limit: nat) returns (freed: nat)
      requires Valid()
      modifies this, frames, frames.bitmap, frames.bitmap.words
      ensures Valid() && heap.Keys <= old(heap.Keys) && live == old(live)
      ensures WellFormed(old(frames.State()))
      ensures (state, frames.State(), freed) == Shrunk(old(state), old(frames.State()), limit)
    {
      hide ShrinksTo, Slack, Valid, FrameAllocator.State;
      NothingEmpty();
      ghost var goal := Shrunk(state, frames.State(), limit);
      freed := 0;
      ShrinkStarts(state, frames.State(), limit);
      while empty != null && freed < limit
        invariant Valid() && WellFormed(frames.State()) && freed <= limit && live == old(live)
        invariant heap.Keys <= old(heap.Keys)
        invariant ShrinksTo(state, frames.State(), limit - freed, freed, goal)
        decreases limit - freed
      {
        ShrinkRound(limit - freed, freed, goal);
        freed := freed + 1;
      }
      NothingEmpty();
      ShrinkUnfold(state, frames.State(), limit - freed, freed, goal);
    }

    /** slab_shrink: gives back at most four empty slabs. */
    method Shrink() returns (freed: nat)
      requires Valid()
      modifies this, frames, frames.bitmap, frames.bitmap.words
      ensures Valid() && heap.Keys <= old(heap.Keys) && live == old(live)
      ensures WellFormed(old(frames.State()))
      ensures (state, frames.State(), freed) == Shrunk(old(state), old(frames.State()), 4)
    {
      freed := ShrinkUpTo(4);
    }
  }

  /** The slab is the k-th of the partial or of the full list. */
  ghost predicate OnList(m: Machine, partial: SlabNode?, full: SlabNode?, h: Heap, slab: SlabNode, k: nat, which: nat) {
    if which == 0 then k < |m.partial| && Walk(partial, h, k) == slab else k < |m.full| && Walk(full, h, k) == slab
  }

  /** Being distinct is about the lists only. */
  lemma KeepsDistinct(m: Machine)
    ensures forall k: Machine :: k.partial == m.partial && k.full == m.full && k.empty == m.empty ==>
              (Distinct(k) <==> Distinct(m))
  {
  }

  lemma FirstPartial(m: Machine, partial: SlabNode?, full: SlabNode?, empty: SlabNode?, h: Heap)
    requires Lists(m, partial, full, empty, h) && m.partial != []
    ensures partial != null && partial in h && OnList(m, partial, full, h, partial, 0, 0)
    ensures h[partial].page == m.partial[0] && m.partial[0] in m.headers
    ensures m.headers[m.partial[0]] == Header(h[partial].freeList, h[partial].numFree)
  {
  }

  lemma HeaderSet(m: Machine, partial: SlabNode?, full: SlabNode?, empty: SlabNode?, h: Heap,
                  slab: SlabNode, k: nat, which: nat, d: Header)
    requires Lists(m, partial, full, empty, h) && Distinct(m) && slab in h && OnList(m, partial, full, h, slab, k, which)
    ensures Lists(m.(headers := m.headers[h[slab].page := d]), partial, full, empty,
                  h[slab := h[slab].(freeList := d.head, numFree := d.numFree)])
  {
    var f := h[slab].(freeList := d.head, numFree := d.numFree);
    if which == 0 {
      WalkReaches(partial, m.partial, m.headers, h, k);
      LinkedHeader(partial, m.partial, m.headers, h, slab, d);
      LinkedKept(full, m.full, m.headers, h, slab, f, d);
    } else {
      WalkReaches(full, m.full, m.headers, h, k);
      LinkedHeader(full, m.full, m.headers, h, slab, d);
      LinkedKept(partial, m.partial, m.headers, h, slab, f, d);
    }
    LinkedKept(empty, m.empty, m.headers, h, slab, f, d);
  }

  lemma Retired(m: Machine, partial: SlabNode?, full: SlabNode?, empty: SlabNode?, h: Heap)
    requires Lists(m, partial, full, empty, h) && Distinct(m) && m.partial != []
    ensures partial != null && partial in h
    ensures Lists(m.(partial := m.partial[1..], full := [m.partial[0]] + m.full), h[partial].next, partial, empty,
                  h[partial := h[partial].(next := full)])
  {
    assert m.partial[0] in m.partial;
    HeadMoved(partial, m.partial, full, m.full, m.headers, h);
    LinkedKept(empty, m.empty, m.headers, h, partial, h[partial].(next := full), m.headers[m.partial[0]]);
  }
  lemma PromotedLists(m: Machine, partial: SlabNode?, full: SlabNode?, empty: SlabNode?, h: Heap)
    requires Lists(m, partial, full, empty, h) && Distinct(m) && m.empty != []
    ensures empty != null && empty in h
    ensures Lists(Promoted(m), empty, full, h[empty].next, h[empty := h[empty].(next := partial)])
  {
    assert m.empty[0] in m.empty;
    HeadMoved(empty, m.empty, partial, m.partial, m.headers, h);
    LinkedKept(full, m.full, m.headers, h, empty, h[empty].(next := partial), m.headers[m.empty[0]]);
  }

  lemma Added(m: Machine, partial: SlabNode?, full: SlabNode?, empty: SlabNode?, h: Heap, slab: SlabNode, f: Fields)
    requires Lists(m, partial, full, empty, h) && slab !in h && f.next == partial
    requires f.page !in m.partial && f.page !in m.full && f.page !in m.empty
    ensures Lists(m.(headers := m.headers[f.page := Header(f.freeList, f.numFree)], partial := [f.page] + m.partial),
                  slab, full, empty, h[slab := f])
  {
    var d := Header(f.freeList, f.numFree);
    LinkedKept(partial, m.partial, m.headers, h, slab, f, d);
    LinkedKept(full, m.full, m.headers, h, slab, f, d);
    LinkedKept(empty, m.empty, m.headers, h, slab, f, d);
    assert ([f.page] + m.partial)[1..] == m.partial;
  }

  lemma EmptyLists(m: Machine, partial: SlabNode?, full: SlabNode?, empty: SlabNode?, h: Heap)
    requires Lists(m, partial, full, empty, h)
    ensures (partial == null <==> m.partial == []) && (full == null <==> m.full == []) && (empty == null <==> m.empty == [])
  {
  }

  /** Wherever slab_alloc goes, the slab it ends at has a free object. */
  ghost predicate CanAllocate(k: Machine, a: Alloc)
    requires WellFormed(a) && a.maxPages * PAGE_SIZE <= |k.mem|
  {
    && (k.partial != [] ==> Takeable(k))
    && (k.partial == [] && k.empty != [] ==> Takeable(Promoted(k)) && Distinct(Promoted(k)))
    && (k.partial == [] && k.empty == [] ==>
          var page := AllocRun(a, 1).1;
          page.Some? && page.value != 0 ==>
            var at := page.value * PAGE_SIZE;
            && at + PAGE_SIZE <= |k.mem| && at !in k.full
            && Takeable(Created(k, at)) && Distinct(Created(k, at)))
  }

  lemma CanAllocateNow(k: Machine, c: Cache, a: Alloc, live: set<nat>)
    requires Represents(k, c) && Inv(c, a, live) && a.maxPages * PAGE_SIZE <= |k.mem|
    ensures WellFormed(a) && Distinct(k) && CanAllocate(k, a)
  {
    DistinctLists(k, c);
    hide HeadersFit, NumObjs, FindFrom, GoodSlab, Counted, Distinct, Created, Create, Takeable, CanTake;
    if c.partial != [] {
      PartialIsReady(c, a, live);
      TakeRefines(k, c);
    } else if c.empty != [] {
      PromotedIsReady(c, a, live);
      TakeRefines(Promoted(k), Promote(c));
      DistinctLists(Promoted(k), Promote(c));
    } else {
      var page := AllocRun(a, 1).1;
      if page.Some? && page.value != 0 {
        CanCreate(k, c, a, live, page.value);
      }
    }
  }

  lemma HeadersAgree(k: Machine, c: Cache)
    requires Represents(k, c)
    ensures k.objSize == c.objSize && k.full == c.full && k.partial == c.partial
  {
  }

  lemma Exact(c: Cache, a: Alloc, live: set<nat>)
    requires Inv(c, a, live)
    ensures ListsExact(c)
  {
  }

  lemma DistinctLists(k: Machine, c: Cache)
    requires Represents(k, c) && ListsExact(c)
    ensures Distinct(k)
  {
    hide HeadersFit;
  }

  lemma CanCreate(k: Machine, c: Cache, a: Alloc, live: set<nat>, page: nat)
    requires Represents(k, c) && Inv(c, a, live) && c.partial == [] && c.empty == []
    requires a.maxPages * PAGE_SIZE <= |k.mem| && AllocRun(a, 1).1 == Some(page) && page != 0
    ensures var at := page * PAGE_SIZE;
            && at + PAGE_SIZE <= |k.mem| && at !in k.full
            && Takeable(Created(k, at)) && Distinct(Created(k, at))
  {
    hide HeadersFit, NumObjs, FindFrom, GoodSlab, Counted, Distinct, Created, Create, Takeable, CanTake, Threaded;
    AllocRunEffect(a, 1);
    var a' := AllocRun(a, 1).0;
    var at := page * PAGE_SIZE;
    assert at / PAGE_SIZE == page && at % PAGE_SIZE == 0 && at + PAGE_SIZE <= a.maxPages * PAGE_SIZE;
    assert at !in c.slabs;
    CreateRefines(k, c, at);
    MoreUsed(c, a, live, a');
    CreatedIsReady(c, a', live, at);
    TakeRefines(Created(k, at), Create(c, at));
    DistinctLists(Created(k, at), Create(c, at));
    assert Listed(c, at) <==> at in c.slabs;
  }

  /** All that slab_alloc relies on and achieves. */
  lemma AllocateStands(k: Machine, c: Cache, a: Alloc, live: set<nat>, kmallocOk: bool)
    requires Represents(k, c) && Inv(c, a, live) && a.maxPages * PAGE_SIZE <= |k.mem|
    ensures WellFormed(a) && Distinct(k) && CanAllocate(k, a)
    ensures var (k', a', obj) := Allocate(k, a, kmallocOk);
            var c' := AllocObj(c, a, kmallocOk).0;
            && Represents(k', c') && Inv(c', a', if obj.Some? then live + {obj.value} else live)
            && obj != Some(0) && (obj.Some? ==> obj.value !in live)
  {
    CanAllocateNow(k, c, a, live);
    hide Inv, NumObjs, Allocate, AllocObj, CanAllocate, Represents, Distinct;
    AllocateRefines(k, c, a, live, kmallocOk);
    AllocEffect(c, a, live, kmallocOk);
    NonNull(c, a, live, kmallocOk);
  }

  lemma NonNull(c: Cache, a: Alloc, live: set<nat>, kmallocOk: bool)
    requires Inv(c, a, live)
    ensures AllocObj(c, a, kmallocOk).2 != Some(0)
  {
    AllocEffect(c, a, live, kmallocOk);
    var x := AllocObj(c, a, kmallocOk).2;
    if x.Some? {
      var c' := AllocObj(c, a, kmallocOk).0;
      assert HandedOut(c', x.value);
      SlotBelongsToPage(c'.objSize, PageOf(x.value), x.value);
    }
  }

  // ----- slab_free on values -----

  /** New free list and count leave all links as they are. */
  lemma {:induction false} WalkHeader(head: SlabNode?, h: Heap, n: SlabNode, freeList: nat, numFree: int, k: nat)
    requires n in h
    ensures Walk(head, h[n := h[n].(freeList := freeList, numFree := numFree)], k) == Walk(head, h, k)
    decreases k
  {
    if k > 0 && head != null && head in h {
      WalkHeader(h[head].next, h, n, freeList, numFree, k - 1);
    }
  }

  lemma KeepsOnList(m: Machine, partial: SlabNode?, full: SlabNode?, h: Heap, slab: SlabNode, k: nat, which: nat)
    ensures forall m': Machine :: m'.partial == m.partial && m'.full == m.full ==>
              (OnList(m', partial, full, h, slab, k, which) <==> OnList(m, partial, full, h, slab, k, which))
  {
  }

  /** Where slab_free may be used: on an object in memory, or an address in neither list. */
  ghost predicate CanRelease(k: Machine, x: nat) {
    && (forall p :: p in k.full || p in k.partial ==> p % PAGE_SIZE == 0 && p in k.headers)
    && (PageOf(x) in k.full || PageOf(x) in k.partial ==> x + LINK_SIZE <= |k.mem|)
    && (forall p :: p in k.full ==> k.headers[p].numFree == 0)
  }

  lemma SlabOnFull(m: Machine, partial: SlabNode?, full: SlabNode?, empty: SlabNode?, h: Heap, k: nat)
    requires Lists(m, partial, full, empty, h) && k < |m.full|
    ensures var slab := Walk(full, h, k);
            && slab != null && slab in h && h[slab].page == m.full[k] && m.full[k] in m.headers
            && m.headers[m.full[k]] == Header(h[slab].freeList, h[slab].numFree)
            && OnList(m, partial, full, h, slab, k, 1)
  {
    WalkReaches(full, m.full, m.headers, h, k);
    HeaderAt(full, m.full, m.headers, h, k);
  }

  lemma SlabOnPartial(m: Machine, partial: SlabNode?, full: SlabNode?, empty: SlabNode?, h: Heap, k: nat)
    requires Lists(m, partial, full, empty, h) && k < |m.partial|
    ensures var slab := Walk(partial, h, k);
            && slab != null && slab in h && h[slab].page == m.partial[k] && m.partial[k] in m.headers
            && m.headers[m.partial[k]] == Header(h[slab].freeList, h[slab].numFree)
            && OnList(m, partial, full, h, slab, k, 0)
  {
    WalkReaches(partial, m.partial, m.headers, h, k);
    HeaderAt(partial, m.partial, m.headers, h, k);
  }

  lemma {:induction false} HeaderAt(head: SlabNode?, pages: seq<nat>, headers: map<nat, Header>, h: Heap, k: nat)
    requires Linked(head, pages, headers, h) && k < |pages|
    ensures var n := Walk(head, h, k);
            n != null && n in h && pages[k] in headers && headers[pages[k]] == Header(h[n].freeList, h[n].numFree)
    decreases k
  {
    if k > 0 {
      HeaderAt(h[head].next, pages[1..], headers, h, k - 1);
    }
  }

  function DropAt(pages: seq<nat>, k: nat): seq<nat>
    requires k < |pages|
  {
    pages[..k] + pages[k + 1..]
  }

  /** Memory after the k-th slab of a list is unlinked. */
  ghost function AfterUnlink(from: SlabNode?, h: Heap, k: nat): Heap {
    var prev, cur := Walk(from, h, if k == 0 then 0 else k - 1), Walk(from, h, k);
    if k == 0 || prev == null || prev !in h || cur == null || cur !in h then h
    else h[prev := h[prev].(next := h[cur].next)]
  }

  lemma UnlinkedSecond(head: SlabNode?, pages: seq<nat>, headers: map<nat, Header>, h: Heap)
    requires Linked(head, pages, headers, h) && NoDup(pages) && 1 < |pages|
    ensures Linked(head, DropAt(pages, 1), headers, AfterUnlink(head, h, 1))
  {
    var rest, less, tail := pages[1..], DropAt(pages, 1), pages[2..];
    assert less[0] == pages[0] && less[1..] == tail == rest[1..];
    assert pages == [pages[0]] + rest;
    NoDupCons(pages[0], rest);
    assert rest == [rest[0]] + tail;
    var cur := h[head].next;
    assert Linked(cur, rest, headers, h);
    assert Walk(head, h, 0) == head && Walk(head, h, 1) == Walk(cur, h, 0);
    var h' := AfterUnlink(head, h, 1);
    LinkedKept(h[cur].next, tail, headers, h, head, h'[head], headers[pages[0]]);
  }

  /** Unlinking the slab after `prev` takes its page off the list. */
  lemma {:induction false} Unlinked(head: SlabNode?, pages: seq<nat>, headers: map<nat, Header>, h: Heap, k: nat)
    requires Linked(head, pages, headers, h) && NoDup(pages) && 0 < k < |pages|
    ensures Linked(head, DropAt(pages, k), headers, AfterUnlink(head, h, k))
    decreases k
  {
    if k == 1 {
      UnlinkedSecond(head, pages, headers, h);
    } else {
      WalkReaches(head, pages, headers, h, k - 1);
      WalkReaches(head, pages, headers, h, k);
      var rest, less := pages[1..], DropAt(pages, k);
      assert pages == [pages[0]] + rest;
      NoDupCons(pages[0], rest);
      Unlinked(h[head].next, rest, headers, h, k - 1);
      assert less[0] == pages[0] && less[1..] == DropAt(rest, k - 1);
      assert pages[k - 1] == rest[k - 2];
    }
  }

  /** The k-th slab of one list becomes the head of another. */
  lemma MovedAt(from: SlabNode?, pages: seq<nat>, to: SlabNode?, others: seq<nat>, headers: map<nat, Header>, h: Heap, k: nat)
    requires Linked(from, pages, headers, h) && Linked(to, others, headers, h)
    requires k < |pages| && NoDup(pages) && forall p :: p in pages ==> p !in others
    ensures var cur, h1 := Walk(from, h, k), AfterUnlink(from, h, k);
            && cur != null && cur in h && h1.Keys == h.Keys && h1[cur] == h[cur]
            && var h2 := h1[cur := h[cur].(next := to)];
            && Linked(if k == 0 then h[cur].next else from, DropAt(pages, k), headers, h2)
            && Linked(cur, [pages[k]] + others, headers, h2)
  {
    WalkReaches(from, pages, headers, h, k);
    HeaderAt(from, pages, headers, h, k);
    var cur, h1 := Walk(from, h, k), AfterUnlink(from, h, k);
    var f := h[cur].(next := to);
    assert pages[k] in pages;
    if k == 0 {
      HeadMoved(cur, pages, to, others, headers, h);
      assert DropAt(pages, 0) == pages[1..];
    } else {
      WalkReaches(from, pages, headers, h, k - 1);
      var prev := Walk(from, h, k - 1);
      assert pages[k - 1] in pages && pages[k - 1] != pages[k];
      HeaderAt(from, pages, headers, h, k - 1);
      Unlinked(from, pages, headers, h, k);
      LinkedKept(to, others, headers, h, prev, h1[prev], headers[pages[k - 1]]);
      LinkedKept(to, others, headers, h1, cur, f, headers[pages[k]]);
      NotDropped(pages, k);
      LinkedKept(from, DropAt(pages, k), headers, h1, cur, f, headers[pages[k]]);
      assert ([pages[k]] + others)[1..] == others;
    }
  }

  lemma NotDropped(pages: seq<nat>, k: nat)
    requires NoDup(pages) && k < |pages|
    ensures pages[k] !in DropAt(pages, k)
  {
    var less := DropAt(pages, k);
    forall i | 0 <= i < |less| ensures less[i] != pages[k] {
      assert less[i] == if i < k then pages[i] else pages[i + 1];
    }
  }

  /** A list whose pages are not those of the two lists is not affected by the move. */
  lemma KeptByMove(other: SlabNode?, others: seq<nat>, from: SlabNode?, pages: seq<nat>, to: SlabNode?,
                   headers: map<nat, Header>, h: Heap, k: nat)
    requires Linked(other, others, headers, h) && Linked(from, pages, headers, h)
    requires k < |pages| && forall p :: p in pages ==> p !in others
    ensures var cur, h1 := Walk(from, h, k), AfterUnlink(from, h, k);
            && cur != null && cur in h
            && Linked(other, others, headers, h1[cur := h[cur].(next := to)])
  {
    WalkReaches(from, pages, headers, h, k);
    var cur, h1 := Walk(from, h, k), AfterUnlink(from, h, k);
    assert pages[k] in pages;
    if k > 0 {
      WalkReaches(from, pages, headers, h, k - 1);
      assert pages[k - 1] in pages;
    }
    LinkedElsewhere(other, others, headers, h, headers, h1[cur := h[cur].(next := to)]);
  }

  lemma FullToPartialLists(m: Machine, partial: SlabNode?, full: SlabNode?, empty: SlabNode?, h: Heap, k: nat)
    requires Lists(m, partial, full, empty, h) && Distinct(m) && k < |m.full|
    ensures var cur, h1 := Walk(full, h, k), AfterUnlink(full, h, k);
            && cur != null && cur in h && h1.Keys == h.Keys && h1[cur] == h[cur]
            && Lists(m.(full := DropAt(m.full, k), partial := [m.full[k]] + m.partial),
                     cur, if k == 0 then h[cur].next else full, empty, h1[cur := h[cur].(next := partial)])
    ensures k > 0 ==> Walk(full, h, k - 1) != null && Walk(full, h, k - 1) in h
  {
    MovedAt(full, m.full, partial, m.partial, m.headers, h, k);
    KeptByMove(empty, m.empty, full, m.full, partial, m.headers, h, k);
    if k > 0 {
      WalkReaches(full, m.full, m.headers, h, k - 1);
    }
  }

  lemma PartialToEmptyLists(m: Machine, partial: SlabNode?, full: SlabNode?, empty: SlabNode?, h: Heap, k: nat)
    requires Lists(m, partial, full, empty, h) && Distinct(m) && k < |m.partial|
    ensures var cur, h1 := Walk(partial, h, k), AfterUnlink(partial, h, k);
            && cur != null && cur in h && h1.Keys == h.Keys && h1[cur] == h[cur]
            && Lists(m.(partial := DropAt(m.partial, k), empty := [m.partial[k]] + m.empty),
                     if k == 0 then h[cur].next else partial, full, cur, h1[cur := h[cur].(next := empty)])
    ensures k > 0 ==> Walk(partial, h, k - 1) != null && Walk(partial, h, k - 1) in h
  {
    MovedAt(partial, m.partial, empty, m.empty, m.headers, h, k);
    KeptByMove(full, m.full, partial, m.partial, empty, m.headers, h, k);
    if k > 0 {
      WalkReaches(partial, m.partial, m.headers, h, k - 1);
    }
  }

  lemma InPage(page: nat, x: nat)
    requires page % PAGE_SIZE == 0 && page <= x < page + PAGE_SIZE
    ensures PageOf(x) == page
  {
    var q := page / PAGE_SIZE;
    assert page == q * PAGE_SIZE;
    assert x / PAGE_SIZE == q;
  }

  /** Unlinking the element at `k` is removing it. */
  lemma {:induction false} FoundAt(list: seq<nat>, k: nat)
    requires k < |list| && list[k] !in list[..k]
    ensures Without(list, list[k]) == DropAt(list, k)
  {
    if k > 0 {
      assert list[1..][..k - 1] == list[..k][1..];
      assert list[0] in list[..k];
      FoundAt(list[1..], k - 1);
    }
  }

  /** All that slab_free relies on and achieves. */
  lemma ReleaseStands(k: Machine, c: Cache, a: Alloc, live: set<nat>, x: nat)
    requires Represents(k, c) && Inv(c, a, live) && a.maxPages * PAGE_SIZE <= |k.mem|
    requires x in live || (PageOf(x) !in k.full && PageOf(x) !in k.partial)
    ensures Distinct(k) && CanRelease(k, x)
    ensures Represents(Release(k, x), GiveBack(c, x)) && Inv(GiveBack(c, x), a, live - {x})
    ensures |Release(k, x).mem| == |k.mem|
  {
    Exact(c, a, live);
    HeadersAgree(k, c);
    hide Represents, Inv, Distinct, CanRelease, ListsExact, Release, GiveBack;
    DistinctLists(k, c);
    ReleaseKeepsSize(k, x);
    ReleaseRefines(k, c, a, live, x);
    CanReleaseNow(k, c, a, live, x);
    if x in live {
      GiveBackEffect(c, a, live, x);
    } else {
      assert live - {x} == live;
    }
  }

  lemma CanReleaseNow(k: Machine, c: Cache, a: Alloc, live: set<nat>, x: nat)
    requires Represents(k, c) && Inv(c, a, live) && a.maxPages * PAGE_SIZE <= |k.mem|
    requires x in live || (PageOf(x) !in k.full && PageOf(x) !in k.partial)
    ensures CanRelease(k, x)
  {
    if x in live {
      LiveInMemory(k, c, a, live, x);
    }
    hide Chain, NumObjs, Counted;
    forall p | p in k.full || p in k.partial
      ensures p % PAGE_SIZE == 0 && p in k.headers && (p in k.full ==> k.headers[p].numFree == 0)
    {
      assert Listed(c, p);
      assert HeaderFits(k.mem, k.headers[p], c.slabs[p]);
    }
  }

  // ----- slab_shrink on values -----

  lemma FirstEmpty(m: Machine, partial: SlabNode?, full: SlabNode?, empty: SlabNode?, h: Heap)
    requires Lists(m, partial, full, empty, h) && Distinct(m) && m.empty != []
    ensures empty != null && empty in h && h[empty].page == m.empty[0] && m.empty[0] in m.headers
    ensures m.headers[m.empty[0]] == Header(h[empty].freeList, h[empty].numFree)
    ensures Lists(m.(empty := m.empty[1..], headers := m.headers - {m.empty[0]}), partial, full, h[empty].next, h - {empty})
  {
    var p, rest := m.empty[0], m.empty[1..];
    assert m.empty == [p] + rest;
    NoDupCons(p, rest);
    LinkedElsewhere(h[empty].next, rest, m.headers, h, m.headers - {p}, h - {empty});
    LinkedElsewhere(partial, m.partial, m.headers, h, m.headers - {p}, h - {empty});
    LinkedElsewhere(full, m.full, m.headers, h, m.headers - {p}, h - {empty});
  }

  lemma DropStands(k: Machine, c: Cache, a: Alloc, live: set<nat>)
    requires Represents(k, c) && Inv(c, a, live) && k.empty != []
    ensures Distinct(k) && k.empty[0] in k.headers && c.empty != [] && c.empty[0] == k.empty[0] && c.empty[0] in c.slabs
    ensures Represents(Dropped(k), Drop(c)) && Inv(Drop(c), FreeRun(a, k.empty[0] / PAGE_SIZE, 1), live)
    ensures WellFormed(FreeRun(a, k.empty[0] / PAGE_SIZE, 1))
  {
    DistinctLists(k, c);
    DropEffect(c, a, live);
    DropRefines(k, c);
    FreeRunKeeps(a, k.empty[0] / PAGE_SIZE, 1);
  }

  ghost predicate ShrinksTo(k: Machine, a: Alloc, n: nat, freed: nat, goal: (Machine, Alloc, nat))
    requires WellFormed(a)
  {
    var (r, b, f) := Shrunk(k, a, n);
    goal == (r, b, f + freed)
  }

  lemma ShrinkStarts(k: Machine, a: Alloc, n: nat)
    requires WellFormed(a)
    ensures ShrinksTo(k, a, n, 0, Shrunk(k, a, n))
  {
  }

  lemma ShrinkUnfold(k: Machine, a: Alloc, n: nat, freed: nat, goal: (Machine, Alloc, nat))
    requires WellFormed(a) && ShrinksTo(k, a, n, freed, goal)
    ensures n == 0 || k.empty == [] ==> goal == (k, a, freed)
    ensures n > 0 && k.empty != [] && k.empty[0] in k.headers ==>
              var a' := FreeRun(a, k.empty[0] / PAGE_SIZE, 1);
              WellFormed(a') && ShrinksTo(Dropped(k), a', n - 1, freed + 1, goal)
  {
    if n > 0 && k.empty != [] {
      FreeRunKeeps(a, k.empty[0] / PAGE_SIZE, 1);
    }
  }
}
