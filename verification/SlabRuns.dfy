/** Every run of a slab cache, its clients and its neighbours in physical memory (kernel/mm/slab.c). */
module SlabRuns {
  import opened Prelude
  import opened FrameAllocatorSpec
  import opened SlabLayout
  import opened SlabMemory
  import opened SlabSpec
  import opened SlabMachine

  datatype Op =
    | Get(kmallocOk: bool)
    | Put(x: nat)
    | Shrink
    | TakeFrames(count: nat)
    | GiveFrames(start: nat, count: nat)
    | ReserveFrames(start: nat, count: nat)
    | WriteObject(x: nat, addr: nat, b: Byte) // a client writing to its object
    | WriteOther(addr: nat, b: Byte)          // somebody writing to another page

  /** What the client sees. */
  datatype Event = Got(x: nat) | Gave(x: nat) | Other

  /** Memory and cache, the frames, and the objects that are out. */
  datatype System = System(k: Machine, a: Alloc, live: set<nat>)

  /** The lists in memory are free lists of a cache that is as it should be. */
  ghost predicate Stands(s: System, c: Cache) {
    && s.a.maxPages * PAGE_SIZE <= |s.k.mem|
    && Represents(s.k, c) && Inv(c, s.a, s.live)
  }

  ghost predicate Safe(s: System) {
    exists c :: Stands(s, c)
  }

  /** A new cache is safe if and only if its objects have room for a link. */
  lemma StartSafeIff(mem: Mem, objSize: nat, a: Alloc)
    requires WellFormed(a) && a.maxPages * PAGE_SIZE <= |mem| <= TWO_64
    ensures Safe(System(EmptyMachine(mem, objSize), a, {})) <==> MIN_OBJ_SIZE <= objSize
  {
    var s := System(EmptyMachine(mem, objSize), a, {});
    if MIN_OBJ_SIZE <= objSize {
      EmptyRepresents(mem, objSize);
      EmptyInv(objSize, a);
      assert Stands(s, EmptyCache(objSize));
    }
  }

  /**
   * Clients free live objects, or addresses in none of the full or partial slabs, and write to their
   * own objects; nobody frees the page of a slab or writes to it.
   */
  ghost predicate Legal(s: System, op: Op) {
    match op
    case Put(x) => x in s.live || (PageOf(x) !in s.k.full && PageOf(x) !in s.k.partial)
    case GiveFrames(p, n) => forall q :: q in s.k.headers ==> !(p <= q / PAGE_SIZE < p + n)
    case WriteObject(x, addr, _) => x in s.live && InObject(s.k.objSize, x, addr) && addr < |s.k.mem|
    case WriteOther(addr, _) => PageOf(addr) !in s.k.headers && addr < |s.k.mem|
    case _ => true
  }

  lemma SafeFrames(s: System)
    requires Safe(s)
    ensures WellFormed(s.a) && s.a.maxPages * PAGE_SIZE <= |s.k.mem|
  {
  }

  ghost function Step(s: System, op: Op): (System, Event)
    requires Safe(s)
  {
    SafeFrames(s);
    if !Legal(s, op) then (s, Other) else
      match op
      case Get(kmallocOk) =>
        var (k, a, obj) := Allocate(s.k, s.a, kmallocOk);
        (match obj
         case None => (System(k, a, s.live), Other)
         case Some(x) => (System(k, a, s.live + {x}), Got(x)))
      case Put(x) => (System(Release(s.k, x), s.a, s.live - {x}), if x in s.live then Gave(x) else Other)
      case Shrink =>
        var (k, a, _) := Shrunk(s.k, s.a, 4);
        (System(k, a, s.live), Other)
      case TakeFrames(n) => (s.(a := AllocRun(s.a, n).0), Other)
      case GiveFrames(p, n) => (s.(a := FreeRun(s.a, p, n)), Other)
      case ReserveFrames(p, n) => (s.(a := ReserveRun(s.a, p, n)), Other)
      case WriteObject(_, addr, b) => (s.(k := s.k.(mem := s.k.mem[addr := b])), Other)
      case WriteOther(addr, b) => (s.(k := s.k.(mem := s.k.mem[addr := b])), Other)
  }

  // ----- Every step is safe -----

  ghost predicate Follows(s: System, s': System, e: Event) {
    && Safe(s') && (e.Got? ==> e.x !in s.live) && (e.Gave? ==> e.x in s.live)
    && s'.live == (if e.Got? then s.live + {e.x} else if e.Gave? then s.live - {e.x} else s.live)
    && |s'.k.mem| == |s.k.mem| && s'.k.objSize == s.k.objSize
  }

  lemma GetSafe(s: System, c: Cache, kmallocOk: bool)
    requires Stands(s, c)
    ensures WellFormed(s.a)
    ensures Follows(s, Step(s, Get(kmallocOk)).0, Step(s, Get(kmallocOk)).1)
  {
    hide Inv, Represents, AllocObj, Allocate, Slack;
    SafeFrames(s);
    AllocateRefines(s.k, c, s.a, s.live, kmallocOk);
    AllocEffect(c, s.a, s.live, kmallocOk);
    AllocateKeepsSize(s.k, s.a, kmallocOk);
    assert Stands(Step(s, Get(kmallocOk)).0, AllocObj(c, s.a, kmallocOk).0);
  }

  lemma AllocateKeepsSize(k: Machine, a: Alloc, kmallocOk: bool)
    requires WellFormed(a) && a.maxPages * PAGE_SIZE <= |k.mem|
    ensures var k' := Allocate(k, a, kmallocOk).0; |k'.mem| == |k.mem| && k'.objSize == k.objSize
  {
    hide Threaded, LoadWord, NumObjs;
    AllocRunEffect(a, 1);
  }

  lemma PutSafe(s: System, c: Cache, x: nat)
    requires Stands(s, c) && Legal(s, Put(x))
    ensures Follows(s, Step(s, Put(x)).0, Step(s, Put(x)).1)
  {
    hide Inv, Represents, GiveBack, Release;
    HeadersAreSlabs(s.k, c);
    ReleaseRefines(s.k, c, s.a, s.live, x);
    ReleaseKeepsSize(s.k, x);
    PutEffect(c, s.a, s.live, x);
    assert Stands(Step(s, Put(x)).0, GiveBack(c, x));
  }

  lemma PutEffect(c: Cache, a: Alloc, live: set<nat>, x: nat)
    requires Inv(c, a, live) && (x in live || (PageOf(x) !in c.full && PageOf(x) !in c.partial))
    ensures Inv(GiveBack(c, x), a, live - {x})
  {
    if x in live {
      GiveBackEffect(c, a, live, x);
    } else {
      hide Inv, Push, NumObjs;
      assert live - {x} == live;
    }
  }

  lemma ShrinkSafe(s: System, c: Cache)
    requires Stands(s, c)
    ensures Follows(s, Step(s, Shrink).0, Other)
  {
    hide Inv, Represents, SlabSpec.Shrink, Shrunk, Slack;
    SafeFrames(s);
    ShrinkRefines(s.k, c, s.a, s.live, 4);
    ShrinkEffect(c, s.a, s.live, 4);
    ShrunkKeepsSize(s.k, s.a, 4);
    assert Stands(Step(s, Shrink).0, SlabSpec.Shrink(c, s.a, 4).0);
  }

  lemma {:induction false} ShrunkKeepsSize(k: Machine, a: Alloc, n: nat)
    requires WellFormed(a)
    ensures Shrunk(k, a, n).0.mem == k.mem && Shrunk(k, a, n).0.objSize == k.objSize
    decreases n
  {
    if n != 0 && k.empty != [] && k.empty[0] in k.headers {
      FreeRunKeeps(a, k.empty[0] / PAGE_SIZE, 1);
      ShrunkKeepsSize(Dropped(k), FreeRun(a, k.empty[0] / PAGE_SIZE, 1), n - 1);
    }
  }

  lemma GiveFramesKeeps(c: Cache, a: Alloc, live: set<nat>, p: nat, n: nat)
    requires Inv(c, a, live) && forall q :: q in c.slabs ==> !(p <= q / PAGE_SIZE < p + n)
    ensures Inv(c, FreeRun(a, p, n), live)
  {
    FreeRunBits(a, p, n);
    FreeRunKeeps(a, p, n);
  }

  lemma UseFramesKeeps(c: Cache, a: Alloc, live: set<nat>, p: nat, n: nat)
    requires Inv(c, a, live)
    ensures WellFormed(a)
    ensures Inv(c, AllocRun(a, n).0, live) && AllocRun(a, n).0.maxPages == a.maxPages
    ensures Inv(c, ReserveRun(a, p, n), live)
  {
    AllocRunEffect(a, n);
    MoreUsed(c, a, live, AllocRun(a, n).0);
    ReserveRunBits(a, p, n);
    ReserveRunKeeps(a, p, n);
    MoreUsed(c, a, live, ReserveRun(a, p, n));
  }

  lemma FramesSafe(s: System, c: Cache, op: Op)
    requires Stands(s, c) && Legal(s, op) && (op.TakeFrames? || op.GiveFrames? || op.ReserveFrames?)
    ensures Follows(s, Step(s, op).0, Other)
  {
    HeadersAreSlabs(s.k, c);
    hide Inv, Represents, AllocRun, FreeRun, ReserveRun;
    match op {
      case TakeFrames(n) => UseFramesKeeps(c, s.a, s.live, 0, n);
      case GiveFrames(p, n) => GiveFramesKeeps(c, s.a, s.live, p, n);
      case ReserveFrames(p, n) => UseFramesKeeps(c, s.a, s.live, p, n);
    }
    assert Stands(Step(s, op).0, c);
  }

  lemma HeadersAreSlabs(k: Machine, c: Cache)
    requires Represents(k, c)
    ensures k.objSize == c.objSize && k.full == c.full && k.partial == c.partial
    ensures forall q :: q in k.headers <==> q in c.slabs
  {
  }

  lemma WriteSafe(s: System, c: Cache, op: Op)
    requires Stands(s, c) && Legal(s, op) && (op.WriteObject? || op.WriteOther?)
    ensures Follows(s, Step(s, op).0, Other)
  {
    hide Inv, Represents;
    HeadersAreSlabs(s.k, c);
    if op.WriteObject? {
      ClientWriteRefines(s.k, c, s.a, s.live, op.x, op.addr, op.b);
    } else {
      OtherWriteRefines(s.k, c, s.a, s.live, op.addr, op.b);
    }
    assert Stands(Step(s, op).0, c);
  }

  lemma StepSafe(s: System, op: Op)
    requires Safe(s)
    ensures Follows(s, Step(s, op).0, Step(s, op).1)
  {
    var c :| Stands(s, c);
    hide Stands, Follows;
    if !Legal(s, op) {
      StaysPut(s);
    } else {
      match op
      case Get(kmallocOk) => GetSafe(s, c, kmallocOk);
      case Put(x) => PutSafe(s, c, x);
      case Shrink => ShrinkSafe(s, c);
      case TakeFrames(_) => FramesSafe(s, c, op);
      case GiveFrames(_, _) => FramesSafe(s, c, op);
      case ReserveFrames(_, _) => FramesSafe(s, c, op);
      case WriteObject(_, _, _) => WriteSafe(s, c, op);
      case WriteOther(_, _) => WriteSafe(s, c, op);
    }
  }

  lemma StaysPut(s: System)
    requires Safe(s)
    ensures Follows(s, s, Other)
  {
  }

  // ----- Runs -----

  ghost function Exec(s: System, ops: seq<Op>): (System, seq<Event>)
    requires Safe(s)
    decreases |ops|
  {
    if ops == [] then (s, [])
    else
      StepSafe(s, ops[0]);
      var (s1, e) := Step(s, ops[0]);
      var (s2, es) := Exec(s1, ops[1..]);
      (s2, [e] + es)
  }

  /** In memory, the list from this header visits exactly the slots of its page that are not out, once each. */
  ghost predicate ListInMemory(s: System, p: nat) {
    p in s.k.headers ==> exists free: seq<nat> ::
      && Chain(s.k.mem, s.k.headers[p].head, free) && NoDup(free) && s.k.headers[p].numFree == |free|
      && forall y :: y in free <==> y in Slots(s.k.objSize, p) && y !in s.live
  }

  /** The slab is on exactly one list, the one its number of free objects calls for. */
  ghost predicate WellListed(k: Machine, p: nat) {
    p in k.headers ==>
      var n := k.headers[p].numFree;
      && (if p in k.full then p !in k.partial && p !in k.empty && n == 0
          else if p in k.partial then p !in k.empty && 1 <= n
          else p in k.empty && n == NumObjs(k.objSize))
  }

  lemma ListMeans(s: System, c: Cache, p: nat)
    requires Stands(s, c)
    ensures ListInMemory(s, p)
  {
    if p in c.slabs {
      hide Chain, NumObjs;
      var free := c.slabs[p].free;
      assert HeaderFits(s.k.mem, s.k.headers[p], c.slabs[p]);
      forall y ensures y in free <==> y in Slots(s.k.objSize, p) && y !in s.live {
        assert y in s.live <==> HandedOut(c, y);
        if y in free {
          assert y in ToSet(free);
        }
        if y in Slots(s.k.objSize, p) {
          SlotBelongsToPage(s.k.objSize, p, y);
        }
      }
    }
  }

  lemma ListingMeans(s: System, c: Cache, p: nat)
    requires Stands(s, c)
    ensures WellListed(s.k, p)
  {
    hide Chain, NumObjs, GoodSlab, PageUsed, Counted, HandedOut;
    if p in c.slabs {
      assert HeaderFits(s.k.mem, s.k.headers[p], c.slabs[p]) && Listed(c, p);
    }
  }

  lemma SafeMeans(s: System, p: nat)
    requires Safe(s)
    ensures ListInMemory(s, p) && WellListed(s.k, p)
    ensures s.k.total - s.k.freeCount == s.k.allocs - s.k.frees == |s.live| && 0 <= s.k.freeCount <= s.k.total
  {
    var c :| Stands(s, c);
    ListMeans(s, c, p);
    ListingMeans(s, c, p);
    hide ListInMemory, WellListed;
    CountersNonNegative(c, s.a, s.live);
  }

  /**
   * Every reachable state is safe: each slab is on exactly one list, the list its free count calls
   * for; in memory, its free list visits exactly its slots that are not out, once each, and ends;
   * and the counters agree with the number of objects that are out.
   */
  lemma {:induction false} ExecSafe(s: System, ops: seq<Op>)
    requires Safe(s)
    ensures var (t, es) := Exec(s, ops);
            && Safe(t) && |es| == |ops|
            && (forall p :: ListInMemory(t, p) && WellListed(t.k, p))
            && t.k.total - t.k.freeCount == t.k.allocs - t.k.frees == |t.live|
            && 0 <= t.k.freeCount <= t.k.total
    decreases |ops|
  {
    hide Step;
    if ops != [] {
      StepSafe(s, ops[0]);
      ExecSafe(Step(s, ops[0]).0, ops[1..]);
    } else {
      hide ListInMemory, WellListed, Safe;
      forall p ensures ListInMemory(s, p) && WellListed(s.k, p) {
        SafeMeans(s, p);
      }
      SafeMeans(s, 0);
    }
  }

  // ----- The counters count -----

  function Gots(es: seq<Event>): nat {
    if es == [] then 0 else (if es[0].Got? then 1 else 0) + Gots(es[1..])
  }

  function Gaves(es: seq<Event>): nat {
    if es == [] then 0 else (if es[0].Gave? then 1 else 0) + Gaves(es[1..])
  }

  /** The counters of allocations and frees move with what the client sees. */
  ghost predicate CountsEvent(k: Machine, k': Machine, e: Event) {
    && k'.allocs == k.allocs + (if e.Got? then 1 else 0)
    && k'.frees == k.frees + (if e.Gave? then 1 else 0)
  }

  lemma GetCounts(s: System, kmallocOk: bool)
    requires Safe(s)
    ensures CountsEvent(s.k, Step(s, Get(kmallocOk)).0.k, Step(s, Get(kmallocOk)).1)
  {
    hide Threaded, LoadWord, NumObjs, Stands;
    SafeFrames(s);
    AllocRunEffect(s.a, 1);
  }

  lemma SameCounters(k: Machine, c: Cache)
    requires Represents(k, c)
    ensures k.allocs == c.allocs && k.frees == c.frees
  {
  }

  lemma GiveBackCounted(c: Cache, a: Alloc, live: set<nat>, x: nat)
    requires Inv(c, a, live) && x in live
    ensures GiveBack(c, x).frees == c.frees + 1 && GiveBack(c, x).allocs == c.allocs
  {
    LiveSlab(c, a, live, x);
    hide NumObjs, Inv;
  }

  lemma PutCounts(s: System, c: Cache, x: nat)
    requires Stands(s, c) && Legal(s, Put(x))
    ensures CountsEvent(s.k, Step(s, Put(x)).0.k, Step(s, Put(x)).1)
  {
    hide Inv, Represents, GiveBack, Release;
    if x in s.live {
      GiveBackCounted(c, s.a, s.live, x);
      HeadersAreSlabs(s.k, c);
      ReleaseRefines(s.k, c, s.a, s.live, x);
      SameCounters(s.k, c);
      SameCounters(Release(s.k, x), GiveBack(c, x));
    } else {
      NotReleased(s.k, x);
    }
  }

  lemma StepCounts(s: System, op: Op)
    requires Safe(s)
    ensures CountsEvent(s.k, Step(s, op).0.k, Step(s, op).1)
  {
    hide Stands, Allocate, Release, Shrunk, AllocRun, FreeRun, ReserveRun;
    var c :| Stands(s, c);
    if Legal(s, op) {
      match op
      case Get(kmallocOk) => GetCounts(s, kmallocOk);
      case Put(x) => PutCounts(s, c, x);
      case Shrink =>
        SafeFrames(s);
        ShrunkKeepsCounters(s.k, s.a, 4);
      case _ =>
    }
  }

  lemma {:induction false} ShrunkKeepsCounters(k: Machine, a: Alloc, n: nat)
    requires WellFormed(a)
    ensures Shrunk(k, a, n).0.allocs == k.allocs && Shrunk(k, a, n).0.frees == k.frees
    decreases n
  {
    if n != 0 && k.empty != [] && k.empty[0] in k.headers {
      FreeRunKeeps(a, k.empty[0] / PAGE_SIZE, 1);
      ShrunkKeepsCounters(Dropped(k), FreeRun(a, k.empty[0] / PAGE_SIZE, 1), n - 1);
    }
  }

  /** Over every run num_objs_alloc and num_frees grow by the objects handed out and given back. */
  lemma {:induction false} CountersCount(s: System, ops: seq<Op>)
    requires Safe(s)
    ensures var (t, es) := Exec(s, ops);
            t.k.allocs == s.k.allocs + Gots(es) && t.k.frees == s.k.frees + Gaves(es)
    decreases |ops|
  {
    hide Step, Safe;
    if ops != [] {
      StepSafe(s, ops[0]);
      StepCounts(s, ops[0]);
      var (s1, e) := Step(s, ops[0]);
      CountersCount(s1, ops[1..]);
      var es := Exec(s1, ops[1..]).1;
      assert ([e] + es)[1..] == es;
    }
  }

  /** An object that is out is not handed out again until it is given back. */
  lemma {:induction false} StaysOut(s: System, ops: seq<Op>, x: nat, j: nat)
    requires Safe(s) && x in s.live && j < |Exec(s, ops).1| && Exec(s, ops).1[j] == Got(x)
    ensures exists k :: 0 <= k < j && Exec(s, ops).1[k] == Gave(x)
    decreases |ops|
  {
    hide Safe, Step;
    if ops != [] {
      StepSafe(s, ops[0]);
      var (s1, e) := Step(s, ops[0]);
      var es := Exec(s1, ops[1..]).1;
      assert Exec(s, ops).1 == [e] + es;
      if e == Gave(x) {
        assert Exec(s, ops).1[0] == Gave(x);
      } else {
        StaysOut(s1, ops[1..], x, j - 1);
        var k :| 0 <= k < j - 1 && es[k] == Gave(x);
        assert Exec(s, ops).1[k + 1] == Gave(x);
      }
    }
  }

  /** No object is handed out twice without being given back in between. */
  lemma {:induction false} NoDoubleHandout(s: System, ops: seq<Op>, i: nat, j: nat, x: nat)
    requires Safe(s) && i < j < |Exec(s, ops).1| && Exec(s, ops).1[i] == Exec(s, ops).1[j] == Got(x)
    ensures exists k :: i < k < j && Exec(s, ops).1[k] == Gave(x)
    decreases |ops|
  {
    hide Safe, Step;
    if ops != [] {
      StepSafe(s, ops[0]);
      var (s1, e) := Step(s, ops[0]);
      var es := Exec(s1, ops[1..]).1;
      assert Exec(s, ops).1 == [e] + es;
      if i == 0 {
        StaysOut(s1, ops[1..], x, j - 1);
        var k :| 0 <= k < j - 1 && es[k] == Gave(x);
        assert Exec(s, ops).1[k + 1] == Gave(x);
      } else {
        NoDoubleHandout(s1, ops[1..], i - 1, j - 1, x);
        var k :| i - 1 < k < j - 1 && es[k] == Gave(x);
        assert Exec(s, ops).1[k + 1] == Gave(x);
      }
    }
  }

  // ----- The contents of objects -----

  /** The operation neither frees the object at `x` nor writes the byte at `addr`. */
  predicate Leaves(op: Op, x: nat, addr: nat) {
    op != Put(x) && !(op.WriteObject? && op.addr == addr) && !(op.WriteOther? && op.addr == addr)
  }

  lemma StepKeepsByte(s: System, op: Op, x: nat, addr: nat)
    requires Safe(s) && x in s.live && InObject(s.k.objSize, x, addr) && addr < |s.k.mem| && Leaves(op, x, addr)
    ensures var s' := Step(s, op).0; x in s'.live && addr < |s'.k.mem| && s'.k.mem[addr] == s.k.mem[addr]
  {
    hide Inv, Represents, NumObjs, Allocate, Release, Shrunk;
    SafeFrames(s);
    var c :| Stands(s, c);
    HeadersAreSlabs(s.k, c);
    if Legal(s, op) {
      match op {
        case Get(kmallocOk) =>
          AllocateKeepsObjects(s.k, c, s.a, s.live, kmallocOk, addr);
        case Put(y) =>
          if y in s.live {
            assert x in s.live - {y};
            ReleaseKeepsObjects(s.k, c, s.a, s.live, y, addr);
          } else {
            NotReleased(s.k, y);
          }
        case Shrink => ShrunkKeepsSize(s.k, s.a, 4);
        case _ =>
      }
    }
  }

  lemma NotReleased(k: Machine, x: nat)
    requires PageOf(x) !in k.full && PageOf(x) !in k.partial
    ensures Release(k, x) == k
  {
  }

  /** Only its client changes an object: while it is out, a byte nobody writes keeps its value. */
  lemma {:induction false} ObjectsKeepContents(s: System, ops: seq<Op>, x: nat, addr: nat)
    requires Safe(s) && x in s.live && InObject(s.k.objSize, x, addr) && addr < |s.k.mem|
    requires forall i :: 0 <= i < |ops| ==> Leaves(ops[i], x, addr)
    ensures var t := Exec(s, ops).0; x in t.live && addr < |t.k.mem| && t.k.mem[addr] == s.k.mem[addr]
    decreases |ops|
  {
    hide Safe, Step, Leaves;
    if ops != [] {
      StepSafe(s, ops[0]);
      StepKeepsByte(s, ops[0], x, addr);
      ObjectsKeepContents(Step(s, ops[0]).0, ops[1..], x, addr);
    }
  }
}
