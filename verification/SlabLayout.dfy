/** How a slab lays out its page (kernel/mm/slab.c): room for a header, then equal slots. */
module SlabLayout {
  import opened Prelude

  /** sizeof(slab_t) and sizeof(slab_obj_t *) on x86_64. */
  const SLAB_HEADER: nat := 48
  const LINK_SIZE: nat := 8
  const MIN_OBJ_SIZE: nat := 8

  // ----- Layout -----

  /** calc_num_objs with 4096-byte pages. */
  function NumObjs(objSize: nat): (n: nat)
    ensures 0 < n
  {
    var n := (PAGE_SIZE - SLAB_HEADER) / (objSize + LINK_SIZE);
    if n > 0 then n else 1
  }

  function SlotAddr(objSize: nat, page: nat, i: nat): nat {
    page + SLAB_HEADER + i * objSize
  }

  lemma NumObjsFits(objSize: nat)
    ensures NumObjs(objSize) > 1 ==> NumObjs(objSize) * objSize <= PAGE_SIZE - SLAB_HEADER - LINK_SIZE * NumObjs(objSize)
  {
    var d := objSize + LINK_SIZE;
    var n := (PAGE_SIZE - SLAB_HEADER) / d;
    assert n * d <= PAGE_SIZE - SLAB_HEADER;
    assert n * d == n * objSize + n * LINK_SIZE;
  }

  /** The slab is as full as it can be: one more object with its link word would not fit behind the header. */
  lemma NumObjsIsMost(objSize: nat)
    ensures (NumObjs(objSize) + 1) * (objSize + 8) > 4096 - 48
    ensures NumObjs(objSize) * (objSize + 8) <= 4096 - 48 || NumObjs(objSize) == 1
  {
    var d := objSize + LINK_SIZE;
    var n := (PAGE_SIZE - SLAB_HEADER) / d;
    assert PAGE_SIZE - SLAB_HEADER == n * d + (PAGE_SIZE - SLAB_HEADER) % d;
    assert (n + 1) * d == n * d + d;
    assert n == 0 ==> d > PAGE_SIZE - SLAB_HEADER && 2 * d > d;
  }

  lemma Ordered(i: nat, j: nat, d: nat)
    requires i < j
    ensures i * d + d <= j * d
  {
    assert (j - i - 1) * d >= 0;
    assert (j - i - 1) * d == j * d - i * d - d;
  }

  /** Every slot starts inside its page; slots do not overlap. */
  lemma SlotsApart(objSize: nat, page: nat, i: nat, j: nat)
    requires i < j < NumObjs(objSize)
    ensures SlotAddr(objSize, page, i) + objSize <= SlotAddr(objSize, page, j)
  {
    Ordered(i, j, objSize);
  }

  lemma SlotStartsInPage(objSize: nat, page: nat, i: nat)
    requires i < NumObjs(objSize)
    ensures page < SlotAddr(objSize, page, i) < page + PAGE_SIZE
    ensures NumObjs(objSize) > 1 ==> SlotAddr(objSize, page, i) + objSize < page + PAGE_SIZE
  {
    NumObjsFits(objSize);
    if i > 0 {
      Ordered(i, NumObjs(objSize), objSize);
    } else {
      Ordered(0, NumObjs(objSize), objSize);
    }
  }

  /** All slots lie inside the page if and only if the object fits behind the header. */
  lemma SlotsFitThePage(objSize: nat, page: nat)
    ensures (forall i: nat :: i < NumObjs(objSize) ==> SlotAddr(objSize, page, i) + objSize <= page + PAGE_SIZE)
            <==> objSize <= 4048
  {
    if objSize <= PAGE_SIZE - SLAB_HEADER {
      forall i: nat | i < NumObjs(objSize) ensures SlotAddr(objSize, page, i) + objSize <= page + PAGE_SIZE {
        SlotStartsInPage(objSize, page, i);
      }
    } else {
      assert SlotAddr(objSize, page, 0) + objSize > page + PAGE_SIZE;
    }
  }

  /** The next-pointers at the start of the slots do not overlap exactly when objects have at least 8 bytes. */
  lemma LinksApart(objSize: nat, page: nat)
    ensures (forall i: nat, j: nat :: i < j < NumObjs(objSize) ==>
               SlotAddr(objSize, page, i) + LINK_SIZE <= SlotAddr(objSize, page, j))
            <==> MIN_OBJ_SIZE <= objSize || NumObjs(objSize) == 1
  {
    if MIN_OBJ_SIZE <= objSize {
      forall i: nat, j: nat | i < j < NumObjs(objSize)
        ensures SlotAddr(objSize, page, i) + LINK_SIZE <= SlotAddr(objSize, page, j)
      {
        SlotsApart(objSize, page, i, j);
      }
    } else if NumObjs(objSize) > 1 {
      assert SlotAddr(objSize, page, 1) == SlotAddr(objSize, page, 0) + objSize;
    }
  }

  function Slots(objSize: nat, page: nat): set<nat> {
    set i | 0 <= i < NumObjs(objSize) :: SlotAddr(objSize, page, i)
  }

  function PageOf(a: nat): nat {
    a - a % PAGE_SIZE
  }

  lemma SlotBelongsToPage(objSize: nat, page: nat, a: nat)
    requires page % PAGE_SIZE == 0 && a in Slots(objSize, page)
    ensures PageOf(a) == page && 0 < a
  {
    var i :| 0 <= i < NumObjs(objSize) && a == SlotAddr(objSize, page, i);
    SlotStartsInPage(objSize, page, i);
  }

  /** The first n slots, in order: what the loop of slab_create links together. */
  function SlotList(objSize: nat, page: nat, n: nat): seq<nat> {
    seq(n, i requires 0 <= i => SlotAddr(objSize, page, i))
  }

  ghost predicate NoDup<T>(s: seq<T>) {
    forall i, j :: 0 <= i < j < |s| ==> s[i] != s[j]
  }

  function ToSet<T>(s: seq<T>): set<T> {
    set x | x in s
  }

  lemma {:induction false} NoDupSize<T>(s: seq<T>)
    requires NoDup(s)
    ensures |ToSet(s)| == |s|
  {
    if s != [] {
      NoDupSize(s[1..]);
      assert ToSet(s) == ToSet(s[1..]) + {s[0]};
    }
  }

  lemma {:induction false} SubsetSize<T>(a: set<T>, b: set<T>)
    requires a <= b
    ensures |a| <= |b| && (|a| == |b| ==> a == b)
  {
    if a != {} {
      var x :| x in a;
      SubsetSize(a - {x}, b - {x});
    }
  }

  lemma SlotListIsSlots(objSize: nat, page: nat)
    requires 0 < objSize
    ensures var l := SlotList(objSize, page, NumObjs(objSize));
            NoDup(l) && ToSet(l) == Slots(objSize, page) && |Slots(objSize, page)| == NumObjs(objSize)
  {
    var l := SlotList(objSize, page, NumObjs(objSize));
    forall i, j | 0 <= i < j < |l| ensures l[i] != l[j] {
      SlotsApart(objSize, page, i, j);
    }
    forall a ensures a in ToSet(l) <==> a in Slots(objSize, page) {
      if a in l {
        var i :| 0 <= i < |l| && l[i] == a;
      }
      if a in Slots(objSize, page) {
        var i :| 0 <= i < NumObjs(objSize) && a == SlotAddr(objSize, page, i);
        assert l[i] == a;
      }
    }
    NoDupSize(l);
  }

  /** A free list of distinct slots is never longer than the slab, and at full length has all of them. */
  lemma FreeListBound(objSize: nat, page: nat, free: seq<nat>)
    requires 0 < objSize && NoDup(free) && ToSet(free) <= Slots(objSize, page)
    ensures |free| <= NumObjs(objSize)
    ensures |free| == NumObjs(objSize) ==> ToSet(free) == Slots(objSize, page)
  {
    NoDupSize(free);
    SlotListIsSlots(objSize, page);
    SubsetSize(ToSet(free), Slots(objSize, page));
  }
}
