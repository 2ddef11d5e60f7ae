/** The frame bitmap as the kernel keeps it: 32-bit words updated in place (kernel/mm/memory.c). */
module FrameBitmap {
  import opened Prelude
  import opened FrameAllocatorSpec
  import opened Bits

  /** The bitmap words; `bits` is the same bitmap, one boolean per frame. */
  class Bitmap {
    const words: array<nat>
    ghost var bits: seq<bool>

    ghost predicate Valid()
      reads this, words
    {
      && |bits| == 32 * words.Length
      && forall w, b :: 0 <= w < words.Length && 0 <= b < 32 ==> TestBit(words[w], b) == bits[32 * w + b]
    }

    /** All frames used: memset(bitmap, 0xFF, bitmap_size). */
    constructor (n: nat)
      ensures Valid() && fresh(words) && |bits| == 32 * n
      ensures forall i :: 0 <= i < |bits| ==> bits[i]
    {
      words := new nat[n](_ => Ones(32));
      bits := seq(32 * n, _ => true);
      new;
      forall b | 0 <= b < 32 ensures TestBit(Ones(32), b) {
        TestOnes(32, b);
      }
    }

    /** BITMAP_SET */
    method Set(i: nat)
      requires Valid() && i < |bits|
      modifies this, words
      ensures Valid() && bits == old(bits)[i := true]
    {
      forall b | 0 <= b < 32
        ensures TestBit(SetBit(words[i / 32], i % 32), b) == (b == i % 32 || TestBit(words[i / 32], b))
      {
        TestAfterSet(words[i / 32], i % 32, b);
      }
      words[i / 32] := SetBit(words[i / 32], i % 32);
      bits := bits[i := true];
    }

    /** BITMAP_CLR */
    method Clear(i: nat)
      requires Valid() && i < |bits|
      modifies this, words
      ensures Valid() && bits == old(bits)[i := false]
    {
      forall b | 0 <= b < 32
        ensures TestBit(ClearBit(words[i / 32], i % 32), b) == (b != i % 32 && TestBit(words[i / 32], b))
      {
        TestAfterClear(words[i / 32], i % 32, b);
      }
      words[i / 32] := ClearBit(words[i / 32], i % 32);
      bits := bits[i := false];
    }

    /** BITMAP_TEST */
    method Test(i: nat) returns (used: bool)
      requires Valid() && i < |bits|
      ensures used == bits[i]
    {
      used := TestBit(words[i / 32], i % 32);
    }
  }

  function BytesToPages(bytes: nat): nat {
    (bytes + PAGE_SIZE - 1) / PAGE_SIZE
  }

  // ----- The boot memory map -----

  const E820_TYPE_FREE: nat := 1

  /** The bitmap lies at physical address 0x200000. */
  const BITMAP_ADDR: nat := 0x200000

  datatype E820Entry = E820Entry(base: nat, length: nat, kind: nat) {
    predicate Covers(p: nat) {
      kind == E820_TYPE_FREE && BytesToPages(base) <= p < BytesToPages(base) + BytesToPages(length)
    }
  }

  function TotalFree(entries: seq<E820Entry>): nat {
    if entries == [] then 0
    else TotalFree(entries[..|entries| - 1]) +
         var last := entries[|entries| - 1]; if last.kind == E820_TYPE_FREE then last.length else 0
  }

  function BitmapPages(maxPages: nat): nat {
    BytesToPages((maxPages + 7) / 8)
  }

  /** The frames that start out free: managed, inside a free region, not under the bitmap. */
  ghost predicate StartsFree(entries: seq<E820Entry>, maxPages: nat, p: nat) {
    && p < maxPages
    && !(BytesToPages(BITMAP_ADDR) <= p < BytesToPages(BITMAP_ADDR) + BitmapPages(maxPages))
    && exists k :: 0 <= k < |entries| && entries[k].Covers(p)
  }

  /** memory_detect_e820: the map the kernel assumes for QEMU. */
  const QEMU_MAP: seq<E820Entry> := [
    E820Entry(0, 0x9F000, 1), E820Entry(0x9F000, 0x61000, 2),
    E820Entry(0x100000, 0x0FF00000, 1), E820Entry(0x1_0000_0000, 0x1000_0000, 1)]

  /** The bitmap has room for all frames, and for more unless they fill it. */
  lemma BitmapSize(maxPages: nat)
    ensures BitmapPages(maxPages) * PAGE_SIZE / 4 * 32 == 32768 * BitmapPages(maxPages)
    ensures maxPages <= 32768 * BitmapPages(maxPages)
    ensures maxPages < 32768 * BitmapPages(maxPages) <==> maxPages % 32768 != 0
  {
  }

  /** With that map the bitmap has guard bits: 97 of them. */
  lemma QemuMapHasGuards()
    ensures var m := BytesToPages(TotalFree(QEMU_MAP)); m == 130975 && 32768 * BitmapPages(m) - m == 97
  {
    var s := QEMU_MAP;
    assert s[..3][..2][..1] == [s[0]] && s[..3][..2] == [s[0], s[1]] && s[..3] == [s[0], s[1], s[2]];
    assert [s[0]][..0] == [];
    assert TotalFree([s[0]]) == 0x9F000;
    assert TotalFree([s[0], s[1]]) == 0x9F000;
    assert TotalFree([s[0], s[1], s[2]]) == 0x9F000 + 0x0FF00000;
  }

  /** bytes_to_pages is the least number of pages with room for that many bytes. */
  lemma BytesToPagesIsLeast(bytes: nat, pages: nat)
    ensures bytes <= pages * PAGE_SIZE <==> BytesToPages(bytes) <= pages
  {
  }

  /**
   * With that map exactly these frames start out free: below 0x9F000, and from 1 MB to 256 MB but for the four
   * frames of the bitmap. The region at 4 GB lies past the managed frames, although it is counted in.
   */
  lemma QemuMapFrees(p: nat)
    ensures StartsFree(QEMU_MAP, 130975, p) <==> p < 0x9F || (0x100 <= p < 0x1_0000 && !(0x200 <= p < 0x204))
  {
    var s := QEMU_MAP;
    assert BitmapPages(130975) == 4;
    assert s[0].Covers(p) <==> p < 0x9F;
    assert !s[1].Covers(p);
    assert s[2].Covers(p) <==> 0x100 <= p < 0x1_0000;
    assert s[3].Covers(p) ==> 130975 <= p;
  }

  class FrameAllocator {
    const bitmap: Bitmap
    const maxPages: nat
    var freePages: nat

    ghost function State(): Alloc
      reads this, bitmap
    {
      Alloc(bitmap.bits, maxPages, freePages)
    }

    ghost predicate Valid()
      reads this, bitmap, bitmap.words
    {
      bitmap.Valid() && WellFormed(State()) && 0 <= Slack(State())
    }

    /** memory_manager_init over any boot map. */
    constructor (entries: seq<E820Entry>)
      ensures Valid() && fresh(bitmap) && fresh(bitmap.words)
      ensures maxPages == BytesToPages(TotalFree(entries)) == freePages
      ensures forall p :: 0 <= p < |bitmap.bits| ==> (!bitmap.bits[p] <==> StartsFree(entries, maxPages, p))
      ensures HasGuard(State()) <==> maxPages % 32768 != 0
    {
      var total := 0;
      for i := 0 to |entries|
        invariant total == TotalFree(entries[..i])
      {
        assert entries[..i + 1][..i] == entries[..i];
        if entries[i].kind == E820_TYPE_FREE {
          total := total + entries[i].length;
        }
      }
      assert entries[..|entries|] == entries;
      var max := BytesToPages(total);
      BitmapSize(max);
      hide BitmapPages, StartsFree, TestBit;
      maxPages := max;
      bitmap := new Bitmap(BitmapPages(max) * PAGE_SIZE / 4);
      freePages := max;
      new;
      var i := 0;
      while i < |entries|
        invariant 0 <= i <= |entries|
        invariant bitmap.Valid() && |bitmap.bits| == 32768 * BitmapPages(maxPages) && freePages == maxPages
        invariant fresh(bitmap) && fresh(bitmap.words)
        invariant Released(entries[..i])
      {
        hide Released;
        ReleaseEntry(entries[..i], entries[i]);
        assert entries[..i + 1] == entries[..i] + [entries[i]];
        i := i + 1;
      }
      assert entries[..i] == entries;
      NotManaged(entries);
      ClearCountBelow(bitmap.bits, maxPages);
    }

    lemma NotManaged(entries: seq<E820Entry>)
      requires Released(entries)
      ensures forall p :: maxPages <= p < |bitmap.bits| ==> bitmap.bits[p]
    {
    }

    /** Exactly the frames that these entries make free are free. */
    ghost predicate Released(entries: seq<E820Entry>)
      reads bitmap
    {
      forall p :: 0 <= p < |bitmap.bits| ==> (!bitmap.bits[p] <==> StartsFree(entries, maxPages, p))
    }

    method ReleaseEntry(ghost entries: seq<E820Entry>, e: E820Entry)
      requires bitmap.Valid() && maxPages <= |bitmap.bits| && Released(entries)
      modifies bitmap, bitmap.words
      ensures bitmap.Valid() && |bitmap.bits| == |old(bitmap.bits)| && Released(entries + [e])
    {
      if e.kind == E820_TYPE_FREE {
        ReleaseRegion(e);
      }
      assert [e][0] == e;
      forall p | 0 <= p < |bitmap.bits| ensures !bitmap.bits[p] <==> StartsFree(entries + [e], maxPages, p) {
        StartsFreeSnoc(entries, e, maxPages, p);
      }
    }

    static lemma StartsFreeSnoc(entries: seq<E820Entry>, e: E820Entry, maxPages: nat, p: nat)
      ensures StartsFree(entries + [e], maxPages, p) <==>
              StartsFree(entries, maxPages, p) || StartsFree([e], maxPages, p)
    {
      var all := entries + [e];
      assert all[|entries|] == e && [e][0] == e;
      assert forall k :: 0 <= k < |entries| ==> all[k] == entries[k];
    }

    /** The inner loop of memory_manager_init: clears the bits of one free region. */
    method ReleaseRegion(e: E820Entry)
      requires e.kind == E820_TYPE_FREE
      requires bitmap.Valid() && maxPages <= |bitmap.bits|
      modifies bitmap, bitmap.words
      ensures bitmap.Valid() && |bitmap.bits| == |old(bitmap.bits)|
      ensures forall p :: 0 <= p < |bitmap.bits| ==> (!bitmap.bits[p] <==> !old(bitmap.bits)[p] || StartsFree([e], maxPages, p))
    {
      var start := BytesToPages(e.base);
      var p := 0;
      assert [e][0] == e;
      while p < BytesToPages(e.length) && start + p < maxPages
        invariant 0 <= p <= BytesToPages(e.length)
        invariant bitmap.Valid() && |bitmap.bits| == |old(bitmap.bits)|
        invariant forall q :: 0 <= q < |bitmap.bits| ==>
          (!bitmap.bits[q] <==> !old(bitmap.bits)[q] || (StartsFree([e], maxPages, q) && q < start + p))
      {
        if !(BytesToPages(BITMAP_ADDR) <= start + p < BytesToPages(BITMAP_ADDR) + BitmapPages(maxPages)) {
          bitmap.Clear(start + p);
        }
        p := p + 1;
      }
    }

    /** find_first_free, where every bit it reads is inside the bitmap. */
    method FindFirstFree(count: nat) returns (page: int)
      requires Valid() && ScanInside(State(), count)
      ensures page == (match FindFrom(State(), count, 0) case None => -1 case Some(p) => p)
    {
      var i := 0;
      while i < maxPages
        invariant 0 <= i <= maxPages
        invariant FindFrom(State(), count, 0) == FindFrom(State(), count, i)
        invariant forall k: nat :: k < i ==> !ClearRun(bitmap.bits, k, count)
      {
        var found := true;
        var j := 0;
        while j < count && found
          invariant 0 <= j <= count
          invariant found ==> ClearRun(bitmap.bits, i, j)
          invariant !found ==> !ClearRun(bitmap.bits, i, count)
          decreases count - j, found
        {
          var used := bitmap.Test(i + j);
          if used {
            found := false;
          } else {
            j := j + 1;
          }
        }
        if found {
          return i;
        }
        i := i + 1;
      }
      return -1;
    }

    /** The body of the marking loop of physical_alloc_pages. */
    method TakeOne(p: nat)
      requires bitmap.Valid() && p < |bitmap.bits| && 0 < freePages
      modifies this, bitmap, bitmap.words
      ensures bitmap.Valid() && State() == TakePage(old(State()), p)
    {
      bitmap.Set(p);
      freePages := freePages - 1;
    }

    /** physical_alloc_pages: the address of the run, or 0 for failure. */
    method AllocPages(count: nat) returns (addr: nat)
      requires Valid() && ScanInside(State(), count)
      modifies this, bitmap, bitmap.words
      ensures Valid()
      ensures State() == AllocRun(old(State()), count).0
      ensures addr == (match AllocRun(old(State()), count).1 case None => 0 case Some(p) => p * PAGE_SIZE)
    {
      ghost var was := State();
      var page := FindFirstFree(count);
      FindFromIsLeast(was, count, 0);
      AllocRunKeeps(was, count);
      if page < 0 {
        return 0;
      }
      var i := 0;
      while i < count
        invariant 0 <= i <= count
        invariant bitmap.Valid() && State() == TakeRun(was, page, i)
      {
        TakeRunStaysFree(was, page, i + 1, count);
        TakeOne(page + i);
        i := i + 1;
      }
      return page * PAGE_SIZE;
    }

    /** physical_alloc_page */
    method AllocPage() returns (addr: nat)
      requires Valid()
      modifies this, bitmap, bitmap.words
      ensures Valid()
      ensures State() == AllocRun(old(State()), 1).0
      ensures addr == (match AllocRun(old(State()), 1).1 case None => 0 case Some(p) => p * PAGE_SIZE)
    {
      ScanInsideIff(State(), 1);
      addr := AllocPages(1);
    }

    method FreeOne(p: nat)
      requires bitmap.Valid() && maxPages <= |bitmap.bits|
      modifies this, bitmap, bitmap.words
      ensures bitmap.Valid() && State() == FreeOnePage(old(State()), p)
    {
      if p < maxPages {
        var used := bitmap.Test(p);
        if used {
          bitmap.Clear(p);
          freePages := freePages + 1;
        }
      }
    }

    /** physical_free_pages */
    method FreePages(addr: nat, count: nat)
      requires Valid()
      modifies this, bitmap, bitmap.words
      ensures Valid()
      ensures State() == FreeRun(old(State()), addr / PAGE_SIZE, count)
    {
      ghost var was := State();
      var start := addr / PAGE_SIZE;
      var i := 0;
      while i < count
        invariant 0 <= i <= count
        invariant bitmap.Valid() && State() == FreeRun(was, start, i)
      {
        FreeOne(start + i);
        i := i + 1;
      }
      FreeRunKeeps(was, start, count);
    }

    /** physical_free_page */
    method FreePage(addr: nat)
      requires Valid()
      modifies this, bitmap, bitmap.words
      ensures Valid()
      ensures State() == FreeRun(old(State()), addr / PAGE_SIZE, 1)
    {
      FreePages(addr, 1);
    }

    method ReserveOne(p: nat)
      requires bitmap.Valid() && maxPages <= |bitmap.bits|
      requires 0 <= ReservePage(State(), p).free
      modifies this, bitmap, bitmap.words
      ensures bitmap.Valid() && State() == ReservePage(old(State()), p)
    {
      if p < maxPages {
        var used := bitmap.Test(p);
        if !used {
          TakeOne(p);
        }
      }
    }

    /** physical_reserve */
    method Reserve(addr: nat, count: nat)
      requires Valid()
      modifies this, bitmap, bitmap.words
      ensures Valid()
      ensures State() == ReserveRun(old(State()), addr / PAGE_SIZE, count)
    {
      hide TestBit, Slack;
      ghost var was := State();
      var start := addr / PAGE_SIZE;
      var i := 0;
      while i < count
        invariant 0 <= i <= count
        invariant bitmap.Valid() && State() == ReserveRun(was, start, i)
      {
        ReserveRunStaysFree(was, start, i + 1);
        ReserveOne(start + i);
        i := i + 1;
      }
      ReserveRunKeeps(was, start, count);
    }
  }
}
