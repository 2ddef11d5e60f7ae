/**
 * The bitmap allocator of physical page frames (kernel/mm/memory.c).
 *
 * A frame is free when its bit is clear. The value type `Alloc` is the abstract state
 * on which runs of operations are studied; class `FrameAllocator` in FrameBitmap works on
 * 32-bit words in place and is proved to refine it.
 */
module FrameAllocatorSpec {
  import opened Prelude

  /** One bit per frame (true = used), the number of managed frames, and stats.free_pages. */
  datatype Alloc = Alloc(bits: seq<bool>, maxPages: nat, free: int)

  /** The bits past `maxPages` are guards: they are set, so no run of clear bits crosses them. */
  ghost predicate WellFormed(a: Alloc) {
    && a.maxPages <= |a.bits|
    && forall i :: a.maxPages <= i < |a.bits| ==> a.bits[i]
  }

  predicate HasGuard(a: Alloc) {
    a.maxPages < |a.bits|
  }

  ghost predicate ClearRun(bits: seq<bool>, start: nat, count: nat) {
    start + count <= |bits| && forall j :: start <= j < start + count ==> !bits[j]
  }

  function ClearCount(bits: seq<bool>): nat {
    if bits == [] then 0 else (if bits[0] then 0 else 1) + ClearCount(bits[1..])
  }

  /** free_pages minus the number of clear bits: what every operation keeps. */
  function Slack(a: Alloc): int {
    a.free - ClearCount(a.bits)
  }

  // ----- Operations -----

  /** The lowest index below `maxPages` where `count` clear bits start, searching from `i`. */
  ghost function FindFrom(a: Alloc, count: nat, i: nat): Option<nat>
    decreases a.maxPages - i
  {
    if i >= a.maxPages then None
    else if ClearRun(a.bits, i, count) then Some(i)
    else FindFrom(a, count, i + 1)
  }

  function TakePage(a: Alloc, p: nat): Alloc
    requires p < |a.bits|
  {
    a.(bits := a.bits[p := true], free := a.free - 1)
  }

  function TakeRun(a: Alloc, p: nat, count: nat): (r: Alloc)
    requires p + count <= |a.bits|
    ensures |r.bits| == |a.bits| && r.maxPages == a.maxPages
  {
    if count == 0 then a else TakePage(TakeRun(a, p, count - 1), p + count - 1)
  }

  function FreeOnePage(a: Alloc, p: nat): Alloc
    requires a.maxPages <= |a.bits|
  {
    if p < a.maxPages && a.bits[p] then a.(bits := a.bits[p := false], free := a.free + 1) else a
  }

  function FreeRun(a: Alloc, p: nat, count: nat): (r: Alloc)
    requires a.maxPages <= |a.bits|
    ensures |r.bits| == |a.bits| && r.maxPages == a.maxPages
  {
    if count == 0 then a else FreeOnePage(FreeRun(a, p, count - 1), p + count - 1)
  }

  function ReservePage(a: Alloc, p: nat): Alloc
    requires a.maxPages <= |a.bits|
  {
    if p < a.maxPages && !a.bits[p] then TakePage(a, p) else a
  }

  function ReserveRun(a: Alloc, p: nat, count: nat): (r: Alloc)
    requires a.maxPages <= |a.bits|
    ensures |r.bits| == |a.bits| && r.maxPages == a.maxPages
  {
    if count == 0 then a else ReservePage(ReserveRun(a, p, count - 1), p + count - 1)
  }

  /** physical_alloc_pages on page indices: the new state and the first page of the run. */
  ghost function AllocRun(a: Alloc, count: nat): (Alloc, Option<nat>)
    requires WellFormed(a)
  {
    match FindFrom(a, count, 0)
    case None => (a, None)
    case Some(p) =>
      FindFromIsLeast(a, count, 0);
      (TakeRun(a, p, count), Some(p))
  }

  // ----- What single operations do -----

  lemma {:induction false} FindFromIsLeast(a: Alloc, count: nat, i: nat)
    ensures match FindFrom(a, count, i)
            case None => forall k: nat :: i <= k < a.maxPages ==> !ClearRun(a.bits, k, count)
            case Some(p) =>
              && i <= p < a.maxPages && ClearRun(a.bits, p, count)
              && forall k: nat :: i <= k < p ==> !ClearRun(a.bits, k, count)
    decreases a.maxPages - i
  {
    if i < a.maxPages && !ClearRun(a.bits, i, count) {
      FindFromIsLeast(a, count, i + 1);
    }
  }

  lemma {:induction false} ClearCountUpdate(bits: seq<bool>, i: nat, used: bool)
    requires i < |bits|
    ensures ClearCount(bits[i := used]) ==
            ClearCount(bits) + (if bits[i] then 1 else 0) - (if used then 1 else 0)
  {
    if i == 0 {
      assert bits[0 := used][1..] == bits[1..];
    } else {
      assert bits[i := used][1..] == bits[1..][i - 1 := used];
      ClearCountUpdate(bits[1..], i - 1, used);
    }
  }

  lemma {:induction false} TakeRunBits(a: Alloc, p: nat, count: nat)
    requires p + count <= |a.bits|
    ensures var r := TakeRun(a, p, count);
            forall i :: 0 <= i < |a.bits| ==> r.bits[i] == (a.bits[i] || p <= i < p + count)
  {
    if count != 0 {
      TakeRunBits(a, p, count - 1);
    }
  }

  lemma {:induction false} TakeRunSlack(a: Alloc, p: nat, count: nat)
    requires ClearRun(a.bits, p, count)
    ensures Slack(TakeRun(a, p, count)) == Slack(a) && TakeRun(a, p, count).free == a.free - count
  {
    if count != 0 {
      TakeRunSlack(a, p, count - 1);
      TakeRunBits(a, p, count - 1);
      ClearCountUpdate(TakeRun(a, p, count - 1).bits, p + count - 1, true);
    }
  }

  lemma TakeRunStaysFree(a: Alloc, p: nat, i: nat, count: nat)
    requires ClearRun(a.bits, p, count) && i <= count && 0 <= Slack(a)
    ensures 0 <= TakeRun(a, p, i).free
  {
    TakeRunSlack(a, p, i);
  }

  lemma {:induction false} FreeRunBits(a: Alloc, p: nat, count: nat)
    requires a.maxPages <= |a.bits|
    ensures var r := FreeRun(a, p, count);
            forall i :: 0 <= i < |a.bits| ==> r.bits[i] == (a.bits[i] && !(i < a.maxPages && p <= i < p + count))
  {
    if count != 0 {
      FreeRunBits(a, p, count - 1);
    }
  }

  lemma {:induction false} FreeRunSlack(a: Alloc, p: nat, count: nat)
    requires a.maxPages <= |a.bits|
    ensures Slack(FreeRun(a, p, count)) == Slack(a)
  {
    if count != 0 {
      FreeRunSlack(a, p, count - 1);
      var prev := FreeRun(a, p, count - 1);
      if p + count - 1 < a.maxPages && prev.bits[p + count - 1] {
        ClearCountUpdate(prev.bits, p + count - 1, false);
      }
    }
  }

  lemma FreeRunKeeps(a: Alloc, p: nat, count: nat)
    requires WellFormed(a)
    ensures WellFormed(FreeRun(a, p, count)) && Slack(FreeRun(a, p, count)) == Slack(a)
  {
    FreeRunBits(a, p, count);
    FreeRunSlack(a, p, count);
  }

  lemma {:induction false} ReserveRunBits(a: Alloc, p: nat, count: nat)
    requires a.maxPages <= |a.bits|
    ensures var r := ReserveRun(a, p, count);
            forall i :: 0 <= i < |a.bits| ==> r.bits[i] == (a.bits[i] || (i < a.maxPages && p <= i < p + count))
  {
    if count != 0 {
      ReserveRunBits(a, p, count - 1);
    }
  }

  lemma {:induction false} ReserveRunSlack(a: Alloc, p: nat, count: nat)
    requires a.maxPages <= |a.bits|
    ensures Slack(ReserveRun(a, p, count)) == Slack(a)
  {
    if count != 0 {
      ReserveRunSlack(a, p, count - 1);
      var prev := ReserveRun(a, p, count - 1);
      if p + count - 1 < a.maxPages && !prev.bits[p + count - 1] {
        ClearCountUpdate(prev.bits, p + count - 1, true);
      }
    }
  }

  lemma ReserveRunKeeps(a: Alloc, p: nat, count: nat)
    requires WellFormed(a)
    ensures WellFormed(ReserveRun(a, p, count)) && Slack(ReserveRun(a, p, count)) == Slack(a)
  {
    ReserveRunBits(a, p, count);
    ReserveRunSlack(a, p, count);
  }

  lemma ReserveRunStaysFree(a: Alloc, p: nat, count: nat)
    requires WellFormed(a) && 0 <= Slack(a)
    ensures 0 <= ReserveRun(a, p, count).free
  {
    ReserveRunSlack(a, p, count);
  }

  /**
   * Allocation takes the lowest run of clear bits, wholly below maxPages, and fails only
   * when there is none; it marks exactly that run and moves free_pages by exactly `count`.
   */
  lemma AllocRunEffect(a: Alloc, count: nat)
    requires WellFormed(a)
    ensures var (r, page) := AllocRun(a, count);
            && WellFormed(r) && Slack(r) == Slack(a) && |r.bits| == |a.bits| && r.maxPages == a.maxPages
            && match page
               case None => r == a && forall k: nat :: k < a.maxPages ==> !ClearRun(a.bits, k, count)
               case Some(p) =>
                 && p + count <= Max(a.maxPages, p) && ClearRun(a.bits, p, count)
                 && (forall k: nat :: k < p ==> !ClearRun(a.bits, k, count))
                 && r.free == a.free - count
                 && forall i :: 0 <= i < |a.bits| ==> r.bits[i] == (a.bits[i] || p <= i < p + count)
  {
    FindFromIsLeast(a, count, 0);
    match FindFrom(a, count, 0)
    case None =>
    case Some(p) =>
      TakeRunBits(a, p, count);
      TakeRunSlack(a, p, count);
      assert count > 0 ==> !a.bits[p + count - 1];
  }

  lemma AllocRunKeeps(a: Alloc, count: nat)
    requires WellFormed(a)
    ensures WellFormed(AllocRun(a, count).0) && Slack(AllocRun(a, count).0) == Slack(a)
  {
    AllocRunEffect(a, count);
  }

  lemma {:induction false} ClearCountBound(bits: seq<bool>)
    ensures ClearCount(bits) <= |bits|
    ensures (forall i :: 0 <= i < |bits| ==> bits[i]) ==> ClearCount(bits) == 0
  {
    if bits != [] {
      ClearCountBound(bits[1..]);
    }
  }

  /** Clear bits all lie below maxPages, so there are at most that many. */
  lemma {:induction false} ClearCountBelow(bits: seq<bool>, max: nat)
    requires forall i :: max <= i < |bits| ==> bits[i]
    ensures ClearCount(bits) <= max
  {
    if max == 0 {
      ClearCountBound(bits);
    } else if bits != [] {
      ClearCountBelow(bits[1..], max - 1);
    }
  }

  // ----- When the scan stays inside the bitmap -----

  /** Every bit that find_first_free reads exists: bit i + j, with no run before i and j clear bits from i on. */
  ghost predicate ScanInside(a: Alloc, count: nat) {
    forall i: nat, j: nat ::
      i < a.maxPages && j < count && ClearRun(a.bits, i, j) && (forall k: nat :: k < i ==> !ClearRun(a.bits, k, count)) ==>
      i + j < |a.bits|
  }

  /** It is so for one page, with a guard bit, if the last frame is used, or if there is a run to be found. */
  lemma ScanInsideIff(a: Alloc, count: nat)
    requires WellFormed(a)
    ensures ScanInside(a, count) <==>
            count <= 1 || a.maxPages == 0 || HasGuard(a) || a.bits[a.maxPages - 1] || FindFrom(a, count, 0).Some?
  {
    FindFromIsLeast(a, count, 0);
    var found := FindFrom(a, count, 0);
    if count > 1 && a.maxPages > 0 && !HasGuard(a) && !a.bits[a.maxPages - 1] && found.None? {
      var last := a.maxPages - 1;
      assert ClearRun(a.bits, last, 1) && last + 1 == |a.bits|;
      assert forall k: nat :: k < last ==> !ClearRun(a.bits, k, count);
      assert !ScanInside(a, count);
    } else {
      forall i: nat, j: nat | i < a.maxPages && j < count && ClearRun(a.bits, i, j) &&
                              forall k: nat :: k < i ==> !ClearRun(a.bits, k, count)
        ensures i + j < |a.bits|
      {
        if found.Some? {
          assert i <= found.value;
        } else if j > 0 {
          assert !a.bits[i + j - 1];
        }
      }
    }
  }

  // ----- When one frame can be had -----

  /** What a caller of physical_alloc_page can check: some frame is free, and frame 0 is not. */
  predicate OneFrameToHave(a: Alloc) {
    0 < ClearCount(a.bits) && (0 < a.maxPages <= |a.bits| ==> a.bits[0])
  }

  lemma {:induction false} SomeClear(bits: seq<bool>) returns (i: nat)
    requires 0 < ClearCount(bits)
    ensures i < |bits| && !bits[i]
  {
    if bits[0] {
      i := SomeClear(bits[1..]);
      i := i + 1;
    } else {
      i := 0;
    }
  }

  /** A one-page allocation returns a usable address if and only if a frame is free and frame 0 is not. */
  lemma OneFrameIff(a: Alloc)
    requires WellFormed(a)
    ensures var page := AllocRun(a, 1).1; page.Some? && page.value != 0 <==> OneFrameToHave(a)
  {
    AllocRunEffect(a, 1);
    var page := AllocRun(a, 1).1;
    if page.Some? {
      ClearCountUpdate(a.bits, page.value, true);
      if 0 < a.maxPages && !a.bits[0] {
        assert ClearRun(a.bits, 0, 1);
      }
    } else if 0 < ClearCount(a.bits) {
      var i := SomeClear(a.bits);
      assert ClearRun(a.bits, i, 1);
    }
  }
}
