/** Runs of the frame allocator: what holds in every reachable state (kernel/mm/memory.c). */
module FrameRuns {
  import opened Prelude
  import opened FrameAllocatorSpec

  /** A run of frames handed out by an allocation and not yet given back. */
  datatype Run = Run(start: nat, count: nat)

  /** The frames of the run are managed and marked used. */
  ghost predicate Marked(a: Alloc, r: Run)
    requires a.maxPages <= |a.bits|
  {
    r.count > 0 ==>
      && r.start + r.count <= a.maxPages
      && forall p :: r.start <= p < r.start + r.count ==> a.bits[p]
  }

  /** No frame belongs to both runs. */
  predicate Apart(r: Run, t: Run) {
    r.count > 0 && t.count > 0 ==> r.start + r.count <= t.start || t.start + t.count <= r.start
  }

  datatype Op =
    | Allocate(count: nat)
    | Release(index: nat)                  // gives back the index-th outstanding run
    | Reserve(start: nat, count: nat)

  datatype System = System(a: Alloc, live: seq<Run>)

  ghost predicate Inv(s: System) {
    && WellFormed(s.a)
    && 0 <= Slack(s.a)
    && (forall k :: 0 <= k < |s.live| ==> Marked(s.a, s.live[k]))
    && (forall j, k :: 0 <= j < k < |s.live| ==> Apart(s.live[j], s.live[k]))
  }

  ghost function Step(s: System, op: Op): System
    requires WellFormed(s.a)
  {
    match op
    case Allocate(count) =>
      var (a, page) := AllocRun(s.a, count);
      if page.Some? then System(a, s.live + [Run(page.value, count)]) else System(a, s.live)
    case Release(k) =>
      if k < |s.live| then
        System(FreeRun(s.a, s.live[k].start, s.live[k].count), s.live[..k] + s.live[k + 1..])
      else s
    case Reserve(p, count) => System(ReserveRun(s.a, p, count), s.live)
  }

  lemma MarkedAvoidsClear(a: Alloc, r: Run, p: nat, count: nat)
    requires a.maxPages <= |a.bits| && Marked(a, r) && ClearRun(a.bits, p, count)
    ensures Apart(r, Run(p, count))
  {
    var common := Max(r.start, p);
    assert r.start <= common < r.start + r.count ==> a.bits[common];
    assert p <= common < p + count ==> !a.bits[common];
  }

  lemma AllocateKeepsInv(s: System, count: nat)
    requires Inv(s)
    ensures Inv(Step(s, Allocate(count)))
  {
    AllocRunEffect(s.a, count);
    var (a, page) := AllocRun(s.a, count);
    if page.Some? {
      forall k | 0 <= k < |s.live| ensures Apart(s.live[k], Run(page.value, count)) && Marked(a, s.live[k]) {
        MarkedAvoidsClear(s.a, s.live[k], page.value, count);
      }
    }
  }

  lemma ReleaseKeepsInv(s: System, k: nat)
    requires Inv(s) && k < |s.live|
    ensures Inv(Step(s, Release(k)))
  {
    FreeRunBits(s.a, s.live[k].start, s.live[k].count);
    FreeRunSlack(s.a, s.live[k].start, s.live[k].count);
    var s' := Step(s, Release(k));
    forall j | 0 <= j < |s'.live| ensures Marked(s'.a, s'.live[j]) {
      var was := if j < k then j else j + 1;
      assert s'.live[j] == s.live[was] && Marked(s.a, s.live[was]);
      assert Apart(s.live[Min(was, k)], s.live[Max(was, k)]);
    }
  }

  lemma ReserveKeepsInv(s: System, p: nat, count: nat)
    requires Inv(s)
    ensures Inv(Step(s, Reserve(p, count)))
  {
    ReserveRunBits(s.a, p, count);
    ReserveRunSlack(s.a, p, count);
    forall k | 0 <= k < |s.live| ensures Marked(ReserveRun(s.a, p, count), s.live[k]) {
      assert Marked(s.a, s.live[k]);
    }
  }

  lemma StepKeepsInv(s: System, op: Op)
    requires Inv(s)
    ensures Inv(Step(s, op)) && Slack(Step(s, op).a) == Slack(s.a)
    ensures |Step(s, op).a.bits| == |s.a.bits| && Step(s, op).a.maxPages == s.a.maxPages
  {
    match op
    case Allocate(count) =>
      AllocateKeepsInv(s, count);
      AllocRunKeeps(s.a, count);
    case Release(k) =>
      if k < |s.live| {
        ReleaseKeepsInv(s, k);
        FreeRunSlack(s.a, s.live[k].start, s.live[k].count);
      }
    case Reserve(p, count) =>
      ReserveKeepsInv(s, p, count);
      ReserveRunSlack(s.a, p, count);
  }

  ghost function Exec(s: System, ops: seq<Op>): System
    requires Inv(s)
    decreases |ops|
  {
    if ops == [] then s else
      StepKeepsInv(s, ops[0]);
      Exec(Step(s, ops[0]), ops[1..])
  }

  /**
   * Over every run of allocations, releases of outstanding runs and reservations: guards stay
   * set, outstanding runs are used and pairwise disjoint, and free_pages minus the clear bits
   * never changes, so the unsigned counter free_pages never underflows.
   */
  lemma {:induction false} ExecKeepsInv(s: System, ops: seq<Op>)
    requires Inv(s)
    ensures var t := Exec(s, ops);
            && Inv(t) && Slack(t.a) == Slack(s.a) && t.a.maxPages == s.a.maxPages
            && 0 <= t.a.free <= Slack(s.a) + s.a.maxPages
    decreases |ops|
  {
    if ops != [] {
      StepKeepsInv(s, ops[0]);
      ExecKeepsInv(Step(s, ops[0]), ops[1..]);
    } else {
      ClearCountBelow(s.a.bits, s.a.maxPages);
    }
  }
}
