/** The mutex of kernel/sync/sync.c under every interleaving, unlocked only by its holder. */
module Mutex {
  import opened Counting

  /** A holder remembers whether it came through mutex_trylock, which does not set the owner. */
  datatype Pc =
    | Idle
    | Swap(try: bool)        // atomic_compare_and_swap(mutex, 0, 1)
    | SetOwner
    | Holding(try: bool)
    | ClearOwner(try: bool)  // mutex_unlock, first store
    | Release                // mutex_unlock, second store

  /** mutex_t: the lock word and whether owner is non-NULL. */
  datatype Shared = Shared(locked: bool, owned: bool)

  datatype State = State(m: Shared, pcs: seq<Pc>)

  /** What an idle thread calls next. */
  datatype Call = Nothing | Lock(try: bool)

  predicate Holds(pc: Pc) {
    pc.SetOwner? || pc.Holding? || pc.ClearOwner? || pc.Release?
  }

  /** Between the two stores to owner of mutex_lock and mutex_unlock. */
  predicate Owns(pc: Pc) {
    (pc.Holding? && !pc.try) || (pc.ClearOwner? && !pc.try)
  }

  function Access(pc: Pc, m: Shared, call: Call): (Pc, Shared) {
    match pc
    case Idle => (if call.Lock? then Swap(call.try) else Idle, m)
    case Swap(try) =>
      if m.locked then (if try then Idle else pc, m)
      else (if try then Holding(true) else SetOwner, m.(locked := true))
    case SetOwner => (Holding(false), m.(owned := true))
    case Holding(try) => (ClearOwner(try), m)
    case ClearOwner(_) => (Release, m.(owned := false))
    case Release => (Idle, m.(locked := false))
  }

  function Step(s: State, t: nat, call: Call): State
    requires t < |s.pcs|
  {
    var (pc, m) := Access(s.pcs[t], s.m, call);
    State(m, s.pcs[t := pc])
  }

  ghost predicate Inv(s: State) {
    && CountIf(s.pcs, Holds) == One(s.m.locked)
    && CountIf(s.pcs, Owns) == One(s.m.owned)
  }

  function Init(n: nat): State {
    State(Shared(false, false), seq(n, _ => Idle))
  }

  /** A holder is alone, so the owner field says exactly whether this holder set it. */
  lemma HolderIsAlone(s: State, t: nat)
    requires Inv(s) && t < |s.pcs| && Holds(s.pcs[t])
    ensures s.m.locked && (s.m.owned <==> Owns(s.pcs[t]))
  {
    CountPositive(s.pcs, Holds);
    CountPositive(s.pcs, Owns);
    if s.m.owned {
      var k :| 0 <= k < |s.pcs| && Owns(s.pcs[k]);
      AtMostOne(s.pcs, Holds, t, k);
    }
  }

  lemma OwnedMeansLocked(s: State)
    requires Inv(s)
    ensures s.m.owned ==> s.m.locked
  {
    CountPositive(s.pcs, Holds);
    CountPositive(s.pcs, Owns);
  }

  lemma StepInv(s: State, t: nat, call: Call)
    requires Inv(s) && t < |s.pcs|
    ensures Inv(Step(s, t, call)) && |Step(s, t, call).pcs| == |s.pcs|
  {
    var (pc, m) := Access(s.pcs[t], s.m, call);
    CountUpdate(s.pcs, Holds, t, pc);
    CountUpdate(s.pcs, Owns, t, pc);
    if Holds(s.pcs[t]) {
      HolderIsAlone(s, t);
    }
  }

  /** mutex_lock waits exactly while the mutex is locked and returns as its holder; mutex_trylock never waits. */
  lemma LockReturnsHolding(pc: Pc, m: Shared, call: Call)
    requires pc.Swap?
    ensures var (pc', m') := Access(pc, m, call);
            && m'.locked && m'.owned == m.owned
            && (Holds(pc') <==> !m.locked) && (pc' == pc <==> m.locked && !pc.try) && (pc'.Idle? <==> m.locked && pc.try)
  {
  }

  function Run(n: nat, schedule: seq<(nat, Call)>): State {
    if schedule == [] then Init(n)
    else
      var s := Run(n, schedule[..|schedule| - 1]);
      var (t, call) := schedule[|schedule| - 1];
      if t < |s.pcs| then Step(s, t, call) else s
  }

  lemma {:induction false} RunInv(n: nat, schedule: seq<(nat, Call)>)
    ensures Inv(Run(n, schedule)) && |Run(n, schedule).pcs| == n
  {
    if schedule == [] {
      CountNone(Init(n).pcs, Holds);
      CountNone(Init(n).pcs, Owns);
    } else {
      RunInv(n, schedule[..|schedule| - 1]);
      var s := Run(n, schedule[..|schedule| - 1]);
      if schedule[|schedule| - 1].0 < n {
        StepInv(s, schedule[|schedule| - 1].0, schedule[|schedule| - 1].1);
      }
    }
  }

  /**
   * In every state of every run the mutex has at most one holder, it is locked exactly when it has
   * one, and owner is non-NULL exactly while a holder that came through mutex_lock has it set: never
   * for one that came through mutex_trylock.
   */
  lemma Safety(n: nat, schedule: seq<(nat, Call)>, i: nat, j: nat)
    requires i < n && j < n
    ensures var s := Run(n, schedule);
            && |s.pcs| == n
            && (Holds(s.pcs[i]) && Holds(s.pcs[j]) ==> i == j)
            && (s.m.locked <==> exists k :: 0 <= k < n && Holds(s.pcs[k]))
            && (s.m.owned <==> exists k :: 0 <= k < n && Owns(s.pcs[k]))
            && (s.m.owned ==> s.m.locked)
  {
    RunInv(n, schedule);
    var s := Run(n, schedule);
    CountPositive(s.pcs, Holds);
    CountPositive(s.pcs, Owns);
    OwnedMeansLocked(s);
    if Holds(s.pcs[i]) && Holds(s.pcs[j]) {
      AtMostOne(s.pcs, Holds, i, j);
    }
  }

  // ----- What a thread called -----

  /** The last call that thread `t` made in the run. */
  ghost function LastCall(n: nat, schedule: seq<(nat, Call)>, t: nat): Call {
    if schedule == [] then Nothing
    else
      var before := schedule[..|schedule| - 1];
      var (u, call) := schedule[|schedule| - 1];
      if u == t < |Run(n, before).pcs| && Run(n, before).pcs[t].Idle? && call != Nothing then call
      else LastCall(n, before, t)
  }

  /** Where a thread can be after this call, until its next one. */
  predicate Serves(pc: Pc, call: Call) {
    match pc
    case Idle => true
    case Swap(try) => call == Lock(try)
    case SetOwner => call == Lock(false)
    case Holding(try) => call == Lock(try)
    case ClearOwner(try) => call == Lock(try)
    case Release => call.Lock?
  }

  /** In every run every thread is where its last call leads. */
  lemma {:induction false} ThreadsServeTheirCalls(n: nat, schedule: seq<(nat, Call)>, t: nat)
    requires t < n
    ensures |Run(n, schedule).pcs| == n && Serves(Run(n, schedule).pcs[t], LastCall(n, schedule, t))
  {
    RunInv(n, schedule);
    if schedule != [] {
      ThreadsServeTheirCalls(n, schedule[..|schedule| - 1], t);
    }
  }

  /** A thread that got the mutex has it alone; owner says whether it called mutex_lock or mutex_trylock. */
  lemma LockedByCaller(n: nat, schedule: seq<(nat, Call)>, i: nat, j: nat)
    requires i < n && j < n && i != j
    ensures var s := Run(n, schedule);
            && |s.pcs| == n
            && (s.pcs[i].Holding? ==>
                  && s.m.locked && !s.pcs[j].Holding? && LastCall(n, schedule, i).Lock?
                  && (s.m.owned <==> LastCall(n, schedule, i) == Lock(false)))
  {
    Safety(n, schedule, i, j);
    ThreadsServeTheirCalls(n, schedule, i);
    RunInv(n, schedule);
    if Run(n, schedule).pcs[i].Holding? {
      HolderIsAlone(Run(n, schedule), i);
    }
  }

  /** A thread that makes a call and goes on alone, for a number of steps. */
  function Alone(pc: Pc, m: Shared, call: Call, steps: nat): (Pc, Shared)
    decreases steps
  {
    if steps == 0 then (pc, m)
    else
      var (pc', m') := Access(pc, m, call);
      Alone(pc', m', Nothing, steps - 1)
  }

  /** A free mutex is had by both calls; mutex_lock sets the owner and mutex_trylock does not. */
  lemma LockAlone(m: Shared)
    requires !m.locked
    ensures Alone(Idle, m, Lock(false), 3) == (Holding(false), Shared(true, true))
    ensures Alone(Idle, m, Lock(true), 2) == (Holding(true), m.(locked := true))
  {
    var held := m.(locked := true);
    assert Alone(Idle, m, Lock(false), 3) == Alone(Swap(false), m, Nothing, 2) == Alone(SetOwner, held, Nothing, 1);
    assert Alone(Idle, m, Lock(true), 2) == Alone(Swap(true), m, Nothing, 1) == Alone(Holding(true), held, Nothing, 0);
  }

  /** On a locked one mutex_trylock gives up and mutex_lock goes on trying. */
  lemma {:induction false} LockedAlone(m: Shared, steps: nat)
    requires m.locked
    ensures Alone(Idle, m, Lock(true), 2) == (Idle, m) && Alone(Idle, m, Lock(false), steps + 1) == (Swap(false), m)
  {
    assert Alone(Idle, m, Lock(true), 2) == Alone(Swap(true), m, Nothing, 1) == Alone(Idle, m, Nothing, 0);
    StillLocked(m, steps);
  }

  lemma {:induction false} StillLocked(m: Shared, steps: nat)
    requires m.locked
    ensures Alone(Swap(false), m, Nothing, steps) == (Swap(false), m)
  {
    if steps > 0 {
      StillLocked(m, steps - 1);
    }
  }

  lemma UnlockAlone(m: Shared, try: bool)
    ensures Alone(Holding(try), m, Nothing, 3) == (Idle, Shared(false, false))
  {
    var left := m.(owned := false);
    assert Alone(Holding(try), m, Nothing, 3) == Alone(ClearOwner(try), m, Nothing, 2) == Alone(Release, left, Nothing, 1);
  }
}
