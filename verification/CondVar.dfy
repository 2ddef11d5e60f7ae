/** The spinning condition variable of kernel/sync/sync.c under every interleaving. */
module CondVar {
  import opened Counting

  datatype Pc =
    | Idle
    | SignalAcquire | SignalSet | SignalLeave        // condvar_signal and condvar_broadcast alike
    | WaitAcquire | WaitCheck | WaitBackoff | WaitClear | WaitLeave

  /** condvar_t, with the number of signals and broadcasts made and of waits that took the flag. */
  datatype Shared = Shared(lock: bool, signaled: bool, signals: nat, wakeups: nat)

  datatype State = State(m: Shared, pcs: seq<Pc>)

  datatype Call = Nothing | Signal | Broadcast | Wait

  predicate Spinning(pc: Pc) {
    pc.SignalSet? || pc.SignalLeave? || pc.WaitCheck? || pc.WaitBackoff? || pc.WaitClear? || pc.WaitLeave?
  }

  function TakeLock(m: Shared, here: Pc, next: Pc): (Pc, Shared) {
    if m.lock then (here, m) else (next, m.(lock := true))
  }

  function Access(pc: Pc, m: Shared, call: Call): (Pc, Shared) {
    match pc
    case Idle =>
      (match call
       case Nothing => Idle
       case Signal => SignalAcquire
       case Broadcast => SignalAcquire
       case Wait => WaitAcquire, m)
    case SignalAcquire => TakeLock(m, pc, SignalSet)
    case SignalSet => (SignalLeave, m.(signaled := true, signals := m.signals + 1))
    case SignalLeave => (Idle, m.(lock := false))
    case WaitAcquire => TakeLock(m, pc, WaitCheck)
    case WaitCheck => (if m.signaled then WaitClear else WaitBackoff, m)
    case WaitBackoff => (WaitAcquire, m.(lock := false))
    case WaitClear => (WaitLeave, m.(signaled := false, wakeups := m.wakeups + 1))
    case WaitLeave => (Idle, m.(lock := false))
  }

  function Step(s: State, t: nat, call: Call): State
    requires t < |s.pcs|
  {
    var (pc, m) := Access(s.pcs[t], s.m, call);
    State(m, s.pcs[t := pc])
  }

  ghost predicate Inv(s: State) {
    && CountIf(s.pcs, Spinning) == One(s.m.lock)
    && s.m.wakeups + One(s.m.signaled) <= s.m.signals
    && forall i :: 0 <= i < |s.pcs| && s.pcs[i].WaitClear? ==> s.m.signaled
  }

  lemma StepInv(s: State, t: nat, call: Call)
    requires Inv(s) && t < |s.pcs|
    ensures Inv(Step(s, t, call)) && |Step(s, t, call).pcs| == |s.pcs|
  {
    var (pc, m) := Access(s.pcs[t], s.m, call);
    CountUpdate(s.pcs, Spinning, t, pc);
    CountPositive(s.pcs, Spinning);
    forall i | 0 <= i < |s.pcs| && i != t && s.pcs[i].WaitClear? ensures m.signaled {
      if Spinning(s.pcs[t]) {
        AtMostOne(s.pcs, Spinning, i, t);
      }
    }
  }

  function Run(n: nat, schedule: seq<(nat, Call)>): State {
    if schedule == [] then State(Shared(false, false, 0, 0), seq(n, _ => Idle))
    else
      var s := Run(n, schedule[..|schedule| - 1]);
      var (t, call) := schedule[|schedule| - 1];
      if t < |s.pcs| then Step(s, t, call) else s
  }

  /** Waits that took the flag plus the pending flag never exceed signals plus broadcasts, in any run. */
  lemma {:induction false} Conservation(n: nat, schedule: seq<(nat, Call)>)
    ensures var s := Run(n, schedule);
            Inv(s) && |s.pcs| == n && s.m.wakeups + One(s.m.signaled) <= s.m.signals
  {
    if schedule == [] {
      CountNone(Run(n, schedule).pcs, Spinning);
    } else {
      Conservation(n, schedule[..|schedule| - 1]);
      var s := Run(n, schedule[..|schedule| - 1]);
      if schedule[|schedule| - 1].0 < n {
        StepInv(s, schedule[|schedule| - 1].0, schedule[|schedule| - 1].1);
      }
    }
  }

  /** A broadcast wakes at most one waiter: with one signal or broadcast made, at most one wait completes. */
  lemma BroadcastWakesOne(n: nat, schedule: seq<(nat, Call)>)
    requires Run(n, schedule).m.signals == 1
    ensures Run(n, schedule).m.wakeups <= 1
  {
    Conservation(n, schedule);
  }

  // ----- What a thread called -----

  /** The last call that thread `t` made in the run. */
  ghost function LastCall(n: nat, schedule: seq<(nat, Call)>, t: nat): Call {
    if schedule == [] then Nothing
    else
      var before := schedule[..|schedule| - 1];
      var (u, call) := schedule[|schedule| - 1];
      if u == t < |Run(n, before).pcs| && Run(n, before).pcs[t].Idle? && call != Nothing then call
      else LastCall(n, before, t)
  }

  predicate Signals(call: Call) {
    call.Signal? || call.Broadcast?
  }

  predicate Waits(call: Call) {
    call.Wait?
  }

  /** Where a thread can be after this call, until its next one. */
  predicate Serves(pc: Pc, call: Call) {
    match pc
    case Idle => true
    case SignalAcquire => Signals(call)
    case SignalSet => Signals(call)
    case SignalLeave => Signals(call)
    case _ => Waits(call)
  }

  /** In every run every thread is where its last call leads. */
  lemma {:induction false} ThreadsServeTheirCalls(n: nat, schedule: seq<(nat, Call)>, t: nat)
    requires t < n
    ensures |Run(n, schedule).pcs| == n && Serves(Run(n, schedule).pcs[t], LastCall(n, schedule, t))
  {
    Conservation(n, schedule);
    if schedule != [] {
      ThreadsServeTheirCalls(n, schedule[..|schedule| - 1], t);
    }
  }

  // ----- Signals stored and flags taken, in their order -----

  datatype Event = Signalled | Taken

  /** What a step of a thread at this point does to the flag. */
  function EventsAt(pc: Pc): seq<Event> {
    if pc.SignalSet? then [Signalled] else if pc.WaitClear? then [Taken] else []
  }

  /** The stores of signals and the clears of waits that a run has completed. */
  ghost function Log(n: nat, schedule: seq<(nat, Call)>): seq<Event> {
    if schedule == [] then []
    else
      var s := Run(n, schedule[..|schedule| - 1]);
      var t := schedule[|schedule| - 1].0;
      Log(n, schedule[..|schedule| - 1]) + if t < |s.pcs| then EventsAt(s.pcs[t]) else []
  }

  ghost predicate LogFits(log: seq<Event>, m: Shared) {
    && (m.signaled <==> log != [] && log[|log| - 1] == Signalled)
    && (forall k :: 0 <= k < |log| && log[k] == Taken ==> k > 0 && log[k - 1] == Signalled)
    && m.signals == multiset(log)[Signalled] && m.wakeups == multiset(log)[Taken]
  }

  lemma LogStep(log: seq<Event>, pc: Pc, m: Shared, call: Call)
    requires LogFits(log, m) && (pc.WaitClear? ==> m.signaled)
    ensures LogFits(log + EventsAt(pc), Access(pc, m, call).1)
  {
    assert log + [] == log;
  }

  /**
   * In every run the flag is set if and only if the last of the completed stores is that of a signal or
   * broadcast, and each wait that got through took the flag of the signal right before it.
   */
  lemma {:induction false} FlagFollowsLog(n: nat, schedule: seq<(nat, Call)>)
    ensures LogFits(Log(n, schedule), Run(n, schedule).m)
  {
    if schedule != [] {
      var before := schedule[..|schedule| - 1];
      FlagFollowsLog(n, before);
      Conservation(n, before);
      var s, t := Run(n, before), schedule[|schedule| - 1].0;
      if t < |s.pcs| {
        LogStep(Log(n, before), s.pcs[t], s.m, schedule[|schedule| - 1].1);
      }
      hide Access, EventsAt, LogFits;
    }
  }

  // ----- Every call counts -----

  /** The calls of a kind that idle threads have made in a run. */
  ghost function CallsMade(n: nat, schedule: seq<(nat, Call)>, kind: Call -> bool): nat {
    if schedule == [] then 0
    else
      var s := Run(n, schedule[..|schedule| - 1]);
      var (t, call) := schedule[|schedule| - 1];
      CallsMade(n, schedule[..|schedule| - 1], kind) +
      if t < |s.pcs| && s.pcs[t].Idle? && kind(call) then 1 else 0
  }

  predicate YetToSignal(pc: Pc) {
    pc.SignalAcquire? || pc.SignalSet?
  }

  predicate YetToTake(pc: Pc) {
    pc.WaitAcquire? || pc.WaitCheck? || pc.WaitBackoff? || pc.WaitClear?
  }

  lemma AccessMovesCalls(pc: Pc, m: Shared, call: Call)
    ensures var (pc', m') := Access(pc, m, call);
            && m.signals + One(YetToSignal(pc)) + One(pc.Idle? && Signals(call)) == m'.signals + One(YetToSignal(pc'))
            && m.wakeups + One(YetToTake(pc)) + One(pc.Idle? && Waits(call)) == m'.wakeups + One(YetToTake(pc'))
  {
  }

  /**
   * In every run each signal or broadcast called has been stored once or is still on its way, and each wait
   * called has taken the flag once or is still waiting: none returns without.
   */
  lemma {:induction false} EveryCallCounts(n: nat, schedule: seq<(nat, Call)>)
    ensures var s := Run(n, schedule);
            && CallsMade(n, schedule, Signals) == s.m.signals + CountIf(s.pcs, YetToSignal)
            && CallsMade(n, schedule, Waits) == s.m.wakeups + CountIf(s.pcs, YetToTake)
  {
    if schedule == [] {
      CountNone(Run(n, schedule).pcs, YetToSignal);
      CountNone(Run(n, schedule).pcs, YetToTake);
    } else {
      var before := schedule[..|schedule| - 1];
      EveryCallCounts(n, before);
      var s, t, call := Run(n, before), schedule[|schedule| - 1].0, schedule[|schedule| - 1].1;
      if t < |s.pcs| {
        AccessMovesCalls(s.pcs[t], s.m, call);
        hide Access, Signals, Waits, YetToSignal, YetToTake;
        var pc := Access(s.pcs[t], s.m, call).0;
        CountUpdate(s.pcs, YetToSignal, t, pc);
        CountUpdate(s.pcs, YetToTake, t, pc);
      }
    }
  }

  // ----- Sections as wholes -----

  function StepsLeft(pc: Pc): nat {
    if pc.WaitCheck? then 3 else if pc.SignalSet? || pc.WaitClear? then 2 else if Spinning(pc) then 1 else 0
  }

  /** Where a holder of the spinlock ends up, and what it leaves behind, if nobody interferes. */
  function Outcome(pc: Pc, m: Shared): (Pc, Shared)
    decreases StepsLeft(pc)
  {
    if !Spinning(pc) then (pc, m)
    else
      var (pc', m') := Access(pc, m, Nothing);
      Outcome(pc', m')
  }

  /** condvar_signal and condvar_broadcast leave the flag set whatever it was. */
  lemma OutcomeOfSignal(m: Shared)
    ensures Outcome(SignalSet, m) == (Idle, m.(lock := false, signaled := true, signals := m.signals + 1))
  {
    var stored := m.(signaled := true, signals := m.signals + 1);
    assert Outcome(SignalSet, m) == Outcome(SignalLeave, stored) == Outcome(Idle, stored.(lock := false));
  }

  /** condvar_wait_spin clears a set flag and returns; with the flag clear it frees the spinlock and tries again. */
  lemma OutcomeOfWait(m: Shared)
    ensures Outcome(WaitCheck, m) ==
            if m.signaled then (Idle, m.(lock := false, signaled := false, wakeups := m.wakeups + 1))
            else (WaitAcquire, m.(lock := false))
  {
    if m.signaled {
      var taken := m.(signaled := false, wakeups := m.wakeups + 1);
      assert Outcome(WaitCheck, m) == Outcome(WaitClear, m) == Outcome(WaitLeave, taken) == Outcome(Idle, taken.(lock := false));
    } else {
      assert Outcome(WaitCheck, m) == Outcome(WaitBackoff, m) == Outcome(WaitAcquire, m.(lock := false));
    }
  }

  /** From each of the three calls on a free spinlock to the section. */
  lemma CallsReachSections(m: Shared, call: Call)
    requires !m.lock && call != Nothing
    ensures var (pc, m1) := Access(Idle, m, call);
            m1 == m && Access(pc, m, Nothing) == (if Signals(call) then SignalSet else WaitCheck, m.(lock := true))
  {
  }

  /** A step of any thread leaves the outcome of the holder's section as it was. */
  lemma StepKeepsOutcome(s: State, t: nat, u: nat, call: Call)
    requires Inv(s) && t < |s.pcs| && u < |s.pcs| && Spinning(s.pcs[t])
    ensures var s' := Step(s, u, call);
            Outcome(s'.pcs[t], s'.m) == Outcome(s.pcs[t], s.m)
  {
    CountPositive(s.pcs, Spinning);
    if u != t {
      if Spinning(s.pcs[u]) {
        AtMostOne(s.pcs, Spinning, t, u);
      }
      assert Step(s, u, call).m == s.m;
    }
  }

  /** The state after more steps. */
  function Continue(s: State, schedule: seq<(nat, Call)>): State {
    if schedule == [] then s
    else
      var r := Continue(s, schedule[..|schedule| - 1]);
      var (t, call) := schedule[|schedule| - 1];
      if t < |r.pcs| then Step(r, t, call) else r
  }

  /**
   * Atomicity: however the steps of the other threads fall between those of a holder of the
   * spinlock, when it frees the spinlock the result is that of running its section alone.
   */
  lemma {:induction false} SectionsAreAtomic(s: State, t: nat, schedule: seq<(nat, Call)>)
    requires Inv(s) && t < |s.pcs| && Spinning(s.pcs[t])
    requires forall k :: 0 <= k < |schedule| ==>
      var r := Continue(s, schedule[..k]); t < |r.pcs| && Spinning(r.pcs[t])
    ensures var r := Continue(s, schedule);
            && Inv(r) && |r.pcs| == |s.pcs| && Outcome(r.pcs[t], r.m) == Outcome(s.pcs[t], s.m)
            && (!Spinning(r.pcs[t]) ==> (r.pcs[t], r.m) == Outcome(s.pcs[t], s.m))
  {
    if schedule != [] {
      var before := schedule[..|schedule| - 1];
      forall k | 0 <= k < |before| ensures schedule[..k] == before[..k] {
      }
      SectionsAreAtomic(s, t, before);
      var r := Continue(s, before);
      var (u, call) := schedule[|schedule| - 1];
      if u < |r.pcs| {
        StepKeepsOutcome(r, t, u, call);
        StepInv(r, u, call);
      }
    }
  }
}
