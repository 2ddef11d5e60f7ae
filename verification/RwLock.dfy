/**
 * The spinlock and the reader-writer lock of kernel/sync/sync.c: any number of threads, every
 * interleaving of their shared-memory accesses, sequentially consistent.
 *
 * `readers++` is a load and a store, so that its atomicity is proved and not assumed.
 */
module RwLock {
  import opened Counting

  /** Where a thread is; `try` marks read_trylock and write_trylock. */
  datatype Pc =
    | Idle
    | ReadAcquire(try: bool) | ReadCheck(try: bool) | ReadBackoff(try: bool)
    | ReadLoad | ReadStore(seen: int) | ReadDone | Reading
    | ReadUnlock | ReadUnload | ReadUnstore(seen: int) | ReadLeave
    | WriteAcquire(try: bool) | WriteCheckReaders(try: bool) | WriteCheckWriters(try: bool) | WriteBackoff(try: bool)
    | WriteSet | WriteDone | Writing
    | WriteUnlock | WriteClear | WriteLeave

  /** rwlock_t */
  datatype Shared = Shared(lock: bool, readers: int, writers: int)

  datatype State = State(m: Shared, pcs: seq<Pc>)

  /** What an idle thread calls next. */
  datatype Call = Nothing | CallRead(try: bool) | CallWrite(try: bool)

  /** Between a successful compare-and-swap and the store that frees the spinlock. */
  predicate Spinning(pc: Pc) {
    pc.ReadCheck? || pc.ReadBackoff? || pc.ReadLoad? || pc.ReadStore? || pc.ReadDone?
    || pc.ReadUnload? || pc.ReadUnstore? || pc.ReadLeave?
    || pc.WriteCheckReaders? || pc.WriteCheckWriters? || pc.WriteBackoff? || pc.WriteSet? || pc.WriteDone?
    || pc.WriteClear? || pc.WriteLeave?
  }

  /** In a read section, from the increment of `readers` to its decrement. */
  predicate InRead(pc: Pc) {
    pc.ReadDone? || pc.Reading? || pc.ReadUnlock? || pc.ReadUnload? || pc.ReadUnstore?
  }

  predicate InWrite(pc: Pc) {
    pc.WriteDone? || pc.Writing? || pc.WriteUnlock? || pc.WriteClear?
  }

  /** spin_lock: take the lock word and go on, or try again. */
  function Spin(m: Shared, here: Pc, next: Pc): (Pc, Shared) {
    if m.lock then (here, m) else (next, m.(lock := true))
  }

  /** One access to shared memory of a thread at `pc`: where it is afterwards, and the memory. */
  function Access(pc: Pc, m: Shared, call: Call): (Pc, Shared) {
    match pc
    case Idle =>
      (match call
       case Nothing => (pc, m)
       case CallRead(try) => (ReadAcquire(try), m)
       case CallWrite(try) => (WriteAcquire(try), m))
    case ReadAcquire(try) => Spin(m, pc, ReadCheck(try))
    case ReadCheck(try) => (if m.writers != 0 then ReadBackoff(try) else ReadLoad, m)
    case ReadBackoff(try) => (if try then Idle else ReadAcquire(false), m.(lock := false))
    case ReadLoad => (ReadStore(m.readers), m)
    case ReadStore(seen) => (ReadDone, m.(readers := seen + 1))
    case ReadDone => (Reading, m.(lock := false))
    case Reading => (ReadUnlock, m)
    case ReadUnlock => Spin(m, pc, ReadUnload)
    case ReadUnload => (ReadUnstore(m.readers), m)
    case ReadUnstore(seen) => (ReadLeave, m.(readers := seen - 1))
    case ReadLeave => (Idle, m.(lock := false))
    case WriteAcquire(try) => Spin(m, pc, WriteCheckReaders(try))
    case WriteCheckReaders(try) => (if m.readers != 0 then WriteBackoff(try) else WriteCheckWriters(try), m)
    case WriteCheckWriters(try) => (if m.writers != 0 then WriteBackoff(try) else WriteSet, m)
    case WriteBackoff(try) => (if try then Idle else WriteAcquire(false), m.(lock := false))
    case WriteSet => (WriteDone, m.(writers := 1))
    case WriteDone => (Writing, m.(lock := false))
    case Writing => (WriteUnlock, m)
    case WriteUnlock => Spin(m, pc, WriteClear)
    case WriteClear => (WriteLeave, m.(writers := 0))
    case WriteLeave => (Idle, m.(lock := false))
  }

  function Step(s: State, t: nat, call: Call): State
    requires t < |s.pcs|
  {
    var (pc, m) := Access(s.pcs[t], s.m, call);
    State(m, s.pcs[t := pc])
  }

  /** What a thread at this point of its program may rely on. */
  predicate Relies(pc: Pc, m: Shared) {
    match pc
    case ReadLoad => m.writers == 0
    case ReadStore(seen) => m.writers == 0 && seen == m.readers
    case ReadUnstore(seen) => seen == m.readers
    case WriteCheckWriters(_) => m.readers == 0
    case WriteSet => m.readers == 0 && m.writers == 0
    case _ => true
  }

  /** Readers or one writer. */
  predicate Exclusive(m: Shared) {
    0 <= m.readers && 0 <= m.writers <= 1 && (m.writers == 1 ==> m.readers == 0)
  }

  ghost predicate Inv(s: State) {
    && CountIf(s.pcs, Spinning) == One(s.m.lock)
    && CountIf(s.pcs, InRead) == s.m.readers
    && CountIf(s.pcs, InWrite) == s.m.writers
    && Exclusive(s.m)
    && forall i :: 0 <= i < |s.pcs| ==> Relies(s.pcs[i], s.m)
  }

  /** rwlock_init with every thread outside. */
  function Init(n: nat): State {
    State(Shared(false, 0, 0), seq(n, _ => Idle))
  }

  lemma InitInv(n: nat)
    ensures Inv(Init(n))
  {
    CountNone(Init(n).pcs, Spinning);
    CountNone(Init(n).pcs, InRead);
    CountNone(Init(n).pcs, InWrite);
  }

  /** The memory agrees with what it says about this one thread. */
  predicate Agrees(pc: Pc, m: Shared) {
    && Exclusive(m) && Relies(pc, m)
    && (Spinning(pc) ==> m.lock)
    && (InRead(pc) ==> m.readers >= 1) && (InWrite(pc) ==> m.writers == 1)
  }

  /** One access moves the words of the lock exactly as the thread moves in and out of its sections. */
  lemma AccessMovesLock(pc: Pc, m: Shared, call: Call)
    requires Agrees(pc, m)
    ensures var (pc', m') := Access(pc, m, call);
            && One(m'.lock) == One(m.lock) - One(Spinning(pc)) + One(Spinning(pc'))
            && (!Spinning(pc) ==> m'.readers == m.readers && m'.writers == m.writers)
  {
  }

  lemma AccessMovesCounts(pc: Pc, m: Shared, call: Call)
    requires Agrees(pc, m)
    ensures var (pc', m') := Access(pc, m, call);
            && m'.readers == m.readers - One(InRead(pc)) + One(InRead(pc'))
            && m'.writers == m.writers - One(InWrite(pc)) + One(InWrite(pc'))
  {
  }

  lemma AccessKeepsReliance(pc: Pc, m: Shared, call: Call)
    requires Agrees(pc, m)
    ensures var (pc', m') := Access(pc, m, call); Exclusive(m') && Relies(pc', m')
  {
  }

  lemma InsideCounts(s: State, t: nat)
    requires Inv(s) && t < |s.pcs|
    ensures Agrees(s.pcs[t], s.m)
  {
    CountPositive(s.pcs, Spinning);
    CountPositive(s.pcs, InRead);
    CountPositive(s.pcs, InWrite);
  }

  lemma StepInv(s: State, t: nat, call: Call)
    requires Inv(s) && t < |s.pcs|
    ensures Inv(Step(s, t, call)) && |Step(s, t, call).pcs| == |s.pcs|
  {
    InsideCounts(s, t);
    AccessMovesLock(s.pcs[t], s.m, call);
    AccessMovesCounts(s.pcs[t], s.m, call);
    AccessKeepsReliance(s.pcs[t], s.m, call);
    hide Access;
    var (pc, m) := Access(s.pcs[t], s.m, call);
    CountUpdate(s.pcs, Spinning, t, pc);
    CountUpdate(s.pcs, InRead, t, pc);
    CountUpdate(s.pcs, InWrite, t, pc);
    forall i | 0 <= i < |s.pcs| && i != t ensures Relies(s.pcs[i], m) {
      // Only the holder of the spinlock writes the counts.
      assert Relies(s.pcs[i], s.m);
      if Spinning(s.pcs[t]) && Spinning(s.pcs[i]) {
        AtMostOne(s.pcs, Spinning, t, i);
      }
    }
  }

  /** A schedule says which thread moves, and what it calls if it is idle. */
  function Run(n: nat, schedule: seq<(nat, Call)>): State {
    if schedule == [] then Init(n)
    else
      var s := Run(n, schedule[..|schedule| - 1]);
      var (t, call) := schedule[|schedule| - 1];
      if t < |s.pcs| then Step(s, t, call) else s
  }

  lemma {:induction false} RunInv(n: nat, schedule: seq<(nat, Call)>)
    ensures Inv(Run(n, schedule)) && |Run(n, schedule).pcs| == n
  {
    if schedule == [] {
      InitInv(n);
    } else {
      hide Step;
      RunInv(n, schedule[..|schedule| - 1]);
      if schedule[|schedule| - 1].0 < n {
        StepInv(Run(n, schedule[..|schedule| - 1]), schedule[|schedule| - 1].0, schedule[|schedule| - 1].1);
      }
    }
  }

  /**
   * In every state of every run: `readers` is the number of threads in a read section, `writers` is 1
   * exactly when one is in a write section, a writer never coexists with a reader or another
   * writer, and the spinlock has at most one holder.
   */
  lemma Safety(n: nat, schedule: seq<(nat, Call)>, i: nat, j: nat)
    requires i < n && j < n && i != j
    ensures var s := Run(n, schedule);
            && |s.pcs| == n
            && s.m.readers == CountIf(s.pcs, InRead)
            && (s.m.writers == 1 <==> exists k :: 0 <= k < n && InWrite(s.pcs[k])) && 0 <= s.m.writers <= 1
            && (InWrite(s.pcs[i]) ==> !InWrite(s.pcs[j]) && !InRead(s.pcs[j]))
            && (Spinning(s.pcs[i]) ==> !Spinning(s.pcs[j]))
  {
    RunInv(n, schedule);
    var s := Run(n, schedule);
    CountPositive(s.pcs, InWrite);
    InsideCounts(s, i);
    InsideCounts(s, j);
    if InWrite(s.pcs[i]) && InWrite(s.pcs[j]) {
      AtMostOne(s.pcs, InWrite, i, j);
    }
    if Spinning(s.pcs[i]) && Spinning(s.pcs[j]) {
      AtMostOne(s.pcs, Spinning, i, j);
    }
  }

  // ----- What a thread called -----

  /** The last call that thread `t` made in the run. */
  ghost function LastCall(n: nat, schedule: seq<(nat, Call)>, t: nat): Call {
    if schedule == [] then Nothing
    else
      var before := schedule[..|schedule| - 1];
      var (u, call) := schedule[|schedule| - 1];
      if u == t < |Run(n, before).pcs| && Run(n, before).pcs[t].Idle? && call != Nothing then call
      else LastCall(n, before, t)
  }

  /** Where a thread can be after this call, until its next one. */
  predicate Serves(pc: Pc, call: Call) {
    match pc
    case Idle => true
    case ReadAcquire(try) => call == CallRead(try)
    case ReadCheck(try) => call == CallRead(try)
    case ReadBackoff(try) => call == CallRead(try)
    case WriteAcquire(try) => call == CallWrite(try)
    case WriteCheckReaders(try) => call == CallWrite(try)
    case WriteCheckWriters(try) => call == CallWrite(try)
    case WriteBackoff(try) => call == CallWrite(try)
    case WriteSet => call.CallWrite?
    case WriteDone => call.CallWrite?
    case Writing => call.CallWrite?
    case WriteUnlock => call.CallWrite?
    case WriteClear => call.CallWrite?
    case WriteLeave => call.CallWrite?
    case _ => call.CallRead?
  }

  lemma AccessServes(pc: Pc, m: Shared, call: Call, last: Call)
    requires Serves(pc, last)
    ensures Serves(Access(pc, m, call).0, if pc.Idle? && call != Nothing then call else last)
  {
  }

  /** In every run every thread is where its last call leads. */
  lemma {:induction false} ThreadsServeTheirCalls(n: nat, schedule: seq<(nat, Call)>, t: nat)
    requires t < n
    ensures |Run(n, schedule).pcs| == n && Serves(Run(n, schedule).pcs[t], LastCall(n, schedule, t))
  {
    RunInv(n, schedule);
    if schedule != [] {
      var before := schedule[..|schedule| - 1];
      ThreadsServeTheirCalls(n, before, t);
      var s := Run(n, before);
      AccessServes(s.pcs[t], s.m, schedule[|schedule| - 1].1, LastCall(n, before, t));
      hide Access, Serves;
    }
  }

  /** The thread has returned from read_lock or write_lock, or with success from a try, and not unlocked. */
  predicate Returned(pc: Pc) {
    pc.Reading? || pc.Writing?
  }

  /**
   * In every run a thread that has returned from write_lock excludes every other thread that has returned
   * from read_lock or write_lock, and those that hold it together all called read_lock.
   */
  lemma WriteLockExcludes(n: nat, schedule: seq<(nat, Call)>, i: nat, j: nat)
    requires i < n && j < n && i != j
    ensures var s := Run(n, schedule);
            && |s.pcs| == n
            && (Returned(s.pcs[i]) && LastCall(n, schedule, i).CallWrite? ==> !Returned(s.pcs[j]) && s.m.readers == 0)
            && (Returned(s.pcs[i]) && Returned(s.pcs[j]) ==>
                  LastCall(n, schedule, i).CallRead? && LastCall(n, schedule, j).CallRead?)
  {
    Safety(n, schedule, i, j);
    RunInv(n, schedule);
    InsideCounts(Run(n, schedule), i);
    ThreadsServeTheirCalls(n, schedule, i);
    ThreadsServeTheirCalls(n, schedule, j);
    hide Run, LastCall;
  }

  // ----- The spinlock is held for a bounded number of steps -----

  /** An upper bound on the steps a holder of the spinlock still takes before it frees it. */
  function StepsLeft(pc: Pc): nat {
    match pc
    case ReadCheck(_) => 4
    case ReadLoad => 3
    case ReadStore(_) => 2
    case ReadUnload => 3
    case ReadUnstore(_) => 2
    case WriteCheckReaders(_) => 4
    case WriteCheckWriters(_) => 3
    case WriteSet => 2
    case WriteClear => 2
    case _ => if Spinning(pc) then 1 else 0
  }

  /** No holder waits: each of its steps brings it closer to freeing the spinlock, after at most four. */
  lemma HolderNeverWaits(s: State, t: nat, call: Call)
    requires Inv(s) && t < |s.pcs| && Spinning(s.pcs[t])
    ensures var s' := Step(s, t, call);
            && s.m.lock && 1 <= StepsLeft(s.pcs[t]) <= 4 && StepsLeft(s'.pcs[t]) < StepsLeft(s.pcs[t])
            && (StepsLeft(s'.pcs[t]) == 0 <==> !s'.m.lock)
  {
    InsideCounts(s, t);
  }

  // ----- Critical sections are atomic -----

  /** Where a holder of the spinlock ends up, and what it leaves behind, if nobody interferes. */
  function Outcome(pc: Pc, m: Shared): (Pc, Shared)
    decreases StepsLeft(pc)
  {
    if !Spinning(pc) then (pc, m)
    else
      var (pc', m') := Access(pc, m, Nothing);
      Outcome(pc', m')
  }

  lemma OutcomeNext(pc: Pc, m: Shared, pc': Pc, m': Shared)
    requires Spinning(pc) && Access(pc, m, Nothing) == (pc', m')
    ensures Outcome(pc, m) == Outcome(pc', m')
    ensures !Spinning(pc') ==> Outcome(pc, m) == (pc', m')
  {
    hide Access;
  }

  /** read_lock and read_trylock as wholes: a writer keeps both out, and only read_trylock gives up. */
  lemma OutcomeOfRead(m: Shared, try: bool)
    ensures Outcome(ReadCheck(try), m) ==
            if m.writers != 0 then (if try then Idle else ReadAcquire(false), m.(lock := false))
            else (Reading, m.(lock := false, readers := m.readers + 1))
  {
    hide Outcome;
    if m.writers != 0 {
      OutcomeNext(ReadCheck(try), m, ReadBackoff(try), m);
      OutcomeNext(ReadBackoff(try), m, if try then Idle else ReadAcquire(false), m.(lock := false));
    } else {
      var m' := m.(readers := m.readers + 1);
      OutcomeNext(ReadCheck(try), m, ReadLoad, m);
      OutcomeNext(ReadLoad, m, ReadStore(m.readers), m);
      OutcomeNext(ReadStore(m.readers), m, ReadDone, m');
      OutcomeNext(ReadDone, m', Reading, m'.(lock := false));
    }
  }

  /** write_lock and write_trylock as wholes: any reader or writer keeps both out, and only write_trylock gives up. */
  lemma OutcomeOfWrite(m: Shared, try: bool)
    ensures Outcome(WriteCheckReaders(try), m) ==
            if m.readers != 0 || m.writers != 0 then (if try then Idle else WriteAcquire(false), m.(lock := false))
            else (Writing, m.(lock := false, writers := 1))
  {
    hide Outcome;
    if m.readers != 0 || m.writers != 0 {
      if m.readers != 0 {
        OutcomeNext(WriteCheckReaders(try), m, WriteBackoff(try), m);
      } else {
        OutcomeNext(WriteCheckReaders(try), m, WriteCheckWriters(try), m);
        OutcomeNext(WriteCheckWriters(try), m, WriteBackoff(try), m);
      }
      OutcomeNext(WriteBackoff(try), m, if try then Idle else WriteAcquire(false), m.(lock := false));
    } else {
      var m' := m.(writers := 1);
      OutcomeNext(WriteCheckReaders(try), m, WriteCheckWriters(try), m);
      OutcomeNext(WriteCheckWriters(try), m, WriteSet, m);
      OutcomeNext(WriteSet, m, WriteDone, m');
      OutcomeNext(WriteDone, m', Writing, m'.(lock := false));
    }
  }

  /** read_unlock as a whole: one reader less. */
  lemma OutcomeOfReadUnlock(m: Shared)
    ensures Outcome(ReadUnload, m) == (Idle, m.(lock := false, readers := m.readers - 1))
  {
    hide Outcome;
    var m' := m.(readers := m.readers - 1);
    OutcomeNext(ReadUnload, m, ReadUnstore(m.readers), m);
    OutcomeNext(ReadUnstore(m.readers), m, ReadLeave, m');
    OutcomeNext(ReadLeave, m', Idle, m'.(lock := false));
  }

  /** write_unlock as a whole: no writer. */
  lemma OutcomeOfWriteUnlock(m: Shared)
    ensures Outcome(WriteClear, m) == (Idle, m.(lock := false, writers := 0))
  {
    hide Outcome;
    var m' := m.(writers := 0);
    OutcomeNext(WriteClear, m, WriteLeave, m');
    OutcomeNext(WriteLeave, m', Idle, m'.(lock := false));
  }

  /** A thread that makes a call and goes on alone, for a number of steps. */
  function Alone(pc: Pc, m: Shared, call: Call, steps: nat): (Pc, Shared)
    decreases steps
  {
    if steps == 0 then (pc, m)
    else
      var (pc', m') := Access(pc, m, call);
      Alone(pc', m', Nothing, steps - 1)
  }

  /** Within six steps alone it comes to `end`. */
  ghost predicate ComesTo(pc: Pc, m: Shared, call: Call, end: (Pc, Shared)) {
    exists k: nat :: k <= 6 && Alone(pc, m, call, k) == end
  }

  lemma {:induction false} AloneToOutcome(pc: Pc, m: Shared) returns (k: nat)
    requires Spinning(pc)
    ensures k <= 4 && k <= StepsLeft(pc) && Alone(pc, m, Nothing, k) == Outcome(pc, m)
    decreases StepsLeft(pc)
  {
    var (pc', m') := Access(pc, m, Nothing);
    if Spinning(pc') {
      k := AloneToOutcome(pc', m');
      k := k + 1;
    } else {
      k := 1;
      assert Alone(pc', m', Nothing, 0) == (pc', m');
      assert Outcome(pc', m') == (pc', m');
    }
  }

  /** Two steps to the spinlock, and on to the outcome of the section. */
  lemma ThroughSpinlock(pc: Pc, m: Shared, call: Call, here: Pc, next: Pc)
    requires Access(pc, m, call) == (here, m) && Access(here, m, Nothing) == (next, m.(lock := true)) && Spinning(next)
    ensures ComesTo(pc, m, call, Outcome(next, m.(lock := true)))
  {
    var held := m.(lock := true);
    var k := AloneToOutcome(next, held);
    hide Access, Outcome;
    assert Alone(here, m, Nothing, k + 1) == Outcome(next, held);
    assert Alone(pc, m, call, k + 2) == Outcome(next, held);
  }

  /** read_lock and read_trylock on a free spinlock: without a writer both get the lock, else they wait or give up. */
  lemma ReadLockAlone(m: Shared, try: bool)
    requires !m.lock
    ensures ComesTo(Idle, m, CallRead(try),
                    if m.writers == 0 then (Reading, m.(readers := m.readers + 1))
                    else (if try then Idle else ReadAcquire(false), m))
  {
    ThroughSpinlock(Idle, m, CallRead(try), ReadAcquire(try), ReadCheck(try));
    OutcomeOfRead(m.(lock := true), try);
    hide ComesTo, Outcome;
  }

  /** write_lock and write_trylock on a free spinlock: any reader or writer keeps both out. */
  lemma WriteLockAlone(m: Shared, try: bool)
    requires !m.lock
    ensures ComesTo(Idle, m, CallWrite(try),
                    if m.readers == 0 && m.writers == 0 then (Writing, m.(writers := 1))
                    else (if try then Idle else WriteAcquire(false), m))
  {
    ThroughSpinlock(Idle, m, CallWrite(try), WriteAcquire(try), WriteCheckReaders(try));
    OutcomeOfWrite(m.(lock := true), try);
    hide ComesTo, Outcome;
  }

  /** read_unlock and write_unlock on a free spinlock. */
  lemma UnlockAlone(m: Shared)
    requires !m.lock
    ensures ComesTo(Reading, m, Nothing, (Idle, m.(readers := m.readers - 1)))
    ensures ComesTo(Writing, m, Nothing, (Idle, m.(writers := 0)))
  {
    ThroughSpinlock(Reading, m, Nothing, ReadUnlock, ReadUnload);
    OutcomeOfReadUnlock(m.(lock := true));
    ThroughSpinlock(Writing, m, Nothing, WriteUnlock, WriteClear);
    OutcomeOfWriteUnlock(m.(lock := true));
    hide ComesTo, Outcome;
  }

  /** In read_lock behind a writer, or in write_lock behind anyone. */
  predicate KeptOut(pc: Pc, m: Shared) {
    match pc
    case ReadAcquire(try) => !try && m.writers != 0
    case ReadCheck(try) => !try && m.writers != 0
    case ReadBackoff(try) => !try && m.writers != 0
    case WriteAcquire(try) => !try && (m.readers != 0 || m.writers != 0)
    case WriteCheckReaders(try) => !try && (m.readers != 0 || m.writers != 0)
    case WriteCheckWriters(try) => !try && m.writers != 0
    case WriteBackoff(try) => !try && (m.readers != 0 || m.writers != 0)
    case _ => false
  }

  /** Until somebody unlocks, it does not return, however long it goes on. */
  lemma {:induction false} KeptOutForEver(pc: Pc, m: Shared, steps: nat)
    requires KeptOut(pc, m)
    ensures var (pc', m') := Alone(pc, m, Nothing, steps);
            KeptOut(pc', m') && !Returned(pc') && !pc'.Idle? && m'.readers == m.readers && m'.writers == m.writers
    decreases steps
  {
    if steps > 0 {
      var (pc', m') := Access(pc, m, Nothing);
      KeptOutForEver(pc', m', steps - 1);
    }
  }

  /** A step of any thread leaves the outcome of the holder's section as it was. */
  lemma StepKeepsOutcome(s: State, t: nat, u: nat, call: Call)
    requires Inv(s) && t < |s.pcs| && u < |s.pcs| && Spinning(s.pcs[t])
    ensures var s' := Step(s, u, call);
            Outcome(s'.pcs[t], s'.m) == Outcome(s.pcs[t], s.m)
  {
    InsideCounts(s, t);
    InsideCounts(s, u);
    if u != t {
      AccessMovesLock(s.pcs[u], s.m, call);
      if Spinning(s.pcs[u]) {
        AtMostOne(s.pcs, Spinning, t, u);
      }
      assert Step(s, u, call).m == s.m;
    }
  }

  /** The state after more steps. */
  function Continue(s: State, schedule: seq<(nat, Call)>): State {
    if schedule == [] then s
    else
      var r := Continue(s, schedule[..|schedule| - 1]);
      var (t, call) := schedule[|schedule| - 1];
      if t < |r.pcs| then Step(r, t, call) else r
  }

  /**
   * Atomicity: however the steps of the other threads fall between those of a holder of the
   * spinlock, when it frees the spinlock the result is that of running its section alone.
   */
  lemma {:induction false} SectionsAreAtomic(s: State, t: nat, schedule: seq<(nat, Call)>)
    requires Inv(s) && t < |s.pcs| && Spinning(s.pcs[t])
    requires forall k :: 0 <= k < |schedule| ==>
      var r := Continue(s, schedule[..k]); t < |r.pcs| && Spinning(r.pcs[t])
    ensures var r := Continue(s, schedule);
            && Inv(r) && |r.pcs| == |s.pcs| && Outcome(r.pcs[t], r.m) == Outcome(s.pcs[t], s.m)
            && (!Spinning(r.pcs[t]) ==> (r.pcs[t], r.m) == Outcome(s.pcs[t], s.m))
  {
    if schedule != [] {
      var before := schedule[..|schedule| - 1];
      forall k | 0 <= k < |before| ensures schedule[..k] == before[..k] {
      }
      SectionsAreAtomic(s, t, before);
      var r := Continue(s, before);
      var (u, call) := schedule[|schedule| - 1];
      if u < |r.pcs| {
        StepKeepsOutcome(r, t, u, call);
        StepInv(r, u, call);
      }
    }
  }
}
