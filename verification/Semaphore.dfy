/** The counting semaphore of kernel/sync/sync.c: its 32-bit count under every interleaving. */
module Semaphore {
  import opened Prelude

  const INT_MAX: int := 0x7FFF_FFFF
  const TWO_32: int := 0x1_0000_0000

  /** 32-bit signed wrap-around. */
  function Signed32(x: int): (r: int)
    ensures -INT_MAX - 1 <= r <= INT_MAX
  {
    (x + INT_MAX + 1) % TWO_32 - INT_MAX - 1
  }

  /** `seen` is what atomic_read returned; `try` marks sem_trywait. */
  datatype Pc = Idle | Read(try: bool) | Swap(try: bool, seen: int)

  /** The count, and how many posts were made and waits completed. */
  datatype State = State(count: int, posts: nat, waits: nat, pcs: seq<Pc>)

  datatype Call = Nothing | Post | Wait(try: bool)

  function Goto(s: State, t: nat, pc: Pc): State
    requires t < |s.pcs|
  {
    s.(pcs := s.pcs[t := pc])
  }

  /** One access of thread `t` to the count. */
  function Step(s: State, t: nat, call: Call): State
    requires t < |s.pcs|
  {
    match s.pcs[t]
    case Idle =>
      (match call
       case Nothing => s
       case Post => s.(count := Signed32(s.count + 1), posts := s.posts + 1)
       case Wait(try) => Goto(s, t, Read(try)))
    case Read(try) =>
      if s.count > 0 then Goto(s, t, Swap(try, s.count))
      else if try then Goto(s, t, Idle) else s
    case Swap(try, seen) =>
      if s.count == seen then Goto(s, t, Idle).(count := Signed32(seen - 1), waits := s.waits + 1)
      else Goto(s, t, Read(try))
  }

  /** What the count stands for. */
  function Balance(initial: int, s: State): int {
    initial + s.posts - s.waits
  }

  ghost predicate Inv(initial: int, s: State) {
    && s.count == Signed32(Balance(initial, s))
    && Min(initial, 0) <= Balance(initial, s)
    && forall i :: 0 <= i < |s.pcs| && s.pcs[i].Swap? ==> s.pcs[i].seen > 0
  }

  lemma Signed32IsIdentity(x: int)
    ensures Signed32(x) == x <==> -INT_MAX - 1 <= x <= INT_MAX
  {
  }

  lemma Signed32Sum(x: int, d: int)
    requires -1 <= d <= 1
    ensures Signed32(Signed32(x) + d) == Signed32(x + d)
  {
    var q := (x + INT_MAX + 1) / TWO_32;
    assert Signed32(x) == x - q * TWO_32;
    SameResidue(Signed32(x) + d + INT_MAX + 1, x + d + INT_MAX + 1, q);
  }

  lemma SameResidue(a: int, b: int, q: int)
    requires b == a + q * TWO_32
    ensures a % TWO_32 == b % TWO_32
  {
  }

  lemma StepInv(initial: int, s: State, t: nat, call: Call)
    requires -INT_MAX - 1 <= initial && Inv(initial, s) && t < |s.pcs|
    ensures Inv(initial, Step(s, t, call)) && |Step(s, t, call).pcs| == |s.pcs|
  {
    Signed32Sum(Balance(initial, s), 1);
    Signed32Sum(Balance(initial, s), -1);
    Signed32IsIdentity(Balance(initial, s));
  }

  /** sem_wait returns only by taking one, sem_trywait also when it finds none left to take. */
  lemma WaitReturnsWithOne(s: State, t: nat, call: Call)
    requires t < |s.pcs| && !s.pcs[t].Idle?
    ensures var s' := Step(s, t, call);
            && s'.posts == s.posts && s.waits <= s'.waits <= s.waits + 1
            && (s'.waits == s.waits + 1 ==> s'.pcs[t].Idle? && s'.count == Signed32(s.count - 1))
            && (s'.waits == s.waits ==> s'.count == s.count && (s'.pcs[t].Idle? <==> s.pcs[t] == Read(true) && s.count <= 0))
  {
  }

  /** sem_init and then any schedule. */
  function Run(initial: int, n: nat, schedule: seq<(nat, Call)>): State {
    if schedule == [] then State(initial, 0, 0, seq(n, _ => Idle))
    else
      var s := Run(initial, n, schedule[..|schedule| - 1]);
      var (t, call) := schedule[|schedule| - 1];
      if t < |s.pcs| then Step(s, t, call) else s
  }

  lemma {:induction false} RunInv(initial: int, n: nat, schedule: seq<(nat, Call)>)
    requires -INT_MAX - 1 <= initial <= INT_MAX
    ensures Inv(initial, Run(initial, n, schedule)) && |Run(initial, n, schedule).pcs| == n
  {
    if schedule == [] {
      Signed32IsIdentity(initial);
    } else {
      RunInv(initial, n, schedule[..|schedule| - 1]);
      var s := Run(initial, n, schedule[..|schedule| - 1]);
      if schedule[|schedule| - 1].0 < n {
        StepInv(initial, s, schedule[|schedule| - 1].0, schedule[|schedule| - 1].1);
      }
    }
  }

  /**
   * In every state of every run the count equals initial + posts - completed waits if and only if
   * that number fits in 32 bits; waits never outnumber what was there to take; and a count that
   * starts at zero or above stays there while the number fits.
   */
  lemma Conservation(initial: int, n: nat, schedule: seq<(nat, Call)>)
    requires -INT_MAX - 1 <= initial <= INT_MAX
    ensures var s := Run(initial, n, schedule);
            && (s.count == initial + s.posts - s.waits <==> initial + s.posts - s.waits <= INT_MAX)
            && s.waits <= Max(initial, 0) + s.posts
            && (0 <= initial && initial + s.posts - s.waits <= INT_MAX ==> 0 <= s.count)
  {
    RunInv(initial, n, schedule);
    Signed32IsIdentity(Balance(initial, Run(initial, n, schedule)));
  }

  // ----- When the count never goes below zero -----

  /** The count is never negative during the run. */
  ghost predicate NeverNegative(initial: int, n: nat, schedule: seq<(nat, Call)>) {
    forall k :: 0 <= k <= |schedule| ==> 0 <= Run(initial, n, schedule[..k]).count
  }

  /** What the count stands for never exceeds 32 bits during the run. */
  ghost predicate NeverTooMany(initial: int, n: nat, schedule: seq<(nat, Call)>) {
    forall k :: 0 <= k <= |schedule| ==> Balance(initial, Run(initial, n, schedule[..k])) <= INT_MAX
  }

  /** The step is a post at the largest 32-bit number. */
  predicate PostAtMax(s: State, step: (nat, Call)) {
    step.0 < |s.pcs| && s.pcs[step.0].Idle? && step.1.Post? && s.count == INT_MAX
  }

  ghost predicate NoPostAtMax(initial: int, n: nat, schedule: seq<(nat, Call)>) {
    forall k :: 0 <= k < |schedule| ==> !PostAtMax(Run(initial, n, schedule[..k]), schedule[k])
  }

  /** A step from a count that is right: it stays so, and non-negative, exactly without a post at the maximum. */
  lemma StepIff(initial: int, s: State, t: nat, call: Call)
    requires 0 <= initial && Inv(initial, s) && Balance(initial, s) <= INT_MAX && t < |s.pcs|
    ensures var s' := Step(s, t, call);
            && (0 <= s'.count <==> !PostAtMax(s, (t, call)))
            && (Balance(initial, s') <= INT_MAX <==> !PostAtMax(s, (t, call)))
  {
    Signed32IsIdentity(Balance(initial, s));
    StepInv(initial, s, t, call);
    Signed32IsIdentity(Balance(initial, Step(s, t, call)));
  }

  lemma Prefixes<T>(s: seq<T>)
    requires s != []
    ensures forall k :: 0 <= k < |s| ==> s[..|s| - 1][..k] == s[..k]
    ensures s[..|s|] == s
  {
  }

  /**
   * The exact condition: starting from zero or more, the count never goes below zero if and only if
   * initial + posts - completed waits always fits, that is, if no post is made at the largest number.
   */
  lemma {:induction false} NeverNegativeIff(initial: int, n: nat, schedule: seq<(nat, Call)>)
    requires 0 <= initial <= INT_MAX
    ensures NeverNegative(initial, n, schedule) <==> NeverTooMany(initial, n, schedule)
    ensures NeverNegative(initial, n, schedule) <==> NoPostAtMax(initial, n, schedule)
    decreases |schedule|
  {
    if schedule == [] {
      assert forall k :: 0 <= k <= |schedule| ==> schedule[..k] == [];
    } else {
      var before, last := schedule[..|schedule| - 1], schedule[|schedule| - 1];
      Prefixes(schedule);
      NeverNegativeIff(initial, n, before);
      RunInv(initial, n, before);
      var s := Run(initial, n, before);
      hide Inv, Signed32, PostAtMax, Balance;
      Extended(initial, n, schedule);
      if NeverNegative(initial, n, before) {
        assert before[..|before|] == before;
        assert Balance(initial, s) <= INT_MAX;
        if last.0 < n {
          StepIff(initial, s, last.0, last.1);
        } else {
          StillIff(initial, s, last);
        }
      }
    }
  }

  lemma StillIff(initial: int, s: State, step: (nat, Call))
    requires 0 <= initial && Inv(initial, s) && Balance(initial, s) <= INT_MAX && |s.pcs| <= step.0
    ensures 0 <= s.count && !PostAtMax(s, step)
  {
    Signed32IsIdentity(Balance(initial, s));
  }

  /** The three conditions on a run, by its last step. */
  lemma Extended(initial: int, n: nat, schedule: seq<(nat, Call)>)
    requires schedule != []
    ensures var before, last := schedule[..|schedule| - 1], schedule[|schedule| - 1];
            var s, s' := Run(initial, n, before), Run(initial, n, schedule);
            && (NeverNegative(initial, n, schedule) <==> NeverNegative(initial, n, before) && 0 <= s'.count)
            && (NeverTooMany(initial, n, schedule) <==> NeverTooMany(initial, n, before) && Balance(initial, s') <= INT_MAX)
            && (NoPostAtMax(initial, n, schedule) <==> NoPostAtMax(initial, n, before) && !PostAtMax(s, last))
  {
    Prefixes(schedule);
    var before := schedule[..|schedule| - 1];
    hide Run, Balance, PostAtMax;
    assert forall k :: 0 <= k <= |before| ==> before[..k] == schedule[..k];
    assert forall k :: 0 <= k < |before| ==> before[k] == schedule[k];
    assert schedule[..|schedule|] == schedule && schedule[..|before|] == before;
  }

  /** Past the largest 32-bit number the count turns negative: one more sem_post and every wait blocks. */
  lemma OverflowExample()
    ensures Run(INT_MAX, 1, [(0, Post)]).count == -INT_MAX - 1
  {
    assert [(0, Post)][..0] == [];
    assert Run(INT_MAX, 1, [(0, Post)]) == Step(Run(INT_MAX, 1, []), 0, Post);
  }

  // ----- What a thread called -----

  /** The last call that thread `t` made in the run. */
  ghost function LastCall(initial: int, n: nat, schedule: seq<(nat, Call)>, t: nat): Call {
    if schedule == [] then Nothing
    else
      var before := schedule[..|schedule| - 1];
      var (u, call) := schedule[|schedule| - 1];
      if u == t < |Run(initial, n, before).pcs| && Run(initial, n, before).pcs[t].Idle? && call != Nothing then call
      else LastCall(initial, n, before, t)
  }

  /** Where a thread can be after this call, until its next one. */
  predicate Serves(pc: Pc, call: Call) {
    !pc.Idle? ==> call == Wait(pc.try)
  }

  /** In every run every thread is where its last call leads. */
  lemma {:induction false} ThreadsServeTheirCalls(initial: int, n: nat, schedule: seq<(nat, Call)>, t: nat)
    requires -INT_MAX - 1 <= initial <= INT_MAX && t < n
    ensures |Run(initial, n, schedule).pcs| == n
    ensures Serves(Run(initial, n, schedule).pcs[t], LastCall(initial, n, schedule, t))
  {
    RunInv(initial, n, schedule);
    if schedule != [] {
      RunInv(initial, n, schedule[..|schedule| - 1]);
      ThreadsServeTheirCalls(initial, n, schedule[..|schedule| - 1], t);
    }
  }

  /** A step that ends a wait: it took one, or it is of sem_trywait and there was none to take. */
  lemma OnlyTrywaitGivesUp(initial: int, n: nat, schedule: seq<(nat, Call)>, t: nat)
    requires -INT_MAX - 1 <= initial <= INT_MAX && t < n
    ensures var s := Run(initial, n, schedule);
            && |s.pcs| == n
            && (!s.pcs[t].Idle? ==>
                  var s' := Step(s, t, Nothing);
                  s'.pcs[t].Idle? ==>
                    || (s'.waits == s.waits + 1 && s.count > 0 && s'.count == s.count - 1)
                    || (s' == s.(pcs := s'.pcs) && s.count <= 0 && LastCall(initial, n, schedule, t) == Wait(true)))
  {
    RunInv(initial, n, schedule);
    ThreadsServeTheirCalls(initial, n, schedule, t);
    var s := Run(initial, n, schedule);
    Signed32IsIdentity(s.count - 1);
  }

  /** The number of sem_post calls that idle threads have made. */
  ghost function PostsMade(initial: int, n: nat, schedule: seq<(nat, Call)>): nat {
    if schedule == [] then 0
    else
      var s := Run(initial, n, schedule[..|schedule| - 1]);
      var (t, call) := schedule[|schedule| - 1];
      PostsMade(initial, n, schedule[..|schedule| - 1]) + if t < |s.pcs| && s.pcs[t].Idle? && call.Post? then 1 else 0
  }

  /** Every sem_post called counts at once. */
  lemma {:induction false} EveryPostCounts(initial: int, n: nat, schedule: seq<(nat, Call)>)
    ensures Run(initial, n, schedule).posts == PostsMade(initial, n, schedule)
  {
    if schedule != [] {
      EveryPostCounts(initial, n, schedule[..|schedule| - 1]);
    }
  }

  // ----- Calls alone -----

  /** sem_post adds one; sem_wait and sem_trywait, alone with a positive count, return with one. */
  lemma CallsAlone(s: State, t: nat, try: bool)
    requires t < |s.pcs| && s.pcs[t].Idle? && -INT_MAX - 1 <= s.count <= INT_MAX
    ensures s.count < INT_MAX ==> Step(s, t, Post) == s.(count := s.count + 1, posts := s.posts + 1)
    ensures var s3 := Step(Step(Step(s, t, Wait(try)), t, Nothing), t, Nothing);
            s.count > 0 ==> s3 == s.(count := s.count - 1, waits := s.waits + 1)
  {
    Signed32IsIdentity(s.count + 1);
    Signed32IsIdentity(s.count - 1);
    var s1 := Step(s, t, Wait(try));
    if s.count > 0 {
      var s2 := Step(s1, t, Nothing);
      assert s2.pcs == s.pcs[t := Swap(try, s.count)];
      assert Step(s2, t, Nothing).pcs == s.pcs;
    }
  }

  /** With none to take, sem_trywait gives up and sem_wait goes on waiting. */
  lemma NoneToTakeAlone(s: State, t: nat, try: bool)
    requires t < |s.pcs| && s.pcs[t].Idle? && s.count <= 0
    ensures var s1 := Step(s, t, Wait(try));
            && s1 == s.(pcs := s.pcs[t := Read(try)])
            && Step(s1, t, Nothing) == if try then s else s1
  {
    assert s.pcs[t := Read(try)][t := Idle] == s.pcs;
  }
}
