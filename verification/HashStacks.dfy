/**
 * What the hash table of kernel/lib/datastructures.c is over runs with removes: for each key a stack of
 * values, its live copies in probe order. get reads the top, put replaces it or pushes, remove pops.
 */
module HashStacks {
  import opened Prelude
  import opened HashTableSpec

  /** The values of the live copies of `k` from step d of its probe on. */
  function Stack(h: Hash, t: Table, k: nat, d: nat): seq<nat>
    decreases |t.entries| - d
  {
    if d >= |t.entries| then []
    else if LiveKey(At(h, t, k, d), k) then [At(h, t, k, d).value] + Stack(h, t, k, d + 1)
    else Stack(h, t, k, d + 1)
  }

  lemma {:induction false} NearestIsTop(h: Hash, t: Table, k: nat, d: nat)
    requires |t.entries| > 0
    ensures Nearest(h, t, k, d).Some? <==> Stack(h, t, k, d) != []
    ensures Nearest(h, t, k, d).Some? ==>
              Stack(h, t, k, d) == [At(h, t, k, Nearest(h, t, k, d).value).value] + Stack(h, t, k, Nearest(h, t, k, d).value + 1)
    decreases |t.entries| - d
  {
    if d < |t.entries| && !LiveKey(At(h, t, k, d), k) {
      NearestIsTop(h, t, k, d + 1);
    }
  }

  /** hash_get reads the top. */
  lemma GetIsTop(h: Hash, t: Table, k: nat)
    requires Inv(h, t)
    ensures Get(h, t, k) == if Stack(h, t, k, 0) == [] then None else Some(Stack(h, t, k, 0)[0])
  {
    FindIsNearest(h, t, k, 0);
    NearestIsTop(h, t, k, 0);
  }

  /** A change at a slot that is no live copy of `k`, before and after. */
  lemma {:induction false} StackElsewhere(h: Hash, t: Table, t': Table, p: nat, k: nat, d: nat)
    requires p < |t.entries| == |t'.entries| && t'.entries == t.entries[p := t'.entries[p]]
    requires !LiveKey(t.entries[p], k) && !LiveKey(t'.entries[p], k)
    ensures Stack(h, t', k, d) == Stack(h, t, k, d)
    decreases |t.entries| - d
  {
    if d < |t.entries| {
      StackElsewhere(h, t, t', p, k, d + 1);
    }
  }

  /** A change at an earlier step of the probe. */
  lemma {:induction false} StackBehind(h: Hash, t: Table, t': Table, n: nat, k: nat, d: nat)
    requires n < |t.entries| == |t'.entries| && n < d
    requires var p := Pos(h, |t.entries|, k, n); t'.entries == t.entries[p := t'.entries[p]]
    ensures Stack(h, t', k, d) == Stack(h, t, k, d)
    decreases |t.entries| - d
  {
    if d < |t.entries| {
      PosInjective(h, |t.entries|, k, n, d);
      StackBehind(h, t, t', n, k, d + 1);
    }
  }

  /** Steps without a live copy do not show. */
  lemma {:induction false} StackFrom(h: Hash, t: Table, k: nat, d: nat, n: nat)
    requires d <= n <= |t.entries| && forall e: nat :: d <= e < n ==> !LiveKey(At(h, t, k, e), k)
    ensures Stack(h, t, k, d) == Stack(h, t, k, n)
    decreases n - d
  {
    if d < n {
      StackFrom(h, t, k, d + 1, n);
    }
  }

  function Top(e: Entry, k: nat): seq<nat> {
    if LiveKey(e, k) then [e.value] else []
  }

  /** A change at step n of the probe, with no live copy before. */
  lemma StackChanged(h: Hash, t: Table, t': Table, k: nat, n: nat)
    requires n < |t.entries| == |t'.entries|
    requires var p := Pos(h, |t.entries|, k, n); t'.entries == t.entries[p := t'.entries[p]]
    requires forall e: nat :: e < n ==> !LiveKey(At(h, t, k, e), k)
    ensures Stack(h, t, k, 0) == Top(At(h, t, k, n), k) + Stack(h, t, k, n + 1)
    ensures Stack(h, t', k, 0) == Top(At(h, t', k, n), k) + Stack(h, t, k, n + 1)
  {
    forall e: nat | e < n ensures !LiveKey(At(h, t', k, e), k) {
      PosInjective(h, |t.entries|, k, e, n);
      assert At(h, t', k, e) == At(h, t, k, e);
    }
    StackFrom(h, t, k, 0, n);
    StackFrom(h, t', k, 0, n);
    StackBehind(h, t, t', n, k, n + 1);
  }

  /** hash_put stops at a live entry of its key, and not at a free slot or a tombstone short of one. */
  predicate PutReplaces(h: Hash, t: Table, k: nat)
    requires |t.entries| > 0
  {
    var n := FindSlot(h, t, k, 0);
    n.Some? && Live(At(h, t, k, n.value))
  }

  /** hash_put replaces the top or pushes, and leaves the stacks of other keys alone. */
  lemma PutStack(h: Hash, t: Table, k: nat, v: nat, other: nat)
    requires Inv(h, t) && t.size < t.maxLoad
    ensures var s := Stack(h, t, k, 0);
            && (PutReplaces(h, t, k) ==> s != [])
            && Stack(h, Put(h, t, k, v).0, other, 0) ==
               if other != k then Stack(h, t, other, 0) else [v] + if PutReplaces(h, t, k) then s[1..] else s
  {
    SlotExists(h, t, k);
    FindSlotIsFirst(h, t, k, 0);
    var n := FindSlot(h, t, k, 0).value;
    var t' := Put(h, t, k, v).0;
    var p := Pos(h, |t.entries|, k, n);
    hide Stack, FindSlot;
    StackChanged(h, t, t', k, n);
    if other != k {
      StackElsewhere(h, t, t', p, other, 0);
    }
  }

  /** hash_remove pops, and leaves the stacks of other keys alone. */
  lemma RemoveStack(h: Hash, t: Table, k: nat, other: nat)
    requires Inv(h, t)
    ensures var s := Stack(h, t, k, 0);
            Stack(h, Remove(h, t, k).0, other, 0) ==
            if other != k then Stack(h, t, other, 0) else if s == [] then [] else s[1..]
  {
    FindIsNearest(h, t, k, 0);
    NearestIsFirst(h, t, k, 0);
    NearestIsTop(h, t, k, 0);
    hide Stack, FindFrom, Nearest;
    if Nearest(h, t, k, 0).Some? {
      var n := Nearest(h, t, k, 0).value;
      var t' := Remove(h, t, k).0;
      var p := Pos(h, |t.entries|, k, n);
      if other != k {
        StackElsewhere(h, t, t', p, other, 0);
      } else {
        StackChanged(h, t, t', k, n);
      }
    }
  }

  // ----- Runs -----

  /** What a put comes to: refused at the load limit, a new top, or one more. */
  datatype Effect = Refused | Replaced | Pushed

  function EffectOf(h: Hash, t: Table, k: nat): Effect
    requires |t.entries| > 0
  {
    if t.size >= t.maxLoad then Refused else if PutReplaces(h, t, k) then Replaced else Pushed
  }

  /** The operation on the stack of `k`. */
  function StackStep(s: seq<nat>, k: nat, op: Op, e: Effect): seq<nat> {
    if op.key != k then s
    else match op
         case PutOp(_, v) => if e.Refused? then s else if e.Replaced? && s != [] then [v] + s[1..] else [v] + s
         case RemoveOp(_) => if s == [] then s else s[1..]
  }

  /** The stack of `k` after a run. */
  function StackRun(h: Hash, cap: nat, ops: seq<Op>, k: nat): seq<nat> {
    if ops == [] then []
    else
      var before, op := ops[..|ops| - 1], ops[|ops| - 1];
      StackStep(StackRun(h, cap, before, k), k, op, EffectOf(h, Run(h, cap, before), op.key))
  }

  lemma {:induction false} EmptyStack(h: Hash, t: Table, k: nat, d: nat)
    requires forall p :: 0 <= p < |t.entries| ==> !t.entries[p].occupied
    ensures Stack(h, t, k, d) == []
    decreases |t.entries| - d
  {
    if d < |t.entries| {
      EmptyStack(h, t, k, d + 1);
    }
  }

  /** Over every run of puts and removes the live copies of each key are its stack, and get reads its top. */
  lemma {:induction false} RunIsStacks(h: Hash, cap: nat, ops: seq<Op>, k: nat)
    ensures var t := Run(h, cap, ops);
            var s := StackRun(h, cap, ops, k);
            Stack(h, t, k, 0) == s && Get(h, t, k) == if s == [] then None else Some(s[0])
  {
    RunInv(h, cap, ops);
    GetIsTop(h, Run(h, cap, ops), k);
    if ops == [] {
      EmptyStack(h, Init(cap), k, 0);
    } else {
      var before, op := ops[..|ops| - 1], ops[|ops| - 1];
      RunIsStacks(h, cap, before, k);
      RunInv(h, cap, before);
      var t := Run(h, cap, before);
      match op
      case PutOp(key, v) =>
        if t.size < t.maxLoad {
          PutStack(h, t, key, v, k);
        }
      case RemoveOp(key) => RemoveStack(h, t, key, k);
    }
  }
}
