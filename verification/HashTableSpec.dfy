/**
 * The open-addressing hash table with tombstones of kernel/lib/datastructures.c, as values.
 * The hash function is a parameter.
 */
module HashTableSpec {
  import opened Prelude
  import opened Counting

  /** hash_entry_t; a deleted entry stays occupied. */
  datatype Entry = Entry(key: nat, value: nat, occupied: bool, deleted: bool)

  type Hash = nat -> nat

  datatype Table = Table(entries: seq<Entry>, size: int, maxLoad: nat)

  predicate Live(e: Entry) {
    e.occupied && !e.deleted
  }

  predicate LiveKey(e: Entry, k: nat) {
    Live(e) && e.key == k
  }

  /** The d-th slot the probe for `k` looks at. */
  function Pos(h: Hash, cap: nat, k: nat, d: nat): (p: nat)
    requires d < cap
    ensures p < cap
  {
    var p := h(k) % cap + d;
    if p < cap then p else p - cap
  }

  /** How many steps the probe for `k` takes to the slot `p`. */
  function Dist(h: Hash, cap: nat, k: nat, p: nat): (d: nat)
    requires p < cap
    ensures d < cap && Pos(h, cap, k, d) == p
  {
    var home := h(k) % cap;
    if home <= p then p - home else p + cap - home
  }

  lemma PosInjective(h: Hash, cap: nat, k: nat, d: nat, e: nat)
    requires d < cap && e < cap
    ensures Pos(h, cap, k, d) == Pos(h, cap, k, e) <==> d == e
  {
  }

  /** index = (index + 1) % capacity walks along the probe and comes back home after `cap` steps. */
  lemma PosNext(h: Hash, cap: nat, k: nat, d: nat)
    requires d < cap
    ensures (Pos(h, cap, k, d) + 1) % cap == if d + 1 < cap then Pos(h, cap, k, d + 1) else Pos(h, cap, k, 0)
  {
    var next := Pos(h, cap, k, d) + 1;
    if next == cap {
      assert cap % cap == 0;
    }
  }

  function At(h: Hash, t: Table, k: nat, d: nat): Entry
    requires d < |t.entries|
  {
    t.entries[Pos(h, |t.entries|, k, d)]
  }

  // ----- Operations -----

  /** The probe of hash_get and hash_remove from step d: it stops at a slot never occupied. */
  function FindFrom(h: Hash, t: Table, k: nat, d: nat): (r: Option<nat>)
    requires |t.entries| > 0
    ensures r.Some? ==> d <= r.value < |t.entries|
    decreases |t.entries| - d
  {
    if d >= |t.entries| || !At(h, t, k, d).occupied then None
    else if LiveKey(At(h, t, k, d), k) then Some(d)
    else FindFrom(h, t, k, d + 1)
  }

  /** The probe of hash_put: it stops at a free slot, a tombstone or the key. */
  function FindSlot(h: Hash, t: Table, k: nat, d: nat): (r: Option<nat>)
    requires |t.entries| > 0
    ensures r.Some? ==> d <= r.value < |t.entries|
    decreases |t.entries| - d
  {
    if d >= |t.entries| then None
    else if !Live(At(h, t, k, d)) || At(h, t, k, d).key == k then Some(d)
    else FindSlot(h, t, k, d + 1)
  }

  function Get(h: Hash, t: Table, k: nat): Option<nat>
    requires |t.entries| > 0
  {
    match FindFrom(h, t, k, 0)
    case None => None
    case Some(d) => Some(At(h, t, k, d).value)
  }

  function Put(h: Hash, t: Table, k: nat, v: nat): (Table, bool)
    requires |t.entries| > 0
  {
    if t.size >= t.maxLoad then (t, false)
    else match FindSlot(h, t, k, 0)
         case None => (t, false)
         case Some(d) =>
           (t.(entries := t.entries[Pos(h, |t.entries|, k, d) := Entry(k, v, true, false)],
               size := if Live(At(h, t, k, d)) then t.size else t.size + 1), true)
  }

  function Remove(h: Hash, t: Table, k: nat): (Table, Option<nat>)
    requires |t.entries| > 0
  {
    match FindFrom(h, t, k, 0)
    case None => (t, None)
    case Some(d) =>
      (t.(entries := t.entries[Pos(h, |t.entries|, k, d) := At(h, t, k, d).(deleted := true)], size := t.size - 1),
       Some(At(h, t, k, d).value))
  }

  /** hash_init */
  function Init(initialCapacity: nat): Table {
    var cap := if initialCapacity > 0 then initialCapacity else 16;
    Table(seq(cap, _ => Entry(0, 0, false, false)), 0, cap * 75 / 100)
  }

  // ----- The invariant -----

  /** No never-occupied slot lies between a live entry's home and its place. */
  ghost predicate ChainsUnbroken(h: Hash, t: Table) {
    forall p, d: nat :: 0 <= p < |t.entries| && Live(t.entries[p]) && d < Dist(h, |t.entries|, t.entries[p].key, p) ==>
      At(h, t, t.entries[p].key, d).occupied
  }

  ghost predicate Inv(h: Hash, t: Table) {
    && |t.entries| > 0 && t.maxLoad < |t.entries|
    && t.size == CountIf(t.entries, Live)
    && ChainsUnbroken(h, t)
  }

  lemma InitInv(h: Hash, initialCapacity: nat)
    ensures Inv(h, Init(initialCapacity))
  {
    CountNone(Init(initialCapacity).entries, Live);
  }

  // ----- The nearest live copy -----

  /** The first live entry for `k` along its probe, whatever lies between. */
  function Nearest(h: Hash, t: Table, k: nat, d: nat): (r: Option<nat>)
    requires |t.entries| > 0
    ensures r.Some? ==> d <= r.value < |t.entries|
    decreases |t.entries| - d
  {
    if d >= |t.entries| then None
    else if LiveKey(At(h, t, k, d), k) then Some(d)
    else Nearest(h, t, k, d + 1)
  }

  lemma {:induction false} NearestIsFirst(h: Hash, t: Table, k: nat, d: nat)
    requires |t.entries| > 0
    ensures match Nearest(h, t, k, d)
            case None => forall e: nat :: d <= e < |t.entries| ==> !LiveKey(At(h, t, k, e), k)
            case Some(n) =>
              && d <= n < |t.entries| && LiveKey(At(h, t, k, n), k)
              && forall e: nat :: d <= e < n ==> !LiveKey(At(h, t, k, e), k)
    decreases |t.entries| - d
  {
    if d < |t.entries| && !LiveKey(At(h, t, k, d), k) {
      NearestIsFirst(h, t, k, d + 1);
    }
  }

  /** A live entry has only occupied slots before it on its probe. */
  lemma OccupiedBefore(h: Hash, t: Table, k: nat, n: nat, e: nat)
    requires Inv(h, t) && e < n < |t.entries| && LiveKey(At(h, t, k, n), k)
    ensures At(h, t, k, e).occupied
  {
    var p := Pos(h, |t.entries|, k, n);
    PosInjective(h, |t.entries|, k, n, Dist(h, |t.entries|, k, p));
  }

  /** The probe that stops at never-occupied slots misses nothing. */
  lemma {:induction false} FindIsNearest(h: Hash, t: Table, k: nat, d: nat)
    requires Inv(h, t)
    ensures FindFrom(h, t, k, d) == Nearest(h, t, k, d)
    decreases |t.entries| - d
  {
    NearestIsFirst(h, t, k, d);
    if d < |t.entries| && !LiveKey(At(h, t, k, d), k) {
      if At(h, t, k, d).occupied {
        FindIsNearest(h, t, k, d + 1);
      } else if Nearest(h, t, k, d).Some? {
        OccupiedBefore(h, t, k, Nearest(h, t, k, d).value, d);
      }
    }
  }

  lemma {:induction false} FindSlotIsFirst(h: Hash, t: Table, k: nat, d: nat)
    requires |t.entries| > 0
    ensures match FindSlot(h, t, k, d)
            case None => forall e: nat :: d <= e < |t.entries| ==> Live(At(h, t, k, e)) && At(h, t, k, e).key != k
            case Some(n) =>
              && d <= n < |t.entries| && (!Live(At(h, t, k, n)) || At(h, t, k, n).key == k)
              && forall e: nat :: d <= e < n ==> Live(At(h, t, k, e)) && At(h, t, k, e).key != k
    decreases |t.entries| - d
  {
    if d < |t.entries| && Live(At(h, t, k, d)) && At(h, t, k, d).key != k {
      FindSlotIsFirst(h, t, k, d + 1);
    }
  }

  /** A change at one slot that leaves `k` not live there, before and after, leaves its nearest copy alone. */
  lemma {:induction false} NearestElsewhere(h: Hash, t: Table, t': Table, p: nat, k: nat, d: nat)
    requires |t'.entries| == |t.entries| > 0 && p < |t.entries| && t'.entries == t.entries[p := t'.entries[p]]
    requires !LiveKey(t.entries[p], k) && !LiveKey(t'.entries[p], k)
    ensures Nearest(h, t', k, d) == Nearest(h, t, k, d)
    ensures Nearest(h, t, k, d).Some? ==>
              At(h, t', k, Nearest(h, t, k, d).value) == At(h, t, k, Nearest(h, t, k, d).value)
    decreases |t.entries| - d
  {
    if d < |t.entries| && !LiveKey(At(h, t, k, d), k) {
      NearestElsewhere(h, t, t', p, k, d + 1);
    }
  }

  // ----- What put does -----

  /** Some slot is not live while the table is below its load limit, so the probe of put ends. */
  lemma SlotExists(h: Hash, t: Table, k: nat)
    requires Inv(h, t) && t.size < t.maxLoad
    ensures FindSlot(h, t, k, 0).Some?
  {
    FindSlotIsFirst(h, t, k, 0);
    if FindSlot(h, t, k, 0).None? {
      forall p | 0 <= p < |t.entries| ensures Live(t.entries[p]) {
        assert Live(At(h, t, k, Dist(h, |t.entries|, k, p)));
      }
      CountAll(t.entries, Live);
    }
  }

  lemma PosIsModular(h: Hash, cap: nat, k: nat, d: nat)
    requires d < cap
    ensures Pos(h, cap, k, d) == (h(k) + d) % cap
  {
    var q, r := h(k) / cap, h(k) % cap;
    if r + d < cap {
      DivisionIsUnique(h(k) + d, cap, q, r + d);
    } else {
      assert cap * (q + 1) == cap * q + cap;
      DivisionIsUnique(h(k) + d, cap, q + 1, r + d - cap);
    }
  }

  /** The d-th slot from the hash value on, around the end. */
  function Probe(h: Hash, cap: nat, k: nat, d: nat): (p: nat)
    requires 0 < cap
    ensures p < cap
  {
    (h(k) + d) % cap
  }

  /** Where put stores: in the first of these slots that is not live or has the key. */
  lemma PutPlace(h: Hash, t: Table, k: nat, v: nat) returns (d: nat)
    requires Inv(h, t) && t.size < t.maxLoad
    ensures d < |t.entries|
    ensures forall e: nat :: e < d ==>
              var p := Probe(h, |t.entries|, k, e); Live(t.entries[p]) && t.entries[p].key != k
    ensures var p := Probe(h, |t.entries|, k, d);
            && (Live(t.entries[p]) ==> t.entries[p].key == k)
            && Put(h, t, k, v).0.entries == t.entries[p := Entry(k, v, true, false)]
  {
    SlotExists(h, t, k);
    FindSlotIsFirst(h, t, k, 0);
    d := FindSlot(h, t, k, 0).value;
    PosIsModular(h, |t.entries|, k, d);
    forall e: nat | e < d
      ensures var p := Probe(h, |t.entries|, k, e); Live(t.entries[p]) && t.entries[p].key != k
    {
      PosIsModular(h, |t.entries|, k, e);
      assert Live(At(h, t, k, e));
    }
    hide Pos;
  }

  lemma PutKeepsChains(h: Hash, t: Table, k: nat, v: nat)
    requires Inv(h, t) && t.size < t.maxLoad
    ensures ChainsUnbroken(h, Put(h, t, k, v).0)
  {
    SlotExists(h, t, k);
    FindSlotIsFirst(h, t, k, 0);
    var n := FindSlot(h, t, k, 0).value;
    var cap := |t.entries|;
    var q := Pos(h, cap, k, n);
    var t' := Put(h, t, k, v).0;
    forall p, d: nat | 0 <= p < cap && Live(t'.entries[p]) && d < Dist(h, cap, t'.entries[p].key, p)
      ensures At(h, t', t'.entries[p].key, d).occupied
    {
      if p == q {
        PosInjective(h, cap, k, n, Dist(h, cap, k, q));
        assert Live(At(h, t, k, d));
      } else {
        assert t'.entries[p] == t.entries[p];
        assert At(h, t, t.entries[p].key, d).occupied;
      }
    }
  }

  lemma PutKeepsInv(h: Hash, t: Table, k: nat, v: nat)
    requires Inv(h, t)
    ensures Inv(h, Put(h, t, k, v).0)
  {
    if t.size < t.maxLoad {
      PutKeepsChains(h, t, k, v);
      SlotExists(h, t, k);
      CountUpdate(t.entries, Live, Pos(h, |t.entries|, k, FindSlot(h, t, k, 0).value), Entry(k, v, true, false));
    }
  }

  lemma PutThenGet(h: Hash, t: Table, k: nat, v: nat)
    requires Inv(h, t) && t.size < t.maxLoad
    ensures Get(h, Put(h, t, k, v).0, k) == Some(v)
  {
    PutKeepsInv(h, t, k, v);
    var t' := Put(h, t, k, v).0;
    FindIsNearest(h, t', k, 0);
    SlotExists(h, t, k);
    FindSlotIsFirst(h, t, k, 0);
    NearestIsFirst(h, t', k, 0);
    var n := FindSlot(h, t, k, 0).value;
    assert LiveKey(At(h, t', k, n), k);
    forall e: nat | e < n ensures !LiveKey(At(h, t', k, e), k) {
      PosInjective(h, |t.entries|, k, e, n);
      assert At(h, t', k, e) == At(h, t, k, e);
    }
  }

  lemma PutThenGetOther(h: Hash, t: Table, k: nat, v: nat, other: nat)
    requires Inv(h, t) && other != k
    ensures Get(h, Put(h, t, k, v).0, other) == Get(h, t, other)
  {
    if t.size < t.maxLoad {
      PutKeepsInv(h, t, k, v);
      SlotExists(h, t, k);
      FindSlotIsFirst(h, t, k, 0);
      var t' := Put(h, t, k, v).0;
      FindIsNearest(h, t, other, 0);
      FindIsNearest(h, t', other, 0);
      NearestElsewhere(h, t, t', Pos(h, |t.entries|, k, FindSlot(h, t, k, 0).value), other, 0);
    }
  }

  /** put succeeds exactly below the load limit; then get of its key is its value, and no other key is touched. */
  lemma PutEffect(h: Hash, t: Table, k: nat, v: nat, other: nat)
    requires Inv(h, t)
    ensures var (t', ok) := Put(h, t, k, v);
            && Inv(h, t') && (ok <==> t.size < t.maxLoad)
            && Get(h, t', other) == if ok && other == k then Some(v) else Get(h, t, other)
  {
    PutKeepsInv(h, t, k, v);
    if t.size < t.maxLoad {
      SlotExists(h, t, k);
      PutThenGet(h, t, k, v);
    }
    if other != k {
      PutThenGetOther(h, t, k, v, other);
    }
  }

  // ----- What remove does -----

  lemma RemoveKeepsInv(h: Hash, t: Table, k: nat)
    requires Inv(h, t)
    ensures Inv(h, Remove(h, t, k).0)
  {
    FindIsNearest(h, t, k, 0);
    NearestIsFirst(h, t, k, 0);
    if FindFrom(h, t, k, 0).Some? {
      var n := FindFrom(h, t, k, 0).value;
      var q := Pos(h, |t.entries|, k, n);
      var t' := Remove(h, t, k).0;
      CountUpdate(t.entries, Live, q, t'.entries[q]);
      forall p, d: nat | 0 <= p < |t.entries| && Live(t'.entries[p]) && d < Dist(h, |t.entries|, t'.entries[p].key, p)
        ensures At(h, t', t'.entries[p].key, d).occupied
      {
        assert t'.entries[p] == t.entries[p];
        assert At(h, t, t.entries[p].key, d).occupied;
      }
    }
  }

  /** remove returns what get would, and touches no other key. */
  lemma RemoveEffect(h: Hash, t: Table, k: nat, other: nat)
    requires Inv(h, t)
    ensures var (t', v) := Remove(h, t, k);
            Inv(h, t') && v == Get(h, t, k) && (other != k ==> Get(h, t', other) == Get(h, t, other))
  {
    RemoveKeepsInv(h, t, k);
    FindIsNearest(h, t, k, 0);
    NearestIsFirst(h, t, k, 0);
    if FindFrom(h, t, k, 0).Some? && other != k {
      var t' := Remove(h, t, k).0;
      FindIsNearest(h, t, other, 0);
      FindIsNearest(h, t', other, 0);
      NearestElsewhere(h, t, t', Pos(h, |t.entries|, k, FindFrom(h, t, k, 0).value), other, 0);
    }
  }

  /** At most one live entry has the key. */
  ghost predicate Single(t: Table, k: nat) {
    forall p, q :: 0 <= p < q < |t.entries| ==> !(LiveKey(t.entries[p], k) && LiveKey(t.entries[q], k))
  }

  lemma SingleIsGone(h: Hash, t: Table, k: nat, e: nat)
    requires Inv(h, t) && Single(t, k) && e < |t.entries|
    ensures !LiveKey(At(h, Remove(h, t, k).0, k, e), k)
  {
    FindIsNearest(h, t, k, 0);
    NearestIsFirst(h, t, k, 0);
    var found := FindFrom(h, t, k, 0);
    if found.Some? {
      var p, q := Pos(h, |t.entries|, k, e), Pos(h, |t.entries|, k, found.value);
      assert p != q ==> !(LiveKey(t.entries[Min(p, q)], k) && LiveKey(t.entries[Max(p, q)], k));
    }
  }

  lemma DoubleIsLeft(h: Hash, t: Table, k: nat, p: nat, q: nat) returns (e: nat)
    requires Inv(h, t) && p < q < |t.entries| && LiveKey(t.entries[p], k) && LiveKey(t.entries[q], k)
    ensures e < |t.entries| && LiveKey(At(h, Remove(h, t, k).0, k, e), k)
  {
    var found := FindFrom(h, t, k, 0);
    e := Dist(h, |t.entries|, k, if found.Some? && Pos(h, |t.entries|, k, found.value) == p then q else p);
  }

  /** After a remove the key is gone if and only if it had at most one live entry. */
  lemma RemoveThenGet(h: Hash, t: Table, k: nat)
    requires Inv(h, t)
    ensures Get(h, Remove(h, t, k).0, k) == None <==> Single(t, k)
  {
    RemoveKeepsInv(h, t, k);
    var t' := Remove(h, t, k).0;
    FindIsNearest(h, t', k, 0);
    NearestIsFirst(h, t', k, 0);
    if Single(t, k) {
      forall e: nat | e < |t.entries| ensures !LiveKey(At(h, t', k, e), k) {
        SingleIsGone(h, t, k, e);
      }
    } else {
      var p, q :| 0 <= p < q < |t.entries| && LiveKey(t.entries[p], k) && LiveKey(t.entries[q], k);
      var e := DoubleIsLeft(h, t, k, p, q);
    }
  }

  // ----- Finite maps -----

  /** Every key has at most one live entry. */
  ghost predicate Unique(t: Table) {
    forall p, q :: 0 <= p < q < |t.entries| && Live(t.entries[p]) && Live(t.entries[q]) ==>
      t.entries[p].key != t.entries[q].key
  }

  /** put keeps keys unique if and only if it does not stop short of a live entry for its key. */
  lemma PutKeepsUnique(h: Hash, t: Table, k: nat, v: nat)
    requires Inv(h, t) && Unique(t) && t.size < t.maxLoad
    ensures Unique(Put(h, t, k, v).0) <==>
            (Get(h, t, k).Some? ==> FindSlot(h, t, k, 0) == FindFrom(h, t, k, 0))
  {
    SlotExists(h, t, k);
    FindSlotIsFirst(h, t, k, 0);
    FindIsNearest(h, t, k, 0);
    NearestIsFirst(h, t, k, 0);
    var cap := |t.entries|;
    var n := FindSlot(h, t, k, 0).value;
    var q := Pos(h, cap, k, n);
    var t' := Put(h, t, k, v).0;
    if Nearest(h, t, k, 0).Some? && Nearest(h, t, k, 0) != Some(n) {
      var m := Nearest(h, t, k, 0).value;
      var p := Pos(h, cap, k, m);
      PosInjective(h, cap, k, n, m);
      assert LiveKey(t'.entries[Min(p, q)], k) && LiveKey(t'.entries[Max(p, q)], k);
    } else {
      forall p | 0 <= p < cap && p != q && Live(t'.entries[p]) ensures t'.entries[p].key != k {
        if t.entries[p].key == k {
          assert LiveKey(At(h, t, k, Dist(h, cap, k, p)), k);
        }
      }
    }
  }

  /** The map a table stands for, in which a key has the value get finds. */
  ghost predicate Represents(h: Hash, t: Table, m: map<nat, nat>)
    requires |t.entries| > 0
  {
    forall k :: Get(h, t, k) == if k in m then Some(m[k]) else None
  }

  datatype Op = PutOp(key: nat, value: nat) | RemoveOp(key: nat)

  function Step(h: Hash, t: Table, op: Op): Table
    requires |t.entries| > 0
  {
    match op
    case PutOp(k, v) => Put(h, t, k, v).0
    case RemoveOp(k) => Remove(h, t, k).0
  }

  function Run(h: Hash, cap: nat, ops: seq<Op>): (t: Table)
    ensures |t.entries| > 0
  {
    if ops == [] then Init(cap) else Step(h, Run(h, cap, ops[..|ops| - 1]), ops[|ops| - 1])
  }

  /** Over every run of puts and removes the chains stay unbroken and size is the number of live entries. */
  lemma {:induction false} RunInv(h: Hash, cap: nat, ops: seq<Op>)
    ensures Inv(h, Run(h, cap, ops))
  {
    if ops == [] {
      InitInv(h, cap);
    } else {
      RunInv(h, cap, ops[..|ops| - 1]);
      var t := Run(h, cap, ops[..|ops| - 1]);
      match ops[|ops| - 1]
      case PutOp(k, v) => PutKeepsInv(h, t, k, v);
      case RemoveOp(k) => RemoveKeepsInv(h, t, k);
    }
  }

  /** The map after the puts that the load limit lets through. */
  ghost function PutAll(h: Hash, cap: nat, ops: seq<Op>): map<nat, nat>
    requires forall i :: 0 <= i < |ops| ==> ops[i].PutOp?
  {
    if ops == [] then map[]
    else
      var m := PutAll(h, cap, ops[..|ops| - 1]);
      var t := Run(h, cap, ops[..|ops| - 1]);
      if t.size < t.maxLoad then m[ops[|ops| - 1].key := ops[|ops| - 1].value] else m
  }

  /** In runs without remove the table is exactly a finite map, with no key twice and no tombstone. */
  lemma {:induction false} PutsMakeAMap(h: Hash, cap: nat, ops: seq<Op>)
    requires forall i :: 0 <= i < |ops| ==> ops[i].PutOp?
    ensures var t := Run(h, cap, ops);
            && Represents(h, t, PutAll(h, cap, ops)) && Unique(t)
            && forall p :: 0 <= p < |t.entries| ==> !t.entries[p].deleted
  {
    RunInv(h, cap, ops);
    if ops != [] {
      var before := ops[..|ops| - 1];
      PutsMakeAMap(h, cap, before);
      RunInv(h, cap, before);
      var t := Run(h, cap, before);
      var k, v := ops[|ops| - 1].key, ops[|ops| - 1].value;
      forall other ensures Get(h, Put(h, t, k, v).0, other) ==
          if other in PutAll(h, cap, ops) then Some(PutAll(h, cap, ops)[other]) else None
      {
        PutEffect(h, t, k, v, other);
      }
      if t.size < t.maxLoad {
        PutKeepsUnique(h, t, k, v);
        NoTombstones(h, t, k);
      }
    }
  }

  /** In a run of puts with no key twice each put adds a live entry, up to three quarters of the capacity. */
  lemma {:induction false} CapacityOfNewTable(h: Hash, cap: nat, ops: seq<Op>)
    requires forall i :: 0 <= i < |ops| ==> ops[i].PutOp?
    requires forall i, j :: 0 <= i < j < |ops| ==> ops[i].key != ops[j].key
    ensures Run(h, cap, ops).size == Min(|ops|, (if cap > 0 then cap else 16) * 3 / 4)
    ensures forall k :: Get(h, Run(h, cap, ops), k).Some? ==> exists i :: 0 <= i < |ops| && ops[i].key == k
    ensures Run(h, cap, ops).maxLoad == (if cap > 0 then cap else 16) * 3 / 4
    ensures |Run(h, cap, ops).entries| == if cap > 0 then cap else 16
    ensures forall k, v :: Put(h, Run(h, cap, ops), k, v).1 <==> |ops| < (if cap > 0 then cap else 16) * 3 / 4
  {
    RunInv(h, cap, ops);
    if ops == [] {
      forall k ensures Get(h, Init(cap), k).None? {
        assert FindFrom(h, Init(cap), k, 0) == None;
      }
    } else {
      var before := ops[..|ops| - 1];
      CapacityOfNewTable(h, cap, before);
      RunInv(h, cap, before);
      PutsMakeAMap(h, cap, before);
      var t, k, v := Run(h, cap, before), ops[|ops| - 1].key, ops[|ops| - 1].value;
      forall other ensures Get(h, Put(h, t, k, v).0, other).Some? ==> Get(h, t, other).Some? || other == k {
        PutEffect(h, t, k, v, other);
      }
      if t.size < t.maxLoad {
        PutOfNewKey(h, t, k, v);
      }
    }
    forall k, v ensures Put(h, Run(h, cap, ops), k, v).1 <==> Run(h, cap, ops).size < Run(h, cap, ops).maxLoad {
      PutEffect(h, Run(h, cap, ops), k, v, k);
    }
  }

  /** A put of a key that get does not find adds one entry. */
  lemma PutOfNewKey(h: Hash, t: Table, k: nat, v: nat)
    requires Inv(h, t) && t.size < t.maxLoad && Get(h, t, k).None?
    ensures Put(h, t, k, v).0.size == t.size + 1
  {
    SlotExists(h, t, k);
    FindSlotIsFirst(h, t, k, 0);
    FindIsNearest(h, t, k, 0);
    NearestIsFirst(h, t, k, 0);
  }

  /** Without tombstones put stops exactly where get would find the key. */
  lemma NoTombstones(h: Hash, t: Table, k: nat)
    requires Inv(h, t) && t.size < t.maxLoad && forall p :: 0 <= p < |t.entries| ==> !t.entries[p].deleted
    ensures Get(h, t, k).Some? ==> FindSlot(h, t, k, 0) == FindFrom(h, t, k, 0)
  {
    FindSlotIsFirst(h, t, k, 0);
    FindIsNearest(h, t, k, 0);
    NearestIsFirst(h, t, k, 0);
    SlotExists(h, t, k);
    if Get(h, t, k).Some? {
      var n, m := FindSlot(h, t, k, 0).value, Nearest(h, t, k, 0).value;
      if n < m {
        OccupiedBefore(h, t, k, m, n);
      }
    }
  }

  /** A hash function that sends every key to slot 0. */
  function Zero(k: nat): nat {
    0
  }

  lemma PutLandsAt(t: Table, k: nat, v: nat, n: nat)
    requires |t.entries| == 4 && n < 2 && t.size < t.maxLoad
    requires !Live(t.entries[n]) && (n == 1 ==> Live(t.entries[0]) && t.entries[0].key != k)
    ensures Put(Zero, t, k, v).0 == t.(entries := t.entries[n := Entry(k, v, true, false)], size := t.size + 1)
  {
    assert FindSlot(Zero, t, k, 0) == if n == 0 then Some(0) else FindSlot(Zero, t, k, 1);
  }

  /**
   * With tombstones a second put of a key can stop short of its live entry: after the second one
   * is removed, the older value is back.
   */
  lemma StaleValueExample()
    ensures var t1 := Step(Zero, Init(4), PutOp(1, 10));
            var t2 := Step(Zero, t1, PutOp(2, 20));
            var t3 := Step(Zero, t2, RemoveOp(1));
            var t4 := Step(Zero, t3, PutOp(2, 21));
            var t5 := Step(Zero, t4, RemoveOp(2));
            Get(Zero, t4, 2) == Some(21) && Get(Zero, t5, 2) == Some(20)
  {
    PutLandsAt(Init(4), 1, 10, 0);
    var t1 := Step(Zero, Init(4), PutOp(1, 10));
    PutLandsAt(t1, 2, 20, 1);
    var t2 := Step(Zero, t1, PutOp(2, 20));
    assert FindFrom(Zero, t2, 1, 0) == Some(0);
    var t3 := Step(Zero, t2, RemoveOp(1));
    PutLandsAt(t3, 2, 21, 0);
    var t4 := Step(Zero, t3, PutOp(2, 21));
    assert FindFrom(Zero, t4, 2, 0) == Some(0);
    var t5 := Step(Zero, t4, RemoveOp(2));
    assert FindFrom(Zero, t5, 2, 0) == FindFrom(Zero, t5, 2, 1) == Some(1);
  }
}
