/**
 * The CFS run queue of kernel/sched/schedule.c as values: an unbalanced search tree by vruntime
 * that behaves as a stable priority queue. Its nodes have no colour; the field stays false.
 */
module RunQueueSpec {
  import opened Prelude
  import opened Trees

  /** A queued task with the keys it has while queued; `stamp` is the number of its enqueue operation. */
  datatype Entry<+T> = Entry(task: T, vruntime: nat, weight: nat, stamp: nat)

  type Rq<T> = Tree<Entry<T>, ()>

  // ----- Operations on the tree -----

  /** cfs_enqueue: equal vruntimes go to the right. */
  function Enqueue<T>(t: Rq<T>, e: Entry<T>): Rq<T> {
    if t.Leaf? then Node(Leaf, e, (), Leaf)
    else if e.vruntime < t.item.vruntime then t.(left := Enqueue(t.left, e))
    else t.(right := Enqueue(t.right, e))
  }

  /** pick_next_cfs */
  function Pick<T>(t: Rq<T>): Option<Entry<T>> {
    if t.Leaf? then None else if t.left.Leaf? then Some(t.item) else Pick(t.left)
  }

  /** What takes the place of a dequeued task: its left subtree if it has one, else its right. */
  function Spliced<T>(t: Rq<T>): Rq<T>
    requires t.Node?
  {
    if t.left.Node? then t.left else t.right
  }

  /** cfs_dequeue: the search by vruntime, then the splice. */
  ghost function Dequeue<T>(t: Rq<T>, e: Entry<T>): Rq<T> {
    if t.Leaf? then t
    else if t.item == e then Spliced(t)
    else if e.vruntime < t.item.vruntime then t.(left := Dequeue(t.left, e))
    else t.(right := Dequeue(t.right, e))
  }

  // ----- The search tree -----

  ghost predicate AllBelow<T>(s: seq<Entry<T>>, v: nat) {
    forall i :: 0 <= i < |s| ==> s[i].vruntime < v
  }

  ghost predicate AllFrom<T>(s: seq<Entry<T>>, v: nat) {
    forall i :: 0 <= i < |s| ==> v <= s[i].vruntime
  }

  /** Smaller to the left, equal or larger to the right. */
  ghost predicate Bst<T>(t: Rq<T>) {
    t.Node? ==>
      && Bst(t.left) && Bst(t.right)
      && AllBelow(Inorder(t.left), t.item.vruntime) && AllFrom(Inorder(t.right), t.item.vruntime)
  }

  // ----- The stable priority queue -----

  /** Inserts behind every entry with the same or a smaller vruntime. */
  function QueueInsert<T>(q: seq<Entry<T>>, e: Entry<T>): seq<Entry<T>> {
    if q == [] then [e]
    else if e.vruntime < q[0].vruntime then [e] + q
    else [q[0]] + QueueInsert(q[1..], e)
  }

  lemma {:induction false} InsertLeft<T>(l: seq<Entry<T>>, x: Entry<T>, r: seq<Entry<T>>, e: Entry<T>)
    requires e.vruntime < x.vruntime
    ensures QueueInsert(l + [x] + r, e) == QueueInsert(l, e) + [x] + r
  {
    var q := l + [x] + r;
    if l == [] {
      assert q[0] == x;
      assert [e] + q == [e] + [x] + r;
    } else if e.vruntime < l[0].vruntime {
      assert [e] + q == ([e] + l) + [x] + r;
    } else {
      InsertLeft(l[1..], x, r, e);
      assert q[1..] == l[1..] + [x] + r;
    }
  }

  lemma {:induction false} InsertRight<T>(l: seq<Entry<T>>, r: seq<Entry<T>>, e: Entry<T>)
    requires forall i :: 0 <= i < |l| ==> l[i].vruntime <= e.vruntime
    ensures QueueInsert(l + r, e) == l + QueueInsert(r, e)
  {
    if l == [] {
      assert l + r == r;
    } else {
      InsertRight(l[1..], r, e);
      assert (l + r)[1..] == l[1..] + r;
      assert l == [l[0]] + l[1..];
    }
  }

  lemma {:induction false} InsertMembers<T>(q: seq<Entry<T>>, e: Entry<T>)
    ensures |QueueInsert(q, e)| == |q| + 1 && multiset(QueueInsert(q, e)) == multiset(q) + multiset{e}
  {
    if q != [] {
      assert q == [q[0]] + q[1..];
      if e.vruntime >= q[0].vruntime {
        InsertMembers(q[1..], e);
      }
    }
  }

  lemma {:induction false} InsertBounds<T>(q: seq<Entry<T>>, e: Entry<T>, v: nat)
    ensures AllBelow(q, v) && e.vruntime < v ==> AllBelow(QueueInsert(q, e), v)
    ensures AllFrom(q, v) && v <= e.vruntime ==> AllFrom(QueueInsert(q, e), v)
  {
    if q != [] && e.vruntime >= q[0].vruntime {
      InsertBounds(q[1..], e, v);
    }
  }

  lemma {:induction false} EnqueueOrder<T>(t: Rq<T>, e: Entry<T>)
    requires Bst(t)
    ensures Inorder(Enqueue(t, e)) == QueueInsert(Inorder(t), e)
  {
    if t.Node? {
      var l, r := Inorder(t.left), Inorder(t.right);
      if e.vruntime < t.item.vruntime {
        EnqueueOrder(t.left, e);
        InsertLeft(l, t.item, r, e);
      } else {
        EnqueueOrder(t.right, e);
        NotAbove(l, t.item, e);
        InsertRight(l + [t.item], r, e);
      }
    }
  }

  lemma NotAbove<T>(l: seq<Entry<T>>, x: Entry<T>, e: Entry<T>)
    requires AllBelow(l, x.vruntime) && x.vruntime <= e.vruntime
    ensures forall i :: 0 <= i < |l + [x]| ==> (l + [x])[i].vruntime <= e.vruntime
  {
  }

  /** Enqueueing in the tree is inserting in the queue. */
  lemma {:induction false} EnqueueRefines<T>(t: Rq<T>, e: Entry<T>)
    requires Bst(t)
    ensures Bst(Enqueue(t, e)) && Inorder(Enqueue(t, e)) == QueueInsert(Inorder(t), e)
  {
    EnqueueOrder(t, e);
    if t.Node? {
      if e.vruntime < t.item.vruntime {
        EnqueueRefines(t.left, e);
        InsertBounds(Inorder(t.left), e, t.item.vruntime);
      } else {
        EnqueueRefines(t.right, e);
        InsertBounds(Inorder(t.right), e, t.item.vruntime);
      }
    } else {
      var leaf: Rq<T> := Leaf;
      assert Inorder(leaf) == [];
    }
  }

  lemma {:induction false} PickIsFirst<T>(t: Rq<T>)
    ensures Pick(t) == if Inorder(t) == [] then None else Some(Inorder(t)[0])
  {
    if t.Node? && t.left.Node? {
      PickIsFirst(t.left);
      assert Inorder(t.left) != [];
    }
  }

  lemma FirstOfLeft<T>(t: Rq<T>)
    requires Bst(t) && t.Node? && t.left.Node?
    ensures Pick(t) == Pick(t.left) && Pick(t).Some? && Pick(t).value.vruntime < t.item.vruntime
  {
    PickIsFirst(t.left);
  }

  /** Dequeueing the picked task is taking the head of the queue. */
  lemma {:induction false} DequeuePickedRefines<T>(t: Rq<T>)
    requires Bst(t) && t.Node?
    ensures Pick(t).Some?
    ensures Bst(Dequeue(t, Pick(t).value)) && Inorder(Dequeue(t, Pick(t).value)) == Inorder(t)[1..]
  {
    if t.left.Node? {
      FirstOfLeft(t);
      DequeuePickedRefines(t.left);
      var l, r := Inorder(t.left), Inorder(t.right);
      PickIsFirst(t.left);
      assert (l + [t.item] + r)[1..] == l[1..] + [t.item] + r;
    } else {
      assert Inorder(t) == [t.item] + Inorder(t.right);
    }
  }

  // ----- Dequeueing any task -----

  /** The subtree whose root is the task the search finds. */
  ghost function Found<T>(t: Rq<T>, e: Entry<T>): Rq<T> {
    if t.Leaf? || t.item == e then t
    else if e.vruntime < t.item.vruntime then Found(t.left, e)
    else Found(t.right, e)
  }

  /** What dequeueing `e` loses beside `e` itself: its right subtree, when it has both. */
  ghost function Lost<T>(t: Rq<T>, e: Entry<T>): seq<Entry<T>> {
    var s := Found(t, e);
    if s.Node? && s.left.Node? then Inorder(s.right) else []
  }

  /** The tree `t'` has the entries of `t` except `gone`. */
  ghost predicate Accounts<T>(t: Rq<T>, t': Rq<T>, gone: multiset<Entry<T>>) {
    multiset(Inorder(t')) + gone == multiset(Inorder(t))
  }

  lemma NodeEntries<T>(t: Rq<T>)
    requires t.Node?
    ensures multiset(Inorder(t)) == multiset(Inorder(t.left)) + multiset{t.item} + multiset(Inorder(t.right))
  {
  }

  lemma AccountsAbove<T>(t: Rq<T>, l: Rq<T>, r: Rq<T>, gone: multiset<Entry<T>>)
    requires t.Node?
    ensures Accounts(t.left, l, gone) ==> Accounts(t, t.(left := l), gone)
    ensures Accounts(t.right, r, gone) ==> Accounts(t, t.(right := r), gone)
  {
    hide Inorder;
    NodeEntries(t);
    NodeEntries(t.(left := l));
    NodeEntries(t.(right := r));
  }

  lemma SplicedAccounts<T>(t: Rq<T>)
    requires t.Node?
    ensures Accounts(t, Spliced(t), multiset{t.item} + multiset(if t.left.Node? then Inorder(t.right) else []))
  {
    NodeEntries(t);
  }

  lemma {:induction false} DequeueLoses<T>(t: Rq<T>, e: Entry<T>)
    requires Bst(t) && e in Inorder(t)
    ensures Found(t, e).Node? && Found(t, e).item == e
    ensures Accounts(t, Dequeue(t, e), multiset{e} + multiset(Lost(t, e)))
  {
    hide Accounts;
    if t.item == e {
      SplicedAccounts(t);
    } else {
      InOneSide(Inorder(t.left), t.item, Inorder(t.right), e);
      AccountsAbove(t, Dequeue(t.left, e), Dequeue(t.right, e), multiset{e} + multiset(Lost(t, e)));
      if e.vruntime < t.item.vruntime {
        DequeueLoses(t.left, e);
      } else {
        DequeueLoses(t.right, e);
      }
    }
  }

  lemma InOneSide<T>(l: seq<Entry<T>>, x: Entry<T>, r: seq<Entry<T>>, e: Entry<T>)
    requires AllBelow(l, x.vruntime) && AllFrom(r, x.vruntime) && e in l + [x] + r && e != x
    ensures if e.vruntime < x.vruntime then e in l else e in r
  {
  }

  lemma {:induction false} DequeueBounds<T>(t: Rq<T>, e: Entry<T>, v: nat)
    ensures AllBelow(Inorder(t), v) ==> AllBelow(Inorder(Dequeue(t, e)), v)
    ensures AllFrom(Inorder(t), v) ==> AllFrom(Inorder(Dequeue(t, e)), v)
  {
    if t.Node? {
      BoundsOfNode(t, v);
      if t.item != e {
        DequeueBounds(t.left, e, v);
        DequeueBounds(t.right, e, v);
        BoundsOfNode(Dequeue(t, e), v);
      }
    }
  }

  lemma PartsOf<T>(l: seq<T>, x: T, r: seq<T>)
    ensures var s := l + [x] + r;
            && (forall i :: 0 <= i < |l| ==> s[i] == l[i]) && s[|l|] == x
            && (forall i :: |l| < i < |s| ==> s[i] == r[i - |l| - 1])
            && (forall i :: 0 <= i < |r| ==> r[i] == s[|l| + 1 + i])
  {
  }

  lemma BoundsOfNode<T>(t: Rq<T>, v: nat)
    requires t.Node?
    ensures AllBelow(Inorder(t), v) <==> AllBelow(Inorder(t.left), v) && t.item.vruntime < v && AllBelow(Inorder(t.right), v)
    ensures AllFrom(Inorder(t), v) <==> AllFrom(Inorder(t.left), v) && v <= t.item.vruntime && AllFrom(Inorder(t.right), v)
  {
    PartsOf(Inorder(t.left), t.item, Inorder(t.right));
  }

  /** Whatever is dequeued, a search tree remains. */
  lemma {:induction false} DequeueBst<T>(t: Rq<T>, e: Entry<T>)
    requires Bst(t)
    ensures Bst(Dequeue(t, e))
  {
    if t.Node? && t.item != e {
      DequeueBst(t.left, e);
      DequeueBst(t.right, e);
      DequeueBounds(t.left, e, t.item.vruntime);
      DequeueBounds(t.right, e, t.item.vruntime);
    }
  }

  /** The task has two children. */
  ghost predicate TwoChildren<T>(t: Rq<T>, e: Entry<T>) {
    var s := Found(t, e);
    s.Node? && s.left.Node? && s.right.Node?
  }

  /** cfs_dequeue keeps every other task if and only if the task does not have two children. */
  lemma DequeueKeepsOthers<T>(t: Rq<T>, e: Entry<T>)
    requires Bst(t) && e in Inorder(t)
    ensures multiset(Inorder(Dequeue(t, e))) == multiset(Inorder(t)) - multiset{e} <==> !TwoChildren(t, e)
  {
    DequeueLoses(t, e);
    var rest, lost := multiset(Inorder(Dequeue(t, e))), Lost(t, e);
    assert |rest| + 1 + |multiset(lost)| == |multiset(Inorder(t))|;
    if !TwoChildren(t, e) {
      assert lost == [];
      assert rest + multiset{e} == multiset(Inorder(t));
    } else {
      assert |multiset(lost)| == |lost| > 0;
    }
  }

  // ----- nr_running and load_weight -----

  function Weight<T>(t: Rq<T>): nat {
    if t.Leaf? then 0 else Weight(t.left) + t.item.weight + Weight(t.right)
  }

  /** The subtree that dequeueing `e` loses. */
  ghost function LostTree<T>(t: Rq<T>, e: Entry<T>): Rq<T> {
    if TwoChildren(t, e) then Found(t, e).right else Leaf
  }

  lemma {:induction false} EnqueueTotals<T>(t: Rq<T>, e: Entry<T>)
    ensures Count(Enqueue(t, e)) == Count(t) + 1 && Weight(Enqueue(t, e)) == Weight(t) + e.weight
  {
    if t.Node? {
      if e.vruntime < t.item.vruntime {
        EnqueueTotals(t.left, e);
      } else {
        EnqueueTotals(t.right, e);
      }
    }
  }

  lemma {:induction false} DequeueTotals<T>(t: Rq<T>, e: Entry<T>)
    requires Found(t, e).Node?
    ensures Count(Dequeue(t, e)) + 1 + Count(LostTree(t, e)) == Count(t)
    ensures Weight(Dequeue(t, e)) + e.weight + Weight(LostTree(t, e)) == Weight(t)
  {
    if t.item != e {
      if e.vruntime < t.item.vruntime {
        DequeueTotals(t.left, e);
      } else {
        DequeueTotals(t.right, e);
      }
    }
  }

  /** The picked task has no left child, so dequeueing it loses nothing. */
  lemma {:induction false} PickedLosesNothing<T>(t: Rq<T>)
    requires Bst(t) && t.Node?
    ensures Pick(t).Some? && Pick(t).value in Inorder(t)
    ensures Found(t, Pick(t).value).Node? && Found(t, Pick(t).value).left.Leaf?
  {
    PickIsFirst(t);
    if t.left.Node? {
      FirstOfLeft(t);
      PickedLosesNothing(t.left);
    }
  }

  // ----- Runs -----

  datatype Op<+T> = Add(task: T, vruntime: nat, weight: nat) | TakePicked

  /** The tree with nr_running and load_weight. */
  datatype Counted<T> = Counted(t: Rq<T>, running: int, load: int)

  ghost function RunCounted<T>(ops: seq<Op<T>>): Counted<T> {
    if ops == [] then Counted(Leaf, 0, 0)
    else
      var s := RunCounted(ops[..|ops| - 1]);
      match ops[|ops| - 1]
      case Add(task, v, w) => Counted(Enqueue(s.t, Entry(task, v, w, |ops|)), s.running + 1, s.load + w)
      case TakePicked =>
        var e := Pick(s.t);
        if e.None? then s else Counted(Dequeue(s.t, e.value), s.running - 1, s.load - e.value.weight)
  }

  ghost function RunTree<T>(ops: seq<Op<T>>): Rq<T> {
    RunCounted(ops).t
  }

  /** The same run on the priority queue. */
  ghost function RunQueue<T>(ops: seq<Op<T>>): seq<Entry<T>> {
    if ops == [] then []
    else
      var q := RunQueue(ops[..|ops| - 1]);
      match ops[|ops| - 1]
      case Add(task, v, w) => QueueInsert(q, Entry(task, v, w, |ops|))
      case TakePicked => if q == [] then q else q[1..]
  }

  /** Smaller vruntime first, then earlier enqueued. */
  predicate Precedes<T>(a: Entry<T>, b: Entry<T>) {
    a.vruntime < b.vruntime || (a.vruntime == b.vruntime && a.stamp < b.stamp)
  }

  ghost predicate Ordered<T>(q: seq<Entry<T>>) {
    forall i, j :: 0 <= i < j < |q| ==> Precedes(q[i], q[j])
  }

  lemma {:induction false} InsertOrdered<T>(q: seq<Entry<T>>, e: Entry<T>)
    requires Ordered(q) && forall i :: 0 <= i < |q| ==> q[i].stamp < e.stamp
    ensures Ordered(QueueInsert(q, e))
  {
    if q != [] && e.vruntime >= q[0].vruntime {
      InsertOrdered(q[1..], e);
      var r := QueueInsert(q[1..], e);
      InsertMembers(q[1..], e);
      forall j | 0 <= j < |r| ensures Precedes(q[0], r[j]) {
        assert r[j] in multiset(r);
        assert r[j] == e || r[j] in q[1..];
      }
    }
  }

  lemma {:induction false} RunStamps<T>(ops: seq<Op<T>>)
    ensures forall i :: 0 <= i < |RunQueue(ops)| ==> RunQueue(ops)[i].stamp <= |ops|
  {
    if ops != [] {
      RunStamps(ops[..|ops| - 1]);
      var q := RunQueue(ops[..|ops| - 1]);
      match ops[|ops| - 1]
      case Add(task, v, w) =>
        var e := Entry(task, v, w, |ops|);
        InsertMembers(q, e);
        forall i | 0 <= i < |QueueInsert(q, e)| ensures QueueInsert(q, e)[i].stamp <= |ops| {
          assert QueueInsert(q, e)[i] in multiset(QueueInsert(q, e));
          assert QueueInsert(q, e)[i] == e || QueueInsert(q, e)[i] in q;
        }
      case TakePicked =>
    }
  }

  /**
   * Over every run the tree holds the queue in order: pick returns the least vruntime, the earliest
   * enqueued among equals, and no task is lost or duplicated.
   */
  lemma {:induction false} RunRefines<T>(ops: seq<Op<T>>)
    ensures var (t, q) := (RunTree(ops), RunQueue(ops));
            && Bst(t) && Inorder(t) == q && Ordered(q)
            && (if q == [] then Pick(t) == None
                else Pick(t) == Some(q[0]) && forall i :: 1 <= i < |q| ==> Precedes(q[0], q[i]))
  {
    if ops != [] {
      var before := ops[..|ops| - 1];
      RunRefines(before);
      RunStamps(before);
      match ops[|ops| - 1]
      case Add(task, v, w) =>
        EnqueueRefines(RunTree(before), Entry(task, v, w, |ops|));
        InsertOrdered(RunQueue(before), Entry(task, v, w, |ops|));
      case TakePicked =>
        if RunQueue(before) != [] {
          DequeuePickedRefines(RunTree(before));
        }
    }
    PickIsFirst(RunTree(ops));
  }

  /** Over every run nr_running is the number of queued tasks and load_weight the sum of their weights. */
  lemma {:induction false} RunTotals<T>(ops: seq<Op<T>>)
    ensures var s := RunCounted(ops);
            s.running == Count(s.t) == |RunQueue(ops)| && s.load == Weight(s.t)
  {
    RunRefines(ops);
    CountIsLength(RunTree(ops));
    if ops != [] {
      var before := ops[..|ops| - 1];
      RunTotals(before);
      RunRefines(before);
      var t := RunTree(before);
      match ops[|ops| - 1]
      case Add(task, v, w) => EnqueueTotals(t, Entry(task, v, w, |ops|));
      case TakePicked =>
        if Pick(t).Some? {
          PickIsFirst(t);
          PickedLosesNothing(t);
          DequeueTotals(t, Pick(t).value);
        }
    }
  }
}
