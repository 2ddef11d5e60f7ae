/** The run queue with its links between tasks, as the scheduler changes them (kernel/sched/schedule.c). */
module RunQueues {
  import opened Prelude
  import opened Trees
  import opened RunQueueSpec

  /** The parts of task_t that the run queue uses. */
  class Task {
    var vruntime: nat
    var weight: nat
    var left: Task?
    var right: Task?
    var parent: Task?
    var myQ: CfsRq?

    constructor (vruntime: nat, weight: nat)
      ensures this.vruntime == vruntime && this.weight == weight && myQ == null
    {
      this.vruntime, this.weight := vruntime, weight;
      left, right, parent, myQ := null, null, null, null;
    }
  }

  type TaskTree = Rq<Task>

  /** What a queued task's fields hold. */
  datatype Links = Links(left: Task?, right: Task?, parent: Task?, vruntime: nat, weight: nat)

  type Memory = map<Task, Links>

  // ----- Trees in memory, as values -----

  ghost function Items(t: TaskTree): set<Task> {
    if t.Leaf? then {} else Items(t.left) + {t.item.task} + Items(t.right)
  }

  ghost predicate Distinct(t: TaskTree) {
    t.Node? ==>
      && t.item.task !in Items(t.left) && t.item.task !in Items(t.right) && Items(t.left) !! Items(t.right)
      && Distinct(t.left) && Distinct(t.right)
  }

  /** The pointer `p`, below the task `up`, is the root of `t` in memory `m`. */
  ghost predicate Linked(t: TaskTree, p: Task?, up: Task?, m: Memory) {
    match t
    case Leaf => p == null
    case Node(l, e, _, r) =>
      && p == e.task && p in m
      && m[p].parent == up && m[p].vruntime == e.vruntime && m[p].weight == e.weight
      && Linked(l, m[p].left, p, m) && Linked(r, m[p].right, p, m)
  }

  lemma {:induction false} LinkedElsewhere(t: TaskTree, p: Task?, up: Task?, m: Memory, m': Memory)
    requires Linked(t, p, up, m) && forall x :: x in Items(t) ==> x in m && x in m' && m'[x] == m[x]
    ensures Linked(t, p, up, m')
  {
    if t.Node? {
      LinkedElsewhere(t.left, m[p].left, p, m, m');
      LinkedElsewhere(t.right, m[p].right, p, m, m');
    }
  }

  lemma {:induction false} LinkedItems(t: TaskTree, p: Task?, up: Task?, m: Memory)
    requires Linked(t, p, up, m)
    ensures Items(t) <= m.Keys && (p != null <==> t.Node?) && (p != null ==> p in Items(t))
  {
    if t.Node? {
      LinkedItems(t.left, m[p].left, p, m);
      LinkedItems(t.right, m[p].right, p, m);
    }
  }

  // ----- Linking a new task -----

  /** The task the new one will hang below. */
  ghost function LastSeen(t: TaskTree, v: nat, above: Task?): Task? {
    if t.Leaf? then above
    else if v < t.item.vruntime then LastSeen(t.left, v, t.item.task)
    else LastSeen(t.right, v, t.item.task)
  }

  lemma {:induction false} LastSeenInside(t: TaskTree, v: nat, above: Task?)
    requires t.Node?
    ensures LastSeen(t, v, above) != null && LastSeen(t, v, above) in Items(t)
    ensures LastSeen(t, v, above) == LastSeen(t, v, null)
  {
    var child := if v < t.item.vruntime then t.left else t.right;
    if child.Node? {
      LastSeenInside(child, v, t.item.task);
    }
  }

  /** Memory after the leaf for `e` is hung below `y`. */
  ghost function WithLeaf(m: Memory, e: Entry<Task>, y: Task?): Memory {
    var m1 := m[e.task := Links(null, null, y, e.vruntime, e.weight)];
    if y == null || y !in m then m1
    else m1[y := if e.vruntime < m[y].vruntime then m[y].(left := e.task) else m[y].(right := e.task)]
  }

  lemma {:induction false} EnqueueLinked(t: TaskTree, p: Task?, up: Task?, m: Memory, e: Entry<Task>)
    requires Linked(t, p, up, m) && Distinct(t) && e.task !in m && t.Node?
    ensures Linked(Enqueue(t, e), p, up, WithLeaf(m, e, LastSeen(t, e.vruntime, up)))
  {
    var y := LastSeen(t, e.vruntime, up);
    var m' := WithLeaf(m, e, y);
    LastSeenInside(t, e.vruntime, up);
    LinkedItems(t, p, up, m);
    var goLeft := e.vruntime < t.item.vruntime;
    var (child, other) := if goLeft then (t.left, t.right) else (t.right, t.left);
    var (childPtr, otherPtr) := if goLeft then (m[p].left, m[p].right) else (m[p].right, m[p].left);
    if child.Node? {
      LastSeenInside(child, e.vruntime, p);
      EnqueueLinked(child, childPtr, p, m, e);
      LinkedElsewhere(other, otherPtr, p, m, m');
    } else {
      LinkedElsewhere(other, otherPtr, p, m, m');
    }
  }

  lemma {:induction false} EnqueueItems(t: TaskTree, e: Entry<Task>)
    requires Distinct(t) && e.task !in Items(t)
    ensures Distinct(Enqueue(t, e)) && Items(Enqueue(t, e)) == Items(t) + {e.task}
  {
    if t.Node? {
      if e.vruntime < t.item.vruntime {
        EnqueueItems(t.left, e);
      } else {
        EnqueueItems(t.right, e);
      }
    }
  }

  // ----- Splicing a task out -----

  /** The task above the one that is taken out. */
  ghost function ParentOf(t: TaskTree, e: Entry<Task>, up: Task?): Task? {
    if t.Leaf? || t.item == e then up
    else if e.vruntime < t.item.vruntime then ParentOf(t.left, e, t.item.task)
    else ParentOf(t.right, e, t.item.task)
  }

  /** Memory after `x` is replaced by `s` below `par`. */
  ghost function WithSplice(m: Memory, x: Task, s: Task?, par: Task?): Memory {
    var m1 := if par == null || par !in m then m
              else m[par := if m[par].left == x then m[par].(left := s) else m[par].(right := s)];
    if s == null || s !in m1 then m1 else m1[s := m1[s].(parent := par)]
  }

  /** The child that takes the place of `x`. */
  ghost function Successor(m: Memory, x: Task): Task? {
    if x !in m then null else if m[x].left != null then m[x].left else m[x].right
  }

  ghost function SplicedOut(t: TaskTree, m: Memory, e: Entry<Task>, up: Task?): Memory {
    WithSplice(m, e.task, Successor(m, e.task), ParentOf(t, e, up))
  }

  lemma Reparented(t: TaskTree, p: Task?, was: Task?, up: Task?, m: Memory, m': Memory)
    requires Linked(t, p, was, m) && Distinct(t)
    requires t.Node? ==> p in m' && m'[p] == m[p].(parent := up)
    requires forall x :: x in Items(t) && x != p ==> x in m && x in m' && m'[x] == m[x]
    ensures Linked(t, p, up, m')
  {
    if t.Node? {
      LinkedElsewhere(t.left, m[p].left, p, m, m');
      LinkedElsewhere(t.right, m[p].right, p, m, m');
    }
  }

  lemma SpliceHere(t: TaskTree, p: Task?, up: Task?, m: Memory, e: Entry<Task>)
    requires Linked(t, p, up, m) && Distinct(t) && t.Node? && t.item == e && (up == null || up !in Items(t))
    ensures Linked(Spliced(t), Successor(m, p), up, SplicedOut(t, m, e, up))
  {
    LinkedItems(t.left, m[p].left, p, m);
    LinkedItems(t.right, m[p].right, p, m);
    Reparented(Spliced(t), Successor(m, p), p, up, m, SplicedOut(t, m, e, up));
  }

  /** The memory after the splice differs only at the parent and at the successor. */
  lemma {:induction false} SplicePlaces(t: TaskTree, p: Task?, up: Task?, m: Memory, e: Entry<Task>)
    requires Linked(t, p, up, m) && Distinct(t) && Found(t, e).Node?
    ensures e.task in Items(t)
    ensures var s := Successor(m, e.task); s == null || (s in Items(t) && s != p)
    ensures var y := ParentOf(t, e, up); if t.item == e then y == up else y != null && y in Items(t)
    decreases t
  {
    LinkedItems(t.left, m[p].left, p, m);
    LinkedItems(t.right, m[p].right, p, m);
    if t.item != e {
      if e.vruntime < t.item.vruntime {
        SplicePlaces(t.left, m[p].left, p, m, e);
      } else {
        SplicePlaces(t.right, m[p].right, p, m, e);
      }
    }
  }

  lemma {:induction false} DequeueLinked(t: TaskTree, p: Task?, up: Task?, m: Memory, e: Entry<Task>)
    requires Linked(t, p, up, m) && Distinct(t) && Found(t, e).Node? && (up == null || up !in Items(t))
    ensures Linked(Dequeue(t, e), if t.item == e then Successor(m, p) else p, up, SplicedOut(t, m, e, up))
    decreases t
  {
    if t.item == e {
      SpliceHere(t, p, up, m, e);
    } else {
      var m' := SplicedOut(t, m, e, up);
      LinkedItems(t, p, up, m);
      LinkedItems(t.left, m[p].left, p, m);
      LinkedItems(t.right, m[p].right, p, m);
      if e.vruntime < t.item.vruntime {
        SplicePlaces(t.left, m[p].left, p, m, e);
        DequeueLinked(t.left, m[p].left, p, m, e);
        LinkedElsewhere(t.right, m[p].right, p, m, m');
      } else {
        SplicePlaces(t.right, m[p].right, p, m, e);
        DequeueLinked(t.right, m[p].right, p, m, e);
        LinkedElsewhere(t.left, m[p].left, p, m, m');
      }
    }
  }

  lemma {:induction false} DequeueItems(t: TaskTree, e: Entry<Task>)
    requires Distinct(t) && Found(t, e).Node?
    ensures e.task in Items(t)
    ensures Distinct(Dequeue(t, e)) && Items(Dequeue(t, e)) == Items(t) - {e.task} - Items(LostTree(t, e))
    ensures Items(LostTree(t, e)) <= Items(t)
  {
    if t.item != e {
      if e.vruntime < t.item.vruntime {
        DequeueItems(t.left, e);
      } else {
        DequeueItems(t.right, e);
      }
    }
  }

  class CfsRq {
    var root: Task?
    var nrRunning: int
    var loadWeight: int
    var minVruntime: nat
    ghost var shape: TaskTree
    ghost var memory: Memory
    ghost var clock: nat
    ghost var lostTasks: nat   // tasks dropped by dequeues of tasks with two children
    ghost var lostWeight: nat

    /** The heap agrees with `memory`. */
    ghost predicate Agrees()
      reads this`memory, memory.Keys
    {
      forall x :: x in memory ==>
        && x.left == memory[x].left && x.right == memory[x].right && x.parent == memory[x].parent
        && x.vruntime == memory[x].vruntime && x.weight == memory[x].weight && x.myQ == this
    }

    ghost predicate Valid()
      reads this, memory.Keys
    {
      && Agrees() && Good(shape, root, memory)
      && nrRunning == Count(shape) + lostTasks && loadWeight == Weight(shape) + lostWeight
    }

    constructor ()
      ensures Valid() && shape == Leaf && lostTasks == 0 && lostWeight == 0 && clock == 0
    {
      root, nrRunning, loadWeight, minVruntime := null, 0, 0, 0;
      shape, memory, clock, lostTasks, lostWeight := Leaf, map[], 0, 0, 0;
    }

    /** pick_next_cfs */
    method PickNext() returns (leftmost: Task?)
      requires Valid()
      ensures match Pick<Task>(shape) case None => leftmost == null case Some(e) => leftmost == e.task
    {
      if root == null {
        return null;
      }
      leftmost := root;
      ghost var t, up := shape, null;
      LinkedItems(t, root, null, memory);
      while leftmost.left != null
        invariant leftmost != null && leftmost in memory && Linked(t, leftmost, up, memory) && Pick<Task>(t) == Pick<Task>(shape)
        decreases t
      {
        LinkedItems(t.left, leftmost.left, leftmost, memory);
        up := leftmost;
        t := t.left;
        leftmost := leftmost.left;
      }
      LinkedItems(t.left, leftmost.left, leftmost, memory);
    }

    /** The walk of cfs_enqueue to the place of a task with this vruntime. */
    method FindPlace(v: nat) returns (parent: Task?)
      requires Valid()
      ensures Valid()
      ensures parent == LastSeen(shape, v, null) && (parent != null ==> parent in memory) && (parent == null <==> root == null)
    {
      var p := root;
      parent := null;
      ghost var t := shape;
      LinkedItems(shape, root, null, memory);
      while p != null
        invariant Linked(t, p, parent, memory) && (p != null ==> p in memory)
        invariant LastSeen(t, v, parent) == LastSeen(shape, v, null)
        invariant parent != null ==> parent in memory
        invariant parent == null ==> p == root
        decreases t
      {
        parent := p;
        if v < p.vruntime {
          LinkedItems(t.left, p.left, p, memory);
          t := t.left;
          p := p.left;
        } else {
          LinkedItems(t.right, p.right, p, memory);
          t := t.right;
          p := p.right;
        }
      }
    }

    /** cfs_enqueue of a task that is on no queue. */
    method Enqueue(task: Task)
      requires Valid() && task.myQ == null
      modifies this, task, memory.Keys
      ensures Valid()
      ensures shape == RunQueueSpec.Enqueue(old(shape), Entry(task, old(task.vruntime), old(task.weight), old(clock)))
      ensures clock == old(clock) + 1 && lostTasks == old(lostTasks) && lostWeight == old(lostWeight)
      ensures minVruntime == if old(minVruntime) == 0 || old(task.vruntime) < old(minVruntime) then old(task.vruntime) else old(minVruntime)
    {
      hide Good, Inorder, Count, Weight, LastSeen, WithLeaf, RunQueueSpec.Enqueue;
      ghost var e := Entry(task, task.vruntime, task.weight, clock);
      assert task !in memory;
      var parent := FindPlace(task.vruntime);
      EnqueuedIsGood(shape, root, memory, e);
      EnqueueTotals(shape, e);
      Hang(task, parent, e);
      Account(task);
      shape, clock := RunQueueSpec.Enqueue(shape, e), clock + 1;
    }

    /** The walk of cfs_dequeue: it ends at the task. */
    method Locate(task: Task, ghost e: Entry<Task>) returns (p: Task?)
      requires Valid() && e.task == task && e in Inorder(shape)
      ensures Valid() && p == task
    {
      InTree(shape, root, memory, e);
      hide Bst, Inorder;
      p := root;
      ghost var t, up := shape, null;
      while p != null && p != task
        invariant Linked(t, p, up, memory) && (p != null ==> p in memory)
        invariant Found(t, e).Node?
        decreases t
      {
        LinkedItems(t.left, p.left, p, memory);
        LinkedItems(t.right, p.right, p, memory);
        up := p;
        if task.vruntime < p.vruntime {
          t := t.left;
          p := p.left;
        } else {
          t := t.right;
          p := p.right;
        }
      }
    }

    /** cfs_dequeue of a task that is in the tree (`e` is its entry) or on no queue. */
    method Dequeue(task: Task, ghost e: Entry<Task>)
      requires Valid() && (task.myQ == null || (e.task == task && e in Inorder(shape)))
      modifies this, memory.Keys
      ensures Valid()
      ensures old(task.myQ) == null ==> unchanged(this)
      ensures old(task.myQ) != null ==>
        && task.myQ == null && shape == RunQueueSpec.Dequeue(old(shape), e)
        && nrRunning == old(nrRunning) - 1 && loadWeight == old(loadWeight) - e.weight
        && lostTasks == old(lostTasks) + Count(LostTree(old(shape), e))
        && lostWeight == old(lostWeight) + Weight(LostTree(old(shape), e))
    {
      if task.myQ != null {
        TakeOut(task, e);
      }
    }

    method TakeOut(task: Task, ghost e: Entry<Task>)
      requires Valid() && e.task == task && e in Inorder(shape)
      modifies this, memory.Keys
      ensures Valid()
      ensures task.myQ == null && shape == RunQueueSpec.Dequeue(old(shape), e)
      ensures nrRunning == old(nrRunning) - 1 && loadWeight == old(loadWeight) - e.weight
      ensures lostTasks == old(lostTasks) + Count(LostTree(old(shape), e))
      ensures lostWeight == old(lostWeight) + Weight(LostTree(old(shape), e))
    {
      hide Good, Inorder, Count, Weight, Found, LostTree, RunQueueSpec.Dequeue, Restrict, WithSplice, Items;
      InTree(shape, root, memory, e);
      var p := Locate(task, e);
      DequeuedIsGood(shape, root, memory, e);
      DequeueTotals(shape, e);
      if p == task {
        Splice(task, Items(RunQueueSpec.Dequeue(shape, e)));
      }
      nrRunning := nrRunning - 1;
      loadWeight := loadWeight - task.weight;
      lostTasks := lostTasks + Count(LostTree(shape, e));
      lostWeight := lostWeight + Weight(LostTree(shape, e));
      shape := RunQueueSpec.Dequeue(shape, e);
    }

    /** The stores of cfs_dequeue: a child takes the place of the task, which leaves the queue. */
    method Splice(task: Task, ghost keep: set<Task>)
      requires Agrees() && task in memory && keep <= memory.Keys - {task}
      requires memory[task].parent != null ==> memory[task].parent in memory && memory[task].parent != task
      requires var s := Successor(memory, task); s != null ==> s in memory && s != task && s != memory[task].parent
      modifies this`root, this`memory, memory.Keys
      ensures Agrees() && task.myQ == null && task.weight == old(memory)[task].weight
      ensures memory == Restrict(WithSplice(old(memory), task, Successor(old(memory), task), old(memory)[task].parent), keep)
      ensures root == if old(memory)[task].parent == null then Successor(old(memory), task) else old(root)
    {
      var successor := if task.left != null then task.left else task.right;
      ReplaceBelow(task, successor);
      if successor != null {
        Reparent(successor, task.parent);
      }
      Leave(task, keep);
    }

    method Reparent(s: Task, par: Task?)
      requires Agrees() && s in memory
      modifies this`memory, s
      ensures Agrees() && memory == old(memory)[s := old(memory)[s].(parent := par)]
    {
      s.parent := par;
      memory := memory[s := memory[s].(parent := par)];
    }

    method Leave(x: Task, ghost keep: set<Task>)
      requires Agrees() && x in memory && x !in keep
      modifies this`memory, x
      ensures Agrees() && x.myQ == null && x.weight == old(memory)[x].weight && memory == Restrict(old(memory), keep)
    {
      x.myQ := null;
      memory := Restrict(memory, keep);
    }

    /** The parent of `x`, or the root pointer, now points to `s`. */
    method ReplaceBelow(x: Task, s: Task?)
      requires Agrees() && x in memory
      requires memory[x].parent != null ==> memory[x].parent in memory && memory[x].parent != x
      modifies this`root, this`memory, memory.Keys
      ensures Agrees() && x.parent == old(memory)[x].parent
      ensures var m, par := old(memory), old(memory)[x].parent;
              && memory == (if par == null then m
                            else m[par := if m[par].left == x then m[par].(left := s) else m[par].(right := s)])
              && root == if par == null then s else old(root)
    {
      var par := x.parent;
      if par != null {
        if par.left == x {
          par.left := s;
          memory := memory[par := memory[par].(left := s)];
        } else {
          par.right := s;
          memory := memory[par := memory[par].(right := s)];
        }
      } else {
        root := s;
      }
    }

    /** The counters after an enqueue. */
    method Account(task: Task)
      modifies this`nrRunning, this`loadWeight, this`minVruntime
      ensures nrRunning == old(nrRunning) + 1 && loadWeight == old(loadWeight) + task.weight
      ensures minVruntime == if old(minVruntime) == 0 || task.vruntime < old(minVruntime) then task.vruntime else old(minVruntime)
    {
      nrRunning := nrRunning + 1;
      loadWeight := loadWeight + task.weight;
      if minVruntime == 0 || task.vruntime < minVruntime {
        minVruntime := task.vruntime;
      }
    }

    /** The stores of cfs_enqueue: the task becomes a leaf below `parent`. */
    method Hang(task: Task, parent: Task?, ghost e: Entry<Task>)
      requires e.task == task && e.vruntime == task.vruntime && e.weight == task.weight
      requires Agrees() && task !in memory && (parent != null ==> parent in memory)
      modifies this`root, this`memory, task, memory.Keys
      ensures Agrees() && memory == WithLeaf(old(memory), e, parent) && task in memory
      ensures root == if parent == null then task else old(root)
      ensures task.vruntime == e.vruntime && task.weight == e.weight
    {
      task.myQ := this;
      task.parent := parent;
      task.left, task.right := null, null;
      if parent == null {
        root := task;
      } else if task.vruntime < parent.vruntime {
        parent.left := task;
      } else {
        parent.right := task;
      }
      memory := WithLeaf(memory, e, parent);
    }
  }

  /** A search tree of distinct tasks, held in memory below the root pointer. */
  ghost predicate Good(t: TaskTree, root: Task?, m: Memory) {
    Items(t) == m.Keys && Linked(t, root, null, m) && Distinct(t) && Bst(t)
  }

  ghost function Restrict(m: Memory, keep: set<Task>): Memory {
    map x | x in m && x in keep :: m[x]
  }

  lemma {:induction false} FieldsOfFound(t: TaskTree, p: Task?, up: Task?, m: Memory, e: Entry<Task>)
    requires Linked(t, p, up, m) && Found(t, e).Node? && Found(t, e).item == e
    ensures e.task in m && m[e.task].parent == ParentOf(t, e, up)
    ensures m[e.task].vruntime == e.vruntime && m[e.task].weight == e.weight
    decreases t
  {
    if t.item != e {
      if e.vruntime < t.item.vruntime {
        FieldsOfFound(t.left, m[p].left, p, m, e);
      } else {
        FieldsOfFound(t.right, m[p].right, p, m, e);
      }
    }
  }

  lemma InTree(t: TaskTree, root: Task?, m: Memory, e: Entry<Task>)
    requires Good(t, root, m) && e in Inorder(t)
    ensures Found(t, e).Node? && Found(t, e).item == e && e.task in m
    ensures m[e.task].vruntime == e.vruntime && m[e.task].weight == e.weight
    ensures root != null && root in m
  {
    DequeueLoses(t, e);
    FieldsOfFound(t, root, null, m, e);
    LinkedItems(t, root, null, m);
  }

  /** The neighbours of a task in the tree are other tasks. */
  lemma {:induction false} NeighboursApart(t: TaskTree, p: Task?, up: Task?, m: Memory, e: Entry<Task>)
    requires Linked(t, p, up, m) && Distinct(t) && Found(t, e).Node? && Found(t, e).item == e
    requires up == null || up !in Items(t)
    ensures var (s, par) := (Successor(m, e.task), ParentOf(t, e, up));
            && (s == null || (s in Items(t) && s != e.task && s != par))
            && e.task in Items(t) && par != e.task && (par == up || par in Items(t))
            && (par == up <==> t.item == e)
    decreases t
  {
    LinkedItems(t.left, m[p].left, p, m);
    LinkedItems(t.right, m[p].right, p, m);
    if t.item != e {
      if e.vruntime < t.item.vruntime {
        NeighboursApart(t.left, m[p].left, p, m, e);
      } else {
        NeighboursApart(t.right, m[p].right, p, m, e);
      }
    }
  }

  lemma RestrictedLinked(t: TaskTree, p: Task?, m: Memory, keep: set<Task>)
    requires Linked(t, p, null, m) && Items(t) == keep && keep <= m.Keys
    ensures Linked(t, p, null, Restrict(m, keep)) && Restrict(m, keep).Keys == keep
  {
    LinkedElsewhere(t, p, null, m, Restrict(m, keep));
  }

  lemma DequeuedIsGood(t: TaskTree, root: Task?, m: Memory, e: Entry<Task>)
    requires Good(t, root, m) && Found(t, e).Node? && Found(t, e).item == e
    ensures e.task in m
    ensures var s, par := Successor(m, e.task), m[e.task].parent;
            var t' := RunQueueSpec.Dequeue(t, e);
            && (par != null ==> par in m && par != e.task) && (s != null ==> s in m && s != e.task && s != par)
            && Items(t') <= m.Keys - {e.task}
            && Good(t', if par == null then s else root, Restrict(WithSplice(m, e.task, s, par), Items(t')))
  {
    FieldsOfFound(t, root, null, m, e);
    NeighboursApart(t, root, null, m, e);
    DequeueItems(t, e);
    DequeueLinked(t, root, null, m, e);
    DequeueBst(t, e);
    var s, par := Successor(m, e.task), m[e.task].parent;
    RestrictedLinked(RunQueueSpec.Dequeue(t, e), if par == null then s else root, WithSplice(m, e.task, s, par),
                     Items(RunQueueSpec.Dequeue(t, e)));
  }

  lemma EnqueuedIsGood(t: TaskTree, root: Task?, m: Memory, e: Entry<Task>)
    requires Good(t, root, m) && e.task !in m
    ensures var m' := WithLeaf(m, e, LastSeen(t, e.vruntime, null));
            && m'.Keys == m.Keys + {e.task}
            && Good(RunQueueSpec.Enqueue(t, e), if root == null then e.task else root, m')
  {
    LinkedItems(t, root, null, m);
    EnqueueItems(t, e);
    EnqueueRefines(t, e);
    if t.Node? {
      LastSeenInside(t, e.vruntime, null);
      EnqueueLinked(t, root, null, m, e);
    }
  }
}
