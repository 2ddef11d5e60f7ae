/** Virtual memory areas ordered by start address: insertion and lookup (kernel/mm/vma.c), as values. */
module VmaOrder {
  import opened Prelude
  import opened RedBlack
  import opened Trees

  datatype Vma = Vma(start: nat, end: nat) {
    predicate Contains(addr: nat) {
      start <= addr < end
    }
  }

  /** vma_rb_node_t; the links are used by the in-place tree only. */
  class VmaNode {
    const vma: Vma
    var left: VmaNode?
    var right: VmaNode?
    var parent: VmaNode?
    var red: bool

    constructor (vma: Vma)
      ensures this.vma == vma
    {
      this.vma := vma;
      left, right, parent, red := null, null, null, true;
    }
  }

  type Shape = Coloured<VmaNode>
  type Way = Path<VmaNode>

  /** Strictly ascending start addresses. */
  ghost predicate Sorted(s: seq<VmaNode>) {
    forall i, j :: 0 <= i < j < |s| ==> s[i].vma.start < s[j].vma.start
  }

  ghost predicate AllBelow(s: seq<VmaNode>, k: nat) {
    forall i :: 0 <= i < |s| ==> s[i].vma.start < k
  }

  ghost predicate AllAbove(s: seq<VmaNode>, k: nat) {
    forall i :: 0 <= i < |s| ==> k < s[i].vma.start
  }

  ghost predicate HasStart(s: seq<VmaNode>, k: nat) {
    exists i :: 0 <= i < |s| && s[i].vma.start == k
  }

  /** A red-black search tree. */
  ghost predicate Valid(t: Shape) {
    IsRedBlack(t) && Sorted(Inorder(t))
  }

  // ----- Insertion -----

  /** The descent of vma_rb_insert from the subtree `t` at the end of `path`. */
  ghost function Search(path: Way, t: Shape, k: nat): (Way, Shape)
    decreases t
  {
    if t.Leaf? || k == t.item.vma.start then (path, t)
    else if k < t.item.vma.start then Search(InLeft(path, t.item, t.mark, t.right), t.left, k)
    else Search(InRight(path, t.left, t.item, t.mark), t.right, k)
  }

  /** The key belongs on the side of the last node where the path ends. */
  predicate SearchEnds(path: Way, k: nat) {
    (path.InLeft? ==> k < path.item.vma.start) && (path.InRight? ==> path.item.vma.start < k)
  }

  lemma {:induction false} SearchSide(path: Way, t: Shape, k: nat)
    requires SearchEnds(path, k)
    ensures SearchEnds(Search(path, t, k).0, k)
    decreases t
  {
    if t.Node? && k != t.item.vma.start {
      if k < t.item.vma.start {
        SearchSide(InLeft(path, t.item, t.mark, t.right), t.left, k);
      } else {
        SearchSide(InRight(path, t.left, t.item, t.mark), t.right, k);
      }
    }
  }

  lemma {:induction false} SearchPlug(path: Way, t: Shape, k: nat)
    ensures var (p, s) := Search(path, t, k);
            Plug(p, s) == Plug(path, t) && (s.Node? ==> s.item.vma.start == k)
    decreases t
  {
    if t.Node? && k != t.item.vma.start {
      if k < t.item.vma.start {
        SearchPlug(InLeft(path, t.item, t.mark, t.right), t.left, k);
      } else {
        SearchPlug(InRight(path, t.left, t.item, t.mark), t.right, k);
      }
    }
  }

  /** The search splits the order: all that is before the end of the path is smaller, all after larger. */
  lemma {:induction false} SearchOrder(path: Way, t: Shape, k: nat)
    requires AllBelow(Before(path), k) && AllAbove(After(path), k) && Sorted(Inorder(t))
    ensures var (p, _) := Search(path, t, k); AllBelow(Before(p), k) && AllAbove(After(p), k)
    decreases t
  {
    if t.Node? && k != t.item.vma.start {
      SortedParts(Inorder(t.left), t.item, Inorder(t.right));
      if k < t.item.vma.start {
        SearchOrder(InLeft(path, t.item, t.mark, t.right), t.left, k);
      } else {
        SearchOrder(InRight(path, t.left, t.item, t.mark), t.right, k);
      }
    }
  }

  lemma SortedParts(l: seq<VmaNode>, x: VmaNode, r: seq<VmaNode>)
    requires Sorted(l + [x] + r)
    ensures Sorted(l) && Sorted(r) && AllBelow(l, x.vma.start) && AllAbove(r, x.vma.start)
  {
    var s := l + [x] + r;
    assert s[|l|] == x;
    assert forall i :: 0 <= i < |l| ==> s[i] == l[i];
    assert forall i :: 0 <= i < |r| ==> s[|l| + 1 + i] == r[i];
  }

  /** The search keeps what the fix-up will rely on. */
  lemma {:induction false} SearchBalance(path: Way, t: Shape, k: nat, h: nat) returns (g: nat)
    requires PathNoRedRed(path) && PathBlackHeight(path, h) && NoRedRed(t) && BlackHeight(t, h)
    requires IsRed(t) ==> !PathRed(path) && !path.Top?
    ensures var (p, s) := Search(path, t, k); PathNoRedRed(p) && PathBlackHeight(p, g) && BlackHeight(s, g)
    decreases t
  {
    if t.Leaf? || k == t.item.vma.start {
      g := h;
    } else if k < t.item.vma.start {
      g := SearchBalance(InLeft(path, t.item, t.mark, t.right), t.left, k, if t.mark then h else h - 1);
    } else {
      g := SearchBalance(InRight(path, t.left, t.item, t.mark), t.right, k, if t.mark then h else h - 1);
    }
  }

  /** vma_rb_insert: 0 and the new tree, or -1 and the tree as it was. */
  ghost function Insert(t: Shape, x: VmaNode): (Shape, int) {
    var (path, s) := Search(Top, t, x.vma.start);
    if s.Node? then (t, -1) else (Fixup(path, NewLeaf(x)), 0)
  }

  lemma SplitAt(lo: seq<VmaNode>, x: VmaNode, hi: seq<VmaNode>)
    requires Sorted(lo + hi) && AllBelow(lo, x.vma.start) && AllAbove(hi, x.vma.start)
    ensures Sorted(lo + [x] + hi) && !HasStart(lo + hi, x.vma.start)
  {
    var s, was := lo + [x] + hi, lo + hi;
    forall i, j | 0 <= i < j < |s| ensures s[i].vma.start < s[j].vma.start {
      assert i < |lo| ==> s[i] == was[i];
      assert i > |lo| ==> s[i] == was[i - 1];
      assert j < |lo| ==> s[j] == was[j];
      assert j > |lo| ==> s[j] == was[j - 1];
    }
  }

  function NewLeaf(x: VmaNode): Shape {
    Node(Leaf, x, true, Leaf)
  }

  /** The new red leaf is where the fix-up can start. */
  lemma FreshIsFixable(t: Shape, x: VmaNode) returns (g: nat)
    requires IsRedBlack(t) && Search(Top, t, x.vma.start).1.Leaf?
    ensures Fixable(Search(Top, t, x.vma.start).0, NewLeaf(x), g)
  {
    var h: nat :| BlackHeight(t, h);
    g := SearchBalance(Top, t, x.vma.start, h);
  }

  lemma InsertFresh(t: Shape, x: VmaNode)
    requires Valid(t) && Search(Top, t, x.vma.start).1.Leaf?
    ensures var (path, _) := Search(Top, t, x.vma.start);
            && IsRedBlack(Insert(t, x).0)
            && Inorder(t) == Before(path) + After(path) && Inorder(Insert(t, x).0) == Before(path) + [x] + After(path)
  {
    var k := x.vma.start;
    var (path, s) := Search(Top, t, k);
    var g := FreshIsFixable(t, x);
    FixupIsRedBlack(path, NewLeaf(x), g);
    assert Inorder(NewLeaf(x)) == [x];
    SearchPlug(Top, t, k);
    InorderPlug(path, s);
    assert Inorder(t) == Before(path) + After(path);
  }

  /**
   * Insertion keeps the tree red-black and strictly ordered and adds exactly the new area, in its
   * place; it returns -1 with the tree unchanged exactly when the start is already present.
   */
  lemma InsertEffect(t: Shape, x: VmaNode)
    requires Valid(t)
    ensures var (r, ret) := Insert(t, x);
            && Valid(r)
            && (ret == -1 <==> HasStart(Inorder(t), x.vma.start)) && (ret == -1 ==> r == t) && (ret != -1 ==> ret == 0)
            && (ret == 0 ==> exists lo, hi :: Inorder(t) == lo + hi && Inorder(r) == lo + [x] + hi)
  {
    var k := x.vma.start;
    var (path, s) := Search(Top, t, k);
    if s.Node? {
      SearchPlug(Top, t, k);
      InorderPlug(path, s);
      assert Inorder(t)[|Before(path)| + |Inorder(s.left)|] == s.item;
    } else {
      SearchOrder(Top, t, k);
      InsertFresh(t, x);
      SplitAt(Before(path), x, After(path));
    }
  }

  /** The tree after inserting the areas of `xs` one after the other into an empty tree. */
  ghost function Build(xs: seq<VmaNode>): Shape {
    if xs == [] then Leaf else Insert(Build(xs[..|xs| - 1]), xs[|xs| - 1]).0
  }

  /** Every tree built by insertion is valid, and its height is at most 2 * log2(n + 1). */
  lemma {:induction false} BuiltTreesAreLow(xs: seq<VmaNode>)
    ensures Valid(Build(xs)) && Count(Build(xs)) <= |xs|
    ensures Pow2(Height(Build(xs))) <= (Count(Build(xs)) + 1) * (Count(Build(xs)) + 1)
  {
    if xs == [] {
      assert BlackHeight(Build(xs), 0);
    } else {
      var t, x := Build(xs[..|xs| - 1]), xs[|xs| - 1];
      BuiltTreesAreLow(xs[..|xs| - 1]);
      InsertEffect(t, x);
      CountIsLength(t);
      CountIsLength(Insert(t, x).0);
    }
    HeightBound(Build(xs));
  }

  // ----- Lookup -----

  /** vma_rb_find from the subtree `t`, with what it has found so far. */
  function FindFrom(t: Shape, addr: nat, found: Option<VmaNode>): Option<VmaNode> {
    if t.Leaf? then found
    else if t.item.vma.Contains(addr) then FindFrom(t.left, addr, Some(t.item))
    else if addr < t.item.vma.start then FindFrom(t.left, addr, found)
    else FindFrom(t.right, addr, found)
  }

  /** Each area ends before the next one starts. */
  ghost predicate Disjoint(s: seq<VmaNode>) {
    forall i, j :: 0 <= i < j < |s| ==> s[i].vma.end <= s[j].vma.start
  }

  ghost predicate Misses(s: seq<VmaNode>, addr: nat) {
    forall i :: 0 <= i < |s| ==> !(s[i].vma.start <= addr < s[i].vma.end)
  }

  lemma DisjointParts(l: seq<VmaNode>, x: VmaNode, r: seq<VmaNode>, addr: nat)
    requires Disjoint(l + [x] + r) && AllAbove(r, x.vma.start)
    ensures Disjoint(l) && Disjoint(r)
    ensures x.vma.start <= addr ==> Misses(l, addr)
    ensures addr < x.vma.end || addr < x.vma.start ==> Misses(r, addr)
  {
    var s := l + [x] + r;
    forall i | 0 <= i < |l| ensures s[i] == l[i] && l[i].vma.end <= x.vma.start {
      assert s[i].vma.end <= s[|l|].vma.start;
    }
    forall i | 0 <= i < |r| ensures s[|l| + 1 + i] == r[i] && x.vma.end <= r[i].vma.start {
      assert s[|l|].vma.end <= s[|l| + 1 + i].vma.start;
    }
  }

  lemma MissesConcat(l: seq<VmaNode>, x: VmaNode, r: seq<VmaNode>, addr: nat)
    ensures Misses(l + [x] + r, addr) <==> Misses(l, addr) && !x.vma.Contains(addr) && Misses(r, addr)
  {
    var s := l + [x] + r;
    assert s[|l|] == x;
    assert forall i :: 0 <= i < |l| ==> s[i] == l[i];
    assert forall i :: 0 <= i < |r| ==> s[|l| + 1 + i] == r[i];
  }

  /** On disjoint areas the lookup finds the area that contains the address, or nothing exactly when none does. */
  lemma {:induction false} FindIsExact(t: Shape, addr: nat, found: Option<VmaNode>)
    requires Sorted(Inorder(t)) && Disjoint(Inorder(t))
    ensures var r := FindFrom(t, addr, found);
            if Misses(Inorder(t), addr) then r == found
            else r.Some? && r.value in Inorder(t) && r.value.vma.start <= addr < r.value.vma.end
  {
    if t.Node? {
      SortedParts(Inorder(t.left), t.item, Inorder(t.right));
      DisjointParts(Inorder(t.left), t.item, Inorder(t.right), addr);
      MissesConcat(Inorder(t.left), t.item, Inorder(t.right), addr);
      if t.item.vma.Contains(addr) {
        FindIsExact(t.left, addr, Some(t.item));
      } else if addr < t.item.vma.start {
        FindIsExact(t.left, addr, found);
      } else {
        FindIsExact(t.right, addr, found);
      }
    }
  }

  /** At most one area contains the address. */
  lemma FoundIsUnique(s: seq<VmaNode>, x: VmaNode, y: VmaNode, addr: nat)
    requires Sorted(s) && Disjoint(s) && x in s && y in s
    requires x.vma.start <= addr < x.vma.end && y.vma.start <= addr < y.vma.end
    ensures x == y
  {
    var i :| 0 <= i < |s| && s[i] == x;
    var j :| 0 <= j < |s| && s[j] == y;
    assert !(i < j) && !(j < i);
  }
}
