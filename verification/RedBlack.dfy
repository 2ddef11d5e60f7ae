/**
 * Binary trees with coloured nodes, seen from a node in the middle: a tree is a path to a
 * subtree and the subtree. This is the shape the rebalancing loop of kernel/mm/vma.c works on.
 */
module RedBlack {
  import opened Prelude
  import opened Trees

  /** Trees whose marks say which nodes are red. */
  type Coloured<N> = Tree<N, bool>

  /** The way from a subtree up to the root: at each step the parent and the sibling subtree. */
  datatype Path<N> =
    | Top
    | InLeft(up: Path<N>, item: N, red: bool, right: Coloured<N>)
    | InRight(up: Path<N>, left: Coloured<N>, item: N, red: bool)

  ghost function Plug<N>(path: Path<N>, t: Coloured<N>): Coloured<N> {
    match path
    case Top => t
    case InLeft(up, x, red, r) => Plug(up, Node(t, x, red, r))
    case InRight(up, l, x, red) => Plug(up, Node(l, x, red, t))
  }

  /** The subtree one level up. */
  function Up<N>(path: Path<N>, t: Coloured<N>): Coloured<N>
    requires !path.Top?
  {
    if path.InLeft? then Node(t, path.item, path.red, path.right) else Node(path.left, path.item, path.red, t)
  }

  // ----- Contents -----

  /** The items before and after the subtree the path leads to. */
  ghost function Before<N>(path: Path<N>): seq<N> {
    match path
    case Top => []
    case InLeft(up, _, _, _) => Before(up)
    case InRight(up, l, x, _) => Before(up) + (Inorder(l) + [x])
  }

  ghost function After<N>(path: Path<N>): seq<N> {
    match path
    case Top => []
    case InLeft(up, x, _, r) => [x] + Inorder(r) + After(up)
    case InRight(up, _, _, _) => After(up)
  }

  lemma {:induction false} InorderPlug<N>(path: Path<N>, t: Coloured<N>)
    ensures Inorder(Plug(path, t)) == Before(path) + Inorder(t) + After(path)
  {
    match path
    case Top =>
    case InLeft(up, x, red, r) =>
      InorderPlug(up, Node(t, x, red, r));
      Reassociate(Before(up), Inorder(t), [x], Inorder(r), After(up));
    case InRight(up, l, x, red) =>
      InorderPlug(up, Node(l, x, red, t));
      Reassociate(Before(up), Inorder(l), [x], Inorder(t), After(up));
  }

  lemma Reassociate<N>(a: seq<N>, b: seq<N>, c: seq<N>, d: seq<N>, e: seq<N>)
    ensures a + (b + c + d) + e == a + b + (c + d + e)
    ensures a + (b + c + d) + e == a + (b + c) + d + e
  {
  }

  // ----- Balance -----

  predicate IsRed<N>(t: Coloured<N>) {
    t.Node? && t.mark
  }

  /** No red node has a red child. */
  ghost predicate NoRedRed<N>(t: Coloured<N>) {
    t.Node? ==> NoRedRed(t.left) && NoRedRed(t.right) && (t.mark ==> !IsRed(t.left) && !IsRed(t.right))
  }

  /** Every way down meets the same number `h` of black nodes. */
  ghost predicate BlackHeight<N>(t: Coloured<N>, h: nat) {
    match t
    case Leaf => h == 0
    case Node(l, _, red, r) =>
      if red then BlackHeight(l, h) && BlackHeight(r, h)
      else h > 0 && BlackHeight(l, h - 1) && BlackHeight(r, h - 1)
  }

  ghost predicate IsRedBlack<N>(t: Coloured<N>) {
    !IsRed(t) && NoRedRed(t) && exists h: nat :: BlackHeight(t, h)
  }

  predicate PathRed<N>(path: Path<N>) {
    !path.Top? && path.red
  }

  /** The path has no red node with a red child or at the root, whatever hangs below its first node. */
  ghost predicate PathNoRedRed<N>(path: Path<N>) {
    match path
    case Top => true
    case InLeft(up, _, red, r) =>
      NoRedRed(r) && PathNoRedRed(up) && (red ==> !IsRed(r) && !PathRed(up) && !up.Top?)
    case InRight(up, l, _, red) =>
      NoRedRed(l) && PathNoRedRed(up) && (red ==> !IsRed(l) && !PathRed(up) && !up.Top?)
  }

  /** A subtree of black height `h` at the end of the path gives all ways down the same height. */
  ghost predicate PathBlackHeight<N>(path: Path<N>, h: nat) {
    match path
    case Top => true
    case InLeft(up, _, red, r) => BlackHeight(r, h) && PathBlackHeight(up, if red then h else h + 1)
    case InRight(up, l, _, red) => BlackHeight(l, h) && PathBlackHeight(up, if red then h else h + 1)
  }

  lemma {:induction false} PlugBlackHeight<N>(path: Path<N>, t: Coloured<N>, h: nat) returns (top: nat)
    requires PathBlackHeight(path, h) && BlackHeight(t, h)
    ensures BlackHeight(Plug(path, t), top)
  {
    match path
    case Top => top := h;
    case InLeft(up, x, red, r) => top := PlugBlackHeight(up, Node(t, x, red, r), if red then h else h + 1);
    case InRight(up, l, x, red) => top := PlugBlackHeight(up, Node(l, x, red, t), if red then h else h + 1);
  }

  /** With a black parent (or none) above a red subtree, the whole tree has no red-red edge. */
  lemma {:induction false} PlugNoRedRed<N>(path: Path<N>, t: Coloured<N>)
    requires PathNoRedRed(path) && NoRedRed(t) && (IsRed(t) ==> !PathRed(path))
    ensures NoRedRed(Plug(path, t)) && (!path.Top? ==> !IsRed(Plug(path, t)))
  {
    match path
    case Top =>
    case InLeft(up, x, red, r) =>
      PlugNoRedRed(up, Node(t, x, red, r));
    case InRight(up, l, x, red) =>
      PlugNoRedRed(up, Node(l, x, red, t));
  }

  function Blacken<N>(t: Coloured<N>): Coloured<N> {
    if t.Leaf? then t else t.(mark := false)
  }

  /** The end of the fix-up: nothing red above a red node, then the root is painted black. */
  lemma BlackenedPlugIsRedBlack<N>(path: Path<N>, t: Coloured<N>, h: nat)
    requires PathNoRedRed(path) && NoRedRed(t) && (IsRed(t) ==> !PathRed(path))
    requires PathBlackHeight(path, h) && BlackHeight(t, h)
    ensures IsRedBlack(Blacken(Plug(path, t)))
    ensures Inorder(Blacken(Plug(path, t))) == Before(path) + Inorder(t) + After(path)
  {
    PlugNoRedRed(path, t);
    InorderPlug(path, t);
    var top := PlugBlackHeight(path, t, h);
    var whole := Plug(path, t);
    assert BlackHeight(Blacken(whole), if IsRed(whole) then top + 1 else top);
  }

  // ----- The fix-up after an insertion -----

  /** The subtree hangs below a red node that has a parent itself. */
  predicate RedRed<N>(path: Path<N>) {
    PathRed(path) && !path.up.Top?
  }

  function Uncle<N>(path: Path<N>): Coloured<N>
    requires RedRed(path)
  {
    if path.up.InLeft? then path.up.right else path.up.left
  }

  /** A red uncle: parent and uncle turn black, the grandparent red. */
  function Recolored<N>(path: Path<N>, t: Coloured<N>): Coloured<N>
    requires RedRed(path)
  {
    match path
    case InLeft(InLeft(_, g, _, u), p, _, r) => Node(Node(t, p, false, r), g, true, Blacken(u))
    case InRight(InLeft(_, g, _, u), l, p, _) => Node(Node(l, p, false, t), g, true, Blacken(u))
    case InLeft(InRight(_, u, g, _), p, _, r) => Node(Blacken(u), g, true, Node(t, p, false, r))
    case InRight(InRight(_, u, g, _), l, p, _) => Node(Blacken(u), g, true, Node(l, p, false, t))
  }

  /** A black uncle: one rotation at the grandparent, after one at the parent if `t` is an inner child. */
  function Rotated<N>(path: Path<N>, t: Coloured<N>): Coloured<N>
    requires RedRed(path) && t.Node?
  {
    match path
    case InLeft(InLeft(_, g, _, u), p, _, r) => Node(t, p, false, Node(r, g, true, u))
    case InRight(InLeft(_, g, _, u), l, p, _) =>
      Node(Node(l, p, true, t.left), t.item, false, Node(t.right, g, true, u))
    case InLeft(InRight(_, u, g, _), p, _, r) =>
      Node(Node(u, g, true, t.left), t.item, false, Node(t.right, p, true, r))
    case InRight(InRight(_, u, g, _), l, p, _) => Node(Node(u, g, true, l), p, false, t)
  }

  /**
   * vma_rb_insert_fixup at the red subtree `t`: while the parent is red, either the uncle is red
   * too and the red moves up two levels, or one or two rotations end the matter.
   */
  ghost function Fixup<N>(path: Path<N>, t: Coloured<N>): Coloured<N>
    requires t.Node?
  {
    if !RedRed(path) then Blacken(Plug(path, t))
    else if IsRed(Uncle(path)) then Fixup(path.up.up, Recolored(path, t))
    else Blacken(Plug(path.up.up, Rotated(path, t)))
  }

  /** The tree is red-black except that `t` and its parent may both be red. */
  ghost predicate Fixable<N>(path: Path<N>, t: Coloured<N>, h: nat) {
    t.Node? && NoRedRed(t) && BlackHeight(t, h) && PathNoRedRed(path) && PathBlackHeight(path, h)
  }

  lemma RecoloredIsFixable<N>(path: Path<N>, t: Coloured<N>, h: nat)
    requires Fixable(path, t, h) && RedRed(path) && IsRed(Uncle(path))
    ensures Fixable(path.up.up, Recolored(path, t), h + 1)
  {
    var up, u := path.up, Uncle(path);
    assert PathNoRedRed(up) && PathBlackHeight(up, h) && !up.red;
    assert NoRedRed(u) && BlackHeight(u, h) && BlackHeight(Blacken(u), h + 1);
  }

  lemma RotatedIsFixable<N>(path: Path<N>, t: Coloured<N>, h: nat)
    requires Fixable(path, t, h) && RedRed(path) && !IsRed(Uncle(path)) && IsRed(t)
    ensures Fixable(path.up.up, Rotated(path, t), h + 1)
  {
    var up, u := path.up, Uncle(path);
    assert PathNoRedRed(up) && PathBlackHeight(up, h) && !up.red;
    assert NoRedRed(u) && BlackHeight(u, h);
  }

  lemma Regroup<N>(a: seq<N>, b: seq<N>, c: seq<N>, d: seq<N>, e: seq<N>)
    ensures (a + b + c) + d + e == a + b + (c + d + e)
  {
  }

  lemma RegroupInner<N>(a: seq<N>, b: seq<N>, c: seq<N>, d: seq<N>, e: seq<N>, f: seq<N>, g: seq<N>)
    ensures (a + b + (c + d + e)) + f + g == (a + b + c) + d + (e + f + g)
    ensures a + b + ((c + d + e) + f + g) == (a + b + c) + d + (e + f + g)
  {
  }

  function Grandparent<N>(path: Path<N>, t: Coloured<N>): Coloured<N>
    requires RedRed(path)
  {
    Up(path.up, Up(path, t))
  }

  lemma RotatedOrder<N>(path: Path<N>, t: Coloured<N>)
    requires RedRed(path) && t.Node?
    ensures Inorder(Rotated(path, t)) == Inorder(Grandparent(path, t))
  {
    match path
    case InLeft(InLeft(_, g, _, u), p, _, r) => Regroup(Inorder(t), [p], Inorder(r), [g], Inorder(u));
    case InRight(InLeft(_, g, _, u), l, p, _) =>
      assert Inorder(Node(l, p, true, t)) == Inorder(l) + [p] + Inorder(t);
      RegroupInner(Inorder(l), [p], Inorder(t.left), [t.item], Inorder(t.right), [g], Inorder(u));
    case InLeft(InRight(_, u, g, _), p, _, r) =>
      assert Inorder(Node(t, p, true, r)) == Inorder(t) + [p] + Inorder(r);
      RegroupInner(Inorder(u), [g], Inorder(t.left), [t.item], Inorder(t.right), [p], Inorder(r));
    case InRight(InRight(_, u, g, _), l, p, _) => Regroup(Inorder(u), [g], Inorder(l), [p], Inorder(t));
  }

  lemma OrderKept<N>(path: Path<N>, t: Coloured<N>, t': Coloured<N>)
    requires RedRed(path) && Inorder(t') == Inorder(Grandparent(path, t))
    ensures Before(path) + Inorder(t) + After(path) == Before(path.up.up) + Inorder(t') + After(path.up.up)
  {
    InorderPlug(path, t);
    InorderPlug(path.up.up, Grandparent(path, t));
  }

  /** The fix-up ends in a red-black tree with the same items in the same order. */
  lemma {:induction false} FixupIsRedBlack<N>(path: Path<N>, t: Coloured<N>, h: nat)
    requires Fixable(path, t, h) && IsRed(t)
    ensures IsRedBlack(Fixup(path, t))
    ensures Inorder(Fixup(path, t)) == Before(path) + Inorder(t) + After(path)
  {
    if !RedRed(path) {
      BlackenedPlugIsRedBlack(path, t, h);
    } else if IsRed(Uncle(path)) {
      RecoloredIsFixable(path, t, h);
      OrderKept(path, t, Recolored(path, t));
      FixupIsRedBlack(path.up.up, Recolored(path, t), h + 1);
    } else {
      RotatedIsFixable(path, t, h);
      RotatedOrder(path, t);
      OrderKept(path, t, Rotated(path, t));
      BlackenedPlugIsRedBlack(path.up.up, Rotated(path, t), h + 1);
    }
  }

  // ----- Height -----

  lemma {:induction false} BlackHeightBounds<N>(t: Coloured<N>, h: nat)
    requires BlackHeight(t, h) && NoRedRed(t)
    ensures Pow2(h) <= Count(t) + 1
    ensures Height(t) <= 2 * h + (if IsRed(t) then 1 else 0)
  {
    if t.Node? {
      var h' := if t.mark then h else h - 1;
      BlackHeightBounds(t.left, h');
      BlackHeightBounds(t.right, h');
    }
  }

  lemma SquareMonotone(a: nat, b: nat)
    requires a <= b
    ensures a * a <= b * b
  {
    assert (b - a) * (b + a) >= 0;
    assert (b - a) * (b + a) == b * b - a * a;
  }

  /** height <= 2 * log2(n + 1), without logarithms. */
  lemma HeightBound<N>(t: Coloured<N>)
    requires IsRedBlack(t)
    ensures Pow2(Height(t)) <= (Count(t) + 1) * (Count(t) + 1)
  {
    var h: nat :| BlackHeight(t, h);
    BlackHeightBounds(t, h);
    Pow2Grows(Height(t), 2 * h);
    Pow2Sum(h, h);
    SquareMonotone(Pow2(h), Count(t) + 1);
  }
}
