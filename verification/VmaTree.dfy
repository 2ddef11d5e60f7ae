/** The red-black tree of virtual memory areas, with its parent links (kernel/mm/vma.c). */
module VmaTree {
  import opened Prelude
  import opened RedBlack
  import opened Trees
  import opened VmaOrder

  // ----- The nodes of a tree, and that no node occurs twice -----

  ghost function Items(t: Shape): set<VmaNode> {
    if t.Leaf? then {} else Items(t.left) + {t.item} + Items(t.right)
  }

  ghost function WayItems(path: Way): set<VmaNode> {
    match path
    case Top => {}
    case InLeft(up, x, _, r) => WayItems(up) + {x} + Items(r)
    case InRight(up, l, x, _) => WayItems(up) + {x} + Items(l)
  }

  ghost predicate Distinct(t: Shape) {
    t.Node? ==>
      && t.item !in Items(t.left) && t.item !in Items(t.right) && Items(t.left) !! Items(t.right)
      && Distinct(t.left) && Distinct(t.right)
  }

  ghost predicate WayDistinct(path: Way) {
    match path
    case Top => true
    case InLeft(up, x, _, r) =>
      && x !in Items(r) && Distinct(r) && x !in WayItems(up) && Items(r) !! WayItems(up) && WayDistinct(up)
    case InRight(up, l, x, _) =>
      && x !in Items(l) && Distinct(l) && x !in WayItems(up) && Items(l) !! WayItems(up) && WayDistinct(up)
  }

  ghost predicate Whole(path: Way, t: Shape) {
    Distinct(t) && WayDistinct(path) && Items(t) !! WayItems(path)
  }

  function Painted(t: Shape, red: bool): Shape {
    if t.Leaf? then t else t.(mark := red)
  }

  /** What the two rotations do to a subtree. */
  function TurnedLeft(t: Shape): Shape
    requires t.Node? && t.right.Node?
  {
    t.right.(left := t.(right := t.right.left))
  }

  function TurnedRight(t: Shape): Shape
    requires t.Node? && t.left.Node?
  {
    t.left.(right := t.(left := t.left.right))
  }

  // ----- The heap holds the tree -----

  /** The pointer `p`, below the node `up`, is the root of the tree `t`, all links and colours included. */
  ghost predicate Linked(t: Shape, p: VmaNode?, up: VmaNode?)
    reads Items(t)
  {
    match t
    case Leaf => p == null
    case Node(l, x, red, r) =>
      p == x && x.parent == up && x.red == red && Linked(l, x.left, x) && Linked(r, x.right, x)
  }

  ghost function Above(path: Way): VmaNode? {
    if path.Top? then null else path.item
  }

  /** The rest of the tree, from the pointer `p` up to `root`. */
  ghost predicate WayLinked(path: Way, p: VmaNode?, root: VmaNode?)
    reads WayItems(path)
  {
    match path
    case Top => root == p
    case InLeft(up, x, red, r) =>
      && x.left == p && x.red == red && x.parent == Above(up)
      && Linked(r, x.right, x) && WayLinked(up, x, root)
    case InRight(up, l, x, red) =>
      && x.right == p && x.red == red && x.parent == Above(up)
      && Linked(l, x.left, x) && WayLinked(up, x, root)
  }

  ghost predicate Held(path: Way, t: Shape, p: VmaNode?, root: VmaNode?)
    reads Items(t), WayItems(path)
  {
    Linked(t, p, Above(path)) && WayLinked(path, p, root)
  }

  ghost function AllItems(path: Way, t: Shape): set<VmaNode> {
    Items(t) + WayItems(path)
  }

  // ----- The steps of the fix-up neither lose nor share nodes -----

  /** Same nodes, none shared. */
  ghost predicate SameNodes(path: Way, t: Shape, path': Way, t': Shape) {
    Whole(path', t') && AllItems(path', t') == AllItems(path, t)
  }

  lemma UpWhole(path: Way, t: Shape)
    requires !path.Top? && Whole(path, t)
    ensures SameNodes(path, t, path.up, Up(path, t))
  {
  }

  lemma TurnedLeftWhole(path: Way, t: Shape)
    requires t.Node? && t.right.Node? && Whole(path, t)
    ensures SameNodes(path, t, path, TurnedLeft(t))
  {
    assert Distinct(t.right);
  }

  lemma TurnedRightWhole(path: Way, t: Shape)
    requires t.Node? && t.left.Node? && Whole(path, t)
    ensures SameNodes(path, t, path, TurnedRight(t))
  {
    assert Distinct(t.left);
  }

  lemma PaintedItems(t: Shape, red: bool)
    requires Distinct(t)
    ensures Items(Painted(t, red)) == Items(t) && Distinct(Painted(t, red))
  {
  }

  /** Colours do not matter. */
  lemma PaintedWhole(path: Way, t: Shape, l: bool, x: bool, r: bool)
    requires t.Node? && Whole(path, t)
    ensures SameNodes(path, t, path, Node(Painted(t.left, l), t.item, x, Painted(t.right, r)))
  {
    PaintedItems(t.left, l);
    PaintedItems(t.right, r);
  }

  lemma RotatedWhole(path: Way, t: Shape)
    requires RedRed(path) && t.Node? && Whole(path, t)
    ensures SameNodes(path, t, path.up.up, Rotated(path, t))
  {
    var s := Up(path, t);
    UpWhole(path, t);
    if path.InLeft? != path.up.InLeft? {
      if path.InLeft? {
        TurnedRightWhole(path.up, s);
        s := TurnedRight(s);
      } else {
        TurnedLeftWhole(path.up, s);
        s := TurnedLeft(s);
      }
    }
    UpWhole(path.up, s);
    var g := Up(path.up, s);
    PaintedWhole(path.up.up, g, path.up.InLeft? ==> IsRed(g.left), true, path.up.InRight? ==> IsRed(g.right));
  }

  lemma ItemsOfChildren(t: Shape)
    requires t.Node? && t.left.Node? && t.right.Node?
    ensures {t.item, t.left.item, t.right.item} <= Items(t)
  {
  }

  lemma {:induction false} PlugWhole(path: Way, t: Shape)
    requires Whole(path, t)
    ensures Distinct(Plug(path, t)) && Items(Plug(path, t)) == AllItems(path, t)
    ensures t.Node? ==> Plug(path, t).Node?
  {
    match path
    case Top =>
    case InLeft(up, x, red, r) => PlugWhole(up, Node(t, x, red, r));
    case InRight(up, l, x, red) => PlugWhole(up, Node(l, x, red, t));
  }

  /** The parts of a rotation share no node. */
  ghost predicate Apart(path: Way, a: Shape, x: VmaNode, b: Shape, y: VmaNode, c: Shape) {
    && x != y && WayDistinct(path) && Distinct(b)
    && x !in Items(a) && x !in Items(b) && x !in Items(c) && x !in WayItems(path)
    && y !in Items(a) && y !in Items(b) && y !in Items(c) && y !in WayItems(path)
    && Items(a) !! Items(b) && Items(a) !! Items(c) && Items(b) !! Items(c)
    && Items(a) !! WayItems(path) && Items(b) !! WayItems(path) && Items(c) !! WayItems(path)
  }

  lemma HeldUp(path: Way, t: Shape, p: VmaNode?, root: VmaNode?)
    requires !path.Top? && Held(path, t, p, root)
    ensures Held(path.up, Up(path, t), path.item, root)
  {
  }

  /** What the links of the focused node and of its parent look like. */
  lemma LinksAt(path: Way, t: Shape, p: VmaNode, root: VmaNode?)
    requires !path.Top? && Whole(path, t) && Held(path, t, p, root)
    ensures p.parent == path.item && path.item.red == path.red
    ensures path.InLeft? <==> path.item.left == p
    ensures path.InRight? <==> path.item.right == p
  {
  }

  lemma ChildLinks(path: Way, t: Shape, root: VmaNode?)
    requires t.Node? && Held(path, t, t.item, root)
    ensures t.item.red == t.mark
    ensures t.left.Node? ==> t.left.item.parent == t.item
    ensures t.right.Node? ==> t.right.item.parent == t.item
  {
    assert Linked(t.left, t.item.left, t.item) && Linked(t.right, t.item.right, t.item);
  }

  lemma UncleAt(path: Way, t: Shape, p: VmaNode, root: VmaNode?)
    requires RedRed(path) && Whole(path, t) && Held(path, t, p, root)
    ensures var g := path.up.item;
            var uncle := if path.up.InLeft? then g.right else g.left;
            if Uncle(path).Leaf? then uncle == null else uncle == Uncle(path).item && uncle.red == IsRed(Uncle(path))
  {
    assert WayLinked(path.up, path.item, root);
  }

  lemma RedParent(path: Way, t: Shape, node: VmaNode, root: VmaNode?)
    requires Whole(path, t) && Held(path, t, node, root) && PathNoRedRed(path)
    requires node.parent != null && node.parent.red
    ensures RedRed(path)
  {
  }

  lemma BlackParent(path: Way, t: Shape, root: VmaNode?)
    requires t.Node? && Held(path, t, t.item, root)
    ensures t.item.parent == null || !t.item.parent.red <==> !PathRed(path)
  {
  }

  /** Going down one level keeps the focus on the same tree. */
  lemma DownLinks(path: Way, t: Shape, p: VmaNode, root: VmaNode?)
    requires Whole(path, t) && Held(path, t, p, root)
    ensures t.Node? && t.item == p
    ensures var down := InLeft(path, t.item, t.mark, t.right);
            SameNodes(path, t, down, t.left) && Held(down, t.left, p.left, root)
    ensures var down := InRight(path, t.left, t.item, t.mark);
            SameNodes(path, t, down, t.right) && Held(down, t.right, p.right, root)
  {
  }

  lemma {:induction false} ItemsAreInorder(t: Shape, x: VmaNode)
    ensures x in Items(t) <==> x in Inorder(t)
  {
    if t.Node? {
      ItemsAreInorder(t.left, x);
      ItemsAreInorder(t.right, x);
    }
  }

  lemma AbsentNode(t: Shape, x: VmaNode)
    requires VmaOrder.Valid(t) && !HasStart(Inorder(t), x.vma.start)
    ensures x !in Items(t)
  {
    ItemsAreInorder(t, x);
  }

  /** The state of the fix-up loop: at a red node, or done with one black node above it. */
  ghost predicate Fixing(path: Way, t: Shape, h: nat, done: bool, goal: Shape) {
    && t.Node?
    && (if done then !t.mark && Blacken(Plug(path, t)) == goal
        else t.mark && Fixable(path, t, h) && Fixup(path, t) == goal)
  }

  lemma {:induction false} HeldPlug(path: Way, t: Shape, p: VmaNode?, root: VmaNode?)
    requires Held(path, t, p, root)
    ensures Linked(Plug(path, t), root, null) && (root != null ==> root in Items(Plug(path, t)))
  {
    if !path.Top? {
      HeldUp(path, t, p, root);
      HeldPlug(path.up, Up(path, t), path.item, root);
    }
  }

  class AreaTree {
    var root: VmaNode?
    ghost var shape: Shape

    constructor ()
      ensures Valid() && shape == Leaf
    {
      root := null;
      shape := Leaf;
      new;
      assert BlackHeight(shape, 0);
    }

    /** if (child) child->parent = p; the other parts of the tree stay as they are. */
    method Adopt(child: VmaNode?, p: VmaNode, ghost b: Shape, ghost was: VmaNode,
                 ghost path: Way, ghost at: VmaNode, ghost a: Shape, ghost pa: VmaNode?, ghost ua: VmaNode,
                 ghost c: Shape, ghost pc: VmaNode?, ghost uc: VmaNode)
      requires Distinct(b) && Linked(b, child, was)
      requires Linked(a, pa, ua) && Linked(c, pc, uc) && WayLinked(path, at, root)
      requires Items(a) !! Items(b) && Items(b) !! Items(c) && Items(b) !! WayItems(path)
      modifies Items(b)
      ensures Linked(b, child, p)
      ensures Linked(a, pa, ua) && Linked(c, pc, uc) && WayLinked(path, at, root)
    {
      if child != null {
        child.parent := p;
      }
    }

    /** Puts `y` where `x` was in the parent of `x`, or at the root. */
    method ReplaceChild(x: VmaNode, y: VmaNode, ghost path: Way, ghost a: Shape, ghost pa: VmaNode?, ghost ua: VmaNode,
                        ghost b: Shape, ghost pb: VmaNode?, ghost ub: VmaNode,
                        ghost c: Shape, ghost pc: VmaNode?, ghost uc: VmaNode)
      requires WayDistinct(path) && x !in WayItems(path) && x.parent == Above(path)
      requires WayLinked(path, x, root)
      requires Items(a) !! WayItems(path) && Items(b) !! WayItems(path) && Items(c) !! WayItems(path)
      requires Linked(a, pa, ua) && Linked(b, pb, ub) && Linked(c, pc, uc)
      modifies this, WayItems(path)
      ensures WayLinked(path, y, root)
      ensures Linked(a, pa, ua) && Linked(b, pb, ub) && Linked(c, pc, uc)
    {
      if x.parent == null {
        root := y;
      } else if x == x.parent.left {
        x.parent.left := y;
      } else {
        x.parent.right := y;
      }
    }

    /** vma_rb_rotate_left: (a x (b y c)) becomes ((a x b) y c). */
    method RotateLeft(x: VmaNode, ghost path: Way, ghost a: Shape, ghost b: Shape, ghost y': VmaNode, ghost c: Shape)
      requires Apart(path, a, x, b, y', c)
      requires x.right == y' && x.parent == Above(path) && y'.parent == x && WayLinked(path, x, root)
      requires Linked(a, x.left, x) && Linked(b, y'.left, y') && Linked(c, y'.right, y')
      modifies this, WayItems(path), {x, y'}, Items(b)
      ensures y'.left == x && x.parent == y' && y'.parent == Above(path) && WayLinked(path, y', root)
      ensures Linked(a, x.left, x) && Linked(b, x.right, x) && Linked(c, y'.right, y')
      ensures x.red == old(x.red) && y'.red == old(y'.red)
    {
      hide Items, WayItems, Linked, WayLinked, Distinct, WayDistinct;
      var y := x.right;
      x.right := y.left;
      Adopt(y.left, x, b, y, path, x, a, x.left, x, c, y.right, y);
      y.parent := x.parent;
      ReplaceChild(x, y, path, a, x.left, x, b, x.right, x, c, y.right, y);
      y.left := x;
      x.parent := y;
    }

    /** vma_rb_rotate_right: ((a y b) x c) becomes (a y (b x c)). */
    method RotateRight(x: VmaNode, ghost path: Way, ghost a: Shape, ghost y': VmaNode, ghost b: Shape, ghost c: Shape)
      requires Apart(path, a, y', b, x, c)
      requires x.left == y' && x.parent == Above(path) && y'.parent == x && WayLinked(path, x, root)
      requires Linked(a, y'.left, y') && Linked(b, y'.right, y') && Linked(c, x.right, x)
      modifies this, WayItems(path), {x, y'}, Items(b)
      ensures y'.right == x && x.parent == y' && y'.parent == Above(path) && WayLinked(path, y', root)
      ensures Linked(a, y'.left, y') && Linked(b, x.left, x) && Linked(c, x.right, x)
      ensures x.red == old(x.red) && y'.red == old(y'.red)
    {
      hide Items, WayItems, Linked, WayLinked, Distinct, WayDistinct;
      var y := x.left;
      x.left := y.right;
      Adopt(y.right, x, b, y, path, x, a, y.left, y, c, x.right, x);
      y.parent := x.parent;
      ReplaceChild(x, y, path, a, y.left, y, b, x.left, x, c, x.right, x);
      y.right := x;
      x.parent := y;
    }

    /** The red-uncle case of the fix-up: both children of the grandparent turn black, it turns red. */
    method Recolor(g: VmaNode, ghost path: Way, ghost t: Shape)
      requires t.Node? && t.left.Node? && t.right.Node? && t.item == g
      requires Whole(path, t) && Held(path, t, g, root)
      modifies g, t.left.item, t.right.item
      ensures Held(path, Node(t.left.(mark := false), g, true, t.right.(mark := false)), g, root)
    {
      assert Linked(t.left, g.left, g) && Linked(t.right, g.right, g);
      assert Distinct(t.left) && Distinct(t.right);
      g.left.red := false;
      g.right.red := false;
      g.red := true;
    }

    method TurnLeft(x: VmaNode, ghost path: Way, ghost t: Shape)
      requires t.Node? && t.right.Node? && t.item == x && Whole(path, t) && Held(path, t, x, root)
      modifies this, AllItems(path, t)
      ensures Held(path, TurnedLeft(t), t.right.item, root)
    {
      assert Linked(t.right, x.right, x) && Distinct(t.right);
      RotateLeft(x, path, t.left, t.right.left, t.right.item, t.right.right);
    }

    method TurnRight(x: VmaNode, ghost path: Way, ghost t: Shape)
      requires t.Node? && t.left.Node? && t.item == x && Whole(path, t) && Held(path, t, x, root)
      modifies this, AllItems(path, t)
      ensures Held(path, TurnedRight(t), t.left.item, root)
    {
      assert Linked(t.left, x.left, x) && Distinct(t.left);
      RotateRight(x, path, t.left.left, t.left.item, t.left.right, t.right);
    }

    /** parent->color = RB_BLACK; gparent->color = RB_RED, for a left and for a right child. */
    method PaintLeft(c: VmaNode, g: VmaNode, ghost path: Way, ghost t: Shape)
      requires t.Node? && t.left.Node? && t.item == g && t.left.item == c && Whole(path, t) && Held(path, t, g, root)
      modifies c, g
      ensures Held(path, Node(t.left.(mark := false), g, true, t.right), g, root)
    {
      assert Linked(t.left, g.left, g) && Distinct(t.left);
      c.red := false;
      g.red := true;
    }

    method PaintRight(c: VmaNode, g: VmaNode, ghost path: Way, ghost t: Shape)
      requires t.Node? && t.right.Node? && t.item == g && t.right.item == c && Whole(path, t) && Held(path, t, g, root)
      modifies c, g
      ensures Held(path, Node(t.left, g, true, t.right.(mark := false)), g, root)
    {
      assert Linked(t.right, g.right, g) && Distinct(t.right);
      c.red := false;
      g.red := true;
    }

    /** With the parent `c` a left child and `t` on its outside: paint and rotate at the grandparent. */
    method FinishLeft(c: VmaNode, g: VmaNode, ghost path: Way, ghost t: Shape)
      requires t.Node? && t.left.Node? && t.item == g && t.left.item == c && Whole(path, t) && Held(path, t, g, root)
      modifies this, AllItems(path, t)
      ensures Held(path, Node(t.left.left, c, false, Node(t.left.right, g, true, t.right)), c, root)
    {
      ghost var painted := Node(t.left.(mark := false), g, true, t.right);
      assert SameNodes(path, t, path, painted) by {
        PaintedWhole(path, t, false, true, IsRed(t.right));
        assert t.right == Painted(t.right, IsRed(t.right));
      }
      PaintLeft(c, g, path, t);
      TurnRight(g, path, painted);
    }

    method FinishRight(c: VmaNode, g: VmaNode, ghost path: Way, ghost t: Shape)
      requires t.Node? && t.right.Node? && t.item == g && t.right.item == c && Whole(path, t) && Held(path, t, g, root)
      modifies this, AllItems(path, t)
      ensures Held(path, Node(Node(t.left, g, true, t.right.left), c, false, t.right.right), c, root)
    {
      ghost var painted := Node(t.left, g, true, t.right.(mark := false));
      assert SameNodes(path, t, path, painted) by {
        PaintedWhole(path, t, IsRed(t.left), true, false);
        assert t.left == Painted(t.left, IsRed(t.left));
      }
      PaintRight(c, g, path, t);
      TurnLeft(g, path, painted);
    }

    /** The rotations of the fix-up when the parent is a left child; returns the next `node`. */
    method BalanceLeft(node: VmaNode, ghost path: Way, ghost t: Shape) returns (next: VmaNode)
      requires t.Node? && t.item == node && RedRed(path) && path.up.InLeft? && Whole(path, t) && Held(path, t, node, root)
      modifies this, AllItems(path, t)
      ensures Held(path.up.up, Rotated(path, t), Rotated(path, t).item, root)
      ensures next.parent == Rotated(path, t).item
    {
      hide Items, WayItems, Linked, WayLinked, Distinct, WayDistinct, Held;
      ghost var s := Up(path, t);
      HeldUp(path, t, node, root);
      UpWhole(path, t);
      LinksAt(path, t, node, root);
      LinksAt(path.up, s, path.item, root);
      var parent := node.parent;
      var gparent := parent.parent;
      next := node;
      if parent.right == node {
        TurnedLeftWhole(path.up, s);
        TurnLeft(parent, path.up, s);
        s := TurnedLeft(s);
        next, parent := parent, node;
      }
      HeldUp(path.up, s, parent, root);
      UpWhole(path.up, s);
      FinishLeft(parent, gparent, path.up.up, Up(path.up, s));
      ChildLinks(path.up.up, Rotated(path, t), root);
    }

    method BalanceRight(node: VmaNode, ghost path: Way, ghost t: Shape) returns (next: VmaNode)
      requires t.Node? && t.item == node && RedRed(path) && path.up.InRight? && Whole(path, t) && Held(path, t, node, root)
      modifies this, AllItems(path, t)
      ensures Held(path.up.up, Rotated(path, t), Rotated(path, t).item, root)
      ensures next.parent == Rotated(path, t).item
    {
      hide Items, WayItems, Linked, WayLinked, Distinct, WayDistinct, Held;
      ghost var s := Up(path, t);
      HeldUp(path, t, node, root);
      UpWhole(path, t);
      LinksAt(path, t, node, root);
      LinksAt(path.up, s, path.item, root);
      var parent := node.parent;
      var gparent := parent.parent;
      next := node;
      if parent.left == node {
        TurnedRightWhole(path.up, s);
        TurnRight(parent, path.up, s);
        s := TurnedRight(s);
        next, parent := parent, node;
      }
      HeldUp(path.up, s, parent, root);
      UpWhole(path.up, s);
      FinishRight(parent, gparent, path.up.up, Up(path.up, s));
      ChildLinks(path.up.up, Rotated(path, t), root);
    }

    /** The red-uncle case seen from the node: the whole step moves two levels up. */
    method RecolorStep(gparent: VmaNode, ghost path: Way, ghost t: Shape, ghost node: VmaNode)
      requires RedRed(path) && IsRed(Uncle(path)) && Whole(path, t) && Held(path, t, node, root) && gparent == path.up.item
      modifies AllItems(path, t)
      ensures Held(path.up.up, Recolored(path, t), gparent, root)
      ensures SameNodes(path, t, path.up.up, Recolored(path, t))
    {
      hide Items, WayItems, Linked, WayLinked, Distinct, WayDistinct, Held;
      ghost var s := Up(path, t);
      HeldUp(path, t, node, root);
      UpWhole(path, t);
      HeldUp(path.up, s, path.item, root);
      UpWhole(path.up, s);
      ghost var g := Up(path.up, s);
      PaintedWhole(path.up.up, g, false, true, false);
      ItemsOfChildren(g);
      Recolor(gparent, path.up.up, g);
    }

    /** One iteration of vma_rb_insert_fixup. */
    method FixStep(node: VmaNode, ghost path: Way, ghost t: Shape, ghost h: nat, ghost goal: Shape)
      returns (next: VmaNode, ghost t': Shape, ghost done: bool)
      requires t.Node? && node == t.item && RedRed(path) && Fixing(path, t, h, false, goal)
      requires Whole(path, t) && Held(path, t, node, root)
      modifies this, AllItems(path, t)
      ensures Fixing(path.up.up, t', h + 1, done, goal) && SameNodes(path, t, path.up.up, t')
      ensures Held(path.up.up, t', t'.item, root)
      ensures if done then next.parent == t'.item else next == t'.item
    {
      hide Items, WayItems, Linked, WayLinked, Distinct, WayDistinct, Held;
      LinksAt(path, t, node, root);
      HeldUp(path, t, node, root);
      UpWhole(path, t);
      LinksAt(path.up, Up(path, t), path.item, root);
      UncleAt(path, t, node, root);
      var parent := node.parent;
      var gparent := parent.parent;
      if parent == gparent.left {
        var uncle := gparent.right;
        if uncle != null && uncle.red {
          RecoloredIsFixable(path, t, h);
          RecolorStep(gparent, path, t, node);
          return gparent, Recolored(path, t), false;
        }
        RotatedWhole(path, t);
        next := BalanceLeft(node, path, t);
        return next, Rotated(path, t), true;
      } else {
        var uncle := gparent.left;
        if uncle != null && uncle.red {
          RecoloredIsFixable(path, t, h);
          RecolorStep(gparent, path, t, node);
          return gparent, Recolored(path, t), false;
        }
        RotatedWhole(path, t);
        next := BalanceRight(node, path, t);
        return next, Rotated(path, t), true;
      }
    }

    /** vma_rb_insert_fixup from the freshly linked red node. */
    method InsertFixup(start: VmaNode, ghost path0: Way, ghost t0: Shape, ghost h0: nat)
      requires t0.Node? && t0.mark && t0.item == start && Fixable(path0, t0, h0)
      requires Whole(path0, t0) && Held(path0, t0, start, root)
      modifies this, AllItems(path0, t0)
      ensures Linked(Fixup(path0, t0), root, null)
      ensures Distinct(Fixup(path0, t0)) && Items(Fixup(path0, t0)) == AllItems(path0, t0)
    {
      hide Items, WayItems, Linked, WayLinked, Distinct, WayDistinct, Held;
      var node := start;
      ghost var path, t, h, done := path0, t0, h0, false;
      ghost var goal := Fixup(path0, t0);
      while node.parent != null && node.parent.red
        invariant Fixing(path, t, h, done, goal) && SameNodes(path0, t0, path, t)
        invariant Held(path, t, t.item, root)
        invariant if done then node.parent == t.item else node == t.item
        decreases path
      {
        ChildLinks(path, t, root);
        RedParent(path, t, node, root);
        node, t, done := FixStep(node, path, t, h, goal);
        path, h := path.up.up, h + 1;
      }
      ChildLinks(path, t, root);
      BlackParent(path, t, root);
      PlugWhole(path, t);
      HeldPlug(path, t, t.item, root);
      PaintRoot(Plug(path, t));
    }

    /** (*root)->color = RB_BLACK */
    method PaintRoot(ghost t: Shape)
      requires t.Node? && Distinct(t) && Linked(t, root, null)
      modifies root
      ensures Linked(Blacken(t), root, null) && Distinct(Blacken(t)) && Items(Blacken(t)) == Items(t)
    {
      root.red := false;
    }

    // ----- The tree as its clients see it -----

    ghost predicate Valid()
      reads this, Items(shape)
    {
      VmaOrder.Valid(shape) && Distinct(shape) && Linked(shape, root, null)
    }

    /** The descent of vma_rb_insert: the last node seen, or the node with this start. */
    method Descend(k: nat) returns (duplicate: bool, y: VmaNode?, ghost path: Way)
      requires Valid()
      ensures duplicate <==> Search(Top, shape, k).1.Node?
      ensures path == Search(Top, shape, k).0
      ensures !duplicate ==> y == Above(path) && WayDistinct(path) && WayItems(path) == Items(shape) && WayLinked(path, null, root)
      ensures y != null ==> y in Items(shape)
    {
      var x := root;
      y := null;
      path := Top;
      ghost var t := shape;
      while x != null
        invariant SameNodes(Top, shape, path, t) && Held(path, t, x, root) && y == Above(path)
        invariant Search(path, t, k) == Search(Top, shape, k)
        decreases t
      {
        y := x;
        DownLinks(path, t, x, root);
        if k < x.vma.start {
          path, t := InLeft(path, t.item, t.mark, t.right), t.left;
          x := x.left;
        } else if k > x.vma.start {
          path, t := InRight(path, t.left, t.item, t.mark), t.right;
          x := x.right;
        } else {
          return true, y, path;
        }
      }
      duplicate := false;
    }

    /** vma_rb_insert: -1 and nothing changed exactly when the start is present, else 0. */
    method Insert(node: VmaNode) returns (ret: int)
      requires Valid()
      modifies this, node, Items(shape)
      ensures Valid() && (shape, ret) == VmaOrder.Insert(old(shape), node)
      ensures Items(shape) == old(Items(shape)) + (if ret == 0 then {node} else {})
      ensures ret == -1 ==> unchanged(this) && unchanged(node)
    {
      assert allocated(Items(shape));
      hide Items, WayItems, Linked, WayLinked, Distinct, WayDistinct, Held;
      InsertEffect(shape, node);
      var duplicate, y, path := Descend(node.vma.start);
      if duplicate {
        return -1;
      }
      AbsentNode(shape, node);
      SearchSide(Top, shape, node.vma.start);
      LinkNew(node, y, path);
      ghost var h := FreshIsFixable(shape, node);
      InsertFixup(node, path, NewLeaf(node), h);
      shape := Fixup(path, NewLeaf(node));
      return 0;
    }

    /** vma_rb_find, and the number of nodes it visits. */
    method Find(addr: nat) returns (found: VmaNode?, ghost visited: nat)
      requires Valid()
      ensures FindFrom(shape, addr, None) == (if found == null then None else Some(found))
      ensures Disjoint(Inorder(shape)) ==>
                if Misses(Inorder(shape), addr) then found == null
                else found != null && found in Inorder(shape) && found.vma.start <= addr < found.vma.end
      ensures Pow2(visited) <= (Count(shape) + 1) * (Count(shape) + 1)
    {
      if Disjoint(Inorder(shape)) {
        FindIsExact(shape, addr, None);
      }
      HeightBound(shape);
      var node := root;
      found := null;
      visited := 0;
      ghost var t, path := shape, Top;
      while node != null
        invariant SameNodes(Top, shape, path, t) && Held(path, t, node, root)
        invariant FindFrom(t, addr, if found == null then None else Some(found)) == FindFrom(shape, addr, None)
        invariant visited + Height(t) <= Height(shape)
        decreases t
      {
        DownLinks(path, t, node, root);
        if addr >= node.vma.start && addr < node.vma.end {
          found := node;
          path, t := InLeft(path, t.item, t.mark, t.right), t.left;
          node := node.left;
        } else if addr < node.vma.start {
          path, t := InLeft(path, t.item, t.mark, t.right), t.left;
          node := node.left;
        } else {
          path, t := InRight(path, t.left, t.item, t.mark), t.right;
          node := node.right;
        }
        visited := visited + 1;
      }
      Pow2Grows(visited, Height(shape));
    }

    /** The new node becomes a red leaf below `y`. */
    method LinkNew(node: VmaNode, y: VmaNode?, ghost path: Way)
      requires y == Above(path) && WayDistinct(path) && node !in WayItems(path) && WayLinked(path, null, root)
      requires SearchEnds(path, node.vma.start)
      modifies this`root, node, if y == null then {} else {y}
      ensures Held(path, NewLeaf(node), node, root) && Whole(path, NewLeaf(node))
      ensures AllItems(path, NewLeaf(node)) == WayItems(path) + {node}
    {
      node.parent := y;
      node.left, node.right := null, null;
      node.red := true;
      if y == null {
        root := node;
      } else if node.vma.start < y.vma.start {
        y.left := node;
      } else {
        y.right := node;
      }
    }
  }
}
