/** Binary search trees and what they hold, in order. */
module Trees {
  import opened Prelude

  /** Nodes may carry a mark beside their item. */
  datatype Tree<N, M> = Leaf | Node(left: Tree<N, M>, item: N, mark: M, right: Tree<N, M>)

  ghost function Inorder<N, M>(t: Tree<N, M>): seq<N> {
    if t.Leaf? then [] else Inorder(t.left) + [t.item] + Inorder(t.right)
  }

  function Count<N, M>(t: Tree<N, M>): nat {
    if t.Leaf? then 0 else Count(t.left) + 1 + Count(t.right)
  }

  lemma {:induction false} CountIsLength<N, M>(t: Tree<N, M>)
    ensures Count(t) == |Inorder(t)|
  {
    if t.Node? {
      CountIsLength(t.left);
      CountIsLength(t.right);
    }
  }

  function Height<N, M>(t: Tree<N, M>): nat {
    if t.Leaf? then 0 else 1 + Max(Height(t.left), Height(t.right))
  }
}
