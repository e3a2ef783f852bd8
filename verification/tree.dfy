/** The binary tree MyTree builds: a node holds an integer value and two
    possibly absent children. */
module BinaryTree {

  /** `Nil` is the absent (null) node reference; `Node` is a SimpleTreeNode. */
  datatype Tree = Nil | Node(value: int, left: Tree, right: Tree)

  /** A node without children. */
  predicate IsLeaf(t: Tree)
  {
    t.Node? && t.left.Nil? && t.right.Nil?
  }

  /** Every node has either zero or two children. */
  predicate IsFull(t: Tree)
  {
    match t
    case Nil => true
    case Node(_, l, r) => (l.Nil? <==> r.Nil?) && IsFull(l) && IsFull(r)
  }

  /** Number of nodes. */
  function Size(t: Tree): nat
  {
    match t
    case Nil => 0
    case Node(_, l, r) => 1 + Size(l) + Size(r)
  }

  /** Number of nodes without children. */
  function LeafCount(t: Tree): nat
  {
    match t
    case Nil => 0
    case Node(_, l, r) => if IsLeaf(t) then 1 else LeafCount(l) + LeafCount(r)
  }

  /** Every leaf holds the value 1. */
  predicate LeavesAreOne(t: Tree)
  {
    match t
    case Nil => true
    case Node(v, l, r) => (IsLeaf(t) ==> v == 1) && LeavesAreOne(l) && LeavesAreOne(r)
  }

  /** Every node with children holds the sum of its children's values. */
  predicate IsSumTree(t: Tree)
  {
    match t
    case Nil => true
    case Node(v, l, r) =>
      (l.Node? && r.Node? ==> v == l.value + r.value) && IsSumTree(l) && IsSumTree(r)
  }

  /** Every node holds the number of leaves of the subtree it roots. */
  predicate ValueCountsLeaves(t: Tree)
  {
    match t
    case Nil => true
    case Node(v, l, r) => v == LeafCount(t) && ValueCountsLeaves(l) && ValueCountsLeaves(r)
  }

  /** A non-empty tree in which every node has zero or two children has one
      fewer internal node than leaves. */
  lemma {:induction false} FullTreeSize(t: Tree)
    requires t.Node? && IsFull(t)
    ensures Size(t) == 2 * LeafCount(t) - 1
  {
    if !IsLeaf(t) {
      FullTreeSize(t.left);
      FullTreeSize(t.right);
    }
  }

  /** In a full tree whose leaves hold 1 and whose inner nodes hold the sum of
      their children, each node's value is the number of leaves below it. */
  lemma {:induction false} SumTreeCountsLeaves(t: Tree)
    requires IsFull(t) && LeavesAreOne(t) && IsSumTree(t)
    ensures ValueCountsLeaves(t)
  {
    if t.Node? {
      SumTreeCountsLeaves(t.left);
      SumTreeCountsLeaves(t.right);
      if !IsLeaf(t) {
        assert t.left.Node? && t.right.Node?;
        assert ValueCountsLeaves(t.left) && ValueCountsLeaves(t.right);
      }
    }
  }
}
