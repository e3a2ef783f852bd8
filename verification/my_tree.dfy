/** MyTree: builds the Fibonacci tree of order n. `createTree` computes
    number = f(n), lists the Fibonacci numbers 1, 1, 2, 3, ... up to `number`,
    refuses a `number` the list overshoots, and builds the tree from the list. */
module MyTree {
  import opened Fibonacci
  import opened BinaryTree

  /** The object state: its only field is the root (Nil before any build). */
  datatype MyTreeState = MyTreeState(root: Tree)

  /** How `createTree` ends: normally, or with the "not a Fibonacci number" exception. */
  datatype Outcome = Normal | NotFibonacci

  /** The shape of the list `createTree` fills: it starts 1, 1 and every later
      entry is the sum of the two before it. */
  predicate IsFibList(list: seq<int>)
  {
    && |list| >= 1
    && list[0] == 1
    && (|list| >= 2 ==> list[1] == 1)
    && forall i :: 2 <= i < |list| ==> list[i] == list[i - 1] + list[i - 2]
  }

  /** Entry i of such a list is the Fibonacci number of index i + 1. */
  lemma {:induction false} FibListEntry(list: seq<int>, i: nat)
    requires IsFibList(list) && i < |list|
    ensures list[i] == F(i + 1)
    decreases i
  {
    if i >= 2 {
      FibListEntry(list, i - 1);
      FibListEntry(list, i - 2);
    }
  }

  /** The recurrence-based description and the closed description of the list agree. */
  lemma FibListIsShiftedFib(list: seq<int>)
    ensures IsFibList(list) <==> |list| >= 1 && forall i :: 0 <= i < |list| ==> list[i] == F(i + 1)
  {
    if IsFibList(list) {
      forall i | 0 <= i < |list|
        ensures list[i] == F(i + 1)
      {
        FibListEntry(list, i);
      }
    }
  }

  /** `addNumber(index, list)`: a leaf of value 1 below index 2; otherwise a node
      holding list[index] whose left subtree is built from index - 2 and whose
      right subtree from index - 1. The shape and the leaf count do not depend
      on the list's contents. */
  function AddNumber(index: int, list: seq<int>): (t: Tree)
    requires index < |list|
    ensures t.Node? && IsFull(t) && LeavesAreOne(t)
    ensures index >= 0 ==> LeafCount(t) == F(index + 1)
    decreases index
  {
    if index < 2 then Node(1, Nil, Nil)
    else Node(list[index], AddNumber(index - 2, list), AddNumber(index - 1, list))
  }

  /** The Fibonacci tree of order k + 1, defined from F alone: the reference
      against which AddNumber is compared. */
  function FibTree(k: nat): Tree
  {
    if k < 2 then Node(1, Nil, Nil)
    else Node(F(k + 1), FibTree(k - 2), FibTree(k - 1))
  }

  /** Over a list of the loop's shape, AddNumber builds exactly the Fibonacci tree. */
  lemma {:induction false} AddNumberIsFibTree(index: nat, list: seq<int>)
    requires IsFibList(list) && index < |list|
    ensures AddNumber(index, list) == FibTree(index)
    decreases index
  {
    if index >= 2 {
      FibListEntry(list, index);
      AddNumberIsFibTree(index - 2, list);
      AddNumberIsFibTree(index - 1, list);
    }
  }

  /** The Fibonacci tree of order k + 1: its root holds F(k + 1), every inner node
      holds the sum of its children, and every node holds the number of leaves
      below it. */
  lemma {:induction false} FibTreeInvariants(k: nat)
    ensures FibTree(k).value == F(k + 1)
    ensures IsFull(FibTree(k)) && LeavesAreOne(FibTree(k))
    ensures IsSumTree(FibTree(k))
    ensures ValueCountsLeaves(FibTree(k))
  {
    if k >= 2 {
      FibTreeInvariants(k - 2);
      FibTreeInvariants(k - 1);
    }
    SumTreeCountsLeaves(FibTree(k));
  }

  /** The same invariants, stated for AddNumber over a list of the loop's shape. */
  lemma {:induction false} AddNumberInvariants(index: nat, list: seq<int>)
    requires IsFibList(list) && index < |list|
    ensures AddNumber(index, list).value == list[index]
    ensures IsSumTree(AddNumber(index, list))
    ensures ValueCountsLeaves(AddNumber(index, list))
  {
    AddNumberIsFibTree(index, list);
    FibTreeInvariants(index);
    FibListEntry(list, index);
  }

  /** The list loop of `createTree`: starting from [1], append the next Fibonacci
      number while the last one is below `number`. The result is the shortest
      such list whose last entry reaches `number`. */
  method FibListReaching(number: int) returns (list: seq<int>)
    ensures IsFibList(list)
    ensures forall i :: 0 <= i < |list| ==> list[i] == F(i + 1)
    ensures list[|list| - 1] >= number
    ensures forall i :: 0 <= i < |list| - 1 ==> list[i] < number
    ensures forall i, j :: 0 <= i <= j < |list| ==> list[i] <= list[j]
    ensures number <= MaxFibInt32 ==> forall i :: 0 <= i < |list| ==> list[i] <= Int32Max
  {
    var newNumber := 0;
    var nextNumber := 1;
    list := [nextNumber];
    while nextNumber < number
      invariant |list| >= 1
      invariant forall i :: 0 <= i < |list| ==> list[i] == F(i + 1)
      invariant nextNumber == list[|list| - 1] == F(|list|)
      invariant newNumber == F(|list| - 1)
      invariant forall i :: 0 <= i < |list| - 1 ==> list[i] < number
      decreases number - nextNumber, if newNumber == 0 then 1 else 0
    {
      if |list| >= 2 {
        FibPositive(|list| - 1);
      }
      var buffer := nextNumber;
      nextNumber := newNumber + nextNumber;
      newNumber := buffer;
      list := list + [nextNumber];
    }
    FibListIsShiftedFib(list);
    ShiftedFibNondecreasing(list);
    if number <= MaxFibInt32 {
      ReachingListFitsInt32(list, number);
    }
  }

  /** A list of consecutive Fibonacci numbers from F(1) on never decreases. */
  lemma ShiftedFibNondecreasing(list: seq<int>)
    requires forall i :: 0 <= i < |list| ==> list[i] == F(i + 1)
    ensures forall i, j :: 0 <= i <= j < |list| ==> list[i] <= list[j]
  {
    forall i, j | 0 <= i <= j < |list|
      ensures list[i] <= list[j]
    {
      FibMonotone(i + 1, j + 1);
    }
  }

  /** When `number` is at most F(46), the loop stops before its list leaves the
      range of a Java `int`. */
  lemma ReachingListFitsInt32(list: seq<int>, number: int)
    requires |list| >= 1 && forall i :: 0 <= i < |list| ==> list[i] == F(i + 1)
    requires forall i :: 0 <= i < |list| - 1 ==> list[i] < number
    requires number <= MaxFibInt32
    ensures forall i :: 0 <= i < |list| ==> list[i] <= Int32Max
  {
    FibTable();
    var m := |list|;
    if m >= 2 {
      assert list[m - 2] == F(m - 1) && list[m - 2] < number;
      FibIndexBelow(m - 1, 46);
    }
    forall i | 0 <= i < m
      ensures list[i] <= Int32Max
    {
      FibMonotone(i + 1, 46);
    }
  }

  /** Lines after `number = f(n)` in `createTree`: a zero `number` first sets the
      root to a single 0-node; the list loop runs; an overshooting last entry
      raises the exception, otherwise the root becomes the tree built from the
      list. The exception is raised exactly when `number` is not a Fibonacci
      number of positive index, and a normal build yields the Fibonacci tree
      whose root holds `number`. */
  method BuildTree(root: Tree, number: int) returns (newRoot: Tree, outcome: Outcome)
    ensures outcome == Normal <==> IsFibonacci(number)
    ensures outcome == Normal ==> newRoot.Node? && newRoot.value == number && IsSumTree(newRoot)
    ensures outcome == Normal ==> ValueCountsLeaves(newRoot) && IsFull(newRoot)
    ensures outcome == Normal ==> forall k: nat :: F(k + 1) == number ==> newRoot == FibTree(k)
    ensures outcome == NotFibonacci ==> newRoot == if number == 0 then Node(0, Nil, Nil) else root
  {
    newRoot := root;
    if number == 0 {
      newRoot := Node(0, Nil, Nil);
    }
    var list := FibListReaching(number);
    var last := |list| - 1;
    if list[last] > number {
      outcome := NotFibonacci;
      NotFibonacciWhenOvershooting(list, number);
      return;
    }
    newRoot := AddNumber(last, list);
    outcome := Normal;
    assert F(last + 1) == number;
    AddNumberInvariants(last, list);
    AddNumberIsFibTree(last, list);
    forall k: nat | F(k + 1) == number
      ensures newRoot == FibTree(k)
    {
      FibInjective(k + 1, last + 1);
      if k != last {
        assert FibTree(k) == FibTree(last);
      }
    }
  }

  /** When the loop's last entry passes `number`, no Fibonacci number equals it. */
  lemma NotFibonacciWhenOvershooting(list: seq<int>, number: int)
    requires |list| >= 1 && forall i :: 0 <= i < |list| ==> list[i] == F(i + 1)
    requires list[|list| - 1] > number
    requires forall i :: 0 <= i < |list| - 1 ==> list[i] < number
    ensures !IsFibonacci(number)
  {
    var m := |list|;
    forall k: nat | 1 <= k
      ensures F(k) != number
    {
      if k >= m {
        FibMonotone(m, k);
      } else {
        assert list[k - 1] == F(k);
      }
    }
  }

  /** `createTree(n)` for 0 <= n <= 46 (the range where `f(n)` fits in an `int`):
      for n >= 1 it ends normally with the Fibonacci tree whose root holds f(n)
      and which has f(n) leaves and 2 * f(n) - 1 nodes; for n == 0 it raises the exception and leaves
      the root a single 0-node. */
  method CreateTree(tree: MyTreeState, n: int) returns (tree': MyTreeState, outcome: Outcome)
    requires 0 <= n <= 46
    ensures n >= 1 ==> outcome == Normal && tree'.root == FibTree(n - 1)
    ensures n >= 1 ==> tree'.root.value == F(n) && LeafCount(tree'.root) == F(n)
    ensures n >= 1 ==> Size(tree'.root) == 2 * F(n) - 1
    ensures n == 0 ==> outcome == NotFibonacci && tree'.root == Node(0, Nil, Nil)
  {
    var number := F(n);
    FibFitsInt32(n);
    var root, o := BuildTree(tree.root, number);
    tree' := tree.(root := root);
    outcome := o;
    if n >= 1 {
      assert IsFibonacci(number);
      assert F((n - 1) + 1) == number;
      FibTreeInvariants(n - 1);
      FullTreeSize(tree'.root);
    } else {
      assert !IsFibonacci(number) by {
        if IsFibonacci(number) {
          var k: nat :| 1 <= k && F(k) == number;
          FibPositive(k);
        }
      }
    }
  }
}
