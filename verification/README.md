# Fibonacci tree builder (MyTree)

This project models the `MyTree` demo class. `MyTree` builds the Fibonacci tree of order `n`:

- `f(n)` is the naive recursive Fibonacci function.
- `createTree(n)` computes `number = f(n)`.
- It then fills a list with the Fibonacci numbers `1, 1, 2, 3, 5, …`, stopping at the first entry that reaches `number`.
- If that last entry overshoots `number`, it throws "not a Fibonacci number".
- Otherwise it sets `root` to the tree that `addNumber(list.size() - 1, list)` builds.
- `addNumber` gives a leaf of value 1 for indices below 2. For any other index it gives a node holding `list[index]`, with the subtree for `index - 2` on the left and the subtree for `index - 1` on the right.

Modules:

- `Fibonacci` (`fibonacci.dfy`) has `F`, the model of `f`, plus lemmas about it:
  - F is monotone and, from index 2 on, strictly increasing.
  - F is injective on all natural indices, apart from `F(1) == F(2)`.
  - The exact Java `int` range of F.
- `BinaryTree` (`tree.dfy`) is the node type. `Tree = Nil | Node(value, left, right)`, where `Nil` stands for a `null` child or root. A leaf is `Node(v, Nil, Nil)`, exactly like `new SimpleTreeNode(v, null, null)`. The module also has structural predicates:
  - every node has zero or two children;
  - leaves hold 1;
  - inner nodes hold the sum of their children;
  - every value equals the leaf count of its subtree.
- `MyTree` (`my_tree.dfy`) holds the rest:
  - The object state is `MyTreeState(root)`. Its single field is read by `getRoot`. The constructor `MyTree()` corresponds to `MyTreeState(Nil)`.
  - `AddNumber` models `addNumber`.
  - `FibListReaching` is the list loop.
  - `BuildTree` covers everything in `createTree` after `number = f(n)`. It works for any integer `number`.
  - `CreateTree` is `createTree(n)` itself.
  - `FibTree(k)` is a reference definition built from `F` alone. The lemmas show that `AddNumber` over the loop's list builds exactly this tree.

An exception is modelled as the `Outcome` value `NotFibonacci`. The state that exists when the exception is thrown is returned along with it. For `n == 0`, the root has already been set to a single 0-node by that point.

## Model

| member | source | states |
|---|---|---|
| Fibonacci.FibPositive | src/com/company/demo/MyTree.java:84-91 | f(n) >= 1 for every n >= 1 |
| Fibonacci.FibMonotone | src/com/company/demo/MyTree.java:84-91 | i <= j implies f(i) <= f(j) |
| Fibonacci.FibStrictStep | src/com/company/demo/MyTree.java:84-91 | f(n) < f(n + 1) from n = 2 on |
| Fibonacci.FibStrictMonotone | src/com/company/demo/MyTree.java:84-91 | 2 <= i < j implies f(i) < f(j) |
| Fibonacci.FibIndexBelow | src/com/company/demo/MyTree.java:84-91 | f(i) < f(j) implies i < j |
| Fibonacci.FibInjective | src/com/company/demo/MyTree.java:84-91 | equal values come from equal indices, or from indices 1 and 2 |
| Fibonacci.FibTable | src/com/company/demo/MyTree.java:84-91 | f(46) = 1836311903 and f(47) = 2971215073 |
| Fibonacci.FibFitsInt32 | src/com/company/demo/MyTree.java:84-91 | f(n) fits in a Java int exactly when n <= 46 |
| BinaryTree.FullTreeSize | src/com/company/demo/MyTree.java:77-82 | a non-empty tree whose nodes all have zero or two children has 2 * leaves - 1 nodes |
| BinaryTree.SumTreeCountsLeaves | src/com/company/demo/MyTree.java:77-82 | in such a tree, leaves holding 1 and inner nodes holding the sum of their children make every value the leaf count of its subtree |
| MyTree.FibListEntry | src/com/company/demo/MyTree.java:57-69 | in a list that starts 1, 1 and follows the recurrence, entry i is f(i + 1) |
| MyTree.FibListIsShiftedFib | src/com/company/demo/MyTree.java:57-69 | a list follows the 1, 1, recurrence shape exactly when it is non-empty and entry i is f(i + 1) for every i |
| MyTree.FibListReaching | src/com/company/demo/MyTree.java:57-69 | the loop's list has the Fibonacci shape, with entry i equal to f(i + 1); it is non-decreasing; its last entry reaches `number` and every earlier entry is below it; when number <= f(46), no entry overflows an int |
| MyTree.ShiftedFibNondecreasing | src/com/company/demo/MyTree.java:57-69 | the list of consecutive Fibonacci numbers never decreases |
| MyTree.ReachingListFitsInt32 | src/com/company/demo/MyTree.java:64-69 | when number <= f(46), the loop stops before an entry passes the int range |
| MyTree.NotFibonacciWhenOvershooting | src/com/company/demo/MyTree.java:64-73 | if the last entry passes `number`, then `number` is no Fibonacci number of positive index |
| MyTree.BuildTree | src/com/company/demo/MyTree.java:53-74 | the exception is thrown exactly when `number` is not f(k) for any k >= 1; after a throw, the root is the 0-node when number == 0 and is unchanged otherwise; after a normal return, the root holds `number`, the sum and leaf-count invariants hold, and the root is the Fibonacci tree for every k with f(k + 1) = number |
| MyTree.AddNumber | src/com/company/demo/MyTree.java:77-82 | builds a non-empty tree whose nodes all have zero or two children and whose leaves all hold 1; for index >= 0 the tree has f(index + 1) leaves, whatever the list's contents |
| MyTree.AddNumberIsFibTree | src/com/company/demo/MyTree.java:77-82 | over a Fibonacci-shaped list, addNumber(i) equals the reference Fibonacci tree of order i + 1 |
| MyTree.FibTreeInvariants | src/com/company/demo/MyTree.java:77-82 | the Fibonacci tree of order k + 1 has root value f(k + 1); all its nodes have zero or two children; each inner node is the sum of its children; each value equals its subtree's leaf count |
| MyTree.AddNumberInvariants | src/com/company/demo/MyTree.java:77-82 | over a Fibonacci-shaped list, addNumber(i) has root value list[i] and keeps the sum and leaf-count invariants |
| MyTree.CreateTree | src/com/company/demo/MyTree.java:51-75 | for 1 <= n <= 46: returns normally, and the root is the Fibonacci tree with value f(n), f(n) leaves and 2 * f(n) - 1 nodes; for n == 0: throws, leaving the root a single 0-node |

## Left out

- `DefaultBinaryTree` is not part of this model. It is the interface `MyTree` implements, and it supplies the traversals, iterators, default iteration and bracket serializer. `getRoot` appears here only as the `root` field of `MyTreeState`.
- Negative `n`: `f` never reaches a base case and the Java stack overflows. `F` takes a `nat`, and `CreateTree` requires `n >= 0`.
- MyTree.CreateTree: requires `n <= 46`, because `f` overflows a Java `int` from `n = 47` on (`FibFitsInt32`). The wrapped-around values are not modelled.
- MyTree.BuildTree: uses unbounded integers. In Java, the loop's addition wraps around when f(46) < `number` <= the largest `int`. That path is not modelled. `FibListReaching` proves that no entry overflows when `number <= f(46)`, which covers every value `f` can return without overflow.
- The running time of `f`, which is exponential, is not modelled.
- The time and memory `addNumber` takes are not modelled. It allocates 2 * f(n) - 1 nodes, about 3.7 * 10^9 at n = 46, so for large n the JVM may run out of memory where `CreateTree` returns normally.
- The exception's message text is not modelled. Only the fact that it is thrown is modelled.
- Object identity and the mutable public fields of `SimpleTreeNode` are not modelled. Nodes are immutable datatype values.
