/** The assignment API over a tree root: building from a prefix of a container,
    collecting the values in order, summing the leaves, and searching. */
module AssignmentFunctions {
  import opened Trees
  import BinaryTree
  import HelperFunctions

  /** The sum of the entries of `s`. */
  function Sum(s: seq<int>): int
    decreases |s|
  {
    if s == [] then 0 else s[0] + Sum(s[1..])
  }

  /** Left fold with addition, seeded with `init`, as `std::accumulate` computes it. */
  function Accumulate(s: seq<int>, init: int): (r: int)
    ensures r == init + Sum(s)
    decreases |s|
  {
    if s == [] then init else Accumulate(s[1..], init + s[0])
  }

  lemma {:induction false} AccumulateAppend(a: seq<int>, b: seq<int>, init: int)
    ensures Accumulate(a + b, init) == Accumulate(b, Accumulate(a, init))
    decreases |a|
  {
    if a == [] {
      assert a + b == b;
    } else {
      assert (a + b)[0] == a[0];
      assert (a + b)[1..] == a[1..] + b;
      AccumulateAppend(a[1..], b, init + a[0]);
    }
  }

  /** Folding the leaf sequence from `init` adds the tree's leaf sum to `init`. */
  lemma {:induction false} AccumulateLeaves(t: Tree, init: int)
    ensures Accumulate(Leaves(t), init) == init + LeafSum(t)
  {
    match t
    case Empty =>
    case Node(l, x, r) =>
      if IsLeaf(t) {
        assert Leaves(t)[1..] == [];
      } else {
        AccumulateAppend(Leaves(l), Leaves(r), init);
        AccumulateLeaves(l, init);
        AccumulateLeaves(r, init + LeafSum(l));
      }
  }

  /** The root of a search tree built from the first `n` elements, inserted in order. */
  method CreateBST(elements: seq<int>, n: nat) returns (root: Tree)
    requires n <= |elements|
    ensures root == BuildTree(elements[..n])
    ensures BST(root)
    ensures Values(root) == Elems(elements[..n])
    ensures n == 0 ==> root == Empty
  {
    var tree := BinaryTree.Build(elements, n);
    root := tree.root;
  }

  /** The values of the tree, collected in order by the collecting visitor. */
  method VisitInOrder(root: Tree) returns (values: seq<int>)
    ensures values == InOrderValues(root)
    ensures |values| == Size(root)
    ensures Elems(values) == Values(root)
    ensures BST(root) ==> StrictlyIncreasing(values)
  {
    var acc := new HelperFunctions.Accumulator();
    HelperFunctions.InOrder(root, HelperFunctions.CollectAll, acc);
    values := acc.items;
    HelperFunctions.VisitedCollectAll(root);
    InOrderElems(root);
    if BST(root) {
      InOrderSorted(root);
    }
  }

  /** The sum of the leaf values, collected in order by the leaf visitor and folded from 0. */
  method SumLeafNodes(root: Tree) returns (sum: int)
    ensures sum == LeafSum(root)
    ensures root.Empty? ==> sum == 0
    ensures IsLeaf(root) ==> sum == root.value
  {
    var acc := new HelperFunctions.Accumulator();
    HelperFunctions.InOrder(root, HelperFunctions.CollectLeaves, acc);
    HelperFunctions.VisitedCollectLeaves(root);
    assert acc.items == Leaves(root);
    sum := Accumulate(acc.items, 0);
    AccumulateLeaves(root, 0);
  }

  /** The node of the tree holding `to_find`, or none when it is absent. */
  method BSTSearch(root: Tree, to_find: int) returns (r: Option<Tree>)
    ensures r.Some? ==> r.value.Node? && r.value.value == to_find && IsSubtree(r.value, root)
    ensures BST(root) ==> (r.Some? <==> to_find in Values(root))
  {
    r := BinaryTree.SearchFrom(root, to_find);
  }

  /** The tree the driver's input builds: balanced, with leaves 1, 3, 5 and 7. */
  lemma DriverTree()
    ensures BuildTree([4, 2, 6, 3, 1, 5, 7])
         == Node(Node(Node(Empty, 1, Empty), 2, Node(Empty, 3, Empty)), 4,
                 Node(Node(Empty, 5, Empty), 6, Node(Empty, 7, Empty)))
  {
    BuildSnoc([], 4);
    assert [] + [4] == [4];
    BuildSnoc([4], 2);
    assert [4] + [2] == [4, 2];
    BuildSnoc([4, 2], 6);
    assert [4, 2] + [6] == [4, 2, 6];
    BuildSnoc([4, 2, 6], 3);
    assert [4, 2, 6] + [3] == [4, 2, 6, 3];
    BuildSnoc([4, 2, 6, 3], 1);
    assert [4, 2, 6, 3] + [1] == [4, 2, 6, 3, 1];
    BuildSnoc([4, 2, 6, 3, 1], 5);
    assert [4, 2, 6, 3, 1] + [5] == [4, 2, 6, 3, 1, 5];
    BuildSnoc([4, 2, 6, 3, 1, 5], 7);
    assert [4, 2, 6, 3, 1, 5] + [7] == [4, 2, 6, 3, 1, 5, 7];
  }

  /** The driver's input: in-order 1..7, leaves 1, 3, 5, 7 and leaf sum 16. */
  lemma DriverScenario()
    ensures InOrderValues(BuildTree([4, 2, 6, 3, 1, 5, 7])) == [1, 2, 3, 4, 5, 6, 7]
    ensures Leaves(BuildTree([4, 2, 6, 3, 1, 5, 7])) == [1, 3, 5, 7]
    ensures Accumulate(Leaves(BuildTree([4, 2, 6, 3, 1, 5, 7])), 0) == 16
  {
    DriverTree();
    AccumulateLeaves(BuildTree([4, 2, 6, 3, 1, 5, 7]), 0);
  }

  /** Ascending input builds a right spine. */
  lemma SortedTree()
    ensures BuildTree([1, 2, 3, 4, 5, 6, 7])
         == Node(Empty, 1, Node(Empty, 2, Node(Empty, 3, Node(Empty, 4,
              Node(Empty, 5, Node(Empty, 6, Node(Empty, 7, Empty)))))))
  {
    BuildSnoc([], 1);
    assert [] + [1] == [1];
    BuildSnoc([1], 2);
    assert [1] + [2] == [1, 2];
    BuildSnoc([1, 2], 3);
    assert [1, 2] + [3] == [1, 2, 3];
    BuildSnoc([1, 2, 3], 4);
    assert [1, 2, 3] + [4] == [1, 2, 3, 4];
    BuildSnoc([1, 2, 3, 4], 5);
    assert [1, 2, 3, 4] + [5] == [1, 2, 3, 4, 5];
    BuildSnoc([1, 2, 3, 4, 5], 6);
    assert [1, 2, 3, 4, 5] + [6] == [1, 2, 3, 4, 5, 6];
    BuildSnoc([1, 2, 3, 4, 5, 6], 7);
    assert [1, 2, 3, 4, 5, 6] + [7] == [1, 2, 3, 4, 5, 6, 7];
  }

  /** The same values in another order give another shape, of height 7, but the same in-order sequence. */
  lemma OrderSensitivity()
    ensures BuildTree([4, 2, 6, 3, 1, 5, 7]) != BuildTree([1, 2, 3, 4, 5, 6, 7])
    ensures Height(BuildTree([1, 2, 3, 4, 5, 6, 7])) == 7
    ensures InOrderValues(BuildTree([1, 2, 3, 4, 5, 6, 7])) == [1, 2, 3, 4, 5, 6, 7]
  {
    DriverTree();
    SortedTree();
  }
}
