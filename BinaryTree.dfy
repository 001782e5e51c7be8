/** The tree object of BinaryTree.hpp: a root slot updated in place by insertion,
    the iterative descent to a slot, search from a starting node, and the builder. */
module BinaryTree {
  import opened Trees

  /** Walks down from `start` looking for `v`: left on a smaller value,
      right otherwise, stopping at an equal value or at a missing child.
      Returns the way to the slot reached and what that slot holds. */
  method FindPosition(start: Tree, v: int) returns (path: seq<Dir>, slot: Tree)
    ensures DescentPath(start, path, v)
    ensures slot == At(start, path)
    ensures slot.Empty? || slot.value == v
    ensures |path| <= Height(start)
    ensures BST(start) ==> (slot.Node? <==> v in Values(start))
  {
    path, slot := [], start;
    while slot.Node? && slot.value != v
      invariant Steps(start, path, v)
      invariant slot == At(start, path)
      decreases slot
    {
      var d := DirFor(v, slot.value);
      StepsSnoc(start, path, v);
      path := path + [d];
      slot := Child(slot, d);
    }
    StepsDepth(start, path, v);
    if BST(start) {
      DescentFinds(start, path, v);
    }
  }

  /** The node holding `v` below `start`, or none when the descent falls off a missing child. */
  method SearchFrom(start: Tree, v: int) returns (r: Option<Tree>)
    ensures r.Some? ==> r.value.Node? && r.value.value == v && IsSubtree(r.value, start)
    ensures r.Some? ==> v in Values(start)
    ensures BST(start) ==> (r.Some? <==> v in Values(start))
  {
    var path, slot := FindPosition(start, v);
    r := if slot.Empty? then None else Some(slot);
    AtIsSubtree(start, path);
    SubtreeValues(slot, start);
  }

  /** A binary search tree owned through its root slot. */
  class BinaryTree {
    var root: Tree

    ghost predicate Valid()
      reads this
    {
      BST(root)
    }

    /** A new tree has an empty root slot. */
    constructor ()
      ensures Valid() && root == Empty
    {
      root := Empty;
    }

    /** Fills the empty slot the descent for `v` reaches with a new leaf; a value already present is left alone. */
    method Insert(v: int)
      requires Valid()
      modifies this
      ensures Valid()
      ensures root == InsertRec(old(root), v)
      ensures Values(root) == old(Values(root)) + {v}
      ensures v in old(Values(root)) ==> root == old(root)
      ensures old(root).Empty? ==> root == Node(Empty, v, Empty)
    {
      if root.Empty? {
        root := Node(Empty, v, Empty);
      } else {
        var path, slot := FindPosition(root, v);
        if slot.Empty? {
          DescentAtEmpty(root, path, v);
          root := PlaceAt(root, path, Node(Empty, v, Empty));
        } else {
          DescentAtEqual(root, path, v);
        }
      }
      InsertValues(old(root), v);
      InsertPreservesBST(old(root), v);
      if v in old(Values(root)) {
        InsertPresent(old(root), v);
      }
    }

    /** Search from the root. */
    method Search(v: int) returns (r: Option<Tree>)
      requires Valid()
      ensures r.Some? ==> r.value.Node? && r.value.value == v && IsSubtree(r.value, root)
      ensures r.Some? <==> v in Values(root)
    {
      r := SearchFrom(root, v);
    }
  }

  /** A new tree holding the first `n` elements, inserted in order. */
  method Build(elements: seq<int>, n: nat) returns (tree: BinaryTree)
    requires n <= |elements|
    ensures fresh(tree) && tree.Valid()
    ensures tree.root == BuildTree(elements[..n])
    ensures Values(tree.root) == Elems(elements[..n])
  {
    tree := new BinaryTree();
    for i := 0 to n
      invariant tree.Valid()
      invariant tree.root == BuildTree(elements[..i])
    {
      BuildSnoc(elements[..i], elements[i]);
      assert elements[..i + 1] == elements[..i] + [elements[i]];
      tree.Insert(elements[i]);
    }
    BuildValues(elements[..n]);
  }
}
