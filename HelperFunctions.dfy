/** In-order traversal with an injected visitor and a value vector the visitor
    appends to, specialised to the two visitors the assignment functions use. */
module HelperFunctions {
  import opened Trees

  /** The two visitors: push every node's value, or push the values of leaves only. */
  datatype Visitor = CollectAll | CollectLeaves

  /** A growable vector of values, appended to in place. */
  class Accumulator {
    var items: seq<int>

    constructor ()
      ensures items == []
    {
      items := [];
    }

    method PushBack(x: int)
      modifies this
      ensures items == old(items) + [x]
    {
      items := items + [x];
    }
  }

  /** What one visit of `node` appends. */
  function Emit(visitor: Visitor, node: Tree): seq<int>
    requires node.Node?
  {
    match visitor
    case CollectAll => [node.value]
    case CollectLeaves => if node.left.Empty? && node.right.Empty? then [node.value] else []
  }

  /** What a whole traversal of `t` appends: left subtree, the node, right subtree. */
  function Visited(t: Tree, visitor: Visitor): seq<int>
  {
    match t
    case Empty => []
    case Node(l, _, r) => Visited(l, visitor) + Emit(visitor, t) + Visited(r, visitor)
  }

  /** One call of the visitor on `node`. */
  method Visit(visitor: Visitor, node: Tree, values: Accumulator)
    requires node.Node?
    modifies values
    ensures values.items == old(values.items) + Emit(visitor, node)
  {
    match visitor
    case CollectAll =>
      values.PushBack(node.value);
    case CollectLeaves =>
      if node.left.Empty? && node.right.Empty? {
        values.PushBack(node.value);
      }
  }

  /** Visits the left subtree, then the node, then the right subtree; an empty subtree is not visited. */
  method InOrder(node: Tree, visitor: Visitor, values: Accumulator)
    modifies values
    ensures values.items == old(values.items) + Visited(node, visitor)
    decreases node
  {
    if node.Node? {
      InOrder(node.left, visitor, values);
      Visit(visitor, node, values);
      InOrder(node.right, visitor, values);
    }
  }

  /** The collecting visitor emits the in-order sequence of values. */
  lemma {:induction false} VisitedCollectAll(t: Tree)
    ensures Visited(t, CollectAll) == InOrderValues(t)
  {
    match t
    case Empty =>
    case Node(l, _, r) =>
      VisitedCollectAll(l);
      VisitedCollectAll(r);
  }

  /** The leaf visitor emits exactly the leaf values, from left to right. */
  lemma {:induction false} VisitedCollectLeaves(t: Tree)
    ensures Visited(t, CollectLeaves) == Leaves(t)
  {
    match t
    case Empty =>
    case Node(l, x, r) =>
      VisitedCollectLeaves(l);
      VisitedCollectLeaves(r);
      if IsLeaf(t) {
        assert Visited(t, CollectLeaves) == [] + [x] + [];
      }
  }
}
