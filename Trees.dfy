/** Values, shape and ordering of the binary search tree: the node structure,
    the reference (recursive) insertion, the builder's fold, in-order and
    leaf sequences, and the slot paths that the iterative descent follows. */
module Trees {

  /** A node pointer: absent, or a node that exclusively owns its two child slots. */
  datatype Tree = Empty | Node(left: Tree, value: int, right: Tree)

  /** The child slot a descent step follows. */
  datatype Dir = Left | Right

  datatype Option<T> = None | Some(value: T)

  function Values(t: Tree): set<int>
  {
    match t
    case Empty => {}
    case Node(l, x, r) => Values(l) + {x} + Values(r)
  }

  function Size(t: Tree): nat
  {
    match t
    case Empty => 0
    case Node(l, _, r) => Size(l) + 1 + Size(r)
  }

  function Height(t: Tree): nat
  {
    match t
    case Empty => 0
    case Node(l, _, r) => 1 + if Height(l) < Height(r) then Height(r) else Height(l)
  }

  /** A node whose two child slots are both empty. */
  predicate IsLeaf(t: Tree)
  {
    t.Node? && t.left.Empty? && t.right.Empty?
  }

  /** Every value left of a node is smaller than it, every value right of it larger. */
  ghost predicate BST(t: Tree)
  {
    match t
    case Empty => true
    case Node(l, x, r) =>
      && BST(l) && BST(r)
      && (forall y :: y in Values(l) ==> y < x)
      && (forall y :: y in Values(r) ==> x < y)
  }

  /** `s` is `t` itself or a subtree hanging below one of its nodes. */
  ghost predicate IsSubtree(s: Tree, t: Tree)
  {
    s == t || (t.Node? && (IsSubtree(s, t.left) || IsSubtree(s, t.right)))
  }

  function Elems(s: seq<int>): set<int>
  {
    set x | x in s
  }

  ghost predicate StrictlyIncreasing(s: seq<int>)
  {
    forall i, j :: 0 <= i < j < |s| ==> s[i] < s[j]
  }

  /** The values in left-node-right order. */
  function InOrderValues(t: Tree): seq<int>
  {
    match t
    case Empty => []
    case Node(l, x, r) => InOrderValues(l) + [x] + InOrderValues(r)
  }

  /** The values of the leaves, from left to right. */
  function Leaves(t: Tree): seq<int>
  {
    match t
    case Empty => []
    case Node(l, x, r) => if IsLeaf(t) then [x] else Leaves(l) + Leaves(r)
  }

  /** The sum of the leaf values, computed on the tree's shape. */
  function LeafSum(t: Tree): int
  {
    match t
    case Empty => 0
    case Node(l, x, r) => if IsLeaf(t) then x else LeafSum(l) + LeafSum(r)
  }

  /** Reference insertion: descend to the equal node (no change) or to the empty slot. */
  function InsertRec(t: Tree, v: int): Tree
  {
    match t
    case Empty => Node(Empty, v, Empty)
    case Node(l, x, r) =>
      if v == x then t
      else if v < x then Node(InsertRec(l, v), x, r)
      else Node(l, x, InsertRec(r, v))
  }

  /** The tree that inserting the values of `s` one by one, in order, into an empty tree gives. */
  function BuildTree(s: seq<int>): Tree
    decreases |s|
  {
    if s == [] then Empty else InsertRec(BuildTree(s[..|s| - 1]), s[|s| - 1])
  }

  // ---------------------------------------------------------------------
  // Slots and the descent
  // ---------------------------------------------------------------------

  /** The direction the descent takes from a node holding `x` when looking for `v != x`. */
  function DirFor(v: int, x: int): Dir
  {
    if v < x then Left else Right
  }

  function Child(t: Tree, d: Dir): Tree
  {
    match t
    case Empty => Empty
    case Node(l, _, r) => if d == Left then l else r
  }

  /** What the slot reached from `t` along `p` holds. */
  function At(t: Tree, p: seq<Dir>): Tree
    decreases |p|
  {
    if p == [] then t else At(Child(t, p[0]), p[1..])
  }

  /** `t` with the slot reached along `p` overwritten by `s`. */
  function PlaceAt(t: Tree, p: seq<Dir>, s: Tree): Tree
    decreases |p|
  {
    if p == [] then s
    else match t
      case Empty => Empty
      case Node(l, x, r) =>
        if p[0] == Left then Node(PlaceAt(l, p[1..], s), x, r)
        else Node(l, x, PlaceAt(r, p[1..], s))
  }

  /** Every step of `p` leaves a node that does not hold `v`, in the direction `v` calls for. */
  ghost predicate Steps(t: Tree, p: seq<Dir>, v: int)
    decreases |p|
  {
    p == [] || (t.Node? && t.value != v && p[0] == DirFor(v, t.value) && Steps(Child(t, p[0]), p[1..], v))
  }

  /** `p` is the whole descent for `v`: correct steps, ending at a missing child or at `v`. */
  ghost predicate DescentPath(t: Tree, p: seq<Dir>, v: int)
  {
    Steps(t, p, v) && (At(t, p).Empty? || At(t, p).value == v)
  }

  // ---------------------------------------------------------------------
  // Insertion
  // ---------------------------------------------------------------------

  /** Inserting adds exactly `v` to the value set. */
  lemma {:induction false} InsertValues(t: Tree, v: int)
    ensures Values(InsertRec(t, v)) == Values(t) + {v}
  {
    match t
    case Empty =>
    case Node(l, x, r) =>
      if v < x { InsertValues(l, v); } else if x < v { InsertValues(r, v); }
  }

  /** Inserting keeps the ordering invariant. */
  lemma {:induction false} InsertPreservesBST(t: Tree, v: int)
    requires BST(t)
    ensures BST(InsertRec(t, v))
  {
    match t
    case Empty =>
    case Node(l, x, r) =>
      if v < x {
        InsertValues(l, v);
        InsertPreservesBST(l, v);
      } else if x < v {
        InsertValues(r, v);
        InsertPreservesBST(r, v);
      }
  }

  /** Inserting a value already present changes nothing. */
  lemma {:induction false} InsertPresent(t: Tree, v: int)
    requires BST(t) && v in Values(t)
    ensures InsertRec(t, v) == t
  {
    match t
    case Node(l, x, r) =>
      if v < x { InsertPresent(l, v); } else if x < v { InsertPresent(r, v); }
  }

  /** Inserting a new value adds one node; a present one adds none. */
  lemma {:induction false} InsertSize(t: Tree, v: int)
    requires BST(t)
    ensures Size(InsertRec(t, v)) == if v in Values(t) then Size(t) else Size(t) + 1
  {
    match t
    case Empty =>
    case Node(l, x, r) =>
      if v < x {
        assert v !in Values(r);
        InsertSize(l, v);
      } else if x < v {
        assert v !in Values(l);
        InsertSize(r, v);
      }
  }

  /** Inserting the same value twice is the same as inserting it once. */
  lemma InsertIdempotent(t: Tree, v: int)
    requires BST(t)
    ensures InsertRec(InsertRec(t, v), v) == InsertRec(t, v)
  {
    InsertValues(t, v);
    InsertPreservesBST(t, v);
    InsertPresent(InsertRec(t, v), v);
  }

  // ---------------------------------------------------------------------
  // Building
  // ---------------------------------------------------------------------

  /** Building from `s + [x]` is building from `s`, then inserting `x`. */
  lemma BuildSnoc(s: seq<int>, x: int)
    ensures BuildTree(s + [x]) == InsertRec(BuildTree(s), x)
  {
    assert (s + [x])[..|s|] == s;
  }

  lemma {:induction false} BuildBST(s: seq<int>)
    ensures BST(BuildTree(s))
    decreases |s|
  {
    if s != [] {
      BuildBST(s[..|s| - 1]);
      InsertPreservesBST(BuildTree(s[..|s| - 1]), s[|s| - 1]);
    }
  }

  /** The built tree holds exactly the values of the input. */
  lemma {:induction false} BuildValues(s: seq<int>)
    ensures Values(BuildTree(s)) == Elems(s)
    decreases |s|
  {
    if s != [] {
      var init, last := s[..|s| - 1], s[|s| - 1];
      BuildValues(init);
      InsertValues(BuildTree(init), last);
      assert s == init + [last];
      assert Elems(s) == Elems(init) + {last};
    }
  }

  /** The in-order sequence of a built tree is strictly ascending and holds exactly the input's values. */
  lemma BuildInOrder(s: seq<int>)
    ensures StrictlyIncreasing(InOrderValues(BuildTree(s)))
    ensures Elems(InOrderValues(BuildTree(s))) == Elems(s)
  {
    BuildBST(s);
    BuildValues(s);
    InOrderSorted(BuildTree(s));
    InOrderElems(BuildTree(s));
  }

  /** So it is THE deduplicated, ascending arrangement of the input: any other such sequence equals it. */
  lemma BuildInOrderIsSortedDedup(s: seq<int>, sorted: seq<int>)
    requires StrictlyIncreasing(sorted) && Elems(sorted) == Elems(s)
    ensures InOrderValues(BuildTree(s)) == sorted
  {
    BuildInOrder(s);
    IncreasingUnique(InOrderValues(BuildTree(s)), sorted);
  }

  // ---------------------------------------------------------------------
  // In-order sequence and leaves
  // ---------------------------------------------------------------------

  /** Every node is emitted exactly once, and the emitted values are the tree's values. */
  lemma {:induction false} InOrderElems(t: Tree)
    ensures Elems(InOrderValues(t)) == Values(t)
    ensures |InOrderValues(t)| == Size(t)
  {
    match t
    case Empty =>
    case Node(l, x, r) =>
      InOrderElems(l);
      InOrderElems(r);
      assert Elems(InOrderValues(t)) == Elems(InOrderValues(l)) + {x} + Elems(InOrderValues(r));
  }

  /** On a search tree the in-order sequence is strictly ascending. */
  lemma {:induction false} InOrderSorted(t: Tree)
    requires BST(t)
    ensures StrictlyIncreasing(InOrderValues(t))
  {
    match t
    case Empty =>
    case Node(l, x, r) =>
      InOrderSorted(l);
      InOrderSorted(r);
      InOrderElems(l);
      InOrderElems(r);
      forall y | y in InOrderValues(l) ensures y < x { assert y in Elems(InOrderValues(l)); }
      forall y | y in InOrderValues(r) ensures x < y { assert y in Elems(InOrderValues(r)); }
      ConcatIncreasing(InOrderValues(l), x, InOrderValues(r));
  }

  lemma ConcatIncreasing(a: seq<int>, x: int, b: seq<int>)
    requires StrictlyIncreasing(a) && StrictlyIncreasing(b)
    requires forall y :: y in a ==> y < x
    requires forall y :: y in b ==> x < y
    ensures StrictlyIncreasing(a + [x] + b)
  {
    var c := a + [x] + b;
    assert forall k :: 0 <= k < |a| ==> c[k] == a[k];
    assert c[|a|] == x;
    assert forall k :: |a| < k < |c| ==> c[k] == b[k - |a| - 1];
    forall i, j | 0 <= i < j < |c| ensures c[i] < c[j] {
      if j < |a| {
        assert c[i] == a[i] && c[j] == a[j];
      } else if j == |a| {
        assert c[i] == a[i] && a[i] in a;
      } else if i < |a| {
        assert c[i] == a[i] && a[i] in a;
        assert c[j] == b[j - |a| - 1] && b[j - |a| - 1] in b;
      } else if i == |a| {
        assert c[j] == b[j - |a| - 1] && b[j - |a| - 1] in b;
      } else {
        assert c[i] == b[i - |a| - 1] && c[j] == b[j - |a| - 1];
      }
    }
  }

  lemma ElemsEmpty(s: seq<int>)
    ensures s == [] <==> Elems(s) == {}
  {
    if s != [] { assert s[0] in Elems(s); }
  }

  /** A strictly ascending sequence is determined by its set of values. */
  lemma {:induction false} IncreasingUnique(a: seq<int>, b: seq<int>)
    requires StrictlyIncreasing(a) && StrictlyIncreasing(b) && Elems(a) == Elems(b)
    ensures a == b
    decreases |a|
  {
    ElemsEmpty(a);
    ElemsEmpty(b);
    if a != [] {
      assert a[0] in Elems(b);
      assert b[0] in Elems(a);
      assert a[0] == b[0];
      assert Elems(a[1..]) == Elems(a) - {a[0]} by {
        assert a == [a[0]] + a[1..];
      }
      assert Elems(b[1..]) == Elems(b) - {b[0]} by {
        assert b == [b[0]] + b[1..];
      }
      IncreasingUnique(a[1..], b[1..]);
      assert a == [a[0]] + a[1..] && b == [b[0]] + b[1..];
    }
  }

  /** The leaf values are tree values; there are no more of them than nodes. */
  lemma {:induction false} LeavesInTree(t: Tree)
    ensures Elems(Leaves(t)) <= Values(t)
    ensures |Leaves(t)| <= Size(t)
    ensures t.Node? ==> |Leaves(t)| >= 1
  {
    match t
    case Empty =>
    case Node(l, x, r) =>
      if !IsLeaf(t) {
        LeavesInTree(l);
        LeavesInTree(r);
        assert Elems(Leaves(t)) == Elems(Leaves(l)) + Elems(Leaves(r));
      }
  }

  // ---------------------------------------------------------------------
  // The descent
  // ---------------------------------------------------------------------

  /** One more correct step extends a partial descent, and moves to the child slot. */
  lemma {:induction false} StepsSnoc(t: Tree, p: seq<Dir>, v: int)
    requires Steps(t, p, v) && At(t, p).Node? && At(t, p).value != v
    ensures Steps(t, p + [DirFor(v, At(t, p).value)], v)
    ensures At(t, p + [DirFor(v, At(t, p).value)]) == Child(At(t, p), DirFor(v, At(t, p).value))
    decreases |p|
  {
    var d := DirFor(v, At(t, p).value);
    if p == [] {
      assert [d][1..] == [];
    } else {
      assert (p + [d])[0] == p[0];
      assert (p + [d])[1..] == p[1..] + [d];
      StepsSnoc(Child(t, p[0]), p[1..], v);
    }
  }

  /** The descent for a value is unique: it is determined by the tree and the value. */
  lemma {:induction false} DescentUnique(t: Tree, p: seq<Dir>, q: seq<Dir>, v: int)
    requires DescentPath(t, p, v) && DescentPath(t, q, v)
    ensures p == q
    decreases |p|
  {
    if p != [] && q != [] {
      DescentUnique(Child(t, p[0]), p[1..], q[1..], v);
      assert p == [p[0]] + p[1..] && q == [q[0]] + q[1..];
    }
  }

  /** Each step moves one level deeper, so a descent is no longer than the height. */
  lemma {:induction false} StepsDepth(t: Tree, p: seq<Dir>, v: int)
    requires Steps(t, p, v)
    ensures |p| <= Height(t)
    decreases |p|
  {
    if p != [] {
      StepsDepth(Child(t, p[0]), p[1..], v);
    }
  }

  /** On a search tree the descent ends at a node exactly when `v` is in the tree. */
  lemma {:induction false} DescentFinds(t: Tree, p: seq<Dir>, v: int)
    requires BST(t) && DescentPath(t, p, v)
    ensures At(t, p).Node? <==> v in Values(t)
    decreases |p|
  {
    if p != [] {
      DescentFinds(Child(t, p[0]), p[1..], v);
    }
  }

  /** A descent ending at an equal node: the reference insertion leaves the tree as it is. */
  lemma {:induction false} DescentAtEqual(t: Tree, p: seq<Dir>, v: int)
    requires DescentPath(t, p, v) && At(t, p).Node?
    ensures InsertRec(t, v) == t
    decreases |p|
  {
    if p != [] {
      DescentAtEqual(Child(t, p[0]), p[1..], v);
    }
  }

  /** A descent ending at an empty slot: a new leaf there is the reference insertion. */
  lemma {:induction false} DescentAtEmpty(t: Tree, p: seq<Dir>, v: int)
    requires DescentPath(t, p, v) && At(t, p).Empty?
    ensures PlaceAt(t, p, Node(Empty, v, Empty)) == InsertRec(t, v)
    decreases |p|
  {
    if p != [] {
      DescentAtEmpty(Child(t, p[0]), p[1..], v);
    }
  }

  /** Every slot reached along a path lies within the tree. */
  lemma {:induction false} AtIsSubtree(t: Tree, p: seq<Dir>)
    ensures IsSubtree(At(t, p), t)
    decreases |p|
  {
    if p != [] {
      AtIsSubtree(Child(t, p[0]), p[1..]);
    }
  }

  lemma {:induction false} SubtreeValues(s: Tree, t: Tree)
    requires IsSubtree(s, t)
    ensures Values(s) <= Values(t)
  {
    if s != t {
      if IsSubtree(s, t.left) { SubtreeValues(s, t.left); } else { SubtreeValues(s, t.right); }
    }
  }

  // ---------------------------------------------------------------------
  // Insertion as written: the slot is overwritten even at an equal value
  // ---------------------------------------------------------------------

  /** Assigning a new leaf to whatever slot the descent returns, equal node included. */
  function InsertOverwriting(t: Tree, v: int): (r: Tree)
    ensures v in Values(r) && Values(r) <= Values(t) + {v}
    ensures v !in Values(t) ==> r == InsertRec(t, v)
  {
    match t
    case Empty => Node(Empty, v, Empty)
    case Node(l, x, r) =>
      if v == x then Node(Empty, v, Empty)
      else if v < x then Node(InsertOverwriting(l, v), x, r)
      else Node(l, x, InsertOverwriting(r, v))
  }

  /** It is exactly a new leaf placed at the end of the descent. */
  lemma {:induction false} OverwriteAtDescent(t: Tree, p: seq<Dir>, v: int)
    requires DescentPath(t, p, v)
    ensures PlaceAt(t, p, Node(Empty, v, Empty)) == InsertOverwriting(t, v)
    decreases |p|
  {
    if p != [] {
      OverwriteAtDescent(Child(t, p[0]), p[1..], v);
    }
  }

  /** Re-inserting the root value of a tree with a left child loses that child's values. */
  lemma OverwriteLosesValues()
    ensures var t := Node(Node(Empty, 1, Empty), 2, Empty);
      BST(t) && Values(InsertOverwriting(t, 2)) == {2} && Values(t) + {2} == {1, 2}
  {
  }
}
