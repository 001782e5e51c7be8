# Binary search tree of ordered values

This project models the binary search tree of `BinaryTree.hpp` and the assignment API of `AssignmentFunctions.h`, with elements specialised to `int`. It covers:

- insertion, which descends to the right empty child slot and fills it with a new leaf;
- point search along the same descent;
- the builder, which inserts the first `n` elements of a container in order;
- in-order traversal with an injected visitor;
- the two visitors built on that traversal: one collects every value, the other collects the leaf values, which `SumLeafNodes` then folds from 0.

Layout, one module per source unit:

- `Trees.dfy` (module `Trees`) defines the node structure as a datatype `Tree = Empty | Node(left, value, right)`, where a node exclusively owns its two child slots. It also holds the value set, the search-tree ordering `BST`, the reference insertion `InsertRec`, the builder's fold `BuildTree`, the in-order and leaf sequences (`InOrderValues`, `Leaves`), slot paths (`At`, `PlaceAt`) with the descent predicate `DescentPath`, and the lemmas about all of these.
- `BinaryTree.dfy` (module `BinaryTree`) holds the tree object's state and operations:
  - `FindPosition` is the iterative descent, a `while` loop that returns the path to the slot it reached and what that slot holds;
  - `SearchFrom` is search from a starting node;
  - class `BinaryTree` has the root slot `root`, which `Insert` updates in place;
  - `Build` is the builder loop.
- `HelperFunctions.dfy` (module `HelperFunctions`) holds the recursive in-order traversal method `InOrder`. It takes one of the two visitors (`CollectAll`, `CollectLeaves`) and a value vector (`Accumulator`), which it appends to in place.
- `AssignmentFunctions.dfy` (module `AssignmentFunctions`) holds `CreateBST`, `VisitInOrder`, `SumLeafNodes` (with `Accumulate` as `std::accumulate`) and `BSTSearch`. It also holds the driver's scenario as lemmas: input `[4, 2, 6, 3, 1, 5, 7]`, from `main.cpp`.

A node pointer is modelled as the subtree rooted at that node. A null pointer is `Empty`, and a search result is `Option<Tree>`. The reference that `find_position` returns, which `insert` assigns through, is modelled as a path of `Left`/`Right` steps from the root. `PlaceAt` writes through that path.

Where the draft code does not do what it evidently means to do, the model follows the intended behaviour, as follows:

- In `find_position` (BinaryTree.hpp:95-121), the loop runs only while both children exist, and its reference never advances past the root. The model descends one level per step until it reaches an equal value or a missing child.
- `InOrder` (BinaryTree.hpp:172-174) does not pass the visitor on to its recursive calls. The model passes it on.
- `search` (BinaryTree.hpp:79-83) ignores its `starting_node` argument. `SearchFrom` starts its descent at the given node, which is what `BSTSearch` (AssignmentFunctions.h:67-73) relies on.
- A duplicate insertion is a no-op, because the descent stops at the equal node. The overwrite that the code performs there is recorded under "## Findings".
- `build` and `CreateBST` check nothing when the count exceeds the container's length: they read past its end, which is undefined behaviour. The model follows the code: such a count is excluded by a precondition (`n <= |elements|`). No out-of-range error result is modelled.

## Model

| member | source | states |
|---|---|---|
| `BinaryTree.FindPosition` | BinaryTree.hpp:92-123 | The returned path is the descent for `v`: each step leaves a node not holding `v`, going left when `v` is smaller and right otherwise. It ends at a missing child or at the node holding `v`. The slot returned is what the path reaches. The path is no longer than the tree's height, because each step goes one level deeper. On a search tree, the slot holds a node exactly when `v` is in the tree. |
| `BinaryTree.SearchFrom` | BinaryTree.hpp:78-83 | The result is a node of the tree that holds `v`, or none. On a search tree, it is a node exactly when `v` is in the tree. The tree is not modified. |
| `BinaryTree.BinaryTree.constructor` | BinaryTree.hpp:87-90 | A new tree has an empty root slot and satisfies the ordering invariant. |
| `BinaryTree.BinaryTree.Insert` | BinaryTree.hpp:64-76 | An empty root becomes a single childless node holding `v`. Otherwise, `v` goes into the empty slot that the descent reaches. The ordering invariant is kept. The new value set is the old set plus `v`. A value already present leaves the tree unchanged. The new tree equals the reference insertion `InsertRec`. |
| `BinaryTree.BinaryTree.Search` | BinaryTree.hpp:21 | Search from the root. The result holds `v` and is a node of the tree, and it is present exactly when `v` is in the tree. |
| `BinaryTree.Build` | BinaryTree.hpp:134-147 | The builder starts from a fresh, empty tree and inserts `elements[0..n)` in order. The result is `BuildTree` of that prefix, keeps the ordering invariant, and its value set is the set of the prefix. |
| `Trees.InsertValues` | BinaryTree.hpp:65-76 | Insertion adds exactly `v` to the value set. Nothing else is added or removed. |
| `Trees.InsertPreservesBST` | BinaryTree.hpp:105-119 | Insertion keeps the ordering: every value in a left subtree is smaller than its node, and every value in a right subtree is larger. |
| `Trees.InsertPresent` | BinaryTree.hpp:101-103 | On a search tree, inserting a value already present returns the same tree. |
| `Trees.InsertSize` | BinaryTree.hpp:65-76 | Inserting a new value adds one node. Inserting a present value adds none. |
| `Trees.InsertIdempotent` | BinaryTree.hpp:65-76 | Inserting the same value twice gives the same tree as inserting it once. |
| `Trees.BuildSnoc` | BinaryTree.hpp:141-143 | Building from `s + [x]` is building from `s` and then inserting `x`. This is the builder loop's step. |
| `Trees.BuildBST` | BinaryTree.hpp:138-146 | A built tree is a search tree. |
| `Trees.BuildValues` | BinaryTree.hpp:138-146 | A built tree holds exactly the values of its input sequence. |
| `Trees.BuildInOrder` | AssignmentFunctions.h:28-34 | The in-order sequence of a built tree is strictly ascending, and it holds exactly the values of the input. |
| `Trees.BuildInOrderIsSortedDedup` | AssignmentFunctions.h:28-34 | The in-order sequence of a built tree equals every strictly ascending sequence that has the input's values. In other words, it is the deduplicated input, sorted. |
| `Trees.IncreasingUnique` | AssignmentFunctions.h:28-34 | Two strictly ascending sequences with the same set of values are equal. |
| `Trees.InOrderElems` | AssignmentFunctions.h:28-34 | The in-order sequence has one entry per node, and its set of values is the tree's value set. |
| `Trees.InOrderSorted` | BinaryTree.hpp:167-176 | On a search tree, the in-order sequence (left subtree, node, right subtree) is strictly ascending. |
| `Trees.LeavesInTree` | AssignmentFunctions.h:50-56 | The leaf values are values of the tree. There are no more of them than there are nodes. A non-empty tree has at least one leaf. |
| `Trees.StepsSnoc` | BinaryTree.hpp:105-120 | One step from a node that does not hold `v` goes left if `v` is smaller and right otherwise. That step extends the partial descent to the child slot. |
| `Trees.DescentUnique` | BinaryTree.hpp:98-121 | For a given tree and value there is only one descent. |
| `Trees.StepsDepth` | BinaryTree.hpp:98-121 | A descent is no longer than the tree's height. This is why the loop terminates. |
| `Trees.DescentFinds` | BinaryTree.hpp:79-83 | On a search tree, the descent ends at a node exactly when the value is in the tree. |
| `Trees.DescentAtEqual` | BinaryTree.hpp:101-103 | When the descent stops at an equal node, the reference insertion leaves the tree unchanged. |
| `Trees.DescentAtEmpty` | BinaryTree.hpp:73-74 | When the descent stops at an empty slot, placing a new leaf there gives the reference insertion. |
| `Trees.AtIsSubtree` | BinaryTree.hpp:122 | Every slot reached along a path lies within the tree. |
| `Trees.InsertOverwriting` | BinaryTree.hpp:65-76 | The insertion as written: a new leaf is placed at the descent's end, the equal node included. The result holds `v` and no value outside the old values plus `v`; values below an equal node may be lost. When `v` is absent it agrees with the intended insertion `InsertRec`. |
| `Trees.OverwriteAtDescent` | BinaryTree.hpp:73-74 | `InsertOverwriting` is exactly a new leaf written at the end of the descent, whatever that slot holds. |
| `Trees.OverwriteLosesValues` | BinaryTree.hpp:73-74 | Counterexample: re-inserting 2 into the search tree with root 2 and left child 1 leaves only `{2}`, not `{1, 2}`. |
| `HelperFunctions.Accumulator.constructor` | AssignmentFunctions.h:28 | A new value vector is empty. |
| `HelperFunctions.Accumulator.PushBack` | AssignmentFunctions.h:31 | `push_back` appends one value at the end and keeps the rest. |
| `HelperFunctions.Visit` | AssignmentFunctions.h:29-32 | One visitor call. The collecting visitor appends the node's value. The leaf visitor (AssignmentFunctions.h:50-56) appends it only when both children are absent. |
| `HelperFunctions.InOrder` | BinaryTree.hpp:167-176 | Visits the left subtree, then the node, then the right subtree. An empty subtree appends nothing. The vector ends up as its old contents followed by `Visited(node, visitor)`. |
| `HelperFunctions.VisitedCollectAll` | AssignmentFunctions.h:28-34 | A traversal with the collecting visitor appends exactly the in-order sequence of values. |
| `HelperFunctions.VisitedCollectLeaves` | AssignmentFunctions.h:50-57 | A traversal with the leaf visitor appends exactly the leaf values, from left to right. |
| `AssignmentFunctions.Accumulate` | AssignmentFunctions.h:58 | Left fold with `+` seeded by `init`, as `std::accumulate` computes it. The result is `init` plus `Sum` of the sequence, the sum of its entries taken from the front. |
| `AssignmentFunctions.AccumulateAppend` | AssignmentFunctions.h:58 | Folding a concatenation is folding the second part from the result of folding the first part. |
| `AssignmentFunctions.AccumulateLeaves` | AssignmentFunctions.h:49-58 | Folding the leaf sequence from `init` gives `init` plus the leaf sum, computed on the tree's shape. |
| `AssignmentFunctions.CreateBST` | AssignmentFunctions.h:14-22 | Requires `n <= |elements|`. Builds from the first `n` elements only. The result is a search tree whose value set is the set of that prefix. `n = 0` gives an empty tree. |
| `AssignmentFunctions.VisitInOrder` | AssignmentFunctions.h:24-34 | The collected list is the in-order sequence. It has one entry per node, its set is the tree's value set, and on a search tree it is strictly ascending. |
| `AssignmentFunctions.SumLeafNodes` | AssignmentFunctions.h:45-59 | The leaf values are collected in order and folded from 0. The result is the sum of the leaf values. An empty tree gives 0, and a single-node tree gives that node's value. |
| `AssignmentFunctions.BSTSearch` | AssignmentFunctions.h:61-73 | The result is a node of the tree that holds `to_find`, or none. On a search tree, it is a node exactly when `to_find` is present. |
| `AssignmentFunctions.DriverTree` | main.cpp:12-13 | Building from `[4, 2, 6, 3, 1, 5, 7]` gives the balanced tree with root 4, inner nodes 2 and 6, and leaves 1, 3, 5 and 7. |
| `AssignmentFunctions.DriverScenario` | main.cpp:12-19 | For that input, the in-order sequence is `[1, 2, 3, 4, 5, 6, 7]`, the leaves are `[1, 3, 5, 7]` and the leaf sum is 16. |
| `AssignmentFunctions.SortedTree` | BinaryTree.hpp:138-146 | Building from `[1, 2, 3, 4, 5, 6, 7]` gives a right spine. |
| `AssignmentFunctions.OrderSensitivity` | BinaryTree.hpp:138-146 | The two orders of the same values give different shapes, and the sorted order gives height 7. Both give the in-order sequence `[1, 2, 3, 4, 5, 6, 7]`. |

## Left out

- Console output: the printing in `VisitInOrder` (AssignmentFunctions.h:35-42) and all of `main.cpp`. This is I/O. `main.cpp:12` is used only as the scenario's input.
- `unique_ptr` ownership and the destructor (BinaryTree.hpp:52-56). A datatype value owns its subtrees exclusively, and there is no memory to release.
- `Node::setValue` (BinaryTree.hpp:39). It is unused, and it can break the ordering invariant.
- `getRootPtr` (BinaryTree.hpp:58-62) and the node accessors (BinaryTree.hpp:36-38). They are read directly as the `root` field and as the datatype's fields.
- The second free-standing `Builder` declaration (BinaryTree.hpp:125-132), the stub `VisitInOrder`/`SumLeafNodes` (BinaryTree.hpp:179-188), and the header's `CreateBST`/`BSTSearch` wrappers (BinaryTree.hpp:150-163). They are drafts superseded by AssignmentFunctions.h, and the modelled `CreateBST`, `BSTSearch` and `BinaryTree.Search` cover what they do.
- Templates and generic visitors with forwarded arguments. The model is specialised to `int` and to the two concrete visitors. The vector that the visitor receives by reference is the `Accumulator` object.
- `SumLeafNodes`: the driver's `int32_t` addition can overflow, and this is not modelled. Values and sums are unbounded integers.
- `CreateBST` and `BinaryTree.Build` exclude a count larger than the container by precondition. They do not return an out-of-range error, because the code performs no such check.
- The source's non-compiling defects (the `find_position` loop condition and the reference that never advances, the visitor not forwarded in `InOrder`, the ignored `starting_node`). The intended behaviour is modelled instead. The overwrite on an equal value is recorded below.

## Findings

| source | as written | input that shows it | evidently intended | confidence | as-written member | corrected member |
|---|---|---|---|---|---|---|
| BinaryTree.hpp:73-74 | `insert` assigns a fresh leaf to the slot `find_position` returns, even when the descent stopped at the node holding an equal value (BinaryTree.hpp:101-103). That replaces the node together with its whole subtree. | Tree with root 2 and left child 1; insert 2. The values become `{2}`, and 1 is lost. | A duplicate insertion is a no-op: the value set becomes the old set plus `v`, and the tree is unchanged when `v` is present. | not executed | `Trees.OverwriteLosesValues` | `BinaryTree.BinaryTree.Insert` |
