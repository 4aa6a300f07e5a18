# Binary search tree, AVL tree and equal-paths, in Dafny

This project models three parts of a homework library in Dafny and proves properties of each:

- **Unbalanced binary search tree (`bst.h`).** A map from keys to values. It supports find, `operator[]`, insert, remove (a node with two children first swaps places with its in-order predecessor), clear, `getSmallestNode`, `predecessor`, `getHeight`/`isBalanced` and `nodeSwap`. Its iterator walks the keys in order.
- **AVL tree (`avlbst.h`).** The same tree, with a balance stored in every node (right height minus left height). After an insert or a remove it climbs toward the root, updating balances. Where a balance reaches two, it rebalances with single or double rotations.
- **Equal-paths (`equal-paths.cpp`).** A recursive check that every leaf of a binary tree lies at the same depth.

Layout:

- `shapes.dfy` (module `Shapes`): an abstract model of pointer-linked trees.
  - Nodes are handles into an arena, and -1 is the null pointer.
  - `Shape` is the tree of handles.
  - `Path` is a zipper down to a hole.
  - `Encoded(s, P, L, R)` says that the parent/left/right arrays are exactly the pointers of `s`.
  - `Ordered(s, key)` says that the in-order walk has strictly increasing keys.
- `bst.dfy` (module `Bst`):
  - the class `BinarySearchTree`, whose fields are the arrays the C++ code changes through node pointers, together with a ghost `shape`;
  - the class `Iterator`;
  - the shape functions `Attach` and `Removed`, which specify insert and remove.
- `rotations.dfy` (module `Rotations`):
  - the rotations `RotL` and `RotR` on shapes;
  - the balance tables written at the end of `rotateLeft`/`rotateRight`;
  - `RebalanceAt`, the effect of `rebalance` on a subtree;
  - the AVL invariant `AvlValid`.
- `avl.dfy` (module `Avl`): the AVL operations, as methods on the same arena class.
  - The climbs of `insert` and `remove` are loops.
  - They are specified by the ghost functions `InsertFix` and `RemoveFix`.
  - Concrete scenarios show the balances that the code as written leaves behind.
- `equal_paths.dfy` (module `EqualPaths`): `checkIfEqual` as a pure function.
  - The function returns both the verdict and the final value of the `leafDepth` reference parameter.
  - It is proved equal to "all leaf depths are equal".

### What the code does, as modelled

The model follows the code as written, including its defects. The AVL layer does not keep its own invariant. The model proves instead that every AVL operation keeps the search-tree structure, the order and the key/value map. Where the source's balance bookkeeping goes wrong, a concrete scenario exhibits it:

- **Stale balance after a double rotation.** `rotateLeft` and `rotateRight` choose the new balances from a table that assumes the rotated node leans by exactly two. In the first half of a double rotation this is not the case. After inserting 30, 10 and 20 into an empty tree, the root is correct, but 10 is a leaf that still records +1 (`Avl.InsertStaleScenario`, `Rotations.DoubleRotationStale`).
- **`remove` climbs from the wrong node.** It takes the parent of the node holding the key before the plain BST removal. When that node has two children, the node that is actually spliced out is elsewhere. If the node is the root, there is no climb at all: removing 20 from the perfect tree 10 < 20 < 30 leaves 10 as the root with a right child but balance 0 (`Avl.RemoveStaleScenario`).
- **`nodeSwap` is not overridden.** The AVL `nodeSwap` takes `AVLNode` pointers, so it does not override the base version. The base `remove` therefore calls the base `nodeSwap`, and balances stay with their nodes.
- **Null dereferences.** `rebalance` follows a child pointer that a stale balance can make null. The model returns `NullDeref` (in methods, `ok == false`, with the tree untouched) wherever the source would dereference null.
- **Unused helper.** The tree-level `updateBalance(node)` helper subtracts 1 from the parent on both branches. No operation calls it. It is modelled as written (`Avl.UpdateBalanceOf`).

## Model

| member | source | states |
|---|---|---|
| Bst.BinarySearchTree.constructor | bst.h:393-399 | a new tree is valid and holds no key |
| Bst.BinarySearchTree.Empty | bst.h:413-417 | true exactly when the map is empty, that is, when there is no node |
| Bst.BinarySearchTree.InternalFind | bst.h:664-685 | null exactly when `k` is absent; otherwise a node of the tree holding `k` and the value the map stores for `k` |
| Bst.BinarySearchTree.Get | bst.h:465-478 | the value stored under `k`, or `None` exactly where the source throws `out_of_range` |
| Bst.BinarySearchTree.Find | bst.h:452-459 | an iterator at the node holding `k`, or at `end()` exactly when `k` is absent |
| Bst.BinarySearchTree.Begin | bst.h:429-435 | an iterator at the first node of the in-order walk, or `end()` for an empty tree |
| Bst.BinarySearchTree.End | bst.h:440-446 | an iterator at null |
| Bst.BinarySearchTree.Insert | bst.h:486-526 | the tree stays ordered; an existing key changes only its value; a new key gets a fresh leaf exactly where the search falls off (`Attach`), or becomes the root of an empty tree |
| Bst.BinarySearchTree.InsertSearch | bst.h:496-516 | the descent either finds the node holding `k`, or proves `k` absent and returns the parent and side where its leaf belongs |
| Bst.BinarySearchTree.AppendNode | bst.h:518-525 | the new node gets parent `par` and hangs on the left exactly when its key is smaller than the parent's |
| Bst.BinarySearchTree.LinkLeaf | bst.h:518-525 | the pointer writes that hang the new leaf, as arrays encoding the attached shape |
| Bst.AttachOrdered | bst.h:500-525 | attaching a missing key where the search falls off keeps the keys strictly increasing in order |
| Bst.AttachContents | bst.h:486-526 | attaching a missing key adds exactly that key with its value to the map |
| Bst.BinarySearchTree.Remove | bst.h:534-577 | the map loses exactly `k` and the tree stays ordered; an absent key changes nothing; otherwise the shape is `Removed` and the in-order walk loses exactly the node that held `k` |
| Bst.BinarySearchTree.SwapWithPredecessor | bst.h:544-547 | the node trades places with its in-order predecessor, ends without a right child, and dropping it from the walk gives the same walk as before |
| Bst.BinarySearchTree.SpliceOut | bst.h:549-575 | a node with at most one child is replaced by that child, or by null, both in its parent and as the root; the walk loses exactly that node and nothing else |
| Bst.BinarySearchTree.Unlink | bst.h:549-573 | the pointer writes of the splice, as arrays encoding the spliced shape |
| Bst.DropContents | bst.h:534-577 | removing one node of an ordered tree removes exactly its key from the map |
| Bst.BinarySearchTree.Predecessor | bst.h:581-607 | the node before `current` in the in-order walk; null exactly when `current` holds the smallest key; otherwise it holds the largest key below `current`'s |
| Bst.BinarySearchTree.RightmostOfLeft | bst.h:591-597 | with a left child, the predecessor is the rightmost node of the left subtree |
| Bst.BinarySearchTree.ClimbFromLeft | bst.h:600-606 | without a left child, the predecessor is the first ancestor reached from a right child, or null |
| Bst.BinarySearchTree.Clear | bst.h:609-635 | the tree becomes valid and empty |
| Bst.BinarySearchTree.GetSmallestNode | bst.h:641-657 | the first node of the in-order walk, or null for an empty tree; its key is at most every key |
| Bst.BinarySearchTree.GetHeight | bst.h:687-707 | -1 exactly when some node's subtrees differ in height by more than one; otherwise the height of the subtree |
| Bst.BinarySearchTree.IsBalanced | bst.h:712-717 | true exactly when every node's subtrees differ in height by at most one |
| Bst.BinarySearchTree.NodeSwap | bst.h:721-803 | a no-op for equal or null nodes; otherwise the two nodes exchange places, with parents, children and root renamed, adjacent nodes included; keys and values stay with their nodes |
| Bst.BinarySearchTree.SwapLinks | bst.h:721-803 | the pointer writes of `nodeSwap` give arrays that encode the shape with the two handles exchanged |
| Bst.Iterator.constructor | bst.h:268-274 | the iterator sits at the given node of the given tree |
| Bst.Iterator.Item | bst.h:291-296 | the key and value under the iterator are an entry of the map |
| Bst.Iterator.Equals | bst.h:312-320 | equal exactly when both iterators are at `end()` (of any trees), or both sit on the same key of the same tree |
| Bst.Iterator.NotEquals | bst.h:326-335 | different exactly when one iterator is at `end()` and the other is not, or both sit on nodes of different trees or on different keys |
| Bst.Iterator.Increment | bst.h:341-375 | moves to the next node of the in-order walk, to `end()` after the last one, and stays at `end()`; it reaches `end()` exactly from the largest key, and otherwise the node holding the smallest key above the old one |
| Bst.Iterator.LeftmostOfRight | bst.h:352-359 | with a right child, the successor is the leftmost node of the right subtree |
| Bst.Iterator.FirstRightAncestor | bst.h:361-371 | without a right child, the successor is the first ancestor reached from a left child, or null past the root |
| Rotations.RotationsInverse | avlbst.h:248-349 | a left rotation followed by a right rotation at the risen node gives back the original subtree, and the reverse |
| Rotations.RotLFacts | avlbst.h:250-269 | the left rotation keeps the handles, their distinctness and the in-order walk |
| Rotations.RotRFacts | avlbst.h:300-321 | the right rotation keeps the handles, their distinctness and the in-order walk |
| Rotations.RebalanceAt | avlbst.h:350-371 | if it succeeds, the rebuilt subtree has the same handles and in-order walk, and the balances keep their length |
| Rotations.RebalanceLeftHeavy | avlbst.h:352-361 | at -2: a null left child is a null dereference; a child leaning left or even gives a right rotation; a child leaning right gives a left-right double rotation, or a null dereference when its right child is null |
| Rotations.RebalanceRightHeavy | avlbst.h:362-370 | the mirror cases at +2 |
| Rotations.LeftTableSettles | avlbst.h:271-295 | the left table leaves the rotated node at 0 only with the pivot at 0 or -1 |
| Rotations.RightTableSettles | avlbst.h:323-347 | the right table leaves the rotated node at 0 only with the pivot at 0 or +1 |
| Rotations.RebalanceSettles | avlbst.h:350-371 | a rebalanced node left at balance 0 ends as a child of the risen root, which leans at most one step away from it |
| Rotations.SettledStops | avlbst.h:220-236 | after such a rebalance, the next step of the removal climb never again leaves that root at 0, so the climb terminates |
| Rotations.RebalanceRestores | avlbst.h:350-371 | where a single rotation is the right remedy (AVL subtrees, exact balance of at most two, heavy child not leaning the other way), `rebalance` succeeds and leaves an AVL subtree with exact balances |
| Rotations.DoubleRotationStale | avlbst.h:271-295 | the double rotation builds a height-balanced shape but leaves a stale balance of +1 on a leaf |
| Rotations.NullGrandchildSkips | avlbst.h:279-295 | with a null grandchild and the pivot leaning the wrong way, the table writes no balance at all |
| Avl.UpdateBalance | avlbst.h:88-92 | the node's balance moves by `diff` and nothing else changes |
| Avl.RotateLeft | avlbst.h:248-296 | the subtree at `x` is replaced by its left rotation, balances follow the left table, and the walk and the map are unchanged |
| Avl.RotateRight | avlbst.h:298-349 | the mirror image with the right table |
| Avl.LeftLinks | avlbst.h:250-269 | the pointer writes of `rotateLeft`, in the source's order, give arrays that encode the tree with the subtree at `x` rotated left |
| Avl.RightLinks | avlbst.h:300-321 | the pointer writes of `rotateRight` give arrays that encode the tree with the subtree at `x` rotated right |
| Avl.RotateLeftArrays | avlbst.h:248-296 | on the arrays: the new links encode the rotated tree, the root pointer follows, order, walk and map are kept, and the balances are the left table |
| Avl.RotateRightArrays | avlbst.h:298-349 | the mirror image, with the right table |
| Avl.LeftBalances | avlbst.h:271-295 | the balance writes of `rotateLeft` equal the left table |
| Avl.RightBalances | avlbst.h:323-347 | the balance writes of `rotateRight` equal the right table |
| Avl.RotateLeftRight | avlbst.h:357-360 | a left rotation of the left child, then a right rotation of `x`, with both tables applied in turn |
| Avl.RotateRightLeft | avlbst.h:366-369 | the mirror double rotation |
| Avl.Rebalance | avlbst.h:350-371 | the tree becomes `RebalanceAt` of the subtree at `x`; `ok` is false exactly where the source dereferences null, and then the tree is untouched; the map is unchanged |
| Avl.InsertFix | avlbst.h:184-201 | if the climb succeeds, it keeps the handles, their distinctness and the in-order walk |
| Avl.InsertFixStep | avlbst.h:185-200 | one step of the insert climb: stop at 0, rebalance and stop at two away from zero, otherwise go up one level |
| Avl.InsertStep | avlbst.h:185-200 | one pass of the climb loop leaves the same remaining climb, on a shorter path, or ends with its result |
| Avl.InsertClimb | avlbst.h:184-201 | the climb loop gives exactly `InsertFix`; the map is unchanged |
| Avl.Insert | avlbst.h:151-202 | the map gains `k` with value `v`; an existing key changes nothing else; a new key's leaf with balance 0 is attached where the search falls off, followed by the climb (`InsertResult`) |
| Avl.RemoveFix | avlbst.h:219-236 | if the removal climb succeeds, it keeps the handles, their distinctness and the in-order walk |
| Avl.RemoveFixRebalances | avlbst.h:227-233 | a step that reaches two away from zero rebalances; the climb goes on only when the node is left at 0 |
| Avl.RemoveFixMoves | avlbst.h:221-235 | a step that does not reach two stops unless the node stands at 0, and otherwise goes on at its parent |
| Avl.RemoveStep | avlbst.h:221-235 | one pass of the climb loop leaves the same remaining climb, on a smaller measure, or ends with its result |
| Avl.RemoveMoveStep | avlbst.h:231-235 | the pass without a rebalance: stop unless at 0, otherwise move to the parent |
| Avl.RemoveRebalanceStep | avlbst.h:227-233 | the pass with a rebalance: stop unless the node ends at 0, otherwise go on at the risen root |
| Avl.RemoveClimb | avlbst.h:220-236 | the climb loop gives exactly `RemoveFix` from the given node; the map is unchanged |
| Avl.RemoveResult | avlbst.h:212-236 | if the whole removal succeeds, the result has the handles and the in-order walk of the plain removal |
| Avl.RemoveResultClimb | avlbst.h:218-220 | the climb starts at the node that was the parent of the removed node before the plain removal, and there is no climb when that node was the root |
| Avl.ParentOf | avlbst.h:218 | a node's stored parent is the node above it in the shape |
| Avl.RemovePresent | avlbst.h:218-236 | for a present key: the plain removal, then the climb from the old parent; the map loses `k` |
| Avl.Remove | avlbst.h:208-237 | the map loses exactly `k`; an absent key changes nothing; otherwise the shape and balances are `RemoveResult`, and `ok` is false exactly where a rotation would dereference null |
| Avl.NodeSwap | avlbst.h:239-246 | for two non-null nodes, the base swap followed by an exchange of their balances; `ok` is false (a null dereference in the source) when either is null |
| Avl.ChargeParent | avlbst.h:377-384 | the parent of `x`, if any, loses 1 from its balance on both branches |
| Avl.UpdateBalanceOf | avlbst.h:372-385 | the subtree at `x` is rebalanced when its balance lies outside -1..1; then the balance of its parent drops by 1 |
| Avl.InsertStaleScenario | avlbst.h:151-202 | inserting 30 and then 10 into the empty tree gives 30 over 10 with exact balances; inserting 20 then succeeds, but the resulting balances are not exact |
| Avl.RemoveStaleScenario | avlbst.h:212-236 | removing the root 20 of the perfect tree 10 < 20 < 30 leaves balances that are not exact |
| EqualPaths.CheckIfEqual | equal-paths.cpp:28-51 | a recorded leaf depth is passed back unchanged; an unset one comes back unset or at least the starting depth |
| EqualPaths.CheckIfEqualMeaning | equal-paths.cpp:28-51 | a recorded leaf depth is never changed; an unset one becomes the depth of the leftmost leaf, or stays -1; the verdict holds exactly when every leaf lies at that depth |
| EqualPaths.EqualPaths | equal-paths.cpp:18-26 | holds exactly when all the leaves lie at one depth |
| EqualPaths.FirstLeafRecorded | equal-paths.cpp:35-40 | the leftmost leaf's depth is the one recorded |
| EqualPaths.EmptyTree | equal-paths.cpp:30-32 | an empty tree passes and records no leaf |
| EqualPaths.SingleNode | equal-paths.cpp:35-40 | a lone node is a leaf at depth 0 and passes |
| EqualPaths.OneChildNotLeaf | equal-paths.cpp:35-48 | a node with one child is not a leaf, and its null side adds no leaf |
| EqualPaths.BothSidesVisited | equal-paths.cpp:47-50 | both subtrees are checked; once the left fails, the recorded depth is set and the verdict is false |

## Left out

- Avl.UpdateBalance: `balance_` is an `int8_t` in the source; the model uses unbounded integers. On valid trees balances stay within -2..2. Stale balances could in principle drift further, and 8-bit wrap-around is not modelled.
- Keys and values are `int`: the templates' `Key` and `Value` types and their `<` are modelled by integer order. The `std::pair` of an item is a Dafny pair.
- Memory:
  - `new`, `delete`, `clearHelper` and the destructors are not modelled as memory operations.
  - A removed or cleared node keeps its slot in the arena but is no longer reachable.
  - The AVL `insert` allocates a node before searching and deletes it when the key exists; the model allocates only for a new key.
- Bst.BinarySearchTree.Insert: a new slot also gets a balance of 0. The plain tree keeps a balance entry for every node, which it never reads, so that the AVL layer can share the arena.
- Bst.Iterator.Item: `operator*` and `operator->` return references through which the value can be changed. The model returns the key and value by copy.
- Undefined behaviour where the source dereferences null is a result (`NullDeref`, or `ok == false` with the tree unchanged) rather than a crash. This covers `rebalance` and the AVL `nodeSwap`.
- The default iterator constructor, the `Node` and `AVLNode` getters and setters, and `getBalance`/`setBalance` are field reads and writes in the model.
- `print`, `printRoot` and the pretty printer are output only and are not part of this model.
- Avl.NodeSwap: `remove` does not call it, since it does not override the base `nodeSwap`. It is modelled on its own, as written.
- Avl.Insert, Avl.Remove: the model does not prove the AVL invariant after these operations, because the code does not maintain it. The stale-balance scenarios are concrete witnesses.
