# AVL tree of integer keys

A Dafny model of the `AVLTree` class of `mutants/AVLTree.cpp`. The class stores
integer keys in a self-balancing binary search tree. Each node caches the height
of its subtree. Insertion rebalances with the four classic rotation cases. The
traversals and the range search append keys to a shared `result` vector.

The model has five modules:

- `Nodes` (`nodes.dfy`): the node type `Tree = Nil | Node(left, data, right, height)` and the
  source's pure helpers `height`, `getBalanceFactor`, `countNodes` and `isBalanced`. It also
  defines the properties everything else is stated in: exact cached heights, AVL balance, the
  key set, the inorder sequence and BST order.
- `Updates` (`updates.dfy`): `rightRotate`, `leftRotate`, recursive `insert`, recursive
  `deleteNode` and `updateKey`. The source rewrites pointers in place; here each of these is a
  function that returns the rewritten subtree.
- `Queries` (`queries.dfy`): the preorder, postorder and level orders; `depthFirstSearch`; and
  the loop-based `breadthFirstSearch`, `findMin`, `findMax`, `findSuccessor` and
  `findPredecessor`, written as methods with `while` loops over an explicit queue or a
  descending cursor. It also holds the pruned `rangeSearch` walk.
- `AVL` (`avl_tree.dfy`): the class `AVLTree`. Its fields are `root`, the insertion counter
  `size` and the output vector `result`. Its public methods forward to the node-level
  operations. The traversals are recursive methods that append to `result`, and level order is
  the source's queue loop. `Valid()` is the class invariant: exact heights, balance, and a
  counter equal to the number of nodes present plus the ghost count `dropped` of nodes that
  `clear()` discarded.
- `Scenarios` (`scenarios.dfy`): a seven-key worked example of inserts and queries.

### Where the model follows the code rather than the intended design

- `deleteNode` has no branch for the key being found. It descends left or right, recomputes the
  height and may rebalance, but never unlinks a node. The model keeps it that way:
  `Updates.DeleteNode` preserves the inorder sequence of every tree with exact heights, and
  returns a balanced tree unchanged. So `remove(k)` leaves `k` in the tree.
- `size` goes up when `insert` creates a node. Nothing lowers it: neither `remove` nor `clear()`
  does. The model adds a ghost field `dropped` that `clear()` raises by the number of nodes it
  discards, and the class invariant states `size == CountNodes(root) + dropped`.
- `successor`/`predecessor` do not require the key to be in the tree. Each returns the nearest
  key above or below whether or not the key itself is present.
- `updateKey` overwrites keys in place with no re-sorting, so it can break BST order.
  `Updates.UpdateKeyCanBreakOrder` exhibits a two-node BST that loses its order. BST order is
  therefore not part of `Valid()`; it appears as a hypothesis where it matters.

## Model

| member | source | states |
|---|---|---|
| Nodes.Height | mutants/AVLTree.cpp:8-15 | no contract of its own (it only reads the cached field, 0 for an absent node); specified by `Nodes.CachedHeightIsDepth` and `Nodes.ExactHeightsNonnegative` |
| Nodes.BalanceFactor | mutants/AVLTree.cpp:17-24 | no contract of its own (child height minus child height, 0 for an absent node); specified by `Nodes.BalanceFactorOfExact` |
| Nodes.BalanceFactorOfExact | mutants/AVLTree.cpp:17-24 | with exact cached heights, a node's balance factor is the left child's true height minus the right child's |
| Nodes.IsBalanced | mutants/AVLTree.cpp:285-293 | no contract of its own (the recursive check of the source); specified by `Nodes.IsBalancedIff` |
| Nodes.CachedHeightIsDepth | mutants/AVLTree.cpp:8-15 | with exact cached heights, `height(node)` is the true height of the subtree |
| Nodes.ExactHeightsNonnegative | mutants/AVLTree.cpp:8-15 | with exact cached heights no height is negative, and a node's height is at least 1 |
| Nodes.IsBalancedIff | mutants/AVLTree.cpp:285-293 | `isBalanced` holds exactly when every node in the tree has balance factor in [-1, 1] |
| Nodes.Inorder | mutants/AVLTree.cpp:172-182 | a key is in the inorder sequence exactly when it is stored in the tree |
| Nodes.CountNodes | mutants/AVLTree.cpp:276-283 | `countNodes` equals the length of the inorder sequence |
| Nodes.CountNodesOfBst | mutants/AVLTree.cpp:276-283 | in a BST the node count equals the number of distinct keys |
| Nodes.BstIffInorderAscending | mutants/AVLTree.cpp:172-182 | a tree is in BST order exactly when its inorder sequence is strictly ascending |
| Nodes.AscendingUnique | mutants/AVLTree.cpp:172-182 | two strictly ascending sequences with the same elements are equal |
| Updates.RightRotate | mutants/AVLTree.cpp:26-40 | the result has the same inorder sequence and key set; the demoted node's height is recomputed from its new children and the promoted node's from the demoted one; it is exact when the three moved subtrees are exact; it keeps BST order |
| Updates.LeftRotate | mutants/AVLTree.cpp:42-56 | the mirror image of `RightRotate`: the same inorder sequence and key set, both touched heights recomputed, exactness and BST order kept |
| Updates.InsertRebalance | mutants/AVLTree.cpp:84-116 | the height update and the four rotation cases tried in source order keep the inorder sequence, the key set and BST order |
| Updates.RightRotateFixesLeftLeft | mutants/AVLTree.cpp:90-94 | when the left child is two levels taller and leans left, one right rotation gives an exact balanced tree one level above the right child plus one |
| Updates.LeftRotateFixesRightRight | mutants/AVLTree.cpp:96-100 | the mirror case: one left rotation rebalances a right-right excess |
| Updates.DoubleRotateFixesLeftRight | mutants/AVLTree.cpp:102-107 | when the left child is two levels taller and leans right, left-rotating it and then right-rotating the node gives an exact balanced tree |
| Updates.DoubleRotateFixesRightLeft | mutants/AVLTree.cpp:109-114 | the mirror case for a right child leaning left |
| Updates.InsertLeftRotates | mutants/AVLTree.cpp:88-107 | when the left subtree grew out of balance, the left-left or left-right case applies without touching an absent child and restores the insertion shape |
| Updates.InsertRightRotates | mutants/AVLTree.cpp:96-114 | the mirror cases, right-right and right-left |
| Updates.InsertLeftRebalances | mutants/AVLTree.cpp:72-74 | after inserting into the left subtree, no node can reach the case that would dereference an absent child; the rebalanced node is exact, balanced and grew by at most one level; an unchanged subtree leaves the node unchanged |
| Updates.InsertRightRebalances | mutants/AVLTree.cpp:76-78 | the same for an insertion into the right subtree |
| Updates.Insert | mutants/AVLTree.cpp:58-117 | on an exact balanced tree, insert returns an exact balanced tree that is at most one level taller and leans towards the inserted key when it grew; when no node was created the tree is returned unchanged |
| Updates.InsertLeftWithoutRotation | mutants/AVLTree.cpp:72-116 | when the grown left subtree stays within one level of its sibling, insert only re-caches the node's height |
| Updates.InsertRightWithoutRotation | mutants/AVLTree.cpp:76-116 | the same for the right subtree |
| Updates.InsertKeys | mutants/AVLTree.cpp:58-117 | the key set after insert is the old key set plus the inserted key |
| Updates.InsertCount | mutants/AVLTree.cpp:60-69 | the node count grows by one exactly when a node is created, and otherwise stays the same |
| Updates.InsertKeepsOrder | mutants/AVLTree.cpp:71-116 | insert keeps BST order |
| Updates.InsertCreatesIffAbsent | mutants/AVLTree.cpp:60-82 | in a BST, insert creates a node exactly when the key was absent; the duplicate branch leaves the tree unchanged |
| Updates.InsertAll | mutants/AVLTree.cpp:450-453 | a sequence of inserts keeps exact heights and balance |
| Updates.InsertAllKeys | mutants/AVLTree.cpp:450-453 | a sequence of inserts into a BST gives a BST holding the old keys and exactly the inserted ones |
| Updates.InsertAllRoundTrip | mutants/AVLTree.cpp:58-117 | inserting keys in any order into an empty tree and reading them in inorder gives them sorted without duplicates; a strictly ascending key sequence comes back unchanged |
| Updates.DeleteRebalance | mutants/AVLTree.cpp:143-169 | the height update and the four deletion rotation cases keep the inorder sequence and key set and give exact heights; on an already balanced node nothing changes |
| Updates.DeleteNode | mutants/AVLTree.cpp:121-170 | on a tree with exact heights the result has exact heights and the same inorder sequence and key set; a balanced tree is returned unchanged, so no key is ever removed |
| Updates.UpdateKey | mutants/AVLTree.cpp:359-372 | the result has the same shape and cached heights; its inorder sequence is the old one with every `oldKey` replaced by `newKey`; exactness and balance are unaffected |
| Updates.UpdateKeyKeys | mutants/AVLTree.cpp:359-372 | if `oldKey` was present, the key set afterwards is the old one without `oldKey` plus `newKey`; otherwise it is unchanged |
| Updates.UpdateKeyCanBreakOrder | mutants/AVLTree.cpp:359-372 | a BST of two nodes stops being a BST once a key is overwritten |
| Queries.Preorder | mutants/AVLTree.cpp:184-194 | no contract of its own (node, left subtree, right subtree); specified by `Queries.PreorderPermutesInorder` and, on an example, `Scenarios.SevenKeysPreorder` |
| Queries.Postorder | mutants/AVLTree.cpp:196-205 | no contract of its own (left subtree, right subtree, node); specified by `Queries.PostorderPermutesInorder` and, on an example, `Scenarios.SevenKeysPostorder` |
| Queries.PreorderPermutesInorder | mutants/AVLTree.cpp:184-194 | preorder lists every key exactly as often as inorder does, root key first |
| Queries.PostorderPermutesInorder | mutants/AVLTree.cpp:196-205 | postorder lists every key exactly as often as inorder does, root key last |
| Queries.Advance | mutants/AVLTree.cpp:219-234 | one pop-and-push step holds only nodes, reaches one node fewer, and loses only the popped node's key |
| Queries.BfsOrder | mutants/AVLTree.cpp:219-234 | no contract of its own (pop the front, emit its key, push its present children; an absent subtree, which the loop never queues, is skipped); specified by `Queries.BfsOrderBag` and `Queries.BfsOrderByLevels` |
| Queries.BfsOrderStep | mutants/AVLTree.cpp:219-234 | proof step for the loop invariant of `AVL.AVLTree.LevelOrderVisit`: one iteration moves the front key from the walk still to come to the end of the output already emitted |
| Queries.BfsOrderBag | mutants/AVLTree.cpp:219-234 | the queue loop emits every key reachable from the queue exactly once |
| Queries.LevelOrder | mutants/AVLTree.cpp:207-236 | no contract of its own (the queue loop started from the root alone); specified by `Queries.LevelOrderPermutesInorder` and `Queries.LevelOrderByLevels` |
| Queries.LevelOrderPermutesInorder | mutants/AVLTree.cpp:207-236 | level order is a rearrangement of the inorder keys with `countNodes(root)` elements, root key first |
| Queries.BfsOrderGeneration | mutants/AVLTree.cpp:219-234 | the queue loop emits the keys of the subtrees now in the queue, in queue order, before any key of their children, which by then fill the queue behind whatever followed them |
| Queries.BfsOrderByLevels | mutants/AVLTree.cpp:219-234 | started from a queue no deeper than n, the loop emits level 0 of every queued subtree, then level 1 of every one, and so on to level n - 1 |
| Queries.LevelOrderByLevels | mutants/AVLTree.cpp:207-236 | level order is the root's level, then the next level down, and so on to the deepest, each level left to right |
| Queries.DepthFirstSearch | mutants/AVLTree.cpp:409-424 | the recursive search returns true exactly when the key is stored somewhere in the tree |
| Queries.BreadthFirstSearch | mutants/AVLTree.cpp:375-407 | the queue search returns true exactly when the key is stored somewhere in the tree, and false on an empty tree |
| Queries.FindMin | mutants/AVLTree.cpp:239-250 | the node reached has no left child and holds a key of the tree; nothing is returned only for an empty tree; in a BST the key is the least |
| Queries.FindMax | mutants/AVLTree.cpp:252-263 | the node reached has no right child and holds a key of the tree; in a BST the key is the greatest |
| Queries.FindSuccessor | mutants/AVLTree.cpp:295-315 | any node returned holds a key of the tree above `key`; in a BST it is the least such key, and nothing is returned exactly when no key is above `key` |
| Queries.FindPredecessor | mutants/AVLTree.cpp:317-337 | any node returned holds a key of the tree below `key`; in a BST it is the greatest such key, and nothing is returned exactly when no key is below `key` |
| Queries.RangeOrder | mutants/AVLTree.cpp:339-357 | the pruned walk yields only keys of the tree lying in [k1, k2] |
| Queries.RangeOrderMembers | mutants/AVLTree.cpp:339-357 | on a BST the pruned walk yields every key in [k1, k2] and no other |
| Queries.RangeOrderOfBst | mutants/AVLTree.cpp:339-357 | on a BST the pruned walk yields exactly the keys in [k1, k2], strictly ascending |
| AVL.AVLTree.constructor | mutants/AVLTree.cpp:3-6 | a new tree is empty, its counter is 0, its output vector is empty, no node has been dropped, and the invariant holds |
| AVL.AVLTree.Insert | mutants/AVLTree.cpp:450-453 | keeps the invariant; the key set gains `data`; the counter and the node count rise together; the height grows by at most one; in a BST, order is kept and the counter rises exactly when `data` was absent |
| AVL.AVLTree.Remove | mutants/AVLTree.cpp:455-463 | on a valid tree, remove leaves the root unchanged, with or without the key, and on an empty tree too |
| AVL.AVLTree.UpdateKey | mutants/AVLTree.cpp:535-543 | the shape is kept; the inorder sequence has `oldKey` replaced by `newKey`; the key set changes accordingly; node count and validity are unchanged |
| AVL.AVLTree.Clear | mutants/AVLTree.cpp:502-506 | the root becomes empty; the counter is outside the method's frame and keeps its value; on a valid tree the old nodes are added to the dropped count; the invariant holds |
| AVL.AVLTree.InorderVisit | mutants/AVLTree.cpp:172-182 | appends the subtree's inorder sequence to `result` |
| AVL.AVLTree.InorderTraversal | mutants/AVLTree.cpp:465-468 | appends the inorder sequence; on a BST the appended part is strictly ascending |
| AVL.AVLTree.PreorderVisit | mutants/AVLTree.cpp:184-194 | appends the subtree's preorder sequence to `result` |
| AVL.AVLTree.PreorderTraversal | mutants/AVLTree.cpp:470-473 | appends a rearrangement of the inorder keys whose first element is the root key |
| AVL.AVLTree.PostorderVisit | mutants/AVLTree.cpp:196-205 | appends the subtree's postorder sequence to `result` |
| AVL.AVLTree.PostorderTraversal | mutants/AVLTree.cpp:475-478 | appends a rearrangement of the inorder keys whose last element is the root key |
| AVL.AVLTree.LevelOrderVisit | mutants/AVLTree.cpp:207-236 | the queue loop appends exactly the level order of the subtree |
| AVL.AVLTree.LevelOrderTraversal | mutants/AVLTree.cpp:480-483 | appends the keys level by level from the root down, left to right within a level: `countNodes(root)` keys, a rearrangement of the inorder keys, root key first |
| AVL.AVLTree.RangeSearchVisit | mutants/AVLTree.cpp:339-357 | appends the pruned walk's keys to `result` |
| AVL.AVLTree.RangeSearch | mutants/AVLTree.cpp:530-533 | appends after the prior contents; on a BST the appended part is exactly the keys in [k1, k2], strictly ascending |
| AVL.AVLTree.GetSize | mutants/AVLTree.cpp:426-429 | the counter, which on a valid tree is the node count plus the nodes dropped by clear, so at least the node count |
| AVL.AVLTree.GetRoot | mutants/AVLTree.cpp:431-434 | the root key, which preorder lists first and postorder last |
| AVL.AVLTree.Count | mutants/AVLTree.cpp:508-511 | the number of nodes, which in a BST is the number of distinct keys |
| AVL.AVLTree.Height | mutants/AVLTree.cpp:485-488 | the root's cached height, which with exact heights is the true height |
| AVL.AVLTree.IsBalanced | mutants/AVLTree.cpp:513-516 | true exactly when no node is off balance; always true on a valid tree |
| AVL.AVLTree.Minimum | mutants/AVLTree.cpp:490-494 | -1 for an empty tree, otherwise a key of the tree; the least in a BST |
| AVL.AVLTree.Maximum | mutants/AVLTree.cpp:496-500 | -1 for an empty tree, otherwise a key of the tree; the greatest in a BST |
| AVL.AVLTree.Successor | mutants/AVLTree.cpp:518-522 | -1 or a key of the tree above `key`; -1 when no key is above; in a BST the least key above when one exists |
| AVL.AVLTree.Predecessor | mutants/AVLTree.cpp:524-528 | -1 or a key of the tree below `key`; -1 when no key is below; in a BST the greatest key below when one exists |
| AVL.AVLTree.DepthFirstSearch | mutants/AVLTree.cpp:436-439 | true exactly when the key is stored in the tree |
| AVL.AVLTree.BreadthFirstSearch | mutants/AVLTree.cpp:441-448 | true exactly when the key is stored in the tree, false on an empty tree |
| Scenarios.SevenKeysFirstFour | mutants/AVLTree.cpp:58-117 | inserting the median, the two quartiles and the least of seven ascending keys attaches each as a leaf with no rotation |
| Scenarios.SevenKeysLastThree | mutants/AVLTree.cpp:58-117 | the remaining three inserts fill the last leaf positions, again with no rotation |
| Scenarios.SevenKeys | mutants/AVLTree.cpp:450-453 | inserting seven ascending keys median first, then the quartiles, then the rest, gives the perfect tree of height 3; with keys 3, 5, 8, 10, 12, 15, 18 this is the order 10, 5, 15, 3, 8, 12, 18 |
| Scenarios.SevenKeysQueries | mutants/AVLTree.cpp:121-170 | on that tree, inorder gives the keys ascending, the range walk for the second to sixth key gives those five, and deleteNode of the root key returns the tree unchanged |
| Scenarios.SevenKeysLevelOrder | mutants/AVLTree.cpp:207-236 | on that tree level order lists the median, then the two quartiles, then the four remaining keys in ascending order |
| Scenarios.SevenKeysPreorder | mutants/AVLTree.cpp:184-194 | on that tree preorder lists the median, then the left quartile with its two leaves, then the right quartile with its two |
| Scenarios.SevenKeysPostorder | mutants/AVLTree.cpp:196-205 | on that tree postorder lists each quartile after its two leaves and the median last |

## Left out

- In-place pointer updates and aliasing: rotations, `insert`, `deleteNode` and `updateKey` are modelled as functions on tree values that return the rewritten subtree. The model does not capture that the old node objects are mutated and shared.
- Memory management: `new`/`delete`, the destructor, and the post-order freeing done by `clear(Node*)` (mutants/AVLTree.cpp:265-274, 546-551). `AVL.AVLTree.Clear` only resets the root.
- `minValueNode` and `treeHeight`: they are declared in `coverage/AVLTree.h` but have no definition in the modelled file.
- Fixed-width arithmetic: keys are unbounded integers and `size` is a `nat`. C++ `int` and `size_t` overflow is not modelled, because keys are only compared and heights stay small.
- `harness.cpp`, `avl_tree_test.cpp` and `main.cpp`: these are fuzz drivers and a console demo. Some of their assertions do not hold for this code: deleted keys are expected to vanish, and successor/predecessor are expected to be -1 for absent keys.
- Updates.Insert: requires exact cached heights and balance. On other trees the source can dereference an absent child in the left-right or right-left case, so no result is defined there.
- Updates.DeleteNode: requires exact cached heights. With arbitrary cached heights a rotation case can fire on an absent child.
- AVL.AVLTree.Insert: requires the class invariant, for the reason given for Updates.Insert.
- AVL.AVLTree.Remove: requires the class invariant and then promises an unchanged root. The weaker facts that hold on trees with exact heights but no balance are stated by Updates.DeleteNode.
- AVL.AVLTree.GetRoot: requires a non-empty tree, because the source dereferences the root unchecked.
- Queries.FindSuccessor, Queries.FindPredecessor, Queries.FindMin, Queries.FindMax: the "least/greatest" parts hold only under BST order, which the walks assume. Without BST order only membership and the strict inequality are promised.
