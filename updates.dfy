/** The operations that rebuild subtrees: the two rotations, recursive
    insertion with AVL rebalancing, the deletion routine as it is written
    (it has no branch for the matching key) and the blind key overwrite.
    Each C++ routine rewrites pointers and cached heights in place and
    returns the new subtree root; here each returns the new subtree value. */
module Updates {
  import opened Nodes

  /** Promotes y's left child x: x's right subtree becomes y's left subtree.
      The demoted y gets its height recomputed first, then x. */
  function RightRotate(y: Tree): (x: Tree)
    requires y.Node? && y.left.Node?
    ensures x.Node? && x.right.Node?
    ensures Inorder(x) == Inorder(y) && Keys(x) == Keys(y)
    ensures LocallyExact(x.right) && LocallyExact(x)
    ensures HeightsExact(y.left.left) && HeightsExact(y.left.right) && HeightsExact(y.right) ==> HeightsExact(x)
    ensures IsBST(y) ==> IsBST(x)
  {
    var t1, t2, t3 := y.left.left, y.left.right, y.right;
    var demoted := Node(t2, y.data, t3, 1 + Max(Height(t2), Height(t3)));
    var x := Node(t1, y.left.data, demoted, 1 + Max(Height(t1), Height(demoted)));
    BstIffInorderAscending(y);
    BstIffInorderAscending(x);
    x
  }

  /** Promotes x's right child y: y's left subtree becomes x's right subtree.
      The demoted x gets its height recomputed first, then y. */
  function LeftRotate(x: Tree): (y: Tree)
    requires x.Node? && x.right.Node?
    ensures y.Node? && y.left.Node?
    ensures Inorder(y) == Inorder(x) && Keys(y) == Keys(x)
    ensures LocallyExact(y.left) && LocallyExact(y)
    ensures HeightsExact(x.left) && HeightsExact(x.right.left) && HeightsExact(x.right.right) ==> HeightsExact(y)
    ensures IsBST(x) ==> IsBST(y)
  {
    var t1, t2, t3 := x.left, x.right.left, x.right.right;
    var demoted := Node(t1, x.data, t2, 1 + Max(Height(t1), Height(t2)));
    var y := Node(demoted, x.right.data, t3, 1 + Max(Height(demoted), Height(t3)));
    BstIffInorderAscending(x);
    BstIffInorderAscending(y);
    y
  }

  /** The result of the recursive insert: the new subtree, and whether a node
      was created (the C++ code increments `size` exactly then). */
  datatype Inserted = Inserted(tree: Tree, created: bool)

  /** The unwinding step of insert at one ancestor: recompute its height and
      apply whichever of the four rotation cases the balance factor and the
      position of the inserted key select. */
  function InsertRebalance(node: Tree, data: int): (r: Tree)
    requires node.Node?
    requires BalanceFactor(node) > 1 ==> node.left.Node? && (data > node.left.data ==> node.left.right.Node?)
    requires BalanceFactor(node) < -1 ==> node.right.Node? && (data < node.right.data ==> node.right.left.Node?)
    ensures r.Node?
    ensures Inorder(r) == Inorder(node) && Keys(r) == Keys(node)
    ensures IsBST(node) ==> IsBST(r)
  {
    var n := node.(height := 1 + Max(Height(node.left), Height(node.right)));
    var balance := BalanceFactor(n);
    if balance > 1 && data < n.left.data then
      RightRotate(n)
    else if balance < -1 && data > n.right.data then
      LeftRotate(n)
    else if balance > 1 && data > n.left.data then
      RightRotate(n.(left := LeftRotate(n.left)))
    else if balance < -1 && data < n.right.data then
      LeftRotate(n.(right := RightRotate(n.right)))
    else
      n
  }

  /** What one recursive insert into `before` guarantees about its result,
      beyond exact heights and balance: the subtree grew by at most one
      level, its root has a child on the side the key went, and when it did
      grow the root leans towards that side by exactly one. */
  ghost predicate InsertShape(before: Tree, data: int, after: Tree)
  {
    && HeightsExact(after) && IsBalanced(after)
    && Height(before) <= Height(after) <= Height(before) + 1
    && after.Node?
    && (data < after.data ==> after.left.Node?)
    && (data > after.data ==> after.right.Node?)
    && (before.Node? && Height(after) == Height(before) + 1 ==>
         || (data < after.data && BalanceFactor(after) == 1)
         || (data > after.data && BalanceFactor(after) == -1))
  }

  /** The source's recursive insert. A key that is already on the search
      path leaves the tree as it is; otherwise a new leaf is attached and
      every ancestor is rebalanced on the way back up. */
  function Insert(node: Tree, data: int): (r: Inserted)
    requires HeightsExact(node) && IsBalanced(node)
    ensures InsertShape(node, data, r.tree)
    ensures !r.created ==> r.tree == node
    decreases node
  {
    if node.Nil? then
      Inserted(Node(Nil, data, Nil, 1), true)
    else if data < node.data then
      var sub := Insert(node.left, data);
      InsertLeftRebalances(node, data, sub.tree);
      Inserted(InsertRebalance(node.(left := sub.tree), data), sub.created)
    else if data > node.data then
      var sub := Insert(node.right, data);
      InsertRightRebalances(node, data, sub.tree);
      Inserted(InsertRebalance(node.(right := sub.tree), data), sub.created)
    else
      Inserted(node, false)
  }

  /** Left-left case: a right rotation of a node whose left child is two
      levels taller than its right and leans left restores balance. */
  lemma RightRotateFixesLeftLeft(n: Tree)
    requires n.Node? && n.left.Node?
    requires HeightsExact(n.left) && HeightsExact(n.right) && IsBalanced(n.left) && IsBalanced(n.right)
    requires Height(n.left) == Height(n.right) + 2 && BalanceFactor(n.left) == 1
    ensures var r := RightRotate(n);
      HeightsExact(r) && IsBalanced(r) && Height(r) == Height(n.right) + 2 && r.left.Node?
  {
    ExactHeightsNonnegative(n.left);
    ExactHeightsNonnegative(n.right);
  }

  /** Right-right case, the mirror image. */
  lemma LeftRotateFixesRightRight(n: Tree)
    requires n.Node? && n.right.Node?
    requires HeightsExact(n.left) && HeightsExact(n.right) && IsBalanced(n.left) && IsBalanced(n.right)
    requires Height(n.right) == Height(n.left) + 2 && BalanceFactor(n.right) == -1
    ensures var r := LeftRotate(n);
      HeightsExact(r) && IsBalanced(r) && Height(r) == Height(n.left) + 2 && r.right.Node?
  {
    ExactHeightsNonnegative(n.left);
    ExactHeightsNonnegative(n.right);
  }

  /** Left-right case: rotating the left child left and then the node right
      restores balance when the left child is two levels taller and leans right. */
  lemma DoubleRotateFixesLeftRight(n: Tree)
    requires n.Node? && n.left.Node? && n.left.right.Node?
    requires HeightsExact(n.left) && HeightsExact(n.right) && IsBalanced(n.left) && IsBalanced(n.right)
    requires Height(n.left) == Height(n.right) + 2 && BalanceFactor(n.left) == -1
    ensures var r := RightRotate(n.(left := LeftRotate(n.left)));
      HeightsExact(r) && IsBalanced(r) && Height(r) == Height(n.right) + 2 && r.left.Node? && r.right.Node?
  {
    ExactHeightsNonnegative(n.right);
    ExactHeightsNonnegative(n.left.right);
  }

  /** Right-left case, the mirror image. */
  lemma DoubleRotateFixesRightLeft(n: Tree)
    requires n.Node? && n.right.Node? && n.right.left.Node?
    requires HeightsExact(n.left) && HeightsExact(n.right) && IsBalanced(n.left) && IsBalanced(n.right)
    requires Height(n.right) == Height(n.left) + 2 && BalanceFactor(n.right) == 1
    ensures var r := LeftRotate(n.(right := RightRotate(n.right)));
      HeightsExact(r) && IsBalanced(r) && Height(r) == Height(n.left) + 2 && r.left.Node? && r.right.Node?
  {
    ExactHeightsNonnegative(n.left);
    ExactHeightsNonnegative(n.right.left);
  }

  /** After inserting into the left subtree, the rebalancing step is defined
      and re-establishes the insertion shape at this node. */
  lemma InsertLeftRebalances(node: Tree, data: int, sub: Tree)
    requires node.Node? && HeightsExact(node) && IsBalanced(node) && data < node.data
    requires InsertShape(node.left, data, sub)
    ensures BalanceFactor(node.(left := sub)) > 1 ==> sub.Node? && (data > sub.data ==> sub.right.Node?)
    ensures BalanceFactor(node.(left := sub)) >= -1
    ensures InsertShape(node, data, InsertRebalance(node.(left := sub), data))
    ensures sub == node.left ==> InsertRebalance(node.(left := sub), data) == node
  {
    var n := node.(left := sub);
    ExactHeightsNonnegative(node);
    if BalanceFactor(n) > 1 {
      InsertLeftRotates(node, data, sub);
    } else {
      var m := n.(height := 1 + Max(Height(n.left), Height(n.right)));
      assert InsertRebalance(n, data) == m;
      assert HeightsExact(m) && IsBalanced(m);
    }
  }

  /** The left-heavy case of the above: one of the two rotation cases fires
      and restores the insertion shape. */
  lemma InsertLeftRotates(node: Tree, data: int, sub: Tree)
    requires node.Node? && HeightsExact(node) && IsBalanced(node) && data < node.data
    requires InsertShape(node.left, data, sub)
    requires BalanceFactor(node.(left := sub)) > 1
    ensures sub.Node? && (data > sub.data ==> sub.right.Node?)
    ensures InsertShape(node, data, InsertRebalance(node.(left := sub), data))
  {
    var n := node.(left := sub);
    var m := n.(height := 1 + Max(Height(n.left), Height(n.right)));
    ExactHeightsNonnegative(node);
    assert node.left.Node? && Height(sub) == Height(node.left) + 1;
    if data < sub.data {
      assert InsertRebalance(n, data) == RightRotate(m);
      RightRotateFixesLeftLeft(m);
    } else {
      assert InsertRebalance(n, data) == RightRotate(m.(left := LeftRotate(m.left)));
      DoubleRotateFixesLeftRight(m);
    }
  }

  /** After inserting into the right subtree, the mirror image. */
  lemma InsertRightRebalances(node: Tree, data: int, sub: Tree)
    requires node.Node? && HeightsExact(node) && IsBalanced(node) && data > node.data
    requires InsertShape(node.right, data, sub)
    ensures BalanceFactor(node.(right := sub)) <= 1
    ensures BalanceFactor(node.(right := sub)) < -1 ==> sub.Node? && (data < sub.data ==> sub.left.Node?)
    ensures InsertShape(node, data, InsertRebalance(node.(right := sub), data))
    ensures sub == node.right ==> InsertRebalance(node.(right := sub), data) == node
  {
    var n := node.(right := sub);
    ExactHeightsNonnegative(node);
    if BalanceFactor(n) < -1 {
      InsertRightRotates(node, data, sub);
    } else {
      var m := n.(height := 1 + Max(Height(n.left), Height(n.right)));
      assert InsertRebalance(n, data) == m;
      assert HeightsExact(m) && IsBalanced(m);
    }
  }

  /** The right-heavy case of the above. */
  lemma InsertRightRotates(node: Tree, data: int, sub: Tree)
    requires node.Node? && HeightsExact(node) && IsBalanced(node) && data > node.data
    requires InsertShape(node.right, data, sub)
    requires BalanceFactor(node.(right := sub)) < -1
    ensures sub.Node? && (data < sub.data ==> sub.left.Node?)
    ensures InsertShape(node, data, InsertRebalance(node.(right := sub), data))
  {
    var n := node.(right := sub);
    var m := n.(height := 1 + Max(Height(n.left), Height(n.right)));
    ExactHeightsNonnegative(node);
    assert node.right.Node? && Height(sub) == Height(node.right) + 1;
    if data > sub.data {
      assert InsertRebalance(n, data) == LeftRotate(m);
      LeftRotateFixesRightRight(m);
    } else {
      assert InsertRebalance(n, data) == LeftRotate(m.(right := RightRotate(m.right)));
      DoubleRotateFixesRightLeft(m);
    }
  }

  /** The step shared by the lemmas below: unfolding one level of Insert
      for a key that goes left. */
  lemma InsertUnfoldsLeft(node: Tree, data: int)
    requires HeightsExact(node) && IsBalanced(node) && node.Node? && data < node.data
    ensures var n := node.(left := Insert(node.left, data).tree);
      InsertShape(node.left, data, n.left) &&
      Insert(node, data) == Inserted(InsertRebalance(n, data), Insert(node.left, data).created)
  {
    InsertLeftRebalances(node, data, Insert(node.left, data).tree);
  }

  /** The same for a key that goes right. */
  lemma InsertUnfoldsRight(node: Tree, data: int)
    requires HeightsExact(node) && IsBalanced(node) && node.Node? && data > node.data
    ensures var n := node.(right := Insert(node.right, data).tree);
      InsertShape(node.right, data, n.right) &&
      Insert(node, data) == Inserted(InsertRebalance(n, data), Insert(node.right, data).created)
  {
    InsertRightRebalances(node, data, Insert(node.right, data).tree);
  }

  /** When the grown left subtree stays within one level of its sibling, no
      rotation case fires: insert only re-caches the node's height. */
  lemma InsertLeftWithoutRotation(node: Tree, data: int, sub: Tree)
    requires HeightsExact(node) && IsBalanced(node) && node.Node? && data < node.data
    requires Insert(node.left, data).tree == sub
    requires -1 <= Height(sub) - Height(node.right) <= 1
    ensures Insert(node, data).tree == Node(sub, node.data, node.right, 1 + Max(Height(sub), Height(node.right)))
  {
    InsertUnfoldsLeft(node, data);
  }

  /** The mirror image, for a key that goes right. */
  lemma InsertRightWithoutRotation(node: Tree, data: int, sub: Tree)
    requires HeightsExact(node) && IsBalanced(node) && node.Node? && data > node.data
    requires Insert(node.right, data).tree == sub
    requires -1 <= Height(node.left) - Height(sub) <= 1
    ensures Insert(node, data).tree == Node(node.left, node.data, sub, 1 + Max(Height(node.left), Height(sub)))
  {
    InsertUnfoldsRight(node, data);
  }

  /** Insertion adds exactly `data` to the key set. */
  lemma {:induction false} InsertKeys(node: Tree, data: int)
    requires HeightsExact(node) && IsBalanced(node)
    ensures Keys(Insert(node, data).tree) == Keys(node) + {data}
    decreases node
  {
    if node.Nil? {
    } else if data < node.data {
      InsertUnfoldsLeft(node, data);
      InsertKeys(node.left, data);
      var n := node.(left := Insert(node.left, data).tree);
      assert Keys(n) == Keys(n.left) + {node.data} + Keys(node.right);
    } else if data > node.data {
      InsertUnfoldsRight(node, data);
      InsertKeys(node.right, data);
      var n := node.(right := Insert(node.right, data).tree);
      assert Keys(n) == Keys(node.left) + {node.data} + Keys(n.right);
    }
  }

  /** The node count grows by one exactly when a node is created. */
  lemma {:induction false} InsertCount(node: Tree, data: int)
    requires HeightsExact(node) && IsBalanced(node)
    ensures var r := Insert(node, data);
      CountNodes(r.tree) == CountNodes(node) + (if r.created then 1 else 0)
    decreases node
  {
    if node.Nil? {
    } else if data < node.data {
      InsertUnfoldsLeft(node, data);
      InsertCount(node.left, data);
      var n := node.(left := Insert(node.left, data).tree);
      assert CountNodes(n) == CountNodes(n.left) + 1 + CountNodes(node.right);
    } else if data > node.data {
      InsertUnfoldsRight(node, data);
      InsertCount(node.right, data);
      var n := node.(right := Insert(node.right, data).tree);
      assert CountNodes(n) == CountNodes(node.left) + 1 + CountNodes(n.right);
    }
  }

  /** Insertion keeps BST order. */
  lemma {:induction false} InsertKeepsOrder(node: Tree, data: int)
    requires HeightsExact(node) && IsBalanced(node) && IsBST(node)
    ensures IsBST(Insert(node, data).tree)
    decreases node
  {
    if node.Nil? {
    } else if data < node.data {
      InsertUnfoldsLeft(node, data);
      InsertKeepsOrder(node.left, data);
      InsertKeys(node.left, data);
      var n := node.(left := Insert(node.left, data).tree);
      assert IsBST(n);
    } else if data > node.data {
      InsertUnfoldsRight(node, data);
      InsertKeepsOrder(node.right, data);
      InsertKeys(node.right, data);
      var n := node.(right := Insert(node.right, data).tree);
      assert IsBST(n);
    }
  }

  /** In a BST, insert creates a node exactly when the key was absent. */
  lemma {:induction false} InsertCreatesIffAbsent(node: Tree, data: int)
    requires HeightsExact(node) && IsBalanced(node) && IsBST(node)
    ensures Insert(node, data).created <==> data !in Keys(node)
    decreases node
  {
    if node.Nil? {
    } else if data < node.data {
      InsertUnfoldsLeft(node, data);
      InsertCreatesIffAbsent(node.left, data);
      assert data !in Keys(node.right);
    } else if data > node.data {
      InsertUnfoldsRight(node, data);
      InsertCreatesIffAbsent(node.right, data);
      assert data !in Keys(node.left);
    }
  }

  /** A caller's loop of inserts: the keys of `xs`, first to last. */
  function InsertAll(t: Tree, xs: seq<int>): (r: Tree)
    requires HeightsExact(t) && IsBalanced(t)
    ensures HeightsExact(r) && IsBalanced(r)
    decreases |xs|
  {
    if xs == [] then t else InsertAll(Insert(t, xs[0]).tree, xs[1..])
  }

  /** After a loop of inserts into a BST the tree is still a BST holding the
      old keys and exactly the inserted ones. */
  lemma {:induction false} InsertAllKeys(t: Tree, xs: seq<int>)
    requires HeightsExact(t) && IsBalanced(t) && IsBST(t)
    ensures IsBST(InsertAll(t, xs))
    ensures forall k :: k in Keys(InsertAll(t, xs)) <==> k in Keys(t) || k in xs
    decreases |xs|
  {
    if xs != [] {
      var t' := Insert(t, xs[0]).tree;
      InsertKeys(t, xs[0]);
      InsertKeepsOrder(t, xs[0]);
      InsertAllKeys(t', xs[1..]);
      assert forall k :: k in xs <==> k == xs[0] || k in xs[1..] by {
        assert xs == [xs[0]] + xs[1..];
      }
    }
  }

  /** Inserting keys in any order into an empty tree and reading them back in
      inorder gives them sorted and without duplicates; in particular a
      strictly ascending key sequence comes back exactly as it went in. */
  lemma InsertAllRoundTrip(xs: seq<int>)
    ensures StrictlyAscending(Inorder(InsertAll(Nil, xs)))
    ensures forall k :: k in Inorder(InsertAll(Nil, xs)) <==> k in xs
    ensures StrictlyAscending(xs) ==> Inorder(InsertAll(Nil, xs)) == xs
  {
    InsertAllKeys(Nil, xs);
    BstIffInorderAscending(InsertAll(Nil, xs));
    if StrictlyAscending(xs) {
      AscendingUnique(Inorder(InsertAll(Nil, xs)), xs);
    }
  }

  /** The unwinding step of deleteNode at one node: recompute its height and
      apply whichever of the four rotation cases the balance factors of the
      node and of its heavier child select. */
  function DeleteRebalance(node: Tree): (r: Tree)
    requires node.Node? && HeightsExact(node.left) && HeightsExact(node.right)
    ensures HeightsExact(r)
    ensures Inorder(r) == Inorder(node) && Keys(r) == Keys(node)
    ensures HeightsExact(node) && IsBalanced(node) ==> r == node
  {
    var l, r := node.left, node.right;
    ExactHeightsNonnegative(l);
    ExactHeightsNonnegative(r);
    var n := Node(l, node.data, r, 1 + Max(Height(l), Height(r)));
    var balance := BalanceFactor(n);
    if balance > 1 && BalanceFactor(l) >= 0 then
      assert HeightsExact(l.left) && HeightsExact(l.right);
      RightRotate(n)
    else if balance > 1 && BalanceFactor(l) < 0 then
      ExactHeightsNonnegative(l.left);
      assert HeightsExact(l.left) && HeightsExact(l.right) && HeightsExact(l.right.left) && HeightsExact(l.right.right);
      var promoted := LeftRotate(l);
      assert HeightsExact(promoted.left) && HeightsExact(promoted.right);
      RightRotate(n.(left := promoted))
    else if balance < -1 && BalanceFactor(r) <= 0 then
      assert HeightsExact(r.left) && HeightsExact(r.right);
      LeftRotate(n)
    else if balance < -1 && BalanceFactor(r) > 0 then
      ExactHeightsNonnegative(r.right);
      assert HeightsExact(r.left) && HeightsExact(r.right) && HeightsExact(r.left.left) && HeightsExact(r.left.right);
      var promoted := RightRotate(r);
      assert HeightsExact(promoted.left) && HeightsExact(promoted.right);
      LeftRotate(n.(right := promoted))
    else
      n
  }

  /** The source's deleteNode as written: it descends towards `key` but has
      no branch for the node holding `key`, so no node is ever unlinked. The
      inorder key sequence is always preserved, and on a balanced tree the
      result is the very same tree. */
  function DeleteNode(root: Tree, key: int): (r: Tree)
    requires HeightsExact(root)
    ensures HeightsExact(r)
    ensures Inorder(r) == Inorder(root) && Keys(r) == Keys(root)
    ensures IsBalanced(root) ==> r == root
    decreases root
  {
    if root.Nil? then
      root
    else
      var n :=
        if key < root.data then root.(left := DeleteNode(root.left, key))
        else if key > root.data then root.(right := DeleteNode(root.right, key))
        else root;
      DeleteRebalance(n)
  }

  /** Two trees with the same shape and the same cached heights, whatever their keys. */
  ghost predicate SameShape(a: Tree, b: Tree)
  {
    match a
    case Nil => b.Nil?
    case Node(l, _, r, h) => b.Node? && b.height == h && SameShape(l, b.left) && SameShape(r, b.right)
  }

  /** s with every occurrence of `oldKey` replaced by `newKey`. */
  ghost function Replace(s: seq<int>, oldKey: int, newKey: int): (r: seq<int>)
  {
    seq(|s|, i requires 0 <= i < |s| => if s[i] == oldKey then newKey else s[i])
  }

  lemma ReplaceJoin(a: seq<int>, d: int, b: seq<int>, oldKey: int, newKey: int)
    ensures Replace(a + [d] + b, oldKey, newKey)
      == Replace(a, oldKey, newKey) + [if d == oldKey then newKey else d] + Replace(b, oldKey, newKey)
  {
    var lhs := Replace(a + [d] + b, oldKey, newKey);
    var rhs := Replace(a, oldKey, newKey) + [if d == oldKey then newKey else d] + Replace(b, oldKey, newKey);
    assert |lhs| == |rhs|;
    forall i | 0 <= i < |lhs| ensures lhs[i] == rhs[i] {
      if i < |a| {
      } else if i == |a| {
      } else {
        assert (a + [d] + b)[i] == b[i - |a| - 1];
      }
    }
  }

  /** The source's updateKey: visits every node and overwrites each key equal
      to `oldKey` with `newKey`. Shape and cached heights are untouched, so
      exact heights and balance survive; BST order need not (see
      UpdateKeyCanBreakOrder). */
  function UpdateKey(t: Tree, oldKey: int, newKey: int): (r: Tree)
    ensures SameShape(t, r) && Height(r) == Height(t)
    ensures Inorder(r) == Replace(Inorder(t), oldKey, newKey)
    ensures HeightsExact(r) == HeightsExact(t) && IsBalanced(r) == IsBalanced(t)
    decreases t
  {
    match t
    case Nil => Nil
    case Node(l, d, rt, h) =>
      ReplaceJoin(Inorder(l), d, Inorder(rt), oldKey, newKey);
      var l', rt' := UpdateKey(l, oldKey, newKey), UpdateKey(rt, oldKey, newKey);
      Node(l', if d == oldKey then newKey else d, rt', h)
  }

  /** Keys afterwards: `oldKey` replaced by `newKey` if it was present, otherwise unchanged. */
  lemma {:induction false} UpdateKeyKeys(t: Tree, oldKey: int, newKey: int)
    ensures Keys(UpdateKey(t, oldKey, newKey)) ==
      if oldKey in Keys(t) then Keys(t) - {oldKey} + {newKey} else Keys(t)
    decreases t
  {
    match t
    case Nil =>
    case Node(l, d, rt, _) =>
      UpdateKeyKeys(l, oldKey, newKey);
      UpdateKeyKeys(rt, oldKey, newKey);
  }

  /** Overwriting a key can leave a BST out of order. */
  lemma UpdateKeyCanBreakOrder()
    ensures var t := Node(Nil, 1, Node(Nil, 2, Nil, 1), 2);
      IsBST(t) && !IsBST(UpdateKey(t, 2, 0))
  {
    var leaf := Node(Nil, 2, Nil, 1);
    var t := Node(Nil, 1, leaf, 2);
    assert Keys(leaf) == {2};
    assert IsBST(leaf);
    var u := UpdateKey(t, 2, 0);
    assert u.right == UpdateKey(leaf, 2, 0);
    assert 0 in Keys(u.right);
  }
}
