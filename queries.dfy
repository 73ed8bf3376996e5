/** The read-only operations: the traversal orders, the leftmost/rightmost
    descents, successor and predecessor by value, the pruned range walk and
    the two exhaustive membership searches. */
module Queries {
  import opened Nodes

  /** Node, then left subtree, then right subtree. */
  ghost function Preorder(t: Tree): seq<int>
  {
    match t
    case Nil => []
    case Node(l, d, r, _) => [d] + Preorder(l) + Preorder(r)
  }

  /** Left subtree, then right subtree, then the node. */
  ghost function Postorder(t: Tree): seq<int>
  {
    match t
    case Nil => []
    case Node(l, d, r, _) => Postorder(l) + Postorder(r) + [d]
  }

  /** Preorder lists every node exactly once, the root first. */
  lemma {:induction false} PreorderPermutesInorder(t: Tree)
    ensures multiset(Preorder(t)) == multiset(Inorder(t))
    ensures t.Node? ==> |Preorder(t)| > 0 && Preorder(t)[0] == t.data
  {
    match t
    case Nil =>
    case Node(l, d, r, _) =>
      PreorderPermutesInorder(l);
      PreorderPermutesInorder(r);
      assert Preorder(t) == [d] + Preorder(l) + Preorder(r);
      assert Inorder(t) == Inorder(l) + [d] + Inorder(r);
  }

  /** Postorder lists every node exactly once, the root last. */
  lemma {:induction false} PostorderPermutesInorder(t: Tree)
    ensures multiset(Postorder(t)) == multiset(Inorder(t))
    ensures t.Node? ==> |Postorder(t)| > 0 && Postorder(t)[|Postorder(t)| - 1] == t.data
  {
    match t
    case Nil =>
    case Node(l, d, r, _) =>
      PostorderPermutesInorder(l);
      PostorderPermutesInorder(r);
      assert Postorder(t) == Postorder(l) + Postorder(r) + [d];
      assert Inorder(t) == Inorder(l) + [d] + Inorder(r);
  }

  // ---------------------------------------------------------------------
  // Queues of subtrees, as used by level order and breadth-first search

  /** Only non-empty subtrees are ever put in the queue. */
  ghost predicate AllNodes(q: seq<Tree>)
  {
    forall i :: 0 <= i < |q| ==> q[i].Node?
  }

  /** The number of nodes still reachable from the queue. */
  ghost function QueueSize(q: seq<Tree>): nat
  {
    if q == [] then 0 else CountNodes(q[0]) + QueueSize(q[1..])
  }

  lemma {:induction false} QueueSizeJoin(a: seq<Tree>, b: seq<Tree>)
    ensures QueueSize(a + b) == QueueSize(a) + QueueSize(b)
    decreases |a|
  {
    if a != [] {
      assert (a + b)[0] == a[0] && (a + b)[1..] == a[1..] + b;
      QueueSizeJoin(a[1..], b);
    } else {
      assert a + b == b;
    }
  }

  /** The keys still reachable from the queue. */
  ghost function QueueKeys(q: seq<Tree>): set<int>
  {
    if q == [] then {} else Keys(q[0]) + QueueKeys(q[1..])
  }

  lemma {:induction false} QueueKeysJoin(a: seq<Tree>, b: seq<Tree>)
    ensures QueueKeys(a + b) == QueueKeys(a) + QueueKeys(b)
    decreases |a|
  {
    if a != [] {
      assert (a + b)[0] == a[0] && (a + b)[1..] == a[1..] + b;
      QueueKeysJoin(a[1..], b);
    } else {
      assert a + b == b;
    }
  }

  /** The multiset of keys still reachable from the queue. */
  ghost function QueueBag(q: seq<Tree>): multiset<int>
  {
    if q == [] then multiset{} else multiset(Inorder(q[0])) + QueueBag(q[1..])
  }

  lemma {:induction false} QueueBagJoin(a: seq<Tree>, b: seq<Tree>)
    ensures QueueBag(a + b) == QueueBag(a) + QueueBag(b)
    decreases |a|
  {
    if a != [] {
      assert (a + b)[0] == a[0] && (a + b)[1..] == a[1..] + b;
      QueueBagJoin(a[1..], b);
    } else {
      assert a + b == b;
    }
  }

  /** What a push of one child adds to the queue: the child, if it is present. */
  function Pushed(t: Tree): seq<Tree>
  {
    if t.Node? then [t] else []
  }

  /** A push puts exactly the child's nodes and keys in the queue. */
  lemma PushedQueue(t: Tree)
    ensures AllNodes(Pushed(t))
    ensures QueueSize(Pushed(t)) == CountNodes(t)
    ensures QueueKeys(Pushed(t)) == Keys(t)
  {
    if t.Node? {
      assert [t][1..] == [];
    }
  }

  /** The same, counted with multiplicity. */
  lemma PushedBag(t: Tree)
    ensures QueueBag(Pushed(t)) == multiset(Inorder(t))
  {
    if t.Node? {
      assert [t][1..] == [];
    }
  }

  lemma AllNodesJoin(a: seq<Tree>, b: seq<Tree>)
    requires AllNodes(a) && AllNodes(b)
    ensures AllNodes(a + b)
  {
    forall i | 0 <= i < |a + b| ensures (a + b)[i].Node? {
      if i < |a| {
        assert (a + b)[i] == a[i];
      } else {
        assert (a + b)[i] == b[i - |a|];
      }
    }
  }

  /** One step of the walk: pop the front node, then push its left child and
      its right child at the back, each only if present. */
  function Advance(q: seq<Tree>): (next: seq<Tree>)
    requires q != [] && AllNodes(q)
    ensures AllNodes(next)
    ensures QueueSize(next) == QueueSize(q) - 1
    ensures QueueKeys(q) == {q[0].data} + QueueKeys(next)
  {
    var front, rest := q[0], q[1..];
    assert QueueSize(q) == CountNodes(front) + QueueSize(rest);
    assert QueueKeys(q) == Keys(front) + QueueKeys(rest);
    var l, r := Pushed(front.left), Pushed(front.right);
    PushedQueue(front.left);
    PushedQueue(front.right);
    QueueSizeJoin(rest, l);
    QueueSizeJoin(rest + l, r);
    QueueKeysJoin(rest, l);
    QueueKeysJoin(rest + l, r);
    AllNodesJoin(rest, l);
    AllNodesJoin(rest + l, r);
    rest + l + r
  }

  /** The children a node pushes when it is popped, left first, each only if
      present. */
  function Offspring(t: Tree): seq<Tree>
  {
    if t.Nil? then [] else Pushed(t.left) + Pushed(t.right)
  }

  /** Popping a node and pushing its children leaves one node fewer in reach. */
  lemma OffspringSize(q: seq<Tree>)
    requires q != [] && q[0].Node?
    ensures QueueSize(q[1..] + Offspring(q[0])) == QueueSize(q) - 1
  {
    PushedQueue(q[0].left);
    PushedQueue(q[0].right);
    QueueSizeJoin(Pushed(q[0].left), Pushed(q[0].right));
    QueueSizeJoin(q[1..], Offspring(q[0]));
  }

  /** The keys a queue-driven walk emits: pop the front, emit its key, push
      its children at the back, until the queue is empty. (An absent subtree
      at the front is dropped; the walks below never push one.) */
  ghost function BfsOrder(q: seq<Tree>): seq<int>
    decreases QueueSize(q), |q|
  {
    if q == [] then []
    else if q[0].Nil? then BfsOrder(q[1..])
    else
      OffspringSize(q);
      [q[0].data] + BfsOrder(q[1..] + Offspring(q[0]))
  }

  /** One iteration of the source's queue loop, seen from the output already emitted. */
  lemma BfsOrderStep(before: seq<int>, q: seq<Tree>)
    requires q != [] && AllNodes(q)
    ensures before + BfsOrder(q) == (before + [q[0].data]) + BfsOrder(Advance(q))
  {
    ConcatAssoc(q[1..], Pushed(q[0].left), Pushed(q[0].right));
    assert Advance(q) == q[1..] + Offspring(q[0]);
    ConcatAssoc(before, [q[0].data], BfsOrder(Advance(q)));
  }

  /** Level order: the queue-driven walk started from the root alone. */
  ghost function LevelOrder(t: Tree): seq<int>
  {
    BfsOrder(if t.Nil? then [] else [t])
  }

  /** The queue-driven walk emits every key reachable from the queue exactly once. */
  lemma {:induction false} BfsOrderBag(q: seq<Tree>)
    ensures multiset(BfsOrder(q)) == QueueBag(q)
    decreases QueueSize(q), |q|
  {
    if q != [] {
      var front, rest := q[0], q[1..];
      assert QueueBag(q) == multiset(Inorder(front)) + QueueBag(rest);
      if front.Node? {
        OffspringSize(q);
        BfsOrderBag(rest + Offspring(front));
        PushedBag(front.left);
        PushedBag(front.right);
        QueueBagJoin(Pushed(front.left), Pushed(front.right));
        QueueBagJoin(rest, Offspring(front));
        assert Inorder(front) == Inorder(front.left) + [front.data] + Inorder(front.right);
      } else {
        BfsOrderBag(rest);
      }
    }
  }

  /** Level order visits every node exactly once: it is a permutation of the
      inorder sequence and has countNodes elements; it starts at the root. */
  lemma LevelOrderPermutesInorder(t: Tree)
    ensures multiset(LevelOrder(t)) == multiset(Inorder(t))
    ensures |LevelOrder(t)| == CountNodes(t)
    ensures t.Node? ==> |LevelOrder(t)| > 0 && LevelOrder(t)[0] == t.data
  {
    var q := if t.Nil? then [] else [t];
    BfsOrderBag(q);
    if t.Node? {
      assert q[1..] == [];
    }
    assert |multiset(LevelOrder(t))| == |LevelOrder(t)|;
    assert |multiset(Inorder(t))| == |Inorder(t)|;
  }

  // ---------------------------------------------------------------------
  // Level order reads the tree one level at a time

  /** The keys at distance d below the root, left to right. */
  ghost function Level(t: Tree, d: nat): seq<int>
  {
    match t
    case Nil => []
    case Node(l, x, r, _) => if d == 0 then [x] else Level(l, d - 1) + Level(r, d - 1)
  }

  /** Levels d, d + 1, ..., n - 1 of the tree, one after the other. */
  ghost function LevelsFrom(t: Tree, d: nat, n: nat): seq<int>
    decreases n - d
  {
    if d >= n then [] else Level(t, d) + LevelsFrom(t, d + 1, n)
  }

  /** Level d of every subtree in a queue, front to back. */
  ghost function QueueLevel(q: seq<Tree>, d: nat): seq<int>
  {
    if q == [] then [] else Level(q[0], d) + QueueLevel(q[1..], d)
  }

  /** Levels d, d + 1, ..., n - 1 of a queue, one after the other. */
  ghost function QueueLevelsFrom(q: seq<Tree>, d: nat, n: nat): seq<int>
    decreases n - d
  {
    if d >= n then [] else QueueLevel(q, d) + QueueLevelsFrom(q, d + 1, n)
  }

  /** The next generation of a queue: the children of all its subtrees, in order. */
  ghost function Children(q: seq<Tree>): seq<Tree>
  {
    if q == [] then [] else Offspring(q[0]) + Children(q[1..])
  }

  /** No subtree of the queue is deeper than n. */
  ghost predicate DepthAtMost(q: seq<Tree>, n: nat)
  {
    q == [] || (Depth(q[0]) <= n && DepthAtMost(q[1..], n))
  }

  lemma {:induction false} DepthAtMostJoin(a: seq<Tree>, b: seq<Tree>, n: nat)
    requires DepthAtMost(a, n) && DepthAtMost(b, n)
    ensures DepthAtMost(a + b, n)
    decreases |a|
  {
    if a != [] {
      assert (a + b)[0] == a[0] && (a + b)[1..] == a[1..] + b;
      DepthAtMostJoin(a[1..], b, n);
    } else {
      assert a + b == b;
    }
  }

  /** The children of a queue of depth at most n + 1 have depth at most n. */
  lemma {:induction false} ChildrenDepth(q: seq<Tree>, n: nat)
    requires DepthAtMost(q, n + 1)
    ensures DepthAtMost(Children(q), n)
  {
    if q != [] {
      var front := q[0];
      if front.Node? {
        assert [front.left][1..] == [] && [front.right][1..] == [];
        DepthAtMostJoin(Pushed(front.left), Pushed(front.right), n);
      }
      ChildrenDepth(q[1..], n);
      DepthAtMostJoin(Offspring(front), Children(q[1..]), n);
    }
  }

  lemma {:induction false} QueueLevelJoin(a: seq<Tree>, b: seq<Tree>, d: nat)
    ensures QueueLevel(a + b, d) == QueueLevel(a, d) + QueueLevel(b, d)
    decreases |a|
  {
    if a != [] {
      assert (a + b)[0] == a[0] && (a + b)[1..] == a[1..] + b;
      QueueLevelJoin(a[1..], b, d);
      ConcatAssoc(Level(a[0], d), QueueLevel(a[1..], d), QueueLevel(b, d));
    } else {
      assert a + b == b;
    }
  }

  /** Level d of the pushed children is level d + 1 of their parent. */
  lemma OffspringLevel(t: Tree, d: nat)
    ensures QueueLevel(Offspring(t), d) == Level(t, d + 1)
  {
    if t.Node? {
      assert QueueLevel(Pushed(t.left), d) == Level(t.left, d) by {
        if t.left.Node? { assert [t.left][1..] == []; }
      }
      assert QueueLevel(Pushed(t.right), d) == Level(t.right, d) by {
        if t.right.Node? { assert [t.right][1..] == []; }
      }
      QueueLevelJoin(Pushed(t.left), Pushed(t.right), d);
    }
  }

  /** Level d of the next generation is level d + 1 of the queue. */
  lemma {:induction false} ChildrenLevel(q: seq<Tree>, d: nat)
    ensures QueueLevel(Children(q), d) == QueueLevel(q, d + 1)
  {
    if q != [] {
      OffspringLevel(q[0], d);
      QueueLevelJoin(Offspring(q[0]), Children(q[1..]), d);
      ChildrenLevel(q[1..], d);
    }
  }

  lemma {:induction false} ChildrenLevels(q: seq<Tree>, d: nat, n: nat)
    ensures QueueLevelsFrom(Children(q), d, n) == QueueLevelsFrom(q, d + 1, n + 1)
    decreases n - d
  {
    if d < n {
      ChildrenLevel(q, d);
      ChildrenLevels(q, d + 1, n);
    }
  }

  lemma {:induction false} SingleQueueLevels(t: Tree, d: nat, n: nat)
    ensures QueueLevelsFrom([t], d, n) == LevelsFrom(t, d, n)
    decreases n - d
  {
    if d < n {
      assert [t][1..] == [];
      assert QueueLevel([t], d) == Level(t, d) + [];
      SingleQueueLevels(t, d + 1, n);
    }
  }

  /** Walking a queue a + b emits the front part a's own keys first, after
      which the queue holds b followed by the children of a. */
  lemma {:induction false} BfsOrderGeneration(a: seq<Tree>, b: seq<Tree>)
    ensures BfsOrder(a + b) == QueueLevel(a, 0) + BfsOrder(b + Children(a))
    decreases |a|
  {
    if a == [] {
      assert a + b == b;
      assert b + Children(a) == b;
    } else {
      var front, rest, own := a[0], a[1..], Offspring(a[0]);
      assert (a + b)[0] == front && (a + b)[1..] == rest + b;
      assert Children(a) == own + Children(rest);
      if front.Nil? {
        assert Children(a) == Children(rest) && QueueLevel(a, 0) == QueueLevel(rest, 0);
        BfsOrderGeneration(rest, b);
      } else {
        ConcatAssoc(rest, b, own);
        BfsOrderGeneration(rest, b + own);
        ConcatAssoc(b, own, Children(rest));
        ConcatAssoc([front.data], QueueLevel(rest, 0), BfsOrder(b + Children(a)));
      }
    }
  }

  /** A queue in which no subtree is deeper than n is walked level by level. */
  lemma {:induction false} BfsOrderByLevels(q: seq<Tree>, n: nat)
    requires DepthAtMost(q, n)
    ensures BfsOrder(q) == QueueLevelsFrom(q, 0, n)
    decreases n, |q|
  {
    if n == 0 {
      if q != [] {
        BfsOrderByLevels(q[1..], 0);
      }
    } else {
      BfsOrderGeneration(q, []);
      assert q + [] == q && [] + Children(q) == Children(q);
      ChildrenDepth(q, n - 1);
      BfsOrderByLevels(Children(q), n - 1);
      ChildrenLevels(q, 0, n - 1);
    }
  }

  /** Level order is level 0, then level 1, ..., down to the deepest level:
      keys come out in order of depth, and left to right within a depth. */
  lemma LevelOrderByLevels(t: Tree)
    ensures LevelOrder(t) == LevelsFrom(t, 0, Depth(t))
  {
    if t.Node? {
      assert [t][1..] == [];
      BfsOrderByLevels([t], Depth(t));
      SingleQueueLevels(t, 0, Depth(t));
    }
  }

  // ---------------------------------------------------------------------
  // Searches

  /** The source's depthFirstSearch: an exhaustive search that ignores the
      ordering, so it finds exactly the keys present. */
  function DepthFirstSearch(t: Tree, key: int): (found: bool)
    ensures found <==> key in Keys(t)
  {
    if t.Nil? then false
    else if t.data == key then true
    else
      var leftSearch := DepthFirstSearch(t.left, key);
      var rightSearch := DepthFirstSearch(t.right, key);
      leftSearch || rightSearch
  }

  /** The source's breadthFirstSearch: a queue-driven exhaustive search that
      stops at the first node holding `key`. */
  method BreadthFirstSearch(root: Tree, key: int) returns (found: bool)
    ensures found <==> key in Keys(root)
  {
    if root.Nil? {
      return false;
    }
    var q := [root];
    while q != []
      invariant AllNodes(q)
      invariant key in Keys(root) <==> key in QueueKeys(q)
      decreases QueueSize(q)
    {
      var current := q[0];
      ghost var next := Advance(q);
      ghost var rest := q[1..];
      q := q[1..];
      if current.data == key {
        return true;
      }
      if current.left.Node? {
        q := q + [current.left];
      }
      assert q == rest + Pushed(current.left);
      if current.right.Node? {
        q := q + [current.right];
      }
      assert q == next;
    }
    return false;
  }

  /** The source's findMin: descends left from the root. The node reached has
      no left child and holds a key of the tree; in a BST that key is the least. */
  method FindMin(root: Tree) returns (m: Tree)
    ensures m.Nil? <==> root.Nil?
    ensures m.Node? ==> m.left.Nil? && m.data in Keys(root)
    ensures m.Node? && IsBST(root) ==> forall k :: k in Keys(root) ==> m.data <= k
  {
    if root.Nil? {
      return Nil;
    }
    m := root;
    while m.left.Node?
      invariant m.Node? && Keys(m) <= Keys(root)
      invariant IsBST(root) ==> IsBST(m) && forall k :: k in Keys(root) ==> k in Keys(m) || m.data < k
      decreases m
    {
      m := m.left;
    }
  }

  /** The source's findMax: descends right from the root. The node reached has
      no right child and holds a key of the tree; in a BST that key is the greatest. */
  method FindMax(root: Tree) returns (m: Tree)
    ensures m.Nil? <==> root.Nil?
    ensures m.Node? ==> m.right.Nil? && m.data in Keys(root)
    ensures m.Node? && IsBST(root) ==> forall k :: k in Keys(root) ==> k <= m.data
  {
    if root.Nil? {
      return Nil;
    }
    m := root;
    while m.right.Node?
      invariant m.Node? && Keys(m) <= Keys(root)
      invariant IsBST(root) ==> IsBST(m) && forall k :: k in Keys(root) ==> k in Keys(m) || k < m.data
      decreases m
    {
      m := m.right;
    }
  }

  /** The source's findSuccessor: walks the search path for `key`, remembering
      the last node whose key exceeded it. Whatever it returns holds a key of
      the tree greater than `key`; in a BST it is the least such key, and
      nothing is returned exactly when no key exceeds `key`. */
  method FindSuccessor(root: Tree, key: int) returns (s: Tree)
    ensures s.Node? ==> s.data in Keys(root) && s.data > key
    ensures IsBST(root) ==> (s.Nil? <==> forall k :: k in Keys(root) ==> k <= key)
    ensures IsBST(root) && s.Node? ==> forall k :: k in Keys(root) && k > key ==> s.data <= k
  {
    if root.Nil? {
      return Nil;
    }
    s := Nil;
    var current := root;
    while current.Node?
      invariant Keys(current) <= Keys(root)
      invariant s.Node? ==> s.data in Keys(root) && s.data > key
      invariant IsBST(root) ==> IsBST(current)
      invariant IsBST(root) ==> forall k :: k in Keys(root) && k > key ==> k in Keys(current) || (s.Node? && s.data <= k)
      invariant IsBST(root) && s.Node? ==> forall k :: k in Keys(current) ==> k < s.data
      decreases current
    {
      if current.data > key {
        s := current;
        current := current.left;
      } else {
        current := current.right;
      }
    }
  }

  /** The source's findPredecessor, the mirror image: whatever it returns holds
      a key of the tree less than `key`; in a BST it is the greatest such key,
      and nothing is returned exactly when no key is below `key`. */
  method FindPredecessor(root: Tree, key: int) returns (p: Tree)
    ensures p.Node? ==> p.data in Keys(root) && p.data < key
    ensures IsBST(root) ==> (p.Nil? <==> forall k :: k in Keys(root) ==> key <= k)
    ensures IsBST(root) && p.Node? ==> forall k :: k in Keys(root) && k < key ==> k <= p.data
  {
    if root.Nil? {
      return Nil;
    }
    p := Nil;
    var current := root;
    while current.Node?
      invariant Keys(current) <= Keys(root)
      invariant p.Node? ==> p.data in Keys(root) && p.data < key
      invariant IsBST(root) ==> IsBST(current)
      invariant IsBST(root) ==> forall k :: k in Keys(root) && k < key ==> k in Keys(current) || (p.Node? && k <= p.data)
      invariant IsBST(root) && p.Node? ==> forall k :: k in Keys(current) ==> p.data < k
      decreases current
    {
      if current.data < key {
        p := current;
        current := current.right;
      } else {
        current := current.left;
      }
    }
  }

  /** The keys the source's rangeSearch appends: the left subtree only when
      the node's key exceeds k1, the node when k1 <= key <= k2, the right
      subtree only when the node's key is below k2. */
  ghost function RangeOrder(t: Tree, k1: int, k2: int): (s: seq<int>)
    ensures forall x :: x in s ==> x in Keys(t) && k1 <= x <= k2
  {
    match t
    case Nil => []
    case Node(l, d, r, _) =>
      (if d > k1 then RangeOrder(l, k1, k2) else [])
      + (if k1 <= d <= k2 then [d] else [])
      + (if d < k2 then RangeOrder(r, k1, k2) else [])
  }

  /** On a BST the pruned walk misses nothing: it yields exactly the keys in [k1, k2]. */
  lemma {:induction false} RangeOrderMembers(t: Tree, k1: int, k2: int)
    requires IsBST(t)
    ensures forall x :: x in RangeOrder(t, k1, k2) <==> x in Keys(t) && k1 <= x <= k2
  {
    match t
    case Nil =>
    case Node(l, d, r, _) =>
      RangeOrderMembers(l, k1, k2);
      RangeOrderMembers(r, k1, k2);
      forall x | x in Keys(t) && k1 <= x <= k2
        ensures x in RangeOrder(t, k1, k2)
      {
        if x < d {
          assert x !in Keys(r) && x in Keys(l);
          assert x in RangeOrder(l, k1, k2) && d > k1;
        } else if x > d {
          assert x !in Keys(l) && x in Keys(r);
          assert x in RangeOrder(r, k1, k2) && d < k2;
        }
      }
  }

  /** On a BST the pruned walk yields exactly the keys in [k1, k2], in
      strictly ascending order. */
  lemma {:induction false} RangeOrderOfBst(t: Tree, k1: int, k2: int)
    requires IsBST(t)
    ensures StrictlyAscending(RangeOrder(t, k1, k2))
    ensures forall x :: x in RangeOrder(t, k1, k2) <==> x in Keys(t) && k1 <= x <= k2
  {
    RangeOrderMembers(t, k1, k2);
    match t
    case Nil =>
    case Node(l, d, r, _) =>
      RangeOrderOfBst(l, k1, k2);
      RangeOrderOfBst(r, k1, k2);
      var a := if d > k1 then RangeOrder(l, k1, k2) else [];
      var b := if d < k2 then RangeOrder(r, k1, k2) else [];
      assert forall k :: k in a ==> k < d;
      assert forall k :: k in b ==> d < k;
      if k1 <= d <= k2 {
        assert RangeOrder(t, k1, k2) == a + [d] + b;
        AscendingJoin(a, d, b);
      } else {
        assert RangeOrder(t, k1, k2) == a + b;
        AscendingGap(a, d, b);
      }
  }

  lemma AscendingGap(a: seq<int>, d: int, b: seq<int>)
    requires StrictlyAscending(a) && StrictlyAscending(b)
    requires forall k :: k in a ==> k < d
    requires forall k :: k in b ==> d < k
    ensures StrictlyAscending(a + b)
  {
    AscendingJoin(a, d, b);
    var s := a + [d] + b;
    var u := a + b;
    forall i, j | 0 <= i < j < |u| ensures u[i] < u[j] {
      var i' := if i < |a| then i else i + 1;
      var j' := if j < |a| then j else j + 1;
      assert u[i] == s[i'] && u[j] == s[j'];
    }
  }
}
