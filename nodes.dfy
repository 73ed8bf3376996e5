/** The node type of the AVL tree, the cached-height accessors and the
    structural properties (BST order, exact heights, AVL balance) that the
    rest of the model states its results in terms of. */
module Nodes {

  /** One node: its key, its two children and the cached height of the
      subtree it roots (a leaf has height 1). `Nil` is the absent child. */
  datatype Tree = Nil | Node(left: Tree, data: int, right: Tree, height: int)

  function Max(a: int, b: int): int
  {
    if a >= b then a else b
  }

  /** The cached height of a subtree; an absent child counts as 0. */
  function Height(t: Tree): int
  {
    if t.Nil? then 0 else t.height
  }

  /** Height of the left child minus height of the right child (0 for an absent node). */
  function BalanceFactor(t: Tree): int
  {
    if t.Nil? then 0 else Height(t.left) - Height(t.right)
  }

  /** The true height of a subtree, computed from its shape alone. */
  ghost function Depth(t: Tree): nat
  {
    match t
    case Nil => 0
    case Node(l, _, r, _) => 1 + Max(Depth(l), Depth(r))
  }

  /** The node's own cached height agrees with its children's cached heights. */
  predicate LocallyExact(t: Tree)
  {
    t.Node? ==> t.height == 1 + Max(Height(t.left), Height(t.right))
  }

  /** Every node's cached height is one more than the larger of its children's. */
  predicate HeightsExact(t: Tree)
  {
    match t
    case Nil => true
    case Node(l, _, r, _) => LocallyExact(t) && HeightsExact(l) && HeightsExact(r)
  }

  /** With exact cached heights, the cached height is the true height. */
  lemma {:induction false} CachedHeightIsDepth(t: Tree)
    requires HeightsExact(t)
    ensures Height(t) == Depth(t)
  {
    match t
    case Nil =>
    case Node(l, _, r, _) =>
      CachedHeightIsDepth(l);
      CachedHeightIsDepth(r);
  }

  /** With exact cached heights, a node's balance factor is the difference of
      its children's true heights. */
  lemma BalanceFactorOfExact(t: Tree)
    requires HeightsExact(t) && t.Node?
    ensures BalanceFactor(t) == Depth(t.left) - Depth(t.right)
  {
    CachedHeightIsDepth(t.left);
    CachedHeightIsDepth(t.right);
  }

  /** Cached heights of an exact tree and of its children are never negative. */
  lemma ExactHeightsNonnegative(t: Tree)
    requires HeightsExact(t)
    ensures Height(t) >= 0
    ensures t.Node? ==> Height(t) >= 1 && Height(t.left) >= 0 && Height(t.right) >= 0
  {
    CachedHeightIsDepth(t);
    if t.Node? {
      CachedHeightIsDepth(t.left);
      CachedHeightIsDepth(t.right);
    }
  }

  /** The source's isBalanced: every node's balance factor lies in [-1, 1]. */
  predicate IsBalanced(t: Tree)
  {
    match t
    case Nil => true
    case Node(l, _, r, _) =>
      var balance := BalanceFactor(t);
      balance >= -1 && balance <= 1 && IsBalanced(l) && IsBalanced(r)
  }

  /** All non-empty subtrees of t, t included. */
  ghost function Subtrees(t: Tree): set<Tree>
  {
    match t
    case Nil => {}
    case Node(l, _, r, _) => {t} + Subtrees(l) + Subtrees(r)
  }

  /** isBalanced holds exactly when no node anywhere in the tree is off balance. */
  lemma {:induction false} IsBalancedIff(t: Tree)
    ensures IsBalanced(t) <==> forall s :: s in Subtrees(t) ==> -1 <= BalanceFactor(s) <= 1
  {
    match t
    case Nil =>
    case Node(l, _, r, _) =>
      IsBalancedIff(l);
      IsBalancedIff(r);
  }

  /** The set of keys stored in a subtree. */
  ghost function Keys(t: Tree): set<int>
  {
    match t
    case Nil => {}
    case Node(l, d, r, _) => Keys(l) + {d} + Keys(r)
  }

  /** The keys in left-subtree, node, right-subtree order. */
  ghost function Inorder(t: Tree): (s: seq<int>)
    ensures forall k :: k in s <==> k in Keys(t)
  {
    match t
    case Nil => []
    case Node(l, d, r, _) => Inorder(l) + [d] + Inorder(r)
  }

  /** The source's countNodes: the number of nodes in the subtree. */
  function CountNodes(t: Tree): (n: nat)
    ensures n == |Inorder(t)|
  {
    match t
    case Nil => 0
    case Node(l, _, r, _) => 1 + CountNodes(l) + CountNodes(r)
  }

  /** BST order: every key in a left subtree is smaller than the node's key,
      every key in a right subtree larger. */
  ghost predicate IsBST(t: Tree)
  {
    match t
    case Nil => true
    case Node(l, d, r, _) =>
      && IsBST(l) && IsBST(r)
      && (forall k :: k in Keys(l) ==> k < d)
      && (forall k :: k in Keys(r) ==> d < k)
  }

  ghost predicate StrictlyAscending(s: seq<int>)
  {
    forall i, j :: 0 <= i < j < |s| ==> s[i] < s[j]
  }

  lemma ConcatAssoc<T>(a: seq<T>, b: seq<T>, c: seq<T>)
    ensures a + b + c == a + (b + c)
  {
  }

  lemma AscendingJoin(a: seq<int>, d: int, b: seq<int>)
    requires StrictlyAscending(a) && StrictlyAscending(b)
    requires forall k :: k in a ==> k < d
    requires forall k :: k in b ==> d < k
    ensures StrictlyAscending(a + [d] + b)
  {
    var s := a + [d] + b;
    forall i, j | 0 <= i < j < |s| ensures s[i] < s[j] {
      if j < |a| {
        assert s[i] == a[i] && s[j] == a[j];
      } else if j == |a| {
        assert s[i] == a[i] && a[i] in a;
      } else if i < |a| {
        assert s[i] == a[i] && a[i] in a;
        assert s[j] == b[j - |a| - 1] && b[j - |a| - 1] in b;
      } else if i == |a| {
        assert s[j] == b[j - |a| - 1] && b[j - |a| - 1] in b;
      } else {
        assert s[i] == b[i - |a| - 1] && s[j] == b[j - |a| - 1];
      }
    }
  }

  lemma AscendingSplit(a: seq<int>, d: int, b: seq<int>)
    requires StrictlyAscending(a + [d] + b)
    ensures StrictlyAscending(a) && StrictlyAscending(b)
    ensures forall k :: k in a ==> k < d
    ensures forall k :: k in b ==> d < k
  {
    var s := a + [d] + b;
    assert forall i :: 0 <= i < |a| ==> s[i] == a[i];
    assert forall i :: 0 <= i < |b| ==> s[|a| + 1 + i] == b[i];
    assert s[|a|] == d;
  }

  lemma EmptyOrMember(b: seq<int>)
    ensures b == [] || exists x :: x in b
  {
    if b != [] {
      var x := b[0];
      assert x in b;
    }
  }

  /** Two strictly ascending sequences with the same elements and the same
      first element also agree on the elements of their tails. */
  lemma TailsSameMembers(a: seq<int>, b: seq<int>)
    requires StrictlyAscending(a) && StrictlyAscending(b)
    requires forall x :: x in a <==> x in b
    requires a != [] && b != [] && a[0] == b[0]
    ensures forall x :: x in a[1..] <==> x in b[1..]
  {
    forall x
      ensures x in a[1..] <==> x in b[1..]
    {
      if x in a[1..] {
        var i :| 0 <= i < |a[1..]| && a[1..][i] == x;
        assert a[i + 1] == x && x != a[0];
        assert x in b;
        var j :| 0 <= j < |b| && b[j] == x;
        assert j != 0;
        assert b[1..][j - 1] == x;
      }
      if x in b[1..] {
        var j :| 0 <= j < |b[1..]| && b[1..][j] == x;
        assert b[j + 1] == x && x != b[0];
        assert x in a;
        var i :| 0 <= i < |a| && a[i] == x;
        assert i != 0;
        assert a[1..][i - 1] == x;
      }
    }
  }

  /** A strictly ascending sequence is determined by its elements. */
  lemma {:induction false} AscendingUnique(a: seq<int>, b: seq<int>)
    requires StrictlyAscending(a) && StrictlyAscending(b)
    requires forall x :: x in a <==> x in b
    ensures a == b
    decreases |a|
  {
    if a == [] {
      EmptyOrMember(b);
    } else {
      assert a[0] in a && b != [];
      assert b[0] in b;
      assert a[0] == b[0];
      TailsSameMembers(a, b);
      AscendingUnique(a[1..], b[1..]);
      assert a == [a[0]] + a[1..] && b == [b[0]] + b[1..];
    }
  }

  /** A tree is in BST order exactly when its inorder key sequence is strictly ascending. */
  lemma {:induction false} BstIffInorderAscending(t: Tree)
    ensures IsBST(t) <==> StrictlyAscending(Inorder(t))
  {
    match t
    case Nil =>
    case Node(l, d, r, _) =>
      BstIffInorderAscending(l);
      BstIffInorderAscending(r);
      if IsBST(t) {
        AscendingJoin(Inorder(l), d, Inorder(r));
      }
      if StrictlyAscending(Inorder(t)) {
        AscendingSplit(Inorder(l), d, Inorder(r));
      }
  }

  lemma DisjointUnionSize(a: set<int>, b: set<int>)
    requires a * b == {}
    ensures |a + b| == |a| + |b|
  {
  }

  /** In BST order no key repeats, so the node count is the number of distinct keys. */
  lemma {:induction false} CountNodesOfBst(t: Tree)
    requires IsBST(t)
    ensures CountNodes(t) == |Keys(t)|
  {
    match t
    case Nil =>
    case Node(l, d, r, _) =>
      CountNodesOfBst(l);
      CountNodesOfBst(r);
      var lk, rk := Keys(l), Keys(r);
      assert d !in lk;
      DisjointUnionSize(lk, {d});
      assert (lk + {d}) * rk == {} by {
        forall k | k in rk ensures k !in lk + {d} {
          assert d < k;
        }
      }
      DisjointUnionSize(lk + {d}, rk);
  }
}
