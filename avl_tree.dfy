/** The AVLTree object: the root pointer, the insertion counter and the
    result vector every traversal appends to, with the public operations
    that forward to the node-level functions at the root. */
module AVL {
  import opened Nodes
  import opened Updates
  import opened Queries

  class AVLTree {
    /** The root of the node structure (`Nil` for an empty tree). */
    var root: Tree
    /** Incremented each time insert creates a node; nothing else changes it. */
    var size: nat
    /** The output vector: traversals and range search append to it and never clear it. */
    var result: seq<int>
    /** The nodes that clear dropped without lowering the counter. */
    ghost var dropped: nat

    /** Cached heights are exact, every node is within one level of balance, and
        the counter is the number of nodes present plus those dropped by clear. */
    ghost predicate Valid()
      reads this
    {
      && HeightsExact(root) && Nodes.IsBalanced(root)
      && size == CountNodes(root) + dropped
    }

    constructor ()
      ensures Valid()
      ensures root == Nil && size == 0 && result == [] && dropped == 0
    {
      root := Nil;
      size := 0;
      result := [];
      dropped := 0;
    }

    // -------------------------------------------------------------------
    // Updates

    /** Inserts `data` unless it is already on its search path; the counter
        goes up exactly when a node is created. */
    method Insert(data: int)
      requires Valid()
      modifies this`root, this`size
      ensures Valid()
      ensures root == Updates.Insert(old(root), data).tree
      ensures size == old(size) + (if Updates.Insert(old(root), data).created then 1 else 0)
      ensures Keys(root) == old(Keys(root)) + {data}
      ensures Nodes.Height(old(root)) <= Nodes.Height(root) <= Nodes.Height(old(root)) + 1
      ensures CountNodes(root) - old(CountNodes(root)) == size - old(size)
      ensures old(IsBST(root)) ==> IsBST(root) && (size == old(size) + 1 <==> data !in old(Keys(root)))
    {
      var r := Updates.Insert(root, data);
      InsertKeys(root, data);
      InsertCount(root, data);
      if IsBST(root) {
        InsertKeepsOrder(root, data);
        InsertCreatesIffAbsent(root, data);
      }
      root := r.tree;
      if r.created {
        size := size + 1;
      }
    }

    /** The source's remove. Its deleteNode has no branch for the key being
        found, so on a valid tree nothing is unlinked and the tree is left as it was. */
    method Remove(data: int)
      requires Valid()
      modifies this`root
      ensures Valid()
      ensures root == old(root)
    {
      if root.Node? {
        root := DeleteNode(root, data);
      }
    }

    /** Overwrites every occurrence of `oldKey` with `newKey`, leaving shape
        and heights alone (and so possibly breaking BST order). */
    method UpdateKey(oldKey: int, newKey: int)
      modifies this`root
      ensures SameShape(old(root), root)
      ensures Inorder(root) == Replace(old(Inorder(root)), oldKey, newKey)
      ensures Keys(root) == if oldKey in old(Keys(root)) then old(Keys(root)) - {oldKey} + {newKey} else old(Keys(root))
      ensures CountNodes(root) == old(CountNodes(root))
      ensures Valid() == old(Valid())
    {
      if root.Node? {
        UpdateKeyKeys(root, oldKey, newKey);
        root := Updates.UpdateKey(root, oldKey, newKey);
      }
    }

    /** The source's clear: drops every node and resets the root. The counter
        is not reset, so it now counts only nodes that are gone. */
    method Clear()
      modifies this`root, this`dropped
      ensures root == Nil && dropped == size
      ensures old(Valid()) ==> dropped == old(dropped) + old(CountNodes(root))
      ensures Valid()
    {
      root := Nil;
      dropped := size;
    }

    // -------------------------------------------------------------------
    // Traversals, each appending to `result`

    method InorderVisit(t: Tree)
      modifies this`result
      ensures result == old(result) + Inorder(t)
      decreases t
    {
      if t.Node? {
        InorderVisit(t.left);
        result := result + [t.data];
        InorderVisit(t.right);
      }
    }

    /** Appends the keys in inorder; in a BST they come out strictly ascending. */
    method InorderTraversal()
      modifies this`result
      ensures result == old(result) + Inorder(root)
      ensures IsBST(root) ==> StrictlyAscending(result[|old(result)|..])
    {
      InorderVisit(root);
      BstIffInorderAscending(root);
      assert result[|old(result)|..] == Inorder(root);
    }

    method PreorderVisit(t: Tree)
      modifies this`result
      ensures result == old(result) + Preorder(t)
      decreases t
    {
      if t.Node? {
        ghost var start := result;
        result := result + [t.data];
        PreorderVisit(t.left);
        PreorderVisit(t.right);
        assert result == start + ([t.data] + Preorder(t.left) + Preorder(t.right));
      }
    }

    /** Appends the keys in preorder: a rearrangement of the inorder keys,
        the root's key first. */
    method PreorderTraversal()
      modifies this`result
      ensures result == old(result) + Preorder(root)
      ensures multiset(result[|old(result)|..]) == multiset(Inorder(root))
      ensures root.Node? ==> |result| > |old(result)| && result[|old(result)|] == root.data
    {
      PreorderVisit(root);
      assert result[|old(result)|..] == Preorder(root);
      PreorderPermutesInorder(root);
    }

    method PostorderVisit(t: Tree)
      modifies this`result
      ensures result == old(result) + Postorder(t)
      decreases t
    {
      if t.Node? {
        ghost var start := result;
        PostorderVisit(t.left);
        PostorderVisit(t.right);
        result := result + [t.data];
        assert result == start + (Postorder(t.left) + Postorder(t.right) + [t.data]);
      }
    }

    /** Appends the keys in postorder: a rearrangement of the inorder keys,
        the root's key last. */
    method PostorderTraversal()
      modifies this`result
      ensures result == old(result) + Postorder(root)
      ensures multiset(result[|old(result)|..]) == multiset(Inorder(root))
      ensures root.Node? ==> |result| > |old(result)| && result[|result| - 1] == root.data
    {
      PostorderVisit(root);
      assert result[|old(result)|..] == Postorder(root);
      PostorderPermutesInorder(root);
    }

    /** The source's queue-driven level order of the subtree at `t`: pop the
        front node, append its key, push its present children. */
    method LevelOrderVisit(t: Tree)
      modifies this`result
      ensures result == old(result) + LevelOrder(t)
    {
      if t.Nil? {
        assert LevelOrder(t) == [];
        return;
      }
      var q := [t];
      ghost var goal := old(result) + LevelOrder(t);
      while q != []
        invariant AllNodes(q)
        invariant result + BfsOrder(q) == goal
        decreases QueueSize(q)
      {
        var temp := q[0];
        ghost var q0 := q;
        BfsOrderStep(result, q0);
        result := result + [temp.data];
        q := q[1..];
        if temp.left.Node? {
          q := q + [temp.left];
        }
        assert q == q0[1..] + Pushed(temp.left);
        if temp.right.Node? {
          q := q + [temp.right];
        }
        assert q == Advance(q0);
      }
    }

    /** Level order from the root: the keys level by level, top level first
        and left to right within a level; so every node's key exactly once (a
        rearrangement of the inorder keys), the root's key first. */
    method LevelOrderTraversal()
      modifies this`result
      ensures result == old(result) + LevelOrder(root)
      ensures result[|old(result)|..] == LevelsFrom(root, 0, Depth(root))
      ensures multiset(result[|old(result)|..]) == multiset(Inorder(root))
      ensures |result| == |old(result)| + CountNodes(root)
      ensures root.Node? ==> |result| > |old(result)| && result[|old(result)|] == root.data
    {
      LevelOrderPermutesInorder(root);
      LevelOrderByLevels(root);
      LevelOrderVisit(root);
      assert result[|old(result)|..] == LevelOrder(root);
    }

    method RangeSearchVisit(t: Tree, k1: int, k2: int)
      modifies this`result
      ensures result == old(result) + RangeOrder(t, k1, k2)
      decreases t
    {
      if t.Node? {
        ghost var start := result;
        ghost var below := if t.data > k1 then RangeOrder(t.left, k1, k2) else [];
        ghost var here := if k1 <= t.data <= k2 then [t.data] else [];
        ghost var above := if t.data < k2 then RangeOrder(t.right, k1, k2) else [];
        assert RangeOrder(t, k1, k2) == below + here + above;
        if t.data > k1 {
          RangeSearchVisit(t.left, k1, k2);
        }
        ghost var afterBelow := result;
        assert afterBelow == start + below;
        if t.data >= k1 && t.data <= k2 {
          result := result + [t.data];
        }
        ghost var afterHere := result;
        assert afterHere == afterBelow + here;
        if t.data < k2 {
          RangeSearchVisit(t.right, k1, k2);
        }
        assert result == afterHere + above;
        ConcatAssoc(start, below, here);
        ConcatAssoc(start, below + here, above);
      }
    }

    /** Appends the keys the pruned walk meets in [k1, k2]; in a BST these are
        exactly the tree's keys in that range, strictly ascending. */
    method RangeSearch(k1: int, k2: int)
      modifies this`result
      ensures result == old(result) + RangeOrder(root, k1, k2)
      ensures IsBST(root) ==> StrictlyAscending(result[|old(result)|..])
      ensures IsBST(root) ==> forall x :: x in result[|old(result)|..] <==> x in Keys(root) && k1 <= x <= k2
    {
      RangeSearchVisit(root, k1, k2);
      assert result[|old(result)|..] == RangeOrder(root, k1, k2);
      if IsBST(root) {
        RangeOrderOfBst(root, k1, k2);
      }
    }

    // -------------------------------------------------------------------
    // Queries

    /** The counter as it stands: the number of nodes present plus those
        dropped by clear, so never below the number of nodes present. */
    method GetSize() returns (s: nat)
      ensures s == size
      ensures Valid() ==> s == CountNodes(root) + dropped && s >= CountNodes(root)
    {
      s := size;
    }

    /** The root's key, which a preorder listing starts with and a postorder
        listing ends with. The source dereferences the root unchecked. */
    method GetRoot() returns (d: int)
      requires root.Node?
      ensures d in Keys(root)
      ensures d == Preorder(root)[0] && d == Postorder(root)[|Postorder(root)| - 1]
    {
      d := root.data;
      PreorderPermutesInorder(root);
      PostorderPermutesInorder(root);
    }

    /** The source's count: the number of nodes; in a BST also the number of distinct keys. */
    method Count() returns (n: nat)
      ensures n == |Inorder(root)|
      ensures IsBST(root) ==> n == |Keys(root)|
    {
      n := CountNodes(root);
      if IsBST(root) {
        CountNodesOfBst(root);
      }
    }

    /** The cached height of the root, which on a valid tree is its true height. */
    method Height() returns (h: int)
      ensures h == Nodes.Height(root)
      ensures HeightsExact(root) ==> h == Depth(root)
    {
      h := Nodes.Height(root);
      if HeightsExact(root) {
        CachedHeightIsDepth(root);
      }
    }

    /** The source's isBalanced at the root: true exactly when no node is off
        balance, so always true on a valid tree. */
    method IsBalanced() returns (b: bool)
      ensures b <==> forall s :: s in Subtrees(root) ==> -1 <= BalanceFactor(s) <= 1
      ensures Valid() ==> b
    {
      b := Nodes.IsBalanced(root);
      IsBalancedIff(root);
    }

    /** The least key of a BST, or -1 for an empty tree. */
    method Minimum() returns (v: int)
      ensures root.Nil? ==> v == -1
      ensures root.Node? ==> v in Keys(root)
      ensures root.Node? && IsBST(root) ==> forall k :: k in Keys(root) ==> v <= k
    {
      var m := FindMin(root);
      v := if m.Node? then m.data else -1;
    }

    /** The greatest key of a BST, or -1 for an empty tree. */
    method Maximum() returns (v: int)
      ensures root.Nil? ==> v == -1
      ensures root.Node? ==> v in Keys(root)
      ensures root.Node? && IsBST(root) ==> forall k :: k in Keys(root) ==> k <= v
    {
      var m := FindMax(root);
      v := if m.Node? then m.data else -1;
    }

    /** The least key greater than `key`, or -1 when a BST has none. The key
        itself need not be in the tree. */
    method Successor(key: int) returns (v: int)
      ensures v == -1 || (v in Keys(root) && v > key)
      ensures (forall k :: k in Keys(root) ==> k <= key) ==> v == -1
      ensures IsBST(root) && (exists k :: k in Keys(root) && k > key) ==>
        v in Keys(root) && v > key && forall k :: k in Keys(root) && k > key ==> v <= k
    {
      var s := FindSuccessor(root, key);
      v := if s.Node? then s.data else -1;
    }

    /** The greatest key less than `key`, or -1 when a BST has none. */
    method Predecessor(key: int) returns (v: int)
      ensures v == -1 || (v in Keys(root) && v < key)
      ensures (forall k :: k in Keys(root) ==> key <= k) ==> v == -1
      ensures IsBST(root) && (exists k :: k in Keys(root) && k < key) ==>
        v in Keys(root) && v < key && forall k :: k in Keys(root) && k < key ==> k <= v
    {
      var p := FindPredecessor(root, key);
      v := if p.Node? then p.data else -1;
    }

    /** Whether `key` is stored anywhere, by the recursive search. */
    method DepthFirstSearch(key: int) returns (found: bool)
      ensures found <==> key in Keys(root)
    {
      found := Queries.DepthFirstSearch(root, key);
    }

    /** Whether `key` is stored anywhere, by the queue-driven search (false on an empty tree). */
    method BreadthFirstSearch(key: int) returns (found: bool)
      ensures found <==> key in Keys(root)
    {
      if root.Node? {
        found := Queries.BreadthFirstSearch(root, key);
      } else {
        found := false;
      }
    }
  }
}
