/** The worked example of building a small tree by inserts and querying it. */
module Scenarios {
  import opened Nodes
  import opened Updates
  import opened Queries

  /** The first four inserts (the median, the two quartiles, the least key)
      each attach a leaf without any rotation. */
  lemma SevenKeysFirstFour(k1: int, k2: int, k3: int, k4: int, k5: int, k6: int, k7: int)
    requires k1 < k2 < k3 < k4 < k5 < k6 < k7
    ensures var t1 := Node(Nil, k4, Nil, 1);
      var t2 := Node(Node(Nil, k2, Nil, 1), k4, Nil, 2);
      var t3 := Node(Node(Nil, k2, Nil, 1), k4, Node(Nil, k6, Nil, 1), 2);
      var t4 := Node(Node(Node(Nil, k1, Nil, 1), k2, Nil, 2), k4, Node(Nil, k6, Nil, 1), 3);
      && Insert(Nil, k4).tree == t1 && Insert(t1, k2).tree == t2
      && Insert(t2, k6).tree == t3 && Insert(t3, k1).tree == t4
  {
    var t1 := Node(Nil, k4, Nil, 1);
    assert Insert(Nil, k4).tree == t1;
    InsertLeftWithoutRotation(t1, k2, Node(Nil, k2, Nil, 1));
    var t2 := Node(Node(Nil, k2, Nil, 1), k4, Nil, 2);
    InsertRightWithoutRotation(t2, k6, Node(Nil, k6, Nil, 1));
    var t3 := Node(Node(Nil, k2, Nil, 1), k4, Node(Nil, k6, Nil, 1), 2);
    InsertLeftWithoutRotation(Node(Nil, k2, Nil, 1), k1, Node(Nil, k1, Nil, 1));
    var l4 := Node(Node(Nil, k1, Nil, 1), k2, Nil, 2);
    InsertLeftWithoutRotation(t3, k1, l4);
  }

  /** The last three inserts fill the remaining leaf positions, again
      without any rotation. */
  lemma SevenKeysLastThree(k1: int, k2: int, k3: int, k4: int, k5: int, k6: int, k7: int)
    requires k1 < k2 < k3 < k4 < k5 < k6 < k7
    ensures var l4 := Node(Node(Nil, k1, Nil, 1), k2, Nil, 2);
      var l5 := Node(Node(Nil, k1, Nil, 1), k2, Node(Nil, k3, Nil, 1), 2);
      var r6 := Node(Node(Nil, k5, Nil, 1), k6, Nil, 2);
      var r7 := Node(Node(Nil, k5, Nil, 1), k6, Node(Nil, k7, Nil, 1), 2);
      var t4 := Node(l4, k4, Node(Nil, k6, Nil, 1), 3);
      var t5 := Node(l5, k4, Node(Nil, k6, Nil, 1), 3);
      var t6 := Node(l5, k4, r6, 3);
      && HeightsExact(t4) && IsBalanced(t4) && Insert(t4, k3).tree == t5
      && HeightsExact(t5) && IsBalanced(t5) && Insert(t5, k5).tree == t6
      && HeightsExact(t6) && IsBalanced(t6)
      && Insert(t6, k7).tree == Node(l5, k4, r7, 3)
  {
    var l4 := Node(Node(Nil, k1, Nil, 1), k2, Nil, 2);
    var t4 := Node(l4, k4, Node(Nil, k6, Nil, 1), 3);
    InsertRightWithoutRotation(l4, k3, Node(Nil, k3, Nil, 1));
    var l5 := Node(Node(Nil, k1, Nil, 1), k2, Node(Nil, k3, Nil, 1), 2);
    InsertLeftWithoutRotation(t4, k3, l5);
    var t5 := Node(l5, k4, Node(Nil, k6, Nil, 1), 3);
    InsertLeftWithoutRotation(Node(Nil, k6, Nil, 1), k5, Node(Nil, k5, Nil, 1));
    var r6 := Node(Node(Nil, k5, Nil, 1), k6, Nil, 2);
    InsertRightWithoutRotation(t5, k5, r6);
    var t6 := Node(l5, k4, r6, 3);
    InsertRightWithoutRotation(r6, k7, Node(Nil, k7, Nil, 1));
    var r7 := Node(Node(Nil, k5, Nil, 1), k6, Node(Nil, k7, Nil, 1), 2);
    InsertRightWithoutRotation(t6, k7, r7);
  }

  /** Inserting seven ascending keys median first, then the two quartiles,
      then the remaining four, needs no rotation and yields the perfect tree
      of height 3 rooted at the median. With the keys 3, 5, 8, 10, 12, 15, 18
      this is the insertion order 10, 5, 15, 3, 8, 12, 18. */
  lemma SevenKeys(k1: int, k2: int, k3: int, k4: int, k5: int, k6: int, k7: int)
    requires k1 < k2 < k3 < k4 < k5 < k6 < k7
    ensures
      var t1 := Insert(Nil, k4).tree;
      var t2 := Insert(t1, k2).tree;
      var t3 := Insert(t2, k6).tree;
      var t4 := Insert(t3, k1).tree;
      var t5 := Insert(t4, k3).tree;
      var t6 := Insert(t5, k5).tree;
      Insert(t6, k7).tree ==
        Node(Node(Node(Nil, k1, Nil, 1), k2, Node(Nil, k3, Nil, 1), 2), k4,
             Node(Node(Nil, k5, Nil, 1), k6, Node(Nil, k7, Nil, 1), 2), 3)
  {
    SevenKeysFirstFour(k1, k2, k3, k4, k5, k6, k7);
    SevenKeysLastThree(k1, k2, k3, k4, k5, k6, k7);
  }

  /** On that tree: the inorder walk gives the keys in ascending order, the
      range walk for [k2, k6] gives the five middle keys, and deleteNode on
      the root's key returns the tree unchanged, so the key is still found. */
  lemma SevenKeysQueries(k1: int, k2: int, k3: int, k4: int, k5: int, k6: int, k7: int)
    requires k1 < k2 < k3 < k4 < k5 < k6 < k7
    ensures var t := Node(Node(Node(Nil, k1, Nil, 1), k2, Node(Nil, k3, Nil, 1), 2), k4,
                          Node(Node(Nil, k5, Nil, 1), k6, Node(Nil, k7, Nil, 1), 2), 3);
      && Inorder(t) == [k1, k2, k3, k4, k5, k6, k7]
      && RangeOrder(t, k2, k6) == [k2, k3, k4, k5, k6]
      && HeightsExact(t) && IsBalanced(t)
      && DeleteNode(t, k4) == t && k4 in Keys(DeleteNode(t, k4))
  {
    var a1, a3 := Node(Nil, k1, Nil, 1), Node(Nil, k3, Nil, 1);
    var a5, a7 := Node(Nil, k5, Nil, 1), Node(Nil, k7, Nil, 1);
    assert HeightsExact(a1) && HeightsExact(a3) && HeightsExact(a5) && HeightsExact(a7);
    assert IsBalanced(a1) && IsBalanced(a3) && IsBalanced(a5) && IsBalanced(a7);
    assert Inorder(a1) == [k1] && Inorder(a3) == [k3] && Inorder(a5) == [k5] && Inorder(a7) == [k7];
    assert RangeOrder(a1, k2, k6) == [] && RangeOrder(a3, k2, k6) == [k3];
    assert RangeOrder(a5, k2, k6) == [k5] && RangeOrder(a7, k2, k6) == [];
    var l, r := Node(a1, k2, a3, 2), Node(a5, k6, a7, 2);
    assert Inorder(l) == [k1, k2, k3] && Inorder(r) == [k5, k6, k7];
    assert RangeOrder(l, k2, k6) == [k2, k3] && RangeOrder(r, k2, k6) == [k5, k6];
    assert HeightsExact(l) && IsBalanced(l) && HeightsExact(r) && IsBalanced(r);
  }

  /** On the same tree level order lists the median, then the quartiles,
      then the four leaves (10, 5, 15, 3, 8, 12, 18 with the keys above). */
  lemma SevenKeysLevelOrder(k1: int, k2: int, k3: int, k4: int, k5: int, k6: int, k7: int)
    ensures var t := Node(Node(Node(Nil, k1, Nil, 1), k2, Node(Nil, k3, Nil, 1), 2), k4,
                          Node(Node(Nil, k5, Nil, 1), k6, Node(Nil, k7, Nil, 1), 2), 3);
      LevelOrder(t) == [k4, k2, k6, k1, k3, k5, k7]
  {
    var a1, a3 := Node(Nil, k1, Nil, 1), Node(Nil, k3, Nil, 1);
    var a5, a7 := Node(Nil, k5, Nil, 1), Node(Nil, k7, Nil, 1);
    var l, r := Node(a1, k2, a3, 2), Node(a5, k6, a7, 2);
    var t := Node(l, k4, r, 3);
    assert Depth(a1) == 1 && Depth(a3) == 1 && Depth(a5) == 1 && Depth(a7) == 1;
    assert Depth(l) == 2 && Depth(r) == 2 && Depth(t) == 3;
    assert Level(l, 1) == [k1, k3] && Level(r, 1) == [k5, k7];
    assert Level(t, 0) == [k4] && Level(t, 1) == [k2, k6] && Level(t, 2) == [k1, k3, k5, k7];
    LevelOrderByLevels(t);
    assert LevelsFrom(t, 0, 3) == [k4] + ([k2, k6] + ([k1, k3, k5, k7] + []));
  }

  /** Preorder of the same tree: with distinct keys it departs from the
      level order at the third key. */
  lemma SevenKeysPreorder(k1: int, k2: int, k3: int, k4: int, k5: int, k6: int, k7: int)
    ensures var t := Node(Node(Node(Nil, k1, Nil, 1), k2, Node(Nil, k3, Nil, 1), 2), k4,
                          Node(Node(Nil, k5, Nil, 1), k6, Node(Nil, k7, Nil, 1), 2), 3);
      Preorder(t) == [k4, k2, k1, k3, k6, k5, k7]
  {
    var a1, a3 := Node(Nil, k1, Nil, 1), Node(Nil, k3, Nil, 1);
    var a5, a7 := Node(Nil, k5, Nil, 1), Node(Nil, k7, Nil, 1);
    assert Preorder(a1) == [k1] && Preorder(a3) == [k3] && Preorder(a5) == [k5] && Preorder(a7) == [k7];
    var l, r := Node(a1, k2, a3, 2), Node(a5, k6, a7, 2);
    assert Preorder(l) == [k2, k1, k3] && Preorder(r) == [k6, k5, k7];
  }

  /** Postorder of the same tree: the leaves and quartiles first, the median last. */
  lemma SevenKeysPostorder(k1: int, k2: int, k3: int, k4: int, k5: int, k6: int, k7: int)
    ensures var t := Node(Node(Node(Nil, k1, Nil, 1), k2, Node(Nil, k3, Nil, 1), 2), k4,
                          Node(Node(Nil, k5, Nil, 1), k6, Node(Nil, k7, Nil, 1), 2), 3);
      Postorder(t) == [k1, k3, k2, k5, k7, k6, k4]
  {
    var a1, a3 := Node(Nil, k1, Nil, 1), Node(Nil, k3, Nil, 1);
    var a5, a7 := Node(Nil, k5, Nil, 1), Node(Nil, k7, Nil, 1);
    assert Postorder(a1) == [k1] && Postorder(a3) == [k3] && Postorder(a5) == [k5] && Postorder(a7) == [k7];
    var l, r := Node(a1, k2, a3, 2), Node(a5, k6, a7, 2);
    assert Postorder(l) == [k1, k3, k2] && Postorder(r) == [k5, k7, k6];
  }
}
