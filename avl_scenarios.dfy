/**
  The concrete shapes the AVL tree's unit tests pin down, computed from the
  AvlSpec operations. Payloads are the keys themselves, so a traversal of
  payloads reads as a list of documents.
*/
module AvlScenarios {
  import opened Wrappers
  import opened AvlSpec

  /** Inserts the keys one after another, as successive `insert` calls do; stops at the first error. */
  function InsertAll(t: Tree<int>, keys: seq<int>): Result<Tree<int>, TreeError>
    decreases |keys|
  {
    if keys == [] then Ok(t)
    else
      match Insert(t, keys[0], keys[0])
      case Err(e) => Err(e)
      case Ok(t') => InsertAll(t', keys[1..])
  }

  /** A key in range becomes a leaf of height 1. */
  lemma LeafInRange(k: int)
    requires 0 <= k <= 999999
    ensures NewLeaf(k, k) == Ok(Node(Nil, k, k, 1, Nil))
  {
  }

  /** Ascending inserts trigger a left rotation: 20 ends at the root. */
  lemma AscendingInsertsRotateLeft()
    ensures var r := InsertAll(Nil, [10, 20, 30]);
            r.Ok? && r.value.Node? && r.value.key == 20 && InOrder(r.value) == [10, 20, 30]
  {
    LeafInRange(10);
    LeafInRange(20);
    LeafInRange(30);
    var l10, l20, l30 := Node(Nil, 10, 10, 1, Nil), Node(Nil, 20, 20, 1, Nil), Node(Nil, 30, 30, 1, Nil);
    var t2 := Node(Nil, 10, 10, 2, l20);
    assert Insert(Nil, 10, 10) == Ok(l10);
    assert Insert(l10, 20, 20) == Ok(t2);
    assert Insert(l20, 30, 30) == Ok(Node(Nil, 20, 20, 2, l30));
    assert Insert(t2, 30, 30) == Ok(Node(l10, 20, 20, 2, l30));
    var final := Node(l10, 20, 20, 2, l30);
    assert [10, 20, 30][1..] == [20, 30] && [20, 30][1..] == [30] && [30][1..] == [];
    assert InsertAll(t2, [30]) == Ok(final);
    assert InsertAll(l10, [20, 30]) == Ok(final);
    assert InsertAll(Nil, [10, 20, 30]) == Ok(final);
    assert InOrder(l10) == [10] && InOrder(l30) == [30];
  }

  /** Descending inserts trigger a right rotation: 20 ends at the root. */
  lemma DescendingInsertsRotateRight()
    ensures var r := InsertAll(Nil, [30, 20, 10]);
            r.Ok? && r.value.Node? && r.value.key == 20 && InOrder(r.value) == [10, 20, 30]
  {
    LeafInRange(10);
    LeafInRange(20);
    LeafInRange(30);
    var l10, l20, l30 := Node(Nil, 10, 10, 1, Nil), Node(Nil, 20, 20, 1, Nil), Node(Nil, 30, 30, 1, Nil);
    var t2 := Node(l20, 30, 30, 2, Nil);
    assert Insert(Nil, 30, 30) == Ok(l30);
    assert Insert(l30, 20, 20) == Ok(t2);
    assert Insert(l20, 10, 10) == Ok(Node(l10, 20, 20, 2, Nil));
    assert Insert(t2, 10, 10) == Ok(Node(l10, 20, 20, 2, l30));
    var final := Node(l10, 20, 20, 2, l30);
    assert [30, 20, 10][1..] == [20, 10] && [20, 10][1..] == [10] && [10][1..] == [];
    assert InsertAll(t2, [10]) == Ok(final);
    assert InsertAll(l30, [20, 10]) == Ok(final);
    assert InsertAll(Nil, [30, 20, 10]) == Ok(final);
    assert InOrder(l10) == [10] && InOrder(l30) == [30];
  }

  /** 30, 10, 20 is the left-right case: 20 ends at the root. */
  lemma LeftRightInsertsDoubleRotate()
    ensures var r := InsertAll(Nil, [30, 10, 20]);
            r.Ok? && r.value.Node? && r.value.key == 20 && InOrder(r.value) == [10, 20, 30]
  {
    LeafInRange(10);
    LeafInRange(20);
    LeafInRange(30);
    var l10, l20, l30 := Node(Nil, 10, 10, 1, Nil), Node(Nil, 20, 20, 1, Nil), Node(Nil, 30, 30, 1, Nil);
    var t2 := Node(l10, 30, 30, 2, Nil);
    assert Insert(Nil, 30, 30) == Ok(l30);
    assert Insert(l30, 10, 10) == Ok(t2);
    assert Insert(l10, 20, 20) == Ok(Node(Nil, 10, 10, 2, l20));
    assert Insert(t2, 20, 20) == Ok(Node(l10, 20, 20, 2, l30));
    var final := Node(l10, 20, 20, 2, l30);
    assert [30, 10, 20][1..] == [10, 20] && [10, 20][1..] == [20] && [20][1..] == [];
    assert InsertAll(t2, [20]) == Ok(final);
    assert InsertAll(l30, [10, 20]) == Ok(final);
    assert InsertAll(Nil, [30, 10, 20]) == Ok(final);
    assert InOrder(l10) == [10] && InOrder(l30) == [30];
  }

  /** 10, 30, 20 is the right-left case: 20 ends at the root. */
  lemma RightLeftInsertsDoubleRotate()
    ensures var r := InsertAll(Nil, [10, 30, 20]);
            r.Ok? && r.value.Node? && r.value.key == 20 && InOrder(r.value) == [10, 20, 30]
  {
    LeafInRange(10);
    LeafInRange(20);
    LeafInRange(30);
    var l10, l20, l30 := Node(Nil, 10, 10, 1, Nil), Node(Nil, 20, 20, 1, Nil), Node(Nil, 30, 30, 1, Nil);
    var t2 := Node(Nil, 10, 10, 2, l30);
    assert Insert(Nil, 10, 10) == Ok(l10);
    assert Insert(l10, 30, 30) == Ok(t2);
    assert Insert(l30, 20, 20) == Ok(Node(l20, 30, 30, 2, Nil));
    assert RotateRight(Node(l20, 30, 30, 2, Nil)) == Node(Nil, 20, 20, 2, l30);
    assert RotateLeft(Node(Nil, 10, 10, 3, Node(Nil, 20, 20, 2, l30))) == Node(l10, 20, 20, 2, l30);
    assert RebalanceInsert(Node(Nil, 10, 10, 2, Node(l20, 30, 30, 2, Nil)), 20) == Node(l10, 20, 20, 2, l30);
    assert Insert(t2, 20, 20) == Ok(Node(l10, 20, 20, 2, l30));
    var final := Node(l10, 20, 20, 2, l30);
    assert [10, 30, 20][1..] == [30, 20] && [30, 20][1..] == [20] && [20][1..] == [];
    assert InsertAll(t2, [20]) == Ok(final);
    assert InsertAll(l10, [30, 20]) == Ok(final);
    assert InsertAll(Nil, [10, 30, 20]) == Ok(final);
    assert InOrder(l10) == [10] && InOrder(l30) == [30];
  }

  /** 50, 30, 70 fill two levels without any rotation. */
  lemma ThreeInsertsShape()
    ensures InsertAll(Nil, [50, 30, 70]) == Ok(Node(Node(Nil, 30, 30, 1, Nil), 50, 50, 2, Node(Nil, 70, 70, 1, Nil)))
  {
    LeafInRange(30);
    LeafInRange(50);
    LeafInRange(70);
    var l30, l50, l70 := Node(Nil, 30, 30, 1, Nil), Node(Nil, 50, 50, 1, Nil), Node(Nil, 70, 70, 1, Nil);
    var t2 := Node(l30, 50, 50, 2, Nil);
    var final := Node(l30, 50, 50, 2, l70);
    assert Insert(Nil, 50, 50) == Ok(l50);
    assert Insert(l50, 30, 30) == Ok(t2);
    assert Insert(t2, 70, 70) == Ok(final);
    assert [50, 30, 70][1..] == [30, 70] && [30, 70][1..] == [70] && [70][1..] == [];
    assert InsertAll(t2, [70]) == Ok(final);
    assert InsertAll(l50, [30, 70]) == Ok(final);
  }

  /** Inserting 50, 30, 70 gives a root of height 2 over two leaves of height 1. */
  lemma ThreeInsertsHeights()
    ensures var r := InsertAll(Nil, [50, 30, 70]);
            r.Ok? && r.value.Node? && r.value.height == 2 &&
            r.value.left.Node? && r.value.left.height == 1 && r.value.right.Node? && r.value.right.height == 1
  {
    ThreeInsertsShape();
  }

  /** 20 and 40 then hang below 30 without any rotation. */
  lemma AddTwentyForty()
    ensures InsertAll(Node(Node(Nil, 30, 30, 1, Nil), 50, 50, 2, Node(Nil, 70, 70, 1, Nil)), [20, 40]) ==
            Ok(Node(Node(Node(Nil, 20, 20, 1, Nil), 30, 30, 2, Node(Nil, 40, 40, 1, Nil)), 50, 50, 3, Node(Nil, 70, 70, 1, Nil)))
  {
    LeafInRange(20);
    LeafInRange(40);
    var l20, l30, l40, l70 := Node(Nil, 20, 20, 1, Nil), Node(Nil, 30, 30, 1, Nil), Node(Nil, 40, 40, 1, Nil),
                              Node(Nil, 70, 70, 1, Nil);
    var t3 := Node(l30, 50, 50, 2, l70);
    var t4 := Node(Node(l20, 30, 30, 2, Nil), 50, 50, 3, l70);
    var t5 := Node(Node(l20, 30, 30, 2, l40), 50, 50, 3, l70);
    assert Insert(l30, 20, 20) == Ok(Node(l20, 30, 30, 2, Nil));
    assert Insert(t3, 20, 20) == Ok(t4);
    assert Insert(Node(l20, 30, 30, 2, Nil), 40, 40) == Ok(Node(l20, 30, 30, 2, l40));
    assert Insert(t4, 40, 40) == Ok(t5);
    assert [20, 40][1..] == [40] && [40][1..] == [];
    assert InsertAll(t4, [40]) == Ok(t5);
  }

  /** Deleting 30 from that tree copies its successor 40 into its place; no rotation follows. */
  lemma DeleteThirtyFromFive()
    ensures var res := Delete(Node(Node(Node(Nil, 20, 20, 1, Nil), 30, 30, 2, Node(Nil, 40, 40, 1, Nil)), 50, 50, 3, Node(Nil, 70, 70, 1, Nil)), 30);
            res.removed && InOrder(res.tree) == [20, 40, 50, 70]
  {
    var l20, l40, l70 := Node(Nil, 20, 20, 1, Nil), Node(Nil, 40, 40, 1, Nil), Node(Nil, 70, 70, 1, Nil);
    assert MinNode(l40) == l40;
    assert Delete(l40, 40) == Removal(Nil, true);
    var s := Node(l20, 40, 40, 2, Nil);
    assert WithHeight(Node(l20, 40, 40, 2, Nil)) == s;
    assert RebalanceDelete(Node(l20, 40, 40, 2, Nil)) == s;
    assert Delete(Node(l20, 30, 30, 2, l40), 30) == Removal(s, true);
    var after := Node(s, 50, 50, 3, l70);
    assert WithHeight(after) == after;
    assert RebalanceDelete(after) == after;
    assert InOrder(l20) == [20] && InOrder(l70) == [70];
    assert InOrder(s) == [20, 40];
    assert InOrder(after) == [20, 40] + [50] + [70];
  }

  /** Deleting 30, which has two children, from 50, 30, 70 and then 20, 40 leaves 20, 40, 50, 70 in order. */
  lemma DeleteWithTwoChildren()
    ensures var r := InsertAll(Nil, [50, 30, 70]);
            r.Ok? &&
            var r' := InsertAll(r.value, [20, 40]);
            r'.Ok? && Delete(r'.value, 30).removed && InOrder(Delete(r'.value, 30).tree) == [20, 40, 50, 70]
  {
    ThreeInsertsShape();
    AddTwentyForty();
    DeleteThirtyFromFive();
  }
}
