/**
  The concrete shapes the search tree's unit tests pin down, computed from
  the BstSpec operations. Payloads are the ids themselves.
*/
module BstScenarios {
  import opened Wrappers
  import opened BstSpec

  /** Inserts the ids one after another, as successive `insert` calls do; stops at the first error. */
  function InsertAll(t: Tree<int>, ids: seq<int>): Result<Tree<int>, InsertError>
    decreases |ids|
  {
    if ids == [] then Ok(t)
    else
      match Insert(t, ids[0], ids[0])
      case Err(e) => Err(e)
      case Ok(t') => InsertAll(t', ids[1..])
  }

  function Leaf(x: int): Tree<int> {
    Node(Nil, x, x, Nil)
  }

  /** 50, 30, 70, 20, 40: root 50 with 30 and 70 below it, and 20 and 40 under 30. */
  lemma FiveInsertsShape()
    ensures InsertAll(Nil, [50, 30, 70, 20, 40]) == Ok(Node(Node(Leaf(20), 30, 30, Leaf(40)), 50, 50, Leaf(70)))
  {
    var t2 := Node(Leaf(30), 50, 50, Nil);
    var t3 := Node(Leaf(30), 50, 50, Leaf(70));
    var t4 := Node(Node(Leaf(20), 30, 30, Nil), 50, 50, Leaf(70));
    var t5 := Node(Node(Leaf(20), 30, 30, Leaf(40)), 50, 50, Leaf(70));
    assert Insert(Leaf(50), 30, 30) == Ok(t2);
    assert Insert(t2, 70, 70) == Ok(t3);
    assert Insert(Leaf(30), 20, 20) == Ok(Node(Leaf(20), 30, 30, Nil));
    assert Insert(t3, 20, 20) == Ok(t4);
    assert Insert(Node(Leaf(20), 30, 30, Nil), 40, 40) == Ok(Node(Leaf(20), 30, 30, Leaf(40)));
    assert Insert(t4, 40, 40) == Ok(t5);
    var ids := [50, 30, 70, 20, 40];
    assert ids[1..] == [30, 70, 20, 40] && ids[1..][1..] == [70, 20, 40];
    assert ids[1..][1..][1..] == [20, 40] && [20, 40][1..] == [40] && [40][1..] == [];
    assert InsertAll(t4, [40]) == Ok(t5);
    assert InsertAll(t3, [20, 40]) == Ok(t5);
    assert InsertAll(t2, [70, 20, 40]) == Ok(t5);
    assert InsertAll(Leaf(50), [30, 70, 20, 40]) == Ok(t5);
  }

  /** Pre-order gives 50, 30, 20, 40, 70 and post-order 20, 40, 30, 70, 50 on that tree. */
  lemma FiveTreeTraversals()
    ensures var t := Node(Node(Leaf(20), 30, 30, Leaf(40)), 50, 50, Leaf(70));
            PreOrder(t) == [Entry(50, 50), Entry(30, 30), Entry(20, 20), Entry(40, 40), Entry(70, 70)] &&
            PostOrder(t) == [Entry(20, 20), Entry(40, 40), Entry(30, 30), Entry(70, 70), Entry(50, 50)]
  {
    var sub := Node(Leaf(20), 30, 30, Leaf(40));
    assert PreOrder(Leaf(20)) == [Entry(20, 20)] && PreOrder(Leaf(40)) == [Entry(40, 40)] && PreOrder(Leaf(70)) == [Entry(70, 70)];
    assert PreOrder(sub) == [Entry(30, 30)] + [Entry(20, 20)] + [Entry(40, 40)];
    assert PostOrder(Leaf(20)) == [Entry(20, 20)] && PostOrder(Leaf(40)) == [Entry(40, 40)] && PostOrder(Leaf(70)) == [Entry(70, 70)];
    assert PostOrder(sub) == [Entry(20, 20)] + [Entry(40, 40)] + [Entry(30, 30)];
  }

  /** After inserting 50, 30, 70, 20, 40, the pre- and post-order walks list those entries. */
  lemma FiveInsertsTraversals()
    ensures var r := InsertAll(Nil, [50, 30, 70, 20, 40]);
            r.Ok? &&
            PreOrder(r.value) == [Entry(50, 50), Entry(30, 30), Entry(20, 20), Entry(40, 40), Entry(70, 70)] &&
            PostOrder(r.value) == [Entry(20, 20), Entry(40, 40), Entry(30, 30), Entry(70, 70), Entry(50, 50)]
  {
    FiveInsertsShape();
    FiveTreeTraversals();
  }

  /** A repeated id is refused with the duplicate-id error. */
  lemma DuplicateRefused()
    ensures InsertAll(Nil, [50, 30, 50]) == Err(DuplicateId(50))
  {
    var t2 := Node(Leaf(30), 50, 50, Nil);
    assert Insert(Leaf(50), 30, 30) == Ok(t2);
    assert [50, 30, 50][1..] == [30, 50] && [30, 50][1..] == [50];
    assert InsertAll(t2, [50]) == Err(DuplicateId(50));
  }

  /** Nothing bounds the ids: negative ones are stored and walked in order like any other. */
  lemma NegativeIdsAccepted()
    ensures var r := InsertAll(Nil, [-5, 10, -20]);
            r.Ok? && InOrderIds(r.value) == [-20, -5, 10]
  {
    var t2 := Node(Nil, -5, -5, Leaf(10));
    var t3 := Node(Leaf(-20), -5, -5, Leaf(10));
    assert Insert(Leaf(-5), 10, 10) == Ok(t2);
    assert Insert(t2, -20, -20) == Ok(t3);
    assert [-5, 10, -20][1..] == [10, -20] && [10, -20][1..] == [-20] && [-20][1..] == [];
    assert InsertAll(t2, [-20]) == Ok(t3);
    assert InOrderIds(Leaf(-20)) == [-20] && InOrderIds(Leaf(10)) == [10];
  }

  /** Deleting the root 50 of 50, 30, 70 moves its successor 70 up to the root. */
  lemma DeleteRootTakesSuccessor()
    ensures var r := InsertAll(Nil, [50, 30, 70]);
            r.Ok? && Delete(r.value, 50).removed && Delete(r.value, 50).tree.Node? && Delete(r.value, 50).tree.id == 70
  {
    var t2 := Node(Leaf(30), 50, 50, Nil);
    var t3 := Node(Leaf(30), 50, 50, Leaf(70));
    assert Insert(Leaf(50), 30, 30) == Ok(t2);
    assert Insert(t2, 70, 70) == Ok(t3);
    assert [50, 30, 70][1..] == [30, 70] && [30, 70][1..] == [70] && [70][1..] == [];
    assert InsertAll(t2, [70]) == Ok(t3);
    assert Delete(Leaf(70), 70) == Removal(Nil, true);
    assert Delete(t3, 50) == Removal(Node(Leaf(30), 70, 70, Nil), true);
  }

  /** 50, 30, 70, 20, 40, 35, 45 builds 30 with two children. */
  lemma SevenInsertsShape()
    ensures InsertAll(Nil, [50, 30, 70, 20, 40, 35, 45]) ==
            Ok(Node(Node(Leaf(20), 30, 30, Node(Leaf(35), 40, 40, Leaf(45))), 50, 50, Leaf(70)))
  {
    FiveInsertsShape();
    var t5 := Node(Node(Leaf(20), 30, 30, Leaf(40)), 50, 50, Leaf(70));
    var t6 := Node(Node(Leaf(20), 30, 30, Node(Leaf(35), 40, 40, Nil)), 50, 50, Leaf(70));
    var t7 := Node(Node(Leaf(20), 30, 30, Node(Leaf(35), 40, 40, Leaf(45))), 50, 50, Leaf(70));
    assert Insert(Leaf(40), 35, 35) == Ok(Node(Leaf(35), 40, 40, Nil));
    assert Insert(Node(Leaf(20), 30, 30, Leaf(40)), 35, 35) == Ok(Node(Leaf(20), 30, 30, Node(Leaf(35), 40, 40, Nil)));
    assert Insert(t5, 35, 35) == Ok(t6);
    assert Insert(Node(Leaf(35), 40, 40, Nil), 45, 45) == Ok(Node(Leaf(35), 40, 40, Leaf(45)));
    assert Insert(Node(Leaf(20), 30, 30, Node(Leaf(35), 40, 40, Nil)), 45, 45) ==
           Ok(Node(Leaf(20), 30, 30, Node(Leaf(35), 40, 40, Leaf(45))));
    assert Insert(t6, 45, 45) == Ok(t7);
    assert InsertAll(t6, [45]) == Ok(t7);
    assert InsertAll(t5, [35, 45]) == Ok(t7);
    InsertAllAppend(Nil, [50, 30, 70, 20, 40], [35, 45]);
    assert [50, 30, 70, 20, 40] + [35, 45] == [50, 30, 70, 20, 40, 35, 45];
  }

  /** Inserting a list in two parts is inserting the first part, then the second. */
  lemma {:induction false} InsertAllAppend(t: Tree<int>, a: seq<int>, b: seq<int>)
    ensures InsertAll(t, a + b) == (match InsertAll(t, a) case Err(e) => Err(e) case Ok(t') => InsertAll(t', b))
    decreases |a|
  {
    if a == [] {
      assert a + b == b;
    } else {
      assert (a + b)[0] == a[0] && (a + b)[1..] == a[1..] + b;
      match Insert(t, a[0], a[0])
      case Err(e) =>
      case Ok(t') => InsertAllAppend(t', a[1..], b);
    }
  }

  /** Deleting 30, which has two children, puts its successor 35 in its place under the root. */
  lemma DeleteTwoChildrenTakesSuccessor()
    ensures var r := InsertAll(Nil, [50, 30, 70, 20, 40, 35, 45]);
            r.Ok? && Delete(r.value, 30).removed &&
            Delete(r.value, 30).tree.Node? && Delete(r.value, 30).tree.left.Node? && Delete(r.value, 30).tree.left.id == 35
  {
    SevenInsertsShape();
    DeleteThirtyFromSeven();
  }

  lemma DeleteThirtyFromSeven()
    ensures Delete(Node(Node(Leaf(20), 30, 30, Node(Leaf(35), 40, 40, Leaf(45))), 50, 50, Leaf(70)), 30) ==
            Removal(Node(Node(Leaf(20), 35, 35, Node(Nil, 40, 40, Leaf(45))), 50, 50, Leaf(70)), true)
  {
    var r := Node(Leaf(35), 40, 40, Leaf(45));
    assert MinNode(Leaf(35)) == Leaf(35);
    assert MinNode(r) == Leaf(35);
    assert Delete(Leaf(35), 35) == Removal(Nil, true);
    assert Delete(r, 35) == Removal(Node(Nil, 40, 40, Leaf(45)), true);
    assert Delete(Node(Leaf(20), 30, 30, r), 30) == Removal(Node(Leaf(20), 35, 35, Node(Nil, 40, 40, Leaf(45))), true);
  }
}
