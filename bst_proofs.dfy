/**
  What the BstSpec functions guarantee: the in-order walk lists the entries
  by ascending id, the three walks list the same entries, search finds
  exactly what is stored, insertion hangs one new leaf without moving any
  node, and deletion removes exactly the requested id, all while the
  search-tree ordering holds.
*/
module BstProofs {
  import opened Wrappers
  import opened KeySequences
  import opened BstSpec

  // ----- Basic facts -----

  lemma {:induction false} IdsAreInOrderIds<D>(t: Tree<D>)
    ensures forall j :: j in Ids(t) <==> j in InOrderIds(t)
  {
    if t.Node? {
      IdsAreInOrderIds(t.left);
      IdsAreInOrderIds(t.right);
    }
  }

  lemma {:induction false} ContentsIds<D>(t: Tree<D>)
    ensures Contents(t).Keys == Ids(t)
  {
    if t.Node? {
      ContentsIds(t.left);
      ContentsIds(t.right);
    }
  }

  lemma BoundsViaInOrder<D>(t: Tree<D>, x: int)
    ensures SetBelow(Ids(t), x) <==> AllBelow(InOrderIds(t), x)
    ensures SetAbove(Ids(t), x) <==> AllAbove(InOrderIds(t), x)
  {
    IdsAreInOrderIds(t);
    SameMembersBounds(Ids(t), InOrderIds(t), x);
  }

  /** A subtree is a search tree exactly when its in-order ids are strictly ascending. */
  lemma {:induction false} OrderedIffIncreasing<D>(t: Tree<D>)
    ensures Ordered(t) <==> Increasing(InOrderIds(t))
  {
    if t.Node? {
      var l, x, r := t.left, t.id, t.right;
      OrderedIffIncreasing(l);
      OrderedIffIncreasing(r);
      IncreasingConcat(InOrderIds(l), x, InOrderIds(r));
      BoundsViaInOrder(l, x);
      BoundsViaInOrder(r, x);
    }
  }

  // ----- Traversals -----

  lemma {:induction false} TraversalLengths<D>(t: Tree<D>)
    ensures |InOrder(t)| == Size(t) && |PreOrder(t)| == Size(t) && |PostOrder(t)| == Size(t)
    ensures |InOrderIds(t)| == Size(t)
  {
    if t.Node? {
      TraversalLengths(t.left);
      TraversalLengths(t.right);
    }
  }

  /** In a search tree the node count is the number of distinct ids. */
  lemma {:induction false} SizeIsIdCount<D>(t: Tree<D>)
    requires Ordered(t)
    ensures Size(t) == |Ids(t)|
  {
    if t.Node? {
      SizeIsIdCount(t.left);
      SizeIsIdCount(t.right);
      assert Ids(t.left) !! Ids(t.right) by {
        forall j | j in Ids(t.left) ensures j !in Ids(t.right) { }
      }
      assert t.id !in Ids(t.left) + Ids(t.right);
      assert Ids(t) == (Ids(t.left) + Ids(t.right)) + {t.id};
    }
  }

  /** Pre-, in- and post-order list the same entries, each in its own order. */
  lemma {:induction false} TraversalsSameEntries<D>(t: Tree<D>)
    ensures multiset(PreOrder(t)) == multiset(InOrder(t))
    ensures multiset(PostOrder(t)) == multiset(InOrder(t))
  {
    if t.Node? {
      TraversalsSameEntries(t.left);
      TraversalsSameEntries(t.right);
    }
  }

  /** The i-th in-order entry is the id at position i with the payload stored under it. */
  lemma {:induction false} InOrderEntryAt<D>(t: Tree<D>, i: int)
    requires Ordered(t) && 0 <= i < |InOrderIds(t)|
    ensures |InOrder(t)| == |InOrderIds(t)|
    ensures InOrderIds(t)[i] in Contents(t) && InOrder(t)[i] == Entry(InOrderIds(t)[i], Contents(t)[InOrderIds(t)[i]])
  {
    TraversalLengths(t);
    var l, x, d, r := t.left, t.id, t.data, t.right;
    TraversalLengths(l);
    var nl := |InOrder(l)|;
    ContentsIds(l);
    ContentsIds(r);
    if i < nl {
      InOrderEntryAt(l, i);
      var j := InOrderIds(l)[i];
      assert InOrderIds(t)[i] == j && InOrder(t)[i] == InOrder(l)[i];
      IdsAreInOrderIds(l);
      assert j < x && j !in Ids(r);
    } else if i == nl {
      assert InOrderIds(t)[i] == x && InOrder(t)[i] == Entry(x, d);
      assert x !in Ids(r);
    } else {
      InOrderEntryAt(r, i - nl - 1);
      assert InOrderIds(t)[i] == InOrderIds(r)[i - nl - 1] && InOrder(t)[i] == InOrder(r)[i - nl - 1];
    }
  }

  /**
    In a search tree the i-th in-order entry is the `to_dict` of the node
    with the i-th smallest id: that id and the payload stored under it.
  */
  lemma InOrderIsSortedContents<D>(t: Tree<D>)
    requires Ordered(t)
    ensures Increasing(InOrderIds(t))
    ensures |InOrder(t)| == |InOrderIds(t)| == |Ids(t)|
    ensures forall i :: 0 <= i < |InOrder(t)| ==>
              InOrderIds(t)[i] in Contents(t) && InOrder(t)[i] == Entry(InOrderIds(t)[i], Contents(t)[InOrderIds(t)[i]])
  {
    OrderedIffIncreasing(t);
    TraversalLengths(t);
    SizeIsIdCount(t);
    forall i | 0 <= i < |InOrder(t)|
      ensures InOrderIds(t)[i] in Contents(t) && InOrder(t)[i] == Entry(InOrderIds(t)[i], Contents(t)[InOrderIds(t)[i]])
    {
      InOrderEntryAt(t, i);
    }
  }

  // ----- Search -----

  /** Search finds a node exactly when the id is stored, and that node carries the stored payload. */
  lemma {:induction false} FindIsLookup<D>(t: Tree<D>, id: int)
    requires Ordered(t)
    ensures Find(t, id).Some? <==> id in Ids(t)
    ensures Find(t, id).Some? ==>
              Find(t, id).value.Node? && Find(t, id).value.id == id &&
              id in Contents(t) && Find(t, id).value.data == Contents(t)[id]
  {
    if t.Node? {
      ContentsIds(t.left);
      ContentsIds(t.right);
      if id < t.id {
        FindIsLookup(t.left, id);
        assert id !in Ids(t.right);
      } else if id > t.id {
        FindIsLookup(t.right, id);
        assert id !in Ids(t.left);
      } else {
        assert id !in Ids(t.right);
      }
    }
  }

  // ----- Extremes -----

  lemma {:induction false} MinNodeIsMin<D>(t: Tree<D>)
    requires Ordered(t) && t.Node?
    ensures forall j :: j in Ids(t) ==> MinNode(t).id <= j
    ensures MinNode(t).id in Contents(t) && Contents(t)[MinNode(t).id] == MinNode(t).data
  {
    ContentsIds(t.left);
    ContentsIds(t.right);
    if t.left.Node? {
      MinNodeIsMin(t.left);
      assert MinNode(t).id !in Ids(t.right);
    } else {
      assert t.id !in Ids(t.right);
    }
  }

  lemma {:induction false} MaxNodeIsMax<D>(t: Tree<D>)
    requires Ordered(t) && t.Node?
    ensures forall j :: j in Ids(t) ==> j <= MaxNode(t).id
    ensures MaxNode(t).id in Contents(t) && Contents(t)[MaxNode(t).id] == MaxNode(t).data
  {
    ContentsIds(t.left);
    ContentsIds(t.right);
    if t.right.Node? {
      MaxNodeIsMax(t.right);
    } else {
      assert t.id !in Ids(t.left);
    }
  }

  // ----- Insertion -----

  /** `t'` is `t` with one absent link replaced by the leaf `(id, d)`; every other node keeps its place. */
  ghost predicate GrowsByLeaf<D>(t: Tree<D>, t': Tree<D>, id: int, d: D) {
    match t
    case Nil => t' == Node(Nil, id, d, Nil)
    case Node(l, x, dx, r) =>
      t'.Node? && t'.id == x && t'.data == dx &&
      ((GrowsByLeaf(l, t'.left, id, d) && t'.right == r) || (t'.left == l && GrowsByLeaf(r, t'.right, id, d)))
  }

  /** What a successful insertion of `(id, d)` into `t` produced. */
  ghost predicate Inserted<D>(t: Tree<D>, t': Tree<D>, id: int, d: D) {
    Ordered(t') && Ids(t') == Ids(t) + {id} && Contents(t') == Contents(t)[id := d] &&
    Size(t') == Size(t) + 1 && GrowsByLeaf(t, t', id, d)
  }

  /**
    Insertion into a search tree fails, with the duplicate-id error, exactly
    when the id is stored; otherwise the new entry hangs as a leaf, the tree
    stays ordered and holds the old entries plus the new one.
  */
  lemma {:induction false} InsertSound<D>(t: Tree<D>, id: int, d: D)
    requires Ordered(t)
    ensures Insert(t, id, d).Err? <==> id in Ids(t)
    ensures id in Ids(t) ==> Insert(t, id, d) == Err(DuplicateId(id))
    ensures Insert(t, id, d).Ok? ==> Inserted(t, Insert(t, id, d).value, id, d)
  {
    match t
    case Nil =>
    case Node(l, x, dx, r) =>
      ContentsIds(l);
      ContentsIds(r);
      if id < x {
        InsertSound(l, id, d);
        assert id !in Ids(r);
        if Insert(l, id, d).Ok? {
          var l' := Insert(l, id, d).value;
          assert Ordered(Node(l', x, dx, r));
          InsertEntries(Contents(l), x, dx, Contents(r), id, d);
        }
      } else if id > x {
        InsertSound(r, id, d);
        assert id !in Ids(l);
        if Insert(r, id, d).Ok? {
          var r' := Insert(r, id, d).value;
          assert Ordered(Node(l, x, dx, r'));
          InsertEntries(Contents(l), x, dx, Contents(r), id, d);
        }
      }
  }

  /** Adding an entry to either part of a node's contents adds it to the whole. */
  lemma InsertEntries<D>(a: map<int, D>, x: int, dx: D, b: map<int, D>, id: int, d: D)
    requires id != x && (id !in a || id !in b)
    ensures id !in b ==> a[id := d] + map[x := dx] + b == (a + map[x := dx] + b)[id := d]
    ensures id !in a ==> a + map[x := dx] + b[id := d] == (a + map[x := dx] + b)[id := d]
  {
    var whole := (a + map[x := dx] + b)[id := d];
    if id !in b {
      var lhs := a[id := d] + map[x := dx] + b;
      assert lhs.Keys == whole.Keys;
      forall j | j in lhs ensures lhs[j] == whole[j] { }
    }
    if id !in a {
      var lhs := a + map[x := dx] + b[id := d];
      assert lhs.Keys == whole.Keys;
      forall j | j in lhs ensures lhs[j] == whole[j] { }
    }
  }

  // ----- Deletion -----

  /** What a deletion of `id` from `t` produced: `removed` says whether `id` was stored. */
  ghost predicate Deleted<D>(t: Tree<D>, res: Removal<D>, id: int) {
    res.removed == (id in Ids(t)) && Ordered(res.tree) &&
    Ids(res.tree) == Ids(t) - {id} && Contents(res.tree) == Contents(t) - {id} &&
    Size(res.tree) == Size(t) - (if res.removed then 1 else 0)
  }

  lemma MinusLeft<D>(a: map<int, D>, x: int, dx: D, b: map<int, D>, id: int)
    requires id != x && id !in b
    ensures (a - {id}) + map[x := dx] + b == (a + map[x := dx] + b) - {id}
  {
    var lhs := (a - {id}) + map[x := dx] + b;
    var rhs := (a + map[x := dx] + b) - {id};
    assert lhs.Keys == rhs.Keys;
    forall j | j in lhs ensures lhs[j] == rhs[j] { }
  }

  lemma MinusRight<D>(a: map<int, D>, x: int, dx: D, b: map<int, D>, id: int)
    requires id != x && id !in a
    ensures a + map[x := dx] + (b - {id}) == (a + map[x := dx] + b) - {id}
  {
    var lhs := a + map[x := dx] + (b - {id});
    var rhs := (a + map[x := dx] + b) - {id};
    assert lhs.Keys == rhs.Keys;
    forall j | j in lhs ensures lhs[j] == rhs[j] { }
  }

  /** Replacing the node's entry `x` by the right part's entry `s`, which leaves that part. */
  lemma MinusRoot<D>(a: map<int, D>, x: int, dx: D, b: map<int, D>, s: int)
    requires x !in a && x !in b && s in b
    ensures a + map[s := b[s]] + (b - {s}) == (a + map[x := dx] + b) - {x}
  {
    var lhs := a + map[s := b[s]] + (b - {s});
    var rhs := (a + map[x := dx] + b) - {x};
    forall j ensures j in lhs <==> j in rhs {
      if j == s { assert j in lhs && j in rhs; }
    }
    assert lhs.Keys == rhs.Keys;
    forall j | j in lhs ensures lhs[j] == rhs[j] { }
  }

  lemma DeleteLeftStep<D>(t: Tree<D>, id: int, res: Removal<D>)
    requires Ordered(t) && t.Node? && id < t.id && Deleted(t.left, res, id)
    ensures Deleted(t, Removal(Node(res.tree, t.id, t.data, t.right), res.removed), id)
  {
    ContentsIds(t.right);
    MinusLeft(Contents(t.left), t.id, t.data, Contents(t.right), id);
  }

  lemma DeleteRightStep<D>(t: Tree<D>, id: int, res: Removal<D>)
    requires Ordered(t) && t.Node? && id > t.id && Deleted(t.right, res, id)
    ensures Deleted(t, Removal(Node(t.left, t.id, t.data, res.tree), res.removed), id)
  {
    ContentsIds(t.left);
    MinusRight(Contents(t.left), t.id, t.data, Contents(t.right), id);
  }

  lemma SuccessorOrdered<D>(t: Tree<D>, r: Tree<D>)
    requires Ordered(t) && t.Node? && t.right.Node? && Ordered(r)
    requires Ids(r) == Ids(t.right) - {MinNode(t.right).id}
    ensures Ordered(Node(t.left, MinNode(t.right).id, MinNode(t.right).data, r))
  {
    MinNodeIsMin(t.right);
  }

  /** Moving the right subtree's minimum up in place of the node drops exactly the node's entry. */
  lemma SuccessorEntries<D>(t: Tree<D>, r: Tree<D>)
    requires Ordered(t) && t.Node? && t.right.Node?
    requires Contents(r) == Contents(t.right) - {MinNode(t.right).id}
    ensures Contents(Node(t.left, MinNode(t.right).id, MinNode(t.right).data, r)) == Contents(t) - {t.id}
  {
    var s := MinNode(t.right);
    MinNodeIsMin(t.right);
    ContentsIds(t.left);
    ContentsIds(t.right);
    assert t.id !in Ids(t.left) && t.id !in Ids(t.right);
    MinusRoot(Contents(t.left), t.id, t.data, Contents(t.right), s.id);
  }

  lemma SuccessorIds<D>(t: Tree<D>, r: Tree<D>)
    requires Ordered(t) && t.Node? && t.right.Node?
    requires Ids(r) == Ids(t.right) - {MinNode(t.right).id}
    ensures Ids(Node(t.left, MinNode(t.right).id, MinNode(t.right).data, r)) == Ids(t) - {t.id}
  {
    assert t.id !in Ids(t.left) && t.id !in Ids(t.right);
  }

  /** The two-children case: the successor's entry moves up and is deleted from the right subtree. */
  lemma DeleteSuccessorStep<D>(t: Tree<D>, res: Removal<D>)
    requires Ordered(t) && t.Node? && t.left.Node? && t.right.Node?
    requires Deleted(t.right, res, MinNode(t.right).id)
    ensures var s := MinNode(t.right);
            Deleted(t, Removal(Node(t.left, s.id, s.data, res.tree), res.removed), t.id)
  {
    SuccessorOrdered(t, res.tree);
    SuccessorEntries(t, res.tree);
    SuccessorIds(t, res.tree);
    assert res.removed;
  }

  /** A node with at most one child is replaced by that child (a leaf by nothing). */
  lemma DeleteOneChildStep<D>(t: Tree<D>)
    requires Ordered(t) && t.Node? && (t.left.Nil? || t.right.Nil?)
    ensures Deleted(t, Removal(if t.left.Nil? then t.right else t.left, true), t.id)
  {
    ContentsIds(t.left);
    ContentsIds(t.right);
    assert t.id !in Ids(t.left) && t.id !in Ids(t.right);
  }

  /**
    Deletion from a search tree reports a removal exactly when the id was
    stored, removes exactly that entry, and keeps the ordering.
  */
  lemma {:induction false} DeleteSound<D>(t: Tree<D>, id: int)
    requires Ordered(t)
    ensures Deleted(t, Delete(t, id), id)
  {
    match t
    case Nil =>
    case Node(l, x, dx, r) =>
      if id < x {
        DeleteSound(l, id);
        DeleteLeftStep(t, id, Delete(l, id));
      } else if id > x {
        DeleteSound(r, id);
        DeleteRightStep(t, id, Delete(r, id));
      } else if l.Nil? || r.Nil? {
        DeleteOneChildStep(t);
      } else {
        var s := MinNode(r);
        DeleteSound(r, s.id);
        DeleteSuccessorStep(t, Delete(r, s.id));
      }
  }

  /** Deleting an id that is not stored hands back the very same tree and reports no removal. */
  lemma {:induction false} DeleteAbsent<D>(t: Tree<D>, id: int)
    requires Ordered(t) && id !in Ids(t)
    ensures Delete(t, id) == Removal(t, false)
  {
    match t
    case Nil =>
    case Node(l, x, dx, r) =>
      if id < x {
        DeleteAbsent(l, id);
      } else {
        DeleteAbsent(r, id);
      }
  }
}
