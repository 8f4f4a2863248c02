/**
  What the AVL functions of AvlSpec guarantee: the in-order sequence is the
  sorted key order, the three traversals enumerate the same payloads, search
  agrees with the stored contents, and insertion and deletion (with the
  rotations each of them chooses) keep the tree ordered, its cached heights
  correct and every balance factor within [-1, 1].
*/
module AvlProofs {
  import opened Wrappers
  import opened Documents
  import opened AvlSpec
  import opened KeySequences

  // ----- Basic facts -----

  lemma {:induction false} HeightsOkNonneg<D>(t: Tree<D>)
    requires HeightsOk(t)
    ensures Height(t) >= 0
    ensures t.Node? ==> Height(t) >= 1
  {
    if t.Node? {
      HeightsOkNonneg(t.left);
      HeightsOkNonneg(t.right);
    }
  }

  lemma {:induction false} KeysAreInOrderKeys<D>(t: Tree<D>)
    ensures forall j :: j in Keys(t) <==> j in InOrderKeys(t)
  {
    if t.Node? {
      KeysAreInOrderKeys(t.left);
      KeysAreInOrderKeys(t.right);
    }
  }

  lemma {:induction false} ContentsKeys<D>(t: Tree<D>)
    ensures Contents(t).Keys == Keys(t)
  {
    if t.Node? {
      ContentsKeys(t.left);
      ContentsKeys(t.right);
    }
  }

  /** A subtree is ordered exactly when its in-order key sequence is strictly ascending. */
  lemma {:induction false} OrderedIffIncreasing<D>(t: Tree<D>)
    ensures Ordered(t) <==> Increasing(InOrderKeys(t))
  {
    if t.Node? {
      var l, k, r := t.left, t.key, t.right;
      OrderedIffIncreasing(l);
      OrderedIffIncreasing(r);
      KeysAreInOrderKeys(l);
      KeysAreInOrderKeys(r);
      IncreasingConcat(InOrderKeys(l), k, InOrderKeys(r));
      BoundsViaInOrder(l, k);
      BoundsViaInOrder(r, k);
    }
  }

  lemma BoundsViaInOrder<D>(t: Tree<D>, k: int)
    ensures SetBelow(Keys(t), k) <==> AllBelow(InOrderKeys(t), k)
    ensures SetAbove(Keys(t), k) <==> AllAbove(InOrderKeys(t), k)
  {
    KeysAreInOrderKeys(t);
    SameMembersBounds(Keys(t), InOrderKeys(t), k);
  }

  /** Rebuilding a subtree with the same in-order keys (as every rotation does) keeps it ordered. */
  lemma SameInOrderKeysOrdered<D>(a: Tree<D>, b: Tree<D>)
    requires InOrderKeys(a) == InOrderKeys(b) && Ordered(a)
    ensures Ordered(b)
  {
    OrderedIffIncreasing(a);
    OrderedIffIncreasing(b);
  }

  // ----- Traversals -----

  lemma {:induction false} TraversalLengths<D>(t: Tree<D>)
    ensures |InOrder(t)| == Size(t) && |PreOrder(t)| == Size(t) && |PostOrder(t)| == Size(t)
    ensures |InOrderKeys(t)| == Size(t)
  {
    if t.Node? {
      TraversalLengths(t.left);
      TraversalLengths(t.right);
    }
  }

  /** In an ordered tree the node count is the number of distinct keys. */
  lemma {:induction false} SizeIsKeyCount<D>(t: Tree<D>)
    requires Ordered(t)
    ensures Size(t) == |Keys(t)|
  {
    if t.Node? {
      SizeIsKeyCount(t.left);
      SizeIsKeyCount(t.right);
      assert Keys(t.left) !! Keys(t.right) by {
        forall j | j in Keys(t.left) ensures j !in Keys(t.right) { }
      }
      assert t.key !in Keys(t.left) + Keys(t.right);
      assert Keys(t) == (Keys(t.left) + Keys(t.right)) + {t.key};
    }
  }

  /** Pre-, in- and post-order enumerate the same payloads, each in its own order. */
  lemma {:induction false} TraversalsSamePayloads<D>(t: Tree<D>)
    ensures multiset(PreOrder(t)) == multiset(InOrder(t))
    ensures multiset(PostOrder(t)) == multiset(InOrder(t))
  {
    if t.Node? {
      TraversalsSamePayloads(t.left);
      TraversalsSamePayloads(t.right);
    }
  }

  /** The i-th in-order payload is the payload stored under the i-th smallest key. */
  lemma {:induction false} InOrderIsSortedContents<D>(t: Tree<D>)
    requires Ordered(t)
    ensures Increasing(InOrderKeys(t))
    ensures |InOrder(t)| == |InOrderKeys(t)| == |Keys(t)|
    ensures forall i :: 0 <= i < |InOrder(t)| ==>
              InOrderKeys(t)[i] in Contents(t) && InOrder(t)[i] == Contents(t)[InOrderKeys(t)[i]]
  {
    OrderedIffIncreasing(t);
    TraversalLengths(t);
    SizeIsKeyCount(t);
    if t.Node? {
      var l, k, d, r := t.left, t.key, t.data, t.right;
      InOrderIsSortedContents(l);
      InOrderIsSortedContents(r);
      ContentsKeys(l);
      ContentsKeys(r);
      var ks, ps := InOrderKeys(t), InOrder(t);
      forall i | 0 <= i < |ps| ensures ks[i] in Contents(t) && ps[i] == Contents(t)[ks[i]] {
        var nl := |InOrder(l)|;
        if i < nl {
          assert ks[i] == InOrderKeys(l)[i] && ps[i] == InOrder(l)[i];
          assert ks[i] < k;
          assert ks[i] !in Keys(r);
        } else if i == nl {
          assert ks[i] == k && ps[i] == d;
          assert k !in Keys(r);
        } else {
          assert ks[i] == InOrderKeys(r)[i - nl - 1] && ps[i] == InOrder(r)[i - nl - 1];
        }
      }
    }
  }

  // ----- Search -----

  /** Search finds exactly what the tree stores. */
  lemma {:induction false} FindIsLookup<D>(t: Tree<D>, k: int)
    requires Ordered(t)
    ensures Find(t, k) == if k in Contents(t) then Some(Contents(t)[k]) else None
  {
    if t.Node? {
      ContentsKeys(t.left);
      ContentsKeys(t.right);
      if k < t.key {
        FindIsLookup(t.left, k);
        assert k !in Keys(t.right);
      } else if k > t.key {
        FindIsLookup(t.right, k);
        assert k !in Keys(t.left);
      } else {
        assert k !in Keys(t.right);
      }
    }
  }

  // ----- Extremes -----

  lemma {:induction false} MinNodeIsMin<D>(t: Tree<D>)
    requires Ordered(t) && t.Node?
    ensures forall j :: j in Keys(t) ==> MinNode(t).key <= j
    ensures MinNode(t).key in Contents(t) && Contents(t)[MinNode(t).key] == MinNode(t).data
  {
    ContentsKeys(t.left);
    ContentsKeys(t.right);
    if t.left.Node? {
      MinNodeIsMin(t.left);
      assert MinNode(t).key !in Keys(t.right);
    } else {
      assert t.key !in Keys(t.right);
    }
  }

  lemma {:induction false} MaxNodeIsMax<D>(t: Tree<D>)
    requires Ordered(t) && t.Node?
    ensures forall j :: j in Keys(t) ==> j <= MaxNode(t).key
    ensures MaxNode(t).key in Contents(t) && Contents(t)[MaxNode(t).key] == MaxNode(t).data
  {
    ContentsKeys(t.left);
    ContentsKeys(t.right);
    if t.right.Node? {
      MaxNodeIsMax(t.right);
    } else {
      assert t.key !in Keys(t.left);
    }
  }

  // ----- Rebalancing: what a subtree stores -----

  /** Same entries in the same in-order positions: what a rotation must not change. */
  ghost predicate SameEntries<D>(a: Tree<D>, b: Tree<D>) {
    InOrder(a) == InOrder(b) && InOrderKeys(a) == InOrderKeys(b) &&
    Keys(a) == Keys(b) && Contents(a) == Contents(b) && Size(a) == Size(b)
  }

  /** A rotation moves entries between levels without changing what the subtree maps. */
  lemma ContentsRegroup<D>(a: Tree<D>, x: int, dx: D, b: Tree<D>, y: int, dy: D, c: Tree<D>, h1: int, h2: int, h3: int, h4: int)
    ensures Contents(Node(Node(a, x, dx, h1, b), y, dy, h2, c)) == Contents(Node(a, x, dx, h3, Node(b, y, dy, h4, c)))
  {
    UnionRegroup(Contents(a), map[x := dx], Contents(b), map[y := dy], Contents(c));
  }

  lemma UnionRegroup<D>(m1: map<int, D>, m2: map<int, D>, m3: map<int, D>, m4: map<int, D>, m5: map<int, D>)
    ensures (m1 + m2 + m3) + m4 + m5 == m1 + m2 + (m3 + m4 + m5)
  {
    var l, r := (m1 + m2 + m3) + m4 + m5, m1 + m2 + (m3 + m4 + m5);
    assert l.Keys == r.Keys;
    forall k | k in l ensures l[k] == r[k] { }
  }

  /** A left rotation only regroups the entries. */
  lemma RotateLeftKeepsEntries<D>(z: Tree<D>)
    requires z.Node?
    ensures SameEntries(RotateLeft(z), z)
  {
    if z.right.Node? {
      var y := z.right;
      var z' := WithHeight(Node(z.left, z.key, z.data, z.height, y.left));
      var r := RotateLeft(z);
      ContentsRegroup(z.left, z.key, z.data, y.left, y.key, y.data, y.right, z'.height, r.height, z.height, y.height);
    }
  }

  /** A right rotation only regroups the entries. */
  lemma RotateRightKeepsEntries<D>(z: Tree<D>)
    requires z.Node?
    ensures SameEntries(RotateRight(z), z)
  {
    if z.left.Node? {
      var y := z.left;
      var z' := WithHeight(Node(y.right, z.key, z.data, z.height, z.right));
      var r := RotateRight(z);
      ContentsRegroup(y.left, y.key, y.data, y.right, z.key, z.data, z.right, y.height, z.height, r.height, z'.height);
    }
  }

  /** Replacing a child by one with the same entries keeps the node's entries. */
  lemma ReplaceChildKeepsEntries<D>(n: Tree<D>, l: Tree<D>, r: Tree<D>)
    requires n.Node? && SameEntries(l, n.left) && SameEntries(r, n.right)
    ensures SameEntries(Node(l, n.key, n.data, n.height, r), n)
  {
  }

  /** The insert-path rebalancing keeps the entries, whichever rotation it picks. */
  lemma RebalanceInsertKeepsEntries<D>(n: Tree<D>, k: int)
    requires n.Node?
    ensures SameEntries(RebalanceInsert(n, k), n)
  {
    var m := WithHeight(n);
    assert SameEntries(m, n);
    var b := Balance(m);
    if b > 1 && m.left.Node? && k < m.left.key {
      RotateRightKeepsEntries(m);
    } else if b < -1 && m.right.Node? && k > m.right.key {
      RotateLeftKeepsEntries(m);
    } else if b > 1 && m.left.Node? && k > m.left.key {
      RotateLeftKeepsEntries(m.left);
      ReplaceChildKeepsEntries(m, RotateLeft(m.left), m.right);
      RotateRightKeepsEntries(m.(left := RotateLeft(m.left)));
    } else if b < -1 && m.right.Node? && k < m.right.key {
      RotateRightKeepsEntries(m.right);
      ReplaceChildKeepsEntries(m, m.left, RotateRight(m.right));
      RotateLeftKeepsEntries(m.(right := RotateRight(m.right)));
    }
  }

  /** The delete-path rebalancing keeps the entries, whichever rotation it picks. */
  lemma RebalanceDeleteKeepsEntries<D>(n: Tree<D>)
    requires n.Node?
    ensures SameEntries(RebalanceDelete(n), n)
  {
    var m := WithHeight(n);
    assert SameEntries(m, n);
    var b := Balance(m);
    if b > 1 && Balance(m.left) >= 0 {
      RotateRightKeepsEntries(m);
    } else if b > 1 && Balance(m.left) < 0 {
      RotateLeftKeepsEntries(m.left);
      ReplaceChildKeepsEntries(m, RotateLeft(m.left), m.right);
      RotateRightKeepsEntries(m.(left := RotateLeft(m.left)));
    } else if b < -1 && Balance(m.right) <= 0 {
      RotateLeftKeepsEntries(m);
    } else if b < -1 && Balance(m.right) > 0 {
      RotateRightKeepsEntries(m.right);
      ReplaceChildKeepsEntries(m, m.left, RotateRight(m.right));
      RotateLeftKeepsEntries(m.(right := RotateRight(m.right)));
    }
  }

  // ----- Rebalancing: heights and balance factors -----

  /** Both height invariants at once. */
  ghost predicate Sound<D>(t: Tree<D>) {
    HeightsOk(t) && Balanced(t)
  }

  /** Left-left: one right rotation repairs a node whose left side is two levels taller. */
  lemma {:induction false} FixLeftHeavySingle<D>(l: Tree<D>, x: int, d: D, h: int, r: Tree<D>)
    requires Sound(l) && Sound(r)
    requires Height(l) == Height(r) + 2 && Balance(l) >= 0
    ensures l.Node?
    ensures var t := RotateRight(Node(l, x, d, h, r));
            Sound(t) && Height(t) == Height(l) + (if Balance(l) == 0 then 1 else 0)
  {
    HeightsOkNonneg(r);
    HeightsOkNonneg(l.left);
    HeightsOkNonneg(l.right);
    var z' := WithHeight(Node(l.right, x, d, h, r));
    assert Sound(z');
  }

  /** Left-right: rotating the left child left, then the node right, repairs it. */
  lemma {:induction false} FixLeftHeavyDouble<D>(l: Tree<D>, x: int, d: D, h: int, r: Tree<D>)
    requires Sound(l) && Sound(r)
    requires Height(l) == Height(r) + 2 && Balance(l) < 0
    ensures l.Node? && l.right.Node?
    ensures var t := RotateRight(Node(RotateLeft(l), x, d, h, r));
            Sound(t) && Height(t) == Height(l)
  {
    HeightsOkNonneg(r);
    HeightsOkNonneg(l.left);
    HeightsOkNonneg(l.right);
    var c := l.right;
    assert Sound(c) && -1 <= Balance(c) <= 1 && c.height == 1 + Max(Height(c.left), Height(c.right));
    assert Sound(c.left) && Sound(c.right) && Sound(l.left);
    HeightsOkNonneg(c.left);
    HeightsOkNonneg(c.right);
    var y' := WithHeight(Node(l.left, l.key, l.data, l.height, c.left));
    assert Sound(y');
    var w := WithHeight(Node(y', c.key, c.data, c.height, c.right));
    assert RotateLeft(l) == w;
    var x' := WithHeight(Node(c.right, x, d, h, r));
    assert Sound(x');
  }

  /** Right-right: one left rotation repairs a node whose right side is two levels taller. */
  lemma {:induction false} FixRightHeavySingle<D>(l: Tree<D>, x: int, d: D, h: int, r: Tree<D>)
    requires Sound(l) && Sound(r)
    requires Height(r) == Height(l) + 2 && Balance(r) <= 0
    ensures r.Node?
    ensures var t := RotateLeft(Node(l, x, d, h, r));
            Sound(t) && Height(t) == Height(r) + (if Balance(r) == 0 then 1 else 0)
  {
    HeightsOkNonneg(l);
    HeightsOkNonneg(r.left);
    HeightsOkNonneg(r.right);
    var z' := WithHeight(Node(l, x, d, h, r.left));
    assert Sound(z');
  }

  /** Right-left: rotating the right child right, then the node left, repairs it. */
  lemma {:induction false} FixRightHeavyDouble<D>(l: Tree<D>, x: int, d: D, h: int, r: Tree<D>)
    requires Sound(l) && Sound(r)
    requires Height(r) == Height(l) + 2 && Balance(r) > 0
    ensures r.Node? && r.left.Node?
    ensures var t := RotateLeft(Node(l, x, d, h, RotateRight(r)));
            Sound(t) && Height(t) == Height(r)
  {
    HeightsOkNonneg(l);
    HeightsOkNonneg(r.left);
    HeightsOkNonneg(r.right);
    var c := r.left;
    assert Sound(c) && -1 <= Balance(c) <= 1 && c.height == 1 + Max(Height(c.left), Height(c.right));
    assert Sound(c.left) && Sound(c.right) && Sound(r.right);
    HeightsOkNonneg(c.left);
    HeightsOkNonneg(c.right);
    var y' := WithHeight(Node(c.right, r.key, r.data, r.height, r.right));
    assert Sound(y');
    var w := WithHeight(Node(c.left, c.key, c.data, c.height, y'));
    assert RotateRight(r) == w;
    var x' := WithHeight(Node(l, x, d, h, c.left));
    assert Sound(x');
  }

  /**
    The delete-path rebalancing of a node whose children are sound and differ
    in height by at most two: the result is sound; it is the node itself (with
    its height recomputed) when no rotation is due, and otherwise as tall as the
    taller child, one more when that child was perfectly balanced.
  */
  lemma {:induction false} RebalanceDeleteSound<D>(n: Tree<D>)
    requires n.Node? && Sound(n.left) && Sound(n.right)
    requires -2 <= Height(n.left) - Height(n.right) <= 2
    ensures Sound(RebalanceDelete(n))
    ensures -1 <= Height(n.left) - Height(n.right) <= 1 ==> RebalanceDelete(n) == WithHeight(n)
    ensures Height(n.left) - Height(n.right) == 2 ==>
              Height(RebalanceDelete(n)) == Height(n.left) + (if Balance(n.left) == 0 then 1 else 0)
    ensures Height(n.left) - Height(n.right) == -2 ==>
              Height(RebalanceDelete(n)) == Height(n.right) + (if Balance(n.right) == 0 then 1 else 0)
  {
    var m := WithHeight(n);
    var l, x, d, r := n.left, n.key, n.data, n.right;
    var diff := Height(l) - Height(r);
    HeightsOkNonneg(l);
    HeightsOkNonneg(r);
    if diff == 2 {
      if Balance(l) >= 0 {
        FixLeftHeavySingle(l, x, d, m.height, r);
      } else {
        FixLeftHeavyDouble(l, x, d, m.height, r);
        assert m.(left := RotateLeft(m.left)) == Node(RotateLeft(l), x, d, m.height, r);
      }
    } else if diff == -2 {
      if Balance(r) <= 0 {
        FixRightHeavySingle(l, x, d, m.height, r);
      } else {
        FixRightHeavyDouble(l, x, d, m.height, r);
        assert m.(right := RotateRight(m.right)) == Node(l, x, d, m.height, RotateRight(r));
      }
    } else {
      assert Sound(m);
    }
  }

  /**
    On the insert path, where the taller grandchild lies on the side of the new
    key, comparing keys picks the same rotation as comparing balance factors.
  */
  lemma {:induction false} RebalanceInsertAgrees<D>(n: Tree<D>, k: int)
    requires n.Node? && Sound(n.left) && Sound(n.right)
    requires -2 <= Height(n.left) - Height(n.right) <= 2
    requires Height(n.left) - Height(n.right) == 2 ==>
               n.left.Node? && ((k < n.left.key && Balance(n.left) == 1) || (k > n.left.key && Balance(n.left) == -1))
    requires Height(n.left) - Height(n.right) == -2 ==>
               n.right.Node? && ((k > n.right.key && Balance(n.right) == -1) || (k < n.right.key && Balance(n.right) == 1))
    ensures RebalanceInsert(n, k) == RebalanceDelete(n)
  {
  }

  /** How an insertion changes the height of a subtree (the AVL insertion invariant). */
  ghost predicate InsertHeight<D>(t: Tree<D>, t': Tree<D>, k: int) {
    Height(t') == Height(t) ||
    (Height(t') == Height(t) + 1 &&
     (t.Node? ==> t'.Node? && t'.key == t.key && Balance(t') == (if k < t.key then 1 else -1)))
  }

  /** What a successful insertion of `k` with payload `d` into `t` produced. */
  ghost predicate Inserted<D>(t: Tree<D>, t': Tree<D>, k: int, d: D) {
    Avl(t') && Keys(t') == Keys(t) + {k} && Contents(t') == Contents(t)[k := d] &&
    Size(t') == Size(t) + 1 && t'.Node? && InsertHeight(t, t', k)
  }

  /**
    Insertion into an AVL tree: it fails with a duplicate exactly when the key
    is stored, fails with the node's range error exactly when a new key lies
    outside 0..999999, and otherwise yields an AVL tree holding the old
    contents plus the new entry.
  */
  lemma {:induction false} InsertSound<D>(t: Tree<D>, k: int, d: D)
    requires Avl(t)
    ensures Insert(t, k, d).Err? <==> (k in Keys(t) || !InRange(k))
    ensures k in Keys(t) ==> Insert(t, k, d) == Err(DuplicateDocument(k))
    ensures k !in Keys(t) && !InRange(k) ==> Insert(t, k, d) == Err(InvalidDocument(OutOfRange))
    ensures Insert(t, k, d).Ok? ==> Inserted(t, Insert(t, k, d).value, k, d)
  {
    match t
    case Nil =>
    case Node(l, x, dx, h, r) =>
      HeightsOkNonneg(l);
      HeightsOkNonneg(r);
      ContentsKeys(l);
      ContentsKeys(r);
      if k < x {
        InsertSound(l, k, d);
        assert k !in Keys(r);
        if Insert(l, k, d).Ok? {
          var l' := Insert(l, k, d).value;
          InsertLeftStep(l, x, dx, h, r, k, d, l');
        }
      } else if k > x {
        InsertSound(r, k, d);
        assert k !in Keys(l);
        if Insert(r, k, d).Ok? {
          var r' := Insert(r, k, d).value;
          InsertRightStep(l, x, dx, h, r, k, d, r');
        }
      }
  }

  /** Rebalancing after the left subtree grew by an insertion keeps the node sound and the insertion invariant. */
  lemma {:induction false} InsertLeftBalance<D>(l: Tree<D>, x: int, dx: D, h: int, r: Tree<D>, k: int, l': Tree<D>)
    requires Sound(Node(l, x, dx, h, r)) && Sound(l') && k < x
    requires l.Node? ==> k != l.key
    requires InsertHeight(l, l', k)
    ensures Sound(RebalanceInsert(Node(l', x, dx, h, r), k))
    ensures InsertHeight(Node(l, x, dx, h, r), RebalanceInsert(Node(l', x, dx, h, r), k), k)
  {
    var n := Node(l', x, dx, h, r);
    HeightsOkNonneg(l);
    HeightsOkNonneg(r);
    HeightsOkNonneg(l');
    RebalanceInsertAgrees(n, k);
    RebalanceDeleteSound(n);
  }

  /** Mirror image of InsertLeftBalance. */
  lemma {:induction false} InsertRightBalance<D>(l: Tree<D>, x: int, dx: D, h: int, r: Tree<D>, k: int, r': Tree<D>)
    requires Sound(Node(l, x, dx, h, r)) && Sound(r') && k > x
    requires r.Node? ==> k != r.key
    requires InsertHeight(r, r', k)
    ensures Sound(RebalanceInsert(Node(l, x, dx, h, r'), k))
    ensures InsertHeight(Node(l, x, dx, h, r), RebalanceInsert(Node(l, x, dx, h, r'), k), k)
  {
    var n := Node(l, x, dx, h, r');
    HeightsOkNonneg(l);
    HeightsOkNonneg(r);
    HeightsOkNonneg(r');
    RebalanceInsertAgrees(n, k);
    RebalanceDeleteSound(n);
  }

  /** Replacing a child whose contents gained the entry `k := d` gives the parent that entry too. */
  lemma ContentsReplaceChild<D>(t: Tree<D>, t': Tree<D>, k: int, d: D)
    requires t.Node? && t'.Node? && t'.key == t.key && t'.data == t.data && k != t.key
    requires (Contents(t'.left) == Contents(t.left)[k := d] && t'.right == t.right && k !in Keys(t.right)) ||
             (Contents(t'.right) == Contents(t.right)[k := d] && t'.left == t.left)
    ensures Contents(t') == Contents(t)[k := d]
  {
    ContentsKeys(t.right);
  }

  lemma {:induction false} InsertLeftStep<D>(l: Tree<D>, x: int, dx: D, h: int, r: Tree<D>, k: int, d: D, l': Tree<D>)
    requires Avl(Node(l, x, dx, h, r)) && k < x && k !in Keys(l)
    requires Inserted(l, l', k, d)
    ensures Inserted(Node(l, x, dx, h, r), RebalanceInsert(Node(l', x, dx, h, r), k), k, d)
  {
    var t := Node(l, x, dx, h, r);
    var n := Node(l', x, dx, h, r);
    if l.Node? {
      assert l.key in Keys(l);
    }
    InsertLeftBalance(l, x, dx, h, r, k, l');
    assert Ordered(n);
    var t' := RebalanceInsert(n, k);
    RebalanceInsertKeepsEntries(n, k);
    SameInOrderKeysOrdered(n, t');
    ContentsReplaceChild(t, n, k, d);
  }

  lemma {:induction false} InsertRightStep<D>(l: Tree<D>, x: int, dx: D, h: int, r: Tree<D>, k: int, d: D, r': Tree<D>)
    requires Avl(Node(l, x, dx, h, r)) && k > x && k !in Keys(r)
    requires Inserted(r, r', k, d)
    ensures Inserted(Node(l, x, dx, h, r), RebalanceInsert(Node(l, x, dx, h, r'), k), k, d)
  {
    var t := Node(l, x, dx, h, r);
    var n := Node(l, x, dx, h, r');
    if r.Node? {
      assert r.key in Keys(r);
    }
    InsertRightBalance(l, x, dx, h, r, k, r');
    assert Ordered(n);
    var t' := RebalanceInsert(n, k);
    RebalanceInsertKeepsEntries(n, k);
    SameInOrderKeysOrdered(n, t');
    ContentsReplaceChild(t, n, k, d);
  }

  // ----- Deletion -----

  /** What a deletion of `k` from `t` produced: `removed` says whether `k` was stored. */
  ghost predicate Deleted<D>(t: Tree<D>, res: Removal<D>, k: int) {
    res.removed == (k in Keys(t)) && Avl(res.tree) &&
    Keys(res.tree) == Keys(t) - {k} && Contents(res.tree) == Contents(t) - {k} &&
    Size(res.tree) == Size(t) - (if res.removed then 1 else 0) &&
    (Height(res.tree) == Height(t) || Height(res.tree) == Height(t) - 1)
  }

  /**
    Rebalancing a node whose children each kept their height or lost one
    gives a sound node that is as tall as before or one shorter.
  */
  lemma {:induction false} DeleteBalance<D>(t: Tree<D>, l: Tree<D>, x: int, d: D, h: int, r: Tree<D>)
    requires t.Node? && Sound(t) && Sound(l) && Sound(r)
    requires Height(l) == Height(t.left) || Height(l) == Height(t.left) - 1
    requires Height(r) == Height(t.right) || Height(r) == Height(t.right) - 1
    ensures Sound(RebalanceDelete(Node(l, x, d, h, r)))
    ensures var h' := Height(RebalanceDelete(Node(l, x, d, h, r)));
            h' == Height(t) || h' == Height(t) - 1
  {
    HeightsOkNonneg(t.left);
    HeightsOkNonneg(t.right);
    RebalanceDeleteSound(Node(l, x, d, h, r));
  }

  lemma MinusLeft<D>(a: map<int, D>, x: int, dx: D, b: map<int, D>, k: int)
    requires k != x && k !in b
    ensures (a - {k}) + map[x := dx] + b == (a + map[x := dx] + b) - {k}
  {
    var lhs := (a - {k}) + map[x := dx] + b;
    var rhs := (a + map[x := dx] + b) - {k};
    assert lhs.Keys == rhs.Keys;
    forall j | j in lhs ensures lhs[j] == rhs[j] { }
  }

  lemma MinusRight<D>(a: map<int, D>, x: int, dx: D, b: map<int, D>, k: int)
    requires k != x && k !in a
    ensures a + map[x := dx] + (b - {k}) == (a + map[x := dx] + b) - {k}
  {
    var lhs := a + map[x := dx] + (b - {k});
    var rhs := (a + map[x := dx] + b) - {k};
    assert lhs.Keys == rhs.Keys;
    forall j | j in lhs ensures lhs[j] == rhs[j] { }
  }

  /** Replacing the root entry `x` by the right part's entry `s`, which leaves that part. */
  lemma MinusRoot<D>(a: map<int, D>, x: int, dx: D, b: map<int, D>, s: int)
    requires x !in a && x !in b && s in b
    ensures a + map[s := b[s]] + (b - {s}) == (a + map[x := dx] + b) - {x}
  {
    var lhs := a + map[s := b[s]] + (b - {s});
    var rhs := (a + map[x := dx] + b) - {x};
    forall j ensures j in lhs <==> j in rhs {
      if j == s { assert j in lhs && j in rhs; }
    }
    assert lhs.Keys == rhs.Keys;
    forall j | j in lhs ensures lhs[j] == rhs[j] { }
  }

  lemma {:induction false} DeleteLeftStep<D>(t: Tree<D>, k: int, res: Removal<D>)
    requires Avl(t) && t.Node? && k < t.key && Deleted(t.left, res, k)
    ensures Deleted(t, Removal(RebalanceDelete(Node(res.tree, t.key, t.data, t.height, t.right)), res.removed), k)
  {
    var n := Node(res.tree, t.key, t.data, t.height, t.right);
    DeleteBalance(t, res.tree, t.key, t.data, t.height, t.right);
    assert Ordered(n);
    RebalanceDeleteKeepsEntries(n);
    SameInOrderKeysOrdered(n, RebalanceDelete(n));
    ContentsKeys(t.right);
    MinusLeft(Contents(t.left), t.key, t.data, Contents(t.right), k);
  }

  lemma {:induction false} DeleteRightStep<D>(t: Tree<D>, k: int, res: Removal<D>)
    requires Avl(t) && t.Node? && k > t.key && Deleted(t.right, res, k)
    ensures Deleted(t, Removal(RebalanceDelete(Node(t.left, t.key, t.data, t.height, res.tree)), res.removed), k)
  {
    var n := Node(t.left, t.key, t.data, t.height, res.tree);
    DeleteBalance(t, t.left, t.key, t.data, t.height, res.tree);
    assert Ordered(n);
    RebalanceDeleteKeepsEntries(n);
    SameInOrderKeysOrdered(n, RebalanceDelete(n));
    ContentsKeys(t.left);
    MinusRight(Contents(t.left), t.key, t.data, Contents(t.right), k);
  }

  lemma SuccessorOrdered<D>(t: Tree<D>, r: Tree<D>)
    requires Ordered(t) && t.Node? && t.right.Node? && Ordered(r)
    requires Keys(r) == Keys(t.right) - {MinNode(t.right).key}
    ensures Ordered(Node(t.left, MinNode(t.right).key, MinNode(t.right).data, t.height, r))
  {
    MinNodeIsMin(t.right);
  }

  /** Moving the right subtree's minimum up in place of the root drops exactly the root's entry. */
  lemma SuccessorEntries<D>(t: Tree<D>, r: Tree<D>)
    requires Ordered(t) && t.Node? && t.right.Node?
    requires Contents(r) == Contents(t.right) - {MinNode(t.right).key}
    ensures var n := Node(t.left, MinNode(t.right).key, MinNode(t.right).data, t.height, r);
            Contents(n) == Contents(t) - {t.key}
  {
    var s := MinNode(t.right);
    MinNodeIsMin(t.right);
    ContentsKeys(t.left);
    ContentsKeys(t.right);
    assert t.key !in Keys(t.left) && t.key !in Keys(t.right);
    MinusRoot(Contents(t.left), t.key, t.data, Contents(t.right), s.key);
  }

  lemma SuccessorKeys<D>(t: Tree<D>, r: Tree<D>)
    requires Ordered(t) && t.Node? && t.right.Node?
    requires Keys(r) == Keys(t.right) - {MinNode(t.right).key}
    ensures Keys(Node(t.left, MinNode(t.right).key, MinNode(t.right).data, t.height, r)) == Keys(t) - {t.key}
  {
    assert t.key !in Keys(t.left) && t.key !in Keys(t.right);
  }

  /** The two-children case: the successor's entry moves up and is deleted from the right subtree. */
  lemma {:induction false} DeleteSuccessorStep<D>(t: Tree<D>, res: Removal<D>)
    requires Avl(t) && t.Node? && t.left.Node? && t.right.Node?
    requires Deleted(t.right, res, MinNode(t.right).key)
    ensures var s := MinNode(t.right);
            Deleted(t, Removal(RebalanceDelete(Node(t.left, s.key, s.data, t.height, res.tree)), res.removed), t.key)
  {
    var s := MinNode(t.right);
    var n := Node(t.left, s.key, s.data, t.height, res.tree);
    DeleteBalance(t, t.left, s.key, s.data, t.height, res.tree);
    SuccessorOrdered(t, res.tree);
    SuccessorEntries(t, res.tree);
    SuccessorKeys(t, res.tree);
    RebalanceDeleteKeepsEntries(n);
    SameInOrderKeysOrdered(n, RebalanceDelete(n));
    assert res.removed;
  }

  /** A node with at most one child is replaced by that child. */
  lemma DeleteOneChildStep<D>(t: Tree<D>)
    requires Avl(t) && t.Node? && (t.left.Nil? || t.right.Nil?)
    ensures Deleted(t, Removal(if t.left.Nil? then t.right else t.left, true), t.key)
  {
    HeightsOkNonneg(t.left);
    HeightsOkNonneg(t.right);
    ContentsKeys(t.left);
    ContentsKeys(t.right);
    assert t.key !in Keys(t.left) && t.key !in Keys(t.right);
  }

  /**
    Deletion from an AVL tree: it reports a removal exactly when the key was
    stored, keeps the AVL invariant, removes exactly that entry, and leaves the
    tree as tall as before or one shorter.
  */
  lemma {:induction false} DeleteSound<D>(t: Tree<D>, k: int)
    requires Avl(t)
    ensures Deleted(t, Delete(t, k), k)
  {
    match t
    case Nil =>
    case Node(l, x, dx, h, r) =>
      if k < x {
        DeleteSound(l, k);
        DeleteLeftStep(t, k, Delete(l, k));
      } else if k > x {
        DeleteSound(r, k);
        DeleteRightStep(t, k, Delete(r, k));
      } else if l.Nil? || r.Nil? {
        DeleteOneChildStep(t);
      } else {
        var s := MinNode(r);
        DeleteSound(r, s.key);
        DeleteSuccessorStep(t, Delete(r, s.key));
      }
  }

  /** Deleting a key that is not stored hands back the very same tree and reports no removal. */
  lemma {:induction false} DeleteAbsent<D>(t: Tree<D>, k: int)
    requires Avl(t) && k !in Keys(t)
    ensures Delete(t, k) == Removal(t, false)
  {
    match t
    case Nil =>
    case Node(l, x, dx, h, r) =>
      if k < x {
        DeleteAbsent(l, k);
      } else {
        DeleteAbsent(r, k);
      }
  }
}
