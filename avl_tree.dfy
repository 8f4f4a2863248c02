/**
  The AVL tree of `api_avl` as the program runs it: `Node` objects whose
  fields the tree overwrites in place, and an `AVLTree` object holding the
  root and the size counter. Each node keeps a ghost footprint `Repr` (the
  nodes of its subtree) and a ghost `Model`, the AvlSpec value of its
  subtree; every method is proved to produce the value the matching AvlSpec
  function computes, and the AVL invariant is carried by AVLTree.Valid()
  through the lemmas of AvlProofs.
*/
module AvlTree {
  import opened Wrappers
  import opened Documents
  import opened AvlSpec
  import opened AvlProofs

  /** The nodes of the subtree `n` heads; nothing when the link is absent. */
  ghost function ReprOf<D>(n: Node?<D>): set<object>
    reads n
  {
    if n == null then {} else n.Repr
  }

  /** The value of the subtree `n` heads; `Nil` when the link is absent. */
  ghost function ModelOf<D>(n: Node?<D>): Tree<D>
    reads n
  {
    if n == null then Nil else n.Model
  }

  /** A subtree that is either absent or well formed. */
  ghost predicate ValidLink<D>(n: Node?<D>)
    reads n, ReprOf(n)
  {
    n != null ==> n.Valid()
  }

  /** The node record of node.py: a key, a payload, two links and a cached height. */
  class Node<D> {
    var document: int
    var data: D
    var left: Node?<D>
    var right: Node?<D>
    var height: int
    ghost var Repr: set<object>
    ghost var Model: Tree<D>

    /** The subtree is a finite tree of distinct nodes, and `Model` is its value. */
    ghost predicate Valid()
      reads this, Repr
      decreases Repr
    {
      this in Repr &&
      (left != null ==> left in Repr && left in left.Repr && left.Repr <= Repr && this !in left.Repr && left.Valid()) &&
      (right != null ==> right in Repr && right in right.Repr && right.Repr <= Repr && this !in right.Repr && right.Valid()) &&
      (left != null && right != null ==> left.Repr !! right.Repr) &&
      Model == Tree.Node(ModelOf(left), document, data, height, ModelOf(right))
    }

    /** The dataclass defaults: no children, height 1. */
    constructor Leaf(document: int, data: D)
      ensures Valid() && Repr == {this}
      ensures Model == Tree.Node(Nil, document, data, 1, Nil)
    {
      this.document := document;
      this.data := data;
      left := null;
      right := null;
      height := 1;
      Repr := {this};
      Model := Tree.Node(Nil, document, data, 1, Nil);
    }

    /**
      Stores both links and the cached height, the field writes the tree
      makes on one node while it relinks (the footprint is recomputed).
    */
    method Relink(l: Node?<D>, r: Node?<D>, h: int)
      requires ValidLink(l) && ValidLink(r)
      requires this !in ReprOf(l) && this !in ReprOf(r) && ReprOf(l) !! ReprOf(r)
      modifies this
      ensures Valid() && left == l && right == r && height == h
      ensures document == old(document) && data == old(data)
      ensures Repr == {this} + ReprOf(l) + ReprOf(r)
      ensures Model == Tree.Node(ModelOf(l), document, data, h, ModelOf(r))
    {
      left, right, height := l, r, h;
      Repr := {this} + ReprOf(l) + ReprOf(r);
      Model := Tree.Node(ModelOf(l), document, data, h, ModelOf(r));
    }

    /** Overwrites the cached height; everything else stays. */
    method SetHeight(h: int)
      requires Valid()
      modifies this
      ensures Valid() && Repr == old(Repr) && left == old(left) && right == old(right)
      ensures Model == old(Model).(height := h)
    {
      height := h;
      Model := Model.(height := h);
    }

    /** Overwrites the key and payload with those of another node; links and height stay. */
    method CopyEntry(from: Node<D>)
      requires Valid() && from != this
      modifies this
      ensures Valid() && Repr == old(Repr)
      ensures Model == old(Model).(key := from.document, data := from.data)
    {
      document := from.document;
      data := from.data;
      Model := Model.(key := document, data := data);
    }

    /**
      `Node(document=..., data=...)` with `__post_init__`: a string document
      is converted, anything else than an int or a string is refused, and the
      key must lie in 0..999999.
    */
    static method Create(document: DocArg, data: D) returns (r: Result<Node<D>, DocError>)
      ensures r.Err? <==> NormalizeDocument(document).Err?
      ensures r.Err? ==> r.error == NormalizeDocument(document).error
      ensures r.Ok? ==> fresh(r.value) && r.value.Valid() && r.value.Repr == {r.value} &&
                        r.value.Model == Tree.Node(Nil, NormalizeDocument(document).value, data, 1, Nil) &&
                        InRange(r.value.document)
    {
      var k := NormalizeDocument(document);
      if k.Err? {
        r := Err(k.error);
      } else {
        var n := new Node.Leaf(k.value, data);
        r := Ok(n);
      }
    }
  }

  /** What `insert` does with a child record: its `document` entry (absent, an int, or a string) and the record itself. */
  ghost function InsertOutcome<D>(t: Tree<D>, document: Option<KeyArg>, child: D): Result<Tree<D>, TreeError> {
    match document
    case None => Err(MissingDocument)
    case Some(arg) =>
      match KeyOf(arg)
      case None => Err(TreeError.NotConvertible)
      case Some(k) => Insert(t, k, child)
  }

  /** `AVLTree`: the root link and the node counter `_size`. */
  class AVLTree<D> {
    var root: Node?<D>
    var size: int
    ghost var Repr: set<object>

    /** The value of the whole tree. */
    ghost function Model(): Tree<D>
      reads this, root
    {
      ModelOf(root)
    }

    /** The tree's invariant: a well-formed AVL tree of in-range keys whose counter is its node count. */
    ghost predicate Valid()
      reads this, Repr
    {
      this in Repr &&
      (root != null ==> root in Repr && root.Repr <= Repr && this !in root.Repr && root.Valid()) &&
      Avl(ModelOf(root)) && KeysInRange(ModelOf(root)) && size == AvlSpec.Size(ModelOf(root))
    }

    constructor ()
      ensures Valid() && fresh(Repr) && Model() == Nil && size == 0
    {
      root := null;
      size := 0;
      Repr := {this};
    }

    // ----- Heights and balance factors -----

    /** `get_height`: the cached height of a subtree, 0 when absent. */
    function GetHeight(node: Node?<D>): (h: int)
      requires ValidLink(node)
      reads node, ReprOf(node)
      ensures h == Height(ModelOf(node))
    {
      if node == null then 0 else node.height
    }

    /** `get_balance`: left cached height minus right cached height, 0 when absent. */
    function GetBalance(node: Node?<D>): (b: int)
      requires ValidLink(node)
      reads node, ReprOf(node)
      ensures b == Balance(ModelOf(node))
    {
      if node == null then 0 else GetHeight(node.left) - GetHeight(node.right)
    }

    // ----- Rotations -----

    /** `_rotate_left`: promotes `z.right` by relinking in place; `z` itself when it has no right child. */
    method RotateLeft(z: Node<D>) returns (r: Node<D>)
      requires z.Valid()
      modifies z.Repr
      ensures r.Valid() && r.Repr <= old(z.Repr)
      ensures r.Model == AvlSpec.RotateLeft(old(z.Model))
    {
      var y := z.right;
      if y == null {
        return z;
      }
      var t2 := y.left;
      z.Relink(z.left, t2, 1 + Max(GetHeight(z.left), GetHeight(t2)));
      y.Relink(z, y.right, 1 + Max(GetHeight(z), GetHeight(y.right)));
      r := y;
    }

    /** `_rotate_right`: promotes `z.left` by relinking in place; `z` itself when it has no left child. */
    method RotateRight(z: Node<D>) returns (r: Node<D>)
      requires z.Valid()
      modifies z.Repr
      ensures r.Valid() && r.Repr <= old(z.Repr)
      ensures r.Model == AvlSpec.RotateRight(old(z.Model))
    {
      var y := z.left;
      if y == null {
        return z;
      }
      var t3 := y.right;
      z.Relink(t3, z.right, 1 + Max(GetHeight(t3), GetHeight(z.right)));
      y.Relink(y.left, z, 1 + Max(GetHeight(y.left), GetHeight(z)));
      r := y;
    }

    /** The left-right case: rotate the left child left, then the node right. */
    method RotateLeftRight(node: Node<D>) returns (r: Node<D>)
      requires node.Valid() && node.Model.left.Node?
      modifies node.Repr
      ensures r.Valid() && r.Repr <= old(node.Repr)
      ensures r.Model == AvlSpec.RotateRight(old(node.Model).(left := AvlSpec.RotateLeft(old(node.Model).left)))
    {
      var l := RotateLeft(node.left);
      node.Relink(l, node.right, node.height);
      r := RotateRight(node);
    }

    /** The right-left case: rotate the right child right, then the node left. */
    method RotateRightLeft(node: Node<D>) returns (r: Node<D>)
      requires node.Valid() && node.Model.right.Node?
      modifies node.Repr
      ensures r.Valid() && r.Repr <= old(node.Repr)
      ensures r.Model == AvlSpec.RotateLeft(old(node.Model).(right := AvlSpec.RotateRight(old(node.Model).right)))
    {
      var rr := RotateRight(node.right);
      node.Relink(node.left, rr, node.height);
      r := RotateLeft(node);
    }

    // ----- Insertion -----

    /** Lines 87-111 of avl_tree.py (`_insert_recursive`): recompute the height, then rotate by comparing the new key with the child's. */
    method BalanceAfterInsert(node: Node<D>, k: int) returns (r: Node<D>)
      requires node.Valid()
      modifies node.Repr
      ensures r.Valid() && r.Repr <= old(node.Repr)
      ensures r.Model == AvlSpec.RebalanceInsert(old(node.Model), k)
    {
      node.SetHeight(1 + Max(GetHeight(node.left), GetHeight(node.right)));
      var balance := GetBalance(node);
      if balance > 1 && node.left != null && k < node.left.document {
        r := RotateRight(node);
      } else if balance < -1 && node.right != null && k > node.right.document {
        r := RotateLeft(node);
      } else if balance > 1 && node.left != null && k > node.left.document {
        r := RotateLeftRight(node);
      } else if balance < -1 && node.right != null && k < node.right.document {
        r := RotateRightLeft(node);
      } else {
        r := node;
      }
    }

    /**
      `_insert_recursive`: the subtree after inserting `k`, or the error it
      raises; on an error nothing has been written yet.
    */
    method InsertRecursive(node: Node?<D>, k: int, d: D) returns (r: Node?<D>, err: Option<TreeError>)
      requires ValidLink(node)
      modifies ReprOf(node)
      decreases ReprOf(node), 1
      ensures AvlSpec.Insert(old(ModelOf(node)), k, d).Ok? ==>
                err.None? && r != null && r.Valid() && r.Model == AvlSpec.Insert(old(ModelOf(node)), k, d).value &&
                fresh(r.Repr - old(ReprOf(node)))
      ensures AvlSpec.Insert(old(ModelOf(node)), k, d).Err? ==>
                err == Some(AvlSpec.Insert(old(ModelOf(node)), k, d).error) && r == node && unchanged(old(ReprOf(node)))
    {
      if node == null {
        var leaf := Node.Create(IntDoc(k), d);
        if leaf.Err? {
          return null, Some(InvalidDocument(leaf.error));
        }
        return leaf.value, None;
      }
      if k < node.document {
        r, err := InsertInLeft(node, k, d);
      } else if k > node.document {
        r, err := InsertInRight(node, k, d);
      } else {
        return node, Some(DuplicateDocument(k));
      }
    }

    /** Lines 80-81 and 87-111 of avl_tree.py (`_insert_recursive`): insert into the left subtree, relink it, rebalance. */
    method InsertInLeft(node: Node<D>, k: int, d: D) returns (r: Node?<D>, err: Option<TreeError>)
      requires node.Valid() && k < node.document
      modifies node.Repr
      decreases node.Repr, 0
      ensures AvlSpec.Insert(old(node.Model), k, d).Ok? ==>
                err.None? && r != null && r.Valid() && r.Model == AvlSpec.Insert(old(node.Model), k, d).value &&
                fresh(r.Repr - old(node.Repr))
      ensures AvlSpec.Insert(old(node.Model), k, d).Err? ==>
                err == Some(AvlSpec.Insert(old(node.Model), k, d).error) && r == node && unchanged(old(node.Repr))
    {
      ghost var before := ReprOf(node.left);
      var l, e := InsertRecursive(node.left, k, d);
      if e.Some? {
        return node, e;
      }
      assert ReprOf(l) <= before + (ReprOf(l) - before);
      node.Relink(l, node.right, node.height);
      r := BalanceAfterInsert(node, k);
      err := None;
    }

    /** Lines 82-83 and 87-111 of avl_tree.py (`_insert_recursive`): insert into the right subtree, relink it, rebalance. */
    method InsertInRight(node: Node<D>, k: int, d: D) returns (r: Node?<D>, err: Option<TreeError>)
      requires node.Valid() && k > node.document
      modifies node.Repr
      decreases node.Repr, 0
      ensures AvlSpec.Insert(old(node.Model), k, d).Ok? ==>
                err.None? && r != null && r.Valid() && r.Model == AvlSpec.Insert(old(node.Model), k, d).value &&
                fresh(r.Repr - old(node.Repr))
      ensures AvlSpec.Insert(old(node.Model), k, d).Err? ==>
                err == Some(AvlSpec.Insert(old(node.Model), k, d).error) && r == node && unchanged(old(node.Repr))
    {
      ghost var before := ReprOf(node.right);
      var rr, e := InsertRecursive(node.right, k, d);
      if e.Some? {
        return node, e;
      }
      assert ReprOf(rr) <= before + (ReprOf(rr) - before);
      node.Relink(node.left, rr, node.height);
      r := BalanceAfterInsert(node, k);
      err := None;
    }

    /**
      `insert`: takes the record's `document` entry (None when the record has
      none), converts a string, inserts, and counts the new node; any raised
      error leaves the tree as it was.
    */
    method Insert(document: Option<KeyArg>, child: D) returns (err: Option<TreeError>)
      requires Valid()
      modifies Repr
      ensures Valid() && fresh(Repr - old(Repr))
      ensures InsertOutcome(old(Model()), document, child).Ok? ==>
                err.None? && Model() == InsertOutcome(old(Model()), document, child).value && size == old(size) + 1
      ensures InsertOutcome(old(Model()), document, child).Err? ==>
                err == Some(InsertOutcome(old(Model()), document, child).error) && Model() == old(Model()) && size == old(size)
    {
      if document.None? {
        return Some(MissingDocument);
      }
      var key := KeyOf(document.value);
      if key.None? {
        return Some(TreeError.NotConvertible);
      }
      ghost var t := Model();
      InsertSound(t, key.value, child);
      var r, e := InsertRecursive(root, key.value, child);
      if e.Some? {
        return e;
      }
      root := r;
      size := size + 1;
      Repr := Repr + r.Repr;
      err := None;
    }

    // ----- Search -----

    /** `_search_recursive`: the node holding `k` on the search path, or null. */
    function SearchRecursive(node: Node?<D>, k: int): (r: Node?<D>)
      requires ValidLink(node)
      reads node, ReprOf(node)
      decreases ReprOf(node)
      ensures r == null <==> Find(ModelOf(node), k).None?
      ensures r != null ==> r.Valid() && r.document == k && Find(ModelOf(node), k) == Some(r.data)
    {
      if node == null || node.document == k then node
      else if k < node.document then SearchRecursive(node.left, k)
      else SearchRecursive(node.right, k)
    }

    /** `search`: the payload stored under the key, None when absent or when a string key does not convert. */
    method Search(document: KeyArg) returns (r: Option<D>)
      requires Valid()
      ensures KeyOf(document).None? ==> r.None?
      ensures KeyOf(document).Some? ==>
                r == (var k := KeyOf(document).value; if k in Contents(Model()) then Some(Contents(Model())[k]) else None)
    {
      var key := KeyOf(document);
      if key.None? {
        return None;
      }
      FindIsLookup(Model(), key.value);
      var node := SearchRecursive(root, key.value);
      r := if node != null then Some(node.data) else None;
    }

    /** `__contains__`: whether `search` finds the key. */
    method Contains(document: KeyArg) returns (b: bool)
      requires Valid()
      ensures b <==> KeyOf(document).Some? && KeyOf(document).value in Keys(Model())
    {
      var r := Search(document);
      ContentsKeys(Model());
      b := r.Some?;
    }

    // ----- Deletion -----

    /** `_find_min`: walks left from `node` to the node with the smallest key of its subtree. */
    method FindMin(node: Node<D>) returns (m: Node<D>)
      requires node.Valid()
      ensures m.Valid() && m.Model == MinNode(node.Model) && m in node.Repr
    {
      var current: Node<D> := node;
      while current.left != null
        invariant current.Valid() && MinNode(current.Model) == MinNode(node.Model) && current.Repr <= node.Repr
        decreases current.Repr
      {
        current := current.left;
      }
      m := current;
    }

    /** Lines 209-234 of avl_tree.py (`_delete_recursive`): recompute the height, then rotate by the child's balance factor. */
    method BalanceAfterDelete(node: Node<D>) returns (r: Node<D>)
      requires node.Valid()
      modifies node.Repr
      ensures r.Valid() && r.Repr <= old(node.Repr)
      ensures r.Model == AvlSpec.RebalanceDelete(old(node.Model))
    {
      node.SetHeight(1 + Max(GetHeight(node.left), GetHeight(node.right)));
      var balance := GetBalance(node);
      if balance > 1 && GetBalance(node.left) >= 0 {
        r := RotateRight(node);
      } else if balance > 1 && GetBalance(node.left) < 0 {
        r := RotateLeftRight(node);
      } else if balance < -1 && GetBalance(node.right) <= 0 {
        r := RotateLeft(node);
      } else if balance < -1 && GetBalance(node.right) > 0 {
        r := RotateRightLeft(node);
      } else {
        r := node;
      }
    }

    /**
      `_delete_recursive`: the subtree without `k`. The counter drops when the
      key is found and is raised again around the successor's own removal, so
      it falls by one exactly when a node is unlinked.
    */
    method DeleteRecursive(node: Node?<D>, k: int) returns (r: Node?<D>)
      requires ValidLink(node) && this !in ReprOf(node)
      modifies this`size, ReprOf(node)
      decreases ReprOf(node), 2
      ensures ValidLink(r) && ReprOf(r) <= old(ReprOf(node))
      ensures ModelOf(r) == AvlSpec.Delete(old(ModelOf(node)), k).tree
      ensures size == old(size) - if AvlSpec.Delete(old(ModelOf(node)), k).removed then 1 else 0
    {
      if node == null {
        return null;
      }
      if k < node.document {
        DeleteInLeft(node, k);
      } else if k > node.document {
        DeleteInRight(node, k);
      } else {
        size := size - 1;
        if node.left == null {
          return node.right;
        } else if node.right == null {
          return node.left;
        }
        assert node.left.Valid() && node.right.Valid();
        ReplaceBySuccessor(node);
      }
      r := BalanceAfterDelete(node);
    }

    /** Line 188 of avl_tree.py (`_delete_recursive`): delete `k` from the left subtree and relink it. */
    method DeleteInLeft(node: Node<D>, k: int)
      requires node.Valid() && this !in node.Repr
      modifies this`size, node.Repr
      decreases node.Repr, 0
      ensures node.Valid() && node.Repr <= old(node.Repr)
      ensures var t := old(node.Model);
              var res := AvlSpec.Delete(t.left, k);
              node.Model == t.(left := res.tree) && size == old(size) - if res.removed then 1 else 0
    {
      var l := DeleteRecursive(node.left, k);
      node.Relink(l, node.right, node.height);
    }

    /** Lines 190 and 206 of avl_tree.py (`_delete_recursive`): delete `k` from the right subtree and relink it. */
    method DeleteInRight(node: Node<D>, k: int)
      requires node.Valid() && this !in node.Repr
      modifies this`size, node.Repr
      decreases node.Repr, 0
      ensures node.Valid() && node.Repr <= old(node.Repr)
      ensures var t := old(node.Model);
              var res := AvlSpec.Delete(t.right, k);
              node.Model == t.(right := res.tree) && size == old(size) - if res.removed then 1 else 0
    {
      var rr := DeleteRecursive(node.right, k);
      node.Relink(node.left, rr, node.height);
    }

    /**
      Lines 202-207 of avl_tree.py (`_delete_recursive`): copy the in-order successor's key
      and payload into `node`, delete the successor from the right subtree,
      and undo that deletion's decrement of the counter.
    */
    method ReplaceBySuccessor(node: Node<D>)
      requires node.Valid() && node.Model.left.Node? && node.Model.right.Node? && this !in node.Repr
      modifies this`size, node.Repr
      decreases node.Repr, 1
      ensures node.Valid() && node.Repr <= old(node.Repr)
      ensures var t := old(node.Model);
              var s := MinNode(t.right);
              var res := AvlSpec.Delete(t.right, s.key);
              node.Model == Tree.Node(t.left, s.key, s.data, t.height, res.tree) &&
              size == old(size) + 1 - if res.removed then 1 else 0
    {
      var successor := FindMin(node.right);
      node.CopyEntry(successor);
      DeleteInRight(node, successor.document);
      size := size + 1;
    }

    /**
      `delete`: removes the key and reports whether the counter fell; a string
      key that does not convert deletes nothing and reports false.
    */
    method Delete(document: KeyArg) returns (removed: bool)
      requires Valid()
      modifies Repr
      ensures Valid() && Repr == old(Repr)
      ensures removed <==> KeyOf(document).Some? && KeyOf(document).value in old(Keys(Model()))
      ensures size == old(size) - if removed then 1 else 0
      ensures KeyOf(document).None? ==> Model() == old(Model())
      ensures KeyOf(document).Some? ==>
                Model() == AvlSpec.Delete(old(Model()), KeyOf(document).value).tree &&
                Contents(Model()) == old(Contents(Model())) - {KeyOf(document).value}
    {
      var key := KeyOf(document);
      if key.None? {
        return false;
      }
      DeleteSound(Model(), key.value);
      var initialSize := size;
      root := DeleteRecursive(root, key.value);
      removed := size < initialSize;
    }

    // ----- Traversals -----

    /** `_in_order_recursive`: appends the subtree's payloads, left, node, right. */
    method InOrderRecursive(node: Node?<D>, result: seq<D>) returns (out: seq<D>)
      requires ValidLink(node)
      decreases ReprOf(node)
      ensures out == result + AvlSpec.InOrder(ModelOf(node))
    {
      out := result;
      if node != null {
        out := InOrderRecursive(node.left, out);
        out := out + [node.data];
        out := InOrderRecursive(node.right, out);
      }
    }

    /** `_pre_order_recursive`: appends the subtree's payloads, node, left, right. */
    method PreOrderRecursive(node: Node?<D>, result: seq<D>) returns (out: seq<D>)
      requires ValidLink(node)
      decreases ReprOf(node)
      ensures out == result + AvlSpec.PreOrder(ModelOf(node))
    {
      out := result;
      if node != null {
        out := out + [node.data];
        out := PreOrderRecursive(node.left, out);
        out := PreOrderRecursive(node.right, out);
      }
    }

    /** `_post_order_recursive`: appends the subtree's payloads, left, right, node. */
    method PostOrderRecursive(node: Node?<D>, result: seq<D>) returns (out: seq<D>)
      requires ValidLink(node)
      decreases ReprOf(node)
      ensures out == result + AvlSpec.PostOrder(ModelOf(node))
    {
      out := result;
      if node != null {
        out := PostOrderRecursive(node.left, out);
        out := PostOrderRecursive(node.right, out);
        out := out + [node.data];
      }
    }

    /** `in_order`: one payload per node, in increasing key order. */
    method InOrder() returns (r: seq<D>)
      requires Valid()
      ensures r == AvlSpec.InOrder(Model()) && |r| == size
    {
      r := InOrderRecursive(root, []);
      TraversalLengths(Model());
    }

    /** `pre_order`: one payload per node, the root's first. */
    method PreOrder() returns (r: seq<D>)
      requires Valid()
      ensures r == AvlSpec.PreOrder(Model()) && |r| == size
      ensures Model().Node? ==> r[0] == Model().data
    {
      r := PreOrderRecursive(root, []);
      TraversalLengths(Model());
    }

    /** `post_order`: one payload per node, the root's last. */
    method PostOrder() returns (r: seq<D>)
      requires Valid()
      ensures r == AvlSpec.PostOrder(Model()) && |r| == size
      ensures Model().Node? ==> r[|r| - 1] == Model().data
    {
      r := PostOrderRecursive(root, []);
      TraversalLengths(Model());
    }

    // ----- Accessors -----

    /** `size`: the counter, which is the number of keys stored. */
    method Size() returns (n: int)
      requires Valid()
      ensures n == AvlSpec.Size(Model()) && n == |Keys(Model())|
    {
      SizeIsKeyCount(Model());
      n := size;
    }

    /** `__len__`: the same counter as `size`. */
    method Len() returns (n: int)
      requires Valid()
      ensures n == |Keys(Model())|
    {
      n := Size();
    }

    /** `is_empty`: no root, which is the same as a zero counter. */
    method IsEmpty() returns (b: bool)
      requires Valid()
      ensures b <==> Model() == Nil
      ensures b <==> size == 0
    {
      b := root == null;
    }

    /** `clear`: drops the root and zeroes the counter. */
    method Clear()
      requires Valid()
      modifies this
      ensures Valid() && Model() == Nil && size == 0
    {
      root := null;
      size := 0;
      Repr := {this};
    }

    /** `get_root`: the root's payload, None on an empty tree. */
    method GetRoot() returns (r: Option<D>)
      requires Valid()
      ensures r.None? <==> Model() == Nil
      ensures Model().Node? ==> r == Some(Model().data)
    {
      r := if root != null then Some(root.data) else None;
    }

    /** `get_min`: the payload of the smallest key, None on an empty tree. */
    method GetMin() returns (r: Option<D>)
      requires Valid()
      ensures r.None? <==> Model() == Nil
      ensures Model().Node? ==> MinNode(Model()).key in Contents(Model()) &&
                                r == Some(Contents(Model())[MinNode(Model()).key]) &&
                                (forall j :: j in Keys(Model()) ==> MinNode(Model()).key <= j)
    {
      if root == null {
        return None;
      }
      var m := FindMin(root);
      MinNodeIsMin(Model());
      r := Some(m.data);
    }

    /** `get_max`: walks right to the payload of the largest key, None on an empty tree. */
    method GetMax() returns (r: Option<D>)
      requires Valid()
      ensures r.None? <==> Model() == Nil
      ensures Model().Node? ==> MaxNode(Model()).key in Contents(Model()) &&
                                r == Some(Contents(Model())[MaxNode(Model()).key]) &&
                                (forall j :: j in Keys(Model()) ==> j <= MaxNode(Model()).key)
    {
      if root == null {
        return None;
      }
      var current: Node<D> := root;
      while current.right != null
        invariant current.Valid() && MaxNode(current.Model) == MaxNode(Model())
        decreases current.Repr
      {
        current := current.right;
      }
      MaxNodeIsMax(Model());
      r := Some(current.data);
    }
  }
}
