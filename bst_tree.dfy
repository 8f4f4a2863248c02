/**
  The binary search tree of `api_abb` as the program runs it: `Node`
  objects the caller builds and the tree links in place, and a
  `BinarySearchTree` object holding the root and the size counter. Each node
  keeps a ghost footprint `Repr` (the nodes of its subtree) and a ghost
  `Model`, the BstSpec value of its subtree; every method is proved to
  produce the value the matching BstSpec function computes, and the
  search-tree ordering is carried by BinarySearchTree.Valid() through the
  lemmas of BstProofs.
*/
module BstTree {
  import opened Wrappers
  import opened KeySequences
  import opened BstSpec
  import opened BstProofs

  /** The nodes of the subtree `n` heads; nothing when the link is absent. */
  ghost function ReprOf<D>(n: Node?<D>): set<object>
    reads n
  {
    if n == null then {} else n.Repr
  }

  /** The value of the subtree `n` heads; `Nil` when the link is absent. */
  ghost function ModelOf<D>(n: Node?<D>): Tree<Option<D>>
    reads n
  {
    if n == null then Nil else n.Model
  }

  /** A subtree that is either absent or well formed. */
  ghost predicate ValidLink<D>(n: Node?<D>)
    reads n, ReprOf(n)
  {
    n != null ==> n.Valid()
  }

  /** The node of node.py: an id, an optional payload (None by default) and two links. */
  class Node<D> {
    var id: int
    var data: Option<D>
    var left: Node?<D>
    var right: Node?<D>
    ghost var Repr: set<object>
    ghost var Model: Tree<Option<D>>

    /** The subtree is a finite tree of distinct nodes, and `Model` is its value. */
    ghost predicate Valid()
      reads this, Repr
      decreases Repr
    {
      this in Repr &&
      (left != null ==> left in Repr && left in left.Repr && left.Repr <= Repr && this !in left.Repr && left.Valid()) &&
      (right != null ==> right in Repr && right in right.Repr && right.Repr <= Repr && this !in right.Repr && right.Valid()) &&
      (left != null && right != null ==> left.Repr !! right.Repr) &&
      Model == Tree.Node(ModelOf(left), id, data, ModelOf(right))
    }

    /** `Node(id, data)`: the id and payload as given, no children; nothing about the id is checked. */
    constructor (id: int, data: Option<D>)
      ensures Valid() && Repr == {this} && left == null && right == null
      ensures this.id == id && this.data == data
      ensures Model == Tree.Node(Nil, id, data, Nil)
    {
      this.id := id;
      this.data := data;
      left := null;
      right := null;
      Repr := {this};
      Model := Tree.Node(Nil, id, data, Nil);
    }

    /** `Node(id)`: the payload defaults to None. */
    constructor WithoutData(id: int)
      ensures Valid() && Repr == {this} && left == null && right == null
      ensures this.id == id && data == None
      ensures Model == Tree.Node(Nil, id, None, Nil)
    {
      this.id := id;
      data := None;
      left := null;
      right := null;
      Repr := {this};
      Model := Tree.Node(Nil, id, None, Nil);
    }

    /** `to_dict`: exactly the id and the payload; the links are not part of it. */
    function ToDict(): (e: Entry<Option<D>>)
      reads this
      ensures e.id == id && e.data == data
    {
      Entry(id, data)
    }

    /** `current.left = l`: relinks the left child; the footprint is recomputed. */
    method SetLeft(l: Node?<D>)
      requires ValidLink(l) && ValidLink(right)
      requires this !in ReprOf(l) && this !in ReprOf(right) && ReprOf(l) !! ReprOf(right)
      modifies this
      ensures Valid() && left == l && right == old(right) && id == old(id) && data == old(data)
      ensures Repr == {this} + ReprOf(l) + ReprOf(right)
      ensures Model == Tree.Node(ModelOf(l), id, data, ModelOf(right))
    {
      left := l;
      Repr := {this} + ReprOf(l) + ReprOf(right);
      Model := Tree.Node(ModelOf(l), id, data, ModelOf(right));
    }

    /** `current.right = r`: relinks the right child; the footprint is recomputed. */
    method SetRight(r: Node?<D>)
      requires ValidLink(left) && ValidLink(r)
      requires this !in ReprOf(left) && this !in ReprOf(r) && ReprOf(left) !! ReprOf(r)
      modifies this
      ensures Valid() && left == old(left) && right == r && id == old(id) && data == old(data)
      ensures Repr == {this} + ReprOf(left) + ReprOf(r)
      ensures Model == Tree.Node(ModelOf(left), id, data, ModelOf(r))
    {
      right := r;
      Repr := {this} + ReprOf(left) + ReprOf(r);
      Model := Tree.Node(ModelOf(left), id, data, ModelOf(r));
    }

    /** Recomputes the ghost footprint and value after a child's subtree changed in place; no field of the node is written. */
    ghost method Refresh()
      requires ValidLink(left) && ValidLink(right)
      requires this !in ReprOf(left) && this !in ReprOf(right) && ReprOf(left) !! ReprOf(right)
      modifies this
      ensures Valid() && left == old(left) && right == old(right) && id == old(id) && data == old(data)
      ensures Repr == {this} + ReprOf(left) + ReprOf(right)
      ensures Model == Tree.Node(ModelOf(left), id, data, ModelOf(right))
    {
      Repr := {this} + ReprOf(left) + ReprOf(right);
      Model := Tree.Node(ModelOf(left), id, data, ModelOf(right));
    }

    /** `current.id = from.id; current.data = from.data`: the links stay. */
    method CopyEntry(from: Node<D>)
      requires Valid() && from != this
      modifies this
      ensures Valid() && Repr == old(Repr)
      ensures Model == old(Model).(id := from.id, data := from.data)
    {
      id := from.id;
      data := from.data;
      Model := Model.(id := id, data := data);
    }
  }

  /** `BinarySearchTree`: the root link and the node counter `_size`. */
  class BinarySearchTree<D> {
    var root: Node?<D>
    var size: int
    ghost var Repr: set<object>

    /** The value of the whole tree. */
    ghost function Model(): Tree<Option<D>>
      reads this, root
    {
      ModelOf(root)
    }

    /** The tree's invariant: a well-formed search tree whose counter is its node count. */
    ghost predicate Valid()
      reads this, Repr
    {
      this in Repr &&
      (root != null ==> root in Repr && root.Repr <= Repr && this !in root.Repr && root.Valid()) &&
      Ordered(ModelOf(root)) && size == BstSpec.Size(ModelOf(root))
    }

    constructor ()
      ensures Valid() && fresh(Repr) && Model() == Nil && size == 0
    {
      root := null;
      size := 0;
      Repr := {this};
    }

    // ----- Insertion -----

    /**
      `insert`: an empty tree takes the node as its root; otherwise the node
      is hung below the existing ones, or a duplicate id raises and nothing
      changes. The node itself, not a copy, becomes part of the tree.
    */
    method Insert(node: Node<D>) returns (err: Option<InsertError>)
      requires Valid() && node.Valid() && node.Repr == {node} && node !in Repr
      modifies Repr
      ensures Valid()
      ensures var res := BstSpec.Insert(old(Model()), node.id, node.data);
              res.Ok? ==> err.None? && Model() == res.value && size == old(size) + 1 && Repr == old(Repr) + {node}
      ensures var res := BstSpec.Insert(old(Model()), node.id, node.data);
              res.Err? ==> err == Some(res.error) && Model() == old(Model()) && size == old(size) && Repr == old(Repr)
      ensures old(root) == null ==> err.None? && root == node
      ensures err.None? ==> root != null && node in root.Repr
    {
      if root == null {
        root := node;
        size := size + 1;
        Repr := Repr + {node};
        return None;
      }
      InsertSound(Model(), node.id, node.data);
      err := InsertRecursive(root, node);
      if err.None? {
        Repr := Repr + {node};
      }
    }

    /**
      `_insert_recursive`: walks down from `current` and links `newNode` on
      the first absent side, counting it; an equal id raises before any write.
    */
    method InsertRecursive(current: Node<D>, newNode: Node<D>) returns (err: Option<InsertError>)
      requires current.Valid() && newNode.Valid() && newNode.Repr == {newNode}
      requires newNode !in current.Repr && this !in current.Repr
      modifies this`size, current.Repr
      decreases current.Repr
      ensures current.Valid()
      ensures var res := BstSpec.Insert(old(current.Model), newNode.id, newNode.data);
              res.Ok? ==> err.None? && current.Model == res.value && size == old(size) + 1 &&
                          newNode in current.Repr && current.Repr <= old(current.Repr) + {newNode}
      ensures var res := BstSpec.Insert(old(current.Model), newNode.id, newNode.data);
              res.Err? ==> err == Some(res.error) && unchanged(old(current.Repr)) && size == old(size)
    {
      if newNode.id == current.id {
        return Some(DuplicateId(newNode.id));
      }
      if newNode.id < current.id {
        if current.left == null {
          current.SetLeft(newNode);
          size := size + 1;
          err := None;
        } else {
          err := InsertRecursive(current.left, newNode);
          if err.None? {
            current.Refresh();
          }
        }
      } else {
        if current.right == null {
          current.SetRight(newNode);
          size := size + 1;
          err := None;
        } else {
          err := InsertRecursive(current.right, newNode);
          if err.None? {
            current.Refresh();
          }
        }
      }
    }

    // ----- Search -----

    /** `_search_recursive`: the node holding `id` on the search path, or null. */
    function SearchRecursive(current: Node?<D>, id: int): (r: Node?<D>)
      requires ValidLink(current)
      reads current, ReprOf(current)
      decreases ReprOf(current)
      ensures r == null <==> Find(ModelOf(current), id).None?
      ensures r != null ==> r in ReprOf(current) && r.Valid() && Find(ModelOf(current), id) == Some(r.Model)
    {
      if current == null || current.id == id then current
      else if id < current.id then SearchRecursive(current.left, id)
      else SearchRecursive(current.right, id)
    }

    /** `search`: the node with that id, null when it is not stored (an empty tree included). */
    method Search(id: int) returns (r: Node?<D>)
      requires Valid()
      ensures r == null <==> id !in Ids(Model())
      ensures r != null ==> r in Repr && r.id == id && id in Contents(Model()) && r.data == Contents(Model())[id]
    {
      FindIsLookup(Model(), id);
      r := SearchRecursive(root, id);
    }

    // ----- Deletion -----

    /** `_find_min`: walks left from `node` to the node with the smallest id of its subtree. */
    method FindMin(node: Node<D>) returns (m: Node<D>)
      requires node.Valid()
      ensures m.Valid() && m.Model == MinNode(node.Model) && m in node.Repr
    {
      var current: Node<D> := node;
      while current.left != null
        invariant current.Valid() && MinNode(current.Model) == MinNode(node.Model) && current.Repr <= node.Repr
        decreases current.Repr
      {
        current := current.left;
      }
      m := current;
    }

    /**
      `_delete_recursive`: the subtree without `id`. The counter drops when
      the id is found and is raised again before the successor's own
      removal, so it falls by one exactly when a node is unlinked.
    */
    method DeleteRecursive(current: Node?<D>, id: int) returns (r: Node?<D>)
      requires ValidLink(current) && this !in ReprOf(current)
      modifies this`size, ReprOf(current)
      decreases ReprOf(current), 2
      ensures ValidLink(r) && ReprOf(r) <= old(ReprOf(current))
      ensures ModelOf(r) == BstSpec.Delete(old(ModelOf(current)), id).tree
      ensures size == old(size) - if BstSpec.Delete(old(ModelOf(current)), id).removed then 1 else 0
    {
      if current == null {
        return null;
      }
      if id < current.id {
        DeleteInLeft(current, id);
      } else if id > current.id {
        DeleteInRight(current, id);
      } else {
        size := size - 1;
        if current.left == null && current.right == null {
          return null;
        }
        if current.left == null {
          return current.right;
        }
        if current.right == null {
          return current.left;
        }
        assert current.left.Valid() && current.right.Valid();
        ReplaceBySuccessor(current);
      }
      r := current;
    }

    /** Line 130 of binary_search_tree.py (`_delete_recursive`): delete `id` from the left subtree and relink it. */
    method DeleteInLeft(current: Node<D>, id: int)
      requires current.Valid() && this !in current.Repr
      modifies this`size, current.Repr
      decreases current.Repr, 0
      ensures current.Valid() && current.Repr <= old(current.Repr)
      ensures var t := old(current.Model);
              var res := BstSpec.Delete(t.left, id);
              current.Model == t.(left := res.tree) && size == old(size) - if res.removed then 1 else 0
    {
      var l := DeleteRecursive(current.left, id);
      current.SetLeft(l);
    }

    /** Lines 132 and 156 of binary_search_tree.py (`_delete_recursive`): delete `id` from the right subtree and relink it. */
    method DeleteInRight(current: Node<D>, id: int)
      requires current.Valid() && this !in current.Repr
      modifies this`size, current.Repr
      decreases current.Repr, 0
      ensures current.Valid() && current.Repr <= old(current.Repr)
      ensures var t := old(current.Model);
              var res := BstSpec.Delete(t.right, id);
              current.Model == t.(right := res.tree) && size == old(size) - if res.removed then 1 else 0
    {
      var rr := DeleteRecursive(current.right, id);
      current.SetRight(rr);
    }

    /**
      Lines 149-156 of binary_search_tree.py (`_delete_recursive`): copy the in-order successor's id
      and payload into `current`, raise the counter, then delete the
      successor from the right subtree.
    */
    method ReplaceBySuccessor(current: Node<D>)
      requires current.Valid() && current.Model.left.Node? && current.Model.right.Node? && this !in current.Repr
      modifies this`size, current.Repr
      decreases current.Repr, 1
      ensures current.Valid() && current.Repr <= old(current.Repr)
      ensures var t := old(current.Model);
              var s := MinNode(t.right);
              var res := BstSpec.Delete(t.right, s.id);
              current.Model == Tree.Node(t.left, s.id, s.data, res.tree) &&
              size == old(size) + 1 - if res.removed then 1 else 0
    {
      var successor := FindMin(current.right);
      current.CopyEntry(successor);
      size := size + 1;
      DeleteInRight(current, successor.id);
    }

    /** `delete`: removes the id and reports whether the counter fell. */
    method Delete(id: int) returns (removed: bool)
      requires Valid()
      modifies Repr
      ensures Valid() && Repr == old(Repr)
      ensures removed <==> id in old(Ids(Model()))
      ensures size == old(size) - if removed then 1 else 0
      ensures Model() == BstSpec.Delete(old(Model()), id).tree
      ensures Contents(Model()) == old(Contents(Model())) - {id}
    {
      DeleteSound(Model(), id);
      var initialSize := size;
      root := DeleteRecursive(root, id);
      removed := size < initialSize;
    }

    // ----- Traversals -----

    /** `_inorder_recursive`: appends the subtree's entries, left, node, right. */
    method InOrderRecursive(node: Node?<D>, result: seq<Entry<Option<D>>>) returns (out: seq<Entry<Option<D>>>)
      requires ValidLink(node)
      decreases ReprOf(node)
      ensures out == result + BstSpec.InOrder(ModelOf(node))
    {
      out := result;
      if node != null {
        out := InOrderRecursive(node.left, out);
        out := out + [node.ToDict()];
        out := InOrderRecursive(node.right, out);
      }
    }

    /** `_preorder_recursive`: appends the subtree's entries, node, left, right. */
    method PreOrderRecursive(node: Node?<D>, result: seq<Entry<Option<D>>>) returns (out: seq<Entry<Option<D>>>)
      requires ValidLink(node)
      decreases ReprOf(node)
      ensures out == result + BstSpec.PreOrder(ModelOf(node))
    {
      out := result;
      if node != null {
        out := out + [node.ToDict()];
        out := PreOrderRecursive(node.left, out);
        out := PreOrderRecursive(node.right, out);
      }
    }

    /** `_postorder_recursive`: appends the subtree's entries, left, right, node. */
    method PostOrderRecursive(node: Node?<D>, result: seq<Entry<Option<D>>>) returns (out: seq<Entry<Option<D>>>)
      requires ValidLink(node)
      decreases ReprOf(node)
      ensures out == result + BstSpec.PostOrder(ModelOf(node))
    {
      out := result;
      if node != null {
        out := PostOrderRecursive(node.left, out);
        out := PostOrderRecursive(node.right, out);
        out := out + [node.ToDict()];
      }
    }

    /** `inOrder`: one entry per node, by strictly ascending id. */
    method InOrder() returns (r: seq<Entry<Option<D>>>)
      requires Valid()
      ensures r == BstSpec.InOrder(Model()) && |r| == size
      ensures forall i, j :: 0 <= i < j < |r| ==> r[i].id < r[j].id
    {
      r := InOrderRecursive(root, []);
      TraversalLengths(Model());
      InOrderIsSortedContents(Model());
      forall i, j | 0 <= i < j < |r| ensures r[i].id < r[j].id {
        assert r[i].id == InOrderIds(Model())[i] && r[j].id == InOrderIds(Model())[j];
      }
    }

    /** `preOrder`: one entry per node, the root's first. */
    method PreOrder() returns (r: seq<Entry<Option<D>>>)
      requires Valid()
      ensures r == BstSpec.PreOrder(Model()) && |r| == size
      ensures root != null ==> r[0] == root.ToDict()
    {
      r := PreOrderRecursive(root, []);
      TraversalLengths(Model());
    }

    /** `postOrder`: one entry per node, the root's last. */
    method PostOrder() returns (r: seq<Entry<Option<D>>>)
      requires Valid()
      ensures r == BstSpec.PostOrder(Model()) && |r| == size
      ensures root != null ==> r[|r| - 1] == root.ToDict()
    {
      r := PostOrderRecursive(root, []);
      TraversalLengths(Model());
    }

    // ----- Accessors -----

    /** `size`: the counter, which is the number of ids stored. */
    method Size() returns (n: int)
      requires Valid()
      ensures n == BstSpec.Size(Model()) && n == |Ids(Model())|
    {
      SizeIsIdCount(Model());
      n := size;
    }

    /** `is_empty`: no root, which is the same as a zero counter. */
    method IsEmpty() returns (b: bool)
      requires Valid()
      ensures b <==> Model() == Nil
      ensures b <==> size == 0
    {
      b := root == null;
    }

    /** `clear`: drops the root and zeroes the counter. */
    method Clear()
      requires Valid()
      modifies this
      ensures Valid() && Model() == Nil && size == 0
    {
      root := null;
      size := 0;
      Repr := {this};
    }

    /** `get_root`: the root node, null on an empty tree. */
    method GetRoot() returns (r: Node?<D>)
      requires Valid()
      ensures r == null <==> Model() == Nil
      ensures r != null ==> r.Valid() && r.Model == Model() && r.id == Model().id
    {
      r := root;
    }

    /** `get_min`: the node with the smallest id, null on an empty tree. */
    method GetMin() returns (r: Node?<D>)
      requires Valid()
      ensures r == null <==> Model() == Nil
      ensures r != null ==> r in Repr && r.id in Contents(Model()) && r.data == Contents(Model())[r.id] &&
                            (forall j :: j in Ids(Model()) ==> r.id <= j)
    {
      if root == null {
        return null;
      }
      r := FindMin(root);
      MinNodeIsMin(Model());
    }

    /** `get_max`: walks right to the node with the largest id, null on an empty tree. */
    method GetMax() returns (r: Node?<D>)
      requires Valid()
      ensures r == null <==> Model() == Nil
      ensures r != null ==> r in Repr && r.id in Contents(Model()) && r.data == Contents(Model())[r.id] &&
                            (forall j :: j in Ids(Model()) ==> j <= r.id)
    {
      if root == null {
        return null;
      }
      var current: Node<D> := root;
      while current.right != null
        invariant current.Valid() && MaxNode(current.Model) == MaxNode(Model()) && current in Repr && current.Repr <= root.Repr
        decreases current.Repr
      {
        current := current.right;
      }
      MaxNodeIsMax(Model());
      r := current;
    }
  }
}
