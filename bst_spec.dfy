/**
  The unbalanced binary search tree of `api_abb` as values: a subtree is
  what a `Node` reaches through its `left` and `right` links. There is no
  rebalancing and no cached height; the functions below follow the
  recursion of binary_search_tree.py case by case, and BstProofs states
  what they guarantee.
*/
module BstSpec {
  import opened Wrappers

  /** A subtree: absent, or a node with its id and payload. */
  datatype Tree<D> = Nil | Node(left: Tree<D>, id: int, data: D, right: Tree<D>)

  /** What `Node.to_dict` returns: exactly the keys "id" and "data", no links. */
  datatype Entry<D> = Entry(id: int, data: D)

  /** Why an insertion raises: the id is already stored (ValueError). */
  datatype InsertError = DuplicateId(id: int)

  /** What `_delete_recursive` returns, together with whether it unlinked a node. */
  datatype Removal<D> = Removal(tree: Tree<D>, removed: bool)

  // ----- What a subtree stores -----

  ghost function Ids<D>(t: Tree<D>): set<int> {
    match t
    case Nil => {}
    case Node(l, x, _, r) => Ids(l) + {x} + Ids(r)
  }

  /** Id to payload; on a repeated id the later one in in-order wins (never happens in an ordered tree). */
  ghost function Contents<D>(t: Tree<D>): map<int, D> {
    match t
    case Nil => map[]
    case Node(l, x, d, r) => Contents(l) + map[x := d] + Contents(r)
  }

  /** Number of nodes reachable from `t`. */
  function Size<D>(t: Tree<D>): nat {
    match t
    case Nil => 0
    case Node(l, _, _, r) => Size(l) + 1 + Size(r)
  }

  function InOrderIds<D>(t: Tree<D>): seq<int> {
    match t
    case Nil => []
    case Node(l, x, _, r) => InOrderIds(l) + [x] + InOrderIds(r)
  }

  /** Every id in the left subtree is smaller and every id in the right subtree larger than the node's id. */
  ghost predicate Ordered<D>(t: Tree<D>) {
    match t
    case Nil => true
    case Node(l, x, _, r) =>
      Ordered(l) && Ordered(r) &&
      (forall j :: j in Ids(l) ==> j < x) &&
      (forall j :: j in Ids(r) ==> x < j)
  }

  // ----- `to_dict` and the traversals (`inOrder`, `preOrder`, `postOrder`) -----

  function ToDict<D>(t: Tree<D>): Entry<D>
    requires t.Node?
  {
    Entry(t.id, t.data)
  }

  function InOrder<D>(t: Tree<D>): seq<Entry<D>> {
    match t
    case Nil => []
    case Node(l, _, _, r) => InOrder(l) + [ToDict(t)] + InOrder(r)
  }

  function PreOrder<D>(t: Tree<D>): seq<Entry<D>> {
    match t
    case Nil => []
    case Node(l, _, _, r) => [ToDict(t)] + PreOrder(l) + PreOrder(r)
  }

  function PostOrder<D>(t: Tree<D>): seq<Entry<D>> {
    match t
    case Nil => []
    case Node(l, _, _, r) => PostOrder(l) + PostOrder(r) + [ToDict(t)]
  }

  // ----- Insertion (`insert`, `_insert_recursive`) -----

  /** Walks down by id and hangs a new leaf on the first absent link; a stored id raises. */
  function Insert<D>(t: Tree<D>, id: int, d: D): Result<Tree<D>, InsertError> {
    match t
    case Nil => Ok(Node(Nil, id, d, Nil))
    case Node(l, x, dx, r) =>
      if id == x then Err(DuplicateId(id))
      else if id < x then
        match Insert(l, id, d)
        case Err(e) => Err(e)
        case Ok(l') => Ok(Node(l', x, dx, r))
      else
        match Insert(r, id, d)
        case Err(e) => Err(e)
        case Ok(r') => Ok(Node(l, x, dx, r'))
  }

  // ----- Search (`_search_recursive`) -----

  /** The subtree headed by the node with that id on the search path, if any. */
  function Find<D>(t: Tree<D>, id: int): Option<Tree<D>> {
    match t
    case Nil => None
    case Node(l, x, _, r) =>
      if id == x then Some(t) else if id < x then Find(l, id) else Find(r, id)
  }

  // ----- Extremes (`_find_min`, `get_max`) -----

  /** The leftmost node. */
  function MinNode<D>(t: Tree<D>): (r: Tree<D>)
    requires t.Node?
    ensures r.Node? && r.left.Nil? && r.id in Ids(t)
  {
    if t.left.Nil? then t else MinNode(t.left)
  }

  /** The rightmost node. */
  function MaxNode<D>(t: Tree<D>): (r: Tree<D>)
    requires t.Node?
    ensures r.Node? && r.right.Nil? && r.id in Ids(t)
  {
    if t.right.Nil? then t else MaxNode(t.right)
  }

  // ----- Deletion (`_delete_recursive`) -----

  /**
    The three cases: a leaf goes, a node with one child is replaced by it,
    and a node with two children takes its in-order successor's id and
    payload before the successor is deleted from the right subtree.
  */
  function Delete<D>(t: Tree<D>, id: int): Removal<D> {
    match t
    case Nil => Removal(Nil, false)
    case Node(l, x, dx, r) =>
      if id < x then
        var res := Delete(l, id);
        Removal(Node(res.tree, x, dx, r), res.removed)
      else if id > x then
        var res := Delete(r, id);
        Removal(Node(l, x, dx, res.tree), res.removed)
      else if l.Nil? && r.Nil? then Removal(Nil, true)
      else if l.Nil? then Removal(r, true)
      else if r.Nil? then Removal(l, true)
      else
        var s := MinNode(r);
        var res := Delete(r, s.id);
        Removal(Node(l, s.id, s.data, res.tree), res.removed)
  }
}
