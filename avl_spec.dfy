/**
  The AVL tree of `api_avl` as values: a subtree is what a `Node` reaches,
  with its cached `height` field kept as a field of the value, so every
  function below computes exactly what the Python code computes from the
  cached heights. The invariants of the tree (ordering, correct cached
  heights, balance) are predicates on these values, proved preserved in
  AvlProofs.
*/
module AvlSpec {
  import opened Wrappers
  import opened Documents

  /** A subtree: absent, or a node with its document, payload and cached height. */
  datatype Tree<D> = Nil | Node(left: Tree<D>, key: int, data: D, height: int, right: Tree<D>)

  /** Why an insertion raises. */
  datatype TreeError =
    | MissingDocument            // KeyError: the child has no "document" entry
    | NotConvertible             // ValueError: a string document that is not an integer
    | DuplicateDocument(key: int) // ValueError: the document is already stored
    | InvalidDocument(reason: DocError) // raised by the node built at the leaf

  /** What `_delete_recursive` returns, together with the net change it makes to the size counter. */
  datatype Removal<D> = Removal(tree: Tree<D>, removed: bool)

  function Max(a: int, b: int): int {
    if a >= b then a else b
  }

  /** `get_height`: the cached height, 0 for an absent node. */
  function Height<D>(t: Tree<D>): int {
    if t.Nil? then 0 else t.height
  }

  /** `get_balance`: left height minus right height, 0 for an absent node. */
  function Balance<D>(t: Tree<D>): int {
    if t.Nil? then 0 else Height(t.left) - Height(t.right)
  }

  /** The node with its cached height recomputed from its children's cached heights. */
  function WithHeight<D>(t: Tree<D>): (r: Tree<D>)
    requires t.Node?
    ensures r.Node? && r.left == t.left && r.right == t.right && r.key == t.key && r.data == t.data
    ensures Height(r) == 1 + Max(Height(t.left), Height(t.right))
  {
    t.(height := 1 + Max(Height(t.left), Height(t.right)))
  }

  // ----- What a subtree stores -----

  ghost function Keys<D>(t: Tree<D>): set<int> {
    match t
    case Nil => {}
    case Node(l, k, _, _, r) => Keys(l) + {k} + Keys(r)
  }

  /** Document to payload; on a repeated key the later one in in-order wins (never happens in an ordered tree). */
  ghost function Contents<D>(t: Tree<D>): map<int, D> {
    match t
    case Nil => map[]
    case Node(l, k, d, _, r) => Contents(l) + map[k := d] + Contents(r)
  }

  /** Number of nodes reachable from `t`. */
  function Size<D>(t: Tree<D>): nat {
    match t
    case Nil => 0
    case Node(l, _, _, _, r) => Size(l) + 1 + Size(r)
  }

  function InOrderKeys<D>(t: Tree<D>): seq<int> {
    match t
    case Nil => []
    case Node(l, k, _, _, r) => InOrderKeys(l) + [k] + InOrderKeys(r)
  }

  // ----- Traversals (`_in_order_recursive`, `_pre_order_recursive`, `_post_order_recursive`) -----

  function InOrder<D>(t: Tree<D>): seq<D> {
    match t
    case Nil => []
    case Node(l, _, d, _, r) => InOrder(l) + [d] + InOrder(r)
  }

  function PreOrder<D>(t: Tree<D>): seq<D> {
    match t
    case Nil => []
    case Node(l, _, d, _, r) => [d] + PreOrder(l) + PreOrder(r)
  }

  function PostOrder<D>(t: Tree<D>): seq<D> {
    match t
    case Nil => []
    case Node(l, _, d, _, r) => PostOrder(l) + PostOrder(r) + [d]
  }

  // ----- Invariants -----

  /** Every key in the left subtree is smaller and every key in the right subtree larger than the node's key. */
  ghost predicate Ordered<D>(t: Tree<D>) {
    match t
    case Nil => true
    case Node(l, k, _, _, r) =>
      Ordered(l) && Ordered(r) &&
      (forall j :: j in Keys(l) ==> j < k) &&
      (forall j :: j in Keys(r) ==> k < j)
  }

  /** Every cached height is 1 + the larger cached height of the children (absent children count 0). */
  ghost predicate HeightsOk<D>(t: Tree<D>) {
    t.Node? ==>
      HeightsOk(t.left) && HeightsOk(t.right) &&
      t.height == 1 + Max(Height(t.left), Height(t.right))
  }

  /** Every node's balance factor lies in [-1, 1]. */
  ghost predicate Balanced<D>(t: Tree<D>) {
    t.Node? ==> Balanced(t.left) && Balanced(t.right) && -1 <= Balance(t) <= 1
  }

  ghost predicate KeysInRange<D>(t: Tree<D>) {
    forall k :: k in Keys(t) ==> InRange(k)
  }

  /** The invariant the AVL tree keeps between operations. */
  ghost predicate Avl<D>(t: Tree<D>) {
    Ordered(t) && HeightsOk(t) && Balanced(t)
  }

  // ----- Rotations (`_rotate_left`, `_rotate_right`) -----

  /** Promotes `z.right`; returns `z` itself when it has no right child. */
  function RotateLeft<D>(z: Tree<D>): (r: Tree<D>)
    requires z.Node?
    ensures r.Node?
  {
    if z.right.Nil? then z
    else
      var y := z.right;
      var z' := WithHeight(Node(z.left, z.key, z.data, z.height, y.left));
      WithHeight(Node(z', y.key, y.data, y.height, y.right))
  }

  /** Promotes `z.left`; returns `z` itself when it has no left child. */
  function RotateRight<D>(z: Tree<D>): (r: Tree<D>)
    requires z.Node?
    ensures r.Node?
  {
    if z.left.Nil? then z
    else
      var y := z.left;
      var z' := WithHeight(Node(y.right, z.key, z.data, z.height, z.right));
      WithHeight(Node(y.left, y.key, y.data, y.height, z'))
  }

  // ----- Insertion (`_insert_recursive`) -----

  /** Lines 87-111 of avl_tree.py: recompute the height, then pick a rotation by comparing the new key with the child's key. */
  function RebalanceInsert<D>(n: Tree<D>, k: int): (r: Tree<D>)
    requires n.Node?
    ensures r.Node?
  {
    var m := WithHeight(n);
    var b := Balance(m);
    if b > 1 && m.left.Node? && k < m.left.key then RotateRight(m)
    else if b < -1 && m.right.Node? && k > m.right.key then RotateLeft(m)
    else if b > 1 && m.left.Node? && k > m.left.key then RotateRight(m.(left := RotateLeft(m.left)))
    else if b < -1 && m.right.Node? && k < m.right.key then RotateLeft(m.(right := RotateRight(m.right)))
    else m
  }

  /** A fresh node as `Node(document=k, data=d)` builds it: refused outside 0..999999. */
  function NewLeaf<D>(k: int, d: D): Result<Tree<D>, TreeError> {
    match NormalizeDocument(IntDoc(k))
    case Ok(n) => Ok(Node(Nil, n, d, 1, Nil))
    case Err(e) => Err(InvalidDocument(e))
  }

  function Insert<D>(t: Tree<D>, k: int, d: D): Result<Tree<D>, TreeError> {
    match t
    case Nil => NewLeaf(k, d)
    case Node(l, x, dx, h, r) =>
      if k < x then
        match Insert(l, k, d)
        case Err(e) => Err(e)
        case Ok(l') => Ok(RebalanceInsert(Node(l', x, dx, h, r), k))
      else if k > x then
        match Insert(r, k, d)
        case Err(e) => Err(e)
        case Ok(r') => Ok(RebalanceInsert(Node(l, x, dx, h, r'), k))
      else Err(DuplicateDocument(k))
  }

  // ----- Search (`_search_recursive`) -----

  function Find<D>(t: Tree<D>, k: int): Option<D> {
    match t
    case Nil => None
    case Node(l, x, d, _, r) =>
      if x == k then Some(d) else if k < x then Find(l, k) else Find(r, k)
  }

  // ----- Deletion (`_delete_recursive`, `_find_min`) -----

  /** The leftmost node: what `_find_min` walks to. */
  function MinNode<D>(t: Tree<D>): (r: Tree<D>)
    requires t.Node?
    ensures r.Node? && r.key in Keys(t)
  {
    if t.left.Nil? then t else MinNode(t.left)
  }

  /** The rightmost node: what `get_max` walks to. */
  function MaxNode<D>(t: Tree<D>): (r: Tree<D>)
    requires t.Node?
    ensures r.Node? && r.key in Keys(t)
  {
    if t.right.Nil? then t else MaxNode(t.right)
  }

  /** Lines 209-234 of avl_tree.py: recompute the height, then pick a rotation from the child's balance factor. */
  function RebalanceDelete<D>(n: Tree<D>): (r: Tree<D>)
    requires n.Node?
    ensures r.Node?
  {
    var m := WithHeight(n);
    var b := Balance(m);
    if b > 1 && Balance(m.left) >= 0 then RotateRight(m)
    else if b > 1 && Balance(m.left) < 0 then RotateRight(m.(left := RotateLeft(m.left)))
    else if b < -1 && Balance(m.right) <= 0 then RotateLeft(m)
    else if b < -1 && Balance(m.right) > 0 then RotateLeft(m.(right := RotateRight(m.right)))
    else m
  }

  function Delete<D>(t: Tree<D>, k: int): Removal<D> {
    match t
    case Nil => Removal(Nil, false)
    case Node(l, x, dx, h, r) =>
      if k < x then
        var res := Delete(l, k);
        Removal(RebalanceDelete(Node(res.tree, x, dx, h, r)), res.removed)
      else if k > x then
        var res := Delete(r, k);
        Removal(RebalanceDelete(Node(l, x, dx, h, res.tree)), res.removed)
      else if l.Nil? then Removal(r, true)
      else if r.Nil? then Removal(l, true)
      else
        var s := MinNode(r);
        var res := Delete(r, s.key);
        Removal(RebalanceDelete(Node(l, s.key, s.data, h, res.tree)), res.removed)
  }
}
