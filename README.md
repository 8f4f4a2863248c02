# Children registry trees, modelled in Dafny

The repository keeps a registry of children in memory, in two variants:

- **`api_avl`**: a self-balancing AVL tree keyed by the child's `document`.
  - The document is a number of at most six digits (0..999999), given as an int or as a numeric string.
  - Every node caches its height. Insertion and deletion rotate to keep every balance factor in -1..1.
- **`api_abb`**: an unbalanced binary search tree keyed by an integer `id`.
  - It has no range check and no rebalancing.
  - Deleting a node with two children copies in its in-order successor.

Both trees count their nodes in a `_size` field. Both can be walked in order, pre-order and post-order, and both answer search, minimum, maximum, size, emptiness and clear.

The project has two layers for each tree.

- **Value layer** (`AvlSpec`, `BstSpec`):
  - Datatypes and functions that follow the Python recursion branch by branch.
  - Same comparisons, same rotation cases, same successor rule, same error conditions.
  - The lemmas in `AvlProofs` and `BstProofs` prove what these functions guarantee:
    - the tree stays ordered (and, for the AVL, balanced with correct cached heights);
    - insertion adds exactly the new entry, and deletion removes exactly the key;
    - search is a dictionary lookup;
    - the in-order walk is the sorted contents;
    - the traversals are permutations of one another;
    - the counter equals the number of keys.
- **Heap layer** (`AvlTree`, `BstTree`):
  - Node classes with mutable `left`, `right`, `height`, `document`/`id` and `data` fields.
  - Tree classes with `root` and `size`.
  - Every method that rewires nodes is proved to leave the subtree abstracted by the value-layer function of the old subtree.
  - The tree's `Valid()` invariant holds that the abstraction is ordered (and AVL-balanced), and that `size` equals its number of nodes.

Other modules:

- `Documents`: the document normalisation done by the AVL node's `__post_init__` and by `insert`, `search` and `delete`.
- `KeySequences`: a shared vocabulary for strictly increasing key sequences.
- `AvlScenarios` and `BstScenarios`: pin the concrete tree shapes that the unit tests check, computed from the value layer.

## Model

| member | source | states |
|---|---|---|
| Documents.ParseInt | api_avl/src/api_avl/model/node.py:33-39 | a string converts to an integer exactly when it is non-empty digits with at most one leading sign (the `int()` conversion that raises ValueError otherwise); the value is stated by Documents.ParseIntIsSpelling |
| Documents.ParseDigits | api_avl/src/api_avl/model/node.py:33-35 | a digit string converts to its decimal value, behind `+` to the same value and behind `-` to its negation |
| Documents.ParseShown | api_avl/src/api_avl/model/node.py:33-35 | the decimal spelling of any number, with any leading zeros, converts to that number |
| Documents.ParseShownPlus | api_avl/src/api_avl/model/node.py:33-35 | the same spelling behind `+` converts to the same number |
| Documents.ParseShownMinus | api_avl/src/api_avl/model/node.py:33-35 | the same spelling behind `-` converts to the negated number ("-0" to 0) |
| Documents.DigitsAreZerosThenShown | api_avl/src/api_avl/model/node.py:33-35 | every non-empty digit string is some leading zeros followed by the decimal spelling of its value |
| Documents.ParsedSpells | api_avl/src/api_avl/model/node.py:33-39 | whatever a string converts to, the string is a sign-and-digits spelling of that value |
| Documents.SpellingParses | api_avl/src/api_avl/model/node.py:33-39 | every sign-and-digits spelling of a value converts to that value |
| Documents.ParseIntIsSpelling | api_avl/src/api_avl/model/node.py:33-39 | a string converts to `v` if and only if it spells `v`: leading zeros and the digits of its magnitude, with an optional `+` for a non-negative and a `-` for a non-positive value |
| Documents.SignedExamples | api_avl/src/api_avl/model/node.py:33-47 | "-0" converts to 0 and is accepted as document 0, "+7" is document 7, "-5" converts to -5 and is out of range, "-" and "+-1" do not convert |
| Documents.NormalizeDocument | api_avl/src/api_avl/model/node.py:31-47 | an int document is accepted exactly when it lies in 0..999999 and is kept unchanged; a non-int, non-string is a type error; a non-numeric string is a conversion error; every accepted document lies in 0..999999 |
| Documents.ShowNatRoundTrip | api_avl/src/api_avl/model/node.py:33-35 | reading back the decimal spelling of a number gives the number |
| Documents.LeadingZeroIgnored | api_avl/tests/test_node.py:153-157 | a leading "0" does not change the value of a digit string |
| Documents.ZerosThenDigits | api_avl/tests/test_node.py:153-157 | any number of leading zeros does not change the value of a digit string |
| Documents.NormalizeShownDocument | api_avl/src/api_avl/model/node.py:31-47 | every in-range number, written as a string with any number of leading zeros, normalises to itself |
| Documents.NormalizeExamples | api_avl/tests/test_node.py:28-94 | "00123" gives 123, "12345" gives 12345, "abc123" is not convertible, 0 and 999999 are accepted, 1000000 and -1 are out of range, a non-int non-string is refused |
| KeySequences.IncreasingConcat | api_avl/src/api_avl/model/avl_tree.py:251-273 | an in-order key list `a + [x] + b` is strictly increasing exactly when both parts are, `a` lies below `x` and `b` above it |
| KeySequences.SameMembersBounds | api_abb/src/api_abb/model/binary_search_tree.py:175-199 | a key set and a key sequence with the same members have the same upper and lower bounds |
| AvlSpec.WithHeight | api_avl/src/api_avl/model/avl_tree.py:88 | the refreshed node keeps links, key and payload, and its height is one more than its taller child's |
| AvlSpec.MinNode | api_avl/src/api_avl/model/avl_tree.py:236-249 | the leftmost node exists and its key is stored in the subtree |
| AvlSpec.MaxNode | api_avl/src/api_avl/model/avl_tree.py:452-464 | the rightmost node exists and its key is stored in the subtree |
| AvlProofs.HeightsOkNonneg | api_avl/src/api_avl/model/avl_tree.py:332-344 | with correct cached heights, an absent child has height 0 and a node at least 1 |
| AvlProofs.KeysAreInOrderKeys | api_avl/src/api_avl/model/avl_tree.py:262-273 | the in-order key list holds exactly the stored keys |
| AvlProofs.ContentsKeys | api_avl/src/api_avl/model/avl_tree.py:132-148 | the key-to-payload map is defined exactly on the stored keys |
| AvlProofs.OrderedIffIncreasing | api_avl/src/api_avl/model/avl_tree.py:251-273 | the search-tree order holds exactly when the in-order key list is strictly increasing |
| AvlProofs.BoundsViaInOrder | api_avl/src/api_avl/model/avl_tree.py:251-273 | all keys of a subtree lie below (above) a bound exactly when all in-order keys do |
| AvlProofs.SameInOrderKeysOrdered | api_avl/src/api_avl/model/avl_tree.py:363-413 | a reshaping that keeps the in-order key list keeps the tree ordered |
| AvlProofs.TraversalLengths | api_avl/src/api_avl/model/avl_tree.py:251-330 | each of the three walks lists as many payloads as there are nodes |
| AvlProofs.SizeIsKeyCount | api_avl/src/api_avl/model/avl_tree.py:323-330 | in an ordered tree the node count is the number of distinct keys |
| AvlProofs.TraversalsSamePayloads | api_avl/src/api_avl/model/avl_tree.py:251-321 | pre-order and post-order are permutations of in-order |
| AvlProofs.InOrderIsSortedContents | api_avl/src/api_avl/model/avl_tree.py:251-273 | in-order lists keys strictly increasing, one per stored key, and the i-th payload is the one stored under the i-th key |
| AvlProofs.FindIsLookup | api_avl/src/api_avl/model/avl_tree.py:132-148 | in an ordered tree the search returns the payload stored under the key, and nothing when the key is absent |
| AvlProofs.MinNodeIsMin | api_avl/src/api_avl/model/avl_tree.py:236-249 | the leftmost key is at most every stored key, and its payload is the one stored under it |
| AvlProofs.MaxNodeIsMax | api_avl/src/api_avl/model/avl_tree.py:452-464 | the rightmost key is at least every stored key, and its payload is the one stored under it |
| AvlProofs.RotateLeftKeepsEntries | api_avl/src/api_avl/model/avl_tree.py:363-387 | a left rotation keeps the in-order walk, keys, entries and node count |
| AvlProofs.RotateRightKeepsEntries | api_avl/src/api_avl/model/avl_tree.py:389-413 | a right rotation keeps the in-order walk, keys, entries and node count |
| AvlProofs.ReplaceChildKeepsEntries | api_avl/src/api_avl/model/avl_tree.py:102-103 | relinking a child by one with the same entries keeps the node's entries |
| AvlProofs.RebalanceInsertKeepsEntries | api_avl/src/api_avl/model/avl_tree.py:87-111 | the post-insert rebalance keeps the in-order walk, keys, entries and node count |
| AvlProofs.RebalanceDeleteKeepsEntries | api_avl/src/api_avl/model/avl_tree.py:209-234 | the post-delete rebalance keeps the in-order walk, keys, entries and node count |
| AvlProofs.FixLeftHeavySingle | api_avl/src/api_avl/model/avl_tree.py:93-95 | left-left: one right rotation balances a node whose left side is two taller; the result is as tall as that side, one taller when the side was perfectly balanced |
| AvlProofs.FixLeftHeavyDouble | api_avl/src/api_avl/model/avl_tree.py:101-104 | left-right: rotating the left child left and the node right balances such a node; the result is as tall as the heavy side |
| AvlProofs.FixRightHeavySingle | api_avl/src/api_avl/model/avl_tree.py:97-99 | right-right: one left rotation balances a node whose right side is two taller; the result is as tall as that side, one taller when the side was perfectly balanced |
| AvlProofs.FixRightHeavyDouble | api_avl/src/api_avl/model/avl_tree.py:106-109 | right-left: rotating the right child right and the node left balances such a node; the result is as tall as the heavy side |
| AvlProofs.RebalanceDeleteSound | api_avl/src/api_avl/model/avl_tree.py:209-234 | rebalancing a node whose children differ by at most two yields a balanced node with correct heights; it only refreshes the height when the node was already balanced |
| AvlProofs.RebalanceInsertAgrees | api_avl/src/api_avl/model/avl_tree.py:87-111 | after an insertion the key-driven case choice of `_insert_recursive` picks the same rotation as the balance-driven choice of `_delete_recursive` |
| AvlProofs.InsertLeftBalance | api_avl/src/api_avl/model/avl_tree.py:80-111 | inserting into the left subtree and rebalancing keeps the node balanced and grows its height by at most one |
| AvlProofs.InsertRightBalance | api_avl/src/api_avl/model/avl_tree.py:82-111 | the same for the right subtree |
| AvlProofs.ContentsReplaceChild | api_avl/src/api_avl/model/avl_tree.py:80-83 | storing the new entry in one child stores it in the node |
| AvlProofs.InsertLeftStep | api_avl/src/api_avl/model/avl_tree.py:80-111 | a successful left insertion followed by the rebalance gives an AVL tree with the old entries plus the new one and one more node |
| AvlProofs.InsertRightStep | api_avl/src/api_avl/model/avl_tree.py:82-111 | the same for the right subtree |
| AvlProofs.InsertSound | api_avl/src/api_avl/model/avl_tree.py:58-111 | insertion into an AVL tree fails exactly when the key is stored (duplicate) or out of 0..999999 (range error); otherwise the result is an AVL tree holding the old entries plus the new one, one node larger |
| AvlProofs.DeleteBalance | api_avl/src/api_avl/model/avl_tree.py:209-234 | rebalancing after a child kept its height or lost one gives a balanced node of the same height or one shorter |
| AvlProofs.MinusLeft | api_avl/src/api_avl/model/avl_tree.py:187-188 | removing a key from the left part removes it from the node's entries |
| AvlProofs.MinusRight | api_avl/src/api_avl/model/avl_tree.py:189-190 | removing a key from the right part removes it from the node's entries |
| AvlProofs.MinusRoot | api_avl/src/api_avl/model/avl_tree.py:202-206 | moving the successor's entry up to the node removes exactly the node's own key |
| AvlProofs.DeleteLeftStep | api_avl/src/api_avl/model/avl_tree.py:187-188 | a deletion in the left subtree followed by the rebalance removes exactly the key and keeps the AVL shape |
| AvlProofs.DeleteRightStep | api_avl/src/api_avl/model/avl_tree.py:189-190 | the same for the right subtree |
| AvlProofs.SuccessorOrdered | api_avl/src/api_avl/model/avl_tree.py:202-206 | the node rebuilt around the in-order successor is ordered |
| AvlProofs.SuccessorEntries | api_avl/src/api_avl/model/avl_tree.py:202-206 | the node rebuilt around the successor stores the old entries minus the deleted key |
| AvlProofs.SuccessorKeys | api_avl/src/api_avl/model/avl_tree.py:202-206 | the node rebuilt around the successor stores the old keys minus the deleted key |
| AvlProofs.DeleteSuccessorStep | api_avl/src/api_avl/model/avl_tree.py:202-234 | the two-children case removes exactly the key and keeps the AVL shape |
| AvlProofs.DeleteOneChildStep | api_avl/src/api_avl/model/avl_tree.py:193-199 | a found node with at most one child is replaced by that child, which removes exactly the key |
| AvlProofs.DeleteSound | api_avl/src/api_avl/model/avl_tree.py:172-234 | deletion from an AVL tree reports whether the key was stored, removes exactly it, keeps the AVL shape and lowers the height by at most one |
| AvlProofs.DeleteAbsent | api_avl/src/api_avl/model/avl_tree.py:183-190 | deleting an absent key changes nothing |
| AvlTree.Node.Leaf | api_avl/src/api_avl/model/node.py:25-29 | a new node has no children and height 1 |
| AvlTree.Node.Relink | api_avl/src/api_avl/model/avl_tree.py:380-385 | relinking sets the children and height, keeps key and payload, and the abstraction follows |
| AvlTree.Node.SetHeight | api_avl/src/api_avl/model/avl_tree.py:88 | only the cached height changes |
| AvlTree.Node.CopyEntry | api_avl/src/api_avl/model/avl_tree.py:203-204 | the node takes the other node's key and payload; links and height stay |
| AvlTree.Node.Create | api_avl/src/api_avl/model/node.py:31-47 | creation fails exactly when the document does not normalise, with the same error; otherwise a fresh leaf with the normalised in-range key |
| AvlTree.AVLTree.constructor | api_avl/src/api_avl/model/avl_tree.py:24-27 | a new tree is empty with counter 0 |
| AvlTree.AVLTree.GetHeight | api_avl/src/api_avl/model/avl_tree.py:332-344 | the cached height of a node, 0 for an absent one, equals the abstract height |
| AvlTree.AVLTree.GetBalance | api_avl/src/api_avl/model/avl_tree.py:346-361 | left height minus right height of the abstraction |
| AvlTree.AVLTree.RotateLeft | api_avl/src/api_avl/model/avl_tree.py:363-387 | the in-place rotation leaves the subtree abstracted by the value-level left rotation |
| AvlTree.AVLTree.RotateRight | api_avl/src/api_avl/model/avl_tree.py:389-413 | the in-place rotation leaves the subtree abstracted by the value-level right rotation |
| AvlTree.AVLTree.RotateLeftRight | api_avl/src/api_avl/model/avl_tree.py:101-104 | rotate the left child left, then the node right |
| AvlTree.AVLTree.RotateRightLeft | api_avl/src/api_avl/model/avl_tree.py:106-109 | rotate the right child right, then the node left |
| AvlTree.AVLTree.BalanceAfterInsert | api_avl/src/api_avl/model/avl_tree.py:87-111 | the in-place height refresh and rotation produce the value-level post-insert rebalance |
| AvlTree.AVLTree.InsertRecursive | api_avl/src/api_avl/model/avl_tree.py:58-111 | on success the returned subtree abstracts the value-level insertion and only fresh nodes were added; on failure the error is the value-level one and no node changed |
| AvlTree.AVLTree.InsertInLeft | api_avl/src/api_avl/model/avl_tree.py:80-81 | insertion below the left child, with the same success and failure split |
| AvlTree.AVLTree.InsertInRight | api_avl/src/api_avl/model/avl_tree.py:82-83 | insertion below the right child, with the same success and failure split |
| AvlTree.AVLTree.Insert | api_avl/src/api_avl/model/avl_tree.py:29-56 | a missing document, a non-numeric string, a duplicate or an out-of-range key fail and change nothing; otherwise the tree is the insertion's result and the counter rises by one; the AVL invariant holds after |
| AvlTree.AVLTree.SearchRecursive | api_avl/src/api_avl/model/avl_tree.py:132-148 | the node found holds the key and the payload the value-level search returns; null exactly when that search finds nothing |
| AvlTree.AVLTree.Search | api_avl/src/api_avl/model/avl_tree.py:113-130 | the payload stored under the key, none when absent or when a string does not convert |
| AvlTree.AVLTree.Contains | api_avl/src/api_avl/model/avl_tree.py:475-485 | true exactly when the key converts and is stored |
| AvlTree.AVLTree.FindMin | api_avl/src/api_avl/model/avl_tree.py:236-249 | the loop reaches the leftmost node of the subtree |
| AvlTree.AVLTree.BalanceAfterDelete | api_avl/src/api_avl/model/avl_tree.py:209-234 | the in-place height refresh and rotation produce the value-level post-delete rebalance |
| AvlTree.AVLTree.DeleteRecursive | api_avl/src/api_avl/model/avl_tree.py:172-234 | the returned subtree abstracts the value-level deletion and the counter falls by one exactly when a node was removed |
| AvlTree.AVLTree.DeleteInLeft | api_avl/src/api_avl/model/avl_tree.py:188 | deletion below the left child, relinked |
| AvlTree.AVLTree.DeleteInRight | api_avl/src/api_avl/model/avl_tree.py:190 | deletion below the right child, relinked |
| AvlTree.AVLTree.ReplaceBySuccessor | api_avl/src/api_avl/model/avl_tree.py:202-207 | the node takes its successor's entry, the successor is deleted from the right subtree, and the counter's extra decrement is undone |
| AvlTree.AVLTree.Delete | api_avl/src/api_avl/model/avl_tree.py:150-170 | the result is true exactly when the key converts and was stored; the counter falls by one exactly then; the stored entries lose exactly that key; a non-numeric string changes nothing |
| AvlTree.AVLTree.InOrderRecursive | api_avl/src/api_avl/model/avl_tree.py:262-273 | appends the subtree's in-order walk to the accumulator |
| AvlTree.AVLTree.PreOrderRecursive | api_avl/src/api_avl/model/avl_tree.py:286-297 | appends the subtree's pre-order walk to the accumulator |
| AvlTree.AVLTree.PostOrderRecursive | api_avl/src/api_avl/model/avl_tree.py:310-321 | appends the subtree's post-order walk to the accumulator |
| AvlTree.AVLTree.InOrder | api_avl/src/api_avl/model/avl_tree.py:251-260 | the in-order walk of the whole tree, one payload per counted node |
| AvlTree.AVLTree.PreOrder | api_avl/src/api_avl/model/avl_tree.py:275-284 | the pre-order walk, starting with the root's payload |
| AvlTree.AVLTree.PostOrder | api_avl/src/api_avl/model/avl_tree.py:299-308 | the post-order walk, ending with the root's payload |
| AvlTree.AVLTree.Size | api_avl/src/api_avl/model/avl_tree.py:323-330 | the counter equals the number of nodes and of stored keys |
| AvlTree.AVLTree.Len | api_avl/src/api_avl/model/avl_tree.py:466-473 | the number of stored keys |
| AvlTree.AVLTree.IsEmpty | api_avl/src/api_avl/model/avl_tree.py:415-422 | true exactly when the tree has no node, equivalently the counter is 0 |
| AvlTree.AVLTree.Clear | api_avl/src/api_avl/model/avl_tree.py:424-429 | the tree becomes empty with counter 0 |
| AvlTree.AVLTree.GetRoot | api_avl/src/api_avl/model/avl_tree.py:431-438 | the root's payload, none exactly when empty |
| AvlTree.AVLTree.GetMin | api_avl/src/api_avl/model/avl_tree.py:440-450 | the payload stored under the smallest key, none exactly when empty |
| AvlTree.AVLTree.GetMax | api_avl/src/api_avl/model/avl_tree.py:452-464 | the payload stored under the largest key, none exactly when empty |
| AvlScenarios.AscendingInsertsRotateLeft | api_avl/tests/test_avl_tree.py:148-162 | inserting 10, 20, 30 rotates 20 to the root and in-order is 10, 20, 30 |
| AvlScenarios.DescendingInsertsRotateRight | api_avl/tests/test_avl_tree.py:164-178 | inserting 30, 20, 10 rotates 20 to the root and in-order is 10, 20, 30 |
| AvlScenarios.LeftRightInsertsDoubleRotate | api_avl/tests/test_avl_tree.py:180-193 | inserting 30, 10, 20 double-rotates 20 to the root |
| AvlScenarios.RightLeftInsertsDoubleRotate | api_avl/tests/test_avl_tree.py:195-208 | inserting 10, 30, 20 double-rotates 20 to the root |
| AvlScenarios.ThreeInsertsShape | api_avl/tests/test_avl_tree.py:510-522 | inserting 50, 30, 70 gives root 50 with two leaves |
| AvlScenarios.ThreeInsertsHeights | api_avl/tests/test_avl_tree.py:510-522 | in that tree the root has height 2 and the leaves height 1 |
| AvlScenarios.AddTwentyForty | api_avl/tests/test_avl_tree.py:275-291 | then inserting 20 and 40 hangs them under 30 without rotating |
| AvlScenarios.DeleteThirtyFromFive | api_avl/tests/test_avl_tree.py:275-291 | deleting 30 from that tree puts its successor 40 in its place |
| AvlScenarios.DeleteWithTwoChildren | api_avl/tests/test_avl_tree.py:275-291 | 50, 30, 70, 20, 40 then deleting 30 removes it and leaves in-order 20, 40, 50, 70 |
| BstSpec.MinNode | api_abb/src/api_abb/model/binary_search_tree.py:160-173 | the leftmost node exists, has no left child and its id is stored |
| BstSpec.MaxNode | api_abb/src/api_abb/model/binary_search_tree.py:292-305 | the rightmost node exists, has no right child and its id is stored |
| BstProofs.IdsAreInOrderIds | api_abb/src/api_abb/model/binary_search_tree.py:188-199 | the in-order id list holds exactly the stored ids |
| BstProofs.ContentsIds | api_abb/src/api_abb/model/binary_search_tree.py:75-94 | the id-to-payload map is defined exactly on the stored ids |
| BstProofs.BoundsViaInOrder | api_abb/src/api_abb/model/binary_search_tree.py:175-199 | all ids of a subtree lie below (above) a bound exactly when all in-order ids do |
| BstProofs.OrderedIffIncreasing | api_abb/src/api_abb/model/binary_search_tree.py:175-199 | the search-tree order holds exactly when the in-order id list is strictly increasing |
| BstProofs.TraversalLengths | api_abb/src/api_abb/model/binary_search_tree.py:175-247 | each of the three walks lists as many entries as there are nodes |
| BstProofs.SizeIsIdCount | api_abb/src/api_abb/model/binary_search_tree.py:249-256 | in an ordered tree the node count is the number of distinct ids |
| BstProofs.TraversalsSameEntries | api_abb/src/api_abb/model/binary_search_tree.py:175-247 | pre-order and post-order are permutations of in-order |
| BstProofs.InOrderEntryAt | api_abb/src/api_abb/model/binary_search_tree.py:188-199 | the i-th in-order entry is the i-th in-order id with the payload stored under it |
| BstProofs.InOrderIsSortedContents | api_abb/src/api_abb/model/binary_search_tree.py:175-199 | in-order lists ids strictly increasing, one per stored id, each with its stored payload |
| BstProofs.FindIsLookup | api_abb/src/api_abb/model/binary_search_tree.py:75-94 | in an ordered tree the search finds a node exactly when the id is stored, and that node carries the id and its stored payload |
| BstProofs.MinNodeIsMin | api_abb/src/api_abb/model/binary_search_tree.py:160-173 | the leftmost id is at most every stored id, with its stored payload |
| BstProofs.MaxNodeIsMax | api_abb/src/api_abb/model/binary_search_tree.py:292-305 | the rightmost id is at least every stored id, with its stored payload |
| BstProofs.InsertSound | api_abb/src/api_abb/model/binary_search_tree.py:36-61 | insertion fails with the duplicate-id error exactly when the id is stored; otherwise the new entry hangs as a leaf on an absent link, the tree stays ordered and stores the old entries plus the new one |
| BstProofs.InsertEntries | api_abb/src/api_abb/model/binary_search_tree.py:50-61 | adding an entry on one side of a node adds it to the node's entries |
| BstProofs.MinusLeft | api_abb/src/api_abb/model/binary_search_tree.py:129-130 | removing an id from the left part removes it from the node's entries |
| BstProofs.MinusRight | api_abb/src/api_abb/model/binary_search_tree.py:131-132 | removing an id from the right part removes it from the node's entries |
| BstProofs.MinusRoot | api_abb/src/api_abb/model/binary_search_tree.py:149-156 | moving the successor's entry up removes exactly the node's own id |
| BstProofs.DeleteLeftStep | api_abb/src/api_abb/model/binary_search_tree.py:129-130 | a deletion in the left subtree removes exactly the id and keeps the order |
| BstProofs.DeleteRightStep | api_abb/src/api_abb/model/binary_search_tree.py:131-132 | the same for the right subtree |
| BstProofs.SuccessorOrdered | api_abb/src/api_abb/model/binary_search_tree.py:149-156 | the node rebuilt around the in-order successor is ordered |
| BstProofs.SuccessorEntries | api_abb/src/api_abb/model/binary_search_tree.py:149-156 | it stores the old entries minus the deleted id |
| BstProofs.SuccessorIds | api_abb/src/api_abb/model/binary_search_tree.py:149-156 | it stores the old ids minus the deleted id |
| BstProofs.DeleteSuccessorStep | api_abb/src/api_abb/model/binary_search_tree.py:149-156 | the two-children case removes exactly the id and keeps the order |
| BstProofs.DeleteOneChildStep | api_abb/src/api_abb/model/binary_search_tree.py:133-147 | a leaf goes and a node with one child is replaced by it, removing exactly the id |
| BstProofs.DeleteSound | api_abb/src/api_abb/model/binary_search_tree.py:115-158 | deletion reports whether the id was stored, removes exactly it, keeps the order and lowers the node count by one exactly then |
| BstProofs.DeleteAbsent | api_abb/src/api_abb/model/binary_search_tree.py:115-132 | deleting an absent id changes nothing |
| BstTree.Node.constructor | api_abb/src/api_abb/model/node.py:18-29 | a new node holds the id and payload and has no children |
| BstTree.Node.WithoutData | api_abb/src/api_abb/model/node.py:18-29 | a node built from an id alone has no payload and no children |
| BstTree.Node.ToDict | api_abb/src/api_abb/model/node.py:35-45 | the record holds exactly the node's id and payload |
| BstTree.Node.SetLeft | api_abb/src/api_abb/model/binary_search_tree.py:52-53 | only the left link changes, and the abstraction follows |
| BstTree.Node.SetRight | api_abb/src/api_abb/model/binary_search_tree.py:58-59 | only the right link changes, and the abstraction follows |
| BstTree.Node.CopyEntry | api_abb/src/api_abb/model/binary_search_tree.py:151-152 | the node takes the other node's id and payload; its links stay |
| BstTree.BinarySearchTree.constructor | api_abb/src/api_abb/model/binary_search_tree.py:15-18 | a new tree is empty with counter 0 |
| BstTree.BinarySearchTree.Insert | api_abb/src/api_abb/model/binary_search_tree.py:20-34 | a duplicate id fails and changes nothing; otherwise the tree is the value-level insertion, the counter rises by one and the given node itself is linked into the tree (as the root of an empty tree) |
| BstTree.BinarySearchTree.InsertRecursive | api_abb/src/api_abb/model/binary_search_tree.py:36-61 | the in-place walk links the new node where the value-level insertion puts the leaf; a duplicate raises before any write |
| BstTree.BinarySearchTree.SearchRecursive | api_abb/src/api_abb/model/binary_search_tree.py:75-94 | the node found is the one the value-level search finds; null exactly when it finds nothing |
| BstTree.BinarySearchTree.Search | api_abb/src/api_abb/model/binary_search_tree.py:63-73 | null exactly when the id is not stored; otherwise the node with that id and its stored payload |
| BstTree.BinarySearchTree.FindMin | api_abb/src/api_abb/model/binary_search_tree.py:160-173 | the loop reaches the leftmost node of the subtree |
| BstTree.BinarySearchTree.DeleteRecursive | api_abb/src/api_abb/model/binary_search_tree.py:115-158 | the returned subtree abstracts the value-level deletion and the counter falls by one exactly when a node was removed |
| BstTree.BinarySearchTree.DeleteInLeft | api_abb/src/api_abb/model/binary_search_tree.py:130 | deletion below the left child, relinked |
| BstTree.BinarySearchTree.DeleteInRight | api_abb/src/api_abb/model/binary_search_tree.py:132 | deletion below the right child, relinked |
| BstTree.BinarySearchTree.ReplaceBySuccessor | api_abb/src/api_abb/model/binary_search_tree.py:149-156 | the node takes its successor's entry, the counter's extra decrement is undone and the successor is deleted from the right subtree |
| BstTree.BinarySearchTree.Delete | api_abb/src/api_abb/model/binary_search_tree.py:96-113 | the result is true exactly when the id was stored; the counter falls by one exactly then; the stored entries lose exactly that id |
| BstTree.BinarySearchTree.InOrderRecursive | api_abb/src/api_abb/model/binary_search_tree.py:188-199 | appends the subtree's in-order records to the accumulator |
| BstTree.BinarySearchTree.PreOrderRecursive | api_abb/src/api_abb/model/binary_search_tree.py:212-223 | appends the subtree's pre-order records to the accumulator |
| BstTree.BinarySearchTree.PostOrderRecursive | api_abb/src/api_abb/model/binary_search_tree.py:236-247 | appends the subtree's post-order records to the accumulator |
| BstTree.BinarySearchTree.InOrder | api_abb/src/api_abb/model/binary_search_tree.py:175-186 | one record per counted node, ids strictly increasing |
| BstTree.BinarySearchTree.PreOrder | api_abb/src/api_abb/model/binary_search_tree.py:201-210 | the pre-order records, starting with the root's |
| BstTree.BinarySearchTree.PostOrder | api_abb/src/api_abb/model/binary_search_tree.py:225-234 | the post-order records, ending with the root's |
| BstTree.BinarySearchTree.Size | api_abb/src/api_abb/model/binary_search_tree.py:249-256 | the counter equals the number of nodes and of stored ids |
| BstTree.BinarySearchTree.IsEmpty | api_abb/src/api_abb/model/binary_search_tree.py:258-265 | true exactly when the tree has no node, equivalently the counter is 0 |
| BstTree.BinarySearchTree.Clear | api_abb/src/api_abb/model/binary_search_tree.py:267-270 | the tree becomes empty with counter 0 |
| BstTree.BinarySearchTree.GetRoot | api_abb/src/api_abb/model/binary_search_tree.py:272-279 | the root node, null exactly when empty |
| BstTree.BinarySearchTree.GetMin | api_abb/src/api_abb/model/binary_search_tree.py:281-290 | the node with the smallest id and its stored payload, null exactly when empty |
| BstTree.BinarySearchTree.GetMax | api_abb/src/api_abb/model/binary_search_tree.py:292-305 | the node with the largest id and its stored payload, null exactly when empty |
| BstScenarios.FiveInsertsShape | api_abb/tests/test_binary_search_tree.py:332-382 | 50, 30, 70, 20, 40 gives root 50, 30 and 70 below it, 20 and 40 under 30 |
| BstScenarios.FiveTreeTraversals | api_abb/tests/test_binary_search_tree.py:350-382 | pre-order of that tree is 50, 30, 20, 40, 70 and post-order is 20, 40, 30, 70, 50 |
| BstScenarios.FiveInsertsTraversals | api_abb/tests/test_binary_search_tree.py:350-382 | the same walks after those five insertions |
| BstScenarios.DuplicateRefused | api_abb/tests/test_binary_search_tree.py:75-82 | inserting 50 a second time raises the duplicate-id error |
| BstScenarios.NegativeIdsAccepted | api_abb/tests/test_binary_search_tree.py:588-599 | negative ids are stored and walked in order |
| BstScenarios.DeleteRootTakesSuccessor | api_abb/tests/test_binary_search_tree.py:264-278 | deleting the root 50 of 50, 30, 70 moves 70 to the root |
| BstScenarios.SevenInsertsShape | api_abb/tests/test_binary_search_tree.py:236-262 | 50, 30, 70, 20, 40, 35, 45 gives the expected shape |
| BstScenarios.InsertAllAppend | api_abb/src/api_abb/model/binary_search_tree.py:20-34 | inserting a list in two parts is inserting the first part, then the second |
| BstScenarios.DeleteThirtyFromSeven | api_abb/tests/test_binary_search_tree.py:236-262 | deleting 30 from that tree moves 35 up and leaves 40 with only 45 |
| BstScenarios.DeleteTwoChildrenTakesSuccessor | api_abb/tests/test_binary_search_tree.py:236-262 | after the seven insertions, deleting 30 removes it and its successor 35 takes its place |

## Left out

- The HTTP layer is not part of this model: routes, controllers, services, schemas, `main.py` and the report endpoints. Only the two model packages are modelled.
- `__repr__` of both trees and of the BST node only produce display strings, so they are not modelled.
- Documents.ParseInt accepts only an optional sign followed by ASCII digits. Python's `int()` also accepts surrounding whitespace, `_` digit separators and non-ASCII digits; those inputs are not modelled.
- AvlTree.AVLTree.Insert, Search and Delete take the document as an int or a string only. Floats and bools passed straight to those methods are not modelled. The node's type error for a non-int, non-string document is modelled, in Documents.NormalizeDocument and AvlTree.Node.Create.
- AvlTree.Node.Leaf: the dataclass also accepts explicit `left`, `right` and `height` arguments. Every use in the tree builds a leaf, so only that form is modelled.
- AvlTree.AVLTree.Contains is true exactly when the key is stored. The source's `search(...) is not None` would also say false for a stored payload that is `None`. AVL payloads are child records (dicts), so that case is not modelled.
- Payloads are an opaque type parameter. The child record's other fields, and their validation, are not modelled.
- AvlTree.Node.Relink, BstTree.Node.SetLeft and BstTree.Node.SetRight group a rotation's or relink's field writes into one step. Intermediate states inside a rotation are not observable in the model.
- BstTree.BinarySearchTree.Insert requires a childless node that was never before inserted into this tree; the tree's footprint keeps removed nodes, so a removed node cannot be inserted again. The source does not check this: inserting a node that already has children, or is still linked, would graft or cycle. The model covers only the form every caller uses, a freshly built node.
- BstTree.BinarySearchTree.Search and GetRoot return nodes. A caller's later writes through such an alias are not modelled; the tree's invariant assumes only the tree's own methods write to its nodes.
- BST ids are unbounded integers, and so is the source's `id` (no range check). The AVL key range is modelled exactly.
- Concurrency and the process-wide singleton service that holds each tree are not modelled.

## Findings

None. Every contract above was proved of the code as written. In particular, the counter compensation in the two-children delete of both trees keeps `size` equal to the number of nodes.
