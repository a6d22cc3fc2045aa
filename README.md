# Library catalogue binary search tree

A model of the binary search tree behind the library catalogue in
`library.py`. The tree is unbalanced and keyed by a book's integer ISBN. Each
node holds one `Book` record. The model covers:

- `insert`/`_insert`, with the optional `overwrite` of a duplicate;
- `search`/`_search`;
- `delete`/`_delete`, including the two-child case, where the node takes the
  key and record of its in-order successor and the successor is then deleted
  from the right subtree;
- `_min_value_node`;
- the inorder, preorder and postorder traversals with their recursive helpers;
- the queue-driven `level_order_traversal`;
- the ten-record seeding done by `initialize_books`, as a concrete check.

The model has two layers.

- `TreeModel` (tree_model.dfy) is the value-level tree. `Tree<D>` is either
  `Leaf`, an empty child slot (Python's `None`), or `Branch(left, key, data,
  right)`. Functions there mirror the recursive helpers one for one: `Find`,
  `Insert`, `MinNode`, `Delete`, `Inorder`, `Preorder`, `Postorder`, and
  `Bfs`/`LevelOrder` for the queue loop. Beside them sit the abstract views
  the properties are stated in:
  - `Keys`, the set of keys;
  - `Contents`, the index as a map from ISBN to record;
  - `Size`, the number of nodes;
  - `Skeleton`, the shape with the records dropped;
  - `IsBST`, the ordering invariant.
- `Library` (library.dfy) is the in-place structure. `Node` objects are
  linked through their `left` and `right` fields and owned by a
  `BinarySearchTree` through `root`. Each node carries a ghost footprint
  (`Repr`) and a ghost value (`Model`). Each method is proved to change that
  value exactly as the matching `TreeModel` function does. `_insert`,
  `_delete` and `delete` update fields in place. `_min_value_node` and
  `level_order_traversal` are `while` loops with their invariants.

The modules `SearchProperties`, `InsertProperties`, `DeleteProperties` and
`TraversalProperties` prove what the functions mean. `Fixture` computes the
tree that the seed records build and checks the outcome of searches,
traversals and a deletion on it.

## Model

| member | source | states |
|---|---|---|
| TreeModel.Find | library.py:72-77 | a node that the search returns holds the searched key, and that key is in the tree |
| TreeModel.MinNode | library.py:107-111 | following left children from a non-empty subtree ends at a node that has no left child and whose key is in the subtree |
| TreeModel.Children | library.py:154-157 | what one loop step enqueues is a list of non-empty subtrees that together hold as many nodes as lie below the popped one |
| SearchProperties.FindCorrect | library.py:72-77 | on an ordered tree the search finds a node exactly when the key is in the tree, and that node's record is the one the index maps the key to |
| SearchProperties.MinNodeIsLeast | library.py:107-111 | the node reached holds the least key of the subtree, and its record is the one the index maps that key to |
| InsertProperties.InsertKeys | library.py:40-54 | after insertion the key set is the old key set plus the inserted key |
| InsertProperties.InsertKeepsOrder | library.py:33-62 | insertion keeps the tree ordered, whatever the key and the `overwrite` flag |
| InsertProperties.InsertContents | library.py:33-62 | the index after insertion maps the key to the new record; the index is unchanged when the key was present and `overwrite` is off |
| InsertProperties.InsertNewKey | library.py:33-54 | a key not in the tree: reports success, keeps the order, adds exactly that key with its record, and adds one node |
| InsertProperties.InsertNewKeySize | library.py:43-54 | a new key adds exactly one node |
| InsertProperties.InsertDuplicateRejected | library.py:55-62 | a present key without `overwrite`: reports failure, and the tree is exactly the old tree |
| InsertProperties.InsertDuplicateOverwrites | library.py:55-59 | a present key with `overwrite`: reports success; shape, keys, node count and order are kept; only that key's record is replaced |
| InsertProperties.OverwriteKeepsSkeleton | library.py:56-58 | overwriting changes no position and no key |
| DeleteProperties.DeleteKeepsOrder | library.py:87-105 | deletion keeps the tree ordered and removes exactly the deleted key from the key set, including in the two-child case |
| DeleteProperties.DeleteContents | library.py:87-105 | the index after deletion is the old index without the deleted key; every other key keeps its record |
| DeleteProperties.DeletePresentSize | library.py:87-105 | deleting a key that is in the tree removes exactly one node |
| DeleteProperties.DeleteAbsent | library.py:87-95 | deleting a key that is not in the tree gives back the same tree: same shape, keys and records |
| DeleteProperties.DeleteThenSearch | library.py:85-105 | after deleting a present key, a search for it finds nothing and the tree has one node fewer |
| TraversalProperties.InorderKeysAreKeys | library.py:118-122 | inorder visits each node once: as many entries as nodes, and every key of the tree appears |
| TraversalProperties.InorderKeysAscend | library.py:118-122 | on an ordered tree, inorder visits the keys in strictly ascending order |
| TraversalProperties.InorderRecordsFollowKeys | library.py:118-122 | the record at each inorder position is the one the index holds for the key at that position |
| TraversalProperties.InorderIsSortedIndex | library.py:113-122 | the inorder result is the whole index sorted by key: one record per node, keys strictly ascending, each record the one its key maps to |
| TraversalProperties.PreorderIsPermutation | library.py:124-133 | preorder returns one record per node, and the same multiset of records as inorder |
| TraversalProperties.PostorderIsPermutation | library.py:135-144 | postorder returns one record per node, and the same multiset of records as inorder |
| TraversalProperties.BfsRecords | library.py:151-157 | running the queue emits each record of its subtrees exactly once |
| TraversalProperties.LevelOrderIsPermutation | library.py:146-158 | level order returns one record per node, the same multiset as inorder, and the root's record first |
| TraversalProperties.BfsDrainsFront | library.py:151-157 | FIFO order: the queue emits the roots already waiting before any child enqueued behind them |
| TraversalProperties.BfsIsLevels | library.py:151-157 | the FIFO queue gives the same sequence as the level-by-level reference definition `Levels` |
| TraversalProperties.LevelOrderByLevels | library.py:146-158 | level order is the tree read level by level from the root, each level left to right |
| TraversalProperties.NextLevelSize | library.py:154-157 | the subtrees of the next level together hold as many nodes as the forest minus its roots |
| Library.Node.constructor | library.py:22-26 | a new node has two empty slots and the given key and record |
| Library.BinarySearchTree.constructor | library.py:30-31 | a new tree is empty |
| Library.BinarySearchTree.Insert | library.py:33-38 | an empty root slot is filled directly; the tree changes as `Insert` says and stays ordered; the result is true unless the key was present without `overwrite`; the index gains or updates that key |
| Library.BinarySearchTree.InsertAt | library.py:40-62 | the subtree changes in place as `Insert` says, and the result is the one `Inserted` describes |
| Library.BinarySearchTree.SearchAt | library.py:72-77 | returns the node `Find` describes, or null; a returned node holds the searched key |
| Library.BinarySearchTree.Search | library.py:64-70 | returns null exactly when the key is not in the index; otherwise returns a node holding that key and the record the index maps it to |
| Library.BinarySearchTree.MinValueNode | library.py:107-111 | the loop ends at a node with no left child, namely the node `MinNode` describes |
| Library.BinarySearchTree.DeleteAt | library.py:87-105 | the child slot afterwards holds the tree `Delete` describes; it is built from the subtree's own nodes |
| Library.BinarySearchTree.Delete | library.py:79-85 | the root slot takes what `_delete` returns; the tree stays ordered; the index loses exactly that key |
| Library.BinarySearchTree.InorderInto | library.py:118-122 | appends the subtree's inorder records to the list it is given |
| Library.BinarySearchTree.InorderTraversal | library.py:113-116 | returns the inorder records, one per node |
| Library.BinarySearchTree.PreorderInto | library.py:129-133 | appends the subtree's preorder records to the list it is given |
| Library.BinarySearchTree.PreorderTraversal | library.py:124-127 | returns the preorder records: one per node, the same multiset as inorder |
| Library.BinarySearchTree.PostorderInto | library.py:140-144 | appends the subtree's postorder records to the list it is given |
| Library.BinarySearchTree.PostorderTraversal | library.py:135-138 | returns the postorder records: one per node, the same multiset as inorder |
| Library.BinarySearchTree.NonEmptyChildren | library.py:154-157 | the nodes appended for the current node are its non-empty children, left first |
| Library.BinarySearchTree.LevelOrderTraversal | library.py:146-158 | the queue loop returns the level order: one record per node, the same multiset as inorder |
| Fixture.InitializeBooks | library.py:161-177 | seeding inserts the ten records in order, each under its ISBN, without `overwrite` |
| Fixture.SeedingBuildsSeededTree | library.py:161-177 | the seed records build a tree with 10 at the root; 5 and 15 on the second level; 2, 8, 12 and 18 on the third; 11, 14 and 20 on the fourth |
| Fixture.SeededSearch | library.py:72-77 | the seeded tree is ordered; ISBN 999 is not found; ISBN 14 is found and holds "Book Nine" |
| Fixture.SeededInorder | library.py:113-122 | inorder on the seeded tree lists the ISBNs 2, 5, 8, 10, 11, 12, 14, 15, 18, 20 |
| Fixture.SeededLevelOrder | library.py:146-158 | level order on the seeded tree lists the ISBNs 10, 5, 15, 2, 8, 12, 18, 11, 14, 20 |
| Fixture.SeededDeleteRoot | library.py:96-104 | deleting the root 10, which has two children, puts its successor 11 at the root, and inorder then lists the other nine ISBNs ascending |

## Left out

- Console output: the `rich` messages printed by `_insert`, `search`, `delete` and `_delete` on a duplicate, on an invalid ISBN and on a missing key are left out. They are side effects only. The outcomes are modelled as the returned `bool`, the returned node or null, and the new tree.
- ISBN parsing: `int(...)` on keys and the `ValueError` handling in `Book`, `search` and `delete` are left out. Keys are Dafny `int`s from the start. `insert` stores the caller's key unconverted at an empty root. `_insert` converts both the node's key and the new key with `int(...)`. `search` and `delete` convert the searched key once before descending, and `_search` and `_delete` convert the node's key at each comparison. So every comparison is between integers, and integer keys behave the same.
- `Book.__str__`, `display_books` and `menu` are left out. They are presentation and interactive input/output.
- Traversal helpers: the shared, mutable `result` list is modelled as a sequence passed in and returned. No other code holds that list while a traversal runs.
- Library.BinarySearchTree.DeleteAt: the ghost footprint `Repr` of a node is not shrunk when a descendant is unlinked. The footprint is a proof device, not a field of the source, and the contract bounds the returned subtree's footprint by the old one.
- Library.BinarySearchTree.Delete: the tree's footprint keeps the nodes that were unlinked, for the same reason. The source then leaves them to the garbage collector.
- Recursion depth: `_insert`, `_search`, `_delete` and the three traversal helpers recurse once per level, so in the source a degenerate tree deeper than Python's recursion limit (about 1000 levels) raises `RecursionError`, which `menu` does not catch. The model's recursion has no depth bound and always completes.
- `level_order_traversal` pops with `queue.pop(0)`. This is modelled as dropping the first element of a sequence; the cost of that operation is not modelled.
