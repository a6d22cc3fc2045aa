/**
 The value-level model of the library's binary search tree.

 A `Tree` is the subtree hanging from one child slot of a node: `Leaf` is an
 empty slot (Python's `None`), `Branch` a node with its key (the ISBN), its
 record and its two subtrees. The functions in this module mirror the
 recursive helpers of `BinarySearchTree` one for one (`Find` is `_search`,
 `Insert` is `_insert`, `MinNode` is `_min_value_node`, `Delete` is `_delete`,
 and the four traversals), and define the abstract views (`Keys`, `Contents`,
 `Size`, `IsBST`) in which their properties are stated.
 */
module TreeModel {

  datatype Tree<D> = Leaf | Branch(left: Tree<D>, key: int, data: D, right: Tree<D>)

  /** The set of keys stored anywhere in `t`. */
  function Keys<D>(t: Tree<D>): set<int>
  {
    match t
    case Leaf => {}
    case Branch(l, k, _, r) => Keys(l) + {k} + Keys(r)
  }

  /** The number of nodes of `t`. */
  function Size<D>(t: Tree<D>): nat
  {
    match t
    case Leaf => 0
    case Branch(l, _, _, r) => Size(l) + 1 + Size(r)
  }

  /** The index that `t` represents: each key mapped to the record stored with it. */
  function Contents<D>(t: Tree<D>): map<int, D>
  {
    match t
    case Leaf => map[]
    case Branch(l, k, d, r) => (Contents(l) + Contents(r))[k := d]
  }

  /** The shape of `t` and the keys at each position, records forgotten. */
  function Skeleton<D>(t: Tree<D>): Tree<()>
  {
    match t
    case Leaf => Leaf
    case Branch(l, k, _, r) => Branch(Skeleton(l), k, (), Skeleton(r))
  }

  /** The ordering invariant: every key of a left subtree is smaller than its
      node's key, every key of a right subtree larger. Keys are therefore unique. */
  predicate IsBST<D>(t: Tree<D>)
  {
    match t
    case Leaf => true
    case Branch(l, k, _, r) =>
      IsBST(l) && IsBST(r) &&
      (forall j :: j in Keys(l) ==> j < k) &&
      (forall j :: j in Keys(r) ==> k < j)
  }

  /** `_search`: descend by comparison; the subtree whose root holds `k`, or `Leaf`. */
  function Find<D>(t: Tree<D>, k: int): (s: Tree<D>)
    ensures s.Branch? ==> s.key == k && k in Keys(t)
  {
    match t
    case Leaf => Leaf
    case Branch(l, nk, _, r) =>
      if k == nk then t
      else if k < nk then Find(l, k)
      else Find(r, k)
  }

  /** `_insert` (and `insert` on an empty tree): a new node in the empty slot the
      search for `k` reaches; on a duplicate, the record replaced when
      `overwrite` is set and the tree left as it is otherwise. */
  function Insert<D>(t: Tree<D>, k: int, d: D, overwrite: bool): Tree<D>
  {
    match t
    case Leaf => Branch(Leaf, k, d, Leaf)
    case Branch(l, nk, nd, r) =>
      if k < nk then Branch(Insert(l, k, d, overwrite), nk, nd, r)
      else if k > nk then Branch(l, nk, nd, Insert(r, k, d, overwrite))
      else if overwrite then Branch(l, nk, d, r)
      else t
  }

  /** The value `_insert` returns: true unless the search finds `k` and
      `overwrite` is off. */
  predicate Inserted<D>(t: Tree<D>, k: int, overwrite: bool)
  {
    Find(t, k).Leaf? || overwrite
  }

  /** `_min_value_node`: follow left children from the root of a non-empty tree. */
  function MinNode<D>(t: Tree<D>): (m: Tree<D>)
    requires t.Branch?
    ensures m.Branch? && m.left.Leaf?
    ensures m.key in Keys(t)
  {
    if t.left.Leaf? then t else MinNode(t.left)
  }

  /** `_delete`: a node with an empty slot is replaced by its other child; a node
      with two children takes the key and record of the least node of its right
      subtree, which is then deleted from that subtree. A key not on the search
      path changes nothing. */
  function Delete<D>(t: Tree<D>, k: int): Tree<D>
  {
    match t
    case Leaf => Leaf
    case Branch(l, nk, nd, r) =>
      if k < nk then Branch(Delete(l, k), nk, nd, r)
      else if k > nk then Branch(l, nk, nd, Delete(r, k))
      else if l.Leaf? then r
      else if r.Leaf? then l
      else
        var m := MinNode(r);
        Branch(l, m.key, m.data, Delete(r, m.key))
  }

  /** `_inorder_traversal`: left subtree, node, right subtree. */
  function Inorder<D>(t: Tree<D>): seq<D>
  {
    match t
    case Leaf => []
    case Branch(l, _, d, r) => Inorder(l) + [d] + Inorder(r)
  }

  /** The keys of the nodes in the order `Inorder` visits them. */
  function InorderKeys<D>(t: Tree<D>): seq<int>
  {
    match t
    case Leaf => []
    case Branch(l, k, _, r) => InorderKeys(l) + [k] + InorderKeys(r)
  }

  /** `_preorder_traversal`: node, left subtree, right subtree. */
  function Preorder<D>(t: Tree<D>): seq<D>
  {
    match t
    case Leaf => []
    case Branch(l, _, d, r) => [d] + Preorder(l) + Preorder(r)
  }

  /** `_postorder_traversal`: left subtree, right subtree, node. */
  function Postorder<D>(t: Tree<D>): seq<D>
  {
    match t
    case Leaf => []
    case Branch(l, _, d, r) => Postorder(l) + Postorder(r) + [d]
  }

  /** A queue (or forest) of non-empty subtrees, as `level_order_traversal` keeps. */
  predicate AllBranches<D>(q: seq<Tree<D>>)
  {
    forall i :: 0 <= i < |q| ==> q[i].Branch?
  }

  /** The total number of nodes in the subtrees of a queue. */
  function QueueSize<D>(q: seq<Tree<D>>): nat
  {
    if q == [] then 0 else Size(q[0]) + QueueSize(q[1..])
  }

  /** What `level_order_traversal` enqueues for a child slot: the child, if
      the slot is not empty. */
  function SlotQueue<D>(s: Tree<D>): (q: seq<Tree<D>>)
    ensures AllBranches(q) && QueueSize(q) == Size(s)
  {
    if s.Branch? then
      assert [s][1..] == [];
      [s]
    else []
  }

  /** The non-empty children of a node, left before right: what one step of
      `level_order_traversal` appends to the queue. */
  function Children<D>(t: Tree<D>): (c: seq<Tree<D>>)
    ensures AllBranches(c)
    ensures t.Branch? ==> QueueSize(c) == Size(t) - 1
  {
    match t
    case Leaf => []
    case Branch(l, _, _, r) =>
      QueueSizeAppend(SlotQueue(l), SlotQueue(r));
      SlotQueue(l) + SlotQueue(r)
  }

  lemma {:induction false} QueueSizeAppend<D>(a: seq<Tree<D>>, b: seq<Tree<D>>)
    ensures QueueSize(a + b) == QueueSize(a) + QueueSize(b)
  {
    if a != [] {
      assert (a + b)[1..] == a[1..] + b;
      QueueSizeAppend(a[1..], b);
    } else {
      assert a + b == b;
    }
  }

  /** `level_order_traversal`'s loop: pop the front of the FIFO queue, emit its
      record, enqueue its non-empty children left then right. */
  function Bfs<D>(q: seq<Tree<D>>): seq<D>
    requires AllBranches(q)
    decreases QueueSize(q)
  {
    if q == [] then []
    else
      QueueSizeAppend(q[1..], Children(q[0]));
      [q[0].data] + Bfs(q[1..] + Children(q[0]))
  }

  /** `level_order_traversal`: the empty list for an empty tree, otherwise the
      queue run from the root alone. */
  function LevelOrder<D>(t: Tree<D>): seq<D>
  {
    if t.Leaf? then [] else Bfs([t])
  }
}
