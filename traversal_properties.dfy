/**
 What the four traversals return: inorder lists the records in strictly
 ascending key order; every traversal visits each node exactly once, so each
 returns as many records as there are nodes and the same records as inorder;
 and the queue-driven level order is the tree read level by level.
 */
module TraversalProperties {
  import opened TreeModel
  import opened SearchProperties

  predicate StrictlyIncreasing(s: seq<int>)
  {
    forall i, j :: 0 <= i < j < |s| ==> s[i] < s[j]
  }

  /** The inorder key sequence holds each key of the tree, one per node. */
  lemma {:induction false} InorderKeysAreKeys<D>(t: Tree<D>)
    ensures |InorderKeys(t)| == |Inorder(t)| == Size(t)
    ensures forall j :: j in InorderKeys(t) <==> j in Keys(t)
  {
    match t
    case Leaf =>
    case Branch(l, _, _, r) =>
      InorderKeysAreKeys(l);
      InorderKeysAreKeys(r);
  }

  /** On an ordered tree the inorder keys strictly ascend. */
  lemma {:induction false} InorderKeysAscend<D>(t: Tree<D>)
    requires IsBST(t)
    ensures StrictlyIncreasing(InorderKeys(t))
  {
    match t
    case Leaf =>
    case Branch(l, k, _, r) =>
      InorderKeysAscend(l);
      InorderKeysAscend(r);
      InorderKeysAreKeys(l);
      InorderKeysAreKeys(r);
      var a, b := InorderKeys(l), InorderKeys(r);
      var s := InorderKeys(t);
      assert s == a + [k] + b;
      forall i, j | 0 <= i < j < |s| ensures s[i] < s[j] {
        if i < |a| {
          assert s[i] == a[i] && a[i] in a;
        } else if i > |a| {
          assert s[i] == b[i - |a| - 1] && s[j] == b[j - |a| - 1];
        }
        if j > |a| {
          assert s[j] == b[j - |a| - 1] && b[j - |a| - 1] in b;
        } else if j < |a| {
          assert s[j] == a[j];
        }
      }
  }

  /** On an ordered tree, the record inorder lists at position `i` is the one
      the index holds for the `i`-th smallest key. */
  lemma {:induction false} InorderRecordsFollowKeys<D>(t: Tree<D>)
    requires IsBST(t)
    ensures |InorderKeys(t)| == |Inorder(t)|
    ensures forall i :: 0 <= i < |InorderKeys(t)| ==>
      InorderKeys(t)[i] in Contents(t) && Contents(t)[InorderKeys(t)[i]] == Inorder(t)[i]
  {
    match t
    case Leaf =>
    case Branch(l, k, d, r) =>
      InorderRecordsFollowKeys(l);
      InorderRecordsFollowKeys(r);
      InorderKeysAreKeys(l);
      InorderKeysAreKeys(r);
      var ks, ds := InorderKeys(t), Inorder(t);
      var n := |InorderKeys(l)|;
      forall i | 0 <= i < |ks| ensures ks[i] in Contents(t) && Contents(t)[ks[i]] == ds[i] {
        if i < n {
          assert ks[i] == InorderKeys(l)[i] && ds[i] == Inorder(l)[i];
          assert ks[i] in InorderKeys(l);
          BranchContents(t, ks[i]);
        } else if i > n {
          assert ks[i] == InorderKeys(r)[i - n - 1] && ds[i] == Inorder(r)[i - n - 1];
          assert ks[i] in InorderKeys(r);
          BranchContents(t, ks[i]);
        }
      }
  }

  /** `inorder_traversal` on an ordered tree: one record per node, in strictly
      ascending key order, each the record its key maps to, every key present. */
  lemma InorderIsSortedIndex<D>(t: Tree<D>)
    requires IsBST(t)
    ensures |Inorder(t)| == |InorderKeys(t)| == Size(t)
    ensures StrictlyIncreasing(InorderKeys(t))
    ensures forall j :: j in InorderKeys(t) <==> j in Contents(t)
    ensures forall i :: 0 <= i < |InorderKeys(t)| ==>
      InorderKeys(t)[i] in Contents(t) && Contents(t)[InorderKeys(t)[i]] == Inorder(t)[i]
  {
    InorderKeysAreKeys(t);
    InorderKeysAscend(t);
    InorderRecordsFollowKeys(t);
    KeysAreIndexKeys(t);
  }

  /** `preorder_traversal` returns one record per node, the same records as inorder. */
  lemma {:induction false} PreorderIsPermutation<D>(t: Tree<D>)
    ensures |Preorder(t)| == Size(t)
    ensures multiset(Preorder(t)) == multiset(Inorder(t))
  {
    match t
    case Leaf =>
    case Branch(l, _, d, r) =>
      PreorderIsPermutation(l);
      PreorderIsPermutation(r);
  }

  /** `postorder_traversal` returns one record per node, the same records as inorder. */
  lemma {:induction false} PostorderIsPermutation<D>(t: Tree<D>)
    ensures |Postorder(t)| == Size(t)
    ensures multiset(Postorder(t)) == multiset(Inorder(t))
  {
    match t
    case Leaf =>
    case Branch(l, _, d, r) =>
      PostorderIsPermutation(l);
      PostorderIsPermutation(r);
  }

  /** The records of all the subtrees in a queue. */
  function QueueRecords<D>(q: seq<Tree<D>>): multiset<D>
  {
    if q == [] then multiset{} else multiset(Inorder(q[0])) + QueueRecords(q[1..])
  }

  lemma {:induction false} QueueRecordsAppend<D>(a: seq<Tree<D>>, b: seq<Tree<D>>)
    ensures QueueRecords(a + b) == QueueRecords(a) + QueueRecords(b)
  {
    if a == [] {
      assert a + b == b;
    } else {
      assert (a + b)[1..] == a[1..] + b;
      QueueRecordsAppend(a[1..], b);
    }
  }

  lemma ChildrenRecords<D>(t: Tree<D>)
    requires t.Branch?
    ensures QueueRecords(Children(t)) + multiset{t.data} == multiset(Inorder(t))
  {
    var cl, cr := SlotQueue(t.left), SlotQueue(t.right);
    assert Children(t) == cl + cr;
    QueueRecordsAppend(cl, cr);
    SlotQueueRecords(t.left);
    SlotQueueRecords(t.right);
  }

  lemma SlotQueueRecords<D>(s: Tree<D>)
    ensures QueueRecords(SlotQueue(s)) == multiset(Inorder(s))
  {
  }

  /** Running the queue emits each record of its subtrees exactly once. */
  lemma {:induction false} BfsRecords<D>(q: seq<Tree<D>>)
    requires AllBranches(q)
    ensures |Bfs(q)| == QueueSize(q)
    ensures multiset(Bfs(q)) == QueueRecords(q)
    decreases QueueSize(q)
  {
    if q != [] {
      var next := q[1..] + Children(q[0]);
      QueueSizeAppend(q[1..], Children(q[0]));
      BfsRecords(next);
      QueueRecordsAppend(q[1..], Children(q[0]));
      ChildrenRecords(q[0]);
    }
  }

  /** `level_order_traversal` returns one record per node, the same records as
      inorder, starting with the root's. */
  lemma LevelOrderIsPermutation<D>(t: Tree<D>)
    ensures |LevelOrder(t)| == Size(t)
    ensures multiset(LevelOrder(t)) == multiset(Inorder(t))
    ensures t.Branch? ==> LevelOrder(t)[0] == t.data
  {
    if t.Branch? {
      BfsRecords([t]);
      assert QueueSize([t]) == Size(t);
      assert QueueRecords([t]) == multiset(Inorder(t));
    }
  }

  /** The records at the roots of a forest, left to right: one level. */
  function Roots<D>(f: seq<Tree<D>>): seq<D>
    requires AllBranches(f)
  {
    if f == [] then [] else [f[0].data] + Roots(f[1..])
  }

  /** The non-empty children of a forest's roots, left to right: the next level. */
  function NextLevel<D>(f: seq<Tree<D>>): (g: seq<Tree<D>>)
    ensures AllBranches(g)
  {
    if f == [] then [] else Children(f[0]) + NextLevel(f[1..])
  }

  lemma {:induction false} NextLevelSize<D>(f: seq<Tree<D>>)
    requires AllBranches(f)
    ensures QueueSize(NextLevel(f)) + |f| == QueueSize(f)
  {
    if f != [] {
      NextLevelSize(f[1..]);
      QueueSizeAppend(Children(f[0]), NextLevel(f[1..]));
    }
  }

  /** A reference definition of level order: emit a whole level, then the
      levels below it. */
  function Levels<D>(f: seq<Tree<D>>): seq<D>
    requires AllBranches(f)
    decreases QueueSize(f)
  {
    if f == [] then []
    else
      NextLevelSize(f);
      Roots(f) + Levels(NextLevel(f))
  }

  /** One step of the queue: the front is emitted, its children join the back. */
  lemma BfsStep<D>(q: seq<Tree<D>>)
    requires AllBranches(q) && q != []
    ensures AllBranches(q[1..] + Children(q[0]))
    ensures Bfs(q) == [q[0].data] + Bfs(q[1..] + Children(q[0]))
  {
  }

  /** Running the queue over `a + c` first emits the roots of `a`, whose
      children by then wait behind `c`. */
  lemma {:induction false} BfsDrainsFront<D>(a: seq<Tree<D>>, c: seq<Tree<D>>)
    requires AllBranches(a) && AllBranches(c)
    ensures Bfs(a + c) == Roots(a) + Bfs(c + NextLevel(a))
    decreases |a|
  {
    if a == [] {
      assert a + c == c;
      assert c + NextLevel(a) == c;
    } else {
      var x, a1 := a[0], a[1..];
      var ch, rest := Children(x), NextLevel(a1);
      PopFront(a, c);
      Associative(a1, c, ch);
      Associative(c, ch, rest);
      BfsStep(a + c);
      BfsDrainsFront(a1, c + ch);
      Associative([x.data], Roots(a1), Bfs(c + NextLevel(a)));
    }
  }

  lemma PopFront<T>(a: seq<T>, c: seq<T>)
    requires a != []
    ensures (a + c)[0] == a[0] && (a + c)[1..] == a[1..] + c
  {
  }

  lemma Associative<T>(x: seq<T>, y: seq<T>, z: seq<T>)
    ensures x + y + z == x + (y + z)
  {
  }

  /** The FIFO queue visits the tree level by level. */
  lemma {:induction false} BfsIsLevels<D>(f: seq<Tree<D>>)
    requires AllBranches(f)
    ensures Bfs(f) == Levels(f)
    decreases QueueSize(f)
  {
    if f != [] {
      BfsDrainsFront(f, []);
      assert f + [] == f;
      assert [] + NextLevel(f) == NextLevel(f);
      NextLevelSize(f);
      BfsIsLevels(NextLevel(f));
    }
  }

  /** `level_order_traversal` reads the tree level by level from the root. */
  lemma LevelOrderByLevels<D>(t: Tree<D>)
    ensures LevelOrder(t) == Levels(if t.Leaf? then [] else [t])
  {
    if t.Branch? {
      BfsIsLevels([t]);
    }
  }

  /** A queue of several forests moves to the next level forest by forest. */
  lemma {:induction false} NextLevelAppend<D>(a: seq<Tree<D>>, b: seq<Tree<D>>)
    ensures NextLevel(a + b) == NextLevel(a) + NextLevel(b)
  {
    if a == [] {
      assert a + b == b;
    } else {
      PopFront(a, b);
      NextLevelAppend(a[1..], b);
      Associative(Children(a[0]), NextLevel(a[1..]), NextLevel(b));
    }
  }

  /** The roots of several forests, forest by forest. */
  lemma {:induction false} RootsAppend<D>(a: seq<Tree<D>>, b: seq<Tree<D>>)
    requires AllBranches(a) && AllBranches(b)
    ensures Roots(a + b) == Roots(a) + Roots(b)
  {
    if a == [] {
      assert a + b == b;
    } else {
      PopFront(a, b);
      RootsAppend(a[1..], b);
      Associative([a[0].data], Roots(a[1..]), Roots(b));
    }
  }

  lemma NextLevelOne<D>(x: Tree<D>)
    ensures NextLevel([x]) == Children(x)
  {
  }

  lemma NextLevelPair<D>(x: Tree<D>, y: Tree<D>)
    ensures NextLevel([x, y]) == Children(x) + Children(y)
  {
    assert [x, y] == [x] + [y];
    NextLevelAppend([x], [y]);
    NextLevelOne(x);
    NextLevelOne(y);
  }

  lemma RootsPair<D>(x: Tree<D>, y: Tree<D>)
    requires x.Branch? && y.Branch?
    ensures Roots([x, y]) == [x.data, y.data]
  {
    assert [x, y][1..] == [y];
    assert [y][1..] == [];
    assert Roots([y]) == [y.data] + [];
    assert Roots([x, y]) == [x.data] + [y.data];
  }
}
