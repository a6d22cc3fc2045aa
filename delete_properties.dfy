/**
 What `_delete` does to an ordered tree: a present key is removed with its
 record and one node, the tree stays ordered, and an absent key changes
 nothing.
 */
module DeleteProperties {
  import opened TreeModel
  import opened SearchProperties

  /** Deletion keeps the tree ordered and removes exactly `k` from its keys,
      including when a node with two children takes its successor's key. */
  lemma {:induction false} DeleteKeepsOrder<D>(t: Tree<D>, k: int)
    requires IsBST(t)
    ensures IsBST(Delete(t, k))
    ensures Keys(Delete(t, k)) == Keys(t) - {k}
  {
    match t
    case Leaf =>
    case Branch(l, nk, _, r) =>
      if k < nk {
        DeleteKeepsOrder(l, k);
      } else if k > nk {
        DeleteKeepsOrder(r, k);
      } else if l.Branch? && r.Branch? {
        var m := MinNode(r);
        MinNodeIsLeast(r);
        DeleteKeepsOrder(r, m.key);
      }
  }

  /** The index after deletion is the old index without `k`. */
  lemma {:induction false} DeleteContents<D>(t: Tree<D>, k: int)
    requires IsBST(t)
    ensures Contents(Delete(t, k)) == Contents(t) - {k}
  {
    match t
    case Leaf =>
    case Branch(l, nk, nd, r) =>
      KeysAreIndexKeys(l);
      KeysAreIndexKeys(r);
      if k < nk {
        DeleteContents(l, k);
        RemoveFromLeftOfUnion(Contents(l), Contents(r), nk, nd, k);
      } else if k > nk {
        DeleteContents(r, k);
        RemoveFromRightOfUnion(Contents(l), Contents(r), nk, nd, k);
      } else if l.Leaf? {
        RemoveRoot(Contents(l), Contents(r), nk, nd);
      } else if r.Leaf? {
        RemoveRoot(Contents(l), Contents(r), nk, nd);
      } else {
        var m := MinNode(r);
        MinNodeIsLeast(r);
        DeleteContents(r, m.key);
        ReplaceRootBySuccessor(Contents(l), Contents(r), nk, nd, m.key);
      }
  }

  lemma RemoveFromLeftOfUnion<D>(a: map<int, D>, b: map<int, D>, nk: int, nd: D, k: int)
    requires k != nk && k !in b
    ensures ((a - {k}) + b)[nk := nd] == (a + b)[nk := nd] - {k}
  {
  }

  lemma RemoveFromRightOfUnion<D>(a: map<int, D>, b: map<int, D>, nk: int, nd: D, k: int)
    requires k != nk && k !in a
    ensures (a + (b - {k}))[nk := nd] == (a + b)[nk := nd] - {k}
  {
  }

  lemma RemoveRoot<D>(a: map<int, D>, b: map<int, D>, nk: int, nd: D)
    requires nk !in a && nk !in b && (a == map[] || b == map[])
    ensures (a + b)[nk := nd] - {nk} == (if a == map[] then b else a)
  {
  }

  lemma ReplaceRootBySuccessor<D>(a: map<int, D>, b: map<int, D>, nk: int, nd: D, mk: int)
    requires nk !in a && nk !in b && mk in b && mk !in a
    ensures (a + (b - {mk}))[mk := b[mk]] == (a + b)[nk := nd] - {nk}
  {
  }

  /** Deleting a key of the tree removes exactly one node. */
  lemma {:induction false} DeletePresentSize<D>(t: Tree<D>, k: int)
    requires IsBST(t) && k in Keys(t)
    ensures Size(Delete(t, k)) == Size(t) - 1
  {
    match t
    case Branch(l, nk, _, r) =>
      if k < nk {
        DeletePresentSize(l, k);
      } else if k > nk {
        DeletePresentSize(r, k);
      } else if l.Branch? && r.Branch? {
        DeletePresentSize(r, MinNode(r).key);
      }
  }

  /** Deleting a key that is not in the tree leaves it exactly as it was. */
  lemma {:induction false} DeleteAbsent<D>(t: Tree<D>, k: int)
    requires k !in Keys(t)
    ensures Delete(t, k) == t
  {
    match t
    case Leaf =>
    case Branch(l, nk, _, r) =>
      if k < nk {
        DeleteAbsent(l, k);
      } else {
        DeleteAbsent(r, k);
      }
  }

  /** After deleting a present key, a search for it finds nothing, and the
      tree holds one node fewer. */
  lemma {:induction false} DeleteThenSearch<D>(t: Tree<D>, k: int)
    requires IsBST(t) && k in Keys(t)
    ensures Find(Delete(t, k), k).Leaf?
    ensures Size(Delete(t, k)) == Size(t) - 1
  {
    DeleteKeepsOrder(t, k);
    FindCorrect(Delete(t, k), k);
    DeletePresentSize(t, k);
  }
}
