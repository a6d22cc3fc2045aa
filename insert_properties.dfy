/**
 What `_insert` does to an ordered tree: a new key is added and nothing else
 changes; a duplicate is rejected without any change, or, with `overwrite`,
 only its record is replaced.
 */
module InsertProperties {
  import opened TreeModel
  import opened SearchProperties

  /** Insertion adds `k` to the keys and keeps every other key. */
  lemma {:induction false} InsertKeys<D>(t: Tree<D>, k: int, d: D, overwrite: bool)
    ensures Keys(Insert(t, k, d, overwrite)) == Keys(t) + {k}
  {
    match t
    case Leaf =>
    case Branch(l, nk, _, r) =>
      if k < nk {
        InsertKeys(l, k, d, overwrite);
      } else if k > nk {
        InsertKeys(r, k, d, overwrite);
      }
  }

  /** Insertion keeps the tree ordered. */
  lemma {:induction false} InsertKeepsOrder<D>(t: Tree<D>, k: int, d: D, overwrite: bool)
    requires IsBST(t)
    ensures IsBST(Insert(t, k, d, overwrite))
  {
    match t
    case Leaf =>
    case Branch(l, nk, _, r) =>
      if k < nk {
        InsertKeepsOrder(l, k, d, overwrite);
        InsertKeys(l, k, d, overwrite);
      } else if k > nk {
        InsertKeepsOrder(r, k, d, overwrite);
        InsertKeys(r, k, d, overwrite);
      }
  }

  /** The index after insertion: `k` maps to `d`, unless `k` was present and
      `overwrite` is off, in which case the index is unchanged. */
  lemma {:induction false} InsertContents<D>(t: Tree<D>, k: int, d: D, overwrite: bool)
    requires IsBST(t)
    ensures Contents(Insert(t, k, d, overwrite)) ==
      if k in Keys(t) && !overwrite then Contents(t) else Contents(t)[k := d]
  {
    match t
    case Leaf =>
    case Branch(l, nk, nd, r) =>
      if k < nk {
        InsertContents(l, k, d, overwrite);
        KeysAreIndexKeys(r);
        if !(k in Keys(t) && !overwrite) {
          UpdateLeftOfUnion(Contents(l), Contents(r), nk, nd, k, d);
        }
      } else if k > nk {
        InsertContents(r, k, d, overwrite);
        if !(k in Keys(t) && !overwrite) {
          UpdateRightOfUnion(Contents(l), Contents(r), nk, nd, k, d);
        }
      }
  }

  lemma UpdateLeftOfUnion<D>(a: map<int, D>, b: map<int, D>, nk: int, nd: D, k: int, d: D)
    requires k != nk && k !in b
    ensures (a[k := d] + b)[nk := nd] == (a + b)[nk := nd][k := d]
  {
  }

  lemma UpdateRightOfUnion<D>(a: map<int, D>, b: map<int, D>, nk: int, nd: D, k: int, d: D)
    requires k != nk
    ensures (a + b[k := d])[nk := nd] == (a + b)[nk := nd][k := d]
  {
  }

  /** Inserting a key that is not in the tree reports success, adds exactly
      that key with its record, adds one node and keeps the tree ordered. */
  lemma InsertNewKey<D>(t: Tree<D>, k: int, d: D, overwrite: bool)
    requires IsBST(t) && k !in Keys(t)
    ensures Inserted(t, k, overwrite)
    ensures IsBST(Insert(t, k, d, overwrite))
    ensures Keys(Insert(t, k, d, overwrite)) == Keys(t) + {k}
    ensures Contents(Insert(t, k, d, overwrite)) == Contents(t)[k := d]
    ensures Size(Insert(t, k, d, overwrite)) == Size(t) + 1
  {
    FindCorrect(t, k);
    InsertKeepsOrder(t, k, d, overwrite);
    InsertKeys(t, k, d, overwrite);
    InsertContents(t, k, d, overwrite);
    InsertNewKeySize(t, k, d, overwrite);
  }

  lemma {:induction false} InsertNewKeySize<D>(t: Tree<D>, k: int, d: D, overwrite: bool)
    requires k !in Keys(t)
    ensures Size(Insert(t, k, d, overwrite)) == Size(t) + 1
  {
    match t
    case Leaf =>
    case Branch(l, nk, _, r) =>
      if k < nk {
        InsertNewKeySize(l, k, d, overwrite);
      } else {
        InsertNewKeySize(r, k, d, overwrite);
      }
  }

  /** Inserting a key already present without `overwrite` reports failure and
      leaves the tree exactly as it was. */
  lemma {:induction false} InsertDuplicateRejected<D>(t: Tree<D>, k: int, d: D)
    requires IsBST(t) && k in Keys(t)
    ensures !Inserted(t, k, false)
    ensures Insert(t, k, d, false) == t
  {
    FindCorrect(t, k);
    match t
    case Branch(l, nk, _, r) =>
      if k < nk {
        InsertDuplicateRejected(l, k, d);
      } else if k > nk {
        InsertDuplicateRejected(r, k, d);
      }
  }

  /** Inserting a key already present with `overwrite` reports success, keeps
      the shape, the keys and the node count, and replaces the record of that
      key alone. */
  lemma InsertDuplicateOverwrites<D>(t: Tree<D>, k: int, d: D)
    requires IsBST(t) && k in Keys(t)
    ensures Inserted(t, k, true)
    ensures IsBST(Insert(t, k, d, true))
    ensures Skeleton(Insert(t, k, d, true)) == Skeleton(t)
    ensures Keys(Insert(t, k, d, true)) == Keys(t)
    ensures Size(Insert(t, k, d, true)) == Size(t)
    ensures Contents(Insert(t, k, d, true)) == Contents(t)[k := d]
  {
    InsertKeepsOrder(t, k, d, true);
    InsertKeys(t, k, d, true);
    InsertContents(t, k, d, true);
    OverwriteKeepsSkeleton(t, k, d);
    SkeletonSize(Insert(t, k, d, true));
    SkeletonSize(t);
  }

  lemma {:induction false} OverwriteKeepsSkeleton<D>(t: Tree<D>, k: int, d: D)
    requires IsBST(t) && k in Keys(t)
    ensures Skeleton(Insert(t, k, d, true)) == Skeleton(t)
  {
    match t
    case Branch(l, nk, _, r) =>
      if k < nk {
        OverwriteKeepsSkeleton(l, k, d);
      } else if k > nk {
        OverwriteKeepsSkeleton(r, k, d);
      }
  }

  /** The node count is a function of the shape. */
  lemma {:induction false} SkeletonSize<D>(t: Tree<D>)
    ensures Size(Skeleton(t)) == Size(t)
  {
    match t
    case Leaf =>
    case Branch(l, _, _, r) =>
      SkeletonSize(l);
      SkeletonSize(r);
  }
}
