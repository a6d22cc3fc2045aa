/**
 What `_search` and `_min_value_node` compute on an ordered tree, stated
 against the index the tree represents (`Contents`).
 */
module SearchProperties {
  import opened TreeModel

  /** The keys stored in the nodes are exactly the keys of the index. */
  lemma {:induction false} KeysAreIndexKeys<D>(t: Tree<D>)
    ensures Keys(t) == Contents(t).Keys
  {
    match t
    case Leaf =>
    case Branch(l, _, _, r) =>
      KeysAreIndexKeys(l);
      KeysAreIndexKeys(r);
  }

  /** In an ordered tree a key of the left subtree keeps the left subtree's
      record, and likewise on the right: no key is shadowed. */
  lemma BranchContents<D>(t: Tree<D>, j: int)
    requires t.Branch? && IsBST(t)
    ensures j in Keys(t.left) ==> j in Contents(t.left) && j in Contents(t) && Contents(t)[j] == Contents(t.left)[j]
    ensures j in Keys(t.right) ==> j in Contents(t.right) && j in Contents(t) && Contents(t)[j] == Contents(t.right)[j]
  {
    KeysAreIndexKeys(t.left);
    KeysAreIndexKeys(t.right);
  }

  /** `_search` finds a node exactly when the key is in the tree, and the node
      it finds holds the record the index maps that key to. */
  lemma {:induction false} FindCorrect<D>(t: Tree<D>, k: int)
    requires IsBST(t)
    ensures Find(t, k).Branch? <==> k in Keys(t)
    ensures k in Keys(t) ==> k in Contents(t) && Find(t, k).data == Contents(t)[k]
  {
    match t
    case Leaf =>
    case Branch(l, nk, _, r) =>
      if k < nk {
        FindCorrect(l, k);
        BranchContents(t, k);
      } else if k > nk {
        FindCorrect(r, k);
        BranchContents(t, k);
      }
  }

  /** `_min_value_node` returns the node with the least key of the subtree,
      together with that key's record. */
  lemma {:induction false} MinNodeIsLeast<D>(t: Tree<D>)
    requires t.Branch? && IsBST(t)
    ensures forall j :: j in Keys(t) ==> MinNode(t).key <= j
    ensures MinNode(t).key in Contents(t) && Contents(t)[MinNode(t).key] == MinNode(t).data
  {
    if t.left.Branch? {
      MinNodeIsLeast(t.left);
      BranchContents(t, MinNode(t.left).key);
    }
  }
}
