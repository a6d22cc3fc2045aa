/**
 The library's in-place binary search tree: `Node` objects linked through
 their `left` and `right` fields, owned by a `BinarySearchTree` through its
 `root` field. Every node carries the ghost footprint `Repr` of its subtree
 and the ghost value `Model` of its subtree as a `TreeModel.Tree`; each method
 is proved to transform that value exactly as the matching `TreeModel`
 function does, and the properties of those functions are proved in the
 modules beside this one.
 */
module Library {
  import opened TreeModel
  import opened SearchProperties
  import opened InsertProperties
  import opened DeleteProperties
  import opened TraversalProperties

  /** A catalogue record. */
  datatype Book = Book(isbn: int, title: string, author: string, publisher: string, year: string)

  class Node<D> {
    var left: Node?<D>
    var right: Node?<D>
    var key: int
    var data: D

    ghost var Repr: set<object>
    ghost var Model: Tree<D>

    /** The subtree rooted here is a finite tree of distinct nodes (no sharing,
        no cycles) and `Model` is its value. */
    ghost predicate Valid()
      reads this, Repr
      decreases Repr
    {
      this in Repr &&
      (left != null ==>
        left in Repr && left.Repr <= Repr && this !in left.Repr && left.Valid()) &&
      (right != null ==>
        right in Repr && right.Repr <= Repr && this !in right.Repr && right.Valid()) &&
      (left != null && right != null ==> left.Repr !! right.Repr) &&
      Model == Branch(ModelOf(left), key, data, ModelOf(right))
    }

    /** A node with no children, as `Node(key, data)` builds it. */
    constructor (key: int, data: D)
      ensures Valid() && fresh(Repr) && Repr == {this}
      ensures Model == Branch(Leaf, key, data, Leaf)
      ensures left == null && right == null && this.key == key && this.data == data
    {
      this.key := key;
      this.data := data;
      left := null;
      right := null;
      Repr := {this};
      Model := Branch(Leaf, key, data, Leaf);
    }
  }

  /** The value of the subtree in a child slot (`Leaf` for an empty slot). */
  ghost function ModelOf<D>(n: Node?<D>): Tree<D>
    reads n
  {
    if n == null then Leaf else n.Model
  }

  /** The footprint of the subtree in a child slot. */
  ghost function ReprOf<D>(n: Node?<D>): set<object>
    reads n
  {
    if n == null then {} else n.Repr
  }

  class BinarySearchTree<D> {
    var root: Node?<D>

    ghost var Repr: set<object>

    /** The nodes form one tree owned by `root`, and that tree is ordered. */
    ghost predicate Valid()
      reads this, Repr
    {
      this in Repr &&
      (root != null ==>
        root in Repr && root.Repr <= Repr && this !in root.Repr && root.Valid()) &&
      IsBST(ModelOf(root))
    }

    /** The value of the whole tree. */
    ghost function Model(): Tree<D>
      reads this, root
    {
      ModelOf(root)
    }

    /** `BinarySearchTree()`: an empty index. */
    constructor ()
      ensures Valid() && fresh(Repr)
      ensures Model() == Leaf
    {
      root := null;
      Repr := {this};
    }

    /** `insert`: the root slot is filled directly when empty, otherwise
        `_insert` descends from the root. */
    method Insert(key: int, data: D, overwrite: bool := false) returns (ok: bool)
      requires Valid()
      modifies Repr
      ensures Valid() && fresh(Repr - old(Repr))
      ensures Model() == TreeModel.Insert(old(Model()), key, data, overwrite)
      ensures ok == (key !in Keys(old(Model())) || overwrite)
      ensures Contents(Model()) ==
        if ok then old(Contents(Model()))[key := data] else old(Contents(Model()))
    {
      ghost var before := Model();
      if root == null {
        root := new Node(key, data);
        Repr := Repr + root.Repr;
        ok := true;
      } else {
        ok := InsertAt(root, key, data, overwrite);
        Repr := Repr + root.Repr;
      }
      InsertKeepsOrder(before, key, data, overwrite);
      InsertContents(before, key, data, overwrite);
      FindCorrect(before, key);
    }

    /** `_insert` on the subtree rooted at `node`. */
    method InsertAt(node: Node<D>, key: int, data: D, overwrite: bool) returns (ok: bool)
      requires node.Valid()
      modifies node.Repr
      ensures node.Valid() && fresh(node.Repr - old(node.Repr))
      ensures node.Model == TreeModel.Insert(old(node.Model), key, data, overwrite)
      ensures ok == Inserted(old(node.Model), key, overwrite)
      decreases node.Repr
    {
      if key < node.key {
        if node.left == null {
          var n := new Node(key, data);
          node.left := n;
          node.Repr := node.Repr + n.Repr;
          ok := true;
        } else {
          ok := InsertAt(node.left, key, data, overwrite);
          node.Repr := node.Repr + node.left.Repr;
        }
        node.Model := Branch(ModelOf(node.left), node.key, node.data, ModelOf(node.right));
      } else if key > node.key {
        if node.right == null {
          var n := new Node(key, data);
          node.right := n;
          node.Repr := node.Repr + n.Repr;
          ok := true;
        } else {
          ok := InsertAt(node.right, key, data, overwrite);
          node.Repr := node.Repr + node.right.Repr;
        }
        node.Model := Branch(ModelOf(node.left), node.key, node.data, ModelOf(node.right));
      } else if overwrite {
        node.data := data;
        node.Model := Branch(ModelOf(node.left), node.key, node.data, ModelOf(node.right));
        ok := true;
      } else {
        ok := false;
      }
    }

    /** `_search` from the subtree in slot `node`. */
    method SearchAt(node: Node?<D>, key: int) returns (found: Node?<D>)
      requires node != null ==> node.Valid()
      ensures (found != null ==> found.Valid()) && ReprOf(found) <= ReprOf(node)
      ensures found != null ==> found.key == key
      ensures ModelOf(found) == Find(ModelOf(node), key)
      decreases ReprOf(node)
    {
      if node == null || node.key == key {
        return node;
      }
      if key < node.key {
        found := SearchAt(node.left, key);
      } else {
        found := SearchAt(node.right, key);
      }
    }

    /** `_min_value_node`: the leftmost node of a non-empty subtree. */
    method MinValueNode(node: Node<D>) returns (current: Node<D>)
      requires node.Valid()
      ensures current.Valid() && current.Repr <= node.Repr
      ensures current.left == null
      ensures current.Model == MinNode(node.Model)
    {
      current := node;
      while current.left != null
        invariant current.Valid() && current.Repr <= node.Repr
        invariant MinNode(current.Model) == MinNode(node.Model)
        decreases current.Repr
      {
        current := current.left;
      }
    }

    /** `_delete` from the subtree in slot `node`; returns what the slot holds afterwards. */
    method DeleteAt(node: Node?<D>, key: int) returns (res: Node?<D>)
      requires node != null ==> node.Valid()
      modifies ReprOf(node)
      ensures (res != null ==> res.Valid()) && ReprOf(res) <= old(ReprOf(node))
      ensures ModelOf(res) == TreeModel.Delete(old(ModelOf(node)), key)
      decreases ReprOf(node)
    {
      if node == null {
        return node;
      }
      if key < node.key {
        node.left := DeleteAt(node.left, key);
        node.Model := Branch(ModelOf(node.left), node.key, node.data, ModelOf(node.right));
      } else if key > node.key {
        node.right := DeleteAt(node.right, key);
        node.Model := Branch(ModelOf(node.left), node.key, node.data, ModelOf(node.right));
      } else {
        if node.left == null {
          return node.right;
        } else if node.right == null {
          return node.left;
        }
        var temp := MinValueNode(node.right);
        node.key := temp.key;
        node.data := temp.data;
        node.right := DeleteAt(node.right, temp.key);
        node.Model := Branch(ModelOf(node.left), node.key, node.data, ModelOf(node.right));
      }
      return node;
    }
    /** `search`: the node holding `key`, or null when no node does. */
    method Search(key: int) returns (found: Node?<D>)
      requires Valid()
      ensures found == null <==> key !in Contents(Model())
      ensures found != null ==>
        found.Valid() && found.key == key && found.data == Contents(Model())[key]
    {
      found := SearchAt(root, key);
      FindCorrect(Model(), key);
      KeysAreIndexKeys(Model());
    }

    /** `delete`: the root slot takes what `_delete` leaves there. */
    method Delete(key: int)
      requires Valid()
      modifies Repr
      ensures Valid() && Repr == old(Repr)
      ensures Model() == TreeModel.Delete(old(Model()), key)
      ensures Contents(Model()) == old(Contents(Model())) - {key}
    {
      ghost var before := Model();
      root := DeleteAt(root, key);
      DeleteKeepsOrder(before, key);
      DeleteContents(before, key);
    }

    /** `_inorder_traversal`: appends the records of the subtree in slot `node`. */
    method InorderInto(node: Node?<D>, result: seq<D>) returns (out: seq<D>)
      requires node != null ==> node.Valid()
      ensures out == result + Inorder(ModelOf(node))
      decreases ReprOf(node)
    {
      out := result;
      if node != null {
        out := InorderInto(node.left, out);
        out := out + [node.data];
        out := InorderInto(node.right, out);
      }
    }

    /** `inorder_traversal`: the records in ascending key order. */
    method InorderTraversal() returns (result: seq<D>)
      requires Valid()
      ensures result == Inorder(Model())
      ensures |result| == Size(Model())
    {
      result := InorderInto(root, []);
      InorderKeysAreKeys(Model());
    }

    /** `_preorder_traversal`: appends the records of the subtree in slot `node`. */
    method PreorderInto(node: Node?<D>, result: seq<D>) returns (out: seq<D>)
      requires node != null ==> node.Valid()
      ensures out == result + Preorder(ModelOf(node))
      decreases ReprOf(node)
    {
      out := result;
      if node != null {
        out := out + [node.data];
        out := PreorderInto(node.left, out);
        out := PreorderInto(node.right, out);
      }
    }

    /** `preorder_traversal`: each node before its subtrees. */
    method PreorderTraversal() returns (result: seq<D>)
      requires Valid()
      ensures result == Preorder(Model())
      ensures |result| == Size(Model()) && multiset(result) == multiset(Inorder(Model()))
    {
      result := PreorderInto(root, []);
      PreorderIsPermutation(Model());
    }

    /** `_postorder_traversal`: appends the records of the subtree in slot `node`. */
    method PostorderInto(node: Node?<D>, result: seq<D>) returns (out: seq<D>)
      requires node != null ==> node.Valid()
      ensures out == result + Postorder(ModelOf(node))
      decreases ReprOf(node)
    {
      out := result;
      if node != null {
        out := PostorderInto(node.left, out);
        out := PostorderInto(node.right, out);
        out := out + [node.data];
      }
    }

    /** `postorder_traversal`: each node after its subtrees. */
    method PostorderTraversal() returns (result: seq<D>)
      requires Valid()
      ensures result == Postorder(Model())
      ensures |result| == Size(Model()) && multiset(result) == multiset(Inorder(Model()))
    {
      result := PostorderInto(root, []);
      PostorderIsPermutation(Model());
    }

    /** The children `level_order_traversal` appends for `node`, left then
        right, skipping empty slots; their values are the model's `Children`. */
    method NonEmptyChildren(node: Node<D>) returns (children: seq<Node<D>>)
      requires node.Valid()
      ensures |children| == |Children(node.Model)|
      ensures forall i :: 0 <= i < |children| ==>
        children[i].Valid() && children[i].Model == Children(node.Model)[i]
    {
      children := [];
      if node.left != null {
        children := children + [node.left];
      }
      if node.right != null {
        children := children + [node.right];
      }
    }

    /** `level_order_traversal`: a FIFO queue seeded with the root; each node
        popped from the front is emitted and its children appended, left first. */
    method LevelOrderTraversal() returns (result: seq<D>)
      requires Valid()
      ensures result == LevelOrder(Model())
      ensures |result| == Size(Model()) && multiset(result) == multiset(Inorder(Model()))
    {
      result := [];
      if root == null {
        return;
      }
      var queue: seq<Node<D>> := [root];
      ghost var models := [root.Model];
      while queue != []
        invariant |queue| == |models| && AllBranches(models)
        invariant forall i :: 0 <= i < |queue| ==> queue[i].Valid() && queue[i].Model == models[i]
        invariant result + Bfs(models) == LevelOrder(Model())
        decreases QueueSize(models)
      {
        var current := queue[0];
        ghost var front := models[0];
        var children := NonEmptyChildren(current);
        ghost var next := models[1..] + Children(front);
        assert AllBranches(next) && QueueSize(next) < QueueSize(models) &&
               Bfs(models) == [current.data] + Bfs(next) by {
          BfsStep(models);
          QueueSizeAppend(models[1..], Children(front));
        }
        assert result + Bfs(models) == (result + [current.data]) + Bfs(next) by {
          Associative(result, [current.data], Bfs(next));
        }
        QueueMirrorStep(queue, models, children);
        result := result + [current.data];
        queue := queue[1..] + children;
        models := next;
      }
      LevelOrderIsPermutation(Model());
    }
  }

  /** Popping the front of a queue of valid nodes and appending its children
      keeps the queue in step with the list of values the model's queue holds. */
  lemma QueueMirrorStep<D>(queue: seq<Node<D>>, models: seq<Tree<D>>, children: seq<Node<D>>)
    requires |queue| == |models| > 0
    requires forall i :: 0 <= i < |queue| ==> queue[i].Valid() && queue[i].Model == models[i]
    requires |children| == |Children(queue[0].Model)|
    requires forall i :: 0 <= i < |children| ==>
      children[i].Valid() && children[i].Model == Children(queue[0].Model)[i]
    ensures |queue[1..] + children| == |models[1..] + Children(models[0])|
    ensures forall i :: 0 <= i < |queue[1..] + children| ==>
      (queue[1..] + children)[i].Valid() &&
      (queue[1..] + children)[i].Model == (models[1..] + Children(models[0]))[i]
  {
  }
}
