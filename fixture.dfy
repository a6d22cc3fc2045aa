/**
 The ten records `initialize_books` seeds the library with, and what the
 tree built from them looks like: its traversals, a search that hits, one
 that misses, and the deletion of the root, which has two children.
 */
module Fixture {
  import opened TreeModel
  import opened Library
  import opened TraversalProperties

  /** The `i`-th record `initialize_books` inserts. */
  function SeedBook(i: nat): Book
    requires i < 10
  {
    match i
    case 0 => Book(10, "Book One", "Author A", "Publisher X", "2001")
    case 1 => Book(5, "Book Two", "Author B", "Publisher Y", "2002")
    case 2 => Book(2, "Book Three", "Author C", "Publisher Z", "2003")
    case 3 => Book(8, "Book Four", "Author D", "Publisher W", "2004")
    case 4 => Book(15, "Book Five", "Author E", "Publisher V", "2005")
    case 5 => Book(12, "Book Six", "Author F", "Publisher U", "2006")
    case 6 => Book(18, "Book Seven", "Author G", "Publisher T", "2007")
    case 7 => Book(11, "Book Eight", "Author H", "Publisher S", "2008")
    case 8 => Book(14, "Book Nine", "Author I", "Publisher R", "2009")
    case 9 => Book(20, "Book Ten", "Author J", "Publisher Q", "2010")
  }

  /** The records `initialize_books` inserts, in its order. */
  function SeedBooks(): seq<Book>
  {
    seq(10, i requires 0 <= i < 10 => SeedBook(i))
  }

  /** The tree after inserting `books` in order, each under its ISBN and
      without `overwrite`. */
  function InsertAll(t: Tree<Book>, books: seq<Book>): Tree<Book>
    decreases books
  {
    if books == [] then t
    else InsertAll(Insert(t, books[0].isbn, books[0], false), books[1..])
  }

  /** The ISBNs of a list of records. */
  function Isbns(books: seq<Book>): seq<int>
  {
    seq(|books|, i requires 0 <= i < |books| => books[i].isbn)
  }

  /** `initialize_books`: insert each seed record under its ISBN. */
  method InitializeBooks(bst: BinarySearchTree<Book>)
    requires bst.Valid()
    modifies bst.Repr
    ensures bst.Valid() && fresh(bst.Repr - old(bst.Repr))
    ensures bst.Model() == InsertAll(old(bst.Model()), SeedBooks())
  {
    var books := SeedBooks();
    for i := 0 to |books|
      invariant bst.Valid() && fresh(bst.Repr - old(bst.Repr))
      invariant InsertAll(bst.Model(), books[i..]) == InsertAll(old(bst.Model()), books)
    {
      var _ := bst.Insert(books[i].isbn, books[i]);
    }
  }

  /** The tree the seed records `b` build in an empty library: 10 at the
      root, 5 and 15 below it, 2, 8, 12 and 18 on the third level, 11, 14
      and 20 on the fourth. */
  function SeededTree(b: seq<Book>): Tree<Book>
    requires |b| == 10
  {
    Branch(
      Branch(Branch(Leaf, 2, b[2], Leaf), 5, b[1], Branch(Leaf, 8, b[3], Leaf)),
      10, b[0],
      Branch(
        Branch(Branch(Leaf, 11, b[7], Leaf), 12, b[5], Branch(Leaf, 14, b[8], Leaf)),
        15, b[4],
        Branch(Leaf, 18, b[6], Branch(Leaf, 20, b[9], Leaf))))
  }

  lemma SeedingBuildsSeededTree()
    ensures InsertAll(Leaf, SeedBooks()) == SeededTree(SeedBooks())
  {
    var b := SeedBooks();
    var leaf2, leaf8 := Branch(Leaf, 2, b[2], Leaf), Branch(Leaf, 8, b[3], Leaf);
    var leaf11, leaf12 := Branch(Leaf, 11, b[7], Leaf), Branch(Leaf, 12, b[5], Leaf);
    var leaf14, leaf18 := Branch(Leaf, 14, b[8], Leaf), Branch(Leaf, 18, b[6], Leaf);
    var leaf20 := Branch(Leaf, 20, b[9], Leaf);
    var left := Branch(leaf2, 5, b[1], leaf8);
    var node12 := Branch(leaf11, 12, b[5], leaf14);
    var t0: Tree<Book> := Leaf;
    var t1 := Branch(Leaf, 10, b[0], Leaf);
    var t2 := Branch(Branch(Leaf, 5, b[1], Leaf), 10, b[0], Leaf);
    var t3 := Branch(Branch(leaf2, 5, b[1], Leaf), 10, b[0], Leaf);
    var t4 := Branch(left, 10, b[0], Leaf);
    var t5 := Branch(left, 10, b[0], Branch(Leaf, 15, b[4], Leaf));
    var t6 := Branch(left, 10, b[0], Branch(leaf12, 15, b[4], Leaf));
    var t7 := Branch(left, 10, b[0], Branch(leaf12, 15, b[4], leaf18));
    var t8 := Branch(left, 10, b[0], Branch(Branch(leaf11, 12, b[5], Leaf), 15, b[4], leaf18));
    var t9 := Branch(left, 10, b[0], Branch(node12, 15, b[4], leaf18));
    var t10 := Branch(left, 10, b[0], Branch(node12, 15, b[4], Branch(Leaf, 18, b[6], leaf20)));
    assert Insert(t0, 10, b[0], false) == t1;
    assert InsertAll(t0, b) == InsertAll(t1, b[1..]);
    assert Insert(t1, 5, b[1], false) == t2;
    assert InsertAll(t1, b[1..]) == InsertAll(t2, b[2..]);
    assert Insert(t2, 2, b[2], false) == t3;
    assert InsertAll(t2, b[2..]) == InsertAll(t3, b[3..]);
    assert Insert(t3, 8, b[3], false) == t4;
    assert InsertAll(t3, b[3..]) == InsertAll(t4, b[4..]);
    assert Insert(t4, 15, b[4], false) == t5;
    assert InsertAll(t4, b[4..]) == InsertAll(t5, b[5..]);
    assert Insert(t5, 12, b[5], false) == t6;
    assert InsertAll(t5, b[5..]) == InsertAll(t6, b[6..]);
    assert Insert(t6, 18, b[6], false) == t7;
    assert InsertAll(t6, b[6..]) == InsertAll(t7, b[7..]);
    assert Insert(t7, 11, b[7], false) == t8 by {
      assert Insert(t7.right.left, 11, b[7], false) == Branch(leaf11, 12, b[5], Leaf);
    }
    assert InsertAll(t7, b[7..]) == InsertAll(t8, b[8..]);
    assert Insert(t8, 14, b[8], false) == t9 by {
      assert Insert(t8.right.left, 14, b[8], false) == node12;
    }
    assert InsertAll(t8, b[8..]) == InsertAll(t9, b[9..]);
    assert Insert(t9, 20, b[9], false) == t10 by {
      assert Insert(t9.right.right, 20, b[9], false) == Branch(Leaf, 18, b[6], leaf20);
    }
    assert InsertAll(t9, b[9..]) == InsertAll(t10, b[10..]);
  }

  /** The seeded library is ordered; ISBN 999 is absent and ISBN 14 is "Book Nine". */
  lemma SeededSearch()
    ensures IsBST(InsertAll(Leaf, SeedBooks()))
    ensures Find(InsertAll(Leaf, SeedBooks()), 999).Leaf?
    ensures Find(InsertAll(Leaf, SeedBooks()), 14).Branch?
    ensures Find(InsertAll(Leaf, SeedBooks()), 14).data.title == "Book Nine"
  {
    SeedingBuildsSeededTree();
  }

  /** Inorder lists the seeded ISBNs in ascending order. */
  lemma SeededInorder()
    ensures Isbns(Inorder(InsertAll(Leaf, SeedBooks()))) == [2, 5, 8, 10, 11, 12, 14, 15, 18, 20]
  {
    SeedingBuildsSeededTree();
    var b := SeedBooks();
    assert Inorder(SeededTree(b)) == [b[2], b[1], b[3], b[0], b[7], b[5], b[8], b[4], b[6], b[9]];
  }

  /** Level order lists the seeded ISBNs root first, level by level, left to right. */
  lemma SeededLevelOrder()
    ensures Isbns(LevelOrder(InsertAll(Leaf, SeedBooks()))) == [10, 5, 15, 2, 8, 12, 18, 11, 14, 20]
  {
    SeedingBuildsSeededTree();
    var b := SeedBooks();
    SeededLevels(b);
    assert LevelOrder(SeededTree(b)) == [b[0], b[1], b[4], b[2], b[3], b[5], b[6], b[7], b[8], b[9]];
  }

  /** The seeded tree read level by level. */
  lemma SeededLevels(b: seq<Book>)
    requires |b| == 10
    ensures LevelOrder(SeededTree(b)) == [b[0], b[1], b[4], b[2], b[3], b[5], b[6], b[7], b[8], b[9]]
  {
    var t := SeededTree(b);
    var x, y, z := [b[0], b[1], b[4]], [b[2], b[3], b[5], b[6]], [b[7], b[8], b[9]];
    assert LevelOrder(t) == x + (y + z) by {
      LevelOrderByLevels(t);
      SeededLevelOne(b);
      SeededLevelTwo(b);
      SeededLevelThree(b);
    }
  }

  lemma SeededLevelOne(b: seq<Book>)
    requires |b| == 10
    ensures var t := SeededTree(b);
      Levels([t]) == [b[0], b[1], b[4]] + Levels([t.left.left, t.left.right, t.right.left, t.right.right])
  {
    var t := SeededTree(b);
    var a, c := t.left, t.right;
    NextLevelOne(t);
    NextLevelPair(a, c);
    RootsPair(a, c);
    assert NextLevel([t]) == [a, c];
    assert Roots([t]) == [b[0]] by {
      assert [t][1..] == [];
    }
    assert NextLevel([a, c]) == [a.left, a.right, c.left, c.right];
    assert Levels([t]) == [b[0]] + Levels([a, c]);
    assert Levels([a, c]) == [b[1], b[4]] + Levels([a.left, a.right, c.left, c.right]);
    Associative([b[0]], [b[1], b[4]], Levels([a.left, a.right, c.left, c.right]));
  }

  lemma SeededLevelTwo(b: seq<Book>)
    requires |b| == 10
    ensures var a, c := SeededTree(b).left, SeededTree(b).right;
      Levels([a.left, a.right, c.left, c.right]) == [b[2], b[3], b[5], b[6]] + Levels([c.left.left, c.left.right, c.right.right])
  {
    var a, c := SeededTree(b).left, SeededTree(b).right;
    var level := [a.left, a.right, c.left, c.right];
    assert level == [a.left, a.right] + [c.left, c.right];
    NextLevelAppend([a.left, a.right], [c.left, c.right]);
    NextLevelPair(a.left, a.right);
    NextLevelPair(c.left, c.right);
    RootsAppend([a.left, a.right], [c.left, c.right]);
    RootsPair(a.left, a.right);
    RootsPair(c.left, c.right);
    assert NextLevel(level) == [c.left.left, c.left.right, c.right.right];
    assert Roots(level) == [b[2], b[3], b[5], b[6]];
  }

  lemma SeededLevelThree(b: seq<Book>)
    requires |b| == 10
    ensures var c := SeededTree(b).right;
      Levels([c.left.left, c.left.right, c.right.right]) == [b[7], b[8], b[9]]
  {
    var c := SeededTree(b).right;
    var level := [c.left.left, c.left.right, c.right.right];
    assert level == [c.left.left, c.left.right] + [c.right.right];
    NextLevelAppend([c.left.left, c.left.right], [c.right.right]);
    NextLevelPair(c.left.left, c.left.right);
    NextLevelOne(c.right.right);
    RootsAppend([c.left.left, c.left.right], [c.right.right]);
    RootsPair(c.left.left, c.left.right);
    assert Roots([c.right.right]) == [b[9]] by {
      assert [c.right.right][1..] == [];
    }
    assert NextLevel(level) == [];
    assert Roots(level) == [b[7], b[8], b[9]];
  }

  /** Deleting ISBN 10, the root, which has two children: the root takes ISBN
      11, the least key of its right subtree, and inorder lists the nine
      remaining ISBNs ascending. */
  lemma SeededDeleteRoot()
    ensures Delete(InsertAll(Leaf, SeedBooks()), 10).Branch?
    ensures Delete(InsertAll(Leaf, SeedBooks()), 10).key == 11
    ensures Isbns(Inorder(Delete(InsertAll(Leaf, SeedBooks()), 10))) == [2, 5, 8, 11, 12, 14, 15, 18, 20]
  {
    SeedingBuildsSeededTree();
    var b := SeedBooks();
    assert Inorder(Delete(SeededTree(b), 10)) == [b[2], b[1], b[3], b[7], b[5], b[8], b[4], b[6], b[9]];
  }
}
