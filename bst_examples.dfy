/// Concrete runs of the ordered store, and the two places where the
/// recursive variant (btree/rec/btree.c) departs from what its own
/// documentation promises and the iterative variant does.
module BstExamples {
  import opened BstTree
  import BstRec
  import BstIter

  /** Seven inserts in the order M, D, T, A, G, P, Z (values 1..7). */
  function Sample(): Tree {
    var t := BstRec.Insert(BstRec.Init(), 'M', 1, true);
    var t := BstRec.Insert(t, 'D', 2, true);
    var t := BstRec.Insert(t, 'T', 3, true);
    var t := BstRec.Insert(t, 'A', 4, true);
    var t := BstRec.Insert(t, 'G', 5, true);
    var t := BstRec.Insert(t, 'P', 6, true);
    BstRec.Insert(t, 'Z', 7, true)
  }

  /** The tree the seven inserts build: M at the root, D and T below it,
      and A, G, P, Z as leaves. */
  function SampleShape(): Tree {
    Node(Node(Node(Nil, 'A', 4, Nil), 'D', 2, Node(Nil, 'G', 5, Nil)), 'M', 1,
         Node(Node(Nil, 'P', 6, Nil), 'T', 3, Node(Nil, 'Z', 7, Nil)))
  }

  /** Each insert hangs its leaf in the slot the descent ends in. */
  lemma SampleBuildsShape()
    ensures Sample() == SampleShape()
  {
    var t := BstRec.Insert(BstRec.Init(), 'M', 1, true);
    assert t == Node(Nil, 'M', 1, Nil);
    t := BstRec.Insert(t, 'D', 2, true);
    assert t == Node(Node(Nil, 'D', 2, Nil), 'M', 1, Nil);
    t := BstRec.Insert(t, 'T', 3, true);
    assert t == Node(Node(Nil, 'D', 2, Nil), 'M', 1, Node(Nil, 'T', 3, Nil));
    t := BstRec.Insert(t, 'A', 4, true);
    assert t == Node(Node(Node(Nil, 'A', 4, Nil), 'D', 2, Nil), 'M', 1, Node(Nil, 'T', 3, Nil));
    t := BstRec.Insert(t, 'G', 5, true);
    assert t == Node(Node(Node(Nil, 'A', 4, Nil), 'D', 2, Node(Nil, 'G', 5, Nil)), 'M', 1,
                     Node(Nil, 'T', 3, Nil));
    t := BstRec.Insert(t, 'P', 6, true);
    assert t == Node(Node(Node(Nil, 'A', 4, Nil), 'D', 2, Node(Nil, 'G', 5, Nil)), 'M', 1,
                     Node(Node(Nil, 'P', 6, Nil), 'T', 3, Nil));
  }

  /** The inorder walk lists the keys alphabetically. */
  lemma SampleInorder()
    ensures Inorder(Sample()) ==
      [Entry('A', 4), Entry('D', 2), Entry('G', 5), Entry('M', 1),
       Entry('P', 6), Entry('T', 3), Entry('Z', 7)]
  {
    SampleBuildsShape();
    var t := SampleShape();
    var left := [Entry('A', 4), Entry('D', 2), Entry('G', 5)];
    var right := [Entry('P', 6), Entry('T', 3), Entry('Z', 7)];
    InorderOfFork(t.left);
    InorderOfFork(t.right);
    assert Inorder(t) == left + [Entry('M', 1)] + right;
  }

  /** The walk of a node with two leaf children. */
  lemma InorderOfFork(t: Tree)
    requires t.Node? && t.left.Node? && t.right.Node?
    requires t.left.left.Nil? && t.left.right.Nil? && t.right.left.Nil? && t.right.right.Nil?
    ensures Inorder(t) ==
      [Entry(t.left.key, t.left.value), Entry(t.key, t.value), Entry(t.right.key, t.right.value)]
  {
    assert Inorder(t.left) == [Entry(t.left.key, t.left.value)];
    assert Inorder(t.right) == [Entry(t.right.key, t.right.value)];
  }

  /** Deleting the root M, which has two children, moves G (the largest key
      below M) into the root and unhooks G's old leaf. */
  lemma DeleteRootShape()
    ensures BstRec.Delete(Sample(), 'M') ==
      Node(Node(Node(Nil, 'A', 4, Nil), 'D', 2, Nil), 'G', 5,
           Node(Node(Nil, 'P', 6, Nil), 'T', 3, Node(Nil, 'Z', 7, Nil)))
  {
    SampleBuildsShape();
    var t := SampleShape();
    var lower := Node(Node(Nil, 'A', 4, Nil), 'D', 2, Nil);
    assert BstRec.ReplaceByRightmost(t, t.left) == (t.(key := 'G', value := 5), lower);
  }

  /** After the root M is deleted, G is the root, the walk is the old one
      without M, and M is no longer found. */
  lemma InsertThenDeleteRoot()
    ensures BstRec.Delete(Sample(), 'M').key == 'G'
    ensures Inorder(BstRec.Delete(Sample(), 'M')) ==
      [Entry('A', 4), Entry('D', 2), Entry('G', 5),
       Entry('P', 6), Entry('T', 3), Entry('Z', 7)]
    ensures !BstRec.Search(BstRec.Delete(Sample(), 'M'), 'M', 0).0
  {
    DeleteRootShape();
    var lower := Node(Node(Nil, 'A', 4, Nil), 'D', 2, Nil);
    var upper := Node(Node(Nil, 'P', 6, Nil), 'T', 3, Node(Nil, 'Z', 7, Nil));
    assert Inorder(lower.left) == [Entry('A', 4)];
    assert Inorder(lower) == [Entry('A', 4), Entry('D', 2)];
    InorderOfFork(upper);
    assert Inorder(Node(lower, 'G', 5, upper)) ==
      [Entry('A', 4), Entry('D', 2)] + [Entry('G', 5)] + [Entry('P', 6), Entry('T', 3), Entry('Z', 7)];
  }

  /** Overwriting an existing key changes its value and nothing else. */
  lemma InsertExistingKey()
    ensures BstRec.Insert(Sample(), 'G', 50, true) ==
      Node(Node(Node(Nil, 'A', 4, Nil), 'D', 2, Node(Nil, 'G', 50, Nil)), 'M', 1,
           Node(Node(Nil, 'P', 6, Nil), 'T', 3, Node(Nil, 'Z', 7, Nil)))
  {
    SampleBuildsShape();
  }

  /** The recursive search reports the key, not the value: looking up 'A'
      in a one-node tree holding the value 5 yields 65, the code of 'A'. */
  lemma RecursiveSearchYieldsKey()
    ensures BstRec.Search(Node(Nil, 'A', 5, Nil), 'A', 0) == (true, 65)
  {
  }

  /** The iterative search, on the same tree, yields the stored value. */
  method SearchYieldsValue() returns (found: bool, value: int)
    ensures found && value == 5
  {
    found, value := BstIter.Search(Node(Nil, 'A', 5, Nil), 'A', 0);
  }

  /** A root with two leaf children. */
  function Fork(): Tree {
    Node(Node(Nil, 'A', 1, Nil), 'B', 2, Node(Nil, 'C', 3, Nil))
  }

  /** The recursive dispose frees A and B but never reaches C: once a node
      has a left child its right child is skipped. */
  lemma RecursiveDisposeLeaksRightChild()
    ensures BstRec.Dispose(Fork()).1 == [Entry('A', 1), Entry('B', 2)]
    ensures Entry('C', 3) in Bag(Fork()) && Entry('C', 3) !in BstRec.Dispose(Fork()).1
  {
  }

  /** The iterative dispose, on the same tree, frees all three nodes. */
  method DisposeFreesEveryNode() returns (freed: seq<Entry>)
    ensures freed == [Entry('B', 2), Entry('A', 1), Entry('C', 3)]
  {
    var root;
    root, freed := BstIter.Dispose(Fork());
  }
}
