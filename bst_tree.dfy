/// The abstract binary search tree shared by the recursive and the iterative
/// variant of the ordered store (btree/rec/btree.c, btree/iter/btree.c).
///
/// A node is exclusively owned by the link slot that points at it, so a
/// subtree reference is modelled by the subtree's value: `Nil` is a NULL link
/// and `Node` an allocated node with its key, value and two child links. The
/// recursive traversals of btree/rec/btree.c are `Preorder`, `Inorder` and
/// `Postorder` below: each appends one `Entry` per call of the visit callback.
module BstTree {

  /** What the visit callback sees of a node: its key and its value. */
  datatype Entry = Entry(key: char, value: int)

  datatype Tree = Nil | Node(left: Tree, key: char, value: int, right: Tree)

  function Keys(t: Tree): set<char> {
    match t
    case Nil => {}
    case Node(l, k, _, r) => Keys(l) + {k} + Keys(r)
  }

  /** The entries of all nodes of `t`, one per node. */
  function Bag(t: Tree): multiset<Entry> {
    match t
    case Nil => multiset{}
    case Node(l, k, v, r) => Bag(l) + multiset{Entry(k, v)} + Bag(r)
  }

  function Size(t: Tree): nat {
    match t
    case Nil => 0
    case Node(l, _, _, r) => Size(l) + 1 + Size(r)
  }

  /** The search-tree condition: every key of a left subtree is smaller than
      its node's key, every key of a right subtree larger. */
  predicate IsBST(t: Tree) {
    match t
    case Nil => true
    case Node(l, k, _, r) =>
      IsBST(l) && IsBST(r) &&
      (forall x | x in Keys(l) :: x < k) &&
      (forall x | x in Keys(r) :: k < x)
  }

  /** Node, then left subtree, then right subtree. */
  function Preorder(t: Tree): seq<Entry> {
    match t
    case Nil => []
    case Node(l, k, v, r) => [Entry(k, v)] + Preorder(l) + Preorder(r)
  }

  /** Left subtree, then node, then right subtree. */
  function Inorder(t: Tree): seq<Entry> {
    match t
    case Nil => []
    case Node(l, k, v, r) => Inorder(l) + [Entry(k, v)] + Inorder(r)
  }

  /** Left subtree, then right subtree, then node. */
  function Postorder(t: Tree): seq<Entry> {
    match t
    case Nil => []
    case Node(l, k, v, r) => Postorder(l) + Postorder(r) + [Entry(k, v)]
  }

  /** Keys strictly increase along `s`. */
  predicate Increasing(s: seq<Entry>) {
    forall i, j | 0 <= i < j < |s| :: s[i].key < s[j].key
  }

  // ---------------------------------------------------------------------
  // Link slots. A `bst_node_t **` cursor that started at the root handle is
  // the path of left/right steps it took; `*cursor` is `Subtree(root, p)` and
  // `*cursor = s` rewrites the root to `Graft(root, p, s)`.

  datatype Dir = Left | Right

  function Child(t: Tree, d: Dir): Tree {
    match t
    case Nil => Nil
    case Node(l, _, _, r) => if d == Left then l else r
  }

  /** `t` with the child link `d` overwritten by `s` (no slot exists in Nil). */
  function SetChild(t: Tree, d: Dir, s: Tree): Tree {
    match t
    case Nil => Nil
    case Node(l, k, v, r) => if d == Left then Node(s, k, v, r) else Node(l, k, v, s)
  }

  function Subtree(t: Tree, p: seq<Dir>): Tree {
    if p == [] then t else Child(Subtree(t, p[..|p| - 1]), p[|p| - 1])
  }

  function Graft(t: Tree, p: seq<Dir>, s: Tree): Tree {
    if p == [] then s
    else Graft(t, p[..|p| - 1], SetChild(Subtree(t, p[..|p| - 1]), p[|p| - 1], s))
  }

  /** `p` names a link slot of `t`: the root handle, or a child link of a node. */
  predicate IsSlot(t: Tree, p: seq<Dir>) {
    p == [] || Subtree(t, p[..|p| - 1]).Node?
  }

  // ---------------------------------------------------------------------
  // Properties of the traversals.

  /** The preorder walk emits exactly the entries of the tree's nodes, each
      node once. */
  lemma {:induction false} PreorderVisitsEachNodeOnce(t: Tree)
    ensures multiset(Preorder(t)) == Bag(t)
  {
    match t
    case Nil =>
    case Node(l, k, v, r) =>
      PreorderVisitsEachNodeOnce(l);
      PreorderVisitsEachNodeOnce(r);
      assert Preorder(t) == [Entry(k, v)] + Preorder(l) + Preorder(r);
  }

  /** The inorder walk emits exactly the entries of the tree's nodes, each
      node once. */
  lemma {:induction false} InorderVisitsEachNodeOnce(t: Tree)
    ensures multiset(Inorder(t)) == Bag(t)
  {
    match t
    case Nil =>
    case Node(l, k, v, r) =>
      InorderVisitsEachNodeOnce(l);
      InorderVisitsEachNodeOnce(r);
      assert Inorder(t) == Inorder(l) + [Entry(k, v)] + Inorder(r);
  }

  /** The postorder walk emits exactly the entries of the tree's nodes, each
      node once. */
  lemma {:induction false} PostorderVisitsEachNodeOnce(t: Tree)
    ensures multiset(Postorder(t)) == Bag(t)
  {
    match t
    case Nil =>
    case Node(l, k, v, r) =>
      PostorderVisitsEachNodeOnce(l);
      PostorderVisitsEachNodeOnce(r);
      assert Postorder(t) == Postorder(l) + Postorder(r) + [Entry(k, v)];
  }

  /** All three walks emit one entry per node. */
  lemma {:induction false} TraversalLengths(t: Tree)
    ensures |Preorder(t)| == |Inorder(t)| == |Postorder(t)| == Size(t)
  {
    match t
    case Nil =>
    case Node(l, k, v, r) =>
      TraversalLengths(l);
      TraversalLengths(r);
  }

  /** Every key emitted by the inorder walk is a key of the tree. */
  lemma {:induction false} InorderKeysSound(t: Tree)
    ensures forall i | 0 <= i < |Inorder(t)| :: Inorder(t)[i].key in Keys(t)
  {
    match t
    case Nil =>
    case Node(l, k, v, r) =>
      InorderKeysSound(l);
      InorderKeysSound(r);
      var sl, sr := Inorder(l), Inorder(r);
      var s := Inorder(t);
      var n := |sl|;
      forall i | 0 <= i < |s| ensures s[i].key in Keys(t) {
        if i < n { assert s[i] == sl[i]; }
        else if n < i { assert s[i] == sr[i - n - 1]; }
      }
  }

  /** Every key of the tree is emitted somewhere by the inorder walk. */
  lemma {:induction false} InorderKeysComplete(t: Tree, x: char)
    requires x in Keys(t)
    ensures exists i | 0 <= i < |Inorder(t)| :: Inorder(t)[i].key == x
  {
    match t
    case Node(l, k, v, r) =>
      var sl, sr := Inorder(l), Inorder(r);
      var s := Inorder(t);
      var n := |sl|;
      if x in Keys(l) {
        InorderKeysComplete(l, x);
        var i :| 0 <= i < n && sl[i].key == x;
        assert s[i] == sl[i];
      } else if x in Keys(r) {
        InorderKeysComplete(r, x);
        var i :| 0 <= i < |sr| && sr[i].key == x;
        assert s[n + 1 + i] == sr[i];
      } else {
        assert s[n].key == x;
      }
  }

  /** A tree is a binary search tree exactly when its inorder walk emits
      strictly increasing keys. */
  lemma {:induction false} BstIffInorderIncreasing(t: Tree)
    ensures IsBST(t) <==> Increasing(Inorder(t))
  {
    match t
    case Nil =>
    case Node(l, k, v, r) =>
      BstIffInorderIncreasing(l);
      BstIffInorderIncreasing(r);
      if IsBST(t) {
        JoinIncreasing(l, k, v, r);
      }
      if Increasing(Inorder(t)) {
        SplitIncreasing(l, k, v, r);
      }
  }

  /** Two increasing walks around a key between them make an increasing walk. */
  lemma JoinIncreasing(l: Tree, k: char, v: int, r: Tree)
    requires Increasing(Inorder(l)) && Increasing(Inorder(r))
    requires forall x | x in Keys(l) :: x < k
    requires forall x | x in Keys(r) :: k < x
    ensures Increasing(Inorder(Node(l, k, v, r)))
  {
    InorderKeysSound(l);
    InorderKeysSound(r);
    var sl, sr := Inorder(l), Inorder(r);
    var s := Inorder(Node(l, k, v, r));
    assert s == sl + [Entry(k, v)] + sr;
    var n := |sl|;
    forall i, j | 0 <= i < j < |s| ensures s[i].key < s[j].key {
      if j < n {
        assert s[i] == sl[i] && s[j] == sl[j];
      } else if n < i {
        assert s[i] == sr[i - n - 1] && s[j] == sr[j - n - 1];
      } else if i < n {
        assert s[i] == sl[i];
        if j > n { assert s[j] == sr[j - n - 1]; }
      } else {
        assert s[j] == sr[j - n - 1];
      }
    }
  }

  /** An increasing walk of a node is increasing on either side of the node,
      with every key of the left smaller and every key of the right larger. */
  lemma SplitIncreasing(l: Tree, k: char, v: int, r: Tree)
    requires Increasing(Inorder(Node(l, k, v, r)))
    ensures Increasing(Inorder(l)) && Increasing(Inorder(r))
    ensures forall x | x in Keys(l) :: x < k
    ensures forall x | x in Keys(r) :: k < x
  {
    var sl, sr := Inorder(l), Inorder(r);
    var s := Inorder(Node(l, k, v, r));
    assert s == sl + [Entry(k, v)] + sr;
    var n := |sl|;
    assert Increasing(sl) by {
      forall i, j | 0 <= i < j < |sl| ensures sl[i].key < sl[j].key {
        assert s[i] == sl[i] && s[j] == sl[j];
      }
    }
    assert Increasing(sr) by {
      forall i, j | 0 <= i < j < |sr| ensures sr[i].key < sr[j].key {
        assert s[n + 1 + i] == sr[i] && s[n + 1 + j] == sr[j];
      }
    }
    forall x | x in Keys(l) ensures x < k {
      InorderKeysComplete(l, x);
      var i :| 0 <= i < n && sl[i].key == x;
      assert s[i] == sl[i] && s[n].key == k;
    }
    forall x | x in Keys(r) ensures k < x {
      InorderKeysComplete(r, x);
      var i :| 0 <= i < |sr| && sr[i].key == x;
      assert s[n + 1 + i] == sr[i] && s[n].key == k;
    }
  }

  /** In a binary search tree no two nodes share a key. */
  lemma {:induction false} BstKeysUnique(t: Tree)
    requires IsBST(t)
    ensures |Keys(t)| == Size(t)
  {
    match t
    case Nil =>
    case Node(l, k, _, r) =>
      BstKeysUnique(l);
      BstKeysUnique(r);
      DisjointUnionSize(Keys(l), k, Keys(r));
  }

  /** Every entry of the bag belongs to a node, so its key is a key of the
      tree. */
  lemma {:induction false} BagKeys(t: Tree, e: Entry)
    requires e in Bag(t)
    ensures e.key in Keys(t)
  {
    match t
    case Nil =>
    case Node(l, k, v, r) =>
      if e in Bag(l) {
        BagKeys(l, e);
      } else if e in Bag(r) {
        BagKeys(r, e);
      }
  }

  /** In a binary search tree a key has one value: two entries with the
      same key are the same node's. */
  lemma {:induction false} BstValueUnique(t: Tree, key: char, a: int, b: int)
    requires IsBST(t)
    requires Entry(key, a) in Bag(t) && Entry(key, b) in Bag(t)
    ensures a == b
  {
    match t
    case Node(l, k, v, r) =>
      if key < k {
        OutsideKeys(r, Entry(key, a));
        OutsideKeys(r, Entry(key, b));
        BstValueUnique(l, key, a, b);
      } else if k < key {
        OutsideKeys(l, Entry(key, a));
        OutsideKeys(l, Entry(key, b));
        BstValueUnique(r, key, a, b);
      } else {
        OutsideKeys(l, Entry(key, a));
        OutsideKeys(l, Entry(key, b));
        OutsideKeys(r, Entry(key, a));
        OutsideKeys(r, Entry(key, b));
      }
  }

  /** An entry whose key is not a key of `t` is not in its bag. */
  lemma OutsideKeys(t: Tree, e: Entry)
    requires e.key !in Keys(t)
    ensures e !in Bag(t)
  {
    if e in Bag(t) {
      BagKeys(t, e);
    }
  }

  /** Sizes add up over a union of disjoint key sets. */
  lemma DisjointUnionSize(a: set<char>, k: char, b: set<char>)
    requires forall x | x in a :: x < k
    requires forall x | x in b :: k < x
    ensures |a + {k} + b| == |a| + 1 + |b|
  {
    assert k !in a + b;
    assert forall x | x in a :: x !in b;
    assert |a + b| == |a| + |b|;
    assert a + {k} + b == (a + b) + {k};
  }
}
