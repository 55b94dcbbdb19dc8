/// The recursive variant of the ordered store (btree/rec/btree.c).
///
/// Every operation recurses on the link slot it was given; a function here
/// takes the subtree that slot holds and returns what the slot holds
/// afterwards. The traversals of this variant are `BstTree.Preorder`,
/// `BstTree.Inorder` and `BstTree.Postorder`. Two operations are modelled as
/// written even where they differ from the iterative variant: `Search` stores
/// the node's key instead of its value, and `Dispose` frees only one subtree
/// of a node that has two.
module BstRec {
  import opened BstTree

  /** bst_init: the handle is set to NULL, the empty store. */
  function Init(): (t: Tree)
    ensures Keys(t) == {} && Size(t) == 0
  {
    Nil
  }

  /** bst_search as written: on success it stores the found node's key,
      converted to int, into `*value`; otherwise `*value` keeps `value`.
      Returns the result and the new `*value`. */
  function Search(t: Tree, key: char, value: int): (r: (bool, int))
    ensures r.0 ==> key in Keys(t) && r.1 == key as int
    ensures !r.0 ==> r.1 == value
    ensures IsBST(t) ==> (r.0 <==> key in Keys(t))
  {
    match t
    case Nil => (false, value)
    case Node(l, k, _, rt) =>
      if k == key then (true, k as int)
      else if k > key then Search(l, key, value)
      else Search(rt, key, value)
  }

  /** bst_insert: overwrite the value of the node with `key`, or hang a new
      leaf in the empty slot the descent ends in. `mallocOk` is false when
      the allocation of that leaf fails, which makes the call a no-op. */
  function Insert(t: Tree, key: char, value: int, mallocOk: bool): (r: Tree)
    ensures Keys(r) == if mallocOk then Keys(t) + {key} else Keys(t)
    ensures IsBST(t) ==> IsBST(r)
  {
    match t
    case Nil => if mallocOk then Node(Nil, key, value, Nil) else Nil
    case Node(l, k, v, rt) =>
      if k > key then Node(Insert(l, key, value, mallocOk), k, v, rt)
      else if k < key then Node(l, k, v, Insert(rt, key, value, mallocOk))
      else Node(l, k, value, rt)
  }

  /** bst_replace_by_rightmost: the key and value of the rightmost node of `t`
      are copied into the node `target`, and that rightmost node is replaced
      in its slot by its left subtree. A NULL `target` or an empty `t` makes
      it a no-op. Returns the new `*target` and the new `*tree`. */
  function ReplaceByRightmost(target: Tree, t: Tree): (r: (Tree, Tree))
    ensures target.Nil? || t.Nil? ==> r == (target, t)
    ensures target.Node? && t.Node? ==>
      r.0.Node? && r.0.left == target.left && r.0.right == target.right &&
      Keys(t) == Keys(r.1) + {r.0.key}
  {
    if t.Nil? || target.Nil? then (target, t)
    else if t.right.Nil? then (target.(key := t.key, value := t.value), t.left)
    else
      var (target', right') := ReplaceByRightmost(target, t.right);
      (target', Node(t.left, t.key, t.value, right'))
  }

  /** bst_delete: a node with an empty right (or left) subtree is replaced
      by its other subtree; a node with two takes over the key and value of
      the rightmost node of its left subtree, which is removed instead. */
  function Delete(t: Tree, key: char): (r: Tree)
    ensures key !in Keys(t) ==> r == t
  {
    match t
    case Nil => Nil
    case Node(l, k, v, rt) =>
      if key > k then Node(l, k, v, Delete(rt, key))
      else if key < k then Node(Delete(l, key), k, v, rt)
      else if rt.Nil? then l
      else if l.Nil? then rt
      else
        var (target', left') := ReplaceByRightmost(t, l);
        Node(left', target'.key, target'.value, rt)
  }

  /** bst_dispose as written: the `else if` recurses into the right subtree
      only when the left one is empty. Returns the handle afterwards (always
      NULL) and the entries of the nodes passed to free(), in order. */
  function Dispose(t: Tree): (r: (Tree, seq<Entry>))
    ensures r.0 == Nil
    ensures |r.1| <= Size(t)
  {
    match t
    case Nil => (Nil, [])
    case Node(l, k, v, rt) =>
      var freed := if l.Node? then Dispose(l).1 else if rt.Node? then Dispose(rt).1 else [];
      (Nil, freed + [Entry(k, v)])
  }

  // ---------------------------------------------------------------------
  // Insert

  /** Inserting stores the pair: a later search finds `key`, and, when the
      tree is a search tree, the entry (key, value) is in it. */
  lemma {:induction false} InsertStores(t: Tree, key: char, value: int)
    ensures Entry(key, value) in Bag(Insert(t, key, value, true))
  {
    match t
    case Nil =>
    case Node(l, k, v, rt) =>
      if k > key { InsertStores(l, key, value); }
      else if k < key { InsertStores(rt, key, value); }
  }

  /** A new key adds exactly one node, holding the new entry. */
  lemma {:induction false} InsertNewKeyAddsOneNode(t: Tree, key: char, value: int, mallocOk: bool)
    requires key !in Keys(t)
    ensures Bag(Insert(t, key, value, mallocOk)) ==
            if mallocOk then Bag(t) + multiset{Entry(key, value)} else Bag(t)
  {
    match t
    case Nil =>
    case Node(l, k, v, rt) =>
      if k > key { InsertNewKeyAddsOneNode(l, key, value, mallocOk); }
      else { InsertNewKeyAddsOneNode(rt, key, value, mallocOk); }
  }

  /** `s` with the value of every entry for `key` replaced by `value`. */
  function Overwrite(s: seq<Entry>, key: char, value: int): seq<Entry> {
    seq(|s|, i requires 0 <= i < |s| => if s[i].key == key then Entry(key, value) else s[i])
  }

  lemma OverwriteSplit(a: seq<Entry>, e: Entry, b: seq<Entry>, key: char, value: int)
    ensures Overwrite(a + [e] + b, key, value) ==
            Overwrite(a, key, value) + Overwrite([e], key, value) + Overwrite(b, key, value)
  {
    var lhs := Overwrite(a + [e] + b, key, value);
    var rhs := Overwrite(a, key, value) + Overwrite([e], key, value) + Overwrite(b, key, value);
    assert |lhs| == |rhs|;
    forall i | 0 <= i < |lhs| ensures lhs[i] == rhs[i] {
      if i < |a| {
        assert (a + [e] + b)[i] == a[i];
      } else if i == |a| {
        assert (a + [e] + b)[i] == e;
      } else {
        assert (a + [e] + b)[i] == b[i - |a| - 1];
      }
    }
  }

  lemma OverwriteAbsent(t: Tree, key: char, value: int)
    requires key !in Keys(t)
    ensures Overwrite(Inorder(t), key, value) == Inorder(t)
  {
    InorderKeysSound(t);
  }

  /** The left link of every node of `a` is empty exactly where it is in `b`,
      and so is the right link. */
  predicate SameShape(a: Tree, b: Tree) {
    match (a, b)
    case (Nil, Nil) => true
    case (Node(al, _, _, ar), Node(bl, _, _, br)) => SameShape(al, bl) && SameShape(ar, br)
    case _ => false
  }

  /** On a key that is already present, insertion keeps the shape of the
      tree and changes nothing but that node's value: the inorder walk is the
      old one with the entry for `key` overwritten. */
  lemma {:induction false} InsertExistingOverwrites(t: Tree, key: char, value: int, mallocOk: bool)
    requires IsBST(t) && key in Keys(t)
    ensures SameShape(Insert(t, key, value, mallocOk), t)
    ensures Inorder(Insert(t, key, value, mallocOk)) == Overwrite(Inorder(t), key, value)
  {
    var l, k, v, rt := t.left, t.key, t.value, t.right;
    var r := Insert(t, key, value, mallocOk);
    var e := Entry(k, v);
    OverwriteSplit(Inorder(l), e, Inorder(rt), key, value);
    var mid := Overwrite([e], key, value);
    assert mid[0] == (if k == key then Entry(key, value) else e);
    if k > key {
      assert key in Keys(l);
      InsertExistingOverwrites(l, key, value, mallocOk);
      SameShapeRefl(rt);
      OverwriteAbsent(rt, key, value);
      assert r == Node(Insert(l, key, value, mallocOk), k, v, rt);
      assert mid == [e];
    } else if k < key {
      assert key in Keys(rt);
      InsertExistingOverwrites(rt, key, value, mallocOk);
      SameShapeRefl(l);
      OverwriteAbsent(l, key, value);
      assert r == Node(l, k, v, Insert(rt, key, value, mallocOk));
      assert mid == [e];
    } else {
      SameShapeRefl(l);
      SameShapeRefl(rt);
      OverwriteAbsent(l, key, value);
      OverwriteAbsent(rt, key, value);
      assert r == Node(l, k, value, rt);
      assert mid == [Entry(key, value)];
    }
  }

  lemma {:induction false} SameShapeRefl(t: Tree)
    ensures SameShape(t, t)
  {
    match t
    case Nil =>
    case Node(l, _, _, r) =>
      SameShapeRefl(l);
      SameShapeRefl(r);
  }

  // ---------------------------------------------------------------------
  // Replace by rightmost and delete

  /** The node copied into `target` is the last one of the inorder walk of
      `t`, and the walk of what is left of `t` is the walk of `t` without it. */
  lemma {:induction false} RightmostIsLastInorder(target: Tree, t: Tree)
    requires target.Node? && t.Node?
    ensures var r := ReplaceByRightmost(target, t);
      Inorder(t) == Inorder(r.1) + [Entry(r.0.key, r.0.value)]
  {
    if t.right.Node? {
      RightmostIsLastInorder(target, t.right);
    }
  }

  /** On a search tree, the rightmost node holds the largest key; removing it
      leaves a search tree that has lost exactly that key. */
  lemma RightmostIsMaximum(target: Tree, t: Tree)
    requires target.Node? && t.Node? && IsBST(t)
    ensures var r := ReplaceByRightmost(target, t);
      IsBST(r.1) && r.0.key !in Keys(r.1) && Keys(r.1) == Keys(t) - {r.0.key} &&
      (forall x | x in Keys(t) :: x <= r.0.key)
  {
    var r := ReplaceByRightmost(target, t);
    var m := Entry(r.0.key, r.0.value);
    RightmostIsLastInorder(target, t);
    BstIffInorderIncreasing(t);
    BstIffInorderIncreasing(r.1);
    var s, s' := Inorder(t), Inorder(r.1);
    assert s == s' + [m];
    assert Increasing(s') by {
      forall i, j | 0 <= i < j < |s'| ensures s'[i].key < s'[j].key {
        assert s[i] == s'[i] && s[j] == s'[j];
      }
    }
    InorderKeysSound(r.1);
    InorderKeysSound(t);
    assert r.0.key !in Keys(r.1);
    forall x | x in Keys(t) ensures x <= r.0.key {
      InorderKeysComplete(t, x);
      var i :| 0 <= i < |s| && s[i].key == x;
      assert s[|s| - 1] == m;
    }
  }

  /** `s` without the entries for `key`. */
  function RemoveKey(s: seq<Entry>, key: char): seq<Entry> {
    if s == [] then []
    else (if s[0].key == key then [] else [s[0]]) + RemoveKey(s[1..], key)
  }

  lemma {:induction false} RemoveKeyConcat(a: seq<Entry>, b: seq<Entry>, key: char)
    ensures RemoveKey(a + b, key) == RemoveKey(a, key) + RemoveKey(b, key)
  {
    if a == [] {
      assert a + b == b;
    } else {
      var head: seq<Entry> := if a[0].key == key then [] else [a[0]];
      var ab := a + b;
      assert ab[0] == a[0] && ab[1..] == a[1..] + b;
      var rest := RemoveKey(a[1..], key);
      RemoveKeyConcat(a[1..], b, key);
      assert RemoveKey(ab, key) == head + (rest + RemoveKey(b, key));
      assert RemoveKey(a, key) == head + rest;
    }
  }

  lemma {:induction false} RemoveKeyAbsent(s: seq<Entry>, key: char)
    requires forall i | 0 <= i < |s| :: s[i].key != key
    ensures RemoveKey(s, key) == s
  {
    if s != [] {
      RemoveKeyAbsent(s[1..], key);
    }
  }

  lemma RemoveKeySplit(a: seq<Entry>, e: Entry, b: seq<Entry>, key: char)
    ensures RemoveKey(a + [e] + b, key) ==
            RemoveKey(a, key) + (if e.key == key then [] else [e]) + RemoveKey(b, key)
  {
    RemoveKeyConcat(a + [e], b, key);
    RemoveKeyConcat(a, [e], key);
    assert [e][1..] == [];
  }

  lemma RemoveKeyAbsentFromTree(t: Tree, key: char)
    requires key !in Keys(t)
    ensures RemoveKey(Inorder(t), key) == Inorder(t)
  {
    InorderKeysSound(t);
    RemoveKeyAbsent(Inorder(t), key);
  }

  /** On a search tree, deletion removes the entry for `key` from the inorder
      walk and changes nothing else: the other entries keep their values and
      their order. */
  lemma {:induction false} DeleteInorder(t: Tree, key: char)
    requires IsBST(t)
    ensures Inorder(Delete(t, key)) == RemoveKey(Inorder(t), key)
  {
    if t.Node? {
      if key > t.key {
        DeleteInorder(t.right, key);
        DeleteRightInorder(t, key);
      } else if key < t.key {
        DeleteInorder(t.left, key);
        DeleteLeftInorder(t, key);
      } else {
        DeleteHereInorder(t, key);
      }
    }
  }

  /** A key above the node's is deleted from the right subtree alone. */
  lemma DeleteRightInorder(t: Tree, key: char)
    requires t.Node? && key > t.key && key !in Keys(t.left)
    requires Inorder(Delete(t.right, key)) == RemoveKey(Inorder(t.right), key)
    ensures Inorder(Delete(t, key)) == RemoveKey(Inorder(t), key)
  {
    var l, k, v, rt := t.left, t.key, t.value, t.right;
    var e := Entry(k, v);
    RemoveKeySplit(Inorder(l), e, Inorder(rt), key);
    RemoveKeyAbsentFromTree(l, key);
    assert Delete(t, key) == Node(l, k, v, Delete(rt, key));
  }

  /** A key below the node's is deleted from the left subtree alone. */
  lemma DeleteLeftInorder(t: Tree, key: char)
    requires t.Node? && key < t.key && key !in Keys(t.right)
    requires Inorder(Delete(t.left, key)) == RemoveKey(Inorder(t.left), key)
    ensures Inorder(Delete(t, key)) == RemoveKey(Inorder(t), key)
  {
    var l, k, v, rt := t.left, t.key, t.value, t.right;
    var e := Entry(k, v);
    RemoveKeySplit(Inorder(l), e, Inorder(rt), key);
    RemoveKeyAbsentFromTree(rt, key);
    assert Delete(t, key) == Node(Delete(l, key), k, v, rt);
  }

  /** The node's own key leaves the walks of both subtrees, spliced. */
  lemma DeleteHereInorder(t: Tree, key: char)
    requires t.Node? && key == t.key && key !in Keys(t.left) && key !in Keys(t.right)
    ensures Inorder(Delete(t, key)) == RemoveKey(Inorder(t), key)
  {
    var sl, e, sr := Inorder(t.left), Entry(t.key, t.value), Inorder(t.right);
    assert Inorder(t) == sl + [e] + sr;
    RemoveKeyAbsentFromTree(t.left, key);
    RemoveKeyAbsentFromTree(t.right, key);
    RemoveKeySplit(sl, e, sr, key);
    assert sl + [] + sr == sl + sr;
    DeleteNodeInorder(t);
  }

  /** Deleting the key of the node at the top of `t` splices the walks of its
      two subtrees together. */
  lemma DeleteNodeInorder(t: Tree)
    requires t.Node?
    ensures Inorder(Delete(t, t.key)) == Inorder(t.left) + Inorder(t.right)
  {
    var l, rt := t.left, t.right;
    if rt.Node? && l.Node? {
      RightmostIsLastInorder(t, l);
      var r := ReplaceByRightmost(t, l);
      calc {
        Inorder(Delete(t, t.key));
        { assert Delete(t, t.key) == Node(r.1, r.0.key, r.0.value, rt); }
        Inorder(r.1) + [Entry(r.0.key, r.0.value)] + Inorder(rt);
        Inorder(l) + Inorder(rt);
      }
    } else if rt.Nil? {
      assert Inorder(l) + Inorder(rt) == Inorder(l);
    }
  }

  /** On a search tree, deletion leaves a search tree whose keys are the old
      ones without `key`. */
  lemma {:induction false} DeleteKeepsBst(t: Tree, key: char)
    requires IsBST(t)
    ensures IsBST(Delete(t, key))
    ensures Keys(Delete(t, key)) == Keys(t) - {key}
  {
    if t.Node? {
      var l, k, v, rt := t.left, t.key, t.value, t.right;
      if key > k {
        DeleteKeepsBst(rt, key);
        assert Delete(t, key) == Node(l, k, v, Delete(rt, key));
      } else if key < k {
        DeleteKeepsBst(l, key);
        assert Delete(t, key) == Node(Delete(l, key), k, v, rt);
      } else if rt.Node? && l.Node? {
        RightmostIsMaximum(t, l);
        var r := ReplaceByRightmost(t, l);
        assert Delete(t, key) == Node(r.1, r.0.key, r.0.value, rt);
      }
    }
  }

  // ---------------------------------------------------------------------
  // Dispose

  /** Some node of `t` has two children. */
  predicate HasBranch(t: Tree) {
    match t
    case Nil => false
    case Node(l, _, _, r) => (l.Node? && r.Node?) || HasBranch(l) || HasBranch(r)
  }

  /** The recursive dispose frees every node exactly when no node has two
      children; otherwise the right subtree of such a node is never freed. */
  lemma {:induction false} DisposeFreesAllIffNoBranch(t: Tree)
    ensures |Dispose(t).1| == Size(t) <==> !HasBranch(t)
  {
    match t
    case Nil =>
    case Node(l, _, _, r) =>
      DisposeFreesAllIffNoBranch(l);
      DisposeFreesAllIffNoBranch(r);
  }

  /** The recursive dispose frees only nodes of the tree, none twice. */
  lemma {:induction false} DisposeFreesOnlyOwnNodes(t: Tree)
    ensures multiset(Dispose(t).1) <= Bag(t)
  {
    match t
    case Nil =>
    case Node(l, k, v, r) =>
      DisposeFreesOnlyOwnNodes(l);
      DisposeFreesOnlyOwnNodes(r);
  }
}
