/// The iterative variant of the ordered store (btree/iter/btree.c).
///
/// The handle `bst_node_t **tree` is passed in as the tree it points to and
/// handed back as the tree it points to afterwards. A cursor that walks the
/// link slots is the path `p` it has taken from the handle: `*tree` is
/// `Subtree(root, p)` and `*tree = s` makes the root `Graft(root, p, s)`.
/// The node stack and the bool stack are sequences used LIFO through
/// `Stack`; a stacked node is the subtree it roots. The visit callback
/// `bst_print_node` appends the node's entry to the output sequence.
///
/// Every operation is proved to compute what the recursive variant
/// (`BstRec`) or the recursive walk (`BstTree`) computes, except `Search`,
/// which stores the node's value where the recursive one stores the key.
module BstIter {
  import opened BstTree
  import opened Stack
  import BstRec

  /** bst_init: the handle is set to NULL. */
  method Init() returns (tree: Tree)
    ensures tree == Nil
    ensures Keys(tree) == {} && Inorder(tree) == []
  {
    tree := Nil;
  }

  /** bst_search: on success returns true and the node's value as the new
      `*value`; otherwise false and `*value` unchanged. */
  method Search(tree: Tree, key: char, value: int) returns (found: bool, value': int)
    ensures found ==> Entry(key, value') in Bag(tree)
    ensures !found ==> value' == value
    ensures IsBST(tree) ==> (found <==> key in Keys(tree))
    ensures IsBST(tree) ==> forall v | Entry(key, v) in Bag(tree) :: found && value' == v
  {
    var cur := tree;
    value' := value;
    while cur.Node?
      invariant Bag(cur) <= Bag(tree)
      invariant IsBST(tree) ==> IsBST(cur) && (key in Keys(tree) <==> key in Keys(cur))
      decreases cur
    {
      SearchStep(cur, key);
      NodeBag(cur.left, Entry(cur.key, cur.value), cur.right, Bag(cur));
      if key > cur.key {
        cur := cur.right;
      } else if key < cur.key {
        cur := cur.left;
      } else {
        // The fourth branch of the source, after `key == tree->key`, is unreachable.
        value' := cur.value;
        found := true;
        if IsBST(tree) {
          forall v | Entry(key, v) in Bag(tree)
            ensures v == value'
          {
            BstValueUnique(tree, key, v, value');
          }
        }
        return;
      }
    }
    found := false;
    forall v | Entry(key, v) in Bag(tree)
      ensures !IsBST(tree)
    {
      BagKeys(tree, Entry(key, v));
    }
  }

  /** bst_insert followed by bst_search on a search tree: the search finds
      the key just inserted and yields the value just stored. */
  method InsertThenSearch(tree: Tree, key: char, value: int, before: int)
    returns (found: bool, value': int)
    requires IsBST(tree)
    ensures found && value' == value
  {
    var tree' := Insert(tree, key, value, true);
    BstRec.InsertStores(tree, key, value);
    found, value' := Search(tree', key, before);
  }

  /** One step of the descent keeps the node searched for, if any, below the
      cursor. */
  lemma SearchStep(t: Tree, key: char)
    requires t.Node?
    ensures IsBST(t) ==> IsBST(t.left) && IsBST(t.right)
    ensures IsBST(t) && key < t.key ==> (key in Keys(t) <==> key in Keys(t.left))
    ensures IsBST(t) && key > t.key ==> (key in Keys(t) <==> key in Keys(t.right))
  {
    var l, k, r := t.left, t.key, t.right;
    assert Keys(t) == Keys(l) + {k} + Keys(r);
    if IsBST(t) {
      assert key < k ==> key !in Keys(r);
      assert key > k ==> key !in Keys(l);
    }
  }

  /** The bag of a node holds its entry and both of its subtrees' bags. */
  lemma NodeBag(l: Tree, e: Entry, r: Tree, b: multiset<Entry>)
    requires b == Bag(l) + multiset{e} + Bag(r)
    ensures Bag(l) <= b && Bag(r) <= b && e in b
  {
  }

  /** The effect of bst_insert on the slot `p` its descent stopped at: an
      empty slot receives a new leaf (or nothing when allocation fails), a
      node with `key` gets `value` and keeps everything else. */
  predicate InsertedAt(tree: Tree, p: seq<Dir>, key: char, value: int, mallocOk: bool, tree': Tree) {
    IsSlot(tree, p) &&
    match Subtree(tree, p)
    case Nil => tree' == Graft(tree, p, if mallocOk then Node(Nil, key, value, Nil) else Nil)
    case Node(l, k, _, r) => k == key && tree' == Graft(tree, p, Node(l, key, value, r))
  }

  /** bst_insert: the cursor descends by key comparison to a node with `key`
      or to an empty slot, and the write happens there and nowhere else. */
  method Insert(tree: Tree, key: char, value: int, mallocOk: bool) returns (tree': Tree)
    ensures tree' == BstRec.Insert(tree, key, value, mallocOk)
    ensures exists p :: InsertedAt(tree, p, key, value, mallocOk, tree')
    ensures Keys(tree') == if mallocOk then Keys(tree) + {key} else Keys(tree)
    ensures IsBST(tree) ==> IsBST(tree')
  {
    var p: seq<Dir> := [];
    var cur := tree;
    while cur.Node?
      invariant cur == Subtree(tree, p) && IsSlot(tree, p)
      invariant BstRec.Insert(tree, key, value, mallocOk) ==
                Graft(tree, p, BstRec.Insert(cur, key, value, mallocOk))
      decreases cur
    {
      StepDown(p);
      if key < cur.key {
        p, cur := p + [Left], cur.left;
      } else if key > cur.key {
        p, cur := p + [Right], cur.right;
      } else {
        tree' := Graft(tree, p, cur.(value := value));
        assert InsertedAt(tree, p, key, value, mallocOk, tree');
        return;
      }
    }
    if mallocOk {
      tree' := Graft(tree, p, Node(Nil, key, value, Nil));
    } else {
      GraftSubtree(tree, p);
      tree' := tree;
    }
    assert InsertedAt(tree, p, key, value, mallocOk, tree');
  }

  /** bst_replace_by_rightmost: the cursor follows right links to the
      rightmost node, whose key and value are copied into `target` and whose
      slot receives its left subtree. Returns the new `*target` and `*tree`. */
  method ReplaceByRightmost(target: Tree, tree: Tree) returns (target': Tree, tree': Tree)
    ensures (target', tree') == BstRec.ReplaceByRightmost(target, tree)
    ensures target.Node? && tree.Node? ==>
      Inorder(tree) == Inorder(tree') + [Entry(target'.key, target'.value)]
  {
    if target.Nil? || tree.Nil? {
      return target, tree;
    }
    var p: seq<Dir> := [];
    var cur := tree;
    while cur.right.Node?
      invariant cur.Node? && cur == Subtree(tree, p)
      invariant BstRec.ReplaceByRightmost(target, tree).0 == BstRec.ReplaceByRightmost(target, cur).0
      invariant BstRec.ReplaceByRightmost(target, tree).1 ==
                Graft(tree, p, BstRec.ReplaceByRightmost(target, cur).1)
      decreases cur
    {
      StepDown(p);
      p, cur := p + [Right], cur.right;
    }
    target' := target.(value := cur.value);
    target' := target'.(key := cur.key);
    tree' := Graft(tree, p, cur.left);
    BstRec.RightmostIsLastInorder(target, tree);
  }

  /** bst_delete: the cursor descends to the node with `key` (or an empty
      slot, then nothing happens); a node with one child is replaced by it, a
      leaf by NULL, and a node with two children takes over the rightmost
      entry of its left subtree. */
  method Delete(tree: Tree, key: char) returns (tree': Tree)
    ensures tree' == BstRec.Delete(tree, key)
    ensures key !in Keys(tree) ==> tree' == tree
    ensures IsBST(tree) ==> IsBST(tree') && Keys(tree') == Keys(tree) - {key}
    ensures IsBST(tree) ==> Inorder(tree') == BstRec.RemoveKey(Inorder(tree), key)
  {
    if tree.Nil? {
      return tree;
    }
    var p: seq<Dir> := [];
    var cur := tree;
    while cur.Node? && cur.key != key
      invariant cur == Subtree(tree, p)
      invariant BstRec.Delete(tree, key) == Graft(tree, p, BstRec.Delete(cur, key))
      decreases cur
    {
      StepDown(p);
      if key > cur.key {
        p, cur := p + [Right], cur.right;
      } else if key < cur.key {
        p, cur := p + [Left], cur.left;
      }
    }
    if cur.Nil? {
      GraftSubtree(tree, p);
      tree' := tree;
    } else if cur.right.Nil? && cur.left.Node? {
      tree' := Graft(tree, p, cur.left);
    } else if cur.left.Nil? && cur.right.Node? {
      tree' := Graft(tree, p, cur.right);
    } else if cur.left.Nil? && cur.right.Nil? {
      tree' := Graft(tree, p, Nil);
    } else {
      var target', left' := ReplaceByRightmost(cur, cur.left);
      tree' := Graft(tree, p, Node(left', target'.key, target'.value, cur.right));
    }
    if IsBST(tree) {
      BstRec.DeleteKeepsBst(tree, key);
      BstRec.DeleteInorder(tree, key);
    }
  }

  /** Only node references are ever pushed: no stacked entry is NULL. */
  predicate AllNodes(stack: seq<Tree>) {
    stack == [] || (Top(stack).Node? && AllNodes(Pop(stack)))
  }

  // ---------------------------------------------------------------------
  // Dispose

  /** The preorder entries of the stacked subtrees, top of the stack first. */
  function PendingTrees(stack: seq<Tree>): seq<Entry> {
    if stack == [] then [] else Preorder(Top(stack)) + PendingTrees(Pop(stack))
  }

  /** bst_dispose: walks left, freeing each node and stacking its right
      subtree, and resumes from the stack when the walk falls off. Returns
      the handle afterwards and the entries of the freed nodes, in order:
      every node is freed exactly once, in preorder. */
  method Dispose(tree: Tree) returns (tree': Tree, freed: seq<Entry>)
    ensures tree' == Nil
    ensures freed == Preorder(tree)
    ensures multiset(freed) == Bag(tree)
  {
    freed := [];
    if tree.Nil? {
      return tree, freed;
    }
    var cur := tree;
    var stack: seq<Tree> := [];
    // The source's do-while: its first test would pass, since `cur` is a node.
    while cur.Node? || !IsEmpty(stack)
      invariant AllNodes(stack)
      invariant freed + Preorder(cur) + PendingTrees(stack) == Preorder(tree)
      decreases |Preorder(tree)| - |freed|, if cur.Nil? then 1 else 0
    {
      if cur.Nil? {
        if !IsEmpty(stack) {
          DisposeResume(freed, stack);
          cur := Top(stack);
          stack := Pop(stack);
        }
      } else {
        DisposeVisit(freed, cur, stack);
        if cur.right.Node? {
          stack := Push(stack, cur.right);
        }
        freed := freed + [Entry(cur.key, cur.value)];
        cur := cur.left;
      }
    }
    PreorderVisitsEachNodeOnce(tree);
    tree' := Nil;
  }

  /** Resuming from the stack: the popped subtree is next. */
  lemma DisposeResume(freed: seq<Entry>, stack: seq<Tree>)
    requires stack != []
    ensures freed + Preorder(Nil) + PendingTrees(stack) ==
            freed + Preorder(Top(stack)) + PendingTrees(Pop(stack))
  {
    assert freed + Preorder(Nil) == freed;
    Regroup3(freed, Preorder(Top(stack)), PendingTrees(Pop(stack)));
  }

  /** Freeing `cur`: its entry is done, its left subtree comes next and its
      right subtree, when there is one, is stacked. */
  lemma DisposeVisit(freed: seq<Entry>, cur: Tree, stack: seq<Tree>)
    requires cur.Node?
    ensures freed + Preorder(cur) + PendingTrees(stack) ==
            (freed + [Entry(cur.key, cur.value)]) + Preorder(cur.left) +
            PendingTrees(if cur.right.Node? then Push(stack, cur.right) else stack)
  {
    var rest := PendingTrees(stack);
    VisitPreorder(freed, cur, rest);
    if cur.right.Node? {
      assert PendingTrees(Push(stack, cur.right)) == Preorder(cur.right) + rest;
    } else {
      assert Preorder(cur.right) + rest == rest;
    }
  }

  // ---------------------------------------------------------------------
  // Left spines

  /** The left spine of `t`: `t`, its left child, that one's left child and
      so on down to the last node, in the order the leftmost helpers push them. */
  function LeftSpine(t: Tree): seq<Tree>
  {
    if t.Nil? then [] else [t] + LeftSpine(t.left)
  }

  /** The entries of the left spine of `t`, top node first. */
  function SpineEntries(t: Tree): seq<Entry>
  {
    if t.Nil? then [] else [Entry(t.key, t.value)] + SpineEntries(t.left)
  }

  /** `n` first-visit markers. */
  function FirstVisits(n: nat): (marks: seq<bool>)
    ensures |marks| == n && forall i | 0 <= i < n :: marks[i]
  {
    seq(n, _ => true)
  }

  /** The left spine starts at `t`, follows left links only, ends at the
      node whose left link is NULL, and lists the visits in the same order. */
  lemma {:induction false} LeftSpineShape(t: Tree)
    ensures var spine := LeftSpine(t);
      (t.Nil? <==> spine == []) &&
      (t.Node? ==> spine[0] == t && spine[|spine| - 1].Node? && spine[|spine| - 1].left.Nil?) &&
      (forall i | 0 <= i < |spine| :: spine[i].Node?) &&
      (forall i | 0 < i < |spine| :: spine[i] == spine[i - 1].left) &&
      |SpineEntries(t)| == |spine| &&
      (forall i | 0 <= i < |spine| :: SpineEntries(t)[i] == Entry(spine[i].key, spine[i].value))
  {
    if t.Node? {
      LeftSpineShape(t.left);
      var rest := LeftSpine(t.left);
      assert LeftSpine(t) == [t] + rest;
      assert SpineEntries(t) == [Entry(t.key, t.value)] + SpineEntries(t.left);
      forall i | 0 < i < |LeftSpine(t)|
        ensures LeftSpine(t)[i] == LeftSpine(t)[i - 1].left
      {
        if i > 1 {
          assert LeftSpine(t)[i] == rest[i - 1] && LeftSpine(t)[i - 1] == rest[i - 2];
        }
      }
    }
  }

  /** Pushing a spine node moves it from the spine still to be pushed onto
      the stack. */
  lemma SpineStep(stack: seq<Tree>, cur: Tree)
    requires cur.Node?
    ensures stack + LeftSpine(cur) == Push(stack, cur) + LeftSpine(cur.left)
  {
    assert LeftSpine(cur) == [cur] + LeftSpine(cur.left);
  }

  /** Visiting a spine node moves its entry from the spine still to be
      visited onto the output. */
  lemma SpineEntriesStep(out: seq<Entry>, cur: Tree)
    requires cur.Node?
    ensures out + SpineEntries(cur) == (out + [Entry(cur.key, cur.value)]) + SpineEntries(cur.left)
  {
    assert SpineEntries(cur) == [Entry(cur.key, cur.value)] + SpineEntries(cur.left);
  }

  /** Pushing a first-visit marker for a spine node moves it onto the
      marker stack. */
  lemma FirstVisitsStep(marks: seq<bool>, cur: Tree)
    requires cur.Node?
    ensures marks + FirstVisits(|LeftSpine(cur)|) == Push(marks, true) + FirstVisits(|LeftSpine(cur.left)|)
  {
    assert |LeftSpine(cur)| == 1 + |LeftSpine(cur.left)|;
    assert FirstVisits(|LeftSpine(cur)|) == [true] + FirstVisits(|LeftSpine(cur.left)|);
  }

  // ---------------------------------------------------------------------
  // Preorder

  /** What is still to be emitted for the stacked nodes, whose own entries
      and left subtrees are done: their right subtrees, top of the stack first. */
  function PendingPreorder(stack: seq<Tree>): seq<Entry> {
    if stack == [] then [] else Preorder(Child(Top(stack), Right)) + PendingPreorder(Pop(stack))
  }

  /** bst_leftmost_preorder: visits and stacks every node of the left spine
      of `t`. */
  method LeftmostPreorder(t: Tree, stack: seq<Tree>, out: seq<Entry>) returns (stack': seq<Tree>, out': seq<Entry>)
    requires AllNodes(stack)
    ensures AllNodes(stack')
    ensures out' + PendingPreorder(stack') == out + Preorder(t) + PendingPreorder(stack)
    ensures stack' == stack + LeftSpine(t)
    ensures out' == out + SpineEntries(t)
    ensures t.Nil? ==> stack' == stack && out' == out
    ensures t.Node? ==> |out'| > |out|
  {
    stack', out' := stack, out;
    if t.Nil? {
      return;
    }
    var cur := t;
    ghost var visited := false;
    while cur.Node?
      invariant AllNodes(stack')
      invariant out' + Preorder(cur) + PendingPreorder(stack') == out + Preorder(t) + PendingPreorder(stack)
      invariant if visited then |out'| > |out| else cur == t && out' == out
      invariant stack' + LeftSpine(cur) == stack + LeftSpine(t)
      invariant out' + SpineEntries(cur) == out + SpineEntries(t)
      decreases cur
    {
      SpineStep(stack', cur);
      SpineEntriesStep(out', cur);
      VisitPreorder(out', cur, PendingPreorder(stack'));
      out' := out' + [Entry(cur.key, cur.value)];
      stack' := Push(stack', cur);
      cur := cur.left;
      visited := true;
    }
  }

  /** bst_preorder: emits exactly the preorder walk of the tree. */
  method PreorderTraversal(tree: Tree) returns (out: seq<Entry>)
    ensures out == Preorder(tree)
  {
    var stack: seq<Tree>;
    stack, out := LeftmostPreorder(tree, [], []);
    while !IsEmpty(stack)
      invariant AllNodes(stack)
      invariant out + PendingPreorder(stack) == Preorder(tree)
      decreases |Preorder(tree)| - |out|, |stack|
    {
      var node := Top(stack);
      stack := Pop(stack);
      Regroup3(out, Preorder(node.right), PendingPreorder(stack));
      stack, out := LeftmostPreorder(node.right, stack, out);
    }
  }

  // ---------------------------------------------------------------------
  // Inorder

  /** What is still to be emitted for the stacked nodes, whose left subtrees
      are done: each node's entry, then its right subtree, top of the stack
      first. */
  function PendingInorder(stack: seq<Tree>): seq<Entry>
    requires AllNodes(stack)
  {
    if stack == [] then []
    else [Entry(Top(stack).key, Top(stack).value)] + Inorder(Top(stack).right) + PendingInorder(Pop(stack))
  }

  /** bst_leftmost_inorder: stacks every node of the left spine of `t`
      without visiting it. */
  method LeftmostInorder(t: Tree, stack: seq<Tree>) returns (stack': seq<Tree>)
    requires AllNodes(stack)
    ensures AllNodes(stack')
    ensures stack' == stack + LeftSpine(t)
    ensures PendingInorder(stack') == Inorder(t) + PendingInorder(stack)
  {
    stack' := stack;
    if t.Nil? {
      return;
    }
    var cur := t;
    while cur.Node?
      invariant AllNodes(stack')
      invariant Inorder(cur) + PendingInorder(stack') == Inorder(t) + PendingInorder(stack)
      invariant stack' + LeftSpine(cur) == stack + LeftSpine(t)
      decreases cur
    {
      SpineStep(stack', cur);
      Regroup4(Inorder(cur.left), [Entry(cur.key, cur.value)], Inorder(cur.right), PendingInorder(stack'));
      stack' := Push(stack', cur);
      cur := cur.left;
    }
  }

  /** bst_inorder: emits exactly the inorder walk of the tree, which for a
      search tree has strictly increasing keys. */
  method InorderTraversal(tree: Tree) returns (out: seq<Entry>)
    ensures out == Inorder(tree)
    ensures IsBST(tree) ==> Increasing(out)
  {
    out := [];
    BstIffInorderIncreasing(tree);
    if tree.Nil? {
      return;
    }
    var stack := LeftmostInorder(tree, []);
    while !IsEmpty(stack)
      invariant AllNodes(stack)
      invariant out + PendingInorder(stack) == Inorder(tree)
      decreases |Inorder(tree)| - |out|
    {
      var node := Top(stack);
      stack := Pop(stack);
      Regroup4'(out, [Entry(node.key, node.value)], Inorder(node.right), PendingInorder(stack));
      out := out + [Entry(node.key, node.value)];
      stack := LeftmostInorder(node.right, stack);
    }
  }

  // ---------------------------------------------------------------------
  // Postorder

  /** What is still to be emitted for the stacked nodes, whose left subtrees
      are done: for a node marked `true` (first visit) its right subtree and
      then its entry, for one marked `false` only its entry; top first. */
  function PendingPostorder(nodes: seq<Tree>, firstVisit: seq<bool>): seq<Entry>
    requires |nodes| == |firstVisit|
    requires AllNodes(nodes)
  {
    if nodes == [] then []
    else
      var visit := [Entry(Top(nodes).key, Top(nodes).value)] + PendingPostorder(Pop(nodes), Pop(firstVisit));
      if Top(firstVisit) then Postorder(Top(nodes).right) + visit else visit
  }

  /** How many steps of right-subtree exploration remain: a first-visit node
      still has to flip its marker and push the nodes of its right subtree. */
  function Unexplored(nodes: seq<Tree>, firstVisit: seq<bool>): nat
    requires |nodes| == |firstVisit|
    requires AllNodes(nodes)
  {
    if nodes == [] then 0
    else if Top(firstVisit) then |Postorder(Top(nodes).right)| + 1 + Unexplored(Pop(nodes), Pop(firstVisit))
    else Unexplored(Pop(nodes), Pop(firstVisit))
  }

  /** bst_leftmost_postorder: stacks every node of the left spine of `t`,
      each marked as visited for the first time. */
  method LeftmostPostorder(t: Tree, nodes: seq<Tree>, firstVisit: seq<bool>)
    returns (nodes': seq<Tree>, firstVisit': seq<bool>)
    requires |nodes| == |firstVisit|
    requires AllNodes(nodes)
    ensures |nodes'| == |firstVisit'|
    ensures AllNodes(nodes')
    ensures PendingPostorder(nodes', firstVisit') == Postorder(t) + PendingPostorder(nodes, firstVisit)
    ensures Unexplored(nodes', firstVisit') == |Postorder(t)| + Unexplored(nodes, firstVisit)
    ensures nodes' == nodes + LeftSpine(t)
    ensures firstVisit' == firstVisit + FirstVisits(|LeftSpine(t)|)
  {
    nodes', firstVisit' := nodes, firstVisit;
    if t.Nil? {
      return;
    }
    var cur := t;
    while cur.Node?
      invariant |nodes'| == |firstVisit'|
      invariant AllNodes(nodes')
      invariant Postorder(cur) + PendingPostorder(nodes', firstVisit') ==
                Postorder(t) + PendingPostorder(nodes, firstVisit)
      invariant |Postorder(cur)| + Unexplored(nodes', firstVisit') ==
                |Postorder(t)| + Unexplored(nodes, firstVisit)
      invariant nodes' + LeftSpine(cur) == nodes + LeftSpine(t)
      invariant firstVisit' + FirstVisits(|LeftSpine(cur)|) == firstVisit + FirstVisits(|LeftSpine(t)|)
      decreases cur
    {
      SpineStep(nodes', cur);
      FirstVisitsStep(firstVisit', cur);
      Regroup4Right(Postorder(cur.left), Postorder(cur.right), [Entry(cur.key, cur.value)],
                    PendingPostorder(nodes', firstVisit'));
      PushFirstVisit(cur, nodes', firstVisit');
      nodes' := Push(nodes', cur);
      firstVisit' := Push(firstVisit', true);
      cur := cur.left;
    }
  }

  /** bst_postorder: emits exactly the postorder walk of the tree. The node
      stack and the marker stack always have the same height. */
  method PostorderTraversal(tree: Tree) returns (out: seq<Entry>)
    ensures out == Postorder(tree)
  {
    out := [];
    if tree.Nil? {
      return;
    }
    var nodes, firstVisit := LeftmostPostorder(tree, [], []);
    while !IsEmpty(nodes)
      invariant |nodes| == |firstVisit|
      invariant AllNodes(nodes)
      invariant out + PendingPostorder(nodes, firstVisit) == Postorder(tree)
      decreases |Postorder(tree)| - |out|, Unexplored(nodes, firstVisit)
    {
      var node := Top(nodes);
      var fromLeft := Top(firstVisit);
      if fromLeft {
        FirstVisitStep(out, nodes, firstVisit);
        firstVisit := Pop(firstVisit);
        firstVisit := Push(firstVisit, false);
        nodes, firstVisit := LeftmostPostorder(node.right, nodes, firstVisit);
      } else {
        SecondVisitStep(out, nodes, firstVisit);
        firstVisit := Pop(firstVisit);
        nodes := Pop(nodes);
        out := out + [Entry(node.key, node.value)];
      }
    }
  }

  /** A node stacked on its first visit still owes its right subtree and
      then its own entry. */
  lemma PushFirstVisit(t: Tree, nodes: seq<Tree>, firstVisit: seq<bool>)
    requires |nodes| == |firstVisit| && AllNodes(nodes) && t.Node?
    ensures AllNodes(Push(nodes, t))
    ensures PendingPostorder(Push(nodes, t), Push(firstVisit, true)) ==
            Postorder(t.right) + ([Entry(t.key, t.value)] + PendingPostorder(nodes, firstVisit))
    ensures Unexplored(Push(nodes, t), Push(firstVisit, true)) ==
            |Postorder(t.right)| + 1 + Unexplored(nodes, firstVisit)
  {
  }

  /** A node met for the first time is flipped to its second visit, which
      leaves its right subtree to be walked in front of it. */
  lemma FirstVisitStep(out: seq<Entry>, nodes: seq<Tree>, firstVisit: seq<bool>)
    requires |nodes| == |firstVisit| && AllNodes(nodes)
    requires nodes != [] && Top(firstVisit)
    ensures out + PendingPostorder(nodes, firstVisit) ==
            out + (Postorder(Top(nodes).right) + PendingPostorder(nodes, Push(Pop(firstVisit), false)))
    ensures Unexplored(nodes, firstVisit) ==
            |Postorder(Top(nodes).right)| + 1 + Unexplored(nodes, Push(Pop(firstVisit), false))
  {
    var flipped := Push(Pop(firstVisit), false);
    assert Pop(flipped) == Pop(firstVisit);
  }

  /** A node met for the second time is emitted and leaves the stacks. */
  lemma SecondVisitStep(out: seq<Entry>, nodes: seq<Tree>, firstVisit: seq<bool>)
    requires |nodes| == |firstVisit| && AllNodes(nodes)
    requires nodes != [] && !Top(firstVisit)
    ensures out + PendingPostorder(nodes, firstVisit) ==
            out + [Entry(Top(nodes).key, Top(nodes).value)] + PendingPostorder(Pop(nodes), Pop(firstVisit))
  {
    Regroup3(out, [Entry(Top(nodes).key, Top(nodes).value)], PendingPostorder(Pop(nodes), Pop(firstVisit)));
  }

  // ---------------------------------------------------------------------
  // Regrouping the pieces of a walk. Each step below is plain associativity
  // of `+`, stated for the exact pieces a loop step moves between.

  lemma Regroup3<T>(a: seq<T>, b: seq<T>, c: seq<T>)
    ensures a + (b + c) == a + b + c
  {
  }

  lemma Regroup4<T>(a: seq<T>, b: seq<T>, c: seq<T>, d: seq<T>)
    ensures a + b + c + d == a + (b + c + d)
  {
  }

  lemma Regroup4'<T>(a: seq<T>, b: seq<T>, c: seq<T>, d: seq<T>)
    ensures a + (b + c + d) == a + b + (c + d)
  {
  }

  lemma Regroup4Right<T>(a: seq<T>, b: seq<T>, c: seq<T>, d: seq<T>)
    ensures a + b + c + d == a + (b + (c + d))
  {
  }

  lemma Regroup5<T>(a: seq<T>, b: seq<T>, c: seq<T>, d: seq<T>, e: seq<T>)
    ensures a + (b + c + d) + e == (a + b) + c + (d + e)
  {
  }

  /** Emitting a node moves its entry to the output and leaves its left
      subtree to walk and its right subtree pending. */
  lemma VisitPreorder(done: seq<Entry>, t: Tree, rest: seq<Entry>)
    requires t.Node?
    ensures done + Preorder(t) + rest ==
            (done + [Entry(t.key, t.value)]) + Preorder(t.left) + (Preorder(t.right) + rest)
  {
    Regroup5(done, [Entry(t.key, t.value)], Preorder(t.left), Preorder(t.right), rest);
  }

  // ---------------------------------------------------------------------
  // Link slots

  /** Moving the cursor one link down extends its path by that link and
      keeps `p` as the path's prefix. */
  lemma StepDown(p: seq<Dir>)
    ensures forall d: Dir :: (p + [d])[..|p|] == p && (p + [d])[|p|] == d
  {
  }

  /** Writing back what a slot already holds changes nothing. */
  lemma {:induction false} GraftSubtree(t: Tree, p: seq<Dir>)
    ensures Graft(t, p, Subtree(t, p)) == t
    decreases |p|
  {
    if p != [] {
      var q := p[..|p| - 1];
      var s := Subtree(t, q);
      assert SetChild(s, p[|p| - 1], Child(s, p[|p| - 1])) == s;
      GraftSubtree(t, q);
    }
  }
}
