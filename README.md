# Ordered store and chained hash table, in Dafny

This project models two in-memory associative containers written in C. It
proves what their operations compute.

- **The binary search tree** (`char` key, `int` value) comes in two
  variants. `btree/rec/btree.c` recurses on the link slot it is given.
  `btree/iter/btree.c` walks a `bst_node_t **` cursor down the link slots.
  Its dispose and its three traversals drive an explicit node stack, and its
  postorder also drives a parallel stack of "first visit" flags.
- **The chained hash table** (`char *` key, `float` value) has an array of
  `HT_SIZE` bucket heads. Each head starts a singly linked chain of items.
  New keys are prepended to their chain.

## How the model is built

Modules:

- `BstTree` (`bst_tree.dfy`) holds the shared tree.
  - A node is only reachable from the link slot that points at it, so a
    subtree is modelled by its value: `Tree = Nil | Node(left, key, value, right)`.
  - It defines the key set, the search-tree condition `IsBST`, and the three
    walks `Preorder`, `Inorder` and `Postorder`.
  - The recursive traversals of `btree/rec/btree.c` are these walks. The
    visit callback `bst_print_node` appends one `Entry(key, value)` to the
    output sequence.
  - A `bst_node_t **` cursor is the path of left/right steps it has taken
    from the handle. `Subtree(root, p)` reads the slot and
    `Graft(root, p, s)` writes it.
- `BstRec` (`bst_rec.dfy`) models the recursive variant as functions.
  - Each function takes the subtree the slot held and returns what the slot
    holds afterwards.
  - `Search` and `Dispose` are modelled as written. See "Findings".
- `BstIter` (`bst_iter.dfy`) models the iterative variant as methods, with
  the source's loops.
  - Each method except `Search` is proved to compute the same as its
    `BstRec` function or `BstTree` walk. `Search` yields the stored value,
    where the recursive search yields the key's code.
  - The traversal loops are proved with the invariant "output so far, then
    the work the stack still describes, is the whole walk".
  - The node stack and the flag stack are sequences used through `Stack`
    (`stack.dfy`), with the top at the end.
- `BstExamples` (`bst_examples.dfy`) holds concrete runs:
  - the inserts M D T A G P Z, then deleting M;
  - the two places where the variants differ.
- `HashSpec` (`hash_spec.dfy`) models the table as values.
  - A table is a sequence of buckets. Each bucket is the chain's entries,
    head first.
  - A key is a `CString` object whose `text` does not change. Pointer
    equality (`ht_delete`, hashtable/hashtable.c:145) is object identity.
  - String equality (`strcmp` in `ht_search`, hashtable/hashtable.c:61) is
    equality of `text`.
  - `WellFormed` is the invariant the operations keep: every entry sits in
    the bucket its string hashes to, and no bucket holds a string twice.
- `HashTable` (`hashtable.dfy`) models the table on the heap.
  - `Table` holds the bucket-head array. `Item` holds `key`, `value` and
    `next`.
  - Ghost fields `chains` (the items of each chain, in order) and
    `contents` (what they hold) tie the heap to `HashSpec`.
  - `Valid()` says that each head and each `next` link follows `chains`,
    and that `contents` is well formed.
  - Every method that changes the table states its new `contents` as a
    `HashSpec` function of the old one.

## Model

| member | source | states |
|---|---|---|
| BstTree.PreorderVisitsEachNodeOnce | btree/rec/btree.c:182-189 | the node-left-right walk emits exactly the entries of the tree's nodes, each node once |
| BstTree.InorderVisitsEachNodeOnce | btree/rec/btree.c:198-205 | the left-node-right walk emits exactly the entries of the tree's nodes, each node once |
| BstTree.PostorderVisitsEachNodeOnce | btree/rec/btree.c:213-220 | the left-right-node walk emits exactly the entries of the tree's nodes, each node once |
| BstTree.TraversalLengths | btree/rec/btree.c:182-220 | all three walks emit one entry per node |
| BstTree.InorderKeysSound | btree/rec/btree.c:198-205 | every key the inorder walk emits is a key of the tree |
| BstTree.InorderKeysComplete | btree/rec/btree.c:198-205 | every key of the tree is emitted by the inorder walk |
| BstTree.BstIffInorderIncreasing | btree/rec/btree.c:198-205 | a tree is a search tree if and only if its inorder walk has strictly increasing keys |
| BstTree.BstKeysUnique | btree/rec/btree.c:72-80 | in a search tree no two nodes share a key: the number of keys equals the number of nodes |
| BstTree.BagKeys | btree/rec/btree.c:33-46 | every entry in the tree's bag has a key of the tree |
| BstTree.BstValueUnique | btree/rec/btree.c:72-80 | in a search tree two entries with the same key have the same value, so a key names one node |
| BstRec.Init | btree/rec/btree.c:20-22 | the initialised handle holds no keys and no nodes |
| BstRec.Search | btree/rec/btree.c:33-47 | success means the key is in the tree, and `*value` then holds the key's code, not the value; failure leaves `*value` unchanged; on a search tree it succeeds exactly when the key is present |
| BstRec.Insert | btree/rec/btree.c:60-81 | the keys become the old keys plus `key`, or stay unchanged when the allocation fails; the search-tree condition is preserved |
| BstRec.InsertStores | btree/rec/btree.c:60-81 | after an insert that allocates, the tree holds the entry (key, value) |
| BstRec.InsertNewKeyAddsOneNode | btree/rec/btree.c:61-71 | for a key not yet present, the tree's entries grow by exactly the new entry, or stay unchanged when the allocation fails |
| BstRec.InsertExistingOverwrites | btree/rec/btree.c:72-80 | for a key already present in a search tree, the shape is unchanged and the inorder walk is the old walk with that key's value replaced |
| BstRec.ReplaceByRightmost | btree/rec/btree.c:96-110 | a NULL target or an empty subtree changes nothing; otherwise the target keeps its children, and the subtree's keys are the remaining keys plus the copied key |
| BstRec.RightmostIsLastInorder | btree/rec/btree.c:100-109 | the copied entry is the last one of the subtree's inorder walk, and the remaining subtree's walk is everything before it |
| BstRec.RightmostIsMaximum | btree/rec/btree.c:100-109 | on a search tree the copied key is the largest; the rest is a search tree that has lost exactly that key |
| BstRec.Delete | btree/rec/btree.c:124-150 | deleting a key that is not present leaves the tree unchanged |
| BstRec.DeleteKeepsBst | btree/rec/btree.c:124-150 | on a search tree, the result is a search tree whose keys are the old keys minus `key` |
| BstRec.DeleteInorder | btree/rec/btree.c:124-150 | on a search tree, the inorder walk loses exactly the entry for `key`; every other entry keeps its value and its order |
| BstRec.DeleteNodeInorder | btree/rec/btree.c:134-148 | removing a node joins its subtrees' walks, whether it has no child, one child or two children |
| BstRec.Dispose | btree/rec/btree.c:161-173 | the handle ends NULL, and no more entries are freed than the tree has nodes |
| BstRec.DisposeFreesAllIffNoBranch | btree/rec/btree.c:165-170 | every node is freed if and only if no node has two children |
| BstRec.DisposeFreesOnlyOwnNodes | btree/rec/btree.c:161-173 | only nodes of the tree are freed, and none twice |
| BstIter.Init | btree/iter/btree.c:22-24 | the handle becomes NULL: no keys and an empty walk |
| BstIter.Search | btree/iter/btree.c:35-52 | success means (key, `*value`) is an entry of the tree; failure leaves `*value` unchanged; on a search tree it succeeds exactly when the key is present, and `*value` is then the value stored under the key |
| BstIter.InsertThenSearch | btree/iter/btree.c:35-52 | on a search tree, a search after inserting (key, value) succeeds and yields that value |
| BstIter.Insert | btree/iter/btree.c:65-89 | the result equals the recursive insert; the only write is at the one slot the descent stops at (a new leaf, or the matching node's value); the keys grow by `key` and the search-tree condition is kept |
| BstIter.ReplaceByRightmost | btree/iter/btree.c:104-119 | the result equals the recursive version; the subtree's old inorder walk is the new walk followed by the copied entry |
| BstIter.Delete | btree/iter/btree.c:133-170 | the result equals the recursive delete; an absent key changes nothing; on a search tree the result is a search tree with keys minus `key` and the inorder walk minus its entry |
| BstIter.Dispose | btree/iter/btree.c:182-206 | the handle ends NULL, and the freed entries are exactly the preorder walk, so every node is freed once |
| BstIter.LeftSpineShape | btree/iter/btree.c:217-226 | the left spine starts at the subtree, follows left links only, ends at the node whose left link is NULL, and its entries are the ones the preorder helper emits, in order |
| BstIter.LeftmostPreorder | btree/iter/btree.c:217-226 | pushes exactly the left spine of the subtree on top of the caller's stack and emits exactly the spine's entries, top node first; so "output, then what the stack owes" stays equal to the walk still to emit |
| BstIter.PreorderTraversal | btree/iter/btree.c:236-244 | the output is exactly the preorder walk |
| BstIter.LeftmostInorder | btree/iter/btree.c:255-263 | pushes exactly the left spine of the subtree on top of the caller's stack, emitting nothing; so what the stack owes becomes the subtree's inorder walk followed by what it owed before |
| BstIter.InorderTraversal | btree/iter/btree.c:273-285 | the output is exactly the inorder walk, with strictly increasing keys on a search tree |
| BstIter.LeftmostPostorder | btree/iter/btree.c:297-307 | pushes exactly the left spine of the subtree on top of the caller's node stack and one first-visit flag per spine node on the flag stack; so both stacks keep the same height, and what they owe becomes the subtree's postorder walk followed by what they owed before |
| BstIter.PostorderTraversal | btree/iter/btree.c:317-343 | the output is exactly the postorder walk |
| BstExamples.SampleBuildsShape | btree/rec/btree.c:60-81 | inserting M D T A G P Z builds the tree with M at the root, D and T below it, and A G P Z as leaves |
| BstExamples.SampleInorder | btree/rec/btree.c:198-205 | that tree's inorder walk is A D G M P T Z |
| BstExamples.DeleteRootShape | btree/rec/btree.c:144-148 | deleting M, which has two children, copies G into the root and unhooks G's leaf |
| BstExamples.InsertThenDeleteRoot | btree/rec/btree.c:124-150 | after that delete the root is G, the inorder walk is A D G P T Z, and M is not found |
| BstExamples.InsertExistingKey | btree/rec/btree.c:80 | inserting G again changes only G's value |
| BstExamples.RecursiveSearchYieldsKey | btree/rec/btree.c:37-39 | the recursive search for 'A' in a node holding 5 yields 65 |
| BstExamples.SearchYieldsValue | btree/iter/btree.c:43-45 | the iterative search for 'A' in the same node yields 5 |
| BstExamples.RecursiveDisposeLeaksRightChild | btree/rec/btree.c:165-170 | disposing B with children A and C frees A and B, never C |
| BstExamples.DisposeFreesEveryNode | btree/iter/btree.c:189-204 | the iterative dispose of the same tree frees B, A and C |
| HashSpec.Hash | hashtable/hashtable.c:22-29 | the hash of a string is a valid bucket index, below the table size |
| HashSpec.HashIgnoresOrder | hashtable/hashtable.c:22-29 | swapping two parts of a key never changes its bucket, so anagrams collide |
| HashSpec.SevenBucketCollision | hashtable/hashtable.c:22-29 | with seven buckets, "a" and "h" both land in bucket 0 |
| HashSpec.FindText | hashtable/hashtable.c:59-68 | the position found is the first entry holding the string, and none is found only when no entry holds it |
| HashSpec.FindKey | hashtable/hashtable.c:144-157 | the position found is the first entry holding the very pointer, and none is found only when no entry holds it |
| HashSpec.RemoveAt | hashtable/hashtable.c:145-153 | unlinking the item at a position keeps the items before it and after it in order, minus exactly that item |
| HashSpec.Lookup | hashtable/hashtable.c:51-70 | nothing is found exactly when no entry of the string's bucket holds the string; otherwise the value found is that of an entry holding it |
| HashSpec.Insert | hashtable/hashtable.c:81-105 | only the key's bucket changes, and it grows by at most one entry |
| HashSpec.Delete | hashtable/hashtable.c:136-158 | only the key's bucket changes, losing one of its entries when one holds the very pointer and nothing otherwise |
| HashSpec.DeleteText | hashtable/hashtable.c:128-135 | only the string's bucket changes, losing one of its entries when one holds the string and nothing otherwise |
| HashSpec.Empty | hashtable/hashtable.c:34-43 | the all-empty table is well formed |
| HashSpec.LookupEmpty | hashtable/hashtable.c:34-43 | nothing is found in an empty table |
| HashSpec.InsertThenLookup | hashtable/hashtable.c:81-105 | after an insert the key's string is found with the new value |
| HashSpec.InsertLeavesOthers | hashtable/hashtable.c:81-105 | an insert leaves what every other string finds unchanged |
| HashSpec.InsertKeepsWellFormed | hashtable/hashtable.c:81-105 | an insert keeps every entry in its hash bucket and no string twice in a bucket |
| HashSpec.InsertExistingKeepsLengths | hashtable/hashtable.c:88-92 | overwriting a stored string changes no chain's length |
| HashSpec.InsertNewGrowsItsBucket | hashtable/hashtable.c:93-104 | a new string makes its own bucket one entry longer and leaves every other bucket unchanged |
| HashSpec.RemoveAtKeepsWellFormed | hashtable/hashtable.c:146-152 | unlinking one entry of a bucket keeps the table well formed |
| HashSpec.RemoveAtLeavesOthers | hashtable/hashtable.c:146-152 | unlinking an entry that holds another string leaves what a string finds unchanged |
| HashSpec.RemoveAtRemovesText | hashtable/hashtable.c:146-152 | unlinking the entry that holds a string makes the string absent |
| HashSpec.DeleteKeepsWellFormed | hashtable/hashtable.c:136-158 | a delete keeps the table well formed |
| HashSpec.DeleteLeavesOthers | hashtable/hashtable.c:136-158 | a delete leaves what every other string finds unchanged |
| HashSpec.DeleteStoredKeyRemoves | hashtable/hashtable.c:136-158 | deleting with the pointer the key was inserted with removes its string |
| HashSpec.DeleteByCopyKeepsEntry | hashtable/hashtable.c:145 | deleting with another pointer to an equal string changes nothing, and the string is still found |
| HashSpec.DeleteTextRemoves | hashtable/hashtable.c:128-135 | deleting by string, as the comment above ht_delete describes it, keeps the table well formed and makes the string absent |
| HashSpec.DeleteTextLeavesOthers | hashtable/hashtable.c:128-135 | deleting by string leaves every other string as it was |
| HashTable.GetHash | hashtable/hashtable.c:22-29 | the accumulating loop computes one plus the sum of the character codes, modulo the table size |
| HashTable.Init | hashtable/hashtable.c:34-43 | a NULL table is left alone; otherwise every head becomes NULL and the table is valid and empty |
| HashTable.Search | hashtable/hashtable.c:51-71 | NULL for a NULL table or key; otherwise the first item of the key's bucket holding an equal string, or NULL when there is none |
| HashTable.Insert | hashtable/hashtable.c:81-105 | a NULL table or key changes nothing on the heap; otherwise the contents become the specification's insert of the old contents and the table stays valid; a stored string keeps every chain and its item gets the value; a new string gets a fresh item at the head of its bucket, linked to the old head, and every other chain keeps its items |
| HashTable.Overwrite | hashtable/hashtable.c:88-92 | the item holding the string gets the new value; the chains keep the same items, and the contents change only in that item's value |
| HashTable.Prepend | hashtable/hashtable.c:93-104 | a fresh item holding the caller's pointer heads the key's bucket, linked to the old head; that bucket's chain gains it at the front and every other chain keeps its items |
| HashTable.Get | hashtable/hashtable.c:115-126 | the returned item is the stored item that ht_search finds, the first of the key's bucket holding the string, so a write through the pointer changes the table; it is NULL exactly when the string is not stored, and its `value` is what a lookup finds |
| HashTable.Delete | hashtable/hashtable.c:136-158 | a NULL table or key changes nothing on the heap; otherwise the contents become the specification's pointer-compare delete of the old contents and the table stays valid; the first item holding the very pointer leaves its chain, every other item keeps its place, and without such an item the chains are unchanged |
| HashTable.Unlink | hashtable/hashtable.c:145-153 | the bucket head or the predecessor's link skips the found item: its chain loses exactly that item, every other chain is unchanged, and the contents become the specification's delete |
| HashTable.DeleteAll | hashtable/hashtable.c:166-182 | every head becomes NULL, the table is valid and empty, and the freed items are all the old chains, bucket after bucket, each once |
| HashTable.FreeChain | hashtable/hashtable.c:174-179 | following the `next` links from a chain's head visits exactly the chain's items, in order |

## Left out

- BstRec.Insert, BstRec.Delete, BstRec.ReplaceByRightmost, BstRec.Dispose: these model the recursive variant's in-place updates of node fields and link slots as functions that return the new contents of the slot. That is exact because every node is reachable from one slot only. Node addresses, `free()` and the memory a leak keeps are not modelled.
- BstIter.Insert, BstIter.Delete, BstIter.ReplaceByRightmost: these model the cursor as a path from the root, and a write through it as a graft of the root value. The tree is not a heap of nodes, and the freed node is not tracked.
- BstIter.Delete: the source's guard `tree == NULL` tests the handle pointer itself. The model has no NULL handle, so that guard is not modelled. The `*tree == NULL` guard is modelled.
- BstRec.Insert, BstIter.Insert: the failure of `malloc` is the parameter `mallocOk`, which turns the call into a no-op. The choice is nondeterministic in the source.
- HashTable.Prepend: the source does not check `malloc`, and the model assumes the allocation succeeds.
- The stack of `stack.h`/`stack.c` is not part of this model. It is modelled as a sequence used LIFO, without its storage or capacity.
- `bst_print_node` is modelled only as appending the node's entry to an output sequence. Nothing is printed.
- HashTable.Delete, HashTable.DeleteAll: a freed item stays in the table's footprint `Repr`. It only leaves the chains. Use after free is not modelled.
- HashSpec.Entry: the C `float` value is a mathematical `real`. Values are only stored and returned, never computed with.
- HashSpec.Hash, HashTable.GetHash: character codes are non-negative and the sum is unbounded. The source's `int` sum can overflow on very long keys, and a negative (signed) `char` can make `get_hash` negative. Neither is modelled.
- BstTree.Tree, BstRec.Search: a key is a Dafny `char`, a code point that is never negative and orders by its code. The C key is a one-byte `char`, usually signed: keys 0x80-0xFF then sort below the ASCII ones and `*value = tree->key` stores a negative number. Neither the one-byte width nor the sign is modelled.
- HashSpec.CString: a `text` stands for the bytes before the first NUL of a C string, one `char` per byte. The model does not restrict `text` that way: a text may hold '\0' or a code above 255. In C, `strlen` and `strcmp` stop at the first NUL, so "a\0b" and "a\0c" are the same key there but two keys in the model.
- HashSpec.CString: ht_insert keeps the caller's `char *` without copying the string, so the caller must not change a stored key afterwards; if it did, the item could sit in a bucket its string no longer hashes to, and `strcmp` could match the wrong item. A `CString`'s text never changes, so the model cannot express that obligation, and HashSpec.InsertKeepsWellFormed and the other WellFormed lemmas hold only because of it.
- HashTable.Table: the global `HT_SIZE` is the table's construction parameter `size`, which is positive.

## Findings

| source | as written | input that shows it | evidently intended | confidence | as-written member | corrected member |
|---|---|---|---|---|---|---|
| btree/rec/btree.c:37-39 | a successful search stores `tree->key` into `*value` | a one-node tree holding ('A', 5): the search for 'A' yields 65 | store `tree->value`, as the comment above the function and the iterative variant do | high, not executed | BstExamples.RecursiveSearchYieldsKey | BstExamples.SearchYieldsValue |
| btree/rec/btree.c:165-170 | the `else if` recurses into the right subtree only when the left one is empty | the tree B with children A and C: A and B are freed, C never is | dispose both subtrees, so that every node is freed | high, not executed | BstRec.DisposeFreesAllIffNoBranch | BstIter.Dispose |
