/// The chained hash table of hashtable/hashtable.c on the heap: an array of
/// `size` bucket heads, each the first item of a singly linked chain of
/// `Item`s. A NULL table or key pointer is a `null` `Table?` or `CString?`.
///
/// Every `Table` carries ghost bookkeeping that ties the heap to the value
/// view of `HashSpec`: `chains[b]` lists the items of bucket `b` from the
/// head, and `contents[b]` lists what those items hold. Because every
/// stored string hashes to its own bucket and no bucket holds a string
/// twice, no item can sit in two places (`ItemsDistinct`).
module HashTable {
  import opened HashSpec

  /** ht_item_t: the key pointer, the value and the link to the next
      synonym. The key pointer is written once, right after allocation. */
  class Item {
    const key: CString
    var value: real
    var next: Item?

    constructor (key: CString, value: real)
      ensures this.key == key && this.value == value && next == null
    {
      this.key := key;
      this.value := value;
      next := null;
    }
  }

  /** The first item of a chain, or NULL for an empty one. */
  function First(chain: seq<Item>): Item? {
    if chain == [] then null else chain[0]
  }

  /** The successor of the `j`-th item of a chain, or NULL after the last. */
  function After(chain: seq<Item>, j: nat): Item?
    requires j < |chain|
  {
    if j + 1 < |chain| then chain[j + 1] else null
  }

  /** ht_table_t: the array of bucket heads; `size` is `HT_SIZE`. */
  class Table {
    const size: nat
    const heads: array<Item?>
    ghost var chains: seq<seq<Item>>
    ghost var contents: seq<seq<Entry>>
    ghost var Repr: set<object>

    /** The bucket array has `size` heads, each the first item of its
        chain; each item links to the next one of its chain and the last to
        NULL; `contents` lists the key pointers and values the items hold,
        in chain order, and is well formed. */
    ghost predicate Valid()
      reads this, Repr
    {
      this in Repr && heads in Repr && heads.Length == size &&
      |chains| == size && WellFormed(contents, size) &&
      (forall b | 0 <= b < size :: heads[b] == First(chains[b]) && |chains[b]| == |contents[b]|) &&
      (forall b, j | 0 <= b < size && 0 <= j < |chains[b]| :: chains[b][j] in Repr) &&
      (forall b, j | 0 <= b < size && 0 <= j < |chains[b]| ::
        chains[b][j].next == After(chains[b], j) &&
        contents[b][j] == Entry(chains[b][j].key, chains[b][j].value))
    }

    /** Declaring a table allocates its bucket array; its heads are not
        meaningful before ht_init. */
    constructor (size: nat)
      requires size > 0
      ensures this.size == size && heads.Length == size && fresh(heads)
    {
      this.size := size;
      heads := new Item?[size];
      chains, contents := [], [];
      Repr := {this, heads};
    }
  }

  /** In a valid table two places that hold the same item are the same
      place: the item's key decides its bucket, and no bucket holds the
      same string twice. */
  lemma ItemsDistinct(contents: seq<seq<Entry>>, size: nat, b: nat, j: nat, c: nat, k: nat)
    requires WellFormed(contents, size)
    requires b < size && j < |contents[b]| && c < size && k < |contents[c]|
    ensures contents[b][j].key == contents[c][k].key ==> b == c && j == k
  {
  }

  /** get_hash, for a table of `size` buckets. */
  method GetHash(key: string, size: nat) returns (h: nat)
    requires size > 0
    ensures h == Hash(key, size)
  {
    var result := 1;
    for i := 0 to |key|
      invariant result == 1 + CodeSum(key[..i])
    {
      assert key[..i + 1][..i] == key[..i];
      result := result + key[i] as int;
    }
    assert key[..|key|] == key;
    h := result % size;
  }

  /** ht_init: every bucket head becomes NULL, so the table is empty. */
  method Init(table: Table?)
    requires table != null ==> table.heads.Length == table.size > 0
    modifies table, if table != null then {table.heads} else {}
    ensures table != null ==> table.Valid() && table.contents == Empty(table.size)
    ensures table != null ==> forall b | 0 <= b < table.size :: table.heads[b] == null
  {
    if table == null {
      return;
    }
    for i := 0 to table.size
      invariant forall b | 0 <= b < i :: table.heads[b] == null
    {
      table.heads[i] := null;
    }
    table.chains := seq(table.size, _ => []);
    table.contents := Empty(table.size);
    table.Repr := {table, table.heads};
  }

  /** ht_search: walks the key's bucket comparing strings and returns the
      first item holding the key's string, or NULL. */
  method Search(table: Table?, key: CString?) returns (item: Item?)
    requires table != null ==> table.Valid()
    ensures table == null || key == null ==> item == null
    ensures table != null && key != null ==>
      var h := Hash(key.text, table.size);
      match FindText(table.contents[h], key.text)
      case None => item == null
      case Some(j) => item == table.chains[h][j]
  {
    if table == null || key == null {
      return null;
    }
    var h := GetHash(key.text, table.size);
    item := table.heads[h];
    ghost var chain := table.chains[h];
    ghost var j := 0;
    while item != null
      invariant j <= |chain| && item == (if j < |chain| then chain[j] else null)
      invariant forall i | 0 <= i < j :: table.contents[h][i].key.text != key.text
      decreases |chain| - j
    {
      if item.key.text == key.text {
        assert table.contents[h][j].key.text == key.text;
        return item;
      } else {
        item := item.next;
        j := j + 1;
      }
    }
  }

  /** ht_insert: a key whose string is stored gets the new value in place;
      otherwise a new item holding the caller's key pointer is prepended to
      the key's bucket. */
  method Insert(table: Table?, key: CString?, value: real)
    requires table != null ==> table.Valid()
    modifies if table != null && key != null then table.Repr else {}
    ensures table != null ==> table.Valid() && fresh(table.Repr - old(table.Repr))
    ensures table != null ==>
      table.contents == if key == null then old(table.contents)
                        else HashSpec.Insert(old(table.contents), table.size, key, value)
    ensures table != null && key != null ==>
      var h := Hash(key.text, table.size);
      match FindText(old(table.contents)[h], key.text)
      case Some(j) => table.chains == old(table.chains) && table.chains[h][j].value == value
      case None =>
        fresh(table.heads[h]) && table.heads[h].next == old(table.heads[h]) &&
        table.chains == old(table.chains)[h := [table.heads[h]] + old(table.chains)[h]]
  {
    if table == null || key == null {
      return;
    }
    var h := GetHash(key.text, table.size);
    var item := Search(table, key);
    if item != null {
      Overwrite(table, key, value, h, item);
    } else {
      Prepend(table, key, value, h);
    }
  }

  /** The existing-key branch of ht_insert: the item holding the key's
      string gets the new value and keeps the key pointer it was stored
      with. */
  method Overwrite(table: Table, key: CString, value: real, h: nat, item: Item)
    requires table.Valid() && h == Hash(key.text, table.size)
    requires FindText(table.contents[h], key.text).Some?
    requires item == table.chains[h][FindText(table.contents[h], key.text).value]
    modifies table, item
    ensures table.Valid() && table.Repr == old(table.Repr)
    ensures table.contents == HashSpec.Insert(old(table.contents), table.size, key, value)
    ensures table.chains == old(table.chains) && item.value == value
  {
    ghost var j := FindText(table.contents[h], key.text).value;
    ghost var before := table.contents;
    item.value := value;
    table.contents := HashSpec.Insert(table.contents, table.size, key, value);
    InsertKeepsWellFormed(before, table.size, key, value);
    assert table.contents[h] == before[h][j := Entry(item.key, value)];
    forall b, k | 0 <= b < table.size && 0 <= k < |table.chains[b]| && (b, k) != (h, j)
      ensures table.chains[b][k] != item && table.contents[b][k] == before[b][k]
    {
      ItemsDistinct(before, table.size, b, k, h, j);
    }
  }

  /** The new-key branch of ht_insert: a fresh item holding the caller's key
      pointer (never copied) becomes the head of bucket `h`, linked to the
      old head. */
  method Prepend(table: Table, key: CString, value: real, h: nat)
    requires table.Valid() && h == Hash(key.text, table.size)
    requires FindText(table.contents[h], key.text) == None
    modifies table, table.heads
    ensures table.Valid() && fresh(table.Repr - old(table.Repr))
    ensures table.contents == HashSpec.Insert(old(table.contents), table.size, key, value)
    ensures fresh(table.heads[h]) && table.heads[h].next == old(table.heads[h])
    ensures table.chains == old(table.chains)[h := [table.heads[h]] + old(table.chains)[h]]
  {
    ghost var chains: seq<seq<Item>>, before: seq<seq<Entry>>, repr: set<object> :=
      table.chains, table.contents, table.Repr;
    var item := new Item(key, value);
    if table.heads[h] == null {
      item.next := null;
    } else {
      item.next := table.heads[h];
    }
    table.heads[h] := item;
    assert item !in repr;
    forall b, k | 0 <= b < table.size && 0 <= k < |chains[b]|
      ensures chains[b][k].next == After(chains[b], k)
      ensures before[b][k] == Entry(chains[b][k].key, chains[b][k].value)
    {
      assert chains[b][k] in repr;
    }
    RecordPrepend(table, key, value, h, item, chains, before, repr);
  }

  /** The bookkeeping of ht_insert's new-key branch: once `item` heads
      bucket `h` and links to its old head, the chains and contents say so
      and the table is valid again. */
  ghost method RecordPrepend(table: Table, key: CString, value: real, h: nat, item: Item,
                             chains: seq<seq<Item>>, before: seq<seq<Entry>>, repr: set<object>)
    requires table.size > 0 && |chains| == |before| == table.size == table.heads.Length
    requires WellFormed(before, table.size) && h == Hash(key.text, table.size)
    requires FindText(before[h], key.text) == None
    requires table in repr && table.heads in repr && item !in repr
    requires forall b | 0 <= b < table.size :: |chains[b]| == |before[b]|
    requires forall b | 0 <= b < table.size && b != h :: table.heads[b] == First(chains[b])
    requires table.heads[h] == item && item.key == key && item.value == value && item.next == First(chains[h])
    requires forall b, k | 0 <= b < table.size && 0 <= k < |chains[b]| ::
      chains[b][k] in repr && chains[b][k].next == After(chains[b], k) &&
      before[b][k] == Entry(chains[b][k].key, chains[b][k].value)
    modifies table
    ensures table.Valid() && table.Repr == repr + {item}
    ensures table.contents == HashSpec.Insert(before, table.size, key, value)
    ensures table.chains == chains[h := [item] + chains[h]]
  {
    ghost var chain := chains[h];
    table.chains := chains[h := [item] + chain];
    table.contents := before[h := [Entry(key, value)] + before[h]];
    table.Repr := repr + {item};
    InsertKeepsWellFormed(before, table.size, key, value);
    PrependedChainLinked(item, chain, before[h]);
  }

  /** An item linked to the head of a linked chain heads a linked chain
      that lists what it holds first. */
  lemma PrependedChainLinked(item: Item, chain: seq<Item>, entries: seq<Entry>)
    requires item.next == First(chain) && |chain| == |entries|
    requires forall k | 0 <= k < |chain| ::
      chain[k].next == After(chain, k) && entries[k] == Entry(chain[k].key, chain[k].value)
    ensures var c, e := [item] + chain, [Entry(item.key, item.value)] + entries;
      forall k | 0 <= k < |c| :: c[k].next == After(c, k) && e[k] == Entry(c[k].key, c[k].value)
  {
    var c, e := [item] + chain, [Entry(item.key, item.value)] + entries;
    forall k | 0 < k < |c|
      ensures c[k] == chain[k - 1] && e[k] == entries[k - 1]
      ensures After(c, k) == After(chain, k - 1)
    {
    }
  }

  /** ht_get: the stored item whose `value` field the returned pointer
      addresses (so a write through it changes the table), or NULL when the
      key's string is not stored. */
  method Get(table: Table?, key: CString?) returns (cell: Item?)
    requires table != null ==> table.Valid()
    ensures table == null || key == null ==> cell == null
    ensures table != null && key != null ==>
      (cell == null <==> Lookup(table.contents, table.size, key.text) == None)
    ensures table != null && key != null && cell != null ==>
      cell.key.text == key.text && Lookup(table.contents, table.size, key.text) == Some(cell.value)
    ensures table != null && key != null ==>
      var h := Hash(key.text, table.size);
      match FindText(table.contents[h], key.text)
      case None => cell == null
      case Some(j) => cell == table.chains[h][j]
  {
    if table == null || key == null {
      return null;
    }
    var item := Search(table, key);
    if item != null {
      return item;
    }
    return null;
  }

  /** ht_delete: walks the key's bucket remembering the predecessor `tmp`
      and unlinks the first item whose key is the very pointer `key`;
      another pointer to an equal string matches nothing. */
  method Delete(table: Table?, key: CString?)
    requires table != null ==> table.Valid()
    modifies if table != null && key != null then table.Repr else {}
    ensures table != null ==> table.Valid() && table.Repr <= old(table.Repr)
    ensures table != null ==>
      table.contents == if key == null then old(table.contents)
                        else HashSpec.Delete(old(table.contents), table.size, key)
    ensures table != null && key != null ==>
      var h := Hash(key.text, table.size);
      table.chains == ChainsAfterDelete(old(table.chains), old(table.contents)[h], h, key)
  {
    if table == null || key == null {
      return;
    }
    var h := GetHash(key.text, table.size);
    var item := table.heads[h];
    var tmp: Item? := null;
    ghost var chain := table.chains[h];
    ghost var j := 0;
    while item != null
      invariant table.Valid() && table.chains == old(table.chains) && table.contents == old(table.contents)
      invariant table.Repr == old(table.Repr)
      invariant j <= |chain| && item == (if j < |chain| then chain[j] else null)
      invariant tmp == (if j == 0 then null else chain[j - 1])
      invariant forall i | 0 <= i < j :: table.contents[h][i].key != key
      decreases |chain| - j
    {
      if item.key == key {
        Unlink(table, key, h, j, tmp, item);
        return;
      }
      tmp := item;
      item := item.next;
      j := j + 1;
    }
  }

  /** The chains after ht_delete: the first item of bucket `h` holding the
      very pointer `key` leaves that bucket's chain; without one nothing
      changes. */
  ghost function ChainsAfterDelete(chains: seq<seq<Item>>, bucket: seq<Entry>, h: nat, key: CString): seq<seq<Item>>
    requires h < |chains| && |chains[h]| == |bucket|
  {
    match FindKey(bucket, key)
    case Some(j) => chains[h := RemoveAt(chains[h], j)]
    case None => chains
  }

  /** The found branch of ht_delete: the bucket head or the predecessor's
      link skips `item`, which is then freed. */
  method Unlink(table: Table, key: CString, h: nat, ghost j: nat, tmp: Item?, item: Item)
    requires table.Valid() && h == Hash(key.text, table.size)
    requires j < |table.chains[h]| && item == table.chains[h][j] && item.key == key
    requires tmp == if j == 0 then null else table.chains[h][j - 1]
    requires forall i | 0 <= i < j :: table.contents[h][i].key != key
    modifies table, table.heads, tmp
    ensures table.Valid() && table.Repr <= old(table.Repr)
    ensures table.contents == HashSpec.Delete(old(table.contents), table.size, key)
    ensures table.chains == old(table.chains)[h := RemoveAt(old(table.chains)[h], j)]
    ensures table.chains == ChainsAfterDelete(old(table.chains), old(table.contents)[h], h, key)
  {
    ghost var chains: seq<seq<Item>>, before: seq<seq<Entry>>, repr: set<object> :=
      table.chains, table.contents, table.Repr;
    ghost var chain := chains[h];
    assert FindKey(before[h], key) == Some(j);
    ItemsDistinct(before, table.size, h, j, h, 0);
    if item == table.heads[h] {
      table.heads[h] := item.next;
    }
    if tmp != null {
      tmp.next := item.next;
    }
    // free(item): the item leaves the table.
    forall b, k | 0 <= b < table.size && 0 <= k < |chains[b]|
      ensures before[b][k] == Entry(chains[b][k].key, chains[b][k].value)
      ensures (b, k) != (h, j - 1) ==> chains[b][k].next == After(chains[b], k)
    {
      assert chains[b][k] in repr;
      if j > 0 {
        ItemsDistinct(before, table.size, b, k, h, j - 1);
      }
    }
    RecordUnlink(table, h, j, item, chains, before, repr);
  }

  /** The bookkeeping of ht_delete's found branch: once the link into
      `item` skips it, the chains and contents no longer hold it and the
      table is valid again. */
  ghost method RecordUnlink(table: Table, h: nat, j: nat, item: Item,
                            chains: seq<seq<Item>>, before: seq<seq<Entry>>, repr: set<object>)
    requires table.size > 0 && |chains| == |before| == table.size == table.heads.Length
    requires WellFormed(before, table.size) && h < table.size
    requires j < |chains[h]| && item == chains[h][j]
    requires table in repr && table.heads in repr
    requires forall b | 0 <= b < table.size :: |chains[b]| == |before[b]|
    requires forall b | 0 <= b < table.size && b != h :: table.heads[b] == First(chains[b])
    requires table.heads[h] == First(RemoveAt(chains[h], j))
    requires forall b, k | 0 <= b < table.size && 0 <= k < |chains[b]| ::
      chains[b][k] in repr && before[b][k] == Entry(chains[b][k].key, chains[b][k].value)
    requires forall b, k | 0 <= b < table.size && 0 <= k < |chains[b]| && (b, k) != (h, j - 1) ::
      chains[b][k].next == After(chains[b], k)
    requires j > 0 ==> chains[h][j - 1].next == After(chains[h], j)
    modifies table
    ensures table.Valid() && table.Repr == repr
    ensures table.contents == before[h := RemoveAt(before[h], j)]
    ensures table.chains == chains[h := RemoveAt(chains[h], j)]
  {
    ghost var chain := chains[h];
    table.chains := chains[h := RemoveAt(chain, j)];
    table.contents := before[h := RemoveAt(before[h], j)];
    table.Repr := repr;
    RemoveAtKeepsWellFormed(before, table.size, h, j);
    UnlinkedChainLinked(chain, before[h], j);
  }

  /** Once the link into the `j`-th item skips it, the chain without that
      item is linked and still lists what its items hold. */
  lemma UnlinkedChainLinked(chain: seq<Item>, entries: seq<Entry>, j: nat)
    requires j < |chain| == |entries|
    requires forall k | 0 <= k < |chain| :: entries[k] == Entry(chain[k].key, chain[k].value)
    requires forall k | 0 <= k < |chain| && k != j - 1 :: chain[k].next == After(chain, k)
    requires j > 0 ==> chain[j - 1].next == After(chain, j)
    ensures var c, e := RemoveAt(chain, j), RemoveAt(entries, j);
      forall k | 0 <= k < |c| :: c[k].next == After(c, k) && e[k] == Entry(c[k].key, c[k].value)
  {
    var c := RemoveAt(chain, j);
    forall k | 0 <= k < |c|
      ensures c[k].next == After(c, k)
    {
      if k + 1 == j {
        assert After(c, k) == After(chain, j);
      } else if k + 1 < j {
        assert After(c, k) == After(chain, k);
      } else {
        assert After(c, k) == After(chain, k + 1);
      }
    }
  }

  /** The items of `chains`, bucket after bucket, each chain from its head. */
  function Flatten(chains: seq<seq<Item>>): seq<Item> {
    if chains == [] then [] else Flatten(chains[..|chains| - 1]) + chains[|chains| - 1]
  }

  /** ht_delete_all: walks every chain freeing its items and sets every
      bucket head to NULL, which leaves the table as ht_init does. Returns,
      as `freed`, the items passed to free(), in order: every item of the
      table, each once. */
  method DeleteAll(table: Table?) returns (ghost freed: seq<Item>)
    requires table != null ==> table.Valid()
    modifies if table != null then {table, table.heads} else {}
    ensures table != null ==> table.Valid() && table.contents == Empty(table.size)
    ensures table != null ==> forall b | 0 <= b < table.size :: table.heads[b] == null
    ensures table != null ==> freed == Flatten(old(table.chains))
    ensures table == null ==> freed == []
  {
    freed := [];
    if table == null {
      return;
    }
    ghost var chains := table.chains;
    for i := 0 to table.size
      invariant table.Valid() && table.Repr == old(table.Repr) && |table.contents| == table.size
      invariant forall b | 0 <= b < i :: table.chains[b] == [] && table.contents[b] == []
      invariant forall b | i <= b < table.size :: table.chains[b] == chains[b]
      invariant freed == Flatten(chains[..i])
    {
      ghost var chain := chains[i];
      assert forall k | 0 <= k < |chain| :: chain[k].next == After(chain, k);
      ghost var released := FreeChain(table.heads[i], chain);
      freed := freed + released;
      table.heads[i] := null;
      assert chains[..i + 1][..i] == chains[..i];
      EmptyBucket(table, i);
    }
    assert chains[..table.size] == chains;
  }

  /** The inner loop of ht_delete_all: follows the `next` links from
      `first`, the head of `chain`, freeing each item after reading its
      link. Returns the freed items in order: the whole chain. */
  method FreeChain(first: Item?, ghost chain: seq<Item>) returns (ghost freed: seq<Item>)
    requires first == First(chain)
    requires forall k | 0 <= k < |chain| :: chain[k].next == After(chain, k)
    ensures freed == chain
  {
    var item := first;
    var nextItem: Item? := null;
    freed := [];
    ghost var j := 0;
    while item != null
      invariant j <= |chain| && item == (if j < |chain| then chain[j] else null)
      invariant freed == chain[..j]
      decreases |chain| - j
    {
      nextItem := item.next;
      assert chain[..j + 1] == chain[..j] + [item];
      freed := freed + [item];
      item := nextItem;
      j := j + 1;
    }
    assert chain[..j] == chain;
  }

  /** Once the head of bucket `i` is NULL, the chains and contents say that
      bucket is empty and the table is valid again. */
  ghost method EmptyBucket(table: Table, i: nat)
    requires i < table.size && table in table.Repr && table.heads in table.Repr
    requires table.heads.Length == table.size == |table.chains| && WellFormed(table.contents, table.size)
    requires table.heads[i] == null
    requires forall b | 0 <= b < table.size && b != i ::
      table.heads[b] == First(table.chains[b]) && |table.chains[b]| == |table.contents[b]|
    requires forall b, j | 0 <= b < table.size && b != i && 0 <= j < |table.chains[b]| ::
      table.chains[b][j] in table.Repr && table.chains[b][j].next == After(table.chains[b], j) &&
      table.contents[b][j] == Entry(table.chains[b][j].key, table.chains[b][j].value)
    modifies table
    ensures table.Valid() && table.Repr == old(table.Repr)
    ensures table.chains == old(table.chains)[i := []] && table.contents == old(table.contents)[i := []]
  {
    table.chains := table.chains[i := []];
    table.contents := table.contents[i := []];
    assert WellFormed(table.contents, table.size);
  }
}
