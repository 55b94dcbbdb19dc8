/// The chained hash table of hashtable/hashtable.c, seen as values: a table
/// is a sequence of `size` buckets (`size` is the global `HT_SIZE`), each
/// bucket the sequence of entries of its chain, head first.
///
/// A key is a `char *`. The table compares keys in two ways: `ht_search`
/// compares the characters (`strcmp`), `ht_delete` compares the pointers.
/// A `CString` object stands for one such character array: two `CString`s
/// are the same pointer exactly when they are the same object, and they hold
/// equal strings when their `text`s are equal. The text never changes, and
/// it stands for the bytes before the string's terminating NUL, one `char`
/// per byte.
module HashSpec {

  datatype Option<T> = None | Some(value: T)

  class CString {
    const text: string

    constructor (text: string)
      ensures this.text == text
    {
      this.text := text;
    }
  }

  /** What one chain item holds: the key pointer it was inserted with and
      its value (a C `float`, modelled as a real number). */
  datatype Entry = Entry(key: CString, value: real)

  // ---------------------------------------------------------------------
  // The hash function

  /** The sum of the character codes of `s`. */
  function CodeSum(s: string): nat {
    if s == [] then 0 else CodeSum(s[..|s| - 1]) + s[|s| - 1] as nat
  }

  /** get_hash: one plus the sum of the character codes, modulo the table
      size; always a valid bucket index. */
  function Hash(s: string, size: nat): (h: nat)
    requires size > 0
    ensures h < size
  {
    (1 + CodeSum(s)) % size
  }

  lemma {:induction false} CodeSumConcat(a: string, b: string)
    ensures CodeSum(a + b) == CodeSum(a) + CodeSum(b)
    decreases |b|
  {
    if b == [] {
      assert a + b == a;
    } else {
      var b' := b[..|b| - 1];
      assert (a + b)[..|a + b| - 1] == a + b';
      CodeSumConcat(a, b');
    }
  }

  /** The hash ignores the order of the characters: swapping two parts of a
      key never changes its bucket, so all anagrams collide. */
  lemma HashIgnoresOrder(a: string, b: string, size: nat)
    requires size > 0
    ensures Hash(a + b, size) == Hash(b + a, size)
  {
    CodeSumConcat(a, b);
    CodeSumConcat(b, a);
  }

  // ---------------------------------------------------------------------
  // Chains

  /** The position of the first entry whose key holds the string `text`
      (the `strcmp` walk of ht_search), if any. */
  function FindText(chain: seq<Entry>, text: string): (r: Option<nat>)
    ensures r.Some? ==> r.value < |chain| && chain[r.value].key.text == text
    ensures r.Some? ==> forall i | 0 <= i < r.value :: chain[i].key.text != text
    ensures r.None? ==> forall i | 0 <= i < |chain| :: chain[i].key.text != text
  {
    if chain == [] then None
    else if chain[0].key.text == text then Some(0)
    else
      match FindText(chain[1..], text)
      case None => None
      case Some(j) => Some(j + 1)
  }

  /** The position of the first entry whose key is the pointer `key` (the
      `==` walk of ht_delete), if any. */
  function FindKey(chain: seq<Entry>, key: CString): (r: Option<nat>)
    ensures r.Some? ==> r.value < |chain| && chain[r.value].key == key
    ensures r.Some? ==> forall i | 0 <= i < r.value :: chain[i].key != key
    ensures r.None? ==> forall i | 0 <= i < |chain| :: chain[i].key != key
  {
    if chain == [] then None
    else if chain[0].key == key then Some(0)
    else
      match FindKey(chain[1..], key)
      case None => None
      case Some(j) => Some(j + 1)
  }

  /** `chain` without its `j`-th element: what unlinking that item leaves. */
  function RemoveAt<T>(chain: seq<T>, j: nat): (r: seq<T>)
    requires j < |chain|
    ensures |r| == |chain| - 1
    ensures forall i | 0 <= i < |r| :: r[i] == chain[if i < j then i else i + 1]
    ensures multiset(r) + multiset{chain[j]} == multiset(chain)
  {
    assert chain == chain[..j] + [chain[j]] + chain[j + 1..];
    chain[..j] + chain[j + 1..]
  }

  // ---------------------------------------------------------------------
  // Tables

  /** The invariant the operations keep: one bucket per index, every entry
      in the bucket its key hashes to, and no string stored twice in a
      bucket. */
  predicate WellFormed(t: seq<seq<Entry>>, size: nat) {
    size > 0 && |t| == size &&
    (forall b, j | 0 <= b < size && 0 <= j < |t[b]| :: Hash(t[b][j].key.text, size) == b) &&
    (forall b, i, j | 0 <= b < size && 0 <= i < j < |t[b]| :: t[b][i].key.text != t[b][j].key.text)
  }

  /** The table after ht_init or ht_delete_all: every bucket empty. */
  function Empty(size: nat): (t: seq<seq<Entry>>)
    requires size > 0
    ensures WellFormed(t, size)
  {
    seq(size, _ => [])
  }

  /** What ht_search (and ht_get) find for the string `text`: the value of
      the first entry holding `text` in its bucket. */
  function Lookup(t: seq<seq<Entry>>, size: nat, text: string): (r: Option<real>)
    requires size > 0 && |t| == size
    ensures r == None <==> forall e | e in t[Hash(text, size)] :: e.key.text != text
    ensures r.Some? ==> exists e | e in t[Hash(text, size)] :: e.key.text == text && e.value == r.value
  {
    var bucket := t[Hash(text, size)];
    match FindText(bucket, text)
    case None => None
    case Some(j) => Some(bucket[j].value)
  }

  /** ht_insert: a stored string gets the new value (its entry keeps the key
      pointer it was inserted with); a new string is prepended to its
      bucket with the caller's pointer. */
  function Insert(t: seq<seq<Entry>>, size: nat, key: CString, value: real): (r: seq<seq<Entry>>)
    requires size > 0 && |t| == size
    ensures |r| == size
    ensures forall b | 0 <= b < size && b != Hash(key.text, size) :: r[b] == t[b]
    ensures var h := Hash(key.text, size); |t[h]| <= |r[h]| <= |t[h]| + 1
  {
    var h := Hash(key.text, size);
    match FindText(t[h], key.text)
    case Some(j) => t[h := t[h][j := t[h][j].(value := value)]]
    case None => t[h := [Entry(key, value)] + t[h]]
  }

  /** ht_delete as written: the first entry of the key's bucket inserted
      with this very pointer is unlinked; without one nothing changes. */
  function Delete(t: seq<seq<Entry>>, size: nat, key: CString): (r: seq<seq<Entry>>)
    requires size > 0 && |t| == size
    ensures |r| == size
    ensures forall b | 0 <= b < size && b != Hash(key.text, size) :: r[b] == t[b]
    ensures var h := Hash(key.text, size); multiset(r[h]) <= multiset(t[h])
    ensures var h := Hash(key.text, size);
      (exists i | 0 <= i < |t[h]| :: t[h][i].key == key) ==> |r[h]| == |t[h]| - 1
    ensures var h := Hash(key.text, size);
      (forall i | 0 <= i < |t[h]| :: t[h][i].key != key) ==> r == t
  {
    var h := Hash(key.text, size);
    match FindKey(t[h], key)
    case Some(j) => t[h := RemoveAt(t[h], j)]
    case None => t
  }

  /** ht_delete as its documentation describes it: the entry holding the
      string `text` is unlinked, whatever pointer it was inserted with. */
  function DeleteText(t: seq<seq<Entry>>, size: nat, text: string): (r: seq<seq<Entry>>)
    requires size > 0 && |t| == size
    ensures |r| == size
    ensures forall b | 0 <= b < size && b != Hash(text, size) :: r[b] == t[b]
    ensures var h := Hash(text, size); multiset(r[h]) <= multiset(t[h])
    ensures var h := Hash(text, size);
      (exists i | 0 <= i < |t[h]| :: t[h][i].key.text == text) ==> |r[h]| == |t[h]| - 1
    ensures var h := Hash(text, size);
      (forall i | 0 <= i < |t[h]| :: t[h][i].key.text != text) ==> r == t
  {
    var h := Hash(text, size);
    match FindText(t[h], text)
    case Some(j) => t[h := RemoveAt(t[h], j)]
    case None => t
  }

  // ---------------------------------------------------------------------
  // Properties

  /** Nothing is found in a freshly initialised or emptied table. */
  lemma LookupEmpty(size: nat, text: string)
    requires size > 0
    ensures Lookup(Empty(size), size, text) == None
  {
    assert Empty(size)[Hash(text, size)] == [];
  }

  /** After an insert the key's string is found with the new value. */
  lemma InsertThenLookup(t: seq<seq<Entry>>, size: nat, key: CString, value: real)
    requires WellFormed(t, size)
    ensures Lookup(Insert(t, size, key, value), size, key.text) == Some(value)
  {
    var h := Hash(key.text, size);
    var r: seq<seq<Entry>> := Insert(t, size, key, value);
    match FindText(t[h], key.text)
    case Some(j) =>
      assert r[h] == t[h][j := t[h][j].(value := value)];
      assert r[h][j].key.text == key.text;
      assert forall i | 0 <= i < j :: r[h][i] == t[h][i];
    case None =>
      assert r[h][0].key.text == key.text;
  }

  /** An insert leaves what every other string finds unchanged. */
  lemma InsertLeavesOthers(t: seq<seq<Entry>>, size: nat, key: CString, value: real, text: string)
    requires WellFormed(t, size) && text != key.text
    ensures Lookup(Insert(t, size, key, value), size, text) == Lookup(t, size, text)
  {
    var h, g := Hash(key.text, size), Hash(text, size);
    var r: seq<seq<Entry>> := Insert(t, size, key, value);
    if g == h {
      match FindText(t[h], key.text) {
        case Some(j) =>
          FindTextIgnoresValues(t[h], r[h], text);
        case None =>
          assert r[h] == [Entry(key, value)] + t[h];
          FindTextPastHead(r[h], text);
      }
    }
  }

  /** Two chains holding the same strings in the same order find the same
      position for every string. */
  lemma FindTextIgnoresValues(a: seq<Entry>, b: seq<Entry>, text: string)
    requires |a| == |b| && forall i | 0 <= i < |a| :: a[i].key.text == b[i].key.text
    ensures FindText(a, text) == FindText(b, text)
  {
    match FindText(a, text) {
      case None =>
        assert forall i | 0 <= i < |b| :: b[i].key.text != text;
      case Some(j) =>
        assert forall i | 0 <= i < j :: b[i].key.text != text;
        assert b[j].key.text == text;
    }
  }

  /** Past a head that holds another string, the search goes on in the tail. */
  lemma FindTextPastHead(c: seq<Entry>, text: string)
    requires c != [] && c[0].key.text != text
    ensures FindText(c, text) ==
      match FindText(c[1..], text)
      case None => None
      case Some(k) => Some(k + 1)
  {
  }

  /** An insert keeps the table well formed. */
  lemma InsertKeepsWellFormed(t: seq<seq<Entry>>, size: nat, key: CString, value: real)
    requires WellFormed(t, size)
    ensures WellFormed(Insert(t, size, key, value), size)
  {
    var h := Hash(key.text, size);
    var r: seq<seq<Entry>> := Insert(t, size, key, value);
    match FindText(t[h], key.text)
    case Some(j) =>
      assert forall i | 0 <= i < |r[h]| :: r[h][i].key == t[h][i].key;
    case None =>
      assert r[h] == [Entry(key, value)] + t[h];
      assert forall i | 0 < i < |r[h]| :: r[h][i] == t[h][i - 1];
  }

  /** Overwriting a stored string keeps every chain's length: no entry is
      added or dropped. */
  lemma InsertExistingKeepsLengths(t: seq<seq<Entry>>, size: nat, key: CString, value: real)
    requires WellFormed(t, size) && Lookup(t, size, key.text).Some?
    ensures forall b | 0 <= b < size :: |Insert(t, size, key, value)[b]| == |t[b]|
  {
  }

  /** Inserting a new string makes exactly its bucket one entry longer. */
  lemma InsertNewGrowsItsBucket(t: seq<seq<Entry>>, size: nat, key: CString, value: real)
    requires WellFormed(t, size) && Lookup(t, size, key.text).None?
    ensures var h := Hash(key.text, size);
      |Insert(t, size, key, value)[h]| == |t[h]| + 1 &&
      forall b | 0 <= b < size && b != h :: Insert(t, size, key, value)[b] == t[b]
  {
  }

  /** Dropping one entry of a bucket keeps the table well formed. */
  lemma RemoveAtKeepsWellFormed(t: seq<seq<Entry>>, size: nat, h: nat, j: nat)
    requires WellFormed(t, size) && h < size && j < |t[h]|
    ensures WellFormed(t[h := RemoveAt(t[h], j)], size)
  {
    var c := RemoveAt(t[h], j);
    assert forall i | 0 <= i < |c| :: c[i] == t[h][if i < j then i else i + 1];
  }

  /** A delete keeps the table well formed. */
  lemma DeleteKeepsWellFormed(t: seq<seq<Entry>>, size: nat, key: CString)
    requires WellFormed(t, size)
    ensures WellFormed(Delete(t, size, key), size)
  {
    var h := Hash(key.text, size);
    match FindKey(t[h], key)
    case None =>
    case Some(j) => RemoveAtKeepsWellFormed(t, size, h, j);
  }

  /** Dropping one entry whose string is not `text` leaves what `text` finds
      unchanged. */
  lemma RemoveAtLeavesOthers(t: seq<seq<Entry>>, size: nat, h: nat, j: nat, text: string)
    requires WellFormed(t, size) && h < size && j < |t[h]|
    requires t[h][j].key.text != text
    ensures Lookup(t[h := RemoveAt(t[h], j)], size, text) == Lookup(t, size, text)
  {
    var r := t[h := RemoveAt(t[h], j)];
    var g := Hash(text, size);
    if g == h {
      var c := r[h];
      assert forall i | 0 <= i < |c| :: c[i] == t[h][if i < j then i else i + 1];
      match FindText(t[h], text)
      case None =>
      case Some(k) =>
        if k < j {
          assert c[k] == t[h][k];
        } else {
          assert c[k - 1] == t[h][k];
        }
    }
  }

  /** A delete leaves what every other string finds unchanged. */
  lemma DeleteLeavesOthers(t: seq<seq<Entry>>, size: nat, key: CString, text: string)
    requires WellFormed(t, size) && text != key.text
    ensures Lookup(Delete(t, size, key), size, text) == Lookup(t, size, text)
  {
    var h := Hash(key.text, size);
    match FindKey(t[h], key)
    case None =>
    case Some(j) => RemoveAtLeavesOthers(t, size, h, j, text);
  }

  /** Dropping the entry that holds `text` makes `text` absent: no other
      entry of a well-formed bucket holds it. */
  lemma RemoveAtRemovesText(t: seq<seq<Entry>>, size: nat, j: nat, text: string)
    requires WellFormed(t, size)
    requires var h := Hash(text, size); j < |t[h]| && t[h][j].key.text == text
    ensures var h := Hash(text, size); Lookup(t[h := RemoveAt(t[h], j)], size, text) == None
  {
    var h := Hash(text, size);
    var c := RemoveAt(t[h], j);
    assert forall i | 0 <= i < |c| :: c[i] == t[h][if i < j then i else i + 1];
    assert t[h := c][h] == c;
  }

  /** Deleting with the pointer the key was inserted with removes it. */
  lemma DeleteStoredKeyRemoves(t: seq<seq<Entry>>, size: nat, key: CString)
    requires WellFormed(t, size)
    requires FindKey(t[Hash(key.text, size)], key).Some?
    ensures Lookup(Delete(t, size, key), size, key.text) == None
  {
    var h := Hash(key.text, size);
    var j := FindKey(t[h], key).value;
    RemoveAtRemovesText(t, size, j, key.text);
  }

  /** Deleting with another pointer to an equal string removes nothing: the
      stored entry keeps its value and is still found. */
  lemma DeleteByCopyKeepsEntry(t: seq<seq<Entry>>, size: nat, stored: CString, copy: CString)
    requires WellFormed(t, size)
    requires FindKey(t[Hash(stored.text, size)], stored).Some?
    requires copy != stored && copy.text == stored.text
    ensures Delete(t, size, copy) == t
    ensures Lookup(Delete(t, size, copy), size, copy.text).Some?
  {
    var h := Hash(stored.text, size);
    var j := FindKey(t[h], stored).value;
    assert FindText(t[h], copy.text).Some?;
  }

  /** The documented delete removes the string, whatever pointer holds it. */
  lemma DeleteTextRemoves(t: seq<seq<Entry>>, size: nat, text: string)
    requires WellFormed(t, size)
    ensures WellFormed(DeleteText(t, size, text), size)
    ensures Lookup(DeleteText(t, size, text), size, text) == None
  {
    var h := Hash(text, size);
    match FindText(t[h], text)
    case None =>
    case Some(j) =>
      RemoveAtKeepsWellFormed(t, size, h, j);
      RemoveAtRemovesText(t, size, j, text);
  }

  /** The documented delete leaves every other string as it was. */
  lemma DeleteTextLeavesOthers(t: seq<seq<Entry>>, size: nat, text: string, other: string)
    requires WellFormed(t, size) && other != text
    ensures Lookup(DeleteText(t, size, text), size, other) == Lookup(t, size, other)
  {
    var h := Hash(text, size);
    match FindText(t[h], text)
    case None =>
    case Some(j) => RemoveAtLeavesOthers(t, size, h, j, other);
  }

  /** With seven buckets "a" (code 97) and "h" (code 104) both land in
      bucket 0. */
  lemma SevenBucketCollision()
    ensures Hash("a", 7) == 0 && Hash("h", 7) == 0
  {
    assert "a"[..0] == [];
    assert "h"[..0] == [];
  }
}
