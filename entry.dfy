/**
 * The database entry helpers: key equality for map lookups, the disposal
 * of an entry's sorted set, and `scan`, the walk over every node of one
 * hash table.
 *
 * An `Entry` embeds its map node; in the model the map node's payload is
 * an `EntryRef` that names the entry (its id) and carries its key, and a
 * lookup probe carries only a key. `scan` calls a callback on each node;
 * the model returns the sequence of nodes the callback is called on.
 */
module Entry {
  import opened Wire
  import opened StringHash
  import opened HashTable
  import opened ZSet

  /** `KeyType::STR` and `KeyType::ZSET`; the field holding it is a plain `uint32_t`. */
  const KEY_STR: nat := 0
  const KEY_ZSET: nat := 1

  /**
   * The `KeyType` a stored type field converts to: the enumeration's
   * underlying type is `uint8_t`, so the cast keeps the low byte only.
   */
  function TypeTag(field: nat): (tag: nat)
    ensures tag < 256 && (field - tag) % 256 == 0
    ensures field < 256 ==> tag == field
  {
    field % 256
  }

  /** An entry: its key, its type tag, its string value and its sorted set (possibly null). */
  datatype Entry = Entry(key: bytes, keyType: nat, val: bytes, zset: ZSet?)

  /** The payload of a map node: a stored entry (its id and key), or a lookup probe holding only a key. */
  datatype EntryRef = Stored(id: nat, key: bytes) | Probe(key: bytes)

  /** `entryEquality`: two map nodes match when their entries' keys are equal. */
  function EntryEquality(lhs: EntryRef, rhs: EntryRef): bool
  {
    lhs.key == rhs.key
  }

  /**
   * A stored entry's node carries the hash of its key, and a lookup probe
   * the hash of the key looked up. Entries equal by `entryEquality` have
   * keys of equal hash, so the map's test (equal hash codes, then
   * `entryEquality`) accepts a stored node exactly when its key is the
   * probe's key: comparing hash codes first loses no match, and a match
   * is never a different key of the same hash.
   */
  lemma EntryMatchIsKeyMatch(id: nat, stored: bytes, key: bytes)
    ensures Matches(HNode(Hash(stored), Stored(id, stored)), HNode(Hash(key), Probe(key)), EntryEquality)
      <==> stored == key
  {
  }

  /** Entry equality is an equivalence relation. */
  lemma EntryEqualityIsEquivalence(a: EntryRef, b: EntryRef, c: EntryRef)
    ensures EntryEquality(a, a)
    ensures EntryEquality(a, b) ==> EntryEquality(b, a)
    ensures EntryEquality(a, b) && EntryEquality(b, c) ==> EntryEquality(a, c)
  {
  }

  /**
   * `entryDelete`: an entry whose type field converts to ZSET has its set
   * disposed (its map emptied); an entry of any other type is left as it
   * is. The conversion truncates, so a field of 257 counts as ZSET too.
   */
  method EntryDelete(entry: Entry)
    requires TypeTag(entry.keyType) == KEY_ZSET ==> entry.zset != null
    modifies if TypeTag(entry.keyType) == KEY_ZSET then {entry.zset.hmap} else {}
    ensures TypeTag(entry.keyType) == KEY_ZSET ==>
      entry.zset.hmap.Valid() && entry.zset.hmap.Contents() == multiset{}
  {
    var tag := TypeTag(entry.keyType);
    if tag == KEY_ZSET {
      entry.zset.Dispose();
    }
  }

  /** The nodes of the chains, slot by slot and along each chain in link order. */
  function Chains<T>(slots: seq<seq<HNode<T>>>): (r: seq<HNode<T>>)
  {
    if slots == [] then [] else Chains(slots[..|slots| - 1]) + slots[|slots| - 1]
  }

  /** The chains hold every node of the table once: the same multiset as `Elems`. */
  lemma {:induction false} ChainsAreElems<T>(slots: seq<seq<HNode<T>>>)
    ensures multiset(Chains(slots)) == Elems(slots)
    decreases |slots|
  {
    if slots != [] {
      ChainsAreElems(slots[..|slots| - 1]);
    }
  }

  /**
   * `scan`: nothing on a table with size 0; otherwise every slot from 0 to
   * mask and every node along its chain, in that order, each exactly once.
   */
  method Scan<T>(table: CTable<T>) returns (visited: seq<HNode<T>>)
    requires HashTable.Valid(table)
    ensures table.size == 0 ==> visited == []
    ensures table.size > 0 ==> visited == Chains(table.slots)
    ensures multiset(visited) == Elems(table.slots)
  {
    visited := [];
    if table.size == 0 {
      if Allocated(table) {
        EmptyElemsHaveEmptySlots(table.slots);
      }
      return;
    }
    for i := 0 to table.mask + 1
      invariant visited == Chains(table.slots[..i])
    {
      var chain := table.slots[i];
      var j := 0;
      while j < |chain|
        invariant j <= |chain|
        invariant visited == Chains(table.slots[..i]) + chain[..j]
      {
        visited := visited + [chain[j]];
        j := j + 1;
      }
      assert chain[..j] == chain;
      assert table.slots[..i + 1][..i] == table.slots[..i];
    }
    assert table.slots[..table.mask + 1] == table.slots;
    ChainsAreElems(table.slots);
  }

  /** A table of no nodes has only empty chains. */
  lemma {:induction false} EmptyElemsHaveEmptySlots<T>(slots: seq<seq<HNode<T>>>)
    requires Elems(slots) == multiset{}
    ensures Chains(slots) == []
    decreases |slots|
  {
    if slots != [] {
      EmptyElemsHaveEmptySlots(slots[..|slots| - 1]);
    }
  }
}
