/**
 * The hash map with progressive rehashing (`CMap`): two tables, where
 * `table2` is the old table being drained into `table1` a bounded number of
 * nodes at a time, from slot `resizingPosition` upwards.
 *
 * `Contents` is the multiset of nodes in both tables. Every operation keeps
 * `Valid`: both tables are well formed, `table2` exists only while
 * `table1` does, and the slots of `table2` below `resizingPosition` are
 * already empty (nothing is ever inserted into `table2`).
 */
module HashMap {
  import opened Wire
  import opened HashTable

  /** Nodes moved per call of `helpResizing`. */
  const RESIZING_WORK: nat := 128
  /** Average chain length at which `table1` is doubled. */
  const MAX_LOAD_FACTOR: nat := 8

  /**
   * When `table2`'s slots below pos are empty and it still holds a node,
   * pos is a slot of `table2`: the migration scan never runs past the end.
   */
  lemma ScanStaysInRange<T>(t: CTable<T>, pos: nat)
    requires HashTable.Valid(t) && t.size > 0 && pos <= |t.slots|
    requires forall i :: 0 <= i < pos ==> t.slots[i] == []
    ensures pos < |t.slots|
  {
    if pos == |t.slots| {
      EmptySlotsHaveNoElems(t.slots);
    }
  }

  /** When no node of a table matches, `lookUp` on it finds nothing: no node of the table matches. */
  lemma NotFoundMeansAbsent<T>(t: CTable<T>, key: HNode<T>, eq: (T, T) -> bool)
    requires HashTable.Valid(t)
    requires Allocated(t) ==> forall n :: n in t.slots[SlotOf(t, key.code)] ==> !Matches(n, key, eq)
    ensures forall n :: n in Elems(t.slots) ==> !Matches(n, key, eq)
  {
    if Allocated(t) {
      NoMatchOutsideSlot(t, key, eq);
    }
  }

  class CMap<T(==)> {
    var table1: CTable<T>
    var table2: CTable<T>
    var resizingPosition: nat

    ghost predicate Valid()
      reads this
    {
      HashTable.Valid(table1) && HashTable.Valid(table2)
      && (Allocated(table2) ==>
            Allocated(table1) && resizingPosition <= |table2.slots|
            && forall i :: 0 <= i < resizingPosition ==> table2.slots[i] == [])
    }

    /** Every node of the map. */
    ghost function Contents(): multiset<HNode<T>>
      reads this
    {
      Elems(table1.slots) + Elems(table2.slots)
    }

    /** `initMap`: both tables unallocated, resizingPosition 0. */
    constructor ()
      ensures Valid() && Contents() == multiset{}
      ensures table1 == EmptyTable() && table2 == EmptyTable() && resizingPosition == 0
    {
      table1 := EmptyTable();
      table2 := EmptyTable();
      resizingPosition := 0;
    }

    /** `CMapSize`: the node counts of both tables together, i.e. the number of nodes. */
    function Size(): (n: nat)
      reads this
      requires Valid()
      ensures n == |Contents()|
    {
      table1.size + table2.size
    }

    /**
     * `helpResizing`: moves the head node of the first non-empty slot of
     * `table2` at or after resizingPosition into `table1`, at most
     * RESIZING_WORK times, then releases `table2` once it is empty. No node
     * is lost or added, and `table1` keeps its slot count.
     */
    method HelpResizing()
      requires Valid()
      modifies this
      ensures Valid() && Contents() == old(Contents())
      ensures table2.size == if old(table2.size) > RESIZING_WORK then old(table2.size) - RESIZING_WORK else 0
      ensures table2.size == 0 ==> table2 == EmptyTable()
      ensures |table1.slots| == old(|table1.slots|)
    {
      var work := 0;
      while work < RESIZING_WORK && table2.size > 0
        invariant Valid() && Contents() == old(Contents())
        invariant work <= RESIZING_WORK && table2.size + work == old(table2.size)
        invariant |table1.slots| == old(|table1.slots|)
        decreases RESIZING_WORK - work, |table2.slots| - resizingPosition
      {
        ScanStaysInRange(table2, resizingPosition);
        if table2.slots[resizingPosition] == [] {
          resizingPosition := resizingPosition + 1;
          continue;
        }
        MoveHead();
        work := work + 1;
      }
      if table2.size == 0 && Allocated(table2) {
        table2 := EmptyTable();
      }
    }

    /** One step of `helpResizing`: `insert(&table1, detach(&table2, from))` for the head of slot resizingPosition. */
    method MoveHead()
      requires Valid() && Allocated(table2) && resizingPosition < |table2.slots|
      requires table2.slots[resizingPosition] != []
      modifies this
      ensures Valid() && Contents() == old(Contents())
      ensures table2.size + 1 == old(table2.size) && |table1.slots| == old(|table1.slots|)
      ensures resizingPosition == old(resizingPosition)
    {
      var (t2, node) := Detach(table2, Link(resizingPosition, 0));
      table2 := t2;
      table1 := HashTable.Insert(table1, node);
    }

    /**
     * `startResizing`: the current table becomes `table2` and `table1` is
     * a fresh table with twice as many slots; the scan starts at slot 0.
     */
    method StartResizing()
      requires Valid() && Allocated(table1) && !Allocated(table2)
      modifies this
      ensures Valid() && Contents() == old(Contents())
      ensures table2 == old(table1) && |table1.slots| == 2 * old(|table1.slots|) && table1.size == 0
      ensures resizingPosition == 0
    {
      table2 := table1;
      DoubleIsPowerOfTwo(table1.mask + 1);
      table1 := Init((table1.mask + 1) * 2);
      resizingPosition := 0;
    }

    /**
     * `CMapLookUp`: after a step of migration, the first matching node of
     * `table1`, else of `table2`, else nothing; nothing only when no node
     * of the map matches the key.
     */
    method LookUp(key: HNode<T>, eq: (T, T) -> bool) returns (r: Option<HNode<T>>)
      requires Valid()
      modifies this
      ensures Valid() && Contents() == old(Contents())
      ensures r.Some? ==> r.value in Contents() && Matches(r.value, key, eq)
      ensures r.None? ==> forall n :: n in Contents() ==> !Matches(n, key, eq)
    {
      HelpResizing();
      var from := HashTable.LookUp(table1, key, eq);
      if from.Some? {
        LinkedNodeInElems(table1, from.value);
        return Some(table1.slots[from.value.slot][from.value.index]);
      }
      NotFoundMeansAbsent(table1, key, eq);
      from := HashTable.LookUp(table2, key, eq);
      if from.Some? {
        LinkedNodeInElems(table2, from.value);
        return Some(table2.slots[from.value.slot][from.value.index]);
      }
      NotFoundMeansAbsent(table2, key, eq);
      return None;
    }

    /**
     * `CMapInsert`: allocates 4 slots on first use, prepends the node to
     * `table1`, starts a doubling when no resize is under way and the load
     * factor size / slots has reached MAX_LOAD_FACTOR, then migrates.
     */
    method Insert(node: HNode<T>)
      requires Valid()
      modifies this
      ensures Valid() && Contents() == old(Contents()) + multiset{node}
      ensures var n := if Allocated(old(table1)) then |old(table1.slots)| else 4;
        |table1.slots| == if !Allocated(old(table2)) && (old(table1.size) + 1) / n >= MAX_LOAD_FACTOR then 2 * n else n
    {
      Push(node);
      if !Allocated(table2) {
        var loadFactor := table1.size / (table1.mask + 1);
        if loadFactor >= MAX_LOAD_FACTOR {
          StartResizing();
        }
      }
      HelpResizing();
    }

    /** The first part of `CMapInsert`: allocate `table1` with 4 slots if needed, then `insert` into it. */
    method Push(node: HNode<T>)
      requires Valid()
      modifies this
      ensures Valid() && Contents() == old(Contents()) + multiset{node}
      ensures Allocated(table1) && table1.size == old(table1.size) + 1
      ensures |table1.slots| == if Allocated(old(table1)) then |old(table1.slots)| else 4
      ensures table2 == old(table2) && resizingPosition == old(resizingPosition)
    {
      if !Allocated(table1) {
        table1 := Init(4);
      }
      table1 := HashTable.Insert(table1, node);
    }

    /**
     * `CMapPop`: after a step of migration, detaches the first matching
     * node of `table1`, else of `table2`; returns nothing and changes no
     * node when no node of the map matches the key.
     */
    method Pop(key: HNode<T>, eq: (T, T) -> bool) returns (r: Option<HNode<T>>)
      requires Valid()
      modifies this
      ensures Valid()
      ensures r.Some? ==>
        Matches(r.value, key, eq) && r.value in old(Contents()) && Contents() + multiset{r.value} == old(Contents())
      ensures r.None? ==> Contents() == old(Contents()) && forall n :: n in Contents() ==> !Matches(n, key, eq)
    {
      HelpResizing();
      var from := HashTable.LookUp(table1, key, eq);
      if from.Some? {
        var node := DetachFrom1(from.value);
        return Some(node);
      }
      NotFoundMeansAbsent(table1, key, eq);
      from := HashTable.LookUp(table2, key, eq);
      if from.Some? {
        var node := DetachFrom2(from.value);
        return Some(node);
      }
      NotFoundMeansAbsent(table2, key, eq);
      return None;
    }

    /** `detach(&map->table1, from)`. */
    method DetachFrom1(link: Link) returns (node: HNode<T>)
      requires Valid() && IsNodeLink(table1, link)
      modifies this
      ensures Valid() && node == old(table1.slots[link.slot][link.index])
      ensures node in old(Contents()) && Contents() + multiset{node} == old(Contents())
    {
      LinkedNodeInElems(table1, link);
      var (t1, n) := Detach(table1, link);
      table1 := t1;
      return n;
    }

    /** `detach(&map->table2, from)`: the slot is at or past resizingPosition, since the slots below it are empty. */
    method DetachFrom2(link: Link) returns (node: HNode<T>)
      requires Valid() && IsNodeLink(table2, link)
      modifies this
      ensures Valid() && node == old(table2.slots[link.slot][link.index])
      ensures node in old(Contents()) && Contents() + multiset{node} == old(Contents())
    {
      LinkedNodeInElems(table2, link);
      assert link.slot >= resizingPosition;
      var (t2, n) := Detach(table2, link);
      table2 := t2;
      return n;
    }

    /** `CMapDestroy`: releases both slot arrays and reinitialises the map; the nodes themselves are not touched. */
    method Destroy()
      modifies this
      ensures Valid() && Contents() == multiset{} && Size() == 0
      ensures table1 == EmptyTable() && table2 == EmptyTable() && resizingPosition == 0
    {
      table1 := EmptyTable();
      table2 := EmptyTable();
      resizingPosition := 0;
    }
  }
}
