/**
 * One chained hash table of the map (`CTable`): a power-of-two array of
 * slots, each the head of a singly linked chain, plus `mask` = slots - 1 and
 * a node counter `size`. A node carries its hash `code`; the rest of the
 * node is the payload `item` of the structure that embeds it.
 *
 * The table is a value: C copies it by struct assignment
 * (`map->table2 = map->table1`), so it is a datatype, and the helpers that
 * update it through a `CTable *` return the updated value. A chain is the
 * sequence of its nodes in link order; a link `CNode **from` is the pair
 * (slot, index) of the node it points at, with index = chain length for
 * the null link at the end of a chain.
 */
module HashTable {
  import opened Wire

  datatype HNode<T> = HNode(code: nat, item: T)

  datatype CTable<T> = CTable(slots: seq<seq<HNode<T>>>, mask: nat, size: nat)

  /** The address of a link: chain `slot`, position `index` in it. */
  datatype Link = Link(slot: nat, index: nat)

  /** `x & y` on naturals, bit by bit from the least significant. */
  function AndBits(x: nat, y: nat): (r: nat)
    ensures r <= y
  {
    if x == 0 || y == 0 then 0
    else 2 * AndBits(x / 2, y / 2) + (if x % 2 == 1 && y % 2 == 1 then 1 else 0)
  }

  predicate IsPowerOfTwo(n: nat)
  {
    n == 1 || (n > 1 && n % 2 == 0 && IsPowerOfTwo(n / 2))
  }

  lemma DoubleIsPowerOfTwo(n: nat)
    requires IsPowerOfTwo(n)
    ensures IsPowerOfTwo(2 * n)
  {
    assert (2 * n) / 2 == n;
  }

  /** Every node of a table, as a multiset. */
  function Elems<T(==)>(slots: seq<seq<HNode<T>>>): multiset<HNode<T>>
  {
    if slots == [] then multiset{} else Elems(slots[..|slots| - 1]) + multiset(slots[|slots| - 1])
  }

  /** The slot index of a hash code: `code & mask`. */
  function SlotOf<T(==)>(t: CTable<T>, code: nat): (p: nat)
    requires Valid(t) && Allocated(t)
    ensures p < |t.slots|
  {
    AndBits(code, t.mask)
  }

  /** A table whose array is allocated (`table->table != NULL`). */
  predicate Allocated<T>(t: CTable<T>)
  {
    |t.slots| > 0
  }

  /**
   * The invariant of a table: unallocated with mask and size 0, or a
   * power-of-two slot count with mask = slots - 1, size = the number of
   * nodes, and every node in the chain its code selects.
   */
  predicate Valid<T(==)>(t: CTable<T>)
  {
    if |t.slots| == 0 then t.mask == 0 && t.size == 0
    else
      IsPowerOfTwo(|t.slots|) && t.mask == |t.slots| - 1 && t.size == |Elems(t.slots)| && Placed(t.slots, t.mask)
  }

  /** Every node sits in chain `code & mask`. */
  predicate Placed<T>(slots: seq<seq<HNode<T>>>, mask: nat)
  {
    forall i, j :: 0 <= i < |slots| && 0 <= j < |slots[i]| ==> AndBits(slots[i][j].code, mask) == i
  }

  lemma PlacedUpdate<T>(slots: seq<seq<HNode<T>>>, mask: nat, p: nat, c: seq<HNode<T>>)
    requires Placed(slots, mask) && p < |slots|
    requires forall j :: 0 <= j < |c| ==> AndBits(c[j].code, mask) == p
    ensures Placed(slots[p := c], mask)
  {
  }

  /** `initTable`: no array, mask 0, size 0. */
  function EmptyTable<T(==)>(): (t: CTable<T>)
    ensures Valid(t) && !Allocated(t) && Elems(t.slots) == multiset{}
  {
    CTable([], 0, 0)
  }

  /** `init` / `initialize`: n empty chains for a power of two n, mask n - 1, size 0. */
  function Init<T(==)>(n: nat): (t: CTable<T>)
    requires n > 0 && IsPowerOfTwo(n)
    ensures Valid(t) && |t.slots| == n && t.mask == n - 1 && t.size == 0
    ensures Elems(t.slots) == multiset{}
  {
    var slots: seq<seq<HNode<T>>> := seq(n, _ => []);
    EmptySlotsHaveNoElems(slots);
    CTable(slots, n - 1, 0)
  }

  /**
   * `insert`: puts the node at the head of the chain its code selects and
   * counts it; no other chain changes.
   */
  function Insert<T(==)>(t: CTable<T>, node: HNode<T>): (r: CTable<T>)
    requires Valid(t) && Allocated(t)
    ensures Valid(r) && |r.slots| == |t.slots| && r.mask == t.mask && r.size == t.size + 1
    ensures Elems(r.slots) == Elems(t.slots) + multiset{node}
    ensures var p := SlotOf(t, node.code);
      r.slots == t.slots[p := [node] + t.slots[p]]
  {
    var p := SlotOf(t, node.code);
    var chain := [node] + t.slots[p];
    var slots := t.slots[p := chain];
    assert Placed(slots, t.mask) by {
      assert forall j :: 0 < j < |chain| ==> chain[j] == t.slots[p][j - 1];
      PlacedUpdate(t.slots, t.mask, p, chain);
    }
    assert Elems(slots) == Elems(t.slots) + multiset{node} by {
      ElemsUpdate(t.slots, p, chain);
      assert multiset(chain) == multiset{node} + multiset(t.slots[p]);
      MultisetCancel(Elems(slots), Elems(t.slots) + multiset{node}, multiset(t.slots[p]));
    }
    CTable(slots, t.mask, t.size + 1)
  }

  /** The node matches the key: equal hash codes and `eq` holds. */
  predicate Matches<T>(n: HNode<T>, key: HNode<T>, eq: (T, T) -> bool)
  {
    n.code == key.code && eq(n.item, key.item)
  }

  /**
   * `lookUp`: no link for an unallocated table; otherwise walks the chain
   * of the key's slot and returns the link to its first matching node, or
   * no link when none matches.
   */
  method LookUp<T(==)>(t: CTable<T>, key: HNode<T>, eq: (T, T) -> bool) returns (r: Option<Link>)
    requires Valid(t)
    ensures !Allocated(t) ==> r.None?
    ensures r.Some? ==>
      Allocated(t) && r.value.slot == SlotOf(t, key.code)
      && r.value.index < |t.slots[r.value.slot]| && Matches(t.slots[r.value.slot][r.value.index], key, eq)
      && forall j :: 0 <= j < r.value.index ==> !Matches(t.slots[r.value.slot][j], key, eq)
    ensures r.None? && Allocated(t) ==> forall n :: n in t.slots[SlotOf(t, key.code)] ==> !Matches(n, key, eq)
  {
    if !Allocated(t) {
      return None;
    }
    var position := SlotOf(t, key.code);
    var chain := t.slots[position];
    var from := 0;
    while from < |chain|
      invariant from <= |chain|
      invariant forall j :: 0 <= j < from ==> !Matches(chain[j], key, eq)
    {
      var curr := chain[from];
      if curr.code == key.code && eq(curr.item, key.item) {
        return Some(Link(position, from));
      }
      from := from + 1;
    }
    return None;
  }

  /** A link that points at a node. */
  predicate IsNodeLink<T>(t: CTable<T>, link: Link)
  {
    link.slot < |t.slots| && link.index < |t.slots[link.slot]|
  }

  /**
   * `detach` (C): unlinks the node the link points at, keeping the rest of
   * its chain in order, and uncounts it.
   */
  function Detach<T(==)>(t: CTable<T>, link: Link): (r: (CTable<T>, HNode<T>))
    requires Valid(t) && IsNodeLink(t, link)
    ensures var (t', node) := r;
      var chain := t.slots[link.slot];
      node == chain[link.index]
      && t'.slots == t.slots[link.slot := chain[..link.index] + chain[link.index + 1..]]
      && Valid(t') && t'.mask == t.mask && t'.size + 1 == t.size
      && Elems(t'.slots) + multiset{node} == Elems(t.slots)
  {
    var chain := t.slots[link.slot];
    var slots := t.slots[link.slot := chain[..link.index] + chain[link.index + 1..]];
    UnlinkKeepsPlaced(t, link);
    UnlinkElems(t, link);
    (CTable(slots, t.mask, t.size - 1), chain[link.index])
  }

  lemma UnlinkKeepsPlaced<T>(t: CTable<T>, link: Link)
    requires Placed(t.slots, t.mask) && IsNodeLink(t, link)
    ensures var chain := t.slots[link.slot];
      Placed(t.slots[link.slot := chain[..link.index] + chain[link.index + 1..]], t.mask)
  {
    var chain := t.slots[link.slot];
    var rest := chain[..link.index] + chain[link.index + 1..];
    assert forall j :: 0 <= j < |rest| ==> rest[j] == (if j < link.index then chain[j] else chain[j + 1]);
    PlacedUpdate(t.slots, t.mask, link.slot, rest);
  }

  lemma UnlinkElems<T>(t: CTable<T>, link: Link)
    requires IsNodeLink(t, link)
    ensures var chain := t.slots[link.slot];
      Elems(t.slots[link.slot := chain[..link.index] + chain[link.index + 1..]]) + multiset{chain[link.index]} == Elems(t.slots)
      && |Elems(t.slots)| > 0
  {
    var chain := t.slots[link.slot];
    var node := chain[link.index];
    var rest := chain[..link.index] + chain[link.index + 1..];
    var slots := t.slots[link.slot := rest];
    assert chain == chain[..link.index] + [node] + chain[link.index + 1..];
    assert multiset(chain) == multiset(rest) + multiset{node};
    ElemsUpdate(t.slots, link.slot, rest);
    MultisetCancel(Elems(slots) + multiset{node}, Elems(t.slots), multiset(rest));
  }

  /**
   * `detach` (C++): a null link (the end of a chain) gives no node and
   * leaves the table alone; otherwise as `Detach`.
   */
  function DetachLink<T(==)>(t: CTable<T>, link: Link): (r: (CTable<T>, Option<HNode<T>>))
    requires Valid(t) && link.slot < |t.slots| && link.index <= |t.slots[link.slot]|
    ensures link.index == |t.slots[link.slot]| ==> r == (t, None)
    ensures link.index < |t.slots[link.slot]| ==>
      r.1 == Some(t.slots[link.slot][link.index]) && r.0 == Detach(t, link).0
  {
    if link.index == |t.slots[link.slot]| then (t, None)
    else
      var (t', node) := Detach(t, link);
      (t', Some(node))
  }

  lemma MultisetCancel<T>(a: multiset<T>, b: multiset<T>, c: multiset<T>)
    requires a + c == b + c
    ensures a == b
  {
    assert forall x :: a[x] == (a + c)[x] - c[x];
  }

  lemma {:induction false} EmptySlotsHaveNoElems<T>(slots: seq<seq<HNode<T>>>)
    requires forall i :: 0 <= i < |slots| ==> slots[i] == []
    ensures Elems(slots) == multiset{}
  {
    if slots != [] {
      EmptySlotsHaveNoElems(slots[..|slots| - 1]);
    }
  }

  lemma {:induction false} ElemsUpdate<T>(slots: seq<seq<HNode<T>>>, i: nat, c: seq<HNode<T>>)
    requires i < |slots|
    ensures Elems(slots[i := c]) + multiset(slots[i]) == Elems(slots) + multiset(c)
  {
    var last := |slots| - 1;
    var updated := slots[i := c];
    assert Elems(updated) == Elems(updated[..last]) + multiset(updated[last]);
    assert Elems(slots) == Elems(slots[..last]) + multiset(slots[last]);
    if i < last {
      assert updated[..last] == slots[..last][i := c];
      assert updated[last] == slots[last];
      assert slots[..last][i] == slots[i];
      ElemsUpdate(slots[..last], i, c);
      calc {
        Elems(updated) + multiset(slots[i]);
        Elems(slots[..last][i := c]) + multiset(slots[last]) + multiset(slots[i]);
        (Elems(slots[..last][i := c]) + multiset(slots[..last][i])) + multiset(slots[last]);
        Elems(slots[..last]) + multiset(c) + multiset(slots[last]);
        Elems(slots) + multiset(c);
      }
    } else {
      assert updated[..last] == slots[..last];
    }
  }

  /** A node of the table sits in some chain. */
  lemma {:induction false} ElemsMember<T>(slots: seq<seq<HNode<T>>>, n: HNode<T>)
    requires n in Elems(slots)
    ensures exists i :: 0 <= i < |slots| && n in slots[i]
  {
    var last := |slots| - 1;
    if n !in multiset(slots[last]) {
      ElemsMember(slots[..last], n);
      var i :| 0 <= i < last && n in slots[..last][i];
      assert slots[i] == slots[..last][i];
    }
  }

  /** A chain's nodes are nodes of the table. */
  lemma {:induction false} ChainInElems<T>(slots: seq<seq<HNode<T>>>, i: nat, n: HNode<T>)
    requires i < |slots| && n in slots[i]
    ensures n in Elems(slots)
  {
    var last := |slots| - 1;
    if i < last {
      assert slots[..last][i] == slots[i];
      ChainInElems(slots[..last], i, n);
    }
  }

  /**
   * A node that matches the key can only sit in the chain the key's code
   * selects, so a failed `lookUp` on a valid table means no node of the
   * table matches.
   */
  lemma NoMatchOutsideSlot<T>(t: CTable<T>, key: HNode<T>, eq: (T, T) -> bool)
    requires Valid(t) && Allocated(t)
    requires forall n :: n in t.slots[SlotOf(t, key.code)] ==> !Matches(n, key, eq)
    ensures forall n :: n in Elems(t.slots) ==> !Matches(n, key, eq)
  {
    forall n | n in Elems(t.slots)
      ensures !Matches(n, key, eq)
    {
      ElemsMember(t.slots, n);
      var i :| 0 <= i < |t.slots| && n in t.slots[i];
      var j :| 0 <= j < |t.slots[i]| && t.slots[i][j] == n;
      assert AndBits(n.code, t.mask) == i;
    }
  }

  /** A node the table-level `lookUp` finds is a node of the table. */
  lemma LinkedNodeInElems<T>(t: CTable<T>, link: Link)
    requires IsNodeLink(t, link)
    ensures t.slots[link.slot][link.index] in Elems(t.slots)
  {
    ChainInElems(t.slots, link.slot, t.slots[link.slot][link.index]);
  }
}
