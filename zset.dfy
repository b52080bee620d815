/**
 * The sorted set (`ZSet`): each member is a node that sits at once in an
 * AVL tree ordered by `zLess` and in a hash map keyed by its name. Nodes
 * are numbered: the tree records live in an `AvlPool`, the score and name
 * of node id in `znodes[id]`, and the map holds, for each member, a node
 * whose code is the hash of the name and whose payload names the member.
 *
 * `Valid` ties the two indexes together: the tree is an AVL tree sorted by
 * `zLess`, no two members share a name, and the map holds exactly the map
 * nodes of the tree's members. `Members` is the pairs in tree order.
 */
module ZSet {
  import opened Wire
  import opened StringHash
  import opened HashTable
  import opened HashMap
  import opened AvlTree
  import opened Avl
  import opened ZOrder

  /** The payload of a map node: a member (its id and name), or the name of a lookup `Key`. */
  datatype MapItem = Member(id: nat, name: bytes) | Key(name: bytes)

  /** `mapCmp`: the same length and the same bytes, that is, the same name. */
  function MapCmp(node: MapItem, key: MapItem): (r: bool)
    ensures r <==> node.name == key.name
  {
    assert node.name[..|node.name|] == node.name;
    |node.name| == |key.name| && Memcmp(node.name, key.name, |node.name|) == 0
  }

  /** The map node of each node id: the hash of its name and a payload naming it. */
  function MapNodes(znodes: seq<ZNode>): (r: seq<HNode<MapItem>>)
    ensures |r| == |znodes|
  {
    seq(|znodes|, id requires 0 <= id < |znodes| => HNode(Hash(znodes[id].name), Member(id, znodes[id].name)))
  }

  /** No two ids of s name members of the same name. */
  predicate NamesDistinct(znodes: seq<ZNode>, s: seq<nat>)
    requires HasKeys(znodes, s)
  {
    forall i, j :: 0 <= i < j < |s| ==> znodes[s[i]].name != znodes[s[j]].name
  }

  /** A node of the map is the map node of one of the ids of s. */
  lemma MapMember(znodes: seq<ZNode>, s: seq<nat>, n: HNode<MapItem>)
    requires HasKeys(znodes, s) && n in multiset(KeysOf(MapNodes(znodes), s))
    ensures n.item.Member? && n.item.id in s && n.item.id < |znodes|
    ensures n == MapNodes(znodes)[n.item.id] && n.item.name == znodes[n.item.id].name
  {
    var i :| 0 <= i < |s| && KeysOf(MapNodes(znodes), s)[i] == n;
  }

  /** When no map node matches the key of a name, no member has that name. */
  lemma NoMemberNamed(znodes: seq<ZNode>, s: seq<nat>, key: HNode<MapItem>)
    requires HasKeys(znodes, s) && key.code == Hash(key.item.name)
    requires forall n :: n in multiset(KeysOf(MapNodes(znodes), s)) ==> !Matches(n, key, MapCmp)
    ensures forall z :: z in KeysOf(znodes, s) ==> z.name != key.item.name
  {
    forall z | z in KeysOf(znodes, s)
      ensures z.name != key.item.name
    {
      var i :| 0 <= i < |s| && KeysOf(znodes, s)[i] == z;
      assert KeysOf(MapNodes(znodes), s)[i] in multiset(KeysOf(MapNodes(znodes), s));
    }
  }

  /** Names stay distinct when a node whose name is new joins. */
  lemma NamesInsert(znodes: seq<ZNode>, s: seq<nat>, i: nat, x: nat)
    requires i <= |s| && x < |znodes| && HasKeys(znodes, s) && NamesDistinct(znodes, s)
    requires forall j :: 0 <= j < |s| ==> znodes[s[j]].name != znodes[x].name
    ensures HasKeys(znodes, s[..i] + [x] + s[i..]) && NamesDistinct(znodes, s[..i] + [x] + s[i..])
  {
    var s' := s[..i] + [x] + s[i..];
    assert forall j :: 0 <= j < |s'| ==> s'[j] == if j < i then s[j] else if j == i then x else s[j - 1];
  }

  /** Names stay distinct when a node leaves, and none of the rest has its name. */
  lemma NamesDrop(znodes: seq<ZNode>, s: seq<nat>, r: nat)
    requires r < |s| && HasKeys(znodes, s) && NamesDistinct(znodes, s)
    ensures HasKeys(znodes, s[..r] + s[r + 1..]) && NamesDistinct(znodes, s[..r] + s[r + 1..])
    ensures forall x :: x in s[..r] + s[r + 1..] ==> x < |znodes| && znodes[x].name != znodes[s[r]].name
  {
    var s' := s[..r] + s[r + 1..];
    assert forall j :: 0 <= j < |s'| ==> s'[j] == if j < r then s[j] else s[j + 1];
  }

  /** Names stay distinct when the names of the nodes of s do not change. */
  lemma NamesFrame(znodes: seq<ZNode>, znodes': seq<ZNode>, s: seq<nat>)
    requires HasKeys(znodes, s) && HasKeys(znodes', s) && NamesDistinct(znodes, s)
    requires forall i :: 0 <= i < |s| ==> znodes'[s[i]].name == znodes[s[i]].name
    ensures NamesDistinct(znodes', s)
  {
  }

  /** A new score for a node outside s changes neither the order, the names nor the keys of s, nor any map node. */
  lemma Rescore(znodes: seq<ZNode>, s: seq<nat>, id: nat, score: real)
    requires id < |znodes| && id !in s && HasKeys(znodes, s) && SortedBy(znodes, s, ZLess) && NamesDistinct(znodes, s)
    ensures var znodes' := znodes[id := ZNode(score, znodes[id].name)];
      HasKeys(znodes', s) && SortedBy(znodes', s, ZLess) && NamesDistinct(znodes', s)
      && KeysOf(znodes', s) == KeysOf(znodes, s) && MapNodes(znodes') == MapNodes(znodes)
  {
    var znodes' := znodes[id := ZNode(score, znodes[id].name)];
    assert forall i :: 0 <= i < |s| ==> s[i] != id;
    SortedByFrame(znodes, znodes', s, ZLess);
    NamesFrame(znodes, znodes', s);
    KeysOfFrame(znodes, znodes', s);
  }

  /**
   * Taking the node at rank out of s and putting it back at i, with a new
   * key and every other key unchanged, swaps its key in the multiset.
   */
  lemma Reposition<K>(keys: seq<K>, keys': seq<K>, s: seq<nat>, rank: nat, i: nat)
    requires rank < |s| && HasKeys(keys, s) && |keys'| == |keys|
    requires var s1 := s[..rank] + s[rank + 1..];
      i <= |s1| && forall j :: 0 <= j < |s1| ==> keys'[s1[j]] == keys[s1[j]]
    ensures var s1 := s[..rank] + s[rank + 1..];
      HasKeys(keys', s1[..i] + [s[rank]] + s1[i..])
      && multiset(KeysOf(keys', s1[..i] + [s[rank]] + s1[i..]))
         == multiset(KeysOf(keys, s)) - multiset{keys[s[rank]]} + multiset{keys'[s[rank]]}
  {
    var s1 := s[..rank] + s[rank + 1..];
    DropKey(keys, s, rank);
    KeysOfFrame(keys, keys', s1);
    AddKey(keys', s1, i, s[rank]);
  }

  /** Taking the node at rank out of s and putting it back at i, keys unchanged, keeps the multiset of keys. */
  lemma RepositionSameKeys<K>(keys: seq<K>, s: seq<nat>, rank: nat, i: nat)
    requires rank < |s| && HasKeys(keys, s) && i <= |s| - 1
    ensures var s1 := s[..rank] + s[rank + 1..];
      HasKeys(keys, s1[..i] + [s[rank]] + s1[i..])
      && multiset(KeysOf(keys, s1[..i] + [s[rank]] + s1[i..])) == multiset(KeysOf(keys, s))
  {
    var s1 := s[..rank] + s[rank + 1..];
    DropKey(keys, s, rank);
    AddKey(keys, s1, i, s[rank]);
  }

  /** The multiset of keys of s without the node at rank is what is left when that node's key is taken out. */
  lemma DropMapNode<K>(keys: seq<K>, s: seq<nat>, rank: nat, m: multiset<K>)
    requires rank < |s| && HasKeys(keys, s) && m + multiset{keys[s[rank]]} == multiset(KeysOf(keys, s))
    ensures HasKeys(keys, s[..rank] + s[rank + 1..]) && m == multiset(KeysOf(keys, s[..rank] + s[rank + 1..]))
  {
    DropKey(keys, s, rank);
    MultisetCancel(m, multiset(KeysOf(keys, s[..rank] + s[rank + 1..])), multiset{keys[s[rank]]});
  }

  /** When no node of s has the name, no pair of s has it. */
  lemma OtherNames(znodes: seq<ZNode>, s: seq<nat>, name: bytes)
    requires forall x :: x in s ==> x < |znodes| && znodes[x].name != name
    ensures HasKeys(znodes, s) && forall z :: z in KeysOf(znodes, s) ==> z.name != name
  {
    assert forall j :: 0 <= j < |s| ==> s[j] in s;
    forall z | z in KeysOf(znodes, s)
      ensures z.name != name
    {
      var j :| 0 <= j < |s| && KeysOf(znodes, s)[j] == z;
      assert s[j] in s;
    }
  }

  /** The records spell t, an AVL tree rooted at root, sorted by `zLess`, whose members have distinct names. */
  ghost predicate SortedTree(nodes: seq<AvlNode>, t: Tree, root: Ptr, znodes: seq<ZNode>)
  {
    IsAvl(nodes, t, None) && root == RootPtr(t) && |znodes| == |nodes|
    && HasKeys(znodes, Inorder(t)) && SortedBy(znodes, Inorder(t), ZLess)
    && NamesDistinct(znodes, Inorder(t))
  }

  /** `init` of a record outside the tree leaves the tree as it was. */
  lemma InitOutside(nodes: seq<AvlNode>, nodes': seq<AvlNode>, t: Tree, root: Ptr, znodes: seq<ZNode>, id: nat)
    requires SortedTree(nodes, t, root, znodes) && id < |nodes| && id !in Ids(t) && nodes' == nodes[id := Leaf]
    ensures SortedTree(nodes', t, root, znodes)
  {
    LinkedFrame(nodes, nodes', t, None, {id});
    CachedFrame(nodes, nodes', t, {id});
  }

  /** Where the walk of `zQuery` falls off the tree, the first node after it is the first not less than the key. */
  lemma {:induction false} QueryEnds(znodes: seq<ZNode>, t: Tree, ctx: seq<Frame>, key: ZNode)
    requires Distinct(t) && HasKeys(znodes, Inorder(t)) && Plug(ctx, Nil) == t && LowerBrackets(znodes, ctx, key, ZLess)
    ensures CtxRight(ctx) == [] ==> forall z :: z in KeysOf(znodes, Inorder(t)) ==> ZLess(z, key)
    ensures CtxRight(ctx) != [] ==> var x := CtxRight(ctx)[0];
      x in Ids(t) && x < |znodes| && !ZLess(znodes[x], key) && Rank(t, x) == |CtxLeft(ctx)|
    ensures forall j :: 0 <= j < |CtxLeft(ctx)| ==> j < |Inorder(t)| && ZLess(KeysOf(znodes, Inorder(t))[j], key)
  {
    InorderPlug(ctx, Nil);
    var s := Inorder(t);
    assert s == CtxLeft(ctx) + CtxRight(ctx);
    QueryBefore(znodes, s, CtxLeft(ctx), CtxRight(ctx), key);
    if CtxRight(ctx) != [] {
      FirstAfter(t, CtxLeft(ctx), CtxRight(ctx));
      assert CtxRight(ctx)[0] in CtxRight(ctx);
    }
  }

  /** The first node after the in-order prefix left is in the tree, with rank |left|. */
  lemma FirstAfter(t: Tree, left: seq<nat>, right: seq<nat>)
    requires Distinct(t) && Inorder(t) == left + right && right != []
    ensures right[0] in Ids(t) && Rank(t, right[0]) == |left|
  {
    assert Inorder(t)[|left|] == right[0];
    InorderIds(t);
    RankUnique(t, right[0], |left|);
  }

  /** The nodes before the end of the walk of `zQuery` are less than the key: all of them when none come after. */
  lemma QueryBefore(znodes: seq<ZNode>, s: seq<nat>, left: seq<nat>, right: seq<nat>, key: ZNode)
    requires s == left + right && HasKeys(znodes, s)
    requires forall x :: x in left ==> x < |znodes| && ZLess(znodes[x], key)
    ensures forall j :: 0 <= j < |left| ==> ZLess(KeysOf(znodes, s)[j], key)
    ensures right == [] ==> forall z :: z in KeysOf(znodes, s) ==> ZLess(z, key)
  {
    forall j | 0 <= j < |left|
      ensures ZLess(KeysOf(znodes, s)[j], key)
    {
      assert s[j] == left[j];
    }
  }

  /** A name no member has differs from the name of every node of s. */
  lemma FreshName(znodes: seq<ZNode>, s: seq<nat>, name: bytes)
    requires HasKeys(znodes, s) && forall z :: z in KeysOf(znodes, s) ==> z.name != name
    ensures forall j :: 0 <= j < |s| ==> znodes[s[j]].name != name
  {
    forall j | 0 <= j < |s|
      ensures znodes[s[j]].name != name
    {
      assert KeysOf(znodes, s)[j] == znodes[s[j]];
    }
  }

  class ZSet {
    /** `tree`: the root of the AVL tree. */
    var tree: Ptr
    /** `map`: the hash map from names to members. */
    const hmap: CMap<MapItem>
    /** The tree records of every node ever allocated. */
    const pool: AvlPool
    /** The score and name of every node ever allocated, by id. */
    var znodes: seq<ZNode>
    /** The shape the tree records spell. */
    ghost var shape: Tree

    /** The tree half of `Valid`. */
    ghost predicate TreeValid()
      reads this, pool
    {
      SortedTree(pool.nodes, shape, tree, znodes)
    }

    /** The tree as above, and the map holds exactly the map nodes of the tree's members. */
    ghost predicate Valid()
      reads this, pool, hmap
    {
      TreeValid() && hmap.Valid() && hmap.Contents() == multiset(KeysOf(MapNodes(znodes), Inorder(shape)))
    }

    /** The members in tree order. */
    ghost function Members(): seq<ZNode>
      reads this, pool
      requires TreeValid()
    {
      KeysOf(znodes, Inorder(shape))
    }

    /** An empty set: no tree and an empty map. */
    constructor ()
      ensures Valid() && Members() == [] && tree.None? && fresh(hmap) && fresh(pool)
    {
      tree := None;
      hmap := new CMap();
      pool := new AvlPool();
      znodes := [];
      shape := Nil;
    }

    /** In a valid set the members strictly increase by `zLess`: each pair is a member at most once. */
    lemma MembersIncrease()
      requires TreeValid()
      ensures forall i, j :: 0 <= i < j < |Members()| ==> ZLess(Members()[i], Members()[j])
    {
      forall i, j | 0 <= i < j < |Members()|
        ensures ZLess(Members()[i], Members()[j])
      {
        ZLessTotal(Members()[i], Members()[j]);
      }
    }

    /** A node of the tree holds a member. */
    lemma MemberOf(id: nat)
      requires TreeValid() && id in Ids(shape)
      ensures id < |znodes| && znodes[id] in Members()
    {
      RankIndex(shape, id);
      assert Members()[Rank(shape, id)] == znodes[id];
    }

    /**
     * `zLookUp`: nothing for an empty tree; else looks the name up in the
     * map, which may migrate a few map nodes first. It finds only a member
     * of that name, and finds nothing only when there is none.
     */
    method LookUp(name: bytes) returns (r: Option<nat>)
      requires Valid()
      modifies hmap
      ensures Valid()
      ensures r.Some? ==> r.value in Ids(shape) && r.value < |znodes| && znodes[r.value].name == name
      ensures r.None? ==> forall z :: z in Members() ==> z.name != name
    {
      if tree.None? {
        return None;
      }
      var code := ComputeHash(name);
      var key := HNode(code, Key(name));
      var found := hmap.LookUp(key, MapCmp);
      if found.None? {
        NoMemberNamed(znodes, Inorder(shape), key);
        return None;
      }
      MapMember(znodes, Inorder(shape), found.value);
      InorderIds(shape);
      return Some(found.value.item.id);
    }

    /**
     * The search loop of `treeAdd` and the `fix` after it: the node goes
     * left of every node it is less than and right of the others, and the
     * tree is rebalanced.
     */
    method TreeAdd(id: nat) returns (ghost i: nat)
      requires TreeValid() && id < |znodes| && pool.nodes[id] == Leaf && id !in Ids(shape)
      requires forall j :: 0 <= j < |Inorder(shape)| ==> znodes[Inorder(shape)[j]].name != znodes[id].name
      modifies this, pool
      ensures TreeValid() && znodes == old(znodes)
      ensures i <= |old(Inorder(shape))| && Inorder(shape) == old(Inorder(shape))[..i] + [id] + old(Inorder(shape))[i..]
    {
      ZLessIsStrictWeakOrder();
      ghost var s := Inorder(shape);
      var r, t', i' := pool.InsertBy(tree, id, znodes, ZLess, shape);
      NamesInsert(znodes, s, i', id);
      assert SortedTree(pool.nodes, t', Some(r), znodes);
      tree, shape := Some(r), t';
      i := i';
    }

    /**
     * `zNew`: a fresh `init`ed node holding the score and the name, whose
     * map node carries the hash of the name. It is in neither the tree nor
     * the map yet, so the set is unchanged.
     */
    method New(name: bytes, score: real) returns (id: nat, node: HNode<MapItem>)
      requires Valid()
      modifies this, pool
      ensures Valid() && Members() == old(Members()) && shape == old(shape)
      ensures id == old(|znodes|) && znodes == old(znodes) + [ZNode(score, name)]
      ensures pool.nodes == old(pool.nodes) + [Leaf] && id !in Ids(shape)
      ensures node == MapNodes(znodes)[id] && node.code == Hash(name)
    {
      ghost var s := Inorder(shape);
      LinkedInPool(pool.nodes, shape, None);
      Extended(pool.nodes, Leaf, shape, None);
      id := pool.Alloc();
      var code := ComputeHash(name);
      znodes := znodes + [ZNode(score, name)];
      node := HNode(code, Member(id, name));
      SortedByFrame(old(znodes), znodes, s, ZLess);
      NamesFrame(old(znodes), znodes, s);
      KeysOfFrame(old(znodes), znodes, s);
      KeysOfFrame(MapNodes(old(znodes)), MapNodes(znodes), s);
    }

    /**
     * `zUpdate`: nothing happens when the score is unchanged; otherwise the
     * node is `del`eted from the tree, gets the new score, is `init`ed and
     * added back. The member of that name now has the new score; the map
     * keeps the same nodes, since the name did not change.
     */
    method Update(id: nat, score: real)
      requires Valid() && id in Ids(shape) && id < |znodes|
      modifies this, pool
      ensures Valid()
      ensures znodes == old(znodes)[id := ZNode(score, old(znodes[id].name))]
      ensures old(znodes[id].score) == score ==> shape == old(shape) && tree == old(tree) && pool.nodes == old(pool.nodes)
      ensures multiset(Members()) == multiset(old(Members())) - multiset{old(znodes[id])} + multiset{ZNode(score, old(znodes[id].name))}
    {
      if znodes[id].score == score {
        assert znodes[id := ZNode(score, znodes[id].name)] == znodes;
        MemberOf(id);
        return;
      }
      ghost var s, before := Inorder(shape), znodes;
      ghost var rank := Unplace(id, score);
      ghost var i := TreeAdd(id);
      Reposition(before, znodes, s, rank, i);
      RepositionSameKeys(MapNodes(znodes), s, rank, i);
    }

    /**
     * `zAdd`: when a member of that name exists, `zUpdate`s its score and
     * returns false; otherwise makes a node with `zNew`, inserts its map
     * node and adds it to the tree, and returns true. Either way the set
     * then holds the pair, and no other pair changes.
     */
    method Add(name: bytes, score: real) returns (added: bool)
      requires Valid()
      modifies this, pool, hmap
      ensures Valid()
      ensures added <==> forall z :: z in old(Members()) ==> z.name != name
      ensures added ==> multiset(Members()) == multiset(old(Members())) + multiset{ZNode(score, name)}
      ensures !added ==> exists z :: (z in old(Members()) && z.name == name
        && multiset(Members()) == multiset(old(Members())) - multiset{z} + multiset{ZNode(score, name)})
    {
      var found := LookUp(name);
      if found.Some? {
        MemberOf(found.value);
        Update(found.value, score);
        return false;
      }
      Insert(name, score);
      added := true;
    }

    /** The new-member branch of `zAdd`: `zNew`, `CMapInsert`, `treeAdd`. */
    method Insert(name: bytes, score: real)
      requires Valid() && forall z :: z in Members() ==> z.name != name
      modifies this, pool, hmap
      ensures Valid() && multiset(Members()) == multiset(old(Members())) + multiset{ZNode(score, name)}
    {
      ghost var s := Inorder(shape);
      var id, node := New(name, score);
      ghost var contents := hmap.Contents();
      hmap.Insert(node);
      FreshName(znodes, s, name);
      assert pool.nodes[id] == Leaf && znodes[id].name == name;
      ghost var i := TreeAdd(id);
      AddKey(znodes, s, i, id);
      AddKey(MapNodes(znodes), s, i, id);
      assert Inorder(shape) == s[..i] + [id] + s[i..];
      assert contents == multiset(KeysOf(MapNodes(znodes), s));
      assert hmap.Contents() == contents + multiset{node};
    }

    /**
     * `zPop`: nothing for an empty tree; else pops the map node of that
     * name and, when there was one, `del`etes its node from the tree and
     * returns it. The popped node keeps its score and name; afterwards no
     * member has that name.
     */
    method Pop(name: bytes) returns (r: Option<nat>)
      requires Valid()
      modifies this, pool, hmap
      ensures Valid() && znodes == old(znodes)
      ensures r.None? ==> Members() == old(Members()) && forall z :: z in Members() ==> z.name != name
      ensures r.Some? ==> (r.value < |znodes| && znodes[r.value].name == name
        && multiset(Members()) + multiset{znodes[r.value]} == multiset(old(Members())))
      ensures forall z :: z in Members() ==> z.name != name
    {
      if tree.None? {
        return None;
      }
      var code := ComputeHash(name);
      var key := HNode(code, Key(name));
      var found := hmap.Pop(key, MapCmp);
      if found.None? {
        NoMemberNamed(znodes, Inorder(shape), key);
        return None;
      }
      MapMember(znodes, Inorder(shape), found.value);
      var id := found.value.item.id;
      InorderIds(shape);
      Remove(id);
      r := Some(id);
    }

    /** The found branch of `zPop`: the node's map node is already out of the map; `del` takes it out of the tree. */
    method Remove(id: nat)
      requires TreeValid() && id in Ids(shape) && id < |znodes| && hmap.Valid()
      requires hmap.Contents() + multiset{MapNodes(znodes)[id]} == multiset(KeysOf(MapNodes(znodes), Inorder(shape)))
      modifies this, pool
      ensures Valid() && znodes == old(znodes) && id < |znodes|
      ensures multiset(Members()) + multiset{znodes[id]} == multiset(old(Members()))
      ensures forall z :: z in Members() ==> z.name != znodes[id].name
    {
      ghost var s := Inorder(shape);
      ghost var rank := TreeRemove(id);
      DropKey(znodes, s, rank);
      DropMapNode(MapNodes(znodes), s, rank, hmap.Contents());
      NamesDrop(znodes, s, rank);
      OtherNames(znodes, Inorder(shape), znodes[id].name);
    }

    /**
     * `zQuery`: walks down from the root, right past nodes less than the
     * pair (score, name) and left otherwise, remembering the last node it
     * went left from. That is the first member, in order, that is not less
     * than the pair: nothing when every member is less.
     */
    method Query(score: real, name: bytes) returns (r: Ptr)
      requires TreeValid()
      ensures r.None? ==> forall z :: z in Members() ==> ZLess(z, ZNode(score, name))
      ensures r.Some? ==> r.value in Ids(shape) && r.value < |znodes| && !ZLess(znodes[r.value], ZNode(score, name))
      ensures r.Some? ==> forall j :: 0 <= j < |Members()| && j < Rank(shape, r.value) ==> ZLess(Members()[j], ZNode(score, name))
    {
      var key := ZNode(score, name);
      ZLessIsStrictWeakOrder();
      var found: Ptr := None;
      var curr := tree;
      ghost var ctx: seq<Frame>, sub := [], shape;
      while curr.Some?
        invariant Plug(ctx, sub) == shape && curr == RootPtr(sub)
        invariant LowerBrackets(znodes, ctx, key, ZLess)
        invariant found == if CtxRight(ctx) == [] then None else Some(CtxRight(ctx)[0])
        decreases Size(sub)
      {
        var c := curr.value;
        LinksAt(pool.nodes, shape, ctx, sub);
        Descend(ctx, sub);
        if ZLess(znodes[c], key) {
          DescendRightLower(znodes, ctx, sub, key, ZLess);
          curr := pool.nodes[c].right;
          ctx, sub := [RightFrame(sub)] + ctx, sub.right;
        } else {
          DescendLeftLower(znodes, ctx, sub, key, ZLess);
          found := curr;
          curr := pool.nodes[c].left;
          ctx, sub := [LeftFrame(sub)] + ctx, sub.left;
        }
      }
      QueryEnds(znodes, shape, ctx, key);
      r := found;
    }

    /**
     * `zOffset`: nothing for no node; else the node `offset` places the
     * given number of places away in order, whose pair is the member at
     * that rank; nothing when that rank is outside the set.
     */
    method Offset(node: Ptr, off: int) returns (r: Ptr)
      requires TreeValid() && (node.Some? ==> node.value in Ids(shape))
      ensures node.None? ==> r.None?
      ensures node.Some? ==> var i := Rank(shape, node.value) + off;
        (r.Some? <==> 0 <= i < |Members()|) && (r.Some? ==> r.value < |znodes| && znodes[r.value] == Members()[i])
    {
      if node.None? {
        return None;
      }
      r := pool.Offset(node.value, off, shape);
    }

    /** `zDispose`: `CMapDestroy` on the map; the nodes themselves are left to the caller. */
    method Dispose()
      modifies hmap
      ensures hmap.Valid() && hmap.Contents() == multiset{}
    {
      hmap.Destroy();
    }

    /** The first half of `zUpdate`: `del` from the tree, the new score, `init`. */
    method Unplace(id: nat, score: real) returns (ghost rank: nat)
      requires TreeValid() && id in Ids(shape) && id < |znodes|
      modifies this, pool
      ensures TreeValid() && id < |znodes| && id !in Ids(shape) && pool.nodes[id] == Leaf
      ensures znodes == old(znodes)[id := ZNode(score, old(znodes[id].name))]
      ensures rank < |old(Inorder(shape))| && old(Inorder(shape))[rank] == id
      ensures Inorder(shape) == old(Inorder(shape))[..rank] + old(Inorder(shape))[rank + 1..]
      ensures MapNodes(znodes) == MapNodes(old(znodes)) && KeysOf(znodes, Inorder(shape)) == KeysOf(old(znodes), Inorder(shape))
      ensures forall j :: 0 <= j < |Inorder(shape)| ==> znodes[Inorder(shape)[j]].name != znodes[id].name
    {
      ghost var s := Inorder(shape);
      RankIndex(shape, id);
      NamesDrop(znodes, s, Rank(shape, id));
      rank := TreeRemove(id);
      ghost var s1 := Inorder(shape);
      InorderIds(shape);
      Rescore(znodes, s1, id, score);
      znodes := znodes[id := ZNode(score, znodes[id].name)];
      ghost var before := pool.nodes;
      pool.Init(id);
      InitOutside(before, pool.nodes, shape, tree, znodes, id);
    }

    /** `set->tree = del(&node->tree)`: the node leaves the tree; the map is not touched. */
    method TreeRemove(id: nat) returns (ghost rank: nat)
      requires TreeValid() && id in Ids(shape)
      modifies this, pool
      ensures TreeValid() && znodes == old(znodes)
      ensures rank < |old(Inorder(shape))| && old(Inorder(shape))[rank] == id
      ensures Inorder(shape) == old(Inorder(shape))[..rank] + old(Inorder(shape))[rank + 1..]
      ensures id !in Ids(shape) && |pool.nodes| == old(|pool.nodes|)
    {
      RankIndex(shape, id);
      rank := Rank(shape, id);
      ghost var s := Inorder(shape);
      SortedDrop(znodes, s, rank, ZLess);
      NamesDrop(znodes, s, rank);
      var r, t' := pool.Del(id, shape);
      assert Inorder(t') == s[..rank] + s[rank + 1..];
      assert SortedTree(pool.nodes, t', r, znodes);
      tree, shape := r, t';
    }
  }
}
