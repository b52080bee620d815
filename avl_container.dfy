/**
 * The helpers that drive the AVL tree in its unit tests: a `Container`
 * holding the root of a tree of `Data` nodes, each carrying a value, with
 * insertion by value (`add`) and deletion of one node holding a value
 * (`del`). The tree records live in an `AvlPool` and the values in `vals`,
 * both by node id.
 *
 * `Valid` is what the tests' `verify` checks after every step: parent
 * links, cached depth and count, balance, and values in order; `Values`
 * is what `extract` collects, the values in order.
 */
module AvlContainer {
  import opened Wire
  import opened AvlTree
  import opened Avl

  /** The comparison of `add`: `val < nodeValue` sends the walk left. */
  function Below(a: int, b: int): bool
  {
    a < b
  }

  lemma BelowIsStrictWeakOrder()
    ensures StrictWeakOrder(Below)
  {
  }

  /** The values before a path are below val and those after it above val: a node holding val is below the path. */
  ghost predicate Excludes(vals: seq<int>, ctx: seq<Frame>, val: int)
  {
    (forall x :: x in CtxLeft(ctx) ==> x < |vals| && vals[x] < val)
    && (forall x :: x in CtxRight(ctx) ==> x < |vals| && val < vals[x])
  }

  /** The search of `del` going left, at a node whose value is above val. */
  lemma SearchLeft(vals: seq<int>, ctx: seq<Frame>, sub: Tree, val: int)
    requires sub.Node? && Excludes(vals, ctx, val)
    requires HasKeys(vals, Inorder(Plug(ctx, sub))) && SortedBy(vals, Inorder(Plug(ctx, sub)), Below)
    requires sub.id < |vals| && val < vals[sub.id]
    ensures Excludes(vals, [LeftFrame(sub)] + ctx, val)
  {
    InorderAround(ctx, sub);
    OrderAround(vals, Inorder(Plug(ctx, sub)), CtxLeft(ctx), Inorder(sub.left), sub.id, Inorder(sub.right), CtxRight(ctx), Below);
    var ctx' := [LeftFrame(sub)] + ctx;
    assert ctx'[1..] == ctx;
    assert CtxLeft(ctx') == CtxLeft(ctx);
    assert CtxRight(ctx') == [sub.id] + Inorder(sub.right) + CtxRight(ctx);
  }

  /** The search of `del` going right, at a node whose value is below val. */
  lemma SearchRight(vals: seq<int>, ctx: seq<Frame>, sub: Tree, val: int)
    requires sub.Node? && Excludes(vals, ctx, val)
    requires HasKeys(vals, Inorder(Plug(ctx, sub))) && SortedBy(vals, Inorder(Plug(ctx, sub)), Below)
    requires sub.id < |vals| && vals[sub.id] < val
    ensures Excludes(vals, [RightFrame(sub)] + ctx, val)
  {
    InorderAround(ctx, sub);
    OrderAround(vals, Inorder(Plug(ctx, sub)), CtxLeft(ctx), Inorder(sub.left), sub.id, Inorder(sub.right), CtxRight(ctx), Below);
    var ctx' := [RightFrame(sub)] + ctx;
    assert ctx'[1..] == ctx;
    assert CtxLeft(ctx') == CtxLeft(ctx) + Inorder(sub.left) + [sub.id];
    assert CtxRight(ctx') == CtxRight(ctx);
  }

  /** A search that falls off the tree has seen every value around it: val is not in the tree. */
  lemma SearchMisses(vals: seq<int>, ctx: seq<Frame>, val: int)
    requires Excludes(vals, ctx, val) && HasKeys(vals, Inorder(Plug(ctx, Nil)))
    ensures val !in KeysOf(vals, Inorder(Plug(ctx, Nil)))
  {
    InorderPlug(ctx, Nil);
    var s := Inorder(Plug(ctx, Nil));
    assert s == CtxLeft(ctx) + CtxRight(ctx);
    forall i | 0 <= i < |s|
      ensures vals[s[i]] != val
    {
      if i < |CtxLeft(ctx)| {
        assert s[i] in CtxLeft(ctx);
      } else {
        assert s[i] == CtxRight(ctx)[i - |CtxLeft(ctx)|];
      }
    }
  }

  /** Dropping the node at rank keeps the values sorted, and drops exactly its value. */
  lemma DropValue(vals: seq<int>, s: seq<nat>, rank: nat)
    requires rank < |s| && HasKeys(vals, s) && SortedBy(vals, s, Below)
    ensures HasKeys(vals, s[..rank] + s[rank + 1..]) && SortedBy(vals, s[..rank] + s[rank + 1..], Below)
    ensures vals[s[rank]] in KeysOf(vals, s)
    ensures multiset(KeysOf(vals, s[..rank] + s[rank + 1..])) + multiset{vals[s[rank]]} == multiset(KeysOf(vals, s))
  {
    assert KeysOf(vals, s)[rank] == vals[s[rank]];
    DropKey(vals, s, rank);
    SortedDrop(vals, s, rank, Below);
  }

  class Container {
    /** The root of the tree. */
    var root: Ptr
    /** The tree records of all nodes ever allocated. */
    const pool: AvlPool
    /** The value of each node, by id. */
    var vals: seq<int>
    /** The shape the records spell. */
    ghost var shape: Tree

    ghost predicate Valid()
      reads this, pool
    {
      IsAvl(pool.nodes, shape, None) && root == RootPtr(shape) && |vals| == |pool.nodes|
      && HasKeys(vals, Inorder(shape)) && SortedBy(vals, Inorder(shape), Below)
    }

    /** The values of the tree in order: what `extract` collects. */
    ghost function Values(): seq<int>
      reads this, pool
      requires Valid()
    {
      KeysOf(vals, Inorder(shape))
    }

    /** An empty container. */
    constructor ()
      ensures Valid() && Values() == [] && root.None? && fresh(pool)
    {
      root := None;
      pool := new AvlPool();
      vals := [];
      shape := Nil;
    }

    /**
     * `add`: allocates and `init`s a node holding val, walks down from the
     * root (left when val is below the node's value), hangs the node where
     * the walk ends and `fix`es from it. The tree stays valid and its
     * values gain exactly one val, duplicates included; the root's count
     * is the number of values.
     */
    method Add(val: int)
      requires Valid()
      modifies this, pool
      ensures Valid() && vals == old(vals) + [val]
      ensures multiset(Values()) == multiset(old(Values())) + multiset{val}
      ensures Count(pool.nodes, root) == |Values()|
    {
      Extended(pool.nodes, Leaf, shape, None);
      var id := pool.Alloc();
      vals := vals + [val];
      LinkedInPool(old(pool.nodes), shape, None);
      SortedByFrame(old(vals), vals, Inorder(shape), Below);
      BelowIsStrictWeakOrder();
      var r, t', i := pool.InsertBy(root, id, vals, Below, shape);
      ghost var s := Inorder(shape);
      AddKey(vals, s, i, id);
      assert KeysOf(vals, s) == KeysOf(old(vals), s);
      root, shape := Some(r), t';
      assert Values() == KeysOf(vals, s[..i] + [id] + s[i..]);
    }

    /**
     * The search loop of `del`: from the root, stop at a node holding val,
     * else go left when val is below the node's value and right when it
     * is above. Returns that node, or None when the walk falls off the
     * tree, in which case no node holds val.
     */
    method Find(val: int) returns (curr: Ptr)
      requires Valid()
      ensures curr.Some? ==> curr.value in Ids(shape) && curr.value < |vals| && vals[curr.value] == val
      ensures curr.None? ==> val !in Values()
    {
      curr := root;
      ghost var ctx: seq<Frame>, sub := [], shape;
      while curr.Some?
        invariant Plug(ctx, sub) == shape && curr == RootPtr(sub) && Excludes(vals, ctx, val)
        decreases Size(sub)
      {
        var c := curr.value;
        LinksAt(pool.nodes, shape, ctx, sub);
        Descend(ctx, sub);
        if val == vals[c] {
          IdsPlug(ctx, sub);
          return;
        }
        if val < vals[c] {
          SearchLeft(vals, ctx, sub, val);
          curr := pool.nodes[c].left;
          ctx, sub := [LeftFrame(sub)] + ctx, sub.left;
        } else {
          SearchRight(vals, ctx, sub, val);
          curr := pool.nodes[c].right;
          ctx, sub := [RightFrame(sub)] + ctx, sub.right;
        }
      }
      SearchMisses(vals, ctx, val);
    }

    /**
     * `del`: `Find`s a node holding val; when there is none, returns
     * false and changes nothing, else `del`s that node from the tree and
     * returns true. The tree stays valid and its values lose exactly one
     * val.
     */
    method Del(val: int) returns (found: bool)
      requires Valid()
      modifies this, pool
      ensures Valid() && vals == old(vals)
      ensures found <==> val in old(Values())
      ensures multiset(Values()) == multiset(old(Values())) - multiset{val}
      ensures Count(pool.nodes, root) == |Values()|
    {
      var curr := Find(val);
      if curr.None? {
        assert multiset(Values())[val] == 0;
        return false;
      }
      Remove(curr.value);
      found := true;
    }

    /** `root = del(node)` for a node of the tree: its value leaves the values, once. */
    method Remove(node: nat)
      requires Valid() && node in Ids(shape) && node < |vals|
      modifies this, pool
      ensures Valid() && vals == old(vals)
      ensures vals[node] in old(Values()) && multiset(Values()) + multiset{vals[node]} == multiset(old(Values()))
    {
      RankIndex(shape, node);
      ghost var s, rank := Inorder(shape), Rank(shape, node);
      DropValue(vals, s, rank);
      var r, t' := pool.Del(node, shape);
      root, shape := r, t';
      assert Inorder(shape) == s[..rank] + s[rank + 1..];
      assert Values() == KeysOf(vals, s[..rank] + s[rank + 1..]);
    }
  }
}
