/**
 * The intrusive AVL tree of `avl.c`. Every `AVLNode` is a record in the
 * pool `AvlPool.nodes`, indexed by its id; a pointer is an optional id.
 * A record caches the height (`depth`) and size (`count`) of its subtree
 * and links to its left and right children and its parent.
 *
 * `Linked(nodes, t, parent)` says the records' links spell out the ghost
 * shape `t` (from `AvlTree`), and `Cached(nodes, t)` that every record's
 * depth and count are those of its subtree. Each method of `AvlPool` is
 * proved to turn the records into the shape computed by the matching
 * function of `AvlTree`, touching no record outside the tree it is given.
 */
module Avl {
  import opened Wire
  import opened AvlTree

  /** One `AVLNode`: cached subtree height and size, and the three links. */
  datatype AvlNode = AvlNode(depth: nat, count: nat, left: Ptr, right: Ptr, parent: Ptr)

  /** What `init` leaves in a node: a one-node tree with no links. */
  const Leaf := AvlNode(1, 1, None, None, None)

  predicate ValidPtr(nodes: seq<AvlNode>, p: Ptr)
  {
    p.Some? ==> p.value < |nodes|
  }

  /** The records' links form the shape t, whose root links back to parent. */
  predicate Linked(nodes: seq<AvlNode>, t: Tree, parent: Ptr)
  {
    match t
    case Nil => true
    case Node(l, id, r) =>
      id < |nodes| && nodes[id].left == RootPtr(l) && nodes[id].right == RootPtr(r)
      && nodes[id].parent == parent && Linked(nodes, l, Some(id)) && Linked(nodes, r, Some(id))
  }

  /** Every record of t caches the height and size of its subtree. */
  predicate Cached(nodes: seq<AvlNode>, t: Tree)
  {
    match t
    case Nil => true
    case Node(l, id, r) =>
      id < |nodes| && nodes[id].depth == Height(t) && nodes[id].count == Size(t)
      && Cached(nodes, l) && Cached(nodes, r)
  }

  /** A complete AVL tree in the pool: linked, cached, balanced, without repeated nodes. */
  predicate IsAvl(nodes: seq<AvlNode>, t: Tree, parent: Ptr)
  {
    Linked(nodes, t, parent) && Cached(nodes, t) && Balanced(t) && Distinct(t)
  }

  /** The ancestors' records link down to child and to their other subtrees, and up to each other. */
  predicate CtxLinked(nodes: seq<AvlNode>, ctx: seq<Frame>, child: Ptr)
    decreases |ctx|
  {
    ctx != [] ==>
      var f := ctx[0];
      f.id < |nodes|
      && (if f.isLeft then nodes[f.id].left == child && nodes[f.id].right == RootPtr(f.sibling)
          else nodes[f.id].right == child && nodes[f.id].left == RootPtr(f.sibling))
      && nodes[f.id].parent == CtxParent(ctx[1..])
      && Linked(nodes, f.sibling, Some(f.id))
      && CtxLinked(nodes, ctx[1..], Some(f.id))
  }

  /** The ancestors' other subtrees are cached. */
  predicate SiblingsCached(nodes: seq<AvlNode>, ctx: seq<Frame>)
    decreases |ctx|
  {
    ctx != [] ==> Cached(nodes, ctx[0].sibling) && SiblingsCached(nodes, ctx[1..])
  }

  /** Only records with ids in changed may differ. */
  predicate UnchangedOutside(a: seq<AvlNode>, b: seq<AvlNode>, changed: set<nat>)
  {
    |a| == |b| && forall i :: 0 <= i < |a| && i !in changed ==> a[i] == b[i]
  }

  /** Only the links, and the caches of records in changed, may differ. */
  predicate CachesKept(a: seq<AvlNode>, b: seq<AvlNode>, changed: set<nat>)
  {
    |a| == |b| && forall i :: 0 <= i < |a| && i !in changed ==> a[i].depth == b[i].depth && a[i].count == b[i].count
  }

  /** The ids a pointer points at: none or one. */
  function PtrIds(p: Ptr): set<nat>
  {
    if p.Some? then {p.value} else {}
  }

  /** `depth`: 0 for no node, else the cached height, which is the height of any cached shape rooted there. */
  function Depth(nodes: seq<AvlNode>, p: Ptr): (d: nat)
    requires ValidPtr(nodes, p)
    ensures forall t :: Cached(nodes, t) && RootPtr(t) == p ==> d == Height(t)
  {
    if p.None? then 0 else nodes[p.value].depth
  }

  /** `count`: 0 for no node, else the cached size, which is the size of any cached shape rooted there. */
  function Count(nodes: seq<AvlNode>, p: Ptr): (c: nat)
    requires ValidPtr(nodes, p)
    ensures forall t :: Cached(nodes, t) && RootPtr(t) == p ==> c == Size(t)
  {
    if p.None? then 0 else nodes[p.value].count
  }

  // ---------------------------------------------------------------------
  // Frame lemmas: what survives a change to some records.

  lemma {:induction false} LinkedFrame(a: seq<AvlNode>, b: seq<AvlNode>, t: Tree, p: Ptr, changed: set<nat>)
    requires Linked(a, t, p) && UnchangedOutside(a, b, changed) && Ids(t) !! changed
    ensures Linked(b, t, p)
  {
    if t.Node? {
      LinkedFrame(a, b, t.left, Some(t.id), changed);
      LinkedFrame(a, b, t.right, Some(t.id), changed);
    }
  }

  lemma {:induction false} CachedFrame(a: seq<AvlNode>, b: seq<AvlNode>, t: Tree, changed: set<nat>)
    requires Cached(a, t) && UnchangedOutside(a, b, changed) && Ids(t) !! changed
    ensures Cached(b, t)
  {
    if t.Node? {
      CachedFrame(a, b, t.left, changed);
      CachedFrame(a, b, t.right, changed);
    }
  }

  lemma {:induction false} CachedKept(a: seq<AvlNode>, b: seq<AvlNode>, t: Tree, changed: set<nat>)
    requires Cached(a, t) && CachesKept(a, b, changed) && Ids(t) !! changed
    ensures Cached(b, t)
  {
    if t.Node? {
      CachedKept(a, b, t.left, changed);
      CachedKept(a, b, t.right, changed);
    }
  }

  /**
   * Putting y, of the same height and size as x, in x's place: when the
   * ancestors' caches are kept, the whole tree stays cached.
   */
  lemma {:induction false} CachedPlugSwap(a: seq<AvlNode>, b: seq<AvlNode>, ctx: seq<Frame>, x: Tree, y: Tree, changed: set<nat>)
    requires Cached(a, Plug(ctx, x)) && Cached(b, y) && Height(y) == Height(x) && Size(y) == Size(x)
    requires CachesKept(a, b, changed) && CtxIds(ctx) !! changed
    ensures Cached(b, Plug(ctx, y))
    decreases |ctx|
  {
    if ctx != [] {
      var f := ctx[0];
      CachedPlug(a, ctx[1..], Attach(f, x));
      CachedKept(a, b, f.sibling, changed);
      CachedPlugSwap(a, b, ctx[1..], Attach(f, x), Attach(f, y), changed);
    }
  }

  /** A subtree whose root record only changed its parent link is linked to the new parent. */
  lemma LinkedReparent(a: seq<AvlNode>, b: seq<AvlNode>, t: Tree, p: Ptr, q: Ptr, changed: set<nat>)
    requires t.Node? && Distinct(t) && Linked(a, t, p) && UnchangedOutside(a, b, changed)
    requires (Ids(t) - {t.id}) !! changed && b[t.id] == a[t.id].(parent := q)
    ensures Linked(b, t, q)
  {
    LinkedFrame(a, b, t.left, Some(t.id), changed);
    LinkedFrame(a, b, t.right, Some(t.id), changed);
  }

  lemma {:induction false} CtxLinkedFrame(a: seq<AvlNode>, b: seq<AvlNode>, ctx: seq<Frame>, child: Ptr, changed: set<nat>)
    requires CtxLinked(a, ctx, child) && UnchangedOutside(a, b, changed) && CtxIds(ctx) !! changed
    ensures CtxLinked(b, ctx, child)
    decreases |ctx|
  {
    if ctx != [] {
      LinkedFrame(a, b, ctx[0].sibling, Some(ctx[0].id), changed);
      CtxLinkedFrame(a, b, ctx[1..], Some(ctx[0].id), changed);
    }
  }

  lemma {:induction false} SiblingsCachedFrame(a: seq<AvlNode>, b: seq<AvlNode>, ctx: seq<Frame>, changed: set<nat>)
    requires SiblingsCached(a, ctx) && UnchangedOutside(a, b, changed) && CtxIds(ctx) !! changed
    ensures SiblingsCached(b, ctx)
    decreases |ctx|
  {
    if ctx != [] {
      CachedFrame(a, b, ctx[0].sibling, changed);
      SiblingsCachedFrame(a, b, ctx[1..], changed);
    }
  }

  /** The whole tree is linked exactly when the subtree is linked to its parent and the ancestors are linked. */
  lemma {:induction false} LinkedPlug(nodes: seq<AvlNode>, ctx: seq<Frame>, t: Tree)
    ensures Linked(nodes, Plug(ctx, t), None) <==> Linked(nodes, t, CtxParent(ctx)) && CtxLinked(nodes, ctx, RootPtr(t))
    decreases |ctx|
  {
    if ctx != [] {
      LinkedPlug(nodes, ctx[1..], Attach(ctx[0], t));
    }
  }

  lemma {:induction false} CachedPlug(nodes: seq<AvlNode>, ctx: seq<Frame>, t: Tree)
    requires Cached(nodes, Plug(ctx, t))
    ensures Cached(nodes, t) && SiblingsCached(nodes, ctx)
    decreases |ctx|
  {
    if ctx != [] {
      CachedPlug(nodes, ctx[1..], Attach(ctx[0], t));
    }
  }

  lemma {:induction false} LinkedInPool(nodes: seq<AvlNode>, t: Tree, p: Ptr)
    requires Linked(nodes, t, p)
    ensures forall i :: i in Ids(t) ==> i < |nodes|
  {
    if t.Node? {
      LinkedInPool(nodes, t.left, Some(t.id));
      LinkedInPool(nodes, t.right, Some(t.id));
    }
  }

  /** A new record at the end of the pool changes no tree already in it. */
  lemma {:induction false} Extended(nodes: seq<AvlNode>, x: AvlNode, t: Tree, p: Ptr)
    requires Linked(nodes, t, p) && Cached(nodes, t)
    ensures Linked(nodes + [x], t, p) && Cached(nodes + [x], t)
  {
    if t.Node? {
      Extended(nodes, x, t.left, Some(t.id));
      Extended(nodes, x, t.right, Some(t.id));
    }
  }

  lemma CachesKeptTrans(a: seq<AvlNode>, b: seq<AvlNode>, c: seq<AvlNode>)
    requires CachesKept(a, b, {}) && CachesKept(b, c, {})
    ensures CachesKept(a, c, {})
  {
  }

  lemma UnchangedTrans(a: seq<AvlNode>, b: seq<AvlNode>, c: seq<AvlNode>, s1: set<nat>, s2: set<nat>, s: set<nat>)
    requires UnchangedOutside(a, b, s1) && UnchangedOutside(b, c, s2) && s1 <= s && s2 <= s
    ensures UnchangedOutside(a, c, s)
  {
  }

  /**
   * What the records say at the root of a subtree of a linked tree without
   * repeats: its links, and on which side of its parent it hangs.
   */
  lemma LinksAt(nodes: seq<AvlNode>, t: Tree, ctx: seq<Frame>, sub: Tree)
    requires Linked(nodes, t, None) && Distinct(t) && sub.Node? && Plug(ctx, sub) == t
    ensures sub.id < |nodes| && nodes[sub.id].parent == CtxParent(ctx)
    ensures nodes[sub.id].left == RootPtr(sub.left) && nodes[sub.id].right == RootPtr(sub.right)
    ensures sub.left.Node? ==> sub.left.id < |nodes| && nodes[sub.left.id].right == RootPtr(sub.left.right)
    ensures sub.right.Node? ==> sub.right.id < |nodes| && nodes[sub.right.id].left == RootPtr(sub.right.left)
    ensures ctx != [] ==> ctx[0].id < |nodes| && (nodes[ctx[0].id].right == Some(sub.id) <==> !ctx[0].isLeft)
  {
    LinkedPlug(nodes, ctx, sub);
    DistinctPlug(ctx, sub);
    if ctx != [] {
      assert sub.id !in Ids(ctx[0].sibling);
    }
  }

  /** The counts `offset` reads at and below the root of a subtree of a linked, cached tree. */
  lemma CountsAt(nodes: seq<AvlNode>, t: Tree, ctx: seq<Frame>, sub: Tree)
    requires Linked(nodes, t, None) && Cached(nodes, t) && sub.Node? && Plug(ctx, sub) == t
    ensures ValidPtr(nodes, RootPtr(sub.left)) && ValidPtr(nodes, RootPtr(sub.right))
    ensures sub.left.Node? ==> ValidPtr(nodes, RootPtr(sub.left.right))
    ensures sub.right.Node? ==> ValidPtr(nodes, RootPtr(sub.right.left))
    ensures Count(nodes, RootPtr(sub.left)) == Size(sub.left) && Count(nodes, RootPtr(sub.right)) == Size(sub.right)
    ensures sub.left.Node? ==> Count(nodes, RootPtr(sub.left.right)) == Size(sub.left.right)
    ensures sub.right.Node? ==> Count(nodes, RootPtr(sub.right.left)) == Size(sub.right.left)
  {
    CachedPlug(nodes, ctx, sub);
    if sub.left.Node? {
      assert Cached(nodes, sub.left.right);
    }
    if sub.right.Node? {
      assert Cached(nodes, sub.right.left);
    }
  }

  class AvlPool {
    /** Every node ever allocated, by id. */
    var nodes: seq<AvlNode>

    constructor ()
      ensures nodes == []
    {
      nodes := [];
    }

    /** Allocates a record for a new node and `init`s it. */
    method Alloc() returns (id: nat)
      modifies this
      ensures id == old(|nodes|) && nodes == old(nodes) + [Leaf]
    {
      id := |nodes|;
      nodes := nodes + [AvlNode(0, 0, None, None, None)];
      Init(id);
    }

    /** `init`: depth and count 1, no links; the record is then a one-node AVL tree. */
    method Init(id: nat)
      requires id < |nodes|
      modifies this
      ensures nodes == old(nodes)[id := Leaf]
      ensures IsAvl(nodes, Node(Nil, id, Nil), None)
    {
      nodes := nodes[id := AvlNode(1, 1, None, None, None)];
    }

    /**
     * `update`: recomputes the depth and count of a node from its children;
     * when the children are cached, the node's subtree is then cached, and
     * nothing but those two fields of that record changes.
     */
    method Update(node: nat, ghost t: Tree, ghost parent: Ptr)
      requires t.Node? && t.id == node && Distinct(t) && Linked(nodes, t, parent)
      requires Cached(nodes, t.left) && Cached(nodes, t.right)
      modifies this
      ensures nodes == old(nodes)[node := old(nodes)[node].(depth := Height(t), count := Size(t))]
      ensures Linked(nodes, t, parent) && Cached(nodes, t)
    {
      var n := nodes[node];
      nodes := nodes[node := n.(depth := 1 + Max(Depth(nodes, n.left), Depth(nodes, n.right)),
                                count := 1 + Count(nodes, n.left) + Count(nodes, n.right))];
      LinkedFrame(old(nodes), nodes, t.left, Some(node), {node});
      LinkedFrame(old(nodes), nodes, t.right, Some(node), {node});
      CachedFrame(old(nodes), nodes, t.left, {node});
      CachedFrame(old(nodes), nodes, t.right, {node});
    }

    /** `rotateLeft`: the right child takes the node's place; the records then spell `RotateLeftTree(t)`. */
    method RotateLeft(node: nat, ghost t: Tree, ghost parent: Ptr) returns (newNode: nat)
      requires t.Node? && t.id == node && t.right.Node? && Distinct(t) && Linked(nodes, t, parent)
      requires Cached(nodes, t.left) && Cached(nodes, t.right.left) && Cached(nodes, t.right.right)
      modifies this
      ensures newNode == t.right.id
      ensures Linked(nodes, RotateLeftTree(t), parent) && Cached(nodes, RotateLeftTree(t))
      ensures UnchangedOutside(old(nodes), nodes, Ids(t))
    {
      newNode := RelinkLeft(node, t, parent);
      ghost var mid := nodes;
      ghost var c := t.right.right;
      Update(node, Node(t.left, node, t.right.left), Some(newNode));
      LinkedFrame(mid, nodes, c, Some(newNode), {node});
      CachedFrame(mid, nodes, c, {node});
      ghost var mid2 := nodes;
      Update(newNode, RotateLeftTree(t), parent);
      UnchangedTrans(old(nodes), mid, mid2, Ids(t), {node}, Ids(t));
      UnchangedTrans(old(nodes), mid2, nodes, Ids(t), {newNode}, Ids(t));
    }

    /** The link changes of `rotateLeft`, before the two `update` calls. */
    method RelinkLeft(node: nat, ghost t: Tree, ghost parent: Ptr) returns (newNode: nat)
      requires t.Node? && t.id == node && t.right.Node? && Distinct(t) && Linked(nodes, t, parent)
      requires Cached(nodes, t.left) && Cached(nodes, t.right.left) && Cached(nodes, t.right.right)
      modifies this
      ensures newNode == t.right.id
      ensures Linked(nodes, Node(t.left, node, t.right.left), Some(newNode)) && Linked(nodes, t.right.right, Some(newNode))
      ensures newNode < |nodes| == |old(nodes)|
      ensures nodes[newNode] == old(nodes)[newNode].(left := Some(node), parent := parent)
      ensures Cached(nodes, t.left) && Cached(nodes, t.right.left) && Cached(nodes, t.right.right)
      ensures UnchangedOutside(old(nodes), nodes, Ids(t))
    {
      ghost var a, b, c := t.left, t.right.left, t.right.right;
      newNode := nodes[node].right.value;
      var inner := nodes[newNode].left;
      if inner.Some? {
        nodes := nodes[inner.value := nodes[inner.value].(parent := Some(node))];
      }
      ghost var changed := {node, newNode} + (if inner.Some? then {inner.value} else {});
      ghost var mid := nodes;
      var x, y := nodes[node], nodes[newNode];
      nodes := nodes[node := x.(right := inner, parent := Some(newNode))];
      nodes := nodes[newNode := y.(left := Some(node), parent := x.parent)];
      assert UnchangedOutside(old(nodes), mid, changed) && CachesKept(old(nodes), mid, {});
      assert UnchangedOutside(mid, nodes, {node, newNode}) && CachesKept(mid, nodes, {});
      assert UnchangedOutside(old(nodes), nodes, changed) && CachesKept(old(nodes), nodes, {});
      LinkedFrame(old(nodes), nodes, a, Some(node), changed);
      LinkedFrame(old(nodes), nodes, c, Some(newNode), changed);
      if b.Node? {
        LinkedReparent(old(nodes), nodes, b, Some(newNode), Some(node), changed);
      }
      CachedKept(old(nodes), nodes, a, {});
      CachedKept(old(nodes), nodes, b, {});
      CachedKept(old(nodes), nodes, c, {});
    }

    /** `rotateRight`: the left child takes the node's place; the records then spell `RotateRightTree(t)`. */
    method RotateRight(node: nat, ghost t: Tree, ghost parent: Ptr) returns (newNode: nat)
      requires t.Node? && t.id == node && t.left.Node? && Distinct(t) && Linked(nodes, t, parent)
      requires Cached(nodes, t.left.left) && Cached(nodes, t.left.right) && Cached(nodes, t.right)
      modifies this
      ensures newNode == t.left.id
      ensures Linked(nodes, RotateRightTree(t), parent) && Cached(nodes, RotateRightTree(t))
      ensures UnchangedOutside(old(nodes), nodes, Ids(t))
    {
      newNode := RelinkRight(node, t, parent);
      ghost var mid := nodes;
      ghost var a := t.left.left;
      Update(node, Node(t.left.right, node, t.right), Some(newNode));
      LinkedFrame(mid, nodes, a, Some(newNode), {node});
      CachedFrame(mid, nodes, a, {node});
      ghost var mid2 := nodes;
      Update(newNode, RotateRightTree(t), parent);
      UnchangedTrans(old(nodes), mid, mid2, Ids(t), {node}, Ids(t));
      UnchangedTrans(old(nodes), mid2, nodes, Ids(t), {newNode}, Ids(t));
    }

    /** The link changes of `rotateRight`, before the two `update` calls. */
    method RelinkRight(node: nat, ghost t: Tree, ghost parent: Ptr) returns (newNode: nat)
      requires t.Node? && t.id == node && t.left.Node? && Distinct(t) && Linked(nodes, t, parent)
      requires Cached(nodes, t.left.left) && Cached(nodes, t.left.right) && Cached(nodes, t.right)
      modifies this
      ensures newNode == t.left.id
      ensures Linked(nodes, Node(t.left.right, node, t.right), Some(newNode)) && Linked(nodes, t.left.left, Some(newNode))
      ensures newNode < |nodes| == |old(nodes)|
      ensures nodes[newNode] == old(nodes)[newNode].(right := Some(node), parent := parent)
      ensures Cached(nodes, t.left.left) && Cached(nodes, t.left.right) && Cached(nodes, t.right)
      ensures UnchangedOutside(old(nodes), nodes, Ids(t))
    {
      ghost var a, b, c := t.left.left, t.left.right, t.right;
      newNode := nodes[node].left.value;
      var inner := nodes[newNode].right;
      if inner.Some? {
        nodes := nodes[inner.value := nodes[inner.value].(parent := Some(node))];
      }
      ghost var changed := {node, newNode} + (if inner.Some? then {inner.value} else {});
      ghost var mid := nodes;
      var x, y := nodes[node], nodes[newNode];
      nodes := nodes[node := x.(left := inner, parent := Some(newNode))];
      nodes := nodes[newNode := y.(right := Some(node), parent := x.parent)];
      assert UnchangedOutside(old(nodes), mid, changed) && CachesKept(old(nodes), mid, {});
      assert UnchangedOutside(mid, nodes, {node, newNode}) && CachesKept(mid, nodes, {});
      assert UnchangedOutside(old(nodes), nodes, changed) && CachesKept(old(nodes), nodes, {});
      LinkedFrame(old(nodes), nodes, a, Some(newNode), changed);
      LinkedFrame(old(nodes), nodes, c, Some(node), changed);
      if b.Node? {
        LinkedReparent(old(nodes), nodes, b, Some(newNode), Some(node), changed);
      }
      CachedKept(old(nodes), nodes, a, {});
      CachedKept(old(nodes), nodes, b, {});
      CachedKept(old(nodes), nodes, c, {});
    }

    /** `fixLeft`: the left subtree is two levels deeper; the records then spell `FixLeftTree(t)`. */
    method FixLeft(root: nat, ghost t: Tree, ghost parent: Ptr) returns (newRoot: nat)
      requires t.Node? && t.id == root && t.left.Node? && Distinct(t) && Linked(nodes, t, parent)
      requires Cached(nodes, t.left) && Cached(nodes, t.right)
      modifies this
      ensures newRoot == FixLeftTree(t).id
      ensures Linked(nodes, FixLeftTree(t), parent) && Cached(nodes, FixLeftTree(t))
      ensures UnchangedOutside(old(nodes), nodes, Ids(t))
    {
      var l := nodes[root].left.value;
      ghost var L := t.left;
      assert Cached(nodes, L.left) && Cached(nodes, L.right);
      if Depth(nodes, nodes[l].left) < Depth(nodes, nodes[l].right) {
        var nl := RotateLeft(l, L, Some(root));
        ghost var mid := nodes;
        nodes := nodes[root := nodes[root].(left := Some(nl))];
        LinkedFrame(old(nodes), mid, t.right, Some(root), Ids(L));
        LinkedFrame(mid, nodes, t.right, Some(root), {root});
        LinkedFrame(mid, nodes, RotateLeftTree(L), Some(root), {root});
        CachedFrame(old(nodes), mid, t.right, Ids(L));
        CachedFrame(mid, nodes, t.right, {root});
        CachedFrame(mid, nodes, RotateLeftTree(L), {root});
        UnchangedTrans(old(nodes), mid, nodes, Ids(L), {root}, Ids(t));
        L := RotateLeftTree(L);
      }
      newRoot := RotateRight(root, Node(L, root, t.right), parent);
    }

    /** `fixRight`: the right subtree is two levels deeper; the records then spell `FixRightTree(t)`. */
    method FixRight(root: nat, ghost t: Tree, ghost parent: Ptr) returns (newRoot: nat)
      requires t.Node? && t.id == root && t.right.Node? && Distinct(t) && Linked(nodes, t, parent)
      requires Cached(nodes, t.left) && Cached(nodes, t.right)
      modifies this
      ensures newRoot == FixRightTree(t).id
      ensures Linked(nodes, FixRightTree(t), parent) && Cached(nodes, FixRightTree(t))
      ensures UnchangedOutside(old(nodes), nodes, Ids(t))
    {
      var r := nodes[root].right.value;
      ghost var R := t.right;
      assert Cached(nodes, R.left) && Cached(nodes, R.right);
      if Depth(nodes, nodes[r].right) < Depth(nodes, nodes[r].left) {
        var nr := RotateRight(r, R, Some(root));
        ghost var mid := nodes;
        nodes := nodes[root := nodes[root].(right := Some(nr))];
        LinkedFrame(old(nodes), mid, t.left, Some(root), Ids(R));
        LinkedFrame(mid, nodes, t.left, Some(root), {root});
        LinkedFrame(mid, nodes, RotateRightTree(R), Some(root), {root});
        CachedFrame(old(nodes), mid, t.left, Ids(R));
        CachedFrame(mid, nodes, t.left, {root});
        CachedFrame(mid, nodes, RotateRightTree(R), {root});
        UnchangedTrans(old(nodes), mid, nodes, Ids(R), {root}, Ids(t));
        R := RotateRightTree(R);
      }
      newRoot := RotateLeft(root, Node(t.left, root, R), parent);
    }

    /** The rotation step of `fix`: `fixLeft` or `fixRight` when the child depths l and r differ by two. */
    method Rebalance(node: nat, l: nat, r: nat, ghost t: Tree, ghost parent: Ptr) returns (top: nat)
      requires t.Node? && t.id == node && Distinct(t) && Linked(nodes, t, parent) && Cached(nodes, t)
      requires l == Height(t.left) && r == Height(t.right)
      modifies this
      ensures top == FixNode(t).id
      ensures Linked(nodes, FixNode(t), parent) && Cached(nodes, FixNode(t))
      ensures UnchangedOutside(old(nodes), nodes, Ids(t))
    {
      if l == r + 2 {
        top := FixLeft(node, t, parent);
      } else if l + 2 == r {
        top := FixRight(node, t, parent);
      } else {
        top := node;
      }
    }

    /**
     * `fix`: from the given node up to the root, `update` each node,
     * rebalance it, and re-point its parent's link at whatever now roots
     * its subtree. The records end up spelling `FixUp(ctx, sub)`, whose
     * root is returned with no parent, and every record of it is cached.
     */
    method Fix(node: nat, ghost ctx: seq<Frame>, ghost sub: Tree) returns (root: nat, ghost t: Tree)
      requires sub.Node? && sub.id == node
      requires Linked(nodes, Plug(ctx, sub), None) && Distinct(Plug(ctx, sub))
      requires Cached(nodes, sub.left) && Cached(nodes, sub.right) && SiblingsCached(nodes, ctx)
      modifies this
      ensures t == FixUp(ctx, sub) && t.Node? && root == t.id
      ensures Linked(nodes, t, None) && Cached(nodes, t)
      ensures UnchangedOutside(old(nodes), nodes, Ids(Plug(ctx, sub)))
    {
      ghost var all := Ids(Plug(ctx, sub));
      LinkedPlug(nodes, ctx, sub);
      DistinctPlug(ctx, sub);
      IdsPlug(ctx, sub);
      var n := node;
      ghost var c, s := ctx, sub;
      while true
        invariant s.Node? && s.id == n
        invariant FixUp(c, s) == FixUp(ctx, sub)
        invariant Linked(nodes, s, CtxParent(c)) && CtxLinked(nodes, c, Some(n))
        invariant Distinct(s) && CtxDistinct(c) && Ids(s) !! CtxIds(c) && Ids(s) + CtxIds(c) == all
        invariant Cached(nodes, s.left) && Cached(nodes, s.right) && SiblingsCached(nodes, c)
        invariant UnchangedOutside(old(nodes), nodes, all)
        decreases |c|
      {
        ghost var before := nodes;
        var p, fromLeft;
        n, p, fromLeft := FixStep(n, c, s);
        UnchangedTrans(old(nodes), before, nodes, all, Ids(s), all);
        if p.None? {
          root, t := n, FixNode(s);
          return;
        }
        ghost var stepped := nodes;
        Ascend(p.value, fromLeft, n, c, s);
        AscendIds(c, s, FixNode(s));
        UnchangedTrans(old(nodes), stepped, nodes, all, {p.value}, all);
        n := nodes[n].parent.value;
        s, c := Attach(c[0], FixNode(s)), c[1..];
      }
    }

    /**
     * The body of the loop of `fix` up to `*from = node`: `update` the node,
     * read the child depths, note on which side of its parent it hangs,
     * then rebalance it.
     */
    method FixStep(n: nat, ghost c: seq<Frame>, ghost s: Tree) returns (top: nat, p: Ptr, fromLeft: bool)
      requires s.Node? && s.id == n
      requires Linked(nodes, s, CtxParent(c)) && CtxLinked(nodes, c, Some(n))
      requires Distinct(s) && CtxDistinct(c) && Ids(s) !! CtxIds(c)
      requires Cached(nodes, s.left) && Cached(nodes, s.right) && SiblingsCached(nodes, c)
      modifies this
      ensures p == CtxParent(c) && (p.Some? ==> fromLeft == c[0].isLeft) && top == FixNode(s).id
      ensures Linked(nodes, FixNode(s), CtxParent(c)) && CtxLinked(nodes, c, Some(n))
      ensures Cached(nodes, FixNode(s)) && SiblingsCached(nodes, c)
      ensures UnchangedOutside(old(nodes), nodes, Ids(s))
    {
      Update(n, s, CtxParent(c));
      ghost var updated := nodes;
      var l := Depth(nodes, nodes[n].left);
      var r := Depth(nodes, nodes[n].right);
      p := nodes[n].parent;
      fromLeft := false;
      if p.Some? {
        fromLeft := nodes[p.value].left == Some(n);
      }
      assert p.Some? ==> fromLeft == c[0].isLeft by {
        if p.Some? {
          assert updated[p.value] == old(nodes)[p.value];
          assert s.id !in Ids(c[0].sibling);
        }
      }
      top := Rebalance(n, l, r, s, CtxParent(c));
      UnchangedTrans(old(nodes), updated, nodes, {s.id}, Ids(s), Ids(s));
      CtxLinkedFrame(old(nodes), nodes, c, Some(s.id), Ids(s));
      SiblingsCachedFrame(old(nodes), nodes, c, Ids(s));
    }

    /**
     * The end of one iteration of `fix`: `*from = node` re-points the
     * parent's link on the side the subtree hangs at the new subtree root;
     * the parent's subtree is then linked with the fixed subtree in it.
     */
    method Ascend(p: nat, fromLeft: bool, top: nat, ghost c: seq<Frame>, ghost s: Tree)
      requires c != [] && p == c[0].id && fromLeft == c[0].isLeft && s.Node? && top == FixNode(s).id
      requires Linked(nodes, FixNode(s), Some(p)) && CtxLinked(nodes, c, Some(s.id))
      requires Cached(nodes, FixNode(s)) && SiblingsCached(nodes, c)
      requires Distinct(s) && CtxDistinct(c) && Ids(s) !! CtxIds(c)
      modifies this
      ensures Linked(nodes, Attach(c[0], FixNode(s)), CtxParent(c[1..])) && CtxLinked(nodes, c[1..], Some(p))
      ensures Cached(nodes, FixNode(s)) && Cached(nodes, c[0].sibling) && SiblingsCached(nodes, c[1..])
      ensures UnchangedOutside(old(nodes), nodes, {p})
    {
      if fromLeft {
        nodes := nodes[p := nodes[p].(left := Some(top))];
      } else {
        nodes := nodes[p := nodes[p].(right := Some(top))];
      }
      LinkedFrame(old(nodes), nodes, FixNode(s), Some(p), {p});
      LinkedFrame(old(nodes), nodes, c[0].sibling, Some(p), {p});
      CtxLinkedFrame(old(nodes), nodes, c[1..], Some(p), {p});
      CachedFrame(old(nodes), nodes, FixNode(s), {p});
      CachedFrame(old(nodes), nodes, c[0].sibling, {p});
      SiblingsCachedFrame(old(nodes), nodes, c[1..], {p});
    }
  
    /**
     * `del`: removes the node from the tree rooted without a parent and
     * returns the new root. A node without a right subtree is replaced by
     * its left subtree and `fix` runs from its parent; otherwise its
     * in-order successor is deleted first and then takes its place. The
     * result is an AVL tree of the other nodes, in the same order.
     */
    method Del(node: nat, ghost t: Tree) returns (root: Ptr, ghost t': Tree)
      requires IsAvl(nodes, t, None) && node in Ids(t)
      modifies this
      ensures IsAvl(nodes, t', None) && root == RootPtr(t')
      ensures Ids(t') == Ids(t) - {node} && Inorder(t') == Without(t, node)
      ensures UnchangedOutside(old(nodes), nodes, Ids(t))
      decreases Size(t) - Rank(t, node), 1
    {
      ghost var loc := Locate(t, node);
      assert nodes[node].right == RootPtr(loc.1.right) by {
        LinkedPlug(nodes, loc.0, loc.1);
      }
      if nodes[node].right.None? {
        root, t' := DelNoRight(node, t);
        RemoveShape(t, node);
      } else {
        root, t' := DelWithSuccessor(node, t);
      }
    }

    /**
     * The first case of `del`: the left subtree, if any, is linked to the
     * node's parent in its place, then the tree is fixed from that parent;
     * without a parent the left subtree is the whole tree.
     */
    method DelNoRight(node: nat, ghost t: Tree) returns (root: Ptr, ghost t': Tree)
      requires Linked(nodes, t, None) && Cached(nodes, t) && Distinct(t)
      requires node in Ids(t) && Locate(t, node).1.right.Nil?
      modifies this
      ensures var loc := Locate(t, node);
        t' == if loc.0 == [] then loc.1.left else FixUp(loc.0[1..], Attach(loc.0[0], loc.1.left))
      ensures Linked(nodes, t', None) && Cached(nodes, t') && root == RootPtr(t')
      ensures UnchangedOutside(old(nodes), nodes, Ids(t))
    {
      ghost var loc := Locate(t, node);
      ghost var ctx, l := loc.0, loc.1.left;
      LinkedPlug(nodes, ctx, loc.1);
      DistinctPlug(ctx, loc.1);
      IdsPlug(ctx, loc.1);
      var parent := nodes[node].parent;
      var left := nodes[node].left;
      if left.Some? {
        nodes := nodes[left.value := nodes[left.value].(parent := parent)];
        LinkedReparent(old(nodes), nodes, l, Some(node), parent, {left.value});
      }
      assert UnchangedOutside(old(nodes), nodes, PtrIds(left)) && CachesKept(old(nodes), nodes, {});
      CtxLinkedFrame(old(nodes), nodes, ctx, Some(node), PtrIds(left));
      ghost var reparented := nodes;
      Repoint(parent, node, left, ctx);
      LinkedFrame(reparented, nodes, l, parent, PtrIds(parent));
      LinkedPlug(nodes, ctx, l);
      assert PtrIds(left) <= Ids(t) && PtrIds(parent) <= Ids(t);
      UnchangedTrans(old(nodes), reparented, nodes, PtrIds(left), PtrIds(parent), Ids(t));
      CachesKeptTrans(old(nodes), reparented, nodes);
      CachedKept(old(nodes), nodes, t, {});
      CachedPlug(nodes, ctx, loc.1);
      DistinctPlug(ctx, l);
      IdsPlug(ctx, l);
      if parent.None? {
        return left, l;
      }
      ghost var repointed := nodes;
      var r;
      r, t' := Fix(parent.value, ctx[1..], Attach(ctx[0], l));
      IdsPlug(ctx, l);
      UnchangedTrans(old(nodes), repointed, nodes, Ids(t), Ids(Plug(ctx, l)), Ids(t));
      root := Some(r);
    }

    /**
     * The last step of both cases of `del`: the parent's link that pointed
     * at node, on whichever side it is, now points at x; without a parent
     * nothing changes.
     */
    method Repoint(parent: Ptr, node: nat, x: Ptr, ghost ctx: seq<Frame>)
      requires parent == CtxParent(ctx) && CtxLinked(nodes, ctx, Some(node))
      requires CtxDistinct(ctx) && node !in CtxIds(ctx)
      modifies this
      ensures parent.None? ==> nodes == old(nodes)
      ensures parent.Some? ==> nodes == old(nodes)[parent.value :=
        if ctx[0].isLeft then old(nodes)[parent.value].(left := x) else old(nodes)[parent.value].(right := x)]
      ensures CtxLinked(nodes, ctx, x)
      ensures UnchangedOutside(old(nodes), nodes, PtrIds(parent)) && CachesKept(old(nodes), nodes, {})
    {
      if parent.None? {
        return;
      }
      var p := parent.value;
      if nodes[p].left == Some(node) {
        nodes := nodes[p := nodes[p].(left := x)];
      } else {
        nodes := nodes[p := nodes[p].(right := x)];
      }
      LinkedFrame(old(nodes), nodes, ctx[0].sibling, Some(p), {p});
      CtxLinkedFrame(old(nodes), nodes, ctx[1..], Some(p), {p});
    }

    /**
     * `victim = node->right`, then down the left links: the leftmost node
     * of the right subtree, which is the node's in-order successor.
     */
    method Successor(node: nat, ghost t: Tree) returns (victim: nat)
      requires Linked(nodes, t, None) && node in Ids(t) && Locate(t, node).1.right.Node?
      ensures victim == Leftmost(Locate(t, node).1.right)
    {
      ghost var loc := Locate(t, node);
      LinkedPlug(nodes, loc.0, loc.1);
      victim := nodes[node].right.value;
      ghost var v := loc.1.right;
      while nodes[victim].left.Some?
        invariant v.Node? && v.id == victim && victim < |nodes| && Linked(nodes, v, nodes[victim].parent)
        invariant Leftmost(v) == Leftmost(loc.1.right)
        decreases Size(v)
      {
        victim := nodes[victim].left.value;
        v := v.left;
      }
    }

    /**
     * The second case of `del`: delete the successor, then let it take the
     * node's place. The root is that of the smaller tree unless the node
     * was the root, when the successor is.
     */
    method DelWithSuccessor(node: nat, ghost t: Tree) returns (root: Ptr, ghost t': Tree)
      requires IsAvl(nodes, t, None) && node in Ids(t) && Locate(t, node).1.right.Node?
      modifies this
      ensures IsAvl(nodes, t', None) && root == RootPtr(t')
      ensures Ids(t') == Ids(t) - {node} && Inorder(t') == Without(t, node)
      ensures UnchangedOutside(old(nodes), nodes, Ids(t))
      decreases Size(t) - Rank(t, node), 0
    {
      var victim := Successor(node, t);
      LinkedInPool(nodes, t, None);
      SuccessorRank(t, node);
      RankIndex(t, node);
      ghost var t1;
      root, t1 := Del(victim, t);
      SwapShape(t, t1, node, victim);
      ghost var deleted := nodes;
      var parent;
      parent, t' := Transplant(node, victim, t1);
      UnchangedTrans(old(nodes), deleted, nodes, Ids(t), Ids(t1) + {victim}, Ids(t));
      if parent.None? {
        root := Some(victim);
      } else {
        ghost var loc := Locate(t1, node);
        RootPlug(loc.0, loc.1, Node(loc.1.left, victim, loc.1.right));
      }
    }

    /**
     * `*victim = *node`, the children's parent links moved to victim, and
     * the parent's link moved from node to victim: victim takes the node's
     * place, with the node's cached depth and count. Returns the parent.
     */
    method Transplant(node: nat, victim: nat, ghost t1: Tree) returns (parent: Ptr, ghost t2: Tree)
      requires Linked(nodes, t1, None) && Cached(nodes, t1) && Distinct(t1) && node in Ids(t1)
      requires victim < |nodes| && victim !in Ids(t1)
      modifies this
      ensures var loc := Locate(t1, node);
        t2 == Plug(loc.0, Node(loc.1.left, victim, loc.1.right)) && parent == CtxParent(loc.0)
      ensures Linked(nodes, t2, None) && Cached(nodes, t2)
      ensures UnchangedOutside(old(nodes), nodes, Ids(t1) + {victim})
    {
      ghost var loc := Locate(t1, node);
      ghost var ctx, sub := loc.0, loc.1;
      ghost var y := Node(sub.left, victim, sub.right);
      LinkedPlug(nodes, ctx, sub);
      DistinctPlug(ctx, sub);
      IdsPlug(ctx, sub);
      CachedPlug(nodes, ctx, sub);
      Adopt(node, victim, sub, CtxParent(ctx));
      ghost var changed := {victim} + PtrIds(RootPtr(sub.left)) + PtrIds(RootPtr(sub.right));
      CtxLinkedFrame(old(nodes), nodes, ctx, Some(node), changed);
      parent := nodes[node].parent;
      ghost var adopted := nodes;
      Repoint(parent, node, Some(victim), ctx);
      LinkedFrame(adopted, nodes, y, CtxParent(ctx), PtrIds(parent));
      LinkedPlug(nodes, ctx, y);
      t2 := Plug(ctx, y);
      assert CachesKept(old(nodes), nodes, {victim});
      CachedKept(old(nodes), nodes, sub.left, {victim});
      CachedKept(old(nodes), nodes, sub.right, {victim});
      CachedPlugSwap(old(nodes), nodes, ctx, sub, y, {victim});
    }

    /**
     * `*victim = *node` followed by pointing the children's parent links at
     * victim: the record of victim becomes a copy of the node's, and victim
     * roots the node's two subtrees.
     */
    method Adopt(node: nat, victim: nat, ghost sub: Tree, ghost up: Ptr)
      requires sub.Node? && sub.id == node && Distinct(sub) && Linked(nodes, sub, up)
      requires victim < |nodes| && victim !in Ids(sub)
      modifies this
      ensures |nodes| == |old(nodes)| && nodes[victim] == old(nodes)[node]
      ensures forall c :: c in PtrIds(RootPtr(sub.left)) + PtrIds(RootPtr(sub.right)) ==>
        c < |nodes| && nodes[c] == old(nodes)[c].(parent := Some(victim))
      ensures UnchangedOutside(old(nodes), nodes, {victim} + PtrIds(RootPtr(sub.left)) + PtrIds(RootPtr(sub.right)))
      ensures Linked(nodes, Node(sub.left, victim, sub.right), up)
      ensures CachesKept(old(nodes), nodes, {victim})
    {
      nodes := nodes[victim := nodes[node]];
      ghost var copied := nodes;
      var l := nodes[victim].left;
      if l.Some? {
        nodes := nodes[l.value := nodes[l.value].(parent := Some(victim))];
      }
      var r := nodes[victim].right;
      if r.Some? {
        nodes := nodes[r.value := nodes[r.value].(parent := Some(victim))];
      }
      ghost var changed := {victim} + PtrIds(l) + PtrIds(r);
      if sub.left.Node? {
        LinkedReparent(old(nodes), nodes, sub.left, Some(node), Some(victim), changed);
      }
      if sub.right.Node? {
        LinkedReparent(old(nodes), nodes, sub.right, Some(node), Some(victim), changed);
      }
    }
  
    /**
     * `offset`: from the node, walks to the node k places after it in
     * order (before it for negative k), going down to a child when the
     * cached counts place the target in that child's subtree and up to the
     * parent otherwise; `pos` is the rank of the current node relative to
     * the start. None when the target rank is outside the tree.
     */
    method Offset(node: nat, k: int, ghost t: Tree) returns (r: Ptr)
      requires Linked(nodes, t, None) && Cached(nodes, t) && Distinct(t) && node in Ids(t)
      ensures var i := Rank(t, node) + k;
        r == if 0 <= i < Size(t) then Some(Inorder(t)[i]) else None
    {
      ghost var loc := Locate(t, node);
      ghost var ctx, sub := loc.0, loc.1;
      ghost var target := Rank(t, node) + k;
      var n := node;
      var pos := 0;
      while k != pos
        invariant sub.Node? && sub.id == n && Plug(ctx, sub) == t
        invariant target - k + pos == |CtxLeft(ctx)| + Size(sub.left)
        decreases if Covers(ctx, sub, target) then 0 else 1, if Covers(ctx, sub, target) then Height(sub) else |ctx|
      {
        LinksAt(nodes, t, ctx, sub);
        CountsAt(nodes, t, ctx, sub);
        var right := nodes[n].right;
        var left := nodes[n].left;
        if pos < k && pos + Count(nodes, right) >= k {
          n := right.value;
          pos := pos + Count(nodes, nodes[n].left) + 1;
          OffsetDownRight(ctx, sub, target);
          ctx, sub := [RightFrame(sub)] + ctx, sub.right;
        } else if pos > k && pos - Count(nodes, left) <= k {
          n := left.value;
          pos := pos - Count(nodes, nodes[n].right) - 1;
          OffsetDownLeft(ctx, sub, target);
          ctx, sub := [LeftFrame(sub)] + ctx, sub.left;
        } else {
          OffsetUp(ctx, sub, target);
          var parent := nodes[n].parent;
          if parent.None? {
            return None;
          }
          if nodes[parent.value].right == Some(n) {
            pos := pos - Count(nodes, nodes[n].left) - 1;
          } else {
            pos := pos + Count(nodes, nodes[n].right) + 1;
          }
          n := parent.value;
          ctx, sub := ctx[1..], Attach(ctx[0], sub);
        }
      }
      InorderAround(ctx, sub);
      IndexMid(Inorder(t), CtxLeft(ctx), Inorder(sub.left), n, Inorder(sub.right), CtxRight(ctx), target);
      r := Some(n);
    }

    /**
     * The search loop of the insertion helpers (`add` of the tree's tests,
     * `treeAdd` of the sorted set): from the root, go left when the new
     * key is less than the node's and right otherwise, until the link to
     * follow is empty. Returns the last node visited, if any, and the side
     * of it where the walk fell off; the path is the ghost ctx, the new key
     * belongs just below it, and `ctx` records the heights of the tree.
     */
    method SearchPlace<K(!new)>(root: Ptr, k: K, keys: seq<K>, less: (K, K) -> bool, ghost t: Tree)
      returns (curr: Ptr, fromLeft: bool, ghost ctx: seq<Frame>)
      requires Linked(nodes, t, None) && Distinct(t) && root == RootPtr(t)
      requires |keys| == |nodes| && StrictWeakOrder(less)
      requires HasKeys(keys, Inorder(t)) && SortedBy(keys, Inorder(t), less)
      ensures Plug(ctx, Nil) == t && curr == CtxParent(ctx) && (ctx != [] ==> fromLeft == ctx[0].isLeft)
      ensures HeightsFit(ctx, Nil) && Brackets(keys, ctx, k, less)
    {
      ghost var sub := t;
      ctx := [];
      curr, fromLeft := None, false;
      var next := root;
      while next.Some?
        invariant Plug(ctx, sub) == t && next == RootPtr(sub) && curr == CtxParent(ctx)
        invariant ctx != [] ==> fromLeft == ctx[0].isLeft
        invariant HeightsFit(ctx, sub) && Brackets(keys, ctx, k, less)
        decreases Size(sub)
      {
        var c := next.value;
        LinksAt(nodes, t, ctx, sub);
        DescendFits(ctx, sub);
        Descend(ctx, sub);
        curr := next;
        if less(k, keys[c]) {
          DescendLeftBrackets(keys, ctx, sub, k, less);
          next, fromLeft := nodes[c].left, true;
          ctx, sub := [LeftFrame(sub)] + ctx, sub.left;
        } else {
          DescendRightBrackets(keys, ctx, sub, k, less);
          next, fromLeft := nodes[c].right, false;
          ctx, sub := [RightFrame(sub)] + ctx, sub.right;
        }
      }
    }

    /**
     * `*from = &node; node->parent = curr`: hangs a fresh leaf below the
     * end of the path, on the side the search fell off. Without a parent
     * the leaf is the whole tree, and only the caller's root changes.
     */
    method AttachLeaf(parent: Ptr, fromLeft: bool, leaf: nat, ghost ctx: seq<Frame>)
      requires parent == CtxParent(ctx) && (ctx != [] ==> fromLeft == ctx[0].isLeft)
      requires CtxLinked(nodes, ctx, None) && CtxDistinct(ctx)
      requires leaf < |nodes| && nodes[leaf] == Leaf && leaf !in CtxIds(ctx)
      modifies this
      ensures parent.None? ==> nodes == old(nodes)[leaf := Leaf]
      ensures parent.Some? ==> nodes == old(nodes)[parent.value :=
        if fromLeft then old(nodes)[parent.value].(left := Some(leaf)) else old(nodes)[parent.value].(right := Some(leaf))]
        [leaf := Leaf.(parent := parent)]
      ensures Linked(nodes, Plug(ctx, Node(Nil, leaf, Nil)), None)
      ensures UnchangedOutside(old(nodes), nodes, PtrIds(parent) + {leaf}) && CachesKept(old(nodes), nodes, {})
    {
      if parent.Some? {
        var p := parent.value;
        if fromLeft {
          nodes := nodes[p := nodes[p].(left := Some(leaf))];
        } else {
          nodes := nodes[p := nodes[p].(right := Some(leaf))];
        }
        LinkedFrame(old(nodes), nodes, ctx[0].sibling, Some(p), {p});
        CtxLinkedFrame(old(nodes), nodes, ctx[1..], Some(p), {p});
      }
      ghost var hung := nodes;
      assert hung[leaf] == Leaf;
      nodes := nodes[leaf := nodes[leaf].(parent := parent)];
      CtxLinkedFrame(hung, nodes, ctx, Some(leaf), {leaf});
      assert Linked(nodes, Node(Nil, leaf, Nil), parent) by {
        assert nodes[leaf] == Leaf.(parent := parent);
      }
      LinkedPlug(nodes, ctx, Node(Nil, leaf, Nil));
    }

    /**
     * Insertion of a fresh leaf by key: `SearchPlace`, `AttachLeaf`, then
     * `fix` from the leaf, whose result is the new root. The tree stays an
     * AVL tree sorted by key and gains exactly the leaf, at position i of
     * the in-order sequence: after the nodes whose keys it is not less
     * than, before those it is less than.
     */
    method InsertBy<K(!new)>(root: Ptr, leaf: nat, keys: seq<K>, less: (K, K) -> bool, ghost t: Tree)
      returns (newRoot: nat, ghost t': Tree, ghost i: nat)
      requires IsAvl(nodes, t, None) && root == RootPtr(t)
      requires leaf < |nodes| && nodes[leaf] == Leaf && leaf !in Ids(t)
      requires |keys| == |nodes| && StrictWeakOrder(less)
      requires HasKeys(keys, Inorder(t)) && SortedBy(keys, Inorder(t), less)
      modifies this
      ensures IsAvl(nodes, t', None) && t'.Node? && newRoot == t'.id
      ensures i <= |Inorder(t)| && Inorder(t') == Inorder(t)[..i] + [leaf] + Inorder(t)[i..]
      ensures HasKeys(keys, Inorder(t')) && SortedBy(keys, Inorder(t'), less)
      ensures (forall x :: x in Inorder(t)[..i] ==> !less(keys[leaf], keys[x]))
           && (forall x :: x in Inorder(t)[i..] ==> less(keys[leaf], keys[x]))
      ensures Ids(t') == Ids(t) + {leaf}
      ensures UnchangedOutside(old(nodes), nodes, Ids(t) + {leaf})
    {
      var curr, fromLeft, ctx := SearchPlace(root, keys[leaf], keys, less, t);
      newRoot, t' := HangAndFix(curr, fromLeft, leaf, ctx, t);
      InsertShape(t, ctx, leaf);
      i := |CtxLeft(ctx)|;
      InsertSorted(keys, CtxLeft(ctx), CtxRight(ctx), leaf, less);
    }

    /** `AttachLeaf` at the end of the path, then `fix` from the leaf. */
    method HangAndFix(curr: Ptr, fromLeft: bool, leaf: nat, ghost ctx: seq<Frame>, ghost t: Tree)
      returns (newRoot: nat, ghost t': Tree)
      requires Linked(nodes, t, None) && Cached(nodes, t) && Distinct(t) && Plug(ctx, Nil) == t
      requires curr == CtxParent(ctx) && (ctx != [] ==> fromLeft == ctx[0].isLeft)
      requires leaf < |nodes| && nodes[leaf] == Leaf && leaf !in Ids(t)
      modifies this
      ensures t' == FixUp(ctx, Node(Nil, leaf, Nil)) && t'.Node? && newRoot == t'.id
      ensures Linked(nodes, t', None) && Cached(nodes, t')
      ensures UnchangedOutside(old(nodes), nodes, Ids(t) + {leaf})
    {
      ghost var leafNode := Node(Nil, leaf, Nil);
      LinkedPlug(nodes, ctx, Nil);
      DistinctPlug(ctx, Nil);
      IdsPlug(ctx, Nil);
      AttachLeaf(curr, fromLeft, leaf, ctx);
      ghost var hung := nodes;
      CachedKept(old(nodes), nodes, t, {});
      CachedPlug(nodes, ctx, Nil);
      DistinctPlug(ctx, leafNode);
      IdsPlug(ctx, leafNode);
      newRoot, t' := Fix(leaf, ctx, leafNode);
      UnchangedTrans(old(nodes), hung, nodes, PtrIds(curr) + {leaf}, Ids(Plug(ctx, leafNode)), Ids(t) + {leaf});
    }
  }
}
