/**
 * The shape side of the intrusive AVL tree: a ghost `Tree` of node ids,
 * the paths into it (zipper contexts), and the rebalancing steps of the
 * C code as functions on shapes. The pool module proves that its
 * pointer-manipulating methods build exactly these shapes; the lemmas
 * here prove what the shapes satisfy: the in-order sequence is kept, and
 * the result of `fix` is balanced when the tree was balanced before one
 * leaf was attached or one node was removed.
 */
module AvlTree {
  import opened Wire

  type Ptr = Option<nat>

  datatype Tree = Nil | Node(left: Tree, id: nat, right: Tree)

  function Max(a: nat, b: nat): nat
  {
    if a < b then b else a
  }

  function Height(t: Tree): nat
  {
    match t
    case Nil => 0
    case Node(l, _, r) => 1 + Max(Height(l), Height(r))
  }

  function Size(t: Tree): nat
  {
    match t
    case Nil => 0
    case Node(l, _, r) => Size(l) + 1 + Size(r)
  }

  function Inorder(t: Tree): (s: seq<nat>)
    ensures |s| == Size(t)
  {
    match t
    case Nil => []
    case Node(l, id, r) => Inorder(l) + [id] + Inorder(r)
  }

  function Ids(t: Tree): set<nat>
  {
    match t
    case Nil => {}
    case Node(l, id, r) => Ids(l) + {id} + Ids(r)
  }

  /** No id occurs twice. */
  predicate Distinct(t: Tree)
  {
    match t
    case Nil => true
    case Node(l, id, r) =>
      Distinct(l) && Distinct(r) && id !in Ids(l) && id !in Ids(r) && Ids(l) !! Ids(r)
  }

  /** The AVL height condition at every node: child heights differ by at most one. */
  predicate Balanced(t: Tree)
  {
    match t
    case Nil => true
    case Node(l, _, r) =>
      Balanced(l) && Balanced(r) && Height(l) <= Height(r) + 1 && Height(r) <= Height(l) + 1
  }

  function RootPtr(t: Tree): Ptr
  {
    if t.Nil? then None else Some(t.id)
  }

  lemma {:induction false} InorderIds(t: Tree)
    ensures forall x :: x in Inorder(t) <==> x in Ids(t)
  {
    if t.Node? {
      InorderIds(t.left);
      InorderIds(t.right);
    }
  }

  /** In a tree without repeated ids, the in-order sequence has no repeats either. */
  lemma {:induction false} DistinctInorder(t: Tree)
    requires Distinct(t)
    ensures forall i, j :: 0 <= i < j < |Inorder(t)| ==> Inorder(t)[i] != Inorder(t)[j]
  {
    if t.Node? {
      DistinctInorder(t.left);
      DistinctInorder(t.right);
      InorderIds(t.left);
      InorderIds(t.right);
      var l, r := Inorder(t.left), Inorder(t.right);
      var s := Inorder(t);
      forall i, j | 0 <= i < j < |s|
        ensures s[i] != s[j]
      {
        if j < |l| {
          assert s[i] == l[i] && s[j] == l[j];
        } else if j == |l| {
          assert s[i] == l[i] && s[j] == t.id;
        } else if i < |l| {
          assert s[i] == l[i] && s[j] == r[j - |l| - 1];
          assert l[i] in Ids(t.left) && r[j - |l| - 1] in Ids(t.right);
        } else if i == |l| {
          assert s[i] == t.id && s[j] == r[j - |l| - 1];
          assert r[j - |l| - 1] in Ids(t.right);
        } else {
          assert s[i] == r[i - |l| - 1] && s[j] == r[j - |l| - 1];
        }
      }
    }
  }

  // ---------------------------------------------------------------------
  // Paths: a context is the list of ancestors of a subtree, innermost first.

  /** One ancestor: its id, the side the subtree hangs on, the other child, and a recorded depth. */
  datatype Frame = Frame(isLeft: bool, id: nat, sibling: Tree, depth: nat)

  function Attach(f: Frame, t: Tree): Tree
  {
    if f.isLeft then Node(t, f.id, f.sibling) else Node(f.sibling, f.id, t)
  }

  /** The whole tree: t put back under every ancestor of the context. */
  function Plug(ctx: seq<Frame>, t: Tree): Tree
    decreases |ctx|
  {
    if ctx == [] then t else Plug(ctx[1..], Attach(ctx[0], t))
  }

  function CtxParent(ctx: seq<Frame>): Ptr
  {
    if ctx == [] then None else Some(ctx[0].id)
  }

  function CtxIds(ctx: seq<Frame>): set<nat>
    decreases |ctx|
  {
    if ctx == [] then {} else {ctx[0].id} + Ids(ctx[0].sibling) + CtxIds(ctx[1..])
  }

  /** The ids that come before the subtree in order. */
  function CtxLeft(ctx: seq<Frame>): seq<nat>
    decreases |ctx|
  {
    if ctx == [] then []
    else CtxLeft(ctx[1..]) + (if ctx[0].isLeft then [] else Inorder(ctx[0].sibling) + [ctx[0].id])
  }

  /** The ids that come after the subtree in order. */
  function CtxRight(ctx: seq<Frame>): seq<nat>
    decreases |ctx|
  {
    if ctx == [] then []
    else (if ctx[0].isLeft then [ctx[0].id] + Inorder(ctx[0].sibling) else []) + CtxRight(ctx[1..])
  }

  lemma {:induction false} InorderPlug(ctx: seq<Frame>, t: Tree)
    ensures Inorder(Plug(ctx, t)) == CtxLeft(ctx) + Inorder(t) + CtxRight(ctx)
    decreases |ctx|
  {
    if ctx != [] {
      var f, rest := ctx[0], ctx[1..];
      var a := Attach(f, t);
      InorderPlug(rest, a);
      var L, R := CtxLeft(rest), CtxRight(rest);
      if f.isLeft {
        assert CtxLeft(ctx) == L + [];
        JoinLeft(Inorder(Plug(rest, a)), L, Inorder(a), Inorder(t), f.id, Inorder(f.sibling), R);
      } else {
        assert CtxRight(ctx) == [] + R;
        JoinRight(Inorder(Plug(rest, a)), L, Inorder(a), Inorder(t), f.id, Inorder(f.sibling), R);
      }
    }
  }

  lemma JoinLeft(w: seq<nat>, L: seq<nat>, a: seq<nat>, m: seq<nat>, x: nat, s: seq<nat>, R: seq<nat>)
    requires w == L + a + R && a == m + [x] + s
    ensures w == L + [] + m + ([x] + s + R)
  {
  }

  lemma JoinRight(w: seq<nat>, L: seq<nat>, a: seq<nat>, m: seq<nat>, x: nat, s: seq<nat>, R: seq<nat>)
    requires w == L + a + R && a == s + [x] + m
    ensures w == L + (s + [x]) + m + ([] + R)
  {
  }

  lemma {:induction false} IdsPlug(ctx: seq<Frame>, t: Tree)
    ensures Ids(Plug(ctx, t)) == Ids(t) + CtxIds(ctx)
    decreases |ctx|
  {
    if ctx != [] {
      IdsPlug(ctx[1..], Attach(ctx[0], t));
    }
  }

  /** The ancestors and their other subtrees carry distinct ids. */
  predicate CtxDistinct(ctx: seq<Frame>)
    decreases |ctx|
  {
    ctx != [] ==>
      Distinct(ctx[0].sibling) && ctx[0].id !in Ids(ctx[0].sibling)
      && ({ctx[0].id} + Ids(ctx[0].sibling)) !! CtxIds(ctx[1..]) && CtxDistinct(ctx[1..])
  }

  lemma {:induction false} DistinctPlug(ctx: seq<Frame>, t: Tree)
    ensures Distinct(Plug(ctx, t)) <==> Distinct(t) && CtxDistinct(ctx) && Ids(t) !! CtxIds(ctx)
    decreases |ctx|
  {
    if ctx != [] {
      var a := Attach(ctx[0], t);
      DistinctPlug(ctx[1..], a);
    }
  }

  lemma {:induction false} PlugAppend(ctx: seq<Frame>, f: Frame, t: Tree)
    ensures Plug(ctx + [f], t) == Attach(f, Plug(ctx, t))
    decreases |ctx|
  {
    if ctx == [] {
      assert ([] + [f])[1..] == [];
    } else {
      assert (ctx + [f])[1..] == ctx[1..] + [f];
      PlugAppend(ctx[1..], f, Attach(ctx[0], t));
    }
  }

  /** Moving one level up a path: the ids stay the same and stay distinct. */
  lemma AscendIds(ctx: seq<Frame>, t: Tree, t': Tree)
    requires ctx != [] && Distinct(t) && CtxDistinct(ctx) && Ids(t) !! CtxIds(ctx)
    requires Distinct(t') && Ids(t') == Ids(t)
    ensures Distinct(Attach(ctx[0], t')) && CtxDistinct(ctx[1..])
    ensures Ids(Attach(ctx[0], t')) !! CtxIds(ctx[1..])
    ensures Ids(Attach(ctx[0], t')) + CtxIds(ctx[1..]) == Ids(t) + CtxIds(ctx)
  {
  }

  // ---------------------------------------------------------------------
  // Locating a node, its rank and its removal from the in-order sequence.

  /** Each recorded depth is the height of the ancestor's subtree. */
  predicate HeightsFit(ctx: seq<Frame>, t: Tree)
    decreases |ctx|
  {
    ctx != [] ==>
      ctx[0].depth == Height(Attach(ctx[0], t)) && HeightsFit(ctx[1..], Attach(ctx[0], t))
  }

  lemma {:induction false} HeightsFitAppend(ctx: seq<Frame>, f: Frame, t: Tree)
    requires HeightsFit(ctx, t) && f.depth == Height(Attach(f, Plug(ctx, t)))
    ensures HeightsFit(ctx + [f], t)
    decreases |ctx|
  {
    if ctx == [] {
      assert ([] + [f])[1..] == [];
    } else {
      assert (ctx + [f])[1..] == ctx[1..] + [f];
      HeightsFitAppend(ctx[1..], f, Attach(ctx[0], t));
    }
  }

  /** The path to the node with the given id and the subtree rooted there. */
  function Locate(t: Tree, id: nat): (r: (seq<Frame>, Tree))
    requires id in Ids(t)
    ensures r.1.Node? && r.1.id == id && Plug(r.0, r.1) == t && HeightsFit(r.0, r.1)
    decreases t
  {
    if t.id == id then ([], t)
    else if id in Ids(t.left) then
      var (c, s) := Locate(t.left, id);
      var f := Frame(true, t.id, t.right, Height(t));
      PlugAppend(c, f, s);
      HeightsFitAppend(c, f, s);
      (c + [f], s)
    else
      var (c, s) := Locate(t.right, id);
      var f := Frame(false, t.id, t.left, Height(t));
      PlugAppend(c, f, s);
      HeightsFitAppend(c, f, s);
      (c + [f], s)
  }

  /** The in-order position of a node. */
  function Rank(t: Tree, id: nat): nat
    requires id in Ids(t)
  {
    var loc := Locate(t, id);
    |CtxLeft(loc.0)| + Size(loc.1.left)
  }

  /** The node sits at its rank. */
  lemma RankIndex(t: Tree, id: nat)
    requires id in Ids(t)
    ensures Rank(t, id) < Size(t) && Inorder(t)[Rank(t, id)] == id
  {
    var loc := Locate(t, id);
    InorderAt(t, id);
    IndexMid(Inorder(t), CtxLeft(loc.0), Inorder(loc.1.left), id, Inorder(loc.1.right), CtxRight(loc.0), Rank(t, id));
  }

  lemma IndexMid(s: seq<nat>, a: seq<nat>, l: seq<nat>, x: nat, r: seq<nat>, c: seq<nat>, i: nat)
    requires s == a + l + [x] + r + c && i == |a| + |l|
    ensures i < |s| && s[i] == x
  {
  }

  /** In a tree without repeats, a position holding the node is its rank. */
  lemma RankUnique(t: Tree, id: nat, i: nat)
    requires Distinct(t) && id in Ids(t) && i < Size(t) && Inorder(t)[i] == id
    ensures i == Rank(t, id)
  {
    RankIndex(t, id);
    DistinctInorder(t);
    var r := Rank(t, id);
    var s := Inorder(t);
  }

  /** The in-order sequence around a located node. */
  lemma InorderAt(t: Tree, id: nat)
    requires id in Ids(t)
    ensures var loc := Locate(t, id);
      Inorder(t) == CtxLeft(loc.0) + Inorder(loc.1.left) + [id] + Inorder(loc.1.right) + CtxRight(loc.0)
  {
    var loc := Locate(t, id);
    InorderAround(loc.0, loc.1);
  }

  /** The in-order sequence around the root of a plugged subtree. */
  lemma InorderAround(ctx: seq<Frame>, sub: Tree)
    requires sub.Node?
    ensures Inorder(Plug(ctx, sub)) == CtxLeft(ctx) + Inorder(sub.left) + [sub.id] + Inorder(sub.right) + CtxRight(ctx)
  {
    InorderPlug(ctx, sub);
    Assoc5(CtxLeft(ctx), Inorder(sub.left), sub.id, Inorder(sub.right), CtxRight(ctx));
  }

  /** The in-order positions the subtree occupies in the whole tree include i. */
  predicate Covers(ctx: seq<Frame>, sub: Tree, i: int)
  {
    |CtxLeft(ctx)| <= i < |CtxLeft(ctx)| + Size(sub)
  }

  /** The ancestor frame a subtree's root becomes when descending to its right child. */
  function RightFrame(t: Tree): Frame
    requires t.Node?
  {
    Frame(false, t.id, t.left, Height(t))
  }

  /** The ancestor frame a subtree's root becomes when descending to its left child. */
  function LeftFrame(t: Tree): Frame
    requires t.Node?
  {
    Frame(true, t.id, t.right, Height(t))
  }

  /** Descending keeps the whole tree; to the right, the nodes before grow by the left subtree and the root. */
  lemma Descend(ctx: seq<Frame>, sub: Tree)
    requires sub.Node?
    ensures Plug([RightFrame(sub)] + ctx, sub.right) == Plug(ctx, sub)
    ensures Plug([LeftFrame(sub)] + ctx, sub.left) == Plug(ctx, sub)
    ensures |CtxLeft([RightFrame(sub)] + ctx)| == |CtxLeft(ctx)| + Size(sub.left) + 1
    ensures CtxLeft([LeftFrame(sub)] + ctx) == CtxLeft(ctx)
  {
    assert ([RightFrame(sub)] + ctx)[1..] == ctx;
    assert ([LeftFrame(sub)] + ctx)[1..] == ctx;
  }

  /** Ascending keeps the whole tree; from a right child, the nodes before shrink by the sibling and the parent. */
  lemma AscendFrame(ctx: seq<Frame>, sub: Tree)
    requires ctx != []
    ensures Plug(ctx[1..], Attach(ctx[0], sub)) == Plug(ctx, sub)
    ensures |CtxLeft(ctx)| == |CtxLeft(ctx[1..])| + if ctx[0].isLeft then 0 else Size(ctx[0].sibling) + 1
  {
  }

  /** The steps of `offset`: a target inside the right subtree is covered by it, one level lower. */
  lemma OffsetDownRight(ctx: seq<Frame>, sub: Tree, target: int)
    requires sub.Node? && |CtxLeft(ctx)| + Size(sub.left) < target <= |CtxLeft(ctx)| + Size(sub.left) + Size(sub.right)
    ensures var ctx' := [RightFrame(sub)] + ctx;
      Plug(ctx', sub.right) == Plug(ctx, sub) && |CtxLeft(ctx')| == |CtxLeft(ctx)| + Size(sub.left) + 1
      && Covers(ctx, sub, target) && Covers(ctx', sub.right, target) && Height(sub.right) < Height(sub)
  {
    Descend(ctx, sub);
  }

  lemma OffsetDownLeft(ctx: seq<Frame>, sub: Tree, target: int)
    requires sub.Node? && |CtxLeft(ctx)| <= target < |CtxLeft(ctx)| + Size(sub.left)
    ensures var ctx' := [LeftFrame(sub)] + ctx;
      Plug(ctx', sub.left) == Plug(ctx, sub) && |CtxLeft(ctx')| == |CtxLeft(ctx)|
      && Covers(ctx, sub, target) && Covers(ctx', sub.left, target) && Height(sub.left) < Height(sub)
  {
    Descend(ctx, sub);
  }

  /** A target outside the subtree: at the root it is outside the tree, else the walk goes up a level. */
  lemma OffsetUp(ctx: seq<Frame>, sub: Tree, target: int)
    requires sub.Node? && !Covers(ctx, sub, target)
    ensures ctx == [] ==> !(0 <= target < |Inorder(Plug(ctx, sub))|)
    ensures ctx != [] ==> Plug(ctx[1..], Attach(ctx[0], sub)) == Plug(ctx, sub)
    ensures ctx != [] && ctx[0].isLeft ==>
      |CtxLeft(ctx[1..])| + Size(Attach(ctx[0], sub).left) == |CtxLeft(ctx)| + Size(sub.left) + Size(sub.right) + 1
    ensures ctx != [] && !ctx[0].isLeft ==>
      |CtxLeft(ctx[1..])| + Size(Attach(ctx[0], sub).left) + Size(sub.left) + 1 == |CtxLeft(ctx)| + Size(sub.left)
  {
    if ctx != [] {
      AscendFrame(ctx, sub);
    }
  }

  lemma Assoc5(a: seq<nat>, l: seq<nat>, x: nat, r: seq<nat>, c: seq<nat>)
    ensures a + (l + [x] + r) + c == a + l + [x] + r + c
  {
  }

  /** The in-order sequence without the node: what deleting it must leave. */
  function Without(t: Tree, id: nat): (s: seq<nat>)
    requires id in Ids(t)
  {
    var i := Rank(t, id);
    RankIndex(t, id);
    Inorder(t)[..i] + Inorder(t)[i + 1..]
  }

  /** Deleting an id removes exactly one occurrence from the in-order multiset. */
  lemma WithoutRemovesOne(t: Tree, id: nat)
    requires id in Ids(t)
    ensures multiset(Without(t, id)) + multiset{id} == multiset(Inorder(t))
  {
    var i := Rank(t, id);
    RankIndex(t, id);
    var s := Inorder(t);
    var a, b := s[..i], s[i + 1..];
    SplitAt(s, i);
    calc {
      multiset(s);
      multiset(a + [id] + b);
      multiset(a) + multiset{id} + multiset(b);
      multiset(a + b) + multiset{id};
    }
  }

  lemma SplitAt(s: seq<nat>, i: nat)
    requires i < |s|
    ensures s == s[..i] + [s[i]] + s[i + 1..]
  {
  }

  /** The leftmost node of a non-empty tree. */
  function Leftmost(t: Tree): nat
    requires t.Node?
  {
    if t.left.Nil? then t.id else Leftmost(t.left)
  }

  lemma {:induction false} LeftmostFirst(t: Tree)
    requires t.Node?
    ensures Inorder(t)[0] == Leftmost(t)
  {
    if t.left.Node? {
      LeftmostFirst(t.left);
    }
  }

  lemma {:induction false} LeftmostIn(t: Tree)
    requires t.Node?
    ensures Leftmost(t) in Ids(t)
  {
    if t.left.Node? {
      LeftmostIn(t.left);
    }
  }

  /** Removing a node leaves what is left of it in the path and its two subtrees, in order. */
  lemma WithoutAt(t: Tree, id: nat)
    requires id in Ids(t)
    ensures var loc := Locate(t, id);
      Without(t, id) == CtxLeft(loc.0) + Inorder(loc.1.left) + Inorder(loc.1.right) + CtxRight(loc.0)
  {
    var loc := Locate(t, id);
    InorderAt(t, id);
    DropAround(Inorder(t), CtxLeft(loc.0), Inorder(loc.1.left), id, Inorder(loc.1.right), CtxRight(loc.0), Rank(t, id));
  }

  lemma DropAround(s: seq<nat>, a: seq<nat>, l: seq<nat>, x: nat, r: seq<nat>, c: seq<nat>, i: nat)
    requires s == a + l + [x] + r + c && i == |a| + |l|
    ensures s[..i] + s[i + 1..] == a + l + r + c
  {
    assert s[..i] == a + l;
    assert s[i + 1..] == r + c;
  }

  /** Dropping position i + 1, where v sits, then writing v at i, is dropping position i. */
  lemma DropNext(s: seq<nat>, i: nat, v: nat)
    requires i + 1 < |s| && s[i + 1] == v
    ensures (s[..i + 1] + s[i + 2..])[i := v] == s[..i] + s[i + 1..]
  {
  }

  /**
   * The leftmost node of a node's right subtree comes right after the
   * node in order: it is the node's in-order successor.
   */
  lemma SuccessorRank(t: Tree, id: nat)
    requires Distinct(t) && id in Ids(t) && Locate(t, id).1.right.Node?
    ensures var v := Leftmost(Locate(t, id).1.right);
      v in Ids(t) && Rank(t, v) == Rank(t, id) + 1
  {
    var loc := Locate(t, id);
    var v := Leftmost(loc.1.right);
    assert v in Ids(t) by {
      IdsPlug(loc.0, loc.1);
      LeftmostIn(loc.1.right);
    }
    LeftmostFirst(loc.1.right);
    InorderAt(t, id);
    IndexNext(Inorder(t), CtxLeft(loc.0), Inorder(loc.1.left), id, Inorder(loc.1.right), CtxRight(loc.0), Rank(t, id));
    RankUnique(t, v, Rank(t, id) + 1);
  }

  lemma IndexNext(s: seq<nat>, a: seq<nat>, l: seq<nat>, x: nat, r: seq<nat>, c: seq<nat>, i: nat)
    requires s == a + l + [x] + r + c && i == |a| + |l| && r != []
    ensures i + 1 < |s| && s[i + 1] == r[0]
  {
  }

  /** Replacing one id by another in place keeps all heights, hence balance. */
  lemma {:induction false} BalancedPlugSwap(ctx: seq<Frame>, x: Tree, y: Tree)
    requires Balanced(Plug(ctx, x)) && Balanced(y) && Height(y) == Height(x)
    ensures Balanced(Plug(ctx, y))
    decreases |ctx|
  {
    if ctx != [] {
      BalancedPlugInner(ctx[1..], Attach(ctx[0], x));
      BalancedPlugSwap(ctx[1..], Attach(ctx[0], x), Attach(ctx[0], y));
    }
  }

  lemma {:induction false} BalancedPlugInner(ctx: seq<Frame>, x: Tree)
    requires Balanced(Plug(ctx, x))
    ensures Balanced(x)
    decreases |ctx|
  {
    if ctx != [] {
      BalancedPlugInner(ctx[1..], Attach(ctx[0], x));
    }
  }

  /**
   * `del` of a node with a right subtree: its successor v is deleted
   * first, giving t1, then v takes the node's place in t1. The in-order
   * sequence is then that of t without the node.
   */
  lemma SwapInorder(t: Tree, t1: Tree, id: nat, v: nat)
    requires Distinct(t) && Distinct(t1) && id in Ids(t) && v in Ids(t) && id in Ids(t1)
    requires Rank(t, v) == Rank(t, id) + 1 && Inorder(t1) == Without(t, v)
    ensures var loc := Locate(t1, id);
      Inorder(Plug(loc.0, Node(loc.1.left, v, loc.1.right))) == Without(t, id)
  {
    var loc := Locate(t1, id);
    SwapParts(t, t1, id, v);
    InorderAround(loc.0, Node(loc.1.left, v, loc.1.right));
  }

  /** The pieces of t1 around the node, with v in the node's place, spell t without the node. */
  lemma SwapParts(t: Tree, t1: Tree, id: nat, v: nat)
    requires Distinct(t) && Distinct(t1) && id in Ids(t) && v in Ids(t) && id in Ids(t1)
    requires Rank(t, v) == Rank(t, id) + 1 && Inorder(t1) == Without(t, v)
    ensures var loc := Locate(t1, id);
      CtxLeft(loc.0) + Inorder(loc.1.left) + [v] + Inorder(loc.1.right) + CtxRight(loc.0) == Without(t, id)
  {
    var loc := Locate(t1, id);
    var a, l, r, c := CtxLeft(loc.0), Inorder(loc.1.left), Inorder(loc.1.right), CtxRight(loc.0);
    var s, i, j := Inorder(t), Rank(t, id), Rank(t, v);
    assert Inorder(t1) == a + l + [id] + r + c by {
      InorderAt(t1, id);
    }
    assert i == |a| + |l| by {
      RankKept(t, t1, id, v);
    }
    assert j < |s| && s[j] == v by {
      RankIndex(t, v);
    }
    assert Inorder(t1) == s[..j] + s[j + 1..];
    SwapSeq(s, Inorder(t1), i, j, id, v, a, l, r, c);
  }

  /** Deleting the successor of a node leaves the node's rank unchanged. */
  lemma RankKept(t: Tree, t1: Tree, id: nat, v: nat)
    requires Distinct(t1) && id in Ids(t) && v in Ids(t) && id in Ids(t1)
    requires Rank(t, v) == Rank(t, id) + 1 && Inorder(t1) == Without(t, v)
    ensures Rank(t1, id) == Rank(t, id)
  {
    var rn := Rank(t, id);
    RankIndex(t, id);
    RankIndex(t, v);
    assert Inorder(t1)[rn] == id;
    RankUnique(t1, id, rn);
  }

  lemma SwapSeq(s: seq<nat>, s1: seq<nat>, i: nat, j: nat, x: nat, v: nat, a: seq<nat>, l: seq<nat>, r: seq<nat>, c: seq<nat>)
    requires j == i + 1 && j < |s| && s[j] == v
    requires s1 == s[..j] + s[j + 1..] && s1 == a + l + [x] + r + c && i == |a| + |l|
    ensures a + l + [v] + r + c == s[..i] + s[i + 1..]
  {
    assert a + l + [v] + r + c == s1[i := v];
    DropNext(s, i, v);
  }

  /** Above a non-empty path, the root does not depend on the subtree plugged in. */
  lemma {:induction false} RootPlug(ctx: seq<Frame>, x: Tree, y: Tree)
    requires ctx != []
    ensures Plug(ctx, x).Node? && Plug(ctx, y).Node? && Plug(ctx, x).id == Plug(ctx, y).id
    decreases |ctx|
  {
    if |ctx| > 1 {
      RootPlug(ctx[1..], Attach(ctx[0], x), Attach(ctx[0], y));
    }
  }

  /** Putting a fresh id in place of a subtree's root keeps balance and distinctness, and swaps the ids. */
  lemma SwapInPlace(ctx: seq<Frame>, sub: Tree, v: nat)
    requires sub.Node? && Balanced(Plug(ctx, sub)) && Distinct(Plug(ctx, sub)) && v !in Ids(Plug(ctx, sub))
    ensures var y := Node(sub.left, v, sub.right);
      Balanced(Plug(ctx, y)) && Distinct(Plug(ctx, y)) && Ids(Plug(ctx, y)) == Ids(Plug(ctx, sub)) - {sub.id} + {v}
  {
    var y := Node(sub.left, v, sub.right);
    assert Balanced(Plug(ctx, y)) by {
      BalancedPlugInner(ctx, sub);
      BalancedPlugSwap(ctx, sub, y);
    }
    DistinctPlug(ctx, sub);
    DistinctPlug(ctx, y);
    IdsPlug(ctx, sub);
    IdsPlug(ctx, y);
  }

  /**
   * `del` of a node with a right subtree, on shapes: once its successor v
   * is deleted, giving t1, v takes the node's place in t1. The result is
   * balanced, without repeats, holds the ids of t but the node, and its
   * in-order sequence is that of t without the node.
   */
  lemma SwapShape(t: Tree, t1: Tree, id: nat, v: nat)
    requires Distinct(t) && Balanced(t1) && Distinct(t1) && id in Ids(t) && v in Ids(t)
    requires Ids(t1) == Ids(t) - {v} && Rank(t, v) == Rank(t, id) + 1 && Inorder(t1) == Without(t, v)
    ensures id in Ids(t1)
    ensures var loc := Locate(t1, id);
      var t2 := Plug(loc.0, Node(loc.1.left, v, loc.1.right));
      Balanced(t2) && Distinct(t2) && Ids(t2) == Ids(t) - {id} && Inorder(t2) == Without(t, id)
  {
    assert id in Ids(t1);
    var loc := Locate(t1, id);
    SwapInPlace(loc.0, loc.1, v);
    SwapInorder(t, t1, id, v);
  }

  // ---------------------------------------------------------------------
  // The rebalancing steps as functions on shapes.

  /** `rotateLeft`: the right child becomes the subtree root. */
  function RotateLeftTree(t: Tree): (r: Tree)
    requires t.Node? && t.right.Node?
    ensures Inorder(r) == Inorder(t) && Ids(r) == Ids(t) && (Distinct(t) ==> Distinct(r))
  {
    assert Distinct(t) ==> Distinct(t.right);
    Node(Node(t.left, t.id, t.right.left), t.right.id, t.right.right)
  }

  /** `rotateRight`: the left child becomes the subtree root. */
  function RotateRightTree(t: Tree): (r: Tree)
    requires t.Node? && t.left.Node?
    ensures Inorder(r) == Inorder(t) && Ids(r) == Ids(t) && (Distinct(t) ==> Distinct(r))
  {
    assert Distinct(t) ==> Distinct(t.left);
    Node(t.left.left, t.left.id, Node(t.left.right, t.id, t.right))
  }

  /** `fixLeft`: a right-leaning left child is rotated left first, then the root is rotated right. */
  function FixLeftTree(t: Tree): (r: Tree)
    requires t.Node? && t.left.Node?
    ensures Inorder(r) == Inorder(t) && Ids(r) == Ids(t) && (Distinct(t) ==> Distinct(r))
  {
    var l := if Height(t.left.left) < Height(t.left.right) then RotateLeftTree(t.left) else t.left;
    RotateRightTree(Node(l, t.id, t.right))
  }

  /** `fixRight`: mirror image of `FixLeftTree`. */
  function FixRightTree(t: Tree): (r: Tree)
    requires t.Node? && t.right.Node?
    ensures Inorder(r) == Inorder(t) && Ids(r) == Ids(t) && (Distinct(t) ==> Distinct(r))
  {
    var r := if Height(t.right.right) < Height(t.right.left) then RotateRightTree(t.right) else t.right;
    RotateLeftTree(Node(t.left, t.id, r))
  }

  /** One iteration of `fix` on a subtree: rotate when the child heights differ by exactly two. */
  function FixNode(t: Tree): (r: Tree)
    requires t.Node?
    ensures r.Node? && Inorder(r) == Inorder(t) && Ids(r) == Ids(t) && (Distinct(t) ==> Distinct(r))
  {
    var l, h := Height(t.left), Height(t.right);
    if l == h + 2 then FixLeftTree(t)
    else if l + 2 == h then FixRightTree(t)
    else t
  }

  /** `fix` on shapes: fix the subtree, hang it under its parent, repeat up to the root. */
  function FixUp(ctx: seq<Frame>, t: Tree): Tree
    requires t.Node?
    decreases |ctx|
  {
    if ctx == [] then FixNode(t) else FixUp(ctx[1..], Attach(ctx[0], FixNode(t)))
  }

  /** `fix` keeps the in-order sequence of the whole tree. */
  lemma {:induction false} InorderFixUp(ctx: seq<Frame>, t: Tree)
    requires t.Node?
    ensures Inorder(FixUp(ctx, t)) == Inorder(Plug(ctx, t))
    decreases |ctx|
  {
    if ctx != [] {
      var t' := FixNode(t);
      InorderFixUp(ctx[1..], Attach(ctx[0], t'));
      InorderPlug(ctx, t);
      InorderPlug(ctx, t');
    }
  }

  /** `fix` keeps the ids of the whole tree and their distinctness. */
  lemma {:induction false} IdsFixUp(ctx: seq<Frame>, t: Tree)
    requires t.Node?
    ensures Ids(FixUp(ctx, t)) == Ids(Plug(ctx, t))
    ensures Distinct(Plug(ctx, t)) ==> Distinct(FixUp(ctx, t))
    decreases |ctx|
  {
    if ctx != [] {
      var t' := FixNode(t);
      IdsFixUp(ctx[1..], Attach(ctx[0], t'));
      IdsPlug(ctx, t);
      IdsPlug(ctx, t');
      DistinctPlug(ctx, t);
      DistinctPlug(ctx, t');
    }
  }

  // ---------------------------------------------------------------------
  // Balance.

  lemma FixLeftBalanced(t: Tree)
    requires t.Node? && t.left.Node? && Balanced(t.left) && Balanced(t.right)
    requires Height(t.left) == Height(t.right) + 2
    ensures Balanced(FixLeftTree(t))
    ensures Height(t.right) + 2 <= Height(FixLeftTree(t)) <= Height(t.right) + 3
  {
    var h := Height(t.right);
    var L := t.left;
    if Height(L.left) < Height(L.right) {
      var M := L.right;
      assert Height(M.left) <= h && Height(M.right) <= h;
      assert Height(FixLeftTree(t)) == h + 2;
    }
  }

  lemma FixRightBalanced(t: Tree)
    requires t.Node? && t.right.Node? && Balanced(t.left) && Balanced(t.right)
    requires Height(t.right) == Height(t.left) + 2
    ensures Balanced(FixRightTree(t))
    ensures Height(t.left) + 2 <= Height(FixRightTree(t)) <= Height(t.left) + 3
  {
    var h := Height(t.left);
    var R := t.right;
    if Height(R.right) < Height(R.left) {
      var M := R.left;
      assert Height(M.left) <= h && Height(M.right) <= h;
      assert Height(FixRightTree(t)) == h + 2;
    }
  }

  /**
   * One rebalancing step at an ancestor whose recorded depth D is its
   * height before the change: when the other child is within [D-2, D-1]
   * and the changed child within [D-3, D], the fixed subtree is balanced
   * and its height is within [D-1, D+1].
   */
  lemma FixAtFrame(f: Frame, t: Tree)
    requires Balanced(t) && Balanced(f.sibling)
    requires f.depth <= Height(t) + 3 && Height(t) <= f.depth
    requires f.depth <= Height(f.sibling) + 2 && Height(f.sibling) + 1 <= f.depth
    ensures Balanced(FixNode(Attach(f, t)))
    ensures f.depth <= Height(FixNode(Attach(f, t))) + 1 && Height(FixNode(Attach(f, t))) <= f.depth + 1
  {
    var a := Attach(f, t);
    if Height(a.left) == Height(a.right) + 2 {
      FixLeftBalanced(a);
    } else if Height(a.left) + 2 == Height(a.right) {
      FixRightBalanced(a);
    }
  }

  /**
   * What the ancestors of a changed subtree satisfy, when their recorded
   * depths are their heights in a balanced tree: balanced siblings within
   * [D-2, D-1], and each recorded depth within [D'-2, D'-1] of its parent's D'.
   */
  predicate FramesOK(ctx: seq<Frame>)
    decreases |ctx|
  {
    ctx != [] ==>
      Balanced(ctx[0].sibling)
      && ctx[0].depth <= Height(ctx[0].sibling) + 2 && Height(ctx[0].sibling) + 1 <= ctx[0].depth
      && (|ctx| > 1 ==> ctx[1].depth <= ctx[0].depth + 2 && ctx[0].depth + 1 <= ctx[1].depth)
      && FramesOK(ctx[1..])
  }

  /** The path to any subtree of a balanced tree, with heights recorded, satisfies `FramesOK`. */
  lemma {:induction false} FramesOfBalanced(ctx: seq<Frame>, t: Tree)
    requires Balanced(Plug(ctx, t)) && HeightsFit(ctx, t)
    ensures Balanced(t) && FramesOK(ctx)
    ensures ctx != [] ==> ctx[0].depth <= Height(t) + 2 && Height(t) + 1 <= ctx[0].depth
    decreases |ctx|
  {
    if ctx != [] {
      FramesOfBalanced(ctx[1..], Attach(ctx[0], t));
    }
  }

  /**
   * The condition on the subtree where `fix` starts: its children are
   * balanced and differ in height by at most two, and once fixed it fits
   * under its parent's recorded depth D, within [D-3, D].
   */
  predicate Pending(ctx: seq<Frame>, t: Tree)
    requires t.Node?
  {
    Balanced(t.left) && Balanced(t.right)
    && Height(t.left) <= Height(t.right) + 2 && Height(t.right) <= Height(t.left) + 2
    && (ctx != [] ==> ctx[0].depth <= Height(FixNode(t)) + 3 && Height(FixNode(t)) <= ctx[0].depth)
  }

  lemma FixNodeBalanced(t: Tree)
    requires t.Node? && Balanced(t.left) && Balanced(t.right)
    requires Height(t.left) <= Height(t.right) + 2 && Height(t.right) <= Height(t.left) + 2
    ensures Balanced(FixNode(t))
  {
    if Height(t.left) == Height(t.right) + 2 {
      FixLeftBalanced(t);
    } else if Height(t.left) + 2 == Height(t.right) {
      FixRightBalanced(t);
    }
  }

  /** `fix` started on a pending subtree below ancestors satisfying `FramesOK` ends with a balanced tree. */
  lemma {:induction false} FixUpBalanced(ctx: seq<Frame>, t: Tree)
    requires t.Node? && Pending(ctx, t) && FramesOK(ctx)
    ensures Balanced(FixUp(ctx, t))
    decreases |ctx|
  {
    FixNodeBalanced(t);
    if ctx != [] {
      var t' := FixNode(t);
      var a := Attach(ctx[0], t');
      FixAtFrame(ctx[0], t');
      FixUpBalanced(ctx[1..], a);
    }
  }

  /** A fresh leaf attached at the bottom of a path of a balanced tree is pending. */
  lemma LeafIsPending(ctx: seq<Frame>, leaf: nat)
    requires Balanced(Plug(ctx, Nil)) && HeightsFit(ctx, Nil)
    ensures Pending(ctx, Node(Nil, leaf, Nil)) && FramesOK(ctx)
  {
    FramesOfBalanced(ctx, Nil);
  }

  /**
   * Removing a node that has no right child from a balanced tree: its
   * left subtree takes its place and `fix` starts at its former parent,
   * which is pending.
   */
  lemma RemovalIsPending(ctx: seq<Frame>, l: Tree, id: nat)
    requires ctx != [] && Balanced(Plug(ctx, Node(l, id, Nil))) && HeightsFit(ctx, Node(l, id, Nil))
    ensures Pending(ctx[1..], Attach(ctx[0], l)) && FramesOK(ctx[1..])
  {
    FramesOfBalanced(ctx, Node(l, id, Nil));
    FixAtFrame(ctx[0], l);
  }

  /**
   * `del` of a node without a right subtree, on shapes: its left subtree
   * takes its place, and `fix` runs from its former parent, if any. The
   * result is balanced, without repeats, holds the ids of t but the node,
   * and its in-order sequence is that of t without the node.
   */
  lemma RemoveShape(t: Tree, id: nat)
    requires Balanced(t) && Distinct(t) && id in Ids(t) && Locate(t, id).1.right.Nil?
    ensures var loc := Locate(t, id);
      var t' := if loc.0 == [] then loc.1.left else FixUp(loc.0[1..], Attach(loc.0[0], loc.1.left));
      Balanced(t') && Distinct(t') && Ids(t') == Ids(t) - {id} && Inorder(t') == Without(t, id)
  {
    var loc := Locate(t, id);
    var ctx, l := loc.0, loc.1.left;
    SpliceOut(t, id);
    if ctx == [] {
      assert Balanced(l);
    } else {
      FixBelowRemoval(ctx, l, id);
    }
  }

  /** Plugging the left subtree of a node without a right one into the node's place drops exactly that node. */
  lemma SpliceOut(t: Tree, id: nat)
    requires Distinct(t) && id in Ids(t) && Locate(t, id).1.right.Nil?
    ensures var loc := Locate(t, id);
      var p := Plug(loc.0, loc.1.left);
      Distinct(p) && Ids(p) == Ids(t) - {id} && Inorder(p) == Without(t, id)
  {
    var loc := Locate(t, id);
    SpliceOutIds(loc.0, loc.1, t);
    SpliceOutOrder(t, id);
  }

  lemma SpliceOutIds(ctx: seq<Frame>, sub: Tree, t: Tree)
    requires Distinct(t) && Plug(ctx, sub) == t && sub.Node? && sub.right.Nil?
    ensures Distinct(Plug(ctx, sub.left)) && Ids(Plug(ctx, sub.left)) == Ids(t) - {sub.id}
  {
    DistinctPlug(ctx, sub);
    DistinctPlug(ctx, sub.left);
    IdsPlug(ctx, sub);
    IdsPlug(ctx, sub.left);
  }

  lemma SpliceOutOrder(t: Tree, id: nat)
    requires id in Ids(t) && Locate(t, id).1.right.Nil?
    ensures var loc := Locate(t, id);
      Inorder(Plug(loc.0, loc.1.left)) == Without(t, id)
  {
    var loc := Locate(t, id);
    var ctx, l := loc.0, loc.1.left;
    WithoutAt(t, id);
    InorderPlug(ctx, l);
    DropEmpty(CtxLeft(ctx) + Inorder(l), Inorder(loc.1.right), CtxRight(ctx));
  }

  lemma DropEmpty(a: seq<nat>, e: seq<nat>, b: seq<nat>)
    requires e == []
    ensures a + e + b == a + b
  {
  }

  lemma FixBelowRemoval(ctx: seq<Frame>, l: Tree, id: nat)
    requires ctx != [] && Balanced(Plug(ctx, Node(l, id, Nil))) && HeightsFit(ctx, Node(l, id, Nil))
    ensures var t' := FixUp(ctx[1..], Attach(ctx[0], l));
      Balanced(t') && Inorder(t') == Inorder(Plug(ctx, l)) && Ids(t') == Ids(Plug(ctx, l))
      && (Distinct(Plug(ctx, l)) ==> Distinct(t'))
  {
    var a := Attach(ctx[0], l);
    assert Plug(ctx, l) == Plug(ctx[1..], a);
    RemovalIsPending(ctx, l, id);
    FixUpBalanced(ctx[1..], a);
    InorderFixUp(ctx[1..], a);
    IdsFixUp(ctx[1..], a);
  }

  // ---------------------------------------------------------------------
  // Search trees: every node carries a key, compared with `less`.

  /**
   * `less` is a strict weak order: never both ways, and "not less" is
   * transitive. The search loops over the tree rely on nothing more.
   */
  ghost predicate StrictWeakOrder<K(!new)>(less: (K, K) -> bool)
  {
    (forall a, b :: less(a, b) ==> !less(b, a))
    && (forall a, b, c :: !less(a, b) && !less(b, c) ==> !less(a, c))
  }

  /** Every id in s has a key. */
  predicate HasKeys<K>(keys: seq<K>, s: seq<nat>)
  {
    forall i :: 0 <= i < |s| ==> s[i] < |keys|
  }

  /** No node's key is less than the key of a node before it. */
  predicate SortedBy<K>(keys: seq<K>, s: seq<nat>, less: (K, K) -> bool)
    requires HasKeys(keys, s)
  {
    forall i, j :: 0 <= i < j < |s| ==> !less(keys[s[j]], keys[s[i]])
  }

  /** The keys of the ids in s, in order. */
  function KeysOf<K>(keys: seq<K>, s: seq<nat>): (r: seq<K>)
    requires HasKeys(keys, s)
    ensures |r| == |s|
  {
    seq(|s|, i requires 0 <= i < |s| => keys[s[i]])
  }

  lemma KeysOfAppend<K>(keys: seq<K>, a: seq<nat>, b: seq<nat>)
    requires HasKeys(keys, a) && HasKeys(keys, b)
    ensures HasKeys(keys, a + b) && KeysOf(keys, a + b) == KeysOf(keys, a) + KeysOf(keys, b)
  {
  }

  /** The keys of s depend only on the keys of the ids in s. */
  lemma KeysOfFrame<K>(keys: seq<K>, keys': seq<K>, s: seq<nat>)
    requires HasKeys(keys, s) && HasKeys(keys', s)
    requires forall i :: 0 <= i < |s| ==> keys'[s[i]] == keys[s[i]]
    ensures KeysOf(keys', s) == KeysOf(keys, s)
  {
  }

  /** Sortedness depends only on the keys of the ids in s. */
  lemma SortedByFrame<K>(keys: seq<K>, keys': seq<K>, s: seq<nat>, less: (K, K) -> bool)
    requires HasKeys(keys, s) && HasKeys(keys', s) && SortedBy(keys, s, less)
    requires forall i :: 0 <= i < |s| ==> keys'[s[i]] == keys[s[i]]
    ensures SortedBy(keys', s, less)
  {
  }

  /**
   * The nodes before a path have keys k is not less than, the nodes after
   * it keys k is less than: in a sorted tree, k belongs below the path.
   */
  ghost predicate Brackets<K>(keys: seq<K>, ctx: seq<Frame>, k: K, less: (K, K) -> bool)
  {
    (forall x :: x in CtxLeft(ctx) ==> x < |keys| && !less(k, keys[x]))
    && (forall x :: x in CtxRight(ctx) ==> x < |keys| && less(k, keys[x]))
  }

  /** In a sorted sequence, the keys before a node are not above it and those after it not below it. */
  lemma OrderAround<K>(keys: seq<K>, s: seq<nat>, a: seq<nat>, l: seq<nat>, x: nat, r: seq<nat>, c: seq<nat>, less: (K, K) -> bool)
    requires s == a + l + [x] + r + c && HasKeys(keys, s) && SortedBy(keys, s, less)
    ensures x < |keys|
    ensures forall y :: y in l ==> y < |keys| && !less(keys[x], keys[y])
    ensures forall y :: y in r ==> y < |keys| && !less(keys[y], keys[x])
  {
    var i := |a| + |l|;
    assert s[i] == x;
    forall y | y in l
      ensures y < |keys| && !less(keys[x], keys[y])
    {
      var j :| 0 <= j < |l| && l[j] == y;
      assert s[|a| + j] == y;
    }
    forall y | y in r
      ensures y < |keys| && !less(keys[y], keys[x])
    {
      var j :| 0 <= j < |r| && r[j] == y;
      assert s[i + 1 + j] == y;
    }
  }

  /** Descending keeps the recorded heights of the path fitting. */
  lemma DescendFits(ctx: seq<Frame>, sub: Tree)
    requires sub.Node? && HeightsFit(ctx, sub)
    ensures HeightsFit([LeftFrame(sub)] + ctx, sub.left) && HeightsFit([RightFrame(sub)] + ctx, sub.right)
  {
    assert ([LeftFrame(sub)] + ctx)[1..] == ctx;
    assert ([RightFrame(sub)] + ctx)[1..] == ctx;
  }

  /** Going left at a node whose key k is less than: k still belongs below the path. */
  lemma DescendLeftBrackets<K(!new)>(keys: seq<K>, ctx: seq<Frame>, sub: Tree, k: K, less: (K, K) -> bool)
    requires sub.Node? && StrictWeakOrder(less) && Brackets(keys, ctx, k, less)
    requires HasKeys(keys, Inorder(Plug(ctx, sub))) && SortedBy(keys, Inorder(Plug(ctx, sub)), less)
    requires sub.id < |keys| && less(k, keys[sub.id])
    ensures Brackets(keys, [LeftFrame(sub)] + ctx, k, less)
  {
    InorderAround(ctx, sub);
    OrderAround(keys, Inorder(Plug(ctx, sub)), CtxLeft(ctx), Inorder(sub.left), sub.id, Inorder(sub.right), CtxRight(ctx), less);
    var ctx' := [LeftFrame(sub)] + ctx;
    assert ctx'[1..] == ctx;
    assert CtxLeft(ctx') == CtxLeft(ctx);
    assert CtxRight(ctx') == [sub.id] + Inorder(sub.right) + CtxRight(ctx);
    LessAbove(keys, sub.id, Inorder(sub.right), CtxRight(ctx), k, less);
  }

  /** Going right at a node whose key k is not less than: k still belongs below the path. */
  lemma DescendRightBrackets<K(!new)>(keys: seq<K>, ctx: seq<Frame>, sub: Tree, k: K, less: (K, K) -> bool)
    requires sub.Node? && StrictWeakOrder(less) && Brackets(keys, ctx, k, less)
    requires HasKeys(keys, Inorder(Plug(ctx, sub))) && SortedBy(keys, Inorder(Plug(ctx, sub)), less)
    requires sub.id < |keys| && !less(k, keys[sub.id])
    ensures Brackets(keys, [RightFrame(sub)] + ctx, k, less)
  {
    InorderAround(ctx, sub);
    OrderAround(keys, Inorder(Plug(ctx, sub)), CtxLeft(ctx), Inorder(sub.left), sub.id, Inorder(sub.right), CtxRight(ctx), less);
    var ctx' := [RightFrame(sub)] + ctx;
    assert ctx'[1..] == ctx;
    assert CtxLeft(ctx') == CtxLeft(ctx) + Inorder(sub.left) + [sub.id];
    assert CtxRight(ctx') == CtxRight(ctx);
    NotLessBelow(keys, CtxLeft(ctx), Inorder(sub.left), sub.id, k, less);
  }

  /** k not less than x's key is not less than the keys of the nodes before x. */
  lemma NotLessBelow<K(!new)>(keys: seq<K>, L: seq<nat>, l: seq<nat>, x: nat, k: K, less: (K, K) -> bool)
    requires StrictWeakOrder(less) && x < |keys| && !less(k, keys[x])
    requires forall y :: y in L ==> y < |keys| && !less(k, keys[y])
    requires forall y :: y in l ==> y < |keys| && !less(keys[x], keys[y])
    ensures forall y :: y in L + l + [x] ==> y < |keys| && !less(k, keys[y])
  {
    forall y | y in L + l + [x]
      ensures y < |keys| && !less(k, keys[y])
    {
      if y in l {
        assert !less(k, keys[x]) && !less(keys[x], keys[y]);
      }
    }
  }

  /** k less than x's key is less than the keys of the nodes after x. */
  lemma LessAbove<K(!new)>(keys: seq<K>, x: nat, r: seq<nat>, R: seq<nat>, k: K, less: (K, K) -> bool)
    requires StrictWeakOrder(less) && x < |keys| && less(k, keys[x])
    requires forall y :: y in R ==> y < |keys| && less(k, keys[y])
    requires forall y :: y in r ==> y < |keys| && !less(keys[y], keys[x])
    ensures forall y :: y in [x] + r + R ==> y < |keys| && less(k, keys[y])
  {
    forall y | y in [x] + r + R
      ensures y < |keys| && less(k, keys[y])
    {
      if y in r {
        assert !less(keys[y], keys[x]);
      }
    }
  }

  /** A key not less than k makes the keys of the nodes after it not less than k. */
  lemma NotLessAbove<K(!new)>(keys: seq<K>, x: nat, r: seq<nat>, R: seq<nat>, k: K, less: (K, K) -> bool)
    requires StrictWeakOrder(less) && x < |keys| && !less(keys[x], k)
    requires forall y :: y in R ==> y < |keys| && !less(keys[y], k)
    requires forall y :: y in r ==> y < |keys| && !less(keys[y], keys[x])
    ensures forall y :: y in [x] + r + R ==> y < |keys| && !less(keys[y], k)
  {
    forall y | y in [x] + r + R
      ensures y < |keys| && !less(keys[y], k)
    {
      if y in r {
        assert !less(keys[y], keys[x]) && !less(keys[x], k);
      }
    }
  }

  /** A key less than k makes the keys of the nodes before it less than k. */
  lemma LessBelow<K(!new)>(keys: seq<K>, L: seq<nat>, l: seq<nat>, x: nat, k: K, less: (K, K) -> bool)
    requires StrictWeakOrder(less) && x < |keys| && less(keys[x], k)
    requires forall y :: y in L ==> y < |keys| && less(keys[y], k)
    requires forall y :: y in l ==> y < |keys| && !less(keys[x], keys[y])
    ensures forall y :: y in L + l + [x] ==> y < |keys| && less(keys[y], k)
  {
    forall y | y in L + l + [x]
      ensures y < |keys| && less(keys[y], k)
    {
      if y in l {
        assert !less(keys[x], keys[y]);
      }
    }
  }

  /**
   * The nodes before a path have keys less than k, the nodes after it keys
   * not less than k: the first node after the path is the first whose key
   * is not less than k.
   */
  ghost predicate LowerBrackets<K>(keys: seq<K>, ctx: seq<Frame>, k: K, less: (K, K) -> bool)
  {
    (forall x :: x in CtxLeft(ctx) ==> x < |keys| && less(keys[x], k))
    && (forall x :: x in CtxRight(ctx) ==> x < |keys| && !less(keys[x], k))
  }

  /** Going left at a node whose key is not less than k: the node and its right subtree join the nodes after the path. */
  lemma DescendLeftLower<K(!new)>(keys: seq<K>, ctx: seq<Frame>, sub: Tree, k: K, less: (K, K) -> bool)
    requires sub.Node? && StrictWeakOrder(less) && LowerBrackets(keys, ctx, k, less)
    requires HasKeys(keys, Inorder(Plug(ctx, sub))) && SortedBy(keys, Inorder(Plug(ctx, sub)), less)
    requires sub.id < |keys| && !less(keys[sub.id], k)
    ensures LowerBrackets(keys, [LeftFrame(sub)] + ctx, k, less)
    ensures CtxRight([LeftFrame(sub)] + ctx)[0] == sub.id
  {
    InorderAround(ctx, sub);
    OrderAround(keys, Inorder(Plug(ctx, sub)), CtxLeft(ctx), Inorder(sub.left), sub.id, Inorder(sub.right), CtxRight(ctx), less);
    var ctx' := [LeftFrame(sub)] + ctx;
    assert ctx'[1..] == ctx;
    assert CtxLeft(ctx') == CtxLeft(ctx);
    assert CtxRight(ctx') == [sub.id] + Inorder(sub.right) + CtxRight(ctx);
    NotLessAbove(keys, sub.id, Inorder(sub.right), CtxRight(ctx), k, less);
  }

  /** Going right at a node whose key is less than k: the node and its left subtree join the nodes before the path. */
  lemma DescendRightLower<K(!new)>(keys: seq<K>, ctx: seq<Frame>, sub: Tree, k: K, less: (K, K) -> bool)
    requires sub.Node? && StrictWeakOrder(less) && LowerBrackets(keys, ctx, k, less)
    requires HasKeys(keys, Inorder(Plug(ctx, sub))) && SortedBy(keys, Inorder(Plug(ctx, sub)), less)
    requires sub.id < |keys| && less(keys[sub.id], k)
    ensures LowerBrackets(keys, [RightFrame(sub)] + ctx, k, less)
    ensures CtxRight([RightFrame(sub)] + ctx) == CtxRight(ctx)
  {
    InorderAround(ctx, sub);
    OrderAround(keys, Inorder(Plug(ctx, sub)), CtxLeft(ctx), Inorder(sub.left), sub.id, Inorder(sub.right), CtxRight(ctx), less);
    var ctx' := [RightFrame(sub)] + ctx;
    assert ctx'[1..] == ctx;
    assert CtxLeft(ctx') == CtxLeft(ctx) + Inorder(sub.left) + [sub.id];
    assert CtxRight(ctx') == CtxRight(ctx);
    LessBelow(keys, CtxLeft(ctx), Inorder(sub.left), sub.id, k, less);
  }

  /** A key placed between the nodes it is not less than and those it is less than keeps the order. */
  lemma InsertSorted<K(!new)>(keys: seq<K>, a: seq<nat>, b: seq<nat>, leaf: nat, less: (K, K) -> bool)
    requires StrictWeakOrder(less) && leaf < |keys|
    requires HasKeys(keys, a + b) && SortedBy(keys, a + b, less)
    requires forall x :: x in a ==> x < |keys| && !less(keys[leaf], keys[x])
    requires forall x :: x in b ==> x < |keys| && less(keys[leaf], keys[x])
    ensures HasKeys(keys, a + [leaf] + b) && SortedBy(keys, a + [leaf] + b, less)
  {
    var s, s' := a + b, a + [leaf] + b;
    assert HasKeys(keys, s') by {
      forall i | 0 <= i < |s'|
        ensures s'[i] < |keys|
      {
        if i > |a| {
          assert s'[i] == s[i - 1];
        } else if i < |a| {
          assert s'[i] == s[i];
        }
      }
    }
    forall i, j | 0 <= i < j < |s'|
      ensures !less(keys[s'[j]], keys[s'[i]])
    {
      if j < |a| {
        assert s'[i] == s[i] && s'[j] == s[j];
      } else if j == |a| {
        assert s'[i] == a[i];
      } else if i < |a| {
        assert s'[i] == s[i] && s'[j] == s[j - 1];
      } else if i == |a| {
        assert s'[j] == b[j - |a| - 1];
      } else {
        assert s'[i] == s[i - 1] && s'[j] == s[j - 1];
      }
    }
  }

  /**
   * Insertion on shapes: a fresh leaf hung at the end of a path of a
   * balanced tree and fixed upwards gives a balanced tree without repeats,
   * holding one more id, whose in-order sequence has the leaf where the
   * path ends.
   */
  lemma InsertShape(t: Tree, ctx: seq<Frame>, leaf: nat)
    requires Plug(ctx, Nil) == t && Balanced(t) && Distinct(t) && HeightsFit(ctx, Nil) && leaf !in Ids(t)
    ensures var t' := FixUp(ctx, Node(Nil, leaf, Nil));
      Balanced(t') && Distinct(t') && Ids(t') == Ids(t) + {leaf}
      && Inorder(t) == CtxLeft(ctx) + CtxRight(ctx) && Inorder(t') == CtxLeft(ctx) + [leaf] + CtxRight(ctx)
  {
    InsertBalanced(t, ctx, leaf);
    InsertOrder(t, ctx, leaf);
  }

  lemma InsertBalanced(t: Tree, ctx: seq<Frame>, leaf: nat)
    requires Plug(ctx, Nil) == t && Balanced(t) && Distinct(t) && HeightsFit(ctx, Nil) && leaf !in Ids(t)
    ensures var t' := FixUp(ctx, Node(Nil, leaf, Nil));
      Balanced(t') && Distinct(t') && Ids(t') == Ids(t) + {leaf}
  {
    var leafNode := Node(Nil, leaf, Nil);
    LeafIsPending(ctx, leaf);
    FixUpBalanced(ctx, leafNode);
    IdsPlug(ctx, Nil);
    IdsPlug(ctx, leafNode);
    DistinctPlug(ctx, Nil);
    DistinctPlug(ctx, leafNode);
    IdsFixUp(ctx, leafNode);
  }

  lemma InsertOrder(t: Tree, ctx: seq<Frame>, leaf: nat)
    requires Plug(ctx, Nil) == t
    ensures Inorder(t) == CtxLeft(ctx) + CtxRight(ctx)
    ensures Inorder(FixUp(ctx, Node(Nil, leaf, Nil))) == CtxLeft(ctx) + [leaf] + CtxRight(ctx)
  {
    var leafNode := Node(Nil, leaf, Nil);
    assert Inorder(leafNode) == [leaf];
    InorderFixUp(ctx, leafNode);
    InorderPlug(ctx, leafNode);
    InorderPlug(ctx, Nil);
    assert CtxLeft(ctx) + [] + CtxRight(ctx) == CtxLeft(ctx) + CtxRight(ctx);
  }

  /** Dropping one node keeps the rest sorted. */
  lemma SortedDrop<K>(keys: seq<K>, s: seq<nat>, r: nat, less: (K, K) -> bool)
    requires r < |s| && HasKeys(keys, s) && SortedBy(keys, s, less)
    ensures HasKeys(keys, s[..r] + s[r + 1..]) && SortedBy(keys, s[..r] + s[r + 1..], less)
  {
    var s' := s[..r] + s[r + 1..];
    assert forall i :: 0 <= i < |s'| ==> s'[i] == if i < r then s[i] else s[i + 1];
  }

  /** Dropping the node at r drops exactly its key from the multiset of keys. */
  lemma DropKey<K>(keys: seq<K>, s: seq<nat>, r: nat)
    requires r < |s| && HasKeys(keys, s)
    ensures HasKeys(keys, s[..r] + s[r + 1..])
    ensures multiset(KeysOf(keys, s[..r] + s[r + 1..])) + multiset{keys[s[r]]} == multiset(KeysOf(keys, s))
  {
    var a, b := s[..r], s[r + 1..];
    assert s == a + [s[r]] + b;
    KeysOfAppend(keys, a, b);
    KeysOfAppend(keys, a, [s[r]]);
    KeysOfAppend(keys, a + [s[r]], b);
  }

  /** Putting one node at i adds exactly its key to the multiset of keys. */
  lemma AddKey<K>(keys: seq<K>, s: seq<nat>, i: nat, x: nat)
    requires i <= |s| && HasKeys(keys, s) && x < |keys|
    ensures HasKeys(keys, s[..i] + [x] + s[i..])
    ensures multiset(KeysOf(keys, s[..i] + [x] + s[i..])) == multiset(KeysOf(keys, s)) + multiset{keys[x]}
  {
    var a, b := s[..i], s[i..];
    assert s == a + b;
    KeysOfAppend(keys, a, b);
    KeysOfAppend(keys, a, [x]);
    KeysOfAppend(keys, a + [x], b);
  }
}
