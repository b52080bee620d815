/**
 * The order of the sorted set: pairs of a score and a name, compared by
 * score, then by the bytes of the name as `memcmp` compares them, then
 * by length (`zLess`). The lemmas show it is a strict total order, which
 * is what the tree's search loops need.
 */
module ZOrder {
  import opened Wire
  import opened AvlTree

  /**
   * A member of a sorted set: its score and its name. Scores are doubles
   * in the source; the model takes them as reals, without NaN or rounding.
   */
  datatype ZNode = ZNode(score: real, name: bytes)

  function Min(a: nat, b: nat): nat
  {
    if a < b then a else b
  }

  /**
   * `memcmp` of the first n bytes: the difference of the first differing
   * bytes, taken as unsigned, or 0 when the first n bytes agree.
   */
  function Memcmp(a: bytes, b: bytes, n: nat): (c: int)
    requires n <= |a| && n <= |b|
    ensures c == 0 <==> a[..n] == b[..n]
    decreases n
  {
    if n == 0 then 0
    else if a[0] != b[0] then a[0] as int - b[0] as int
    else
      var c := Memcmp(a[1..], b[1..], n - 1);
      assert a[..n] == [a[0]] + a[1..][..n - 1] && b[..n] == [b[0]] + b[1..][..n - 1];
      c
  }

  /** Swapping the operands of `memcmp` flips its sign. */
  lemma {:induction false} MemcmpSwap(a: bytes, b: bytes, n: nat)
    requires n <= |a| && n <= |b|
    ensures Memcmp(b, a, n) == -Memcmp(a, b, n)
    decreases n
  {
    if n > 0 && a[0] == b[0] {
      MemcmpSwap(a[1..], b[1..], n - 1);
    }
  }

  /** The name part of `zLess`: the common prefix by `memcmp`, then the shorter name first. */
  function NameLess(x: bytes, y: bytes): bool
  {
    var c := Memcmp(x, y, Min(|x|, |y|));
    if c != 0 then c < 0 else |x| < |y|
  }

  /** `zLess`: by score, then by name. */
  function ZLess(a: ZNode, b: ZNode): bool
  {
    if a.score != b.score then a.score < b.score else NameLess(a.name, b.name)
  }

  /** Lexicographic order on bytes: the reference definition of the name order. */
  function Lex(x: bytes, y: bytes): bool
  {
    if x == [] then y != []
    else if y == [] then false
    else if x[0] != y[0] then x[0] < y[0]
    else Lex(x[1..], y[1..])
  }

  /** `memcmp` then length is exactly lexicographic order. */
  lemma {:induction false} NameLessIsLex(x: bytes, y: bytes)
    ensures NameLess(x, y) == Lex(x, y)
    decreases |x|
  {
    if x != [] && y != [] && x[0] == y[0] {
      NameLessIsLex(x[1..], y[1..]);
      assert Min(|x[1..]|, |y[1..]|) == Min(|x|, |y|) - 1;
    }
  }

  lemma {:induction false} LexTrans(x: bytes, y: bytes, z: bytes)
    requires Lex(x, y) && Lex(y, z)
    ensures Lex(x, z)
    decreases |x|
  {
    if x != [] && x[0] == y[0] && y[0] == z[0] {
      LexTrans(x[1..], y[1..], z[1..]);
    }
  }

  lemma {:induction false} LexTotal(x: bytes, y: bytes)
    ensures x == y || Lex(x, y) || Lex(y, x)
    ensures !(Lex(x, y) && Lex(y, x))
    decreases |x|
  {
    if x != [] && y != [] && x[0] == y[0] {
      LexTotal(x[1..], y[1..]);
      assert x == [x[0]] + x[1..] && y == [y[0]] + y[1..];
    }
  }

  /** No pair is less than itself. */
  lemma ZLessIrreflexive(a: ZNode)
    ensures !ZLess(a, a)
  {
    assert a.name[..Min(|a.name|, |a.name|)] == a.name[..Min(|a.name|, |a.name|)];
  }

  /** Two different pairs are ordered one way, and never both ways. */
  lemma ZLessTotal(a: ZNode, b: ZNode)
    ensures a != b <==> ZLess(a, b) || ZLess(b, a)
    ensures !(ZLess(a, b) && ZLess(b, a))
  {
    NameLessIsLex(a.name, b.name);
    NameLessIsLex(b.name, a.name);
    LexTotal(a.name, b.name);
    ZLessIrreflexive(a);
  }

  lemma ZLessTrans(a: ZNode, b: ZNode, c: ZNode)
    requires ZLess(a, b) && ZLess(b, c)
    ensures ZLess(a, c)
  {
    if a.score == b.score == c.score {
      NameLessIsLex(a.name, b.name);
      NameLessIsLex(b.name, c.name);
      NameLessIsLex(a.name, c.name);
      LexTrans(a.name, b.name, c.name);
    }
  }

  /** Hence `zLess` is a strict weak order, the contract of the generic tree search. */
  lemma ZLessIsStrictWeakOrder()
    ensures StrictWeakOrder(ZLess)
  {
    forall a, b
      ensures ZLess(a, b) ==> !ZLess(b, a)
    {
      ZLessTotal(a, b);
    }
    forall a, b, c | !ZLess(a, b) && !ZLess(b, c)
      ensures !ZLess(a, c)
    {
      ZLessTotal(a, b);
      ZLessTotal(b, c);
      if a != b && b != c {
        ZLessTrans(c, b, a);
        ZLessTotal(a, c);
      }
    }
  }
}
