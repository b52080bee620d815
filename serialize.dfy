/**
 * The tag-length-value response serialiser (`namespace out`). Every
 * encoder appends one tagged item to the caller's output buffer; `EndArr`
 * is the only one that rewrites bytes already written, patching the
 * element count of an array header reserved by `BeginArr`.
 *
 * `ReadItem` is the reader's view of the same format: it takes one item
 * off the front of a buffer. Each encoder is proved to append exactly the
 * bytes `ReadItem` reads back as the value that was encoded.
 */
module Serialize {
  import opened Wire

  const NIL: byte := 0
  const ERR: byte := 1
  const STR: byte := 2
  const INT: byte := 4
  const ARR: byte := 5

  /** One serialised item as a reader sees it; an array is its header (the count). */
  datatype Item = NilItem | ErrItem(code: int, msg: bytes) | StrItem(str: bytes) | IntItem(num: int) | ArrItem(n: nat)

  /** The item at the front of s and the number of bytes it occupies, if s starts with a whole item. */
  function ReadItem(s: bytes): Option<(Item, nat)>
  {
    if |s| == 0 then None
    else if s[0] == NIL then Some((NilItem, 1))
    else if s[0] == STR then
      if |s| < 5 then None
      else
        var n := ReadU32(s[1..]);
        if |s| < 5 + n then None else Some((StrItem(s[5..5 + n]), 5 + n))
    else if s[0] == INT then
      if |s| < 9 then None else Some((IntItem(ReadSigned(s[1..9])), 9))
    else if s[0] == ERR then
      if |s| < 9 then None
      else
        var n := ReadU32(s[5..]);
        if |s| < 9 + n then None else Some((ErrItem(ReadSigned(s[1..5]), s[9..9 + n]), 9 + n))
    else if s[0] == ARR then
      if |s| < 5 then None else Some((ArrItem(ReadU32(s[1..])), 5))
    else None
  }

  predicate IsInt32(v: int) { -0x8000_0000 <= v < 0x8000_0000 }
  predicate IsInt64(v: int) { -0x8000_0000_0000_0000 <= v < 0x8000_0000_0000_0000 }

  /** `out::nil`: appends the NIL tag. */
  function Nil(out: bytes): (r: bytes)
    ensures |r| == |out| + 1 && r[..|out|] == out
    ensures ReadItem(r[|out|..]) == Some((NilItem, 1))
  {
    var r := out + [NIL];
    assert r[|out|..] == [NIL];
    r
  }

  /**
   * `out::str`: appends the STR tag, the length of val as a `uint32_t`
   * (the cast keeps the low 32 bits), then val itself.
   */
  function Str(out: bytes, val: bytes): (r: bytes)
    ensures |r| == |out| + 5 + |val| && r[..|out|] == out
    ensures |val| < 0x1_0000_0000 ==> ReadItem(r[|out|..]) == Some((StrItem(val), 5 + |val|))
  {
    var item := [STR] + U32(|val| % 0x1_0000_0000) + val;
    var r := out + item;
    assert r[|out|..] == item;
    if |val| < 0x1_0000_0000 then
      assert |val| % 0x1_0000_0000 == |val|;
      ReadStrItem(val);
      r
    else r
  }

  lemma ReadStrItem(val: bytes)
    requires |val| < 0x1_0000_0000
    ensures ReadItem([STR] + U32(|val|) + val) == Some((StrItem(val), 5 + |val|))
  {
    var item := [STR] + U32(|val|) + val;
    assert item[1..] == U32(|val|) + val;
    ReadU32OfU32(|val|, val);
    assert item[5..5 + |val|] == val;
  }

  /** `out::num`: appends the INT tag and the 8-byte two's-complement image of an `int64_t`. */
  function Num(out: bytes, val: int): (r: bytes)
    requires IsInt64(val)
    ensures |r| == |out| + 9 && r[..|out|] == out
    ensures ReadItem(r[|out|..]) == Some((IntItem(val), 9))
  {
    var item := [INT] + Signed(val, 8);
    var r := out + item;
    assert r[|out|..] == item;
    assert item[1..9] == Signed(val, 8);
    ReadSignedOfSigned(val, 8);
    r
  }

  /** `out::err`: appends the ERR tag, the `int32_t` code, the `uint32_t` length of msg, then msg. */
  function Err(out: bytes, code: int, msg: bytes): (r: bytes)
    requires IsInt32(code)
    ensures |r| == |out| + 9 + |msg| && r[..|out|] == out
    ensures |msg| < 0x1_0000_0000 ==> ReadItem(r[|out|..]) == Some((ErrItem(code, msg), 9 + |msg|))
  {
    var item := [ERR] + Signed(code, 4) + U32(|msg| % 0x1_0000_0000) + msg;
    var r := out + item;
    assert r[|out|..] == item;
    if |msg| < 0x1_0000_0000 then
      assert |msg| % 0x1_0000_0000 == |msg|;
      ReadErrItem(code, msg);
      r
    else r
  }

  lemma ReadErrItem(code: int, msg: bytes)
    requires IsInt32(code) && |msg| < 0x1_0000_0000
    ensures ReadItem([ERR] + Signed(code, 4) + U32(|msg|) + msg) == Some((ErrItem(code, msg), 9 + |msg|))
  {
    var item := [ERR] + Signed(code, 4) + U32(|msg|) + msg;
    assert item[1..5] == Signed(code, 4) by {
      assert item == [ERR] + (Signed(code, 4) + (U32(|msg|) + msg));
    }
    assert item[5..] == U32(|msg|) + msg;
    ReadSignedOfSigned(code, 4);
    ReadU32OfU32(|msg|, msg);
    assert item[9..9 + |msg|] == msg;
  }

  /** `out::arr`: appends the ARR tag and the `uint32_t` element count. */
  function Arr(out: bytes, n: nat): (r: bytes)
    requires n < 0x1_0000_0000
    ensures |r| == |out| + 5 && r[..|out|] == out
    ensures ReadItem(r[|out|..]) == Some((ArrItem(n), 5))
  {
    var r := out + [ARR] + U32(n);
    var tail := r[|out|..];
    assert tail[1..] == U32(n) + [];
    ReadU32OfU32(n, []);
    r
  }

  /**
   * `out::begin_arr`: appends an ARR header whose count is four zero bytes
   * and returns the offset of that count, for `EndArr` to patch.
   */
  function BeginArr(out: bytes): (r: (bytes, nat))
    ensures |r.0| == |out| + 5 && r.0[..|out|] == out
    ensures r.1 == |r.0| - 4 && r.0[r.1 - 1] == ARR
    ensures ReadItem(r.0[|out|..]) == Some((ArrItem(0), 5))
  {
    var r := out + [ARR] + [0, 0, 0, 0];
    var tail := r[|out|..];
    assert tail[1..] == U32(0) + [];
    ReadU32OfU32(0, []);
    (r, |r| - 4)
  }

  /**
   * `out::end_arr`: overwrites the four count bytes at ctx with n. The
   * source asserts that the byte before ctx is the ARR tag.
   */
  function EndArr(out: bytes, ctx: nat, n: nat): (r: bytes)
    requires 1 <= ctx && ctx + 4 <= |out| && out[ctx - 1] == ARR
    requires n < 0x1_0000_0000
    ensures |r| == |out|
    ensures r[..ctx] == out[..ctx] && r[ctx + 4..] == out[ctx + 4..]
    ensures ReadItem(r[ctx - 1..]) == Some((ArrItem(n), 5))
  {
    var r := out[..ctx] + U32(n) + out[ctx + 4..];
    var tail := r[ctx - 1..];
    assert tail[0] == ARR;
    assert tail[1..] == U32(n) + out[ctx + 4..];
    ReadU32OfU32(n, out[ctx + 4..]);
    r
  }

  /** Reserving an array header and patching it later gives the same bytes as writing it at once. */
  lemma BeginThenEndIsArr(out: bytes, n: nat)
    requires n < 0x1_0000_0000
    ensures var (b, ctx) := BeginArr(out); EndArr(b, ctx, n) == Arr(out, n)
  {
    var (b, ctx) := BeginArr(out);
    assert b[..ctx] == out + [ARR];
    assert b[ctx + 4..] == [];
  }
}
