/**
 * The request body format and its decoder (`Request::parse`).
 *
 * A request body is a 4-byte argument count followed by each argument as
 * a 4-byte length and that many bytes. `EncodeArgs` writes this format;
 * `ParseRequest` is the decoder as a function, and `Parse` is the loop of
 * the source proved to compute it. The lemmas show that the decoder
 * accepts exactly the encodings of argument lists of at most
 * `MAX_NUM_ARGS` arguments and returns the encoded list.
 */
module Request {
  import opened Wire

  /** An argument list every argument of which has a 32-bit length. */
  predicate Encodable(args: seq<bytes>)
  {
    |args| < 0x1_0000_0000 && forall i :: 0 <= i < |args| ==> |args[i]| < 0x1_0000_0000
  }

  /** The arguments, each preceded by its 4-byte length, in order. */
  function EncodeList(args: seq<bytes>): (r: bytes)
    requires Encodable(args)
  {
    if args == [] then [] else U32(|args[0]|) + args[0] + EncodeList(args[1..])
  }

  /** A request body: the 4-byte argument count, then the arguments. */
  function EncodeArgs(args: seq<bytes>): (r: bytes)
    requires Encodable(args)
  {
    U32(|args|) + EncodeList(args)
  }

  /** Total payload size of a request: 4 bytes of count plus 4 + |s| per argument. */
  function ArgBytes(args: seq<bytes>): (n: nat)
    ensures n >= 4 * |args|
  {
    if args == [] then 0 else 4 + |args[0]| + ArgBytes(args[1..])
  }

  /** Decodes k arguments starting at pos; the last must end exactly at the end of msg. */
  function ParseArgs(msg: bytes, pos: nat, k: nat): Option<seq<bytes>>
    decreases k
  {
    if k == 0 then
      if pos == |msg| then Some([]) else None
    else if pos + 4 > |msg| then None
    else
      var size := ReadU32(msg[pos..]);
      if pos + 4 + size > |msg| then None
      else
        match ParseArgs(msg, pos + 4 + size, k - 1)
        case None => None
        case Some(rest) => Some([msg[pos + 4..pos + 4 + size]] + rest)
  }

  /** What `Request::parse` produces for a body of length |msg|: the argument list, or None for -1. */
  function ParseRequest(msg: bytes): Option<seq<bytes>>
  {
    if |msg| < 4 then None
    else
      var count := ReadU32(msg);
      if count > MAX_NUM_ARGS then None else ParseArgs(msg, 4, count)
  }

  function Prepend(done: seq<bytes>, rest: Option<seq<bytes>>): Option<seq<bytes>>
  {
    match rest
    case None => None
    case Some(r) => Some(done + r)
  }

  /**
   * `Request::parse`: reads the count, rejects more than MAX_NUM_ARGS,
   * then takes the arguments one by one, failing when a length header or
   * a body would run past the end, and finally demands that the last
   * argument end exactly at the end of the body.
   */
  method Parse(msg: bytes) returns (r: Option<seq<bytes>>)
    ensures r == ParseRequest(msg)
    ensures |msg| < 4 ==> r.None?
    ensures |msg| >= 4 && ReadU32(msg) > MAX_NUM_ARGS ==> r.None?
    ensures r.Some? ==> |r.value| == ReadU32(msg)
  {
    if |msg| < 4 {
      return None;
    }
    var count := ReadU32(msg);
    if count > MAX_NUM_ARGS {
      return None;
    }
    ghost var spec := ParseArgs(msg, 4, count);
    assert ParseRequest(msg) == spec;
    var output: seq<bytes> := [];
    var position: nat := 4;
    var remaining: nat := count;
    PrependNothing(spec);
    while remaining > 0
      invariant |output| + remaining == count
      invariant spec == Prepend(output, ParseArgs(msg, position, remaining))
    {
      if position + 4 > |msg| {
        ParseArgsFails(msg, position, remaining, output);
        return None;
      }
      var size := ReadU32(msg[position..]);
      if position + 4 + size > |msg| {
        ParseArgsFails(msg, position, remaining, output);
        return None;
      }
      var arg := msg[position + 4..position + 4 + size];
      ghost var rest := ParseArgs(msg, position + 4 + size, remaining - 1);
      assert spec == Prepend(output + [arg], rest) by {
        ParseArgsStep(msg, position, remaining, size);
        PrependTwice(output, arg, rest);
      }
      output := output + [arg];
      position := position + 4 + size;
      remaining := remaining - 1;
    }
    if position != |msg| {
      ParseArgsFails(msg, position, remaining, output);
      return None;
    }
    assert output + [] == output;
    return Some(output);
  }

  /** Where the loop gives up, the whole decode fails: a header or body past the end, or bytes left over. */
  lemma ParseArgsFails(msg: bytes, pos: nat, k: nat, done: seq<bytes>)
    requires k == 0 ==> pos != |msg|
    requires k > 0 && pos + 4 <= |msg| ==> pos + 4 + ReadU32(msg[pos..]) > |msg|
    ensures Prepend(done, ParseArgs(msg, pos, k)) == None
  {
  }

  lemma PrependNothing(o: Option<seq<bytes>>)
    ensures Prepend([], o) == o
  {
    if o.Some? {
      assert [] + o.value == o.value;
    }
  }

  lemma PrependTwice(done: seq<bytes>, arg: bytes, rest: Option<seq<bytes>>)
    ensures Prepend(done, Prepend([arg], rest)) == Prepend(done + [arg], rest)
  {
    if rest.Some? {
      assert done + ([arg] + rest.value) == (done + [arg]) + rest.value;
    }
  }

  lemma ParseArgsOfEncodeList(msg: bytes, pre: bytes, args: seq<bytes>, post: bytes)
    requires Encodable(args) && msg == pre + EncodeList(args) + post
    ensures ParseArgs(msg, |pre|, |args|) == if post == [] then Some(args) else None
  {
    EncodeListIsEncodedAt(msg, pre, args, post);
    ParseArgsOfEncodedAt(msg, |pre|, args, |pre| + |EncodeList(args)|);
  }

  /**
   * The arguments args lie in msg from pos to end: each is a 4-byte
   * header that reads as its length, followed by its bytes.
   */
  predicate EncodedAt(msg: bytes, pos: nat, args: seq<bytes>, end: nat)
    decreases |args|
  {
    if args == [] then pos == end
    else
      var next := pos + 4 + |args[0]|;
      next <= |msg| && ReadU32(msg[pos..]) == |args[0]| && msg[pos + 4..next] == args[0]
      && EncodedAt(msg, next, args[1..], end)
  }

  /** The argument loop reads back the arguments laid out from pos, and succeeds only if they end the message. */
  lemma {:induction false} ParseArgsOfEncodedAt(msg: bytes, pos: nat, args: seq<bytes>, end: nat)
    requires EncodedAt(msg, pos, args, end) && end <= |msg|
    ensures ParseArgs(msg, pos, |args|) == if end == |msg| then Some(args) else None
    decreases |args|
  {
    if args != [] {
      var a := args[0];
      ParseArgsOfEncodedAt(msg, pos + 4 + |a|, args[1..], end);
      ParseArgsStep(msg, pos, |args|, |a|);
      assert [a] + args[1..] == args;
    }
  }

  /** An encoded list placed after pre lies in the message from |pre| to its end. */
  lemma {:induction false} EncodeListIsEncodedAt(msg: bytes, pre: bytes, args: seq<bytes>, post: bytes)
    requires Encodable(args) && msg == pre + EncodeList(args) + post
    ensures EncodedAt(msg, |pre|, args, |pre| + |EncodeList(args)|)
    decreases |args|
  {
    if args != [] {
      var a, rest := args[0], args[1..];
      assert Encodable(rest);
      var h, e := U32(|a|), EncodeList(rest);
      assert EncodeList(args) == h + a + e;
      Regroup(pre, h, a, e, post);
      ReadHead(msg, pre, a, e + post);
      EncodeListIsEncodedAt(msg, pre + h + a, rest, post);
    }
  }

  /** A length header followed by the argument, after pre: the header reads as the length and the bytes follow it. */
  lemma ReadHead(msg: bytes, pre: bytes, a: bytes, tail: bytes)
    requires |a| < 0x1_0000_0000 && msg == pre + (U32(|a|) + (a + tail))
    ensures |pre| + 4 + |a| <= |msg| && ReadU32(msg[|pre|..]) == |a| && msg[|pre| + 4..|pre| + 4 + |a|] == a
  {
    assert msg[|pre|..] == U32(|a|) + (a + tail);
    ReadU32OfU32(|a|, a + tail);
    assert msg[|pre| + 4..|pre| + 4 + |a|] == a;
  }

  lemma Regroup(p: bytes, x: bytes, y: bytes, z: bytes, q: bytes)
    ensures p + (x + y + z) + q == p + (x + (y + (z + q)))
    ensures p + (x + y + z) + q == p + x + y + z + q
  {
  }

  /** One step of the argument loop: an argument whose header and body fit is taken, and the rest decoded after it. */
  lemma ParseArgsStep(msg: bytes, pos: nat, k: nat, size: nat)
    requires k > 0 && pos + 4 <= |msg| && ReadU32(msg[pos..]) == size && pos + 4 + size <= |msg|
    ensures ParseArgs(msg, pos, k) == Prepend([msg[pos + 4..pos + 4 + size]], ParseArgs(msg, pos + 4 + size, k - 1))
  {
  }

  /** Round trip: the body written for an encodable list of at most MAX_NUM_ARGS arguments decodes to that list. */
  lemma ParseOfEncode(args: seq<bytes>)
    requires Encodable(args) && |args| <= MAX_NUM_ARGS
    ensures ParseRequest(EncodeArgs(args)) == Some(args)
  {
    var msg := EncodeArgs(args);
    ReadU32OfU32(|args|, EncodeList(args));
    assert msg == U32(|args|) + EncodeList(args) + [];
    ParseArgsOfEncodeList(msg, U32(|args|), args, []);
  }

  /** Bytes after the last argument make the request malformed. */
  lemma ParseRejectsTrailingBytes(args: seq<bytes>, extra: bytes)
    requires Encodable(args) && extra != []
    ensures ParseRequest(EncodeArgs(args) + extra).None?
  {
    var msg := EncodeArgs(args) + extra;
    assert msg == U32(|args|) + EncodeList(args) + extra;
    assert msg == U32(|args|) + (EncodeList(args) + extra);
    ReadU32OfU32(|args|, EncodeList(args) + extra);
    ParseArgsOfEncodeList(msg, U32(|args|), args, extra);
  }

  lemma {:induction false} EncodeListOfParseArgs(msg: bytes, pos: nat, k: nat)
    requires k < 0x1_0000_0000 && ParseArgs(msg, pos, k).Some?
    ensures pos <= |msg|
    ensures var args := ParseArgs(msg, pos, k).value;
      |args| == k && Encodable(args) && msg[pos..] == EncodeList(args)
    decreases k
  {
    if k > 0 {
      var size := ReadU32(msg[pos..]);
      var next := pos + 4 + size;
      EncodeListOfParseArgs(msg, next, k - 1);
      var rest := ParseArgs(msg, next, k - 1).value;
      var args := ParseArgs(msg, pos, k).value;
      var a := msg[pos + 4..next];
      U32OfReadU32(msg[pos..]);
      assert msg[pos..pos + 4] == U32(|a|);
      assert args == [a] + rest;
      assert args[1..] == rest;
      assert msg[pos..] == msg[pos..pos + 4] + a + msg[next..];
    }
  }

  /**
   * Conversely, a body that decodes is exactly the encoding of what it
   * decodes to: every byte belongs to a count, a length or an argument.
   */
  lemma EncodeOfParse(msg: bytes)
    requires ParseRequest(msg).Some?
    ensures var args := ParseRequest(msg).value;
      Encodable(args) && |args| <= MAX_NUM_ARGS && msg == EncodeArgs(args)
  {
    var args := ParseRequest(msg).value;
    EncodeListOfParseArgs(msg, 4, ReadU32(msg));
    U32OfReadU32(msg);
    assert msg == msg[..4] + msg[4..];
  }
}
