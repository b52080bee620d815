/**
 * The client side of the wire protocol: `Client::sendRequest`, which
 * frames an argument list, and `Client::readResponse`, which checks and
 * splits one response frame.
 *
 * A frame is a 4-byte length `len` followed by `len` bytes of body. For a
 * request the body is the format of `Request.EncodeArgs`; for a response
 * it is a 4-byte response code followed by the message. The socket is not
 * modelled: `SendRequest` returns the bytes it would write, and
 * `ReadResponse` takes the bytes the server sent on the connection.
 */
module Client {
  import opened Wire
  import Request

  /** `memcpy(dst + at, src, |src|)`. */
  method CopyInto(dst: array<byte>, at: nat, src: bytes)
    requires at + |src| <= dst.Length
    modifies dst
    ensures dst[at..at + |src|] == src
    ensures forall j :: 0 <= j < dst.Length && !(at <= j < at + |src|) ==> dst[j] == old(dst[j])
  {
    for i := 0 to |src|
      invariant forall j :: at <= j < at + i ==> dst[j] == src[j - at]
      invariant forall j :: 0 <= j < dst.Length && !(at <= j < at + i) ==> dst[j] == old(dst[j])
    {
      dst[at + i] := src[i];
    }
  }

  lemma {:induction false} ArgBytesAppend(args: seq<bytes>, a: bytes)
    ensures Request.ArgBytes(args + [a]) == Request.ArgBytes(args) + 4 + |a|
  {
    if args != [] {
      assert (args + [a])[1..] == args[1..] + [a];
      ArgBytesAppend(args[1..], a);
    }
  }

  lemma {:induction false} ArgBytesPrefix(args: seq<bytes>, i: nat)
    requires i <= |args|
    ensures Request.ArgBytes(args[..i]) <= Request.ArgBytes(args)
    decreases |args| - i
  {
    if i < |args| {
      ArgBytesPrefix(args, i + 1);
      assert args[..i + 1] == args[..i] + [args[i]];
      ArgBytesAppend(args[..i], args[i]);
    } else {
      assert args[..i] == args;
    }
  }

  lemma {:induction false} EncodeListAppend(args: seq<bytes>, a: bytes)
    requires Request.Encodable(args + [a]) && |a| < 0x1_0000_0000
    ensures Request.Encodable(args)
    ensures Request.EncodeList(args + [a]) == Request.EncodeList(args) + U32(|a|) + a
  {
    assert forall i :: 0 <= i < |args| ==> args[i] == (args + [a])[i];
    if args != [] {
      assert (args + [a])[1..] == args[1..] + [a];
      assert Request.Encodable(args[1..] + [a]) by {
        assert forall i :: 0 <= i < |args| ==> (args[1..] + [a])[i] == (args + [a])[i + 1];
      }
      EncodeListAppend(args[1..], a);
    }
  }

  /** An argument list whose frame fits in K_MAX_MSG is encodable and has fewer than MAX_NUM_ARGS arguments. */
  lemma {:induction false} SmallRequestIsEncodable(args: seq<bytes>)
    requires 4 + Request.ArgBytes(args) <= MAX_MESSAGE_SIZE
    ensures Request.Encodable(args) && |args| < MAX_NUM_ARGS
  {
    forall i | 0 <= i < |args| ensures |args[i]| < 0x1_0000_0000 {
      ArgBytesPrefix(args, i + 1);
      assert args[..i + 1] == args[..i] + [args[i]];
      ArgBytesAppend(args[..i], args[i]);
    }
  }

  /** The whole request frame: the 4-byte length, then the request body. */
  function Frame(args: seq<bytes>): (r: bytes)
    requires 4 + Request.ArgBytes(args) <= MAX_MESSAGE_SIZE
  {
    SmallRequestIsEncodable(args);
    U32(4 + Request.ArgBytes(args)) + Request.EncodeArgs(args)
  }

  /** The first loop of `Client::sendRequest`: len = 4 + the sum of 4 + |s| over the arguments. */
  method PayloadLength(cmd: seq<bytes>) returns (len: nat)
    ensures len == 4 + Request.ArgBytes(cmd)
  {
    len := 4;
    for i := 0 to |cmd|
      invariant len == 4 + Request.ArgBytes(cmd[..i])
    {
      assert cmd[..i + 1] == cmd[..i] + [cmd[i]];
      ArgBytesAppend(cmd[..i], cmd[i]);
      len := len + 4 + |cmd[i]|;
    }
    assert cmd[..|cmd|] == cmd;
  }

  /** Writes one argument behind its 4-byte size at offset at; the bytes before at are kept. */
  method WriteArg(wbuf: array<byte>, at: nat, s: bytes)
    requires at + 4 + |s| <= wbuf.Length && |s| < 0x1_0000_0000
    modifies wbuf
    ensures wbuf[..at + 4 + |s|] == old(wbuf[..at]) + (U32(|s|) + s)
  {
    ghost var before := wbuf[..at];
    CopyInto(wbuf, at, U32(|s|));
    CopyInto(wbuf, at + 4, s);
    assert wbuf[..at] == before;
    assert wbuf[..at + 4 + |s|] == wbuf[..at] + wbuf[at..at + 4] + wbuf[at + 4..at + 4 + |s|];
  }

  /**
   * The rest of `Client::sendRequest` once len is accepted: a buffer of
   * 4 + K_MAX_MSG bytes receives len, the argument count and each argument
   * behind its 4-byte size; its first 4 + len bytes are the frame.
   */
  method FillFrame(cmd: seq<bytes>, len: nat) returns (frame: bytes)
    requires len == 4 + Request.ArgBytes(cmd) <= MAX_MESSAGE_SIZE
    ensures frame == Frame(cmd)
  {
    SmallRequestIsEncodable(cmd);
    var wbuf := new byte[4 + MAX_MESSAGE_SIZE];
    WriteHeader(wbuf, len, |cmd|);
    WriteArgs(wbuf, 8, cmd);
    frame := wbuf[..4 + len];
    assert frame == U32(len) + U32(|cmd|) + Request.EncodeList(cmd);
  }

  /** `memcpy` of the total length and of the argument count to the head of the buffer. */
  method WriteHeader(wbuf: array<byte>, len: nat, count: nat)
    requires 8 <= wbuf.Length && len < 0x1_0000_0000 && count < 0x1_0000_0000
    modifies wbuf
    ensures wbuf[..8] == U32(len) + U32(count)
  {
    CopyInto(wbuf, 0, U32(len));
    CopyInto(wbuf, 4, U32(count));
    assert wbuf[..8] == wbuf[0..4] + wbuf[4..8];
  }

  /** The loop of `Client::sendRequest` that copies each argument behind its size, from offset start on. */
  method WriteArgs(wbuf: array<byte>, start: nat, cmd: seq<bytes>)
    requires Request.Encodable(cmd) && start + Request.ArgBytes(cmd) <= wbuf.Length
    modifies wbuf
    ensures wbuf[..start + Request.ArgBytes(cmd)] == old(wbuf[..start]) + Request.EncodeList(cmd)
  {
    ghost var before := wbuf[..start];
    ghost var encoded: bytes := [];
    var current := start;
    for i := 0 to |cmd|
      invariant current == start + Request.ArgBytes(cmd[..i]) <= wbuf.Length
      invariant encoded == Request.EncodeList(cmd[..i])
      invariant wbuf[..current] == before + encoded
    {
      PrefixStep(cmd, i);
      WriteArg(wbuf, current, cmd[i]);
      AppendAssoc(before, encoded, U32(|cmd[i]|) + cmd[i]);
      encoded := encoded + (U32(|cmd[i]|) + cmd[i]);
      current := current + 4 + |cmd[i]|;
    }
    assert cmd[..|cmd|] == cmd;
  }

  lemma AppendAssoc(a: bytes, b: bytes, c: bytes)
    ensures a + b + c == a + (b + c)
  {
  }

  /** One more argument of the prefix: its size, its bound, and its encoding. */
  lemma PrefixStep(cmd: seq<bytes>, i: nat)
    requires i < |cmd| && Request.Encodable(cmd)
    ensures Request.ArgBytes(cmd[..i + 1]) == Request.ArgBytes(cmd[..i]) + 4 + |cmd[i]| <= Request.ArgBytes(cmd)
    ensures |cmd[i]| < 0x1_0000_0000 && Request.Encodable(cmd[..i + 1])
    ensures Request.EncodeList(cmd[..i + 1]) == Request.EncodeList(cmd[..i]) + (U32(|cmd[i]|) + cmd[i])
  {
    assert cmd[..i + 1] == cmd[..i] + [cmd[i]];
    ArgBytesAppend(cmd[..i], cmd[i]);
    ArgBytesPrefix(cmd, i + 1);
    EncodeListAppend(cmd[..i], cmd[i]);
  }

  /**
   * `Client::sendRequest`: refuses (-1, modelled as None) when the payload
   * length exceeds K_MAX_MSG and otherwise returns the bytes it writes.
   */
  method SendRequest(cmd: seq<bytes>) returns (r: Option<bytes>)
    ensures r.Some? <==> 4 + Request.ArgBytes(cmd) <= MAX_MESSAGE_SIZE
    ensures r.Some? ==> |cmd| < MAX_NUM_ARGS && r.value == Frame(cmd)
    ensures r.Some? ==> |r.value| == 4 + ReadU32(r.value)
  {
    var len := PayloadLength(cmd);
    if len > MAX_MESSAGE_SIZE {
      return None;
    }
    var frame := FillFrame(cmd, len);
    SendThenParse(cmd);
    return Some(frame);
  }

  /**
   * Round trip through the server's decoder: the body of a frame that
   * `SendRequest` produces, i.e. bytes 4 .. 4 + len, parses back to the
   * argument list that was sent, and the length field counts exactly that body.
   */
  lemma SendThenParse(cmd: seq<bytes>)
    requires 4 + Request.ArgBytes(cmd) <= MAX_MESSAGE_SIZE
    ensures ReadU32(Frame(cmd)) == |Frame(cmd)| - 4
    ensures Request.ParseRequest(Frame(cmd)[4..]) == Some(cmd)
  {
    SmallRequestIsEncodable(cmd);
    var body := Request.EncodeArgs(cmd);
    EncodeListLength(cmd);
    assert Frame(cmd)[4..] == body;
    ReadU32OfU32(4 + Request.ArgBytes(cmd), body);
    Request.ParseOfEncode(cmd);
  }

  lemma {:induction false} EncodeListLength(args: seq<bytes>)
    requires Request.Encodable(args)
    ensures |Request.EncodeList(args)| == Request.ArgBytes(args)
  {
    if args != [] {
      assert Request.Encodable(args[1..]);
      EncodeListLength(args[1..]);
    }
  }

  /**
   * The length as the source accumulates it: `len` is a `uint32_t`, so
   * each `len += 4 + s.size()` keeps only the low 32 bits.
   */
  function WrappedLength(cmd: seq<bytes>): (n: nat)
    ensures n < 0x1_0000_0000
    ensures n == (4 + Request.ArgBytes(cmd)) % 0x1_0000_0000
  {
    if cmd == [] then 4
    else
      var last := cmd[|cmd| - 1];
      assert cmd == cmd[..|cmd| - 1] + [last];
      ArgBytesAppend(cmd[..|cmd| - 1], last);
      ModOfSum(4 + Request.ArgBytes(cmd[..|cmd| - 1]), 4 + |last|);
      (WrappedLength(cmd[..|cmd| - 1]) + 4 + |last|) % 0x1_0000_0000
  }

  lemma ModOfSum(a: nat, b: nat)
    ensures (a % 0x1_0000_0000 + b) % 0x1_0000_0000 == (a + b) % 0x1_0000_0000
  {
  }

  /**
   * With the wrapped length, one argument of 2^32 - 8 bytes gives len = 0,
   * which passes the K_MAX_MSG check although the request is far larger.
   */
  lemma WrappedLengthAdmitsOversizedRequest()
    ensures var cmd := [seq(0x1_0000_0000 - 8, _ => 0)];
      WrappedLength(cmd) == 0 <= MAX_MESSAGE_SIZE < 4 + Request.ArgBytes(cmd)
  {
    var cmd: seq<bytes> := [seq(0x1_0000_0000 - 8, _ => 0)];
    assert Request.ArgBytes(cmd) == 4 + 0x1_0000_0000 - 8 + Request.ArgBytes(cmd[1..]);
    assert cmd[..0] == [];
  }

  datatype ReadError = Eof | TooLong | BadResponse
  datatype Reply = Reply(code: nat, msg: bytes)
  datatype ReadResult = Failed(error: ReadError) | Replied(reply: Reply)

  /**
   * `Client::readResponse` over the bytes the server sent: a missing
   * header or a body cut short is a read failure, a declared length above
   * K_MAX_MSG is rejected, so is a body shorter than the 4-byte code;
   * otherwise the code is body bytes 0-3 and the message the other len - 4.
   */
  function ReadResponse(stream: bytes): (r: ReadResult)
    ensures r.Replied? ==> 8 + |r.reply.msg| <= |stream| && 4 + |r.reply.msg| <= MAX_MESSAGE_SIZE
    ensures r.Replied? ==> ReadU32(stream) == 4 + |r.reply.msg|
  {
    if |stream| < 4 then Failed(Eof)
    else
      var len := ReadU32(stream);
      if len > MAX_MESSAGE_SIZE then Failed(TooLong)
      else if |stream| < 4 + len then Failed(Eof)
      else if len < 4 then Failed(BadResponse)
      else Replied(Reply(ReadU32(stream[4..]), stream[8..4 + len]))
  }

  /** The response frame the server writes: its length, the 4-byte code, the message. */
  function ResponseFrame(code: nat, msg: bytes): bytes
    requires code < 0x1_0000_0000 && 4 + |msg| <= MAX_MESSAGE_SIZE
  {
    U32(4 + |msg|) + U32(code) + msg
  }

  /** A well-formed response frame is read back as its code and message, whatever follows it. */
  lemma ReadResponseOfFrame(code: nat, msg: bytes, rest: bytes)
    requires code < 0x1_0000_0000 && 4 + |msg| <= MAX_MESSAGE_SIZE
    ensures ReadResponse(ResponseFrame(code, msg) + rest) == Replied(Reply(code, msg))
  {
    var s := ResponseFrame(code, msg) + rest;
    assert ReadU32(s) == 4 + |msg| by {
      assert s == U32(4 + |msg|) + (U32(code) + msg + rest);
      ReadU32OfU32(4 + |msg|, U32(code) + msg + rest);
    }
    assert ReadU32(s[4..]) == code by {
      assert s[4..] == U32(code) + (msg + rest);
      ReadU32OfU32(code, msg + rest);
    }
    assert s[8..8 + |msg|] == msg;
  }

  /** Conversely, whatever is read as a reply starts with that reply's frame. */
  lemma FrameOfReadResponse(stream: bytes)
    requires ReadResponse(stream).Replied?
    ensures var rep := ReadResponse(stream).reply;
      rep.code < 0x1_0000_0000 && stream[..8 + |rep.msg|] == ResponseFrame(rep.code, rep.msg)
  {
    var rep := ReadResponse(stream).reply;
    U32OfReadU32(stream);
    U32OfReadU32(stream[4..]);
    assert stream[..8 + |rep.msg|] == stream[..4] + stream[4..][..4] + rep.msg;
  }
}
