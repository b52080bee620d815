/**
 * One client connection of the server (`Connection`): the REQ / RES / END
 * state machine with its read buffer of incoming request frames and its
 * write buffer holding the response being sent.
 *
 * The socket is the class `Socket`: the results that the coming `read`
 * and `write` calls return are given up front as two sequences of events,
 * and the socket logs the bytes it delivered and the bytes it accepted.
 * The request handler `request(command, output)` is a function parameter
 * of the connection.
 *
 * `Valid` states what the connection guarantees at every step: the bytes
 * delivered so far are the frames of the requests handled, in order,
 * followed by the unprocessed bytes of the read buffer; and the bytes
 * accepted by the socket, followed by the unsent part of the write buffer,
 * are the replies to those requests, in the same order.
 */
module Conn {
  import opened Wire
  import opened Request
  import Serialize
  import Client

  /** Capacity of each buffer: `4 + K_MAX_MSG` bytes. */
  const CAPACITY: nat := 4 + MAX_MESSAGE_SIZE
  /** `Error::TOO_BIG`. */
  const TOO_BIG: int := 2
  const TOO_BIG_MESSAGE: bytes := Ascii("response is too big")

  datatype State = REQ | RES | END

  /** What a `read` call will return: some bytes (none at end of stream), EAGAIN, EINTR or another error. */
  datatype ReadEvent = Incoming(data: bytes) | ReadAgain | ReadInterrupted | ReadFailed
  /** What a `write` call will do: accept up to room bytes, EAGAIN, EINTR or another error. */
  datatype WriteEvent = Room(room: nat) | WriteAgain | WriteInterrupted | WriteFailed

  /** The `errno` values the connection tells apart; EIO stands for every other error. */
  datatype Errno = EAGAIN | EINTR | EIO
  /** What a `read` call returns: the bytes read, or -1 and errno. */
  datatype ReadResult = Got(data: bytes) | ReadError(errno: Errno)
  /** What a `write` call returns: the number of bytes written, or -1 and errno. */
  datatype WriteResult = Wrote(n: nat) | WriteError(errno: Errno)

  function Min(a: nat, b: nat): nat
  {
    if a <= b then a else b
  }

  /** The result of a `read` of at most capacity bytes when the next event is e. */
  function ReadOf(e: ReadEvent, capacity: nat): (r: ReadResult)
    ensures r.Got? ==> |r.data| <= capacity
  {
    match e
    case Incoming(data) => Got(data[..Min(|data|, capacity)])
    case ReadAgain => ReadError(EAGAIN)
    case ReadInterrupted => ReadError(EINTR)
    case ReadFailed => ReadError(EIO)
  }

  /** The result of a `write` of count bytes when the next event is e. */
  function WriteOf(e: WriteEvent, count: nat): (r: WriteResult)
    ensures r.Wrote? ==> r.n <= count
  {
    match e
    case Room(room) => Wrote(Min(room, count))
    case WriteAgain => WriteError(EAGAIN)
    case WriteInterrupted => WriteError(EINTR)
    case WriteFailed => WriteError(EIO)
  }

  /** The next read event, or EAGAIN when nothing more is coming. */
  function HeadRead(events: seq<ReadEvent>): ReadEvent
  {
    if events == [] then ReadAgain else events[0]
  }

  function HeadWrite(events: seq<WriteEvent>): WriteEvent
  {
    if events == [] then WriteAgain else events[0]
  }

  /** The read events after the interrupted calls that the source retries. */
  function SettleReads(events: seq<ReadEvent>): seq<ReadEvent>
  {
    if events != [] && events[0] == ReadInterrupted then SettleReads(events[1..]) else events
  }

  function SettleWrites(events: seq<WriteEvent>): seq<WriteEvent>
  {
    if events != [] && events[0] == WriteInterrupted then SettleWrites(events[1..]) else events
  }

  /** The first read event the retry loop of `tryFillBuffer` does not retry. */
  function NextRead(events: seq<ReadEvent>): (e: ReadEvent)
    ensures e != ReadInterrupted
  {
    SettleLemmaRead(events);
    HeadRead(SettleReads(events))
  }

  function NextWrite(events: seq<WriteEvent>): (e: WriteEvent)
    ensures e != WriteInterrupted
  {
    SettleLemmaWrite(events);
    HeadWrite(SettleWrites(events))
  }

  lemma {:induction false} SettleLemmaRead(events: seq<ReadEvent>)
    ensures SettleReads(events) == [] || SettleReads(events)[0] != ReadInterrupted
  {
    if events != [] && events[0] == ReadInterrupted {
      SettleLemmaRead(events[1..]);
    }
  }

  lemma {:induction false} SettleLemmaWrite(events: seq<WriteEvent>)
    ensures SettleWrites(events) == [] || SettleWrites(events)[0] != WriteInterrupted
  {
    if events != [] && events[0] == WriteInterrupted {
      SettleLemmaWrite(events[1..]);
    }
  }

  /** How much reading is left: one per event plus one per byte still to arrive. */
  function Backlog(events: seq<ReadEvent>): nat
  {
    if events == [] then 0
    else (if events[0].Incoming? then 1 + |events[0].data| else 1) + Backlog(events[1..])
  }

  /** The socket of the connection, as far as `read` and `write` see it. */
  class Socket {
    /** The results of the coming `read` calls; when none is left, a read would block. */
    var readEvents: seq<ReadEvent>
    /** The results of the coming `write` calls; when none is left, a write would block. */
    var writeEvents: seq<WriteEvent>
    /** Every byte `read` has delivered. */
    ghost var delivered: bytes
    /** Every byte `write` has accepted. */
    ghost var accepted: bytes

    constructor (readEvents: seq<ReadEvent>, writeEvents: seq<WriteEvent>)
      ensures this.readEvents == readEvents && this.writeEvents == writeEvents && delivered == [] && accepted == []
    {
      this.readEvents, this.writeEvents := readEvents, writeEvents;
      delivered, accepted := [], [];
    }

    /**
     * `read(fd, buf, capacity)`: takes the next event; bytes beyond capacity
     * stay queued for the next call.
     */
    method Read(capacity: nat) returns (r: ReadResult)
      requires capacity > 0
      modifies this
      ensures r == ReadOf(HeadRead(old(readEvents)), capacity)
      ensures r.Got? ==> delivered == old(delivered) + r.data
      ensures r.ReadError? ==> delivered == old(delivered)
      ensures old(readEvents) == [] ==> readEvents == []
      ensures old(readEvents) != [] ==> Backlog(readEvents) < Backlog(old(readEvents))
      ensures r == ReadError(EINTR) ==> readEvents == old(readEvents)[1..]
      ensures writeEvents == old(writeEvents) && accepted == old(accepted)
    {
      if readEvents == [] {
        return ReadError(EAGAIN);
      }
      var e := readEvents[0];
      r := ReadOf(e, capacity);
      if e.Incoming? && capacity < |e.data| {
        var rest := [Incoming(e.data[capacity..])] + readEvents[1..];
        assert rest[1..] == readEvents[1..];
        readEvents := rest;
      } else {
        readEvents := readEvents[1..];
      }
      if r.Got? {
        delivered := delivered + r.data;
      }
    }

    /** `write(fd, data, |data|)`: takes the next event. */
    method Write(data: bytes) returns (r: WriteResult)
      modifies this
      ensures r == WriteOf(HeadWrite(old(writeEvents)), |data|)
      ensures r.Wrote? ==> accepted == old(accepted) + data[..r.n]
      ensures r.WriteError? ==> accepted == old(accepted)
      ensures old(writeEvents) == [] ==> writeEvents == []
      ensures old(writeEvents) != [] ==> writeEvents == old(writeEvents)[1..]
      ensures readEvents == old(readEvents) && delivered == old(delivered)
    {
      if writeEvents == [] {
        return WriteError(EAGAIN);
      }
      r := WriteOf(writeEvents[0], |data|);
      writeEvents := writeEvents[1..];
      if r.Wrote? {
        accepted := accepted + data[..r.n];
      }
    }
  }

  /** An argument list a request frame can carry. */
  predicate Fits(args: seq<bytes>)
  {
    Encodable(args) && |args| <= MAX_NUM_ARGS && |EncodeArgs(args)| <= MAX_MESSAGE_SIZE
  }

  /** The frame of a request: the 4-byte length of the body, then the body. */
  function RequestFrame(args: seq<bytes>): (r: bytes)
    requires Fits(args)
  {
    U32(|EncodeArgs(args)|) + EncodeArgs(args)
  }

  /** The error item `out::err(output, TOO_BIG, "response is too big")` writes into an empty output. */
  function TooBig(): bytes
  {
    [Serialize.ERR] + Signed(TOO_BIG, 4) + U32(|TOO_BIG_MESSAGE|) + TOO_BIG_MESSAGE
  }

  /** The TOO_BIG reply is what `out::err` writes, and it reads back as that error. */
  lemma TooBigIsError()
    ensures TooBig() == Serialize.Err([], TOO_BIG, TOO_BIG_MESSAGE)
    ensures |TooBig()| == 9 + |TOO_BIG_MESSAGE|
    ensures Serialize.ReadItem(TooBig()) == Some((Serialize.ErrItem(TOO_BIG, TOO_BIG_MESSAGE), |TooBig()|))
  {
    var msg, empty: bytes := TOO_BIG_MESSAGE, [];
    assert |msg| == 19 && |msg| % 0x1_0000_0000 == |msg|;
    assert empty + TooBig() == TooBig();
    Serialize.ReadErrItem(TOO_BIG, msg);
  }

  /**
   * The frame of the reply to a request whose handler output is out: the
   * output, or the TOO_BIG error in its place when 4 + |out| would exceed
   * MAX_MESSAGE_SIZE, preceded by its 4-byte length.
   */
  function ReplyFrame(out: bytes): bytes
  {
    var body := if 4 + |out| > MAX_MESSAGE_SIZE then TooBig() else out;
    U32(|body|) + body
  }

  /** A reply frame fits the client's buffer, and its length header gives the length of what follows. */
  lemma ReplyFrameShape(out: bytes)
    ensures 4 <= |ReplyFrame(out)| <= MAX_MESSAGE_SIZE
    ensures ReadU32(ReplyFrame(out)) == |ReplyFrame(out)| - 4
    ensures 4 + |out| <= MAX_MESSAGE_SIZE ==> ReplyFrame(out)[4..] == out
    ensures 4 + |out| > MAX_MESSAGE_SIZE ==> ReplyFrame(out)[4..] == TooBig()
  {
    var body := if 4 + |out| > MAX_MESSAGE_SIZE then TooBig() else out;
    ReadU32OfU32(|body|, body);
  }

  /** The frames of a list of requests, in order. */
  function RequestStream(reqs: seq<seq<bytes>>): bytes
    requires forall a :: a in reqs ==> Fits(a)
  {
    if reqs == [] then [] else RequestStream(reqs[..|reqs| - 1]) + RequestFrame(reqs[|reqs| - 1])
  }

  /** The reply frames to a list of requests, in order. */
  function ReplyStream(reqs: seq<seq<bytes>>, handler: seq<bytes> -> bytes): bytes
  {
    if reqs == [] then [] else ReplyStream(reqs[..|reqs| - 1], handler) + ReplyFrame(handler(reqs[|reqs| - 1]))
  }

  /** What `tryOneRequest` makes of the buffered bytes. */
  datatype Step = NeedMore | TooLong | BadRequest | Frame(args: seq<bytes>, size: nat)

  /**
   * Fewer than 4 bytes or a frame not yet complete: wait for more; a
   * declared length above MAX_MESSAGE_SIZE or a body that does not parse:
   * give up on the connection; otherwise the arguments and the frame size.
   */
  function NextStep(buf: bytes): (r: Step)
    ensures r.Frame? ==> 4 <= r.size <= |buf| && r.size <= CAPACITY
    ensures r.NeedMore? ==> |buf| < CAPACITY
  {
    if |buf| < 4 then NeedMore
    else
      var len := ReadU32(buf);
      if len > MAX_MESSAGE_SIZE then TooLong
      else if 4 + len > |buf| then NeedMore
      else
        match ParseRequest(buf[4..4 + len])
        case None => BadRequest
        case Some(args) => Frame(args, 4 + len)
  }

  /** A frame `tryOneRequest` takes off the buffer is the frame of the request it parsed. */
  lemma StepTakesFrame(buf: bytes)
    requires NextStep(buf).Frame?
    ensures var s := NextStep(buf); Fits(s.args) && buf[..s.size] == RequestFrame(s.args)
  {
    var len := ReadU32(buf);
    var body := buf[4..4 + len];
    EncodeOfParse(body);
    U32OfReadU32(buf);
    assert buf[..4 + len] == buf[..4] + body;
  }

  /** A complete request frame at the head of the buffer is taken off it whole, whatever follows. */
  lemma StepOfFrame(args: seq<bytes>, rest: bytes)
    requires Fits(args)
    ensures NextStep(RequestFrame(args) + rest) == Frame(args, |RequestFrame(args)|)
  {
    var body := EncodeArgs(args);
    var buf := RequestFrame(args) + rest;
    assert buf == U32(|body|) + (body + rest);
    ReadU32OfU32(|body|, body + rest);
    assert buf[4..4 + |body|] == body;
    ParseOfEncode(args);
  }

  /** Every strict prefix of a request frame is an incomplete frame: the connection waits for the rest. */
  lemma StepOfPrefix(args: seq<bytes>, k: nat)
    requires Fits(args) && k < |RequestFrame(args)|
    ensures NextStep(RequestFrame(args)[..k]) == NeedMore
  {
    var body := EncodeArgs(args);
    if k >= 4 {
      assert RequestFrame(args)[..k] == U32(|body|) + body[..k - 4];
      ReadU32OfU32(|body|, body[..k - 4]);
    }
  }

  /** The frame `Client::sendRequest` writes is a request frame the server takes whole. */
  lemma ClientFrameIsRequestFrame(args: seq<bytes>)
    requires 4 + ArgBytes(args) <= MAX_MESSAGE_SIZE
    ensures Fits(args) && Client.Frame(args) == RequestFrame(args)
  {
    assert Encodable(args) && |args| < MAX_NUM_ARGS by {
      Client.SmallRequestIsEncodable(args);
    }
    assert |EncodeArgs(args)| == 4 + ArgBytes(args) by {
      Client.EncodeListLength(args);
    }
    assert Client.Frame(args) == U32(|EncodeArgs(args)|) + EncodeArgs(args);
  }

  lemma RequestStreamAppend(reqs: seq<seq<bytes>>, args: seq<bytes>)
    requires forall a :: a in reqs ==> Fits(a)
    requires Fits(args)
    ensures forall a :: a in reqs + [args] ==> Fits(a)
    ensures RequestStream(reqs + [args]) == RequestStream(reqs) + RequestFrame(args)
  {
    assert (reqs + [args])[..|reqs|] == reqs;
  }

  lemma ReplyStreamAppend(reqs: seq<seq<bytes>>, args: seq<bytes>, handler: seq<bytes> -> bytes)
    ensures ReplyStream(reqs + [args], handler) == ReplyStream(reqs, handler) + ReplyFrame(handler(args))
  {
    assert (reqs + [args])[..|reqs|] == reqs;
  }

  /**
   * reqs are the requests handled so far, received the bytes of their
   * frames and replied the bytes of their reply frames, both in order.
   */
  ghost predicate Served(reqs: seq<seq<bytes>>, received: bytes, replied: bytes, handler: seq<bytes> -> bytes)
  {
    (forall a :: a in reqs ==> Fits(a))
    && received == RequestStream(reqs) && replied == ReplyStream(reqs, handler)
  }

  lemma ServedAppend(reqs: seq<seq<bytes>>, received: bytes, replied: bytes, handler: seq<bytes> -> bytes, args: seq<bytes>)
    requires Served(reqs, received, replied, handler) && Fits(args)
    ensures Served(reqs + [args], received + RequestFrame(args), replied + ReplyFrame(handler(args)), handler)
  {
    RequestStreamAppend(reqs, args);
    ReplyStreamAppend(reqs, args, handler);
  }

  /** One retried call: an interrupted head is skipped, any other head is the event the retry loop stops at. */
  lemma SettleStepRead(events: seq<ReadEvent>)
    ensures events != [] && events[0] == ReadInterrupted ==> NextRead(events) == NextRead(events[1..])
    ensures !(events != [] && events[0] == ReadInterrupted) ==> NextRead(events) == HeadRead(events)
  {
  }

  lemma SettleStepWrite(events: seq<WriteEvent>)
    ensures events != [] && events[0] == WriteInterrupted ==> NextWrite(events) == NextWrite(events[1..])
    ensures !(events != [] && events[0] == WriteInterrupted) ==> NextWrite(events) == HeadWrite(events)
    ensures events != [] && events[0] == WriteInterrupted ==> SettleWrites(events) == SettleWrites(events[1..])
    ensures !(events != [] && events[0] == WriteInterrupted) ==> SettleWrites(events) == events
  {
  }

  /** The retry loop only skips events: what it leaves is a suffix of what it was given. */
  lemma {:induction false} SettleWritesSuffix(events: seq<WriteEvent>)
    ensures |SettleWrites(events)| <= |events|
    ensures SettleWrites(events) == events[|events| - |SettleWrites(events)|..]
  {
    if events != [] && events[0] == WriteInterrupted {
      SettleWritesSuffix(events[1..]);
      assert events[1..][|events| - 1 - |SettleWrites(events)|..] == events[|events| - |SettleWrites(events)|..];
    }
  }

  /** The write events left once the retry loop of `tryFlushBuffer` has made its one call that is not interrupted. */
  function AfterWrite(events: seq<WriteEvent>): (rest: seq<WriteEvent>)
    ensures NextWrite(events).Room? ==> |rest| < |events|
    ensures forall e :: e in rest ==> e in events
  {
    SettleWritesSuffix(events);
    var settled := SettleWrites(events);
    assert forall e :: e in settled ==> e in events by {
      assert settled == events[|events| - |settled|..];
    }
    if settled == [] then [] else settled[1..]
  }

  /** Writing k more of the bytes still pending extends what went out by those bytes and leaves the rest pending. */
  lemma SentStep(base: bytes, before: bytes, after: bytes, pending: bytes, p: bytes, sent: nat, k: nat)
    requires sent + k <= |pending| && p == pending[sent..]
    requires before == base + pending[..sent] && after == before + p[..k]
    ensures after == base + pending[..sent + k] && p[k..] == pending[sent + k..]
  {
    assert pending[..sent] + p[..k] == pending[..sent + k];
  }

  /** What one call of `tryFlushBuffer` does: how many bytes it writes, whether to write again, the state it leaves. */
  datatype Round = Round(sent: nat, more: bool, state: State)

  /**
   * One call of `tryFlushBuffer` with pending bytes against the coming
   * write events: a write with room for all of them sends them and goes
   * back to REQ; one with less room sends what fits and asks to write
   * again; EAGAIN stops in RES and any other error ends the connection.
   */
  function FlushOnce(events: seq<WriteEvent>, pending: bytes): (r: Round)
    ensures r.sent <= |pending| && (r.more ==> r.sent < |pending| && NextWrite(events).Room?)
  {
    RoundOf(NextWrite(events), |pending|)
  }

  /** The round a write result makes of `size` pending bytes (an EINTR result is never taken). */
  function RoundOf(e: WriteEvent, size: nat): Round
  {
    match e
    case Room(room) => if room < size then Round(room, true, RES) else Round(size, false, REQ)
    case WriteFailed => Round(0, false, END)
    case WriteAgain => Round(0, false, RES)
    case WriteInterrupted => Round(0, false, RES)
  }

  /** What the loop of `stateResponse` achieves: how many bytes went out, and the state it left. */
  datatype Flushed = Flushed(sent: nat, state: State)

  /** The loop of `stateResponse`: `tryFlushBuffer` again and again while it asks to write again. */
  function Flush(events: seq<WriteEvent>, pending: bytes): (r: Flushed)
    ensures r.sent <= |pending|
    decreases |events|
  {
    var once := FlushOnce(events, pending);
    if once.more then
      var rest := Flush(AfterWrite(events), pending[once.sent..]);
      Flushed(once.sent + rest.sent, rest.state)
    else Flushed(once.sent, once.state)
  }

  /**
   * The loop of `stateResponse` after some rounds: sent bytes went out, and
   * while it goes on, the rest of the flush is that of the events and the
   * bytes left.
   */
  ghost predicate FlushedSoFar(events: seq<WriteEvent>, pending: bytes, sent: nat, more: bool, state: State,
                               left: seq<WriteEvent>, rest: bytes)
  {
    sent <= |pending|
    && (more ==> (state == RES && rest == pending[sent..]
        && Flush(events, pending) == Flushed(sent + Flush(left, rest).sent, Flush(left, rest).state)))
    && (!more ==> Flush(events, pending) == Flushed(sent, state) && (state == RES ==> rest == pending[sent..]))
  }

  /** One more round of the loop keeps the account of `FlushedSoFar`. */
  lemma FlushProgress(events: seq<WriteEvent>, pending: bytes, sent: nat, left: seq<WriteEvent>, rest: bytes,
                      more: bool, state: State, left': seq<WriteEvent>, rest': bytes)
    requires FlushedSoFar(events, pending, sent, true, RES, left, rest)
    requires var once := FlushOnce(left, rest);
      more == once.more && state == once.state && left' == AfterWrite(left)
      && (state == RES ==> rest' == rest[once.sent..])
    ensures FlushedSoFar(events, pending, sent + FlushOnce(left, rest).sent, more, state, left', rest')
  {
    var k := FlushOnce(left, rest).sent;
    assert rest[k..] == pending[sent + k..];
  }

  /** A non-empty response goes back to REQ exactly when all of it was written. */
  lemma {:induction false} FlushAllOrRes(events: seq<WriteEvent>, pending: bytes)
    requires pending != []
    ensures Flush(events, pending).state == REQ <==> Flush(events, pending).sent == |pending|
    decreases |events|
  {
    var once := FlushOnce(events, pending);
    if once.more {
      FlushAllOrRes(AfterWrite(events), pending[once.sent..]);
    }
  }

  /** The write result the loop of `stateResponse` stops at: the first one after which it does not write again. */
  function FlushStop(events: seq<WriteEvent>, pending: bytes): (e: WriteEvent)
    ensures e != WriteInterrupted
    decreases |events|
  {
    var once := FlushOnce(events, pending);
    if once.more then FlushStop(AfterWrite(events), pending[once.sent..]) else NextWrite(events)
  }

  /**
   * The state the flush leaves is told by the write it stops at: REQ after a
   * write with room for everything left, RES after EAGAIN, END after any
   * other error.
   */
  lemma {:induction false} FlushStateOfStop(events: seq<WriteEvent>, pending: bytes)
    ensures Flush(events, pending).state == REQ <==> FlushStop(events, pending).Room?
    ensures Flush(events, pending).state == RES <==> FlushStop(events, pending) == WriteAgain
    ensures Flush(events, pending).state == END <==> FlushStop(events, pending) == WriteFailed
    decreases |events|
  {
    var once := FlushOnce(events, pending);
    if once.more {
      FlushStateOfStop(AfterWrite(events), pending[once.sent..]);
    }
  }

  /** The flush ends the connection only when some `write` fails with an error other than EAGAIN and EINTR. */
  lemma {:induction false} FlushEndsOnError(events: seq<WriteEvent>, pending: bytes)
    ensures Flush(events, pending).state == END ==> WriteFailed in events
    decreases |events|
  {
    var once := FlushOnce(events, pending);
    SettleWritesSuffix(events);
    var settled := SettleWrites(events);
    if once.more {
      FlushEndsOnError(AfterWrite(events), pending[once.sent..]);
    } else if NextWrite(events) == WriteFailed {
      assert settled != [] && settled[0] == WriteFailed;
      assert settled == events[|events| - |settled|..];
    }
  }

  class Connection {
    var state: State
    const sock: Socket
    const readBuffer: array<byte>
    var readBufferSize: nat
    const writeBuffer: array<byte>
    var writeBufferSize: nat
    var writeBufferSent: nat
    /** `request(command, output)`: the output the handler writes for an argument list. */
    const handler: seq<bytes> -> bytes
    /** The argument lists handled so far, in order. */
    ghost var requests: seq<seq<bytes>>
    /** The bytes of the request frames taken off the read buffer. */
    ghost var received: bytes
    /** The bytes of the reply frames put into the write buffer. */
    ghost var replied: bytes
    /** The event the last `read` of `tryFillBuffer` stopped at; ReadAgain before the first. */
    ghost var lastRead: ReadEvent

    /** The bytes read but not yet processed. */
    ghost function ReadContents(): bytes
      reads this`readBufferSize, readBuffer
      requires readBufferSize <= readBuffer.Length
    {
      readBuffer[..readBufferSize]
    }

    /** The part of the response not yet written. */
    ghost function Pending(): bytes
      reads this`writeBufferSent, this`writeBufferSize, writeBuffer
      requires writeBufferSent <= writeBufferSize <= writeBuffer.Length
    {
      writeBuffer[writeBufferSent..writeBufferSize]
    }

    /**
     * The buffers and counters are in range, and no byte is lost: what the
     * socket delivered is the frames taken so far followed by the read
     * buffer, and what it accepted followed by the unsent part of the write
     * buffer is the replies put so far.
     */
    ghost predicate Consistent()
      reads this, sock, readBuffer, writeBuffer
    {
      readBuffer.Length == CAPACITY && writeBuffer.Length == CAPACITY && readBuffer != writeBuffer
      && readBufferSize <= CAPACITY
      && writeBufferSent <= writeBufferSize <= CAPACITY
      && (state == REQ ==> writeBufferSize == 0 && writeBufferSent == 0)
      && (state == RES ==> writeBufferSent < writeBufferSize)
      && sock.delivered == received + ReadContents()
      && sock.accepted + Pending() == replied
    }

    /** Unless the connection has ended, the read buffer has room for at least one more byte. */
    ghost predicate Valid()
      reads this, sock, readBuffer, writeBuffer
    {
      Consistent() && (state != END ==> readBufferSize < CAPACITY)
    }

    /** The frames taken are those of the requests handled, and the replies put are the replies to them. */
    ghost predicate Log()
      reads this`requests, this`received, this`replied
    {
      Served(requests, received, replied, handler)
    }

    /** A fresh connection waiting for a request, with empty buffers. */
    constructor (sock: Socket, handler: seq<bytes> -> bytes)
      requires sock.delivered == [] && sock.accepted == []
      ensures Valid() && Log() && state == REQ && requests == [] && ReadContents() == []
      ensures this.sock == sock && this.handler == handler && fresh(readBuffer) && fresh(writeBuffer)
    {
      this.sock, this.handler := sock, handler;
      state := REQ;
      readBuffer := new byte[CAPACITY];
      writeBuffer := new byte[CAPACITY];
      readBufferSize, writeBufferSize, writeBufferSent := 0, 0, 0;
      requests, received, replied := [], [], [];
      lastRead := ReadAgain;
    }

    /**
     * `tryOneRequest`: with fewer than 4 bytes or an incomplete frame,
     * returns false and changes nothing; with a declared length above
     * MAX_MESSAGE_SIZE or a body that does not parse, ends the connection.
     * Otherwise it handles the request, puts the reply frame in the write
     * buffer, drops the frame from the read buffer (the rest moves to the
     * front), and flushes; it returns whether the reply was sent in full.
     */
    method TryOneRequest() returns (more: bool)
      requires Consistent() && Log() && state == REQ
      modifies this, readBuffer, writeBuffer, sock
      ensures Valid() && Log() && sock.readEvents == old(sock.readEvents) && lastRead == old(lastRead)
      ensures !NextStep(old(ReadContents())).Frame? ==>
        !more && requests == old(requests) && ReadContents() == old(ReadContents())
        && state == (if NextStep(old(ReadContents())).NeedMore? then REQ else END)
        && sock.writeEvents == old(sock.writeEvents) && sock.accepted == old(sock.accepted)
      ensures NextStep(old(ReadContents())).Frame? ==>
        var step := NextStep(old(ReadContents()));
        var reply := ReplyFrame(handler(step.args));
        more == (state == REQ) && requests == old(requests) + [step.args]
        && ReadContents() == old(ReadContents())[step.size..]
        && state == Flush(old(sock.writeEvents), reply).state
        && (more <==> sock.accepted == old(sock.accepted) + reply)
      ensures more ==> readBufferSize < old(readBufferSize)
    {
      var step := PeekRequest();
      match step
      case NeedMore => more := false;
      case TooLong => Close(); more := false;
      case BadRequest => Close(); more := false;
      case Frame(args, size) =>
        StepTakesFrame(ReadContents());
        more := Respond(args, size);
    }

    /**
     * The checks of `tryOneRequest` before a request is served: at least
     * the 4-byte length, a length within the limit, the whole message in the
     * buffer, and a message that parses.
     */
    method PeekRequest() returns (step: Step)
      requires readBufferSize <= readBuffer.Length
      ensures step == NextStep(ReadContents())
    {
      ghost var buf := ReadContents();
      if readBufferSize < 4 {
        return NeedMore;
      }
      var messageLength := ReadU32(readBuffer[..4]);
      assert messageLength == ReadU32(buf) by {
        assert readBuffer[..4][..4] == buf[..4];
      }
      if messageLength > MAX_MESSAGE_SIZE {
        return TooLong;
      }
      if 4 + messageLength > readBufferSize {
        return NeedMore;
      }
      assert buf[4..4 + messageLength] == readBuffer[4..4 + messageLength];
      var command := Parse(readBuffer[4..4 + messageLength]);
      if command.None? {
        return BadRequest;
      }
      return Frame(command.value, 4 + messageLength);
    }

    /**
     * The rest of `tryOneRequest` once a request of size bytes has parsed
     * to args: the handler's output, or the TOO_BIG error in its place, is
     * packed into the write buffer as the reply frame, the request frame
     * leaves the read buffer, and the connection moves to RES and flushes.
     * Returns whether the reply went out in full.
     */
    method Respond(args: seq<bytes>, size: nat) returns (more: bool)
      requires Consistent() && Log() && state == REQ && Fits(args)
      requires 4 <= size <= readBufferSize && ReadContents()[..size] == RequestFrame(args)
      modifies this, readBuffer, writeBuffer, sock
      ensures Valid() && Log() && more == (state == REQ) && requests == old(requests) + [args]
      ensures ReadContents() == old(ReadContents())[size..] && readBufferSize < old(readBufferSize)
      ensures sock.readEvents == old(sock.readEvents) && lastRead == old(lastRead)
      ensures var reply := ReplyFrame(handler(args)); var f := Flush(old(sock.writeEvents), reply);
        state == f.state && sock.accepted == old(sock.accepted) + reply[..f.sent]
        && (more <==> sock.accepted == old(sock.accepted) + reply)
    {
      ghost var reqs, rcv, rpl := requests, received, replied;
      var output := handler(args);
      if 4 + |output| > MAX_MESSAGE_SIZE {
        output := TooBig();
      }
      ghost var request, reply := RequestFrame(args), ReplyFrame(handler(args));
      assert U32(|output|) + output == reply;
      Pack(args, output, size, request, reply);
      ServedAppend(reqs, rcv, rpl, handler, args);
      ghost var accepted := sock.accepted;
      StateResponse();
      ghost var f := Flush(old(sock.writeEvents), reply);
      FlushAllOrRes(old(sock.writeEvents), reply);
      assert sock.accepted == accepted + reply ==> f.sent == |reply| by {
        assert |sock.accepted| == |accepted| + f.sent;
      }
      return state == REQ;
    }

    /** Puts the reply frame of output into the write buffer and drops the request frame from the read buffer. */
    method Pack(args: seq<bytes>, output: bytes, size: nat, ghost request: bytes, ghost reply: bytes)
      requires Consistent() && state == REQ && 4 + |output| <= MAX_MESSAGE_SIZE
      requires 4 <= size <= readBufferSize && ReadContents()[..size] == request
      requires reply == U32(|output|) + output
      modifies this, readBuffer, writeBuffer
      ensures Valid() && state == RES && requests == old(requests) + [args] && Pending() == reply
      ensures lastRead == old(lastRead)
      ensures received == old(received) + request && replied == old(replied) + reply
      ensures ReadContents() == old(ReadContents())[size..] && readBufferSize == old(readBufferSize) - size
    {
      ghost var buf := ReadContents();
      assert sock.accepted == replied;
      PutReply(output);
      DropFrame(size);
      assert buf == request + ReadContents() by {
        assert buf == buf[..size] + buf[size..];
      }
      requests, received, replied := requests + [args], received + request, replied + reply;
      state := RES;
    }

    /** Packs a reply into the write buffer: its 4-byte length, then the output. */
    method PutReply(output: bytes)
      requires writeBuffer.Length == CAPACITY && writeBufferSent == 0 && 4 + |output| <= MAX_MESSAGE_SIZE
      modifies writeBuffer, this`writeBufferSize
      ensures writeBufferSize <= CAPACITY && Pending() == U32(|output|) + output
    {
      var frame := U32(|output|) + output;
      forall k | 0 <= k < |frame| {
        writeBuffer[k] := frame[k];
      }
      writeBufferSize := |frame|;
      assert Pending() == frame;
    }

    /** Drops the first size bytes of the read buffer; the rest moves to the front. */
    method DropFrame(size: nat)
      requires readBufferSize <= readBuffer.Length && size <= readBufferSize
      modifies readBuffer, this`readBufferSize
      ensures readBufferSize == old(readBufferSize) - size
      ensures ReadContents() == old(ReadContents())[size..]
    {
      var remainingSize := readBufferSize - size;
      if remainingSize > 0 {
        var rest := readBuffer[size..readBufferSize];
        forall k | 0 <= k < remainingSize {
          readBuffer[k] := rest[k];
        }
        assert readBuffer[..remainingSize] == rest;
      }
      readBufferSize := remainingSize;
    }

    /** Appends the bytes just read to the read buffer. */
    method Append(data: bytes)
      requires readBufferSize + |data| <= readBuffer.Length
      modifies readBuffer, this`readBufferSize
      ensures readBufferSize == old(readBufferSize) + |data|
      ensures ReadContents() == old(ReadContents()) + data
    {
      ghost var buf := ReadContents();
      forall k | 0 <= k < |data| {
        readBuffer[readBufferSize + k] := data[k];
      }
      readBufferSize := readBufferSize + |data|;
      assert ReadContents() == buf + data;
    }

    /** The `write` loop of `tryFlushBuffer`: the call is repeated while it is interrupted. */
    method WriteRetrying(data: bytes) returns (r: WriteResult)
      modifies sock
      ensures r == WriteOf(NextWrite(old(sock.writeEvents)), |data|)
      ensures r.Wrote? ==> sock.accepted == old(sock.accepted) + data[..r.n]
      ensures r.WriteError? ==> sock.accepted == old(sock.accepted)
      ensures sock.writeEvents == AfterWrite(old(sock.writeEvents))
      ensures sock.readEvents == old(sock.readEvents) && sock.delivered == old(sock.delivered)
    {
      SettleStepWrite(sock.writeEvents);
      r := sock.Write(data);
      while r == WriteError(EINTR)
        invariant r == WriteError(EINTR) ==> SettleWrites(sock.writeEvents) == SettleWrites(old(sock.writeEvents))
        invariant r == WriteError(EINTR) ==> NextWrite(sock.writeEvents) == NextWrite(old(sock.writeEvents))
        invariant r != WriteError(EINTR) ==> r == WriteOf(NextWrite(old(sock.writeEvents)), |data|)
        invariant r != WriteError(EINTR) ==> sock.writeEvents == AfterWrite(old(sock.writeEvents))
        invariant r.Wrote? ==> sock.accepted == old(sock.accepted) + data[..r.n]
        invariant r.WriteError? ==> sock.accepted == old(sock.accepted)
        invariant sock.readEvents == old(sock.readEvents) && sock.delivered == old(sock.delivered)
        decreases |sock.writeEvents| + (if r == WriteError(EINTR) then 1 else 0)
      {
        SettleStepWrite(sock.writeEvents);
        r := sock.Write(data);
      }
    }

    /**
     * The `read` loop of `tryFillBuffer`: reads into the free part of the
     * read buffer, repeating the call while it is interrupted.
     */
    method ReadRetrying() returns (r: ReadResult)
      requires Valid() && state == REQ
      modifies sock, readBuffer, this`readBufferSize
      ensures Consistent() && r == ReadOf(NextRead(old(sock.readEvents)), CAPACITY - old(readBufferSize))
      ensures r.Got? ==> ReadContents() == old(ReadContents()) + r.data
      ensures r.ReadError? ==> readBufferSize == old(readBufferSize) && ReadContents() == old(ReadContents())
      ensures Backlog(sock.readEvents) <= Backlog(old(sock.readEvents))
      ensures r.Got? ==> Backlog(sock.readEvents) < Backlog(old(sock.readEvents))
      ensures sock.writeEvents == old(sock.writeEvents)
    {
      var availableCapacity := CAPACITY - readBufferSize;
      SettleStepRead(sock.readEvents);
      r := sock.Read(availableCapacity);
      while r == ReadError(EINTR)
        invariant r == ReadError(EINTR) ==> NextRead(sock.readEvents) == NextRead(old(sock.readEvents))
        invariant r != ReadError(EINTR) ==> r == ReadOf(NextRead(old(sock.readEvents)), availableCapacity)
        invariant Backlog(sock.readEvents) <= Backlog(old(sock.readEvents))
        invariant r.Got? ==> Backlog(sock.readEvents) < Backlog(old(sock.readEvents))
        invariant r.Got? ==> sock.delivered == old(sock.delivered) + r.data
        invariant r.ReadError? ==> sock.delivered == old(sock.delivered)
        invariant sock.writeEvents == old(sock.writeEvents) && sock.accepted == old(sock.accepted)
        modifies sock
        decreases Backlog(sock.readEvents) + (if r == ReadError(EINTR) then 1 else 0)
      {
        SettleStepRead(sock.readEvents);
        r := sock.Read(availableCapacity);
      }
      if r.Got? {
        ghost var buf := ReadContents();
        Append(r.data);
        assert sock.delivered == received + (buf + r.data);
      }
    }

    /**
     * `tryFlushBuffer`: writes the unsent part of the response, retrying
     * when interrupted. EAGAIN stops without change; another error ends the
     * connection; otherwise writeBufferSent advances by the count written,
     * never past writeBufferSize, and once all is sent the connection goes
     * back to REQ with both counters at 0. Returns whether to write again.
     */
    method TryFlushBuffer() returns (more: bool)
      requires Valid() && state == RES
      modifies this`state, this`writeBufferSent, this`writeBufferSize, sock
      ensures Valid() && sock.readEvents == old(sock.readEvents)
      ensures sock.writeEvents == AfterWrite(old(sock.writeEvents))
      ensures more ==> |sock.writeEvents| < old(|sock.writeEvents|)
      ensures var once := FlushOnce(old(sock.writeEvents), old(Pending()));
        more == once.more && state == once.state
        && sock.accepted == old(sock.accepted) + old(Pending())[..once.sent]
        && (state == RES ==> Pending() == old(Pending())[once.sent..])
    {
      ghost var pending := Pending();
      var writtenBytes := WriteRetrying(writeBuffer[writeBufferSent..writeBufferSize]);
      if writtenBytes.WriteError? && writtenBytes.errno == EAGAIN {
        assert pending[..0] == [] && pending[0..] == pending;
        return false;
      }
      if writtenBytes.WriteError? {
        state := END;
        return false;
      }
      writeBufferSent := writeBufferSent + writtenBytes.n;
      assert pending == pending[..writtenBytes.n] + Pending();
      if writeBufferSent == writeBufferSize {
        state := REQ;
        writeBufferSent := 0;
        writeBufferSize := 0;
        return false;
      }
      return true;
    }

    /** `state = ConnectionState::END`: the connection is given up; nothing else changes. */
    method Close()
      requires Consistent()
      modifies this`state
      ensures Valid() && state == END
    {
      state := END;
    }

    /**
     * `tryFillBuffer`: reads into the free part of the read buffer,
     * retrying when interrupted. EAGAIN stops without change; another error
     * or end of stream ends the connection; otherwise the bytes are
     * appended and every complete request in the buffer is handled.
     * Returns whether the connection is still waiting for requests.
     */
    method TryFillBuffer() returns (more: bool)
      requires Valid() && Log() && state == REQ
      modifies this, readBuffer, writeBuffer, sock
      ensures Valid() && Log() && more == (state == REQ && NextRead(old(sock.readEvents)).Incoming?)
      ensures |old(requests)| <= |requests| && requests[..|old(requests)|] == old(requests)
      ensures more ==> Backlog(sock.readEvents) < Backlog(old(sock.readEvents))
      ensures !(NextRead(old(sock.readEvents)).Incoming? && NextRead(old(sock.readEvents)).data != []) ==>
        requests == old(requests) && ReadContents() == old(ReadContents())
        && state == (if NextRead(old(sock.readEvents)) == ReadAgain then REQ else END)
      ensures NextRead(old(sock.readEvents)).Incoming? && NextRead(old(sock.readEvents)).data != [] ==>
        (state == REQ ==> NextStep(ReadContents()).NeedMore?)
      ensures lastRead == NextRead(old(sock.readEvents))
    {
      ghost var next := NextRead(sock.readEvents);
      var readBytes := ReadRetrying();
      lastRead := next;
      if readBytes.ReadError? && readBytes.errno == EAGAIN {
        return false;
      }
      if readBytes.ReadError? {
        Close();
        return false;
      }
      var data := readBytes.data;
      if |data| == 0 {
        Close();
        return false;
      }
      assert next.Incoming? && next.data != [];
      HandleRequests();
      return state == REQ;
    }

    /**
     * The loop of `tryFillBuffer` that handles buffered requests while each
     * reply goes out in full. It stops waiting for requests only with no
     * complete frame left in the buffer.
     */
    method HandleRequests()
      requires Consistent() && Log() && state == REQ
      modifies this, readBuffer, writeBuffer, sock
      ensures Valid() && Log() && sock.readEvents == old(sock.readEvents) && lastRead == old(lastRead)
      ensures |old(requests)| <= |requests| && requests[..|old(requests)|] == old(requests)
      ensures state == REQ ==> NextStep(ReadContents()).NeedMore?
    {
      while true
        invariant Consistent() && Log() && state == REQ && sock.readEvents == old(sock.readEvents) && lastRead == old(lastRead)
        invariant |old(requests)| <= |requests| && requests[..|old(requests)|] == old(requests)
        decreases readBufferSize
      {
        var more := TryOneRequest();
        if !more {
          break;
        }
      }
    }

    /**
     * `stateRequest`: fills the read buffer and handles requests until that
     * stops. It stops waiting for requests only once a `read` would block,
     * with no complete frame in the buffer unless that first `read` already
     * blocked: frames left behind by a reply that could not be sent in full
     * wait for the next bytes to arrive.
     */
    method StateRequest()
      requires Valid() && Log() && state == REQ
      modifies this, readBuffer, writeBuffer, sock
      ensures Valid() && Log() && |old(requests)| <= |requests| && requests[..|old(requests)|] == old(requests)
      ensures state == REQ ==> (lastRead == ReadAgain
        && (NextStep(ReadContents()).NeedMore? || (requests == old(requests) && ReadContents() == old(ReadContents()))))
    {
      var more := TryFillBuffer();
      while more
        invariant Valid() && Log() && |old(requests)| <= |requests| && requests[..|old(requests)|] == old(requests)
        invariant more ==> state == REQ && NextStep(ReadContents()).NeedMore?
        invariant !more && state == REQ ==> (lastRead == ReadAgain
          && (NextStep(ReadContents()).NeedMore? || (requests == old(requests) && ReadContents() == old(ReadContents()))))
        decreases if more then Backlog(sock.readEvents) + 1 else 0
      {
        more := TryFillBuffer();
      }
    }

    /**
     * `stateResponse`: flushes the write buffer until that stops, which is
     * exactly what `Flush` says of the coming write events.
     */
    method StateResponse()
      requires Valid() && state == RES
      modifies this`state, this`writeBufferSent, this`writeBufferSize, sock
      ensures Valid() && sock.readEvents == old(sock.readEvents)
      ensures var f := Flush(old(sock.writeEvents), old(Pending()));
        state == f.state && sock.accepted == old(sock.accepted) + old(Pending())[..f.sent]
        && (state == RES ==> Pending() == old(Pending())[f.sent..])
    {
      ghost var pending, events := Pending(), sock.writeEvents;
      ghost var sent: nat := 0;
      var more := true;
      while more
        invariant Valid() && sock.readEvents == old(sock.readEvents)
        invariant FlushedSoFar(events, pending, sent, more, state, sock.writeEvents, Pending())
        invariant sock.accepted == old(sock.accepted) + pending[..sent]
        decreases if more then |sock.writeEvents| + 1 else 0
      {
        more, sent := FlushRound(events, pending, sent, old(sock.accepted));
      }
    }

    /** One round of the loop of `stateResponse`, with the account of what the flush has sent so far. */
    method FlushRound(ghost events: seq<WriteEvent>, ghost pending: bytes, ghost sent: nat, ghost base: bytes)
        returns (more: bool, ghost sent': nat)
      requires Valid() && state == RES
      requires FlushedSoFar(events, pending, sent, true, RES, sock.writeEvents, Pending())
      requires sock.accepted == base + pending[..sent]
      modifies this`state, this`writeBufferSent, this`writeBufferSize, sock
      ensures Valid() && sock.readEvents == old(sock.readEvents)
      ensures FlushedSoFar(events, pending, sent', more, state, sock.writeEvents, Pending())
      ensures sock.accepted == base + pending[..sent']
      ensures more ==> |sock.writeEvents| < old(|sock.writeEvents|)
    {
      ghost var rest, accepted, left := Pending(), sock.accepted, sock.writeEvents;
      ghost var k := FlushOnce(left, rest).sent;
      more := TryFlushBuffer();
      FlushProgress(events, pending, sent, left, rest, more, state, sock.writeEvents, Pending());
      SentStep(base, accepted, sock.accepted, pending, rest, sent, k);
      sent' := sent + k;
    }

    /** `io`: serves a connection waiting for a request or sending a response; an ended one is never served. */
    method Io()
      requires Valid() && Log() && state != END
      modifies this, readBuffer, writeBuffer, sock
      ensures Valid() && Log() && |old(requests)| <= |requests| && requests[..|old(requests)|] == old(requests)
      ensures old(state) == RES ==> requests == old(requests) && ReadContents() == old(ReadContents())
      ensures old(state) == RES ==> var f := Flush(old(sock.writeEvents), old(Pending()));
        state == f.state && sock.accepted == old(sock.accepted) + old(Pending())[..f.sent]
      ensures old(state) == REQ && state == REQ ==> (lastRead == ReadAgain
        && (NextStep(ReadContents()).NeedMore? || (requests == old(requests) && ReadContents() == old(ReadContents()))))
    {
      if state == REQ {
        StateRequest();
      } else {
        StateResponse();
      }
    }
  }
}
