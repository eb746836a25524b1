/** The protobuf connection: framed receive through a buffer that grows and shrinks, framed send
    through a queue with partial writes. Reads and writes of the socket give arbitrary amounts. */
module PbConnection {
  import opened ByteStrings
  import opened PbFraming

  const IOBUF_LEN: nat := 67108864

  datatype ConnStatus = Header | Packet | Complete

  /** OutOfBounds is no status of the source: the read would start behind the end of the buffer, and ask for
      a negative remain_packet_len_ taken for a size_t. */
  datatype ReadStatus = ReadHalf | ReadAll | ReadError | ReadClose | FullError | DealError | OutOfBounds

  /** Spins is no status of the source: an empty item is never popped, so SendReply does not return. */
  datatype WriteStatus = WriteHalf | WriteAll | WriteError | Spins

  /** What one read, or one write, of the socket gives. */
  datatype ReadResult = Data(bytes: Bytes) | Again | Broken | Eof
  datatype WriteResult = Wrote(n: nat) | WouldBlock | WriteFailed

  /** A length whose buffer size wraps to less than a header, and is not refused for a null realloc. */
  predicate Wraps(headerLen: nat, nullAtZero: bool) {
    TWO_32 < HEADER_LEN + headerLen || (TWO_32 == HEADER_LEN + headerLen && !nullAtZero)
  }

  /** A length that is refused in order. */
  predicate TooLarge(headerLen: nat, nullAtZero: bool) {
    MAX_MESSAGE <= HEADER_LEN + headerLen && !Wraps(headerLen, nullAtZero)
  }

  class PbConn {
    /** Whether realloc to size 0 returns null, as it does in glibc. */
    const nullAtZero: bool

    // receiving
    var headerLen: nat
    var rbuf: Bytes
    var curPos: nat
    var rbufLen: nat
    var remain: int
    var connStatus: ConnStatus
    /** The bytes still to arrive, those read so far, and the bodies given to DealMessage. */
    var inbound: Bytes
    var received: Bytes
    var dealt: seq<Bytes>
    var lastRead: ReadResult
    var lastAsked: int
    /** Set once GetRequest has returned a status on which the event loop closes the connection. */
    var closed: bool

    // sending
    var queue: seq<Bytes>
    var itemPos: nat
    var isReply: int
    /** The bytes written to the socket, and the bodies given to WriteResp. */
    var wire: Bytes
    var responses: seq<Bytes>
    var lastWrite: WriteResult
    var lastOffer: Bytes

    constructor (stream: Bytes)
      ensures Receiving() && Sending() && !closed && rbufLen == IOBUF_LEN
      ensures inbound == stream && received == [] && dealt == [] && wire == [] && responses == []
      ensures isReply == 0 && queue == []
    {
      nullAtZero := *;
      headerLen, curPos, rbufLen, remain, connStatus := 0, 0, IOBUF_LEN, 0, Header;
      rbuf := seq(IOBUF_LEN, _ => 0);
      inbound, received, dealt, closed, lastRead, lastAsked := stream, [], [], false, Again, 0;
      queue, itemPos, isReply, wire, responses, lastWrite, lastOffer := [], 0, 0, [], [], WouldBlock, [];
      new;
      hide InPacket, Untag, Tag;
      assert rbuf[..0] == [] && Pending() == [];
    }

    // ----- receiving

    /** The bytes of the frame being received. */
    ghost function Pending(): Bytes
      requires curPos <= |rbuf|
      reads this
    {
      if connStatus == Complete then [] else rbuf[..curPos]
    }

    /** What every step of the receiver keeps: the bodies dealt, framed again, followed by the bytes
        of the frame in progress, are the bytes received. */
    ghost predicate Receiving()
      reads this
    {
      && |rbuf| == rbufLen && IOBUF_LEN <= rbufLen < MAX_MESSAGE && curPos <= rbufLen
      && Legal(dealt) && Frames(dealt) + Pending() == received
      && (connStatus == Header ==> curPos < HEADER_LEN)
      && (connStatus == Packet ==> InPacket() && (curPos == HEADER_LEN || 0 < remain))
      && (connStatus == Complete ==> closed)
    }

    ghost predicate InPacket()
      reads this
    {
      && HEADER_LEN <= curPos <= |rbuf| && headerLen == Untag(rbuf[..HEADER_LEN])
      && curPos + remain == HEADER_LEN + headerLen
    }

    /** read(fd, rbuf_ + at, n), which has to stay inside the buffer. */
    method Read(at: nat, n: int) returns (r: ReadResult)
      requires 0 <= n && at + n <= rbufLen == |rbuf|
      modifies `inbound, `received, `rbuf, `lastRead, `lastAsked
      ensures |rbuf| == |old(rbuf)| && lastRead == r && lastAsked == n
      ensures match r
              case Data(bytes) =>
                && 1 <= |bytes| <= n && old(inbound) == bytes + inbound && received == old(received) + bytes
                && rbuf[..at + |bytes|] == old(rbuf)[..at] + bytes
              case _ => inbound == old(inbound) && received == old(received) && rbuf == old(rbuf)
      ensures n == 0 ==> r != Again && !r.Data?
    {
      var choice: int := *;
      var k: nat := *;
      if n > 0 && 1 <= k <= n && k <= |inbound| {
        var bytes := inbound[..k];
        inbound, received := inbound[k..], received + bytes;
        rbuf := rbuf[..at] + bytes + rbuf[at + k..];
        r := Data(bytes);
      } else {
        r := if choice == 0 then Broken else if choice == 1 && n > 0 then Again else Eof;
      }
      lastRead, lastAsked := r, n;
    }

    method DealMessage() returns (rc: int)
      requires HEADER_LEN + headerLen <= |rbuf|
      modifies `dealt
      ensures dealt == old(dealt) + [rbuf[HEADER_LEN..HEADER_LEN + headerLen]]
    {
      dealt := dealt + [rbuf[HEADER_LEN..HEADER_LEN + headerLen]];
      rc := *;
    }

    /** Case kHeader. */
    method GetHeader() returns (go: bool, s: ReadStatus)
      requires Receiving() && !closed && connStatus == Header
      modifies `inbound, `received, `rbuf, `curPos, `headerLen, `remain, `connStatus, `closed, `lastRead, `lastAsked
      ensures Receiving() && old(received) + old(inbound) == received + inbound
      ensures lastAsked == 4 - old(curPos)
      ensures if go then !closed && connStatus == Packet else connStatus == Header
      ensures go ==> curPos == 4 && headerLen == ((rbuf[0] as int * 256 + rbuf[1]) * 256 + rbuf[2]) * 256 + rbuf[3]
      ensures !go && s == ReadHalf ==> !closed && (lastRead == Again || lastRead.Data?)
      ensures !go && s != ReadHalf ==>
                closed && ((s == ReadError && lastRead == Broken) || (s == ReadClose && lastRead == Eof))
    {
      hide Frames, Legal, Untag;
      ghost var part := rbuf[..curPos];
      var r := Read(curPos, HEADER_LEN - curPos);
      match r {
        case Again => return false, ReadHalf;
        case Broken => closed := true; return false, ReadError;
        case Eof => closed := true; return false, ReadClose;
        case Data(bytes) =>
          Arrived(Frames(dealt), part, bytes, inbound);
          curPos := curPos + |bytes|;
          if curPos == HEADER_LEN {
            headerLen := Untag(rbuf[..HEADER_LEN]);
            FirstFour(rbuf);
            remain := headerLen;
            connStatus := Packet;
            return true, ReadHalf;
          }
          return false, ReadHalf;
      }
    }

    /** Case kPacket: make room for the body. The new size is a uint32. */
    method Grow() returns (go: bool, s: ReadStatus)
      requires Receiving() && !closed && connStatus == Packet
      modifies `rbuf, `rbufLen, `closed
      ensures Receiving()
      ensures go ==> !closed && rbufLen == if HEADER_LEN + headerLen <= old(rbufLen) then old(rbufLen)
              else HEADER_LEN + headerLen
      ensures !go ==> closed && (s == FullError || s == OutOfBounds)
      ensures go ==> HEADER_LEN + headerLen < MAX_MESSAGE
      ensures s == FullError <==> TooLarge(headerLen, nullAtZero)
      ensures s == OutOfBounds <==> Wraps(headerLen, nullAtZero)
    {
      hide Frames, Legal, Untag;
      if headerLen > rbufLen - HEADER_LEN {
        var newSize := (headerLen + HEADER_LEN) % TWO_32;
        if newSize < MAX_MESSAGE {
          if newSize < HEADER_LEN {
            closed := true;
            return false, if newSize == 0 && nullAtZero then FullError else OutOfBounds;
          }
          assert newSize == headerLen + HEADER_LEN;
          ghost var before := rbuf;
          rbuf := rbuf + seq(newSize - rbufLen, _ => 0);
          rbufLen := newSize;
          assert rbuf[..curPos] == before[..curPos] && rbuf[..HEADER_LEN] == before[..HEADER_LEN];
        } else {
          closed := true;
          return false, FullError;
        }
      }
      return true, ReadHalf;
    }

    /** Case kPacket: read the body. */
    method GetBody() returns (go: bool, s: ReadStatus)
      requires Receiving() && !closed && connStatus == Packet && HEADER_LEN + headerLen <= rbufLen
      modifies `inbound, `received, `rbuf, `curPos, `remain, `connStatus, `closed, `lastRead, `lastAsked
      ensures old(received) + old(inbound) == received + inbound && lastAsked == old(remain)
      ensures go ==> !closed && connStatus == Complete && |rbuf| == rbufLen && Legal(dealt)
      ensures go ==> InPacket() && remain == 0 && headerLen > 0 && Frames(dealt) + rbuf[..curPos] == received
      ensures !go ==> Receiving()
      ensures !go && s == ReadHalf ==> !closed && (lastRead == Again || lastRead.Data?)
      ensures !go && s != ReadHalf ==>
                closed && ((s == ReadError && lastRead == Broken) || (s == ReadClose && lastRead == Eof))
    {
      hide Frames, Legal, Untag;
      ghost var part, tag := rbuf[..curPos], rbuf[..HEADER_LEN];
      assert part[..HEADER_LEN] == tag;
      var r := Read(curPos, remain);
      match r {
        case Again => return false, ReadHalf;
        case Broken => closed := true; return false, ReadError;
        case Eof => closed := true; return false, ReadClose;
        case Data(bytes) =>
          Arrived(Frames(dealt), part, bytes, inbound);
          assert rbuf[..HEADER_LEN] == rbuf[..curPos + |bytes|][..HEADER_LEN] == tag;
          curPos := curPos + |bytes|;
          remain := remain - |bytes|;
          if remain == 0 {
            connStatus := Complete;
            return true, ReadAll;
          }
          return false, ReadHalf;
      }
    }

    /** Case kComplete. */
    method Finish() returns (s: ReadStatus)
      requires connStatus == Complete && !closed && |rbuf| == rbufLen && IOBUF_LEN <= rbufLen < MAX_MESSAGE
      requires InPacket() && remain == 0 && headerLen > 0 && Legal(dealt) && Frames(dealt) + rbuf[..curPos] == received
      modifies `dealt, `curPos, `connStatus, `closed
      ensures Receiving() && received == Frames(dealt)
      ensures |dealt| == |old(dealt)| + 1 && old(dealt) <= dealt
      ensures dealt[|old(dealt)|] == rbuf[4..4 + headerLen]
      ensures headerLen == ((rbuf[0] as int * 256 + rbuf[1]) * 256 + rbuf[2]) * 256 + rbuf[3]
      ensures if closed then s == DealError else s == ReadAll
    {
      hide Frames, Tag, Untag;
      ghost var frame, body := rbuf[..curPos], rbuf[HEADER_LEN..HEADER_LEN + headerLen];
      var rc := DealMessage();
      assert frame[..HEADER_LEN] == rbuf[..HEADER_LEN] && frame[HEADER_LEN..] == body;
      FrameOf(frame, headerLen);
      FirstFour(rbuf);
      FramesSnoc(old(dealt), body);
      assert Frames(dealt) + [] == Frames(dealt);
      if rc != 0 {
        closed := true;
        return DealError;
      }
      connStatus := Header;
      curPos := 0;
      assert rbuf[..curPos] == [];
      return ReadAll;
    }

    /** The state switch. A body is dealt exactly when its last byte has been received; a header is refused as
        soon as it is complete, exactly when its length does not fit. */
    method GetRequest() returns (s: ReadStatus)
      requires Receiving() && !closed
      modifies `inbound, `received, `rbuf, `rbufLen, `curPos, `headerLen, `remain, `connStatus, `dealt, `closed,
               `lastRead, `lastAsked
      ensures Receiving() && old(received) + old(inbound) == received + inbound
      ensures closed <==> s != ReadHalf && s != ReadAll
      ensures |dealt| == |old(dealt)| + (if s == ReadAll || s == DealError then 1 else 0) && old(dealt) <= dealt
      ensures s == ReadAll || s == DealError ==> received == Frames(dealt)
      ensures s == ReadHalf ==> lastRead == Again || lastRead.Data?
      ensures (s == ReadError ==> lastRead == Broken) && (s == ReadClose ==> lastRead == Eof)
      ensures s == FullError || s == OutOfBounds ==> connStatus == Packet
      ensures connStatus == Packet ==>
                && (s == OutOfBounds <==> Wraps(headerLen, nullAtZero))
                && (s == FullError <==> TooLarge(headerLen, nullAtZero))
    {
      hide Frames, Legal, InPacket;
      var go;
      if connStatus == Header {
        go, s := GetHeader();
        if !go { return; }
      }
      go, s := Grow();
      if !go { return; }
      go, s := GetBody();
      if !go { return; }
      s := Finish();
    }

    /** Shrinking an idle or mostly empty buffer never drops received bytes. */
    method TryResizeBuffer(idletime: int)
      requires Receiving() && !closed
      modifies `rbuf, `rbufLen
      ensures Receiving() && rbufLen <= old(rbufLen) && rbuf[..curPos] == old(rbuf[..curPos])
      ensures rbufLen < old(rbufLen) ==> rbufLen % IOBUF_LEN == 0 && rbufLen - IOBUF_LEN <= curPos < rbufLen
      ensures rbufLen < old(rbufLen) <==>
                && (idletime > 2 || old(rbufLen) >= 3 * (curPos + 1))
                && exists size :: size % IOBUF_LEN == 0 && size - IOBUF_LEN <= curPos < size < old(rbufLen)
    {
      hide Frames, Legal, Untag;
      Quotients(rbufLen, curPos);
      if rbufLen > IOBUF_LEN && (rbufLen / (curPos + 1) > 2 || idletime > 2) {
        var newSize := ((curPos + IOBUF_LEN) / IOBUF_LEN) * IOBUF_LEN;
        if newSize < rbufLen {
          Shrink(newSize);
        }
      }
    }

    /** realloc to a smaller size that keeps the bytes of the frame in progress. */
    method Shrink(newSize: nat)
      requires Receiving() && IOBUF_LEN <= newSize < rbufLen && curPos < newSize
      modifies `rbuf, `rbufLen
      ensures Receiving() && rbufLen == newSize && rbuf[..curPos] == old(rbuf[..curPos])
    {
      hide Frames, Legal, Untag;
      ghost var before := rbuf;
      rbuf := rbuf[..newSize];
      rbufLen := newSize;
      assert rbuf[..curPos] == before[..curPos];
      assert connStatus == Packet ==> rbuf[..HEADER_LEN] == before[..HEADER_LEN];
    }

    // ----- sending

    /** The bytes not yet written. */
    ghost function Queued(): Bytes
      reads this
    {
      Unsent(queue, itemPos)
    }

    /** What every step of the sender keeps: the bytes written followed by those queued are the
        frames of all responses; an empty item comes from an empty response and never leaves. */
    ghost predicate Sending()
      reads this
    {
      && ([] in queue <==> [] in responses)
      && (if queue == [] then itemPos == 0 else itemPos < |queue[0]| || (itemPos == 0 && queue[0] == []))
      && wire + Queued() == Frames(responses)
    }

    /** write(fd, data). */
    method Write(data: Bytes) returns (r: WriteResult)
      modifies `wire, `lastWrite, `lastOffer
      ensures lastWrite == r && lastOffer == data
      ensures r.Wrote? ==> r.n <= |data|
      ensures wire == if r.Wrote? && r.n > 0 then old(wire) + data[..r.n] else old(wire)
    {
      var n: nat := *;
      var again: bool := *;
      if n <= |data| {
        wire := if n > 0 then wire + data[..n] else wire;
        r := Wrote(n);
      } else {
        r := if again then WouldBlock else WriteFailed;
      }
      lastWrite, lastOffer := r, data;
    }

    /** One write of the front item, which is popped once it is written out. */
    method WriteItem() returns (r: WriteResult)
      requires Sending() && queue != [] && queue[0] != []
      modifies `queue, `itemPos, `wire, `lastWrite, `lastOffer
      ensures Sending() && old(wire) <= wire && lastWrite == r && lastOffer == old(queue[0][itemPos..])
      ensures if r.Wrote? && r.n > 0
              then queue == old(queue)[1..] || (queue == old(queue) && itemPos == old(itemPos) + r.n)
              else queue == old(queue) && itemPos == old(itemPos)
      ensures [] in queue <==> [] in old(queue)
    {
      hide Frames, Unsent;
      var item := queue[0];
      ghost var queue0, pos0, wire0 := queue, itemPos, wire;
      r := Write(item[itemPos..]);
      if !r.Wrote? || r.n == 0 { return; }
      itemPos := itemPos + r.n;
      UnsentAdvance(wire0, queue0, pos0, r.n);
      if itemPos == |item| {
        UnsentPop(queue0);
        PopKeepsEmpty(queue0);
        queue, itemPos := queue[1..], 0;
      }
    }

    /** It returns early only on a write that accepted nothing, and reports an error exactly when that write
        failed for another reason than a full socket. If every write accepts something, it writes all of the
        queue exactly when there is no empty item in it, and otherwise spins at the first one. */
    method SendReply() returns (s: WriteStatus)
      requires Sending()
      modifies `queue, `itemPos, `wire, `lastWrite, `lastOffer
      ensures Sending() && old(wire) <= wire
      ensures s == WriteAll <==> queue == []
      ensures s == Spins <==> queue != [] && queue[0] == []
      ensures s == WriteAll || s == Spins ==> (s == Spins <==> [] in old(queue))
      ensures [] in old(queue) <==> [] in queue
      ensures s == WriteHalf ==> lastWrite == WouldBlock || lastWrite == Wrote(0)
      ensures s == WriteError ==> lastWrite == WriteFailed
      ensures IsSuffix(queue, old(queue))
    {
      hide Frames, Unsent, IsSuffix;
      ghost var wire0, queue0 := wire, queue;
      DropSuffix(queue0, queue0);
      while queue != []
        invariant Sending() && wire0 <= wire
        invariant IsSuffix(queue, queue0)
        invariant [] in queue0 <==> [] in queue
        decreases |queue|, if queue == [] then 0 else |queue[0]| - itemPos
      {
        if queue[0] == [] {
          return Spins;
        }
        ghost var before := queue;
        var r := WriteItem();
        DropSuffix(queue0, before);
        if !r.Wrote? || r.n == 0 {
          return if r == WriteFailed then WriteError else WriteHalf;
        }
      }
      return WriteAll;
    }

    method WriteResp(resp: Bytes)
      requires Sending()
      modifies `queue, `isReply, `responses
      ensures Sending() && responses == old(responses) + [resp]
      ensures queue == old(queue) + [Tag(|resp| % TWO_32), resp]
      ensures var t := queue[|old(queue)|];
              |t| == 4 && ((t[0] as int * 256 + t[1]) * 256 + t[2]) * 256 + t[3] == |resp| % 0x1_0000_0000
      ensures isReply == (if old(isReply) < -1 then 0 else old(isReply) + 1)
    {
      hide Unsent, Frames, Tag;
      var tag := Tag(|resp| % TWO_32);
      ghost var queue0 := queue;
      queue := queue + [tag] + [resp];
      assert queue == queue0 + [tag, resp];
      UnsentPush(queue0, itemPos, tag, resp);
      FramesSnoc(responses, resp);
      assert wire + (Unsent(queue0, itemPos) + (tag + resp)) == wire + Unsent(queue0, itemPos) + (tag + resp);
      responses := responses + [resp];
      SetIsReply(true);
    }

    method SetIsReply(reply: bool)
      modifies `isReply
      ensures isReply == (var n := old(isReply) + (if reply then 1 else -1); if n < 0 then 0 else n)
    {
      isReply := isReply + (if reply then 1 else -1);
      if isReply < 0 { isReply := 0; }
    }
  }

  /** Any run of WriteResp and SendReply over any responses, with any partial writes: the wire holds the first
      bytes of their frames, and a call that ends with the queue written out, or spinning, does the one exactly
      when no response was empty. */
  method AnySendRun(script: seq<Bytes>, steps: nat) returns (sent: seq<Bytes>, wire: Bytes, s: WriteStatus)
    ensures sent <= script && exists framed :: Framed(framed, sent) && wire <= framed
    ensures s == WriteAll ==> Framed(wire, sent)
    ensures s == WriteAll || s == Spins ==> (s == WriteAll <==> [] !in sent)
  {
    hide Frames, Unsent, Tag;
    var c := new PbConn([]);
    s := WriteHalf;
    for i := 0 to steps
      invariant fresh(c) && c.Sending() && c.responses <= script && s != Spins
      invariant s == WriteAll ==> c.queue == []
    {
      var write: bool := *;
      if write {
        s := c.SendReply();
        if s == Spins { break; }
      } else if |c.responses| < |script| {
        c.WriteResp(script[|c.responses|]);
        s := WriteHalf;
      }
    }
    NothingQueued(c);
    FramedExactly(Frames(c.responses), c.responses);
    assert Framed(Frames(c.responses), c.responses) && c.wire <= Frames(c.responses);
    return c.responses, c.wire, s;
  }

  lemma NothingQueued(c: PbConn)
    requires c.Sending()
    ensures c.wire <= Frames(c.responses) && (c.queue == [] ==> c.wire == Frames(c.responses))
  {
    if c.queue == [] {
      assert c.wire + [] == c.wire;
    }
  }

  /** An empty response: its tag may be written, the rest of the call spins. */
  method EmptyResponseSpins() returns (s: WriteStatus, wire: Bytes)
    ensures s != WriteAll && wire <= Tag(0)
    ensures s == Spins <==> wire == Tag(0)
  {
    hide Frames, Unsent, Tag;
    var c := new PbConn([]);
    var none: Bytes := [];
    c.WriteResp(none);
    s := c.SendReply();
    wire := c.wire;
    FrameOfNothing();
    assert c.responses == [none];
    assert c.queue == [Tag(0), none] || c.queue == [none];
    OnlyTheTag(c);
  }

  lemma FrameOfNothing()
    ensures Frames([[]]) == Tag(0) && |Tag(0)| == HEADER_LEN
  {
    hide Tag;
    var bodies: seq<Bytes> := [[]];
    assert bodies[1..] == [] && Frames([]) == [] && |bodies[0]| % TWO_32 == 0;
    assert Tag(0) + [] + [] == Tag(0);
  }

  lemma OnlyTheTag(c: PbConn)
    requires c.Sending() && c.responses == [[]] && c.queue != []
    requires c.queue == [Tag(0), []] || c.queue == [[]]
    ensures c.wire <= Tag(0) && (c.queue[0] == [] <==> c.wire == Tag(0))
  {
    hide Tag, Unsent, Frames;
    FrameOfNothing();
    UnsentTag(Tag(0), c.itemPos);
    if |c.queue| == 1 {
      assert c.wire + [] == c.wire;
    } else {
      assert |c.wire + c.Queued()| == |c.wire| + |c.Queued()|;
    }
  }

  lemma UnsentTag(tag: Bytes, pos: nat)
    ensures Unsent([[]], 0) == []
    ensures pos <= |tag| ==> Unsent([tag, []], pos) == tag[pos..]
  {
    var one: seq<Bytes>, two: seq<Bytes> := [[]], [tag, []];
    assert one[1..] == [] && two[1..] == one;
    assert Concat(one) == one[0] + Concat(one[1..]) == [];
  }

  // ----- bookkeeping

  /** The divisions of TryResizeBuffer: when a buffer counts as mostly empty, and the next multiple of
      IOBUF_LEN above a position. */
  lemma Quotients(len: nat, pos: nat)
    ensures len >= 3 * (pos + 1) <==> len / (pos + 1) > 2
    ensures var size := ((pos + IOBUF_LEN) / IOBUF_LEN) * IOBUF_LEN;
            && size % IOBUF_LEN == 0 && IOBUF_LEN <= size && size - IOBUF_LEN <= pos < size
            && forall other :: other % IOBUF_LEN == 0 && other - IOBUF_LEN <= pos < other ==> other == size
  {
    AtLeastThree(len, pos + 1);
  }

  lemma AtLeastThree(n: nat, d: nat)
    requires d > 0
    ensures n >= 3 * d <==> n / d > 2
  {
    var q, r := n / d, n % d;
    assert n == q * d + r && 0 <= r < d;
    if q <= 2 {
      assert q * d <= 2 * d;
    } else {
      assert q * d >= 3 * d;
    }
  }

  /** A header and as many bytes as it says are the frame of those bytes. */
  lemma FrameOf(frame: Bytes, n: nat)
    requires |frame| == HEADER_LEN + n && Untag(frame[..HEADER_LEN]) == n
    ensures Frame(frame[HEADER_LEN..]) == frame
  {
    hide Tag, Untag;
    UntagRoundTrip(frame[..HEADER_LEN]);
    assert n % TWO_32 == n == |frame[HEADER_LEN..]|;
    assert frame == frame[..HEADER_LEN] + frame[HEADER_LEN..];
  }

  lemma Arrived(framed: Bytes, part: Bytes, bytes: Bytes, later: Bytes)
    ensures framed + (part + bytes) == framed + part + bytes
    ensures framed + part + bytes + later == framed + part + (bytes + later)
  {
  }

  /** The bytes of a queue whose front item is written up to pos. */
  function Unsent(queue: seq<Bytes>, pos: nat): Bytes {
    if queue == [] then []
    else (if pos <= |queue[0]| then queue[0][pos..] else []) + Concat(queue[1..])
  }

  lemma UnsentAdvance(wire: Bytes, queue: seq<Bytes>, pos: nat, n: nat)
    requires queue != [] && pos + n <= |queue[0]|
    ensures wire + Unsent(queue, pos) == wire + queue[0][pos..][..n] + Unsent(queue, pos + n)
  {
    hide Concat;
    var item, rest := queue[0], Concat(queue[1..]);
    var a, b := item[pos..][..n], item[pos + n..];
    assert item[pos..] == a + b;
    Regroup(wire, a, b, rest);
  }

  lemma Regroup(w: Bytes, a: Bytes, b: Bytes, c: Bytes)
    ensures w + ((a + b) + c) == w + a + (b + c)
  {
  }

  predicate IsSuffix(rest: seq<Bytes>, whole: seq<Bytes>) {
    |rest| <= |whole| && rest == whole[|whole| - |rest|..]
  }

  lemma DropSuffix(whole: seq<Bytes>, rest: seq<Bytes>)
    ensures IsSuffix(whole, whole)
    ensures rest != [] && IsSuffix(rest, whole) ==> IsSuffix(rest[1..], whole)
  {
  }

  lemma PopKeepsEmpty(queue: seq<Bytes>)
    requires queue != [] && queue[0] != []
    ensures [] in queue <==> [] in queue[1..]
  {
    assert queue == [queue[0]] + queue[1..];
  }

  lemma UnsentPop(queue: seq<Bytes>)
    requires queue != []
    ensures Unsent(queue, |queue[0]|) == Unsent(queue[1..], 0)
  {
    var rest := queue[1..];
    assert queue[0][|queue[0]|..] == [];
    assert rest != [] ==> rest[0][0..] == rest[0];
  }

  lemma UnsentPush(queue: seq<Bytes>, pos: nat, tag: Bytes, body: Bytes)
    requires if queue == [] then pos == 0 else pos <= |queue[0]|
    ensures Unsent(queue + [tag, body], pos) == Unsent(queue, pos) + (tag + body)
  {
    var both := [tag, body];
    assert both[1..] == [body] && Concat([body]) == body + Concat([]);
    assert Concat(both) == tag + body;
    if queue == [] {
      assert queue + both == both && tag[0..] == tag;
    } else {
      assert (queue + both)[1..] == queue[1..] + both;
      ConcatAppend(queue[1..], both);
    }
  }

  // ----- whole runs

  /** Any run of GetRequest and TryResizeBuffer calls, with any fragmentation of the reads, over the
      frames of any legal bodies: nothing is refused, the bodies dealt are a prefix of the bodies
      sent, and once all bytes have been read they are exactly the bodies sent. */
  method AnyReceiveRun(stream: Bytes, bodies: seq<Bytes>, steps: nat)
    returns (dealt: seq<Bytes>, received: Bytes, refused: bool)
    requires Legal(bodies) && Framed(stream, bodies)
    ensures received <= stream && dealt <= bodies && !refused
    ensures received == stream ==> dealt == bodies
  {
    LegalIsSmall(bodies);
    dealt, received, refused := AnySmallRun(stream, bodies, steps);
  }

  lemma LegalIsSmall(bodies: seq<Bytes>)
    requires Legal(bodies)
    ensures Small(bodies) && BeforeEmpty(bodies) == bodies
  {
  }

  /** The same over bodies that may be empty: the bodies dealt lie before the first empty one, and are all of those once
      their bytes have been read. So all bodies are dealt once all bytes are read if and only if none is empty. */
  method AnySmallRun(stream: Bytes, bodies: seq<Bytes>, steps: nat)
    returns (dealt: seq<Bytes>, received: Bytes, refused: bool)
    requires Small(bodies) && Framed(stream, bodies)
    ensures received <= stream && dealt <= BeforeEmpty(bodies) && !refused
    ensures (exists first :: Framed(first, BeforeEmpty(bodies)) && |first| <= |received|) ==>
              dealt == BeforeEmpty(bodies)
    ensures received == stream ==> (dealt == bodies <==> [] !in bodies)
  {
    hide Legal, Small, Frames, Framed;
    FramedExactly(stream, bodies);
    var c := new PbConn(stream);
    refused := false;
    for i := 0 to steps
      invariant c.Receiving() && !refused && c.received + c.inbound == Frames(bodies)
    {
      if c.closed { break; }
      var resize: bool := *;
      if resize {
        var idle: int := *;
        c.TryResizeBuffer(idle);
      } else {
        var s := c.GetRequest();
        if s == FullError || s == OutOfBounds {
          refused := true;
          LegalHeader(c, bodies);
        }
      }
    }
    SmallDecoded(c, bodies);
    forall first | Framed(first, BeforeEmpty(bodies)) ensures first == Frames(BeforeEmpty(bodies)) {
      FramedExactly(first, BeforeEmpty(bodies));
    }
    return c.dealt, c.received, refused;
  }

  lemma SmallDecoded(c: PbConn, bodies: seq<Bytes>)
    requires c.Receiving() && Small(bodies) && c.received <= Frames(bodies)
    ensures c.dealt <= BeforeEmpty(bodies)
    ensures |Frames(BeforeEmpty(bodies))| <= |c.received| ==> c.dealt == BeforeEmpty(bodies)
    ensures c.received == Frames(bodies) ==> c.dealt == BeforeEmpty(bodies)
  {
    hide Frames, Untag;
    assert c.connStatus == Packet ==> c.Pending()[..HEADER_LEN] == c.rbuf[..HEADER_LEN];
    DecodedBeforeEmpty(c.dealt, c.Pending(), bodies);
    FirstFrames(bodies);
  }

  lemma FirstFrames(bodies: seq<Bytes>)
    requires Small(bodies)
    ensures |Frames(BeforeEmpty(bodies))| <= |Frames(bodies)|
  {
    hide Frames;
    var first := BeforeEmpty(bodies);
    if |first| < |bodies| {
      assert bodies[..|first|] == first;
      FramesLonger(bodies, |first|);
    }
  }

  /** Any run over a tag and whatever follows it: once the tag is in, its length alone decides whether it is
      refused, and how. */
  method AnyFirstTag(tag: Bytes, x: Bytes, steps: nat) returns (received: Bytes, s: ReadStatus, nullAtZero: bool)
    requires |tag| == 4
    ensures 4 <= |received| ==>
              var length := ((tag[0] as int * 256 + tag[1]) * 256 + tag[2]) * 256 + tag[3];
              && (s == OutOfBounds <==> Wraps(length, nullAtZero))
              && (s == FullError <==> TooLarge(length, nullAtZero))
  {
    hide Legal, Frames, Untag;
    FirstFour(tag);
    assert tag[..4] == tag;
    var c := new PbConn(tag + x);
    s := ReadHalf;
    for i := 0 to steps
      invariant c.Receiving() && !c.closed && c.received + c.inbound == tag + x && c.dealt == []
      invariant |c.received| < HEADER_LEN
    {
      s := c.GetRequest();
      FramesLong(c.dealt);
      if c.closed || HEADER_LEN <= |c.received| {
        if HEADER_LEN <= |c.received| {
          assert c.received[..HEADER_LEN] == (tag + x)[..HEADER_LEN] == tag;
          TagReceived(c);
        }
        return c.received, s, c.nullAtZero;
      }
      assert c.connStatus == Header;
    }
    received, nullAtZero := c.received, c.nullAtZero;
  }

  lemma FramesLong(bodies: seq<Bytes>)
    ensures bodies != [] ==> HEADER_LEN <= |Frames(bodies)|
  {
  }

  /** The first four bytes received are the header in progress, or that of the first body dealt. */
  lemma TagReceived(c: PbConn)
    requires c.Receiving() && HEADER_LEN <= |c.received| && |c.dealt| <= 1
    requires c.dealt != [] ==> c.received == Frames(c.dealt)
    ensures if c.dealt == [] then c.connStatus == Packet && Untag(c.received[..HEADER_LEN]) == c.headerLen
            else HEADER_LEN + Untag(c.received[..HEADER_LEN]) < MAX_MESSAGE
  {
    if c.dealt == [] {
      assert c.received == c.Pending();
      assert c.Pending()[..HEADER_LEN] == c.rbuf[..HEADER_LEN];
    } else {
      FrameParts(c.dealt[0], Frames(c.dealt[1..]));
    }
  }

  /** The tag FF FF FF FD: the new buffer size wraps to 1, and the body would be read outside the buffer. */
  method WrappedTag(x: Bytes, steps: nat) returns (received: Bytes, s: ReadStatus)
    ensures HEADER_LEN <= |received| ==> s == OutOfBounds
  {
    var tag: Bytes := [0xFF, 0xFF, 0xFF, 0xFD];
    assert Untag(tag) == TWO_32 - 3;
    var nullAtZero;
    received, s, nullAtZero := AnyFirstTag(tag, x, steps);
  }

  /** Over the frames of small bodies, no received header is too large. */
  lemma LegalHeader(c: PbConn, bodies: seq<Bytes>)
    requires c.Receiving() && c.connStatus == Packet && Small(bodies) && c.received <= Frames(bodies)
    ensures HEADER_LEN + c.headerLen < MAX_MESSAGE
  {
    PendingHeader(c.dealt, c.Pending(), bodies);
    assert c.Pending()[..HEADER_LEN] == c.rbuf[..HEADER_LEN];
  }

  /** The bodies dealt so far begin the bodies sent, and are all of them once all bytes arrived. */
  lemma ReceiverDecodes(c: PbConn, bodies: seq<Bytes>)
    requires c.Receiving() && Legal(bodies) && c.received <= Frames(bodies)
    ensures c.dealt <= bodies
    ensures c.received == Frames(bodies) ==> c.dealt == bodies
  {
    assert c.connStatus == Packet ==> c.Pending()[..HEADER_LEN] == c.rbuf[..HEADER_LEN];
    UniqueDecoding(c.dealt, c.Pending(), bodies);
  }

  /** End to end: whatever part of the sender's bytes the receiver has read, it has dealt the
      sender's first responses, and all of them once everything is sent and read. */
  lemma EndToEnd(sender: PbConn, receiver: PbConn)
    requires sender.Sending() && Legal(sender.responses)
    requires receiver.Receiving() && receiver.received <= sender.wire
    ensures receiver.dealt <= sender.responses
    ensures sender.queue == [] && receiver.received == sender.wire ==> receiver.dealt == sender.responses
  {
    assert sender.wire <= Frames(sender.responses);
    assert sender.queue == [] ==> sender.wire + [] == sender.wire;
    ReceiverDecodes(receiver, sender.responses);
  }

  /** Any run of two connections joined by a wire: WriteResp and SendReply on one side, GetRequest and
      TryResizeBuffer on the other, in any order and with any partial writes and reads. The receiver
      deals the sender's responses in order, and all of them once nothing is queued or in flight. */
  method AnyExchange(script: seq<Bytes>, steps: nat)
    returns (sent: seq<Bytes>, dealt: seq<Bytes>, quiet: bool)
    requires Legal(script)
    ensures sent <= script && dealt <= sent
    ensures quiet ==> dealt == sent
  {
    hide Frames, Unsent, Legal;
    var sender := new PbConn([]);
    var receiver := new PbConn([]);
    for i := 0 to steps
      invariant sender != receiver && fresh(sender) && fresh(receiver)
      invariant Joined(sender, receiver) && sender.responses <= script
    {
      var step: int := *;
      if step == 0 && |sender.responses| < |script| {
        QueueNext(sender, receiver, script);
      } else if step == 1 {
        Transfer(sender, receiver);
      } else if step == 2 && !receiver.closed {
        Receive(sender, receiver);
      }
    }
    LegalPrefix(sender.responses, script);
    EndToEnd(sender, receiver);
    sent, dealt := sender.responses, receiver.dealt;
    quiet := sender.queue == [] && receiver.inbound == [];
  }

  /** The receiver has read, or will read, exactly what the sender has written. */
  ghost predicate Joined(sender: PbConn, receiver: PbConn)
    reads sender, receiver
  {
    sender.Sending() && receiver.Receiving() && receiver.received + receiver.inbound == sender.wire
  }

  /** WriteResp of the next body. */
  method QueueNext(sender: PbConn, receiver: PbConn, script: seq<Bytes>)
    requires sender != receiver && Joined(sender, receiver)
    requires Legal(script) && sender.responses <= script && |sender.responses| < |script|
    modifies sender`queue, sender`isReply, sender`responses
    ensures Joined(sender, receiver) && sender.responses <= script
  {
    hide Frames, Unsent;
    sender.WriteResp(script[|sender.responses|]);
  }

  /** GetRequest or TryResizeBuffer. */
  method Receive(sender: PbConn, receiver: PbConn)
    requires sender != receiver && Joined(sender, receiver) && !receiver.closed
    modifies receiver
    ensures Joined(sender, receiver)
  {
    hide Frames, Unsent, Legal;
    var resize: bool := *;
    if resize {
      var idle: int := *;
      receiver.TryResizeBuffer(idle);
    } else {
      var s := receiver.GetRequest();
    }
  }

  /** SendReply, and the bytes it wrote on their way. */
  method Transfer(sender: PbConn, receiver: PbConn)
    requires sender != receiver && Joined(sender, receiver)
    modifies sender`queue, sender`itemPos, sender`wire, sender`lastWrite, sender`lastOffer,
             receiver`inbound
    ensures Joined(sender, receiver)
  {
    hide Frames, Unsent, Legal;
    ghost var before := sender.wire;
    var was := |sender.wire|;
    var s := sender.SendReply();
    assert sender.wire[..was] == before;
    receiver.inbound := receiver.inbound + sender.wire[was..];
  }

  lemma LegalPrefix(a: seq<Bytes>, b: seq<Bytes>)
    requires a <= b && Legal(b)
    ensures Legal(a)
  {
  }
}
