/** The two HTTP response senders. Both put exactly the header and then the body on the wire, through a
    buffer that is filled, partly written, wrapped and refilled; writes accept arbitrary amounts. */
module HttpSenders {
  import opened ByteStrings

  const MAX_MESSAGE: nat := 8388608
  const MAX_HEADER: nat := 1048576

  datatype ResponseStatus = PrepareHeader | SendingHeader | SendingBody

  datatype WriteStatus = WriteHalf | WriteAll | WriteError

  /** What one write of the socket gives. */
  datatype WriteResult = Wrote(n: nat) | WouldBlock | WriteFailed

  /** HTTPResponse: the body is produced piece by piece by the handler's WriteResponseBody. */
  class HttpResponse {
    var status: ResponseStatus
    var wbuf: Bytes
    var bufLen: int
    var wbufPos: int
    var remainSendLen: nat
    var finished: bool
    /** The status code, the serialized header, and the body length given to SetContentLength. */
    const statusCode: int
    const header: Bytes
    const contentLength: nat
    /** The bytes written to the socket, those the handler has produced, and the last outcome of each. */
    var wire: Bytes
    var produced: Bytes
    var lastWrite: WriteResult
    var lastPiece: int
    var lastAsked: nat

    ghost function Buffered(): Bytes
      requires 0 <= wbufPos && 0 <= bufLen && wbufPos + bufLen <= |wbuf|
      reads this
    {
      wbuf[wbufPos..wbufPos + bufLen]
    }

    /** What every step keeps: positions in bounds; bytes written, then bytes buffered, are the header and
        what the handler produced; bytes written and bytes remaining are all bytes. */
    ghost predicate Valid()
      reads this
    {
      && |wbuf| == MAX_MESSAGE && 0 <= wbufPos < MAX_MESSAGE && 0 <= bufLen && wbufPos + bufLen <= MAX_MESSAGE
      && 1 <= |header| <= MAX_HEADER
      && (finished ==> wire == header + produced && (statusCode != 100 ==> |produced| == contentLength))
      && (statusCode == 100 ==> produced == [] && status != SendingBody)
      && (!finished ==>
          match status
          case PrepareHeader =>
            && wire == [] && produced == [] && wbufPos == 0 && bufLen == 0 && remainSendLen == contentLength
          case SendingHeader =>
            && bufLen > 0 && wire + Buffered() == header && produced == [] && remainSendLen == contentLength
          case SendingBody =>
            && wire + Buffered() == header + produced && bufLen <= remainSendLen
            && |wire| + remainSendLen == |header| + contentLength)
    }

    /** A response begun from a reset state. */
    constructor (head: Bytes, code: int, length: nat)
      requires 1 <= |head| <= MAX_HEADER
      ensures Valid() && !finished && header == head && contentLength == length && statusCode == code
    {
      status, wbuf, bufLen, wbufPos, finished := PrepareHeader, seq(MAX_MESSAGE, _ => 0), 0, 0, false;
      header, contentLength, remainSendLen, statusCode := head, length, length, code;
      wire, produced, lastWrite, lastPiece, lastAsked := [], [], Wrote(0), 0, 0;
    }

    /** write(fd, wbuf_ + wbuf_pos_, buf_len_). */
    method Write() returns (r: WriteResult)
      requires 0 <= wbufPos && 0 <= bufLen && wbufPos + bufLen <= |wbuf|
      modifies `wire, `lastWrite
      ensures lastWrite == r && (r.Wrote? ==> r.n <= bufLen)
      ensures wire == if r.Wrote? && r.n > 0 then old(wire) + wbuf[wbufPos..wbufPos + r.n] else old(wire)
    {
      var n: nat := *;
      var again: bool := *;
      if n <= bufLen {
        wire := if n > 0 then wire + wbuf[wbufPos..wbufPos + n] else wire;
        r := Wrote(n);
      } else {
        r := if again then WouldBlock else WriteFailed;
      }
      lastWrite := r;
    }

    /** WriteResponseBody: 1 to size bytes, or none, or -1. */
    method WriteResponseBody(size: nat) returns (n: int)
      requires 0 <= wbufPos && wbufPos + size <= |wbuf|
      modifies `wbuf, `produced, `lastPiece, `lastAsked
      ensures -1 <= n <= size && |wbuf| == |old(wbuf)| && lastPiece == n && lastAsked == size
      ensures n <= 0 ==> wbuf == old(wbuf) && produced == old(produced)
      ensures n > 0 ==> produced == old(produced) + wbuf[wbufPos..wbufPos + n]
    {
      var piece: Bytes := *;
      var fail: bool := *;
      lastPiece, lastAsked := -1, size;
      if fail || |piece| > size { return -1; }
      wbuf := wbuf[..wbufPos] + piece + wbuf[wbufPos + |piece|..];
      produced := produced + piece;
      assert wbuf[wbufPos..wbufPos + |piece|] == piece;
      n := |piece|;
      lastPiece := n;
    }

    /** The header part of Flush; again says that Flush returns with more to do. */
    method FlushHeader() returns (ok: bool, again: bool)
      requires Valid() && !finished && status == SendingHeader
      modifies `wire, `wbufPos, `bufLen, `status, `finished, `lastWrite
      ensures old(wire) <= wire <= header + produced && (ok ==> Valid())
      ensures ok && !again ==> status == SendingBody && !finished
      ensures finished ==> statusCode == 100 && ok && again
      ensures ok && again && !finished ==> lastWrite == WouldBlock || lastWrite == Wrote(|wire| - |old(wire)|)
      ensures !ok <==> lastWrite == WriteFailed || lastWrite == Wrote(0)
    {
      ghost var wire0 := wire;
      var r := Write();
      if r == WouldBlock {
        return true, true;
      } else if r == WriteFailed || r.n == 0 {
        return false, true;
      } else if r.n == bufLen {
        HeaderWritten();
        return true, finished;
      }
      AdvanceHeader(r.n, wire0);
      return true, true;
    }

    /** The last byte of the header is written. */
    method HeaderWritten()
      requires |wbuf| == MAX_MESSAGE && 1 <= |header| <= MAX_HEADER && !finished && status == SendingHeader
      requires wire == header && produced == [] && remainSendLen == contentLength
      modifies `wbufPos, `bufLen, `status, `finished
      ensures Valid() && (finished <==> statusCode == 100) && (!finished ==> status == SendingBody)
    {
      wbufPos, bufLen := 0, 0;
      assert header + [] == header && wire + wbuf[0..0] == wire;
      if statusCode == 100 {
        status, finished := PrepareHeader, true;
      } else {
        status := SendingBody;
      }
    }

    /** A part of the header is written. */
    method AdvanceHeader(n: nat, ghost wire0: Bytes)
      requires |wbuf| == MAX_MESSAGE && 0 <= wbufPos < MAX_MESSAGE && 0 < n < bufLen && wbufPos + bufLen <= MAX_MESSAGE
      requires 1 <= |header| <= MAX_HEADER && !finished && status == SendingHeader && produced == []
      requires wire == wire0 + wbuf[wbufPos..wbufPos + n] && wire0 + Buffered() == header
      requires remainSendLen == contentLength
      modifies `wbufPos, `bufLen
      ensures Valid()
    {
      Split(wire0, wbuf, wbufPos, n, bufLen);
      wbufPos, bufLen := wbufPos + n, bufLen - n;
    }

    /** The empty buffer is refilled by the handler, from the current position to its end at most. */
    method FillBody()
      requires Valid() && !finished && status == SendingBody && bufLen == 0 && remainSendLen > 0
      modifies `wbuf, `bufLen, `produced, `lastPiece, `lastAsked
      ensures lastAsked == if MAX_MESSAGE - wbufPos < remainSendLen then MAX_MESSAGE - wbufPos else remainSendLen
      ensures bufLen == lastPiece && (bufLen == -1 || Valid()) && wire <= header + produced
    {
      var remainBuf := MAX_MESSAGE - wbufPos;
      var neededSize := if remainBuf < remainSendLen then remainBuf else remainSendLen;
      ghost var before := produced;
      assert Buffered() == [] && wire == header + produced;
      bufLen := WriteResponseBody(neededSize);
      if bufLen > 0 {
        assert header + before + Buffered() == header + (before + Buffered());
      } else if bufLen == 0 {
        assert Buffered() == [];
      }
    }

    /** What was written leaves the buffer; at its end the position wraps. */
    method Advance(nwritten: int, ghost wire0: Bytes)
      requires |wbuf| == MAX_MESSAGE && 0 <= wbufPos < MAX_MESSAGE && 0 < nwritten <= bufLen <= remainSendLen
               && wbufPos + bufLen <= MAX_MESSAGE
      requires wire == wire0 + wbuf[wbufPos..wbufPos + nwritten] && wire0 + Buffered() == header + produced
      requires |wire0| + remainSendLen == |header| + contentLength
      requires !finished && status == SendingBody && 1 <= |header| <= MAX_HEADER && statusCode != 100
      modifies `wbufPos, `bufLen, `remainSendLen
      ensures Valid()
    {
      Split(wire0, wbuf, wbufPos, nwritten, bufLen);
      ghost var left := wbuf[wbufPos + nwritten..wbufPos + bufLen];
      wbufPos := wbufPos + nwritten;
      if wbufPos == MAX_MESSAGE {
        wbufPos := 0;
      }
      bufLen := bufLen - nwritten;
      remainSendLen := remainSendLen - nwritten;
      assert Buffered() == left;
    }

    /** The body part of Flush. */
    method FlushBody() returns (ok: bool)
      requires Valid() && !finished && status == SendingBody
      modifies `wbuf, `wire, `wbufPos, `bufLen, `status, `finished, `remainSendLen, `produced, `lastWrite, `lastPiece,
               `lastAsked
      ensures old(wire) <= wire <= header + produced && (ok ==> Valid())
      ensures finished <==> old(remainSendLen) == 0
      ensures finished ==> ok && wire == old(wire)
      ensures ok && !finished ==>
                lastWrite == WouldBlock || (lastWrite.Wrote? && |wire| == |old(wire)| + lastWrite.n && lastWrite.n > 0)
      ensures !ok ==> lastPiece == -1 || lastWrite == WriteFailed || lastWrite == Wrote(0)
    {
      if remainSendLen == 0 {
        assert Buffered() == [];
        finished, status := true, PrepareHeader;
        return true;
      }
      if bufLen == 0 {
        FillBody();
      }
      if bufLen == -1 {
        return false;
      }
      ok := WriteBody();
    }

    /** One write of buffered body bytes. */
    method WriteBody() returns (ok: bool)
      requires Valid() && !finished && status == SendingBody && remainSendLen > 0
      modifies `wire, `wbufPos, `bufLen, `remainSendLen, `lastWrite
      ensures old(wire) <= wire <= header + produced && (ok ==> Valid())
      ensures ok ==>
                lastWrite == WouldBlock || (lastWrite.Wrote? && |wire| == |old(wire)| + lastWrite.n && lastWrite.n > 0)
      ensures !ok ==> lastWrite == WriteFailed || lastWrite == Wrote(0)
    {
      ghost var wire0 := wire;
      var r := Write();
      if r == WouldBlock {
        return true;
      } else if r == WriteFailed || r.n == 0 {
        return false;
      }
      Advance(r.n, wire0);
      return true;
    }

    /** Flush: false closes the connection, and only a failed or empty write or a failed handler leads to it;
        the wire then still holds the first bytes of the header and of what was produced. Otherwise bytes are
        written, the socket is full, or the response is complete. */
    method Flush() returns (ok: bool)
      requires Valid() && !finished
      modifies this
      ensures old(wire) <= wire <= header + produced && (ok ==> Valid()) && (statusCode == 100 ==> produced == [])
      ensures ok && wire == old(wire) ==> finished || lastWrite == WouldBlock
      ensures !ok ==> lastPiece == -1 || lastWrite == WriteFailed || lastWrite == Wrote(0)
    {
      if status == PrepareHeader {
        wbuf := header + wbuf[|header|..];
        bufLen := |header|;
        assert wbuf[0..|header|] == header && wire + header == header;
        status := SendingHeader;
      }
      if status == SendingHeader {
        var again;
        ok, again := FlushHeader();
        if !ok || again {
          return;
        }
      }
      ok := FlushBody();
    }

    method SendReply() returns (s: WriteStatus)
      requires Valid() && !finished
      modifies this
      ensures s != WriteError ==> Valid() && (s == WriteAll <==> finished)
      ensures old(wire) <= wire <= header + produced && (statusCode == 100 ==> produced == [])
    {
      var ok := Flush();
      if !ok {
        return WriteError;
      }
      return if finished then WriteAll else WriteHalf;
    }
  }

  /** The written part moves from the buffer to the wire. */
  lemma Split(wire: Bytes, buf: Bytes, pos: int, n: int, len: int)
    requires 0 <= pos && 0 <= n <= len && pos + len <= |buf|
    ensures wire + buf[pos..pos + n] + buf[pos + n..pos + len] == wire + buf[pos..pos + len]
    ensures |buf[pos + n..pos + len]| == len - n
  {
    assert buf[pos..pos + n] + buf[pos + n..pos + len] == buf[pos..pos + len];
  }

  lemma Regroup(wire: Bytes, kept: Bytes, rest: Bytes, n: nat)
    requires n <= |rest|
    ensures wire + (kept + rest[..n]) + rest[n..] == wire + kept + rest
  {
    assert rest == rest[..n] + rest[n..];
  }

  /** Any run of SendReply calls, with any partial writes and any pieces from the handler: the wire is
      reported complete only when it holds the header and then all contentLength bytes produced. */
  method AnyResponseRun(head: Bytes, code: int, length: nat, steps: nat)
    returns (wire: Bytes, produced: Bytes, s: WriteStatus)
    requires 1 <= |head| <= MAX_HEADER
    ensures s == WriteAll ==> wire == head + produced && |produced| == if code == 100 then 0 else length
    ensures code == 100 ==> produced == []
    ensures wire <= head + produced
  {
    var r := new HttpResponse(head, code, length);
    s := WriteHalf;
    for i := 0 to steps
      invariant fresh(r) && r.Valid() && !r.finished && s == WriteHalf
      invariant r.header == head && r.contentLength == length && r.statusCode == code
    {
      s := r.SendReply();
      if s != WriteHalf {
        return r.wire, r.produced, s;
      }
    }
    assert r.wire <= head + r.produced;
    return r.wire, r.produced, s;
  }

  /** SimpleHTTPConn: the body is known in full and copied into the buffer as room appears. */
  class SimpleHttpConn {
    var wbuf: Bytes
    var wbufLen: nat
    var wbufPos: nat
    var responsePos: int
    /** The serialized header and the body of the response. */
    const header: Bytes
    const body: Bytes
    /** The bytes written for this response, and the last outcome. */
    var wire: Bytes
    var lastWrite: WriteResult

    ghost predicate InBounds()
      reads this
    {
      |wbuf| == MAX_MESSAGE && wbufPos <= wbufLen <= MAX_MESSAGE && -1 <= responsePos <= |body|
    }

    /** Bytes written, bytes buffered, bytes of the body not yet copied: header, then body. */
    ghost predicate Valid()
      reads this
    {
      && InBounds() && 1 <= |header| <= MAX_MESSAGE
      && (responsePos == -1 ==> wbufLen == 0 && wbufPos == 0)
      && (responsePos >= 0 ==> wire + wbuf[wbufPos..wbufLen] + body[responsePos..] == header + body)
    }

    constructor (h: Bytes, b: Bytes)
      requires 1 <= |h| <= MAX_MESSAGE
      ensures Valid() && responsePos == -1 && wire == [] && header == h && body == b
    {
      wbuf, wbufLen, wbufPos, responsePos := seq(MAX_MESSAGE, _ => 0), 0, 0, -1;
      header, body, wire, lastWrite := h, b, [], Wrote(0);
    }

    /** SerializeBodyToArray at the end of the buffered bytes. */
    method SerializeBody() returns (actual: nat)
      requires InBounds() && responsePos >= 0 && responsePos < |body| && wbufLen < MAX_MESSAGE
      modifies `wbuf, `responsePos
      ensures 1 <= actual && wbufLen + actual <= MAX_MESSAGE == |wbuf|
      ensures responsePos == old(responsePos) + actual <= |body|
              && (responsePos == |body| || wbufLen + actual == MAX_MESSAGE)
      ensures wbuf[wbufPos..wbufLen + actual] == old(wbuf[wbufPos..wbufLen]) + old(body[responsePos..])[..actual]
    {
      var size := MAX_MESSAGE - wbufLen;
      actual := size;
      if |body| - responsePos < size {
        actual := |body| - responsePos;
      }
      ghost var before := wbuf[wbufPos..wbufLen];
      var piece := body[responsePos..responsePos + actual];
      wbuf := wbuf[..wbufLen] + piece + wbuf[wbufLen + actual..];
      assert wbuf[wbufPos..wbufLen + actual] == before + piece;
      assert body[responsePos..][..actual] == piece;
      responsePos := responsePos + actual;
    }

    method FillResponseBuf()
      requires Valid() && (responsePos == -1 ==> wire == [])
      modifies `wbuf, `wbufLen, `responsePos
      ensures Valid() && responsePos >= 0 && (responsePos == |body| || wbufLen == MAX_MESSAGE)
      ensures old(wbufLen) <= wbufLen && (wbufLen == 0 ==> responsePos == |body| && old(responsePos) >= 0)
      ensures old(responsePos) <= responsePos
      ensures old(wbufLen) < wbufLen && old(responsePos) >= 0 ==> old(responsePos) < responsePos
    {
      if responsePos < 0 {
        wbuf := header + wbuf[|header|..];
        wbufLen := |header|;
        responsePos := 0;
        assert wbuf[0..wbufLen] == header && wire + header + body[0..] == header + body;
      }
      while responsePos < |body| && wbufLen < MAX_MESSAGE
        invariant Valid() && responsePos >= 0 && old(wbufLen) <= wbufLen && old(responsePos) <= responsePos
        invariant old(responsePos) == -1 ==> wbufLen > 0
        invariant old(wbufLen) < wbufLen && old(responsePos) >= 0 ==> old(responsePos) < responsePos
        decreases |body| - responsePos
      {
        ghost var rest, kept := body[responsePos..], wbuf[wbufPos..wbufLen];
        var actual := SerializeBody();
        wbufLen := wbufLen + actual;
        assert rest[actual..] == body[responsePos..];
        Regroup(wire, kept, rest, actual);
      }
    }

    /** One write of the buffered bytes. */
    method WriteSome() returns (r: WriteResult)
      requires Valid() && responsePos >= 0 && wbufPos < wbufLen
      modifies `wire, `wbufPos, `lastWrite
      ensures Valid() && lastWrite == r
      ensures wbufPos == old(wbufPos) + (if r.Wrote? then r.n else 0)
    {
      var n: nat := *;
      var again: bool := *;
      if 0 <= n <= wbufLen - wbufPos {
        Split(wire, wbuf, wbufPos, n, wbufLen - wbufPos);
        wire := wire + wbuf[wbufPos..wbufPos + n];
        wbufPos := wbufPos + n;
        r := Wrote(n);
      } else {
        r := if again then WouldBlock else WriteFailed;
      }
      lastWrite := r;
    }

    /** kWriteAll exactly when the whole response is on the wire. */
    method SendReply() returns (s: WriteStatus)
      requires Valid() && (if responsePos == -1 then wire == [] else wbufPos < wbufLen)
      modifies `wbuf, `wbufLen, `wbufPos, `responsePos, `wire, `lastWrite
      ensures Valid()
      ensures s == WriteHalf ==> lastWrite == WouldBlock
      ensures s == WriteError ==> lastWrite == WriteFailed || lastWrite == Wrote(0)
      ensures s == WriteAll ==> wire == header + body && responsePos == -1
      ensures s != WriteAll ==> responsePos >= 0 && wbufPos < wbufLen
    {
      FillResponseBuf();
      while wbufLen > 0
        invariant Valid() && responsePos >= 0 && (wbufPos == wbufLen ==> wbufLen == 0)
        invariant wbufLen == 0 ==> responsePos == |body|
        decreases |body| - responsePos, wbufLen - wbufPos
      {
        var r := WriteSome();
        if r == WouldBlock {
          return WriteHalf;
        } else if r == WriteFailed || r.n == 0 {
          return WriteError;
        }
        if wbufPos == wbufLen {
          assert wbuf[wbufPos..wbufLen] == [] == wbuf[0..0];
          wbufLen, wbufPos := 0, 0;
          FillResponseBuf();
        }
      }
      assert wire + wbuf[0..0] + body[|body|..] == wire;
      responsePos := -1;
      return WriteAll;
    }
  }

  /** Any run of SendReply calls over one response: reported complete exactly when the wire holds the
      header and then the body. */
  method AnySimpleRun(h: Bytes, b: Bytes, steps: nat) returns (wire: Bytes, s: WriteStatus)
    requires 1 <= |h| <= MAX_MESSAGE
    ensures s == WriteAll <==> wire == h + b
    ensures wire <= h + b
  {
    var c := new SimpleHttpConn(h, b);
    s := WriteHalf;
    for i := 0 to steps
      invariant fresh(c) && c.Valid() && c.header == h && c.body == b && s != WriteAll
      invariant if c.responsePos == -1 then c.wire == [] else c.wbufPos < c.wbufLen
    {
      s := c.SendReply();
      if s == WriteAll {
        return c.wire, s;
      }
    }
    if c.responsePos >= 0 {
      assert c.wire + c.wbuf[c.wbufPos..c.wbufLen] + c.body[c.responsePos..] == h + b;
    }
    return c.wire, s;
  }
}
