/** Receiving an HTTP request: the header, then a body of Content-Length bytes (section 3.3.2 of RFC 7230)
    streamed to the handler through a buffer that is delivered whenever it fills. */
module HttpRequestObject {
  import opened ByteStrings
  import opened HttpHeader

  const MAX_MESSAGE: nat := 8388608
  const MAX_HEADER: nat := 1048576

  /** "content-length", "expect" */
  const CONTENT_LENGTH: Bytes := [99, 111, 110, 116, 101, 110, 116, 45, 108, 101, 110, 103, 116, 104]
  const EXPECT: Bytes := [101, 120, 112, 101, 99, 116]
  /** "100-continue" */
  const HUNDRED_CONTINUE: Bytes := [49, 48, 48, 45, 99, 111, 110, 116, 105, 110, 117, 101]

  datatype RequestStatus = NewRequest | HeaderReceiving | BodyReceiving | BodyReceived

  /** What one read of the socket gives. */
  datatype ReadResult = Data(bytes: Bytes) | Again | Closed

  /** What the socket has for the next read: up to n of the bytes still to come, nothing yet, or the end. */
  datatype Offer = UpTo(n: nat) | Nothing | End

  datatype ReadStatus = ReadHalf | ReadAll | ReadError | ReadClose | ReadOk

  function LeadingDigits(s: Bytes): (d: Bytes)
    ensures AllDigits(d)
  {
    if s != [] && IsDigit(s[0]) then [s[0]] + LeadingDigits(s[1..]) else []
  }

  /** std::stoul on digits; None where it throws. */
  function Stoul(s: Bytes): Option<nat> {
    if LeadingDigits(s) == [] then None else Some(DigitsValue(LeadingDigits(s)))
  }

  lemma {:induction false} LeadingDigitsAll(s: Bytes)
    requires AllDigits(s)
    ensures LeadingDigits(s) == s
  {
    if s != [] {
      assert AllDigits(s[1..]);
      LeadingDigitsAll(s[1..]);
    }
  }

  lemma StoulDecimal(n: nat)
    ensures Stoul(Decimal(n)) == Some(n)
  {
    DecimalDigits(n);
    LeadingDigitsAll(Decimal(n));
  }

  function ContentLength(headers: map<Bytes, Bytes>): Option<nat> {
    if CONTENT_LENGTH in headers then Stoul(headers[CONTENT_LENGTH]) else Some(0)
  }

  predicate ExpectsContinue(headers: map<Bytes, Bytes>) {
    EXPECT in headers && (headers[EXPECT] == HUNDRED_CONTINUE || headers[EXPECT] == HUNDRED_CONTINUE[4 := 67])
  }

  /** h is a request header declaring n body bytes: found exactly at its end, whatever follows. */
  ghost predicate IsRequestHeader(h: Bytes, n: nat) {
    && (forall x: Bytes :: Header(h + x).Found? && Header(h + x).len == |h|
                           && ContentLength(Header(h + x).head.headers) == Some(n))
    && (forall k :: 0 <= k < |h| ==> Header(h[..k]) == NotFound)
  }

  /** The last field whose key is "content-length", in letters of any case, has the value n in decimal, or there is
      none and n is zero. */
  ghost predicate DeclaresLength(fields: seq<Field>, n: nat) {
    || (exists i :: LastNamed(fields, CONTENT_LENGTH, i) && fields[i].value == Decimal(n))
    || (NoneNamed(fields, CONTENT_LENGTH) && n == 0)
  }

  lemma DeclaredLength(fields: seq<Field>, n: nat)
    requires DeclaresLength(fields, n)
    ensures ContentLength(FieldMap(map[], fields)) == Some(n)
  {
    hide LastNamed, NoneNamed, FieldMap, Decimal;
    StoulDecimal(n);
    FieldMapLookup(map[], fields, CONTENT_LENGTH);
  }

  /** 100-continue is expected exactly when the last field whose key is "expect", in letters of any case, has the value
      "100-continue" or "100-Continue". */
  lemma ExpectsExactly(fields: seq<Field>)
    ensures ExpectsContinue(FieldMap(map[], fields)) <==>
            exists i :: LastNamed(fields, EXPECT, i) &&
              (fields[i].value == [49, 48, 48, 45, 99, 111, 110, 116, 105, 110, 117, 101] ||
               fields[i].value == [49, 48, 48, 45, 67, 111, 110, 116, 105, 110, 117, 101])
  {
    hide LastNamed, NoneNamed, FieldMap;
    FieldMapLookup(map[], fields, EXPECT);
    LastNamedExists(fields, EXPECT);
  }

  /** std::stoul takes the digits in front, whatever follows them, and throws when there are none. */
  lemma StoulExactly(n: nat, x: Bytes)
    requires x != [] ==> !(48 <= x[0] <= 57)
    ensures Stoul(Decimal(n) + x) == Some(n) && Stoul(x) == None
  {
    DecimalDigits(n);
    LeadingDigitsThen(Decimal(n), x);
  }

  lemma {:induction false} LeadingDigitsThen(d: Bytes, x: Bytes)
    requires AllDigits(d) && (x != [] ==> !(48 <= x[0] <= 57))
    ensures LeadingDigits(d + x) == d
    decreases |d|
  {
    if d == [] {
      assert d + x == x;
    } else {
      assert (d + x)[1..] == d[1..] + x && AllDigits(d[1..]);
      LeadingDigitsThen(d[1..], x);
    }
  }

  /** Every printed header with a decimal Content-Length, or with none and no body, is one. */
  lemma PrintedIsRequestHeader(method_: Bytes, url: Bytes, version: Bytes, fields: seq<Field>, n: nat)
    requires LegalStart(method_, url, version) && forall f :: f in fields ==> LegalField(f)
    requires DeclaresLength(fields, n)
    ensures IsRequestHeader(PrintHeader(method_, url, version, fields), n)
  {
    hide Header, FirstBlank, PrintHeader, FieldMap, LegalField, ContentLength, DeclaresLength;
    var h := PrintHeader(method_, url, version, fields);
    DeclaredLength(fields, n);
    forall x: Bytes
      ensures Header(h + x).Found? && Header(h + x).len == |h| && ContentLength(Header(h + x).head.headers) == Some(n)
    {
      PrintedHeaderRoundTrip(method_, url, version, fields, x);
    }
    PrintedEnd(method_, url, version, fields);
    forall k | 0 <= k < |h| ensures Header(h[..k]) == NotFound {
      HeaderPrefixNotFound(h, k);
    }
  }

  lemma PrintedEnd(method_: Bytes, url: Bytes, version: Bytes, fields: seq<Field>)
    requires LegalStart(method_, url, version) && forall f :: f in fields ==> LegalField(f)
    ensures var h := PrintHeader(method_, url, version, fields);
            Without(h, [NUL]) && 0 <= FirstBlank(h) == |h| - 4
  {
    hide FirstBlank, LegalField;
    var content, h := StartText(method_, url, version), PrintHeader(method_, url, version, fields);
    StartTextClean(method_, url, version);
    BlankOfLines(content, fields, []);
    assert h == content + CRLF + (FieldLines(fields) + CRLF) && h + [] == h;
  }

  // ----- which requests are refused

  function Min(a: nat, b: nat): nat { if a < b then a else b }

  /** How much a read of at most n bytes gets, with left bytes to come and pos bytes in the buffer. */
  function Amount(n: nat, left: nat, pos: nat): nat
    requires pos <= MAX_MESSAGE
  {
    Min(n, Min(left, MAX_MESSAGE - pos))
  }

  /** Some read that begins before the end of the header, headerLen, ends past limit: pos bytes of total are
      received so far. */
  predicate EndsPast(limit: nat, offers: seq<Offer>, headerLen: nat, total: nat, pos: nat)
    requires pos <= MAX_HEADER && pos <= total
  {
    offers != [] &&
    match offers[0]
    case End => false
    case Nothing => EndsPast(limit, offers[1..], headerLen, total, pos)
    case UpTo(n) =>
      var k := Amount(n, total - pos, pos);
      && k > 0
      && (pos + k > limit ||
          (pos + k <= MAX_HEADER && pos + k < headerLen && EndsPast(limit, offers[1..], headerLen, total, pos + k)))
  }

  /** The request is refused when the read ends past MAX_HEADER. */
  predicate RefusedBy(offers: seq<Offer>, headerLen: nat, total: nat) {
    EndsPast(MAX_HEADER, offers, headerLen, total, 0)
  }

  /** The last position the buffer has. */
  const LAST: nat := MAX_MESSAGE - 1

  /** When the read ends past the last position, the NUL put behind what was received lies outside the buffer. */
  predicate OverrunBy(offers: seq<Offer>, headerLen: nat, total: nat) {
    EndsPast(LAST, offers, headerLen, total, 0)
  }

  lemma {:induction false} SmallNeverPast(limit: nat, offers: seq<Offer>, headerLen: nat, total: nat, pos: nat)
    requires pos <= MAX_HEADER && pos <= total <= limit
    ensures !EndsPast(limit, offers, headerLen, total, pos)
    decreases |offers|
  {
    if offers != [] {
      match offers[0]
      case End =>
      case Nothing => SmallNeverPast(limit, offers[1..], headerLen, total, pos);
      case UpTo(n) =>
        var k := Amount(n, total - pos, pos);
        if k > 0 && pos + k <= MAX_HEADER && pos + k < headerLen {
          SmallNeverPast(limit, offers[1..], headerLen, total, pos + k);
        }
    }
  }

  lemma LargeFirstRead(limit: nat, headerLen: nat, total: nat)
    requires limit < total && limit < MAX_MESSAGE
    ensures EndsPast(limit, [UpTo(limit + 1)], headerLen, total, 0)
  {
    assert Amount(limit + 1, total, 0) == limit + 1;
  }

  /** No split of the reads has the request refused; no split has the NUL written outside the buffer. */
  ghost predicate NeverRefused(headerLen: nat, total: nat) { forall offers :: !RefusedBy(offers, headerLen, total) }

  ghost predicate NeverOverrun(headerLen: nat, total: nat) { forall offers :: !OverrunBy(offers, headerLen, total) }

  /** A request is received under every split of the reads if and only if header and body together fit into
      MAX_HEADER; a longer one, however short its header, is refused when the first read takes too much. */
  lemma NeverRefusedExactly(headerLen: nat, total: nat)
    ensures NeverRefused(headerLen, total) <==> total <= MAX_HEADER
  {
    if total <= MAX_HEADER {
      forall offers ensures !RefusedBy(offers, headerLen, total) {
        SmallNeverPast(MAX_HEADER, offers, headerLen, total, 0);
      }
    } else {
      LargeFirstRead(MAX_HEADER, headerLen, total);
      assert RefusedBy([UpTo(MAX_HEADER + 1)], headerLen, total);
    }
  }

  /** The NUL stays inside the buffer under every split of the reads if and only if header and body together are
      shorter than the buffer. */
  lemma NeverOverrunExactly(headerLen: nat, total: nat)
    ensures NeverOverrun(headerLen, total) <==> total < MAX_MESSAGE
  {
    if total < MAX_MESSAGE {
      forall offers ensures !OverrunBy(offers, headerLen, total) {
        SmallNeverPast(LAST, offers, headerLen, total, 0);
      }
    } else {
      LargeFirstRead(LAST, headerLen, total);
      assert OverrunBy([UpTo(LAST + 1)], headerLen, total);
    }
  }

  /** The body is delivered when the buffer is full: every piece fills it, but for the last. */
  predicate FullPieces(pieces: seq<Bytes>) { forall k :: 0 <= k < |pieces| ==> |pieces[k]| == MAX_MESSAGE }

  predicate InPieces(pieces: seq<Bytes>) {
    pieces != [] && FullPieces(pieces[..|pieces| - 1]) && |pieces[|pieces| - 1]| <= MAX_MESSAGE
  }

  class HttpRequest {
    var rbuf: Bytes
    var rbufPos: nat
    var remainRecvLen: int
    var status: RequestStatus
    var head: Head
    var replyContinue: bool
    /** The bytes still to arrive, those read so far, and the pieces given to HandleBodyData. */
    var inbound: Bytes
    var received: Bytes
    var delivered: seq<Bytes>
    var lastRead: ReadResult
    /** What the following reads will find; nothing more means that they would block. */
    var offers: seq<Offer>
    /** The handler asked to reply without reading the body. */
    var early: bool
    /** A NUL was written one past the end of the buffer. */
    var overran: bool
    /** The request being received. */
    ghost const header: Bytes
    ghost const body: Bytes

    ghost predicate Valid()
      reads this
    {
      && |rbuf| == MAX_MESSAGE && rbufPos <= MAX_MESSAGE && !overran
      && IsRequestHeader(header, |body|) && received + inbound == header + body
      && match status
         case NewRequest => true
         case HeaderReceiving => rbuf[..rbufPos] == received && |received| < |header| && rbufPos <= MAX_HEADER
             && delivered == []
         case BodyReceiving => rbufPos < MAX_MESSAGE && remainRecvLen > 0 && Streaming() && FullPieces(delivered)
         case BodyReceived =>
           && |header| <= |received|
           && (early || (Concat(delivered) == body && inbound == [] && InPieces(delivered)))
    }

    /** What body streaming keeps: the pieces delivered, then the bytes buffered, are the body received so
        far, and what is received and what remains is the declared length. */
    ghost predicate Streaming()
      requires rbufPos <= |rbuf|
      reads this
    {
      && |header| <= |received| && Concat(delivered) + rbuf[..rbufPos] == received[|header|..]
      && |received| - |header| + remainRecvLen == |body|
    }

    /** A read to come that begins inside the header is going to end past limit. */
    ghost predicate Doomed(limit: nat)
      reads `received, `offers
    {
      && |received| <= MAX_HEADER && |received| < |header|
      && EndsPast(limit, offers, |header|, |header| + |body|, |received|)
    }

    /** What becomes of that in a step from before that ends with status s. */
    twostate predicate Fate(s: ReadStatus)
      reads this
    {
      if s == ReadClose then !old(Doomed(MAX_HEADER)) && !old(Doomed(LAST)) && !overran
      else (old(Doomed(MAX_HEADER)) <==> s == ReadError || Doomed(MAX_HEADER))
           && (old(Doomed(LAST)) <==> overran || Doomed(LAST)) && (overran ==> s == ReadError)
    }

    constructor (ghost h: Bytes, ghost b: Bytes, stream: Bytes, script: seq<Offer>)
      requires IsRequestHeader(h, |b|) && stream == h + b
      ensures Valid() && status == NewRequest && header == h && body == b && received == [] && delivered == [] && !early
      ensures offers == script
    {
      rbuf, rbufPos, remainRecvLen, status := seq(MAX_MESSAGE, _ => 0), 0, 0, NewRequest;
      head, replyContinue := NoHead(), false;
      inbound, received, delivered, early, lastRead, offers := stream, [], [], false, Again, script;
      overran := false;
      header, body := h, b;
    }

    /** What DoRead returns for each outcome of the read. */
    ghost predicate Reports(s: ReadStatus)
      reads this
    {
      s == match lastRead case Data(_) => ReadOk case Again => ReadHalf case Closed => ReadClose
    }

    /** read into the free part of the buffer. */
    method DoRead() returns (s: ReadStatus)
      requires |rbuf| == MAX_MESSAGE && rbufPos <= MAX_MESSAGE
      modifies `rbuf, `rbufPos, `remainRecvLen, `inbound, `received, `lastRead, `offers
      ensures |rbuf| == MAX_MESSAGE && rbufPos <= MAX_MESSAGE && Reports(s)
      ensures offers == if old(offers) == [] then [] else old(offers)[1..]
      ensures s == if old(offers) == [] then ReadHalf else match old(offers)[0]
                case UpTo(n) => if Amount(n, |old(inbound)|, old(rbufPos)) == 0 then ReadClose else ReadOk
                case Nothing => ReadHalf
                case End => ReadClose
      ensures s != ReadOk ==> rbuf == old(rbuf) && rbufPos == old(rbufPos) && remainRecvLen == old(remainRecvLen)
                              && inbound == old(inbound) && received == old(received)
      ensures s == ReadOk ==>
                var bytes := lastRead.bytes;
                && bytes != [] && |bytes| == Amount(old(offers)[0].n, |old(inbound)|, old(rbufPos))
                && old(inbound) == bytes + inbound && received == old(received) + bytes
                && rbufPos == old(rbufPos) + |bytes| && rbuf[..rbufPos] == old(rbuf[..rbufPos]) + bytes
                && remainRecvLen == old(remainRecvLen) - (if status == BodyReceiving then |bytes| else 0)
    {
      if offers == [] {
        lastRead := Again;
        return ReadHalf;
      }
      var offer := offers[0];
      offers := offers[1..];
      match offer {
        case Nothing => lastRead := Again; return ReadHalf;
        case End => lastRead := Closed; return ReadClose;
        case UpTo(n) =>
          var k := Amount(n, |inbound|, rbufPos);
          if k == 0 {
            lastRead := Closed;
            return ReadClose;
          }
          TakeBytes(k);
          if status == BodyReceiving {
            remainRecvLen := remainRecvLen - k;
          }
          return ReadOk;
      }
    }

    /** The bytes of one read go behind those in the buffer. */
    method TakeBytes(k: nat)
      requires |rbuf| == MAX_MESSAGE && 1 <= k <= |inbound| && rbufPos + k <= MAX_MESSAGE
      modifies `rbuf, `rbufPos, `inbound, `received, `lastRead
      ensures |rbuf| == MAX_MESSAGE && rbufPos == old(rbufPos) + k && lastRead == Data(old(inbound)[..k])
      ensures rbuf[..rbufPos] == old(rbuf[..rbufPos]) + old(inbound)[..k]
      ensures inbound == old(inbound)[k..] && received == old(received) + old(inbound)[..k]
    {
      var bytes := inbound[..k];
      ghost var before := rbuf[..rbufPos];
      rbuf := rbuf[..rbufPos] + bytes + rbuf[rbufPos + k..];
      inbound, received := inbound[k..], received + bytes;
      rbufPos := rbufPos + k;
      lastRead := Data(bytes);
      assert rbuf[..rbufPos] == before + bytes;
    }

    method HandleBodyData()
      requires rbufPos <= |rbuf|
      modifies `delivered
      ensures delivered == old(delivered) + [rbuf[..rbufPos]]
      ensures Concat(delivered) == old(Concat(delivered)) + rbuf[..rbufPos]
    {
      ConcatSnoc(delivered, rbuf[..rbufPos]);
      delivered := delivered + [rbuf[..rbufPos]];
    }

    /** DoRead while the header is incomplete: the buffer holds all that was received. */
    method ReadMore() returns (s: ReadStatus)
      requires |rbuf| == MAX_MESSAGE && rbufPos <= MAX_HEADER && |received| < |header| && status != BodyReceiving
      requires rbuf[..rbufPos] == received && received + inbound == header + body
      modifies `rbuf, `rbufPos, `remainRecvLen, `inbound, `received, `lastRead, `offers
      ensures |rbuf| == MAX_MESSAGE && rbufPos <= MAX_MESSAGE && Reports(s)
      ensures rbuf[..rbufPos] == received && received + inbound == header + body
      ensures if s == ReadOk then |inbound| < |old(inbound)| else rbufPos == old(rbufPos) && received == old(received)
      ensures s != ReadError && offers == if old(offers) == [] then [] else old(offers)[1..]
      ensures s != ReadClose ==> (old(Doomed(MAX_HEADER)) <==> |received| > MAX_HEADER || Doomed(MAX_HEADER))
      ensures s != ReadClose ==> (old(Doomed(LAST)) <==> |received| > LAST || Doomed(LAST))
      ensures s == ReadClose ==> !old(Doomed(MAX_HEADER)) && !old(Doomed(LAST))
    {
      s := DoRead();
      if s == ReadOk {
        ghost var bytes := lastRead.bytes;
        assert old(received) + (bytes + inbound) == received + inbound;
      }
    }

    /** Case kHeaderReceiving. The request is refused exactly when this read ends past MAX_HEADER. */
    method ReceiveHeader() returns (go: bool, s: ReadStatus)
      requires Valid() && status == HeaderReceiving && !early
      modifies `rbuf, `rbufPos, `remainRecvLen, `inbound, `received, `lastRead, `offers, `head, `replyContinue,
               `status, `delivered, `early, `overran
      ensures s != ReadError ==> Valid() && status != NewRequest
      ensures received + inbound == header + body
      ensures s == ReadAll ==> status == BodyReceiving && |header| <= |received|
      ensures go ==> |inbound| < |old(inbound)| && s == ReadOk
      ensures !go ==> s != ReadOk
      ensures s == ReadError <==> lastRead.Data? && |received| > MAX_HEADER
      ensures Fate(s)
      ensures offers == if old(offers) == [] then [] else old(offers)[1..]
      ensures s == ReadHalf || s == ReadClose ==> Reports(s) && status == HeaderReceiving
      ensures (go && status != HeaderReceiving) || s == ReadAll
              ==> Header(received).Found? && head == Header(received).head
      ensures s == ReadAll ==> ExpectsContinue(head.headers)
      ensures go && status == BodyReceiving ==> !ExpectsContinue(head.headers)
      ensures early ==> go && status == BodyReceived
      ensures Concat(delivered) <= body
    {
      hide Header, IsRequestHeader, Concat, ContentLength, ExpectsContinue, EndsPast;
      EmptyConcat(delivered);
      var r;
      s, r := ReadHeader();
      HeaderArrives(header, body, received, inbound);
      if s != ReadOk {
        return false, s;
      }
      if r.NotFound? {
        return true, ReadOk;
      }
      go, s := HeaderFound(r.head, r.len);
    }

    /** One read and a look at what has arrived, whatever bytes these are: refused exactly when the block is bad or the
        buffer holds too much. */
    method ReadHeader() returns (s: ReadStatus, r: HeaderResult)
      requires |rbuf| == MAX_MESSAGE && rbufPos <= MAX_HEADER && |received| < |header| && status != BodyReceiving
      requires rbuf[..rbufPos] == received && received + inbound == header + body && !overran
      modifies `rbuf, `rbufPos, `remainRecvLen, `inbound, `received, `lastRead, `offers, `overran
      ensures rbufPos <= MAX_MESSAGE == |rbuf| && rbuf[..rbufPos] == received && received + inbound == header + body
      ensures s == ReadOk || s == ReadHalf || s == ReadClose || s == ReadError
      ensures s == ReadOk ==> lastRead.Data? && |inbound| < |old(inbound)| && rbufPos <= MAX_HEADER
      ensures s == ReadOk ==> r == Header(received) && r != BadHeader
      ensures s == ReadError <==> lastRead.Data? && (|received| > MAX_HEADER || Header(received) == BadHeader)
      ensures s == ReadHalf || s == ReadClose ==>
                Reports(s) && rbufPos == old(rbufPos) && received == old(received) && !overran
      ensures s != ReadClose ==> (old(Doomed(MAX_HEADER)) <==> |received| > MAX_HEADER || Doomed(MAX_HEADER))
      ensures s != ReadClose ==> (old(Doomed(LAST)) <==> |received| > LAST || Doomed(LAST))
      ensures s == ReadClose ==> !old(Doomed(MAX_HEADER)) && !old(Doomed(LAST))
      ensures overran <==> lastRead.Data? && |received| > LAST
      ensures offers == if old(offers) == [] then [] else old(offers)[1..]
    {
      hide Header, EndsPast;
      r := NotFound;
      s := ReadMore();
      if s != ReadOk {
        return;
      }
      Terminate();
      r := ParseHeader(rbuf[..rbufPos]);
      if r.BadHeader? || rbufPos > MAX_HEADER {
        s := ReadError;
      }
    }

    /** Put a NUL behind what was received. */
    method Terminate()
      requires rbufPos <= |rbuf|
      modifies `rbuf, `overran
      ensures |rbuf| == |old(rbuf)| && rbuf[..rbufPos] == old(rbuf[..rbufPos])
      ensures overran <==> old(overran) || rbufPos == |rbuf|
    {
      if rbufPos == |rbuf| {
        overran := true;
      } else {
        ghost var before := rbuf[..rbufPos];
        rbuf := rbuf[rbufPos := NUL];
        assert rbuf[..rbufPos] == before;
      }
    }

    /** The header is complete: decide how to go on with the body. */
    method HeaderFound(h: Head, headerLen: nat) returns (go: bool, s: ReadStatus)
      requires |rbuf| == MAX_MESSAGE && headerLen == |header| <= rbufPos <= MAX_HEADER && rbuf[..rbufPos] == received
      requires IsRequestHeader(header, |body|) && received + inbound == header + body
               && body == received[|header|..] + inbound
      requires ContentLength(h.headers) == Some(|body|) && delivered == [] && !early && !overran
      modifies `rbuf, `rbufPos, `remainRecvLen, `head, `replyContinue, `status, `delivered, `early
      ensures Valid() && head == h && (go <==> s == ReadOk) && (!go <==> s == ReadAll)
      ensures status == BodyReceiving || status == BodyReceived
      ensures s == ReadAll ==> status == BodyReceiving && ExpectsContinue(head.headers)
      ensures go && status == BodyReceiving ==> !ExpectsContinue(head.headers)
      ensures early ==> go && status == BodyReceived
      ensures Concat(delivered) <= body
    {
      hide IsRequestHeader, Concat, ContentLength, ExpectsContinue;
      EmptyConcat(delivered);
      head, status := h, BodyReceiving;
      var length := ContentLength(h.headers);
      replyContinue := ExpectsContinue(h.headers);
      var needReply: bool := *;
      if needReply {
        status, early := BodyReceived, true;
        return true, ReadOk;
      }
      remainRecvLen := length.value;
      MoveBody(headerLen);
      if replyContinue && remainRecvLen != 0 {
        replyContinue := false;
        return false, ReadAll;
      }
      if remainRecvLen == 0 {
        DeliverAll();
      }
      return true, ReadOk;
    }

    /** The whole body came with the header. */
    method DeliverAll()
      requires |rbuf| == MAX_MESSAGE && rbufPos <= MAX_MESSAGE && |header| <= |received| && remainRecvLen == 0
      requires Streaming() && body == received[|header|..] + inbound && FullPieces(delivered)
      modifies `delivered, `status
      ensures Concat(delivered) == body && inbound == [] && status == BodyReceived && InPieces(delivered)
    {
      hide Concat;
      assert |inbound| == 0;
      assert inbound == [] && received[|header|..] + inbound == received[|header|..];
      ghost var before := delivered;
      HandleBodyData();
      assert delivered[..|delivered| - 1] == before;
      status := BodyReceived;
    }

    /** Move the body part behind the header to the front of the buffer. */
    method MoveBody(headerLen: nat)
      requires |rbuf| == MAX_MESSAGE && headerLen == |header| <= rbufPos <= MAX_MESSAGE && rbuf[..rbufPos] == received
      requires remainRecvLen == |body| && Concat(delivered) == []
      modifies `rbuf, `rbufPos, `remainRecvLen
      ensures |rbuf| == MAX_MESSAGE && rbufPos == old(rbufPos) - headerLen && rbuf[..rbufPos] == received[|header|..]
      ensures Streaming()
    {
      hide Concat;
      rbuf := rbuf[headerLen..rbufPos] + rbuf[rbufPos - headerLen..];
      remainRecvLen := remainRecvLen - (rbufPos - headerLen);
      rbufPos := rbufPos - headerLen;
      assert rbuf[..rbufPos] == received[|header|..];
      assert Concat(delivered) + rbuf[..rbufPos] == received[|header|..];
    }

    /** Case kBodyReceiving. */
    method ReceiveBody() returns (go: bool, s: ReadStatus)
      requires Valid() && status == BodyReceiving && !early
      modifies `rbuf, `rbufPos, `remainRecvLen, `inbound, `received, `lastRead, `offers, `status, `delivered
      ensures offers == if old(offers) == [] then [] else old(offers)[1..]
      ensures Fate(s)
      ensures Valid() && (status == BodyReceiving || status == BodyReceived)
      ensures go ==> |inbound| < |old(inbound)| && s == ReadOk
      ensures !go ==> (s == ReadHalf || s == ReadClose) && Reports(s) && status == BodyReceiving
    {
      hide IsRequestHeader, Concat, EndsPast, Streaming;
      s := ReadBody();
      if s != ReadOk {
        return false, s;
      }
      DeliverBody();
      return true, ReadOk;
    }

    /** A read of body bytes: the invariant of streaming holds, though the buffer may be full now. */
    method ReadBody() returns (s: ReadStatus)
      requires Valid() && status == BodyReceiving && !early
      modifies `rbuf, `rbufPos, `remainRecvLen, `inbound, `received, `lastRead, `offers
      ensures offers == if old(offers) == [] then [] else old(offers)[1..]
      ensures s != ReadError && s != ReadAll && Reports(s) && |header| <= |old(received)| <= |received|
      ensures |rbuf| == MAX_MESSAGE && rbufPos <= MAX_MESSAGE && Streaming()
      ensures received + inbound == header + body && body == received[|header|..] + inbound
      ensures if s == ReadOk then |inbound| < |old(inbound)| else Valid()
    {
      hide IsRequestHeader, Concat;
      ghost var part, bodyPart, done := rbuf[..rbufPos], received[|header|..], Concat(delivered);
      BodyArrives(header, body, received, inbound);
      s := DoRead();
      if s == ReadOk {
        ghost var bytes := lastRead.bytes;
        assert received[|header|..] == bodyPart + bytes;
        assert old(received) + (bytes + inbound) == received + inbound;
        BodyArrives(header, body, received, inbound);
        assert done + (part + bytes) == done + part + bytes;
      }
    }

    /** Deliver the buffer when it is full or the body complete. */
    method DeliverBody()
      requires |rbuf| == MAX_MESSAGE && rbufPos <= MAX_MESSAGE && !overran && IsRequestHeader(header, |body|)
      requires |header| <= |received| && Streaming() && status == BodyReceiving && FullPieces(delivered)
      requires received + inbound == header + body && body == received[|header|..] + inbound
      modifies `rbufPos, `status, `delivered
      ensures Valid() && (status == BodyReceiving || status == BodyReceived)
    {
      hide IsRequestHeader, Concat;
      assert remainRecvLen == |inbound|;
      if rbufPos == MAX_MESSAGE || remainRecvLen == 0 {
        ghost var before := delivered;
        HandleBodyData();
        assert delivered[..|delivered| - 1] == before;
        rbufPos := 0;
        assert rbuf[..0] == [] && Concat(delivered) + [] == Concat(delivered);
      }
      if remainRecvLen == 0 {
        assert inbound == [] && received[|header|..] + inbound == received[|header|..];
        status := BodyReceived;
      }
    }

    /** Everything received is delivered in order; when the body is complete it has been delivered in full.
        The request is refused exactly when the reads that find its header take too much. */
    method ReadData(responseFinished: bool) returns (s: ReadStatus)
      requires Valid() && !early && (status == NewRequest ==> received == [] && delivered == [])
      modifies `rbuf, `rbufPos, `remainRecvLen, `inbound, `received, `lastRead, `offers, `head, `replyContinue,
               `status, `delivered, `early, `overran
      ensures s != ReadError ==> Valid()
      ensures received + inbound == header + body
      ensures s == ReadAll && status == NewRequest && !early ==>
                Concat(delivered) == body && inbound == [] && InPieces(delivered)
      ensures s == ReadAll ==> (status == NewRequest || status == BodyReceiving) && |header| <= |received|
      ensures s == ReadHalf && status == NewRequest ==> received == [] && delivered == []
      ensures early ==> s == ReadAll && status == NewRequest
      ensures s != ReadOk && Concat(delivered) <= body && (s == ReadHalf ==> status != BodyReceived)
      ensures s == ReadClose ==> status == HeaderReceiving || status == BodyReceiving
      ensures s == ReadError ==> lastRead.Data? && |received| > MAX_HEADER
      ensures Fate(s)
      ensures s == ReadClose || (s == ReadHalf && status != NewRequest) ==> Reports(s)
      ensures |offers| <= |old(offers)|
      ensures old(offers) != [] && old(status) != BodyReceived && (responseFinished || old(status) != NewRequest)
              ==> |offers| < |old(offers)|
    {
      hide IsRequestHeader, Concat, Doomed, Streaming;
      if status == NewRequest {
        if !responseFinished {
          Reset();
          return ReadHalf;
        }
        Reset();
        BeginHeader();
      }
      DeliveredSoFar();
      while true
        invariant Valid() && status != NewRequest && (early ==> status == BodyReceived) && Concat(delivered) <= body
        invariant (old(Doomed(MAX_HEADER)) <==> Doomed(MAX_HEADER)) && (old(Doomed(LAST)) <==> Doomed(LAST))
        invariant old(offers) != [] && old(status) != BodyReceived && offers == old(offers) ==> status != BodyReceived
        invariant offers == old(offers) || |offers| < |old(offers)|
        decreases |inbound|, status != BodyReceived
      {
        if status == BodyReceived {
          status := NewRequest;
          return ReadAll;
        }
        var go;
        go, s := Receive();
        if !go {
          return;
        }
      }
    }

    /** One pass of the loop that reads: header or body. */
    method Receive() returns (go: bool, s: ReadStatus)
      requires Valid() && !early && (status == HeaderReceiving || status == BodyReceiving)
      modifies `rbuf, `rbufPos, `remainRecvLen, `inbound, `received, `lastRead, `offers, `head, `replyContinue,
               `status, `delivered, `early, `overran
      ensures s != ReadError ==> Valid() && status != NewRequest && (early ==> status == BodyReceived)
      ensures received + inbound == header + body && Concat(delivered) <= body
      ensures go <==> s == ReadOk
      ensures go ==> |inbound| < |old(inbound)|
      ensures !go ==> !early && (s == ReadHalf || s == ReadClose ==> Reports(s))
      ensures !go && s != ReadError ==> status == HeaderReceiving || status == BodyReceiving
      ensures s == ReadAll ==> status == BodyReceiving && |header| <= |received|
      ensures s == ReadError ==> lastRead.Data? && |received| > MAX_HEADER
      ensures Fate(s)
      ensures offers == if old(offers) == [] then [] else old(offers)[1..]
    {
      hide IsRequestHeader, Concat, Doomed, Streaming;
      if status == HeaderReceiving {
        go, s := ReceiveHeader();
      } else {
        go, s := ReceiveBody();
        DeliveredSoFar();
      }
    }

    method Reset()
      requires Valid() && status == NewRequest && received == [] && delivered == []
      modifies `rbufPos, `remainRecvLen, `replyContinue, `head
      ensures Valid() && rbufPos == 0 && Concat(delivered) <= body
    {
      hide IsRequestHeader;
      rbufPos, remainRecvLen, replyContinue, head := 0, 0, false, NoHead();
    }

    method BeginHeader()
      requires Valid() && status == NewRequest && received == [] && delivered == [] && rbufPos == 0
      modifies `status
      ensures Valid() && status == HeaderReceiving
    {
      hide IsRequestHeader;
      status := HeaderReceiving;
      HeaderNotEmpty(header, |body|);
      assert rbuf[..0] == [];
    }

    lemma DeliveredSoFar()
      requires Valid() && !early && (status == BodyReceiving || status == BodyReceived || delivered == [])
      ensures Concat(delivered) <= body
    {
      if status == BodyReceiving {
        assert received[|header|..] <= body by {
          assert received <= header + body;
          assert (header + body)[|header|..] == body;
        }
      }
    }
  }

  lemma EmptyConcat(parts: seq<Bytes>)
    requires parts == []
    ensures Concat(parts) == []
  {
  }

  lemma HeaderNotEmpty(h: Bytes, n: nat)
    requires IsRequestHeader(h, n)
    ensures h != []
  {
    var none: Bytes := [];
    assert h + none == h && Header(h + none).Found?;
    assert Header(none) == NotFound;
  }

  /** Past the header, what was received and what is still to come make up the body. */
  lemma BodyArrives(h: Bytes, body: Bytes, received: Bytes, inbound: Bytes)
    requires received + inbound == h + body && |h| <= |received|
    ensures received == h + received[|h|..] && body == received[|h|..] + inbound
  {
    assert (received + inbound)[..|h|] == h;
    assert (h + body)[|h|..] == body;
    assert (received + inbound)[|h|..] == received[|h|..] + inbound;
  }

  /** What ParseHeader says of the bytes received so far. */
  lemma HeaderArrives(h: Bytes, body: Bytes, received: Bytes, inbound: Bytes)
    requires IsRequestHeader(h, |body|) && received + inbound == h + body
    ensures |received| < |h| ==> Header(received) == NotFound
    ensures |received| >= |h| ==>
              && Header(received).Found? && Header(received).len == |h|
              && ContentLength(Header(received).head.headers) == Some(|body|)
              && body == received[|h|..] + inbound
  {
    hide Header, ContentLength;
    if |received| < |h| {
      assert received == (received + inbound)[..|received|] == h[..|received|];
    } else {
      BodyArrives(h, body, received, inbound);
    }
  }

  /** Any run of ReadData calls over a request with exactly the declared body, with any split of the reads:
      the pieces delivered are always a prefix of the body, and the whole body once the request is complete.
      It is refused exactly when a read that begins inside the header ends past MAX_HEADER, and so never when
      header and body fit into MAX_HEADER; a NUL is written outside the buffer exactly when such a read fills it.
      Once nothing is left to read the request is complete, unless it was refused or the handler answered without
      waiting for the body. */
  method AnyRequestRun(header: Bytes, body: Bytes, offers: seq<Offer>, waits: nat)
    returns (delivered: seq<Bytes>, complete: bool, refused: bool, answered: bool, overran: bool, left: Bytes)
    requires IsRequestHeader(header, |body|)
    ensures left == [] ==> complete || refused || answered
    ensures Concat(delivered) <= body
    ensures complete ==> Concat(delivered) == body && InPieces(delivered) && !refused
    ensures refused <==> RefusedBy(offers, |header|, |header| + |body|)
    ensures overran <==> OverrunBy(offers, |header|, |header| + |body|)
    ensures refused ==> |header| + |body| > MAX_HEADER
  {
    hide IsRequestHeader, Concat, EndsPast;
    var r := new HttpRequest(header, body, header + body, offers);
    EmptyConcat(r.delivered);
    HeaderNotEmpty(header, |body|);
    complete, refused, answered := false, false, false;
    var waiting := waits;
    while waiting > 0 || r.offers != []
      invariant fresh(r) && r.header == header && r.body == body && r.Valid() && !r.early && r.status != BodyReceived
      invariant r.status == NewRequest ==> r.received == [] && r.delivered == []
      invariant Concat(r.delivered) <= body && !complete && !refused
      invariant r.Doomed(MAX_HEADER) <==> RefusedBy(offers, |header|, |header| + |body|)
      invariant r.Doomed(LAST) <==> OverrunBy(offers, |header|, |header| + |body|)
      decreases waiting, |r.offers|
    {
      var finished := true;
      if waiting > 0 {
        finished := *;
        waiting := waiting - 1;
      }
      var s := r.ReadData(finished);
      refused := s == ReadError;
      complete := s == ReadAll && r.status == NewRequest && !r.early;
      if refused || s == ReadClose || r.early || complete {
        Received(r.received, r.inbound, header, body);
        return r.delivered, complete, refused, r.early, r.overran, r.inbound;
      }
    }
    NoOffers(MAX_HEADER, |header|, |header| + |body|, |r.received|);
    NoOffers(LAST, |header|, |header| + |body|, |r.received|);
    Received(r.received, r.inbound, header, body);
    delivered, left, overran := r.delivered, r.inbound, false;
  }

  lemma NoOffers(limit: nat, headerLen: nat, total: nat, pos: nat)
    ensures pos <= MAX_HEADER && pos <= total ==> !EndsPast(limit, [], headerLen, total, pos)
  {
  }

  lemma Received(received: Bytes, inbound: Bytes, header: Bytes, body: Bytes)
    requires received + inbound == header + body
    ensures |received| + |inbound| == |header| + |body|
  {
    assert |received + inbound| == |header + body|;
  }

  /** "Content-Length", "GET", "/", "HTTP/1.1" */
  const LENGTH_KEY: Bytes := [67, 111, 110, 116, 101, 110, 116, 45, 76, 101, 110, 103, 116, 104]
  const GET: Bytes := [71, 69, 84]
  const ROOT: Bytes := [47]
  const HTTP_1_1: Bytes := [72, 84, 84, 80, 47, 49, 46, 49]

  lemma ShortHeader(n: nat)
    ensures var h := PrintHeader(GET, ROOT, HTTP_1_1, [Field(LENGTH_KEY, Decimal(n))]);
            IsRequestHeader(h, n) && |h| == 36 + |Decimal(n)|
  {
    hide IsRequestHeader, Decimal;
    var f := Field(LENGTH_KEY, Decimal(n));
    var fields := [f];
    DecimalDigits(n);
    assert LegalField(f);
    assert fields[1..] == [];
    assert Named(f, CONTENT_LENGTH);
    assert LastNamed(fields, CONTENT_LENGTH, 0);
    PrintedIsRequestHeader(GET, ROOT, HTTP_1_1, fields, n);
    assert FieldLines(fields) == FieldLine(f) + FieldLines(fields[1..]);
    assert |FieldLine(f)| == 18 + |Decimal(n)|;
    assert |StartLine(GET, ROOT, HTTP_1_1)| == 16;
  }

  /** A header of a few dozen bytes with a body longer than MAX_HEADER: a first read that takes one byte more
      than MAX_HEADER has it refused. */
  method ShortHeaderRefused(body: Bytes) returns (header: Bytes, refused: bool)
    requires |body| > MAX_HEADER
    ensures IsRequestHeader(header, |body|) && |header| == 36 + |Decimal(|body|)| && refused
  {
    hide IsRequestHeader, EndsPast, PrintHeader;
    ShortHeader(|body|);
    header := PrintHeader(GET, ROOT, HTTP_1_1, [Field(LENGTH_KEY, Decimal(|body|))]);
    LargeFirstRead(MAX_HEADER, |header|, |header| + |body|);
    var delivered, complete, answered, overran, left;
    delivered, complete, refused, answered, overran, left := AnyRequestRun(header, body, [UpTo(MAX_HEADER + 1)], 0);
  }

  /** The same header with a body as long as the buffer: a first read that fills the buffer has the NUL written
      one past its end. */
  method FullBufferOverruns(body: Bytes) returns (header: Bytes, overran: bool)
    requires |body| >= MAX_MESSAGE
    ensures IsRequestHeader(header, |body|) && |header| == 36 + |Decimal(|body|)| && overran
  {
    hide IsRequestHeader, EndsPast, PrintHeader;
    ShortHeader(|body|);
    header := PrintHeader(GET, ROOT, HTTP_1_1, [Field(LENGTH_KEY, Decimal(|body|))]);
    LargeFirstRead(LAST, |header|, |header| + |body|);
    var delivered, complete, refused, answered, left;
    delivered, complete, refused, answered, overran, left := AnyRequestRun(header, body, [UpTo(LAST + 1)], 0);
  }
}
