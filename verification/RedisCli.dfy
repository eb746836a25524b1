/** The client side: a second, independent reader of RESP. */
module RedisCli {
  import opened ByteStrings
  import opened RedisRequests
  import opened RedisSerializer

  const IOBUF_LEN: nat := 16384

  // ----- scanning

  predicate CrlfAt(s: Bytes, i: int) { 0 <= i && i + 1 < |s| && s[i] == CR && s[i + 1] == LF }

  ghost predicate IsFirstCrlf(s: Bytes, i: int) { CrlfAt(s, i) && forall k :: 0 <= k < i ==> !CrlfAt(s, k) }

  /** The first CRLF, or None exactly when there is none. */
  function FirstCrlf(s: Bytes): (r: Option<nat>)
    ensures r.Some? ==> r.value + 1 < |s| && s[r.value] == CR && IsFirstCrlf(s, r.value)
    ensures r.None? ==> forall k :: !CrlfAt(s, k)
  {
    if |s| < 2 then None
    else if CrlfAt(s, 0) then Some(0)
    else
      var t := FirstCrlf(s[1..]);
      assert forall k :: 0 < k && CrlfAt(s, k) ==> CrlfAt(s[1..], k - 1);
      assert forall k :: CrlfAt(s[1..], k) ==> CrlfAt(s, k + 1);
      match t
      case None => None
      case Some(i) => Some(i + 1)
  }

  lemma FirstCrlfUnique(s: Bytes, i: nat)
    requires IsFirstCrlf(s, i)
    ensures FirstCrlf(s) == Some(i)
  {
    assert CrlfAt(s, i);
  }

  method SeekNewline(s: Bytes) returns (r: Option<nat>)
    ensures r == FirstCrlf(s)
  {
    var pos, last := 0, |s| - 1;
    while pos < last
      invariant 0 <= pos <= |s|
      invariant forall k :: 0 <= k < pos ==> !CrlfAt(s, k)
    {
      while pos < last && s[pos] != CR
        invariant 0 <= pos <= last
        invariant forall k :: 0 <= k < pos ==> !CrlfAt(s, k)
      {
        pos := pos + 1;
      }
      if s[pos] != CR || pos >= last {
        return None;
      }
      if s[pos + 1] == LF {
        FirstCrlfUnique(s, pos);
        return Some(pos);
      }
      pos := pos + 1;
    }
    return None;
  }

  /** The value of the digits of s up to the first CR, after v; None for any other byte. */
  function NumberUpToCr(s: Bytes, v: int): Option<int>
    decreases |s|
  {
    if s == [] then None
    else if s[0] == CR then Some(v)
    else if IsDigit(s[0]) then NumberUpToCr(s[1..], 10 * v + (s[0] - ZERO))
    else None
  }

  /** readLongLong: ambiguously -1 for unexpected input. */
  function LongLong(s: Bytes): int {
    var negative := s != [] && s[0] == MINUS;
    var body := if s != [] && (s[0] == MINUS || s[0] == PLUS) then s[1..] else s;
    match NumberUpToCr(body, 0)
    case None => -1
    case Some(v) => if negative then -v else v
  }

  method ReadLongLong(s: Bytes) returns (r: int)
    requires CR in s
    ensures r == LongLong(s)
  {
    var p, mult, v := 0, 1, 0;
    if s[0] == MINUS {
      mult, p := -1, 1;
    } else if s[0] == PLUS {
      p := 1;
    }
    ghost var body := s[p..];
    assert CR in body by {
      var k :| 0 <= k < |s| && s[k] == CR;
      assert body[k - p] == CR;
    }
    while s[p] != CR
      invariant 0 <= p < |s| && CR in s[p..]
      invariant NumberUpToCr(s[p..], v) == NumberUpToCr(body, 0)
      decreases |s| - p
    {
      assert s[p..][1..] == s[p + 1..] && s[p..][0] == s[p];
      if !IsDigit(s[p]) {
        return -1;
      }
      assert CR in s[p + 1..] by {
        var k :| 0 <= k < |s[p..]| && s[p..][k] == CR;
        assert s[p + 1..][k - 1] == CR;
      }
      v := v * 10 + (s[p] - ZERO);
      p := p + 1;
    }
    return mult * v;
  }

  // ----- one item of a reply, as a function of the unread bytes

  datatype Code = Ok | HalfReply | BadType | OutOfBounds | Timeout | ReadFailed | ReadNull

  /** The reader: argv_, elements_ and the unread bytes. OutOfBounds is no code of the source: the
      item was taken although not all of it is buffered, or with a negative length. */
  datatype Reader = Reader(code: Code, elements: int, argv: Argv, unread: Bytes)

  function LineItem(r: Reader): Reader {
    match FirstCrlf(r.unread)
    case None => r.(code := HalfReply)
    case Some(i) => Reader(Ok, r.elements - 1, r.argv + [r.unread[..i]], r.unread[i + 2..])
  }

  function BulkItem(r: Reader): Reader {
    match FirstCrlf(r.unread)
    case None => r.(code := HalfReply)
    case Some(i) => BulkAt(r, i + 2, LongLong(r.unread))
  }

  /** A bulk string of length n behind a length line of byteLen bytes. */
  function BulkAt(r: Reader, byteLen: nat, n: int): Reader
    requires byteLen <= |r.unread|
  {
    if n == -1 then Reader(Ok, r.elements - 1, r.argv, r.unread[byteLen..])
    else if n + 2 > |r.unread| then r.(code := HalfReply)
    else if n < 0 || byteLen + n + 2 > |r.unread| then r.(code := OutOfBounds)
    else Reader(Ok, r.elements - 1, r.argv + [r.unread[byteLen..byteLen + n]], r.unread[byteLen + n + 2..])
  }

  function ArrayItem(r: Reader): Reader {
    match FirstCrlf(r.unread)
    case None => r.(code := HalfReply)
    case Some(i) => Reader(Ok, LongLong(r.unread), r.argv, r.unread[i + 2..])
  }

  /** GetReplyFromReader. The type byte is consumed even when the item turns out to be incomplete. */
  function Item(r: Reader): (s: Reader)
    ensures r.unread != [] ==> |s.unread| < |r.unread|
  {
    if r.unread == [] then r.(code := HalfReply)
    else
      var tag, q := r.unread[0], r.(unread := r.unread[1..]);
      if tag == MINUS || tag == PLUS || tag == COLON then LineItem(q)
      else if tag == DOLLAR then BulkItem(q)
      else if tag == STAR then ArrayItem(q)
      else q.(code := BadType)
  }

  /** GetReply as far as it gets on the bytes it has: HalfReply when it would read the socket. */
  function Drain(r: Reader): Reader
    decreases |r.unread|
  {
    if r.elements <= 0 then r
    else if r.unread == [] then r.(code := HalfReply)
    else
      var s := Item(r);
      if s.code != Ok then s else Drain(s)
  }

  // ----- a reply, with the reads it takes

  /** What one read of the socket can give. */
  datatype Arrival = Data(bytes: Bytes) | NoData | Broken | Eof

  /** BufferRead: how it ends, the unread bytes, and what is still to arrive. A buffer that is full, or an empty
      arrival, reads as an end of file. */
  function Fill(unread: Bytes, incoming: seq<Arrival>): (r: (Code, Bytes, seq<Arrival>))
    requires |unread| <= IOBUF_LEN
    ensures unread <= r.1 && |r.1| <= IOBUF_LEN
    ensures r.0 == Ok ==> |unread| < |r.1|
    ensures r.0 == Ok ==> |r.2| < |incoming| || (|r.2| == |incoming| && FirstSize(r.2) < FirstSize(incoming))
  {
    if incoming == [] then (Timeout, unread, [])
    else match incoming[0]
      case NoData => (Timeout, unread, incoming[1..])
      case Broken => (ReadFailed, unread, incoming[1..])
      case Eof => (ReadNull, unread, incoming[1..])
      case Data(bytes) =>
        var room := IOBUF_LEN - |unread|;
        if bytes == [] || room == 0 then (ReadNull, unread, incoming)
        else if |bytes| <= room then (Ok, unread + bytes, incoming[1..])
        else (Ok, unread + bytes[..room], [Data(bytes[room..])] + incoming[1..])
  }

  /** What each outcome of the read returns, whatever follows and whatever is unread. */
  lemma ReadOutcomes(unread: Bytes, later: seq<Arrival>, bytes: Bytes)
    requires |unread| <= 16384
    ensures Fill(unread, []) == (Timeout, unread, []) && Fill(unread, [NoData] + later) == (Timeout, unread, later)
    ensures Fill(unread, [Broken] + later) == (ReadFailed, unread, later)
    ensures Fill(unread, [Eof] + later) == (ReadNull, unread, later)
    ensures bytes == [] || |unread| == 16384 ==>
              Fill(unread, [Data(bytes)] + later) == (ReadNull, unread, [Data(bytes)] + later)
    ensures bytes != [] && |unread| + |bytes| <= 16384 ==>
              Fill(unread, [Data(bytes)] + later) == (Ok, unread + bytes, later)
    ensures |unread| < 16384 < |unread| + |bytes| ==>
              var room := 16384 - |unread|;
              Fill(unread, [Data(bytes)] + later) == (Ok, unread + bytes[..room], [Data(bytes[room..])] + later)
  {
    assert forall a: Arrival :: ([a] + later)[1..] == later;
  }

  /** The type bytes: plus, minus and colon start a line, dollar a bulk string, star an array; any other is refused,
      and consumed as well. */
  lemma TypeBytes(elements: int, argv: Argv, b: Byte, s: Bytes)
    ensures var q := Reader(Ok, elements, argv, s);
            Item(q.(unread := [b] + s)) ==
            if b == 43 || b == 45 || b == 58 then LineItem(q)
            else if b == 36 then BulkItem(q)
            else if b == 42 then ArrayItem(q)
            else q.(code := BadType)
    ensures Item(Reader(Ok, elements, argv, [])).code == HalfReply
  {
    hide LineItem, BulkItem, ArrayItem;
    assert ([b] + s)[1..] == s;
  }

  /** A length or count: an optional sign, digits, and a CR; any other byte in front of the CR makes it -1. */
  lemma NumbersExactly(n: nat, b: Byte, x: Bytes)
    ensures LongLong(Decimal(n) + [13] + x) == n && LongLong([43] + Decimal(n) + [13] + x) == n
    ensures LongLong([45] + Decimal(n) + [13] + x) == 0 - n
    ensures b != 13 && !(48 <= b <= 57) ==>
              LongLong(Decimal(n) + [b] + x) == -1 && LongLong([43] + Decimal(n) + [b] + x) == -1
              && LongLong([45] + Decimal(n) + [b] + x) == -1
  {
    hide Decimal;
    DecimalDigits(n);
    DecimalNumberValue(n);
    SignedNumber(n, 13, x);
    if b != 13 && !(48 <= b <= 57) {
      SignedNumber(n, b, x);
    }
  }

  lemma SignedNumber(n: nat, b: Byte, x: Bytes)
    requires !(48 <= b <= 57)
    ensures var v: int := n;
            && LongLong(Decimal(n) + [b] + x) == (if b == 13 then v else -1)
            && LongLong([43] + Decimal(n) + [b] + x) == (if b == 13 then v else -1)
            && LongLong([45] + Decimal(n) + [b] + x) == (if b == 13 then -v else -1)
  {
    hide Decimal;
    var d, t := Decimal(n), [b] + x;
    DecimalDigits(n);
    DecimalNumberValue(n);
    NumberAppend(d, t, 0);
    assert d + [b] + x == d + t && (d + t)[0] == d[0];
    assert [43] + d + [b] + x == [43] + (d + t) && ([43] + (d + t))[1..] == d + t;
    assert [45] + d + [b] + x == [45] + (d + t) && ([45] + (d + t))[1..] == d + t;
    assert IsDigit(d[0]);
    Ends(b, x, NumberValue(d, 0));
  }

  lemma Ends(b: Byte, x: Bytes, v: int)
    requires !(48 <= b <= 57)
    ensures NumberUpToCr([b] + x, v) == if b == 13 then Some(v) else None
  {
  }

  function FirstSize(incoming: seq<Arrival>): nat {
    if incoming != [] && incoming[0].Data? then |incoming[0].bytes| else 0
  }

  /** GetReply: items are taken from the unread bytes; the socket is read when there are none, or when the last
      item was incomplete. */
  function Reply(r: Reader, incoming: seq<Arrival>): (Reader, seq<Arrival>)
    requires (r.code == Ok || r.code == HalfReply) && |r.unread| <= IOBUF_LEN
    decreases |incoming|, FirstSize(incoming), if r.code == HalfReply then 0 else 1, |r.unread|
  {
    if r.elements <= 0 then (r, incoming)
    else if r.unread == [] || r.code == HalfReply then
      var (code, unread, later) := Fill(r.unread, incoming);
      if code != Ok then (r.(code := code, unread := unread), later)
      else
        var s := Item(r.(code := Ok, unread := unread));
        if s.code != Ok && s.code != HalfReply then (s, later) else Reply(s, later)
    else
      var s := Item(r);
      if s.code != Ok && s.code != HalfReply then (s, incoming) else Reply(s, incoming)
  }

  /** A reply that is buffered in full is taken without touching the socket. */
  lemma {:induction false} BufferedReply(r: Reader, incoming: seq<Arrival>)
    requires r.code == Ok && |r.unread| <= IOBUF_LEN && Drain(r).code != HalfReply
    ensures Reply(r, incoming) == (Drain(r), incoming)
    decreases |r.unread|
  {
    hide Item;
    if r.elements > 0 && r.unread != [] && Item(r).code == Ok {
      BufferedReply(Item(r), incoming);
    }
  }

  // ----- the client object

  class Client {
    var argv: Argv
    var rbuf: Bytes
    var rbufPos: int
    var rbufOffset: int
    var elements: int
    /** What the following reads will give; nothing more means they time out. */
    var incoming: seq<Arrival>

    ghost predicate Valid()
      reads this
    {
      |rbuf| == IOBUF_LEN && 0 <= rbufPos && 0 <= rbufOffset && rbufPos + rbufOffset <= IOBUF_LEN
    }

    ghost function Unread(): Bytes
      requires Valid()
      reads this
    {
      rbuf[rbufPos..rbufPos + rbufOffset]
    }

    ghost function Now(code: Code): Reader
      requires Valid()
      reads this
    {
      Reader(code, elements, argv, Unread())
    }

    constructor (arrivals: seq<Arrival>)
      ensures Valid() && Unread() == [] && argv == [] && incoming == arrivals
    {
      argv, elements, incoming := [], 0, arrivals;
      rbuf, rbufPos, rbufOffset := seq(IOBUF_LEN, _ => 0), 0, 0;
    }

    method BufferRead() returns (code: Code)
      requires Valid()
      modifies `rbuf, `rbufPos, `rbufOffset, `incoming
      ensures Valid()
      ensures (code, Unread(), incoming) == Fill(old(Unread()), old(incoming))
    {
      Compact();
      if incoming == [] {
        return Timeout;
      }
      match incoming[0] {
        case NoData => incoming := incoming[1..]; return Timeout;
        case Broken => incoming := incoming[1..]; return ReadFailed;
        case Eof => incoming := incoming[1..]; return ReadNull;
        case Data(bytes) =>
          var room := IOBUF_LEN - rbufOffset;
          var n := if |bytes| < room then |bytes| else room;
          if n == 0 {
            return ReadNull;
          }
          Append(bytes[..n]);
          incoming := if n == |bytes| then incoming[1..] else [Data(bytes[n..])] + incoming[1..];
          assert n == |bytes| ==> bytes[..n] == bytes;
          return Ok;
      }
    }

    /** memmove the unread bytes to the front of the buffer. */
    method Compact()
      requires Valid()
      modifies `rbuf, `rbufPos
      ensures Valid() && rbufPos == 0 && Unread() == old(Unread())
    {
      if rbufPos > 0 {
        ghost var before := Unread();
        if rbufOffset > 0 {
          rbuf := rbuf[rbufPos..rbufPos + rbufOffset] + rbuf[rbufOffset..];
        }
        rbufPos := 0;
        assert Unread() == before;
      }
    }

    /** read behind the unread bytes. */
    method Append(bytes: Bytes)
      requires Valid() && rbufPos == 0 && rbufOffset + |bytes| <= IOBUF_LEN
      modifies `rbuf, `rbufOffset
      ensures Valid() && rbufOffset == old(rbufOffset) + |bytes| && Unread() == old(Unread()) + bytes
    {
      rbuf := rbuf[..rbufOffset] + bytes + rbuf[rbufOffset + |bytes|..];
      rbufOffset := rbufOffset + |bytes|;
    }

    method Advance(n: nat)
      requires Valid() && n <= rbufOffset
      modifies `rbufPos, `rbufOffset
      ensures Valid() && Unread() == old(Unread())[n..]
    {
      rbufPos := rbufPos + n;
      rbufOffset := rbufOffset - n;
    }

    /** Append an element of the reply and skip the bytes it took. */
    method TakeItem(item: Bytes, n: nat)
      requires Valid() && n <= rbufOffset
      modifies `rbufPos, `rbufOffset, `argv, `elements
      ensures Valid() && Unread() == old(Unread())[n..]
      ensures argv == old(argv) + [item] && elements == old(elements) - 1
    {
      argv := argv + [item];
      elements := elements - 1;
      Advance(n);
    }

    /** ReadLine and ProcessLineItem. */
    method ProcessLineItem() returns (code: Code)
      requires Valid()
      modifies `rbufPos, `rbufOffset, `argv, `elements
      ensures Valid() && Now(code) == LineItem(old(Now(Ok)))
    {
      var u := rbuf[rbufPos..rbufPos + rbufOffset];
      var s := SeekNewline(u);
      if s.None? {
        return HalfReply;
      }
      TakeItem(u[..s.value], s.value + 2);
      return Ok;
    }

    method ProcessBulkItem() returns (code: Code)
      requires Valid()
      modifies `rbufPos, `rbufOffset, `argv, `elements
      ensures Valid() && Now(code) == BulkItem(old(Now(Ok)))
    {
      hide FirstCrlf, IsFirstCrlf, CrlfAt, LongLong, BulkAt;
      var u := rbuf[rbufPos..rbufPos + rbufOffset];
      assert u == Unread();
      var s := SeekNewline(u);
      if s.None? {
        return HalfReply;
      }
      assert u[s.value] == CR;
      var len := ReadLongLong(u);
      code := TakeBulk(s.value + 2, len);
    }

    /** The part of ProcessBulkItem behind the length line. */
    method TakeBulk(byteLen: nat, len: int) returns (code: Code)
      requires Valid() && byteLen <= rbufOffset
      modifies `rbufPos, `rbufOffset, `argv, `elements
      ensures Valid() && Now(code) == BulkAt(old(Now(Ok)), byteLen, len)
    {
      if len == -1 {
        elements := elements - 1;
        Advance(byteLen);
        return Ok;
      }
      if len + 2 > rbufOffset {
        return HalfReply;
      }
      if len < 0 || byteLen + len + 2 > rbufOffset {
        return OutOfBounds;
      }
      var u := rbuf[rbufPos..rbufPos + rbufOffset];
      TakeItem(u[byteLen..byteLen + len], byteLen + len + 2);
      return Ok;
    }

    method ProcessMultiBulkItem() returns (code: Code)
      requires Valid()
      modifies `rbufPos, `rbufOffset, `elements
      ensures Valid() && Now(code) == ArrayItem(old(Now(Ok)))
    {
      hide FirstCrlf, IsFirstCrlf, CrlfAt, LongLong;
      var u := rbuf[rbufPos..rbufPos + rbufOffset];
      var s := SeekNewline(u);
      if s.None? {
        return HalfReply;
      }
      assert u[s.value] == CR;
      elements := ReadLongLong(u);
      Advance(s.value + 2);
      return Ok;
    }

    method GetReplyFromReader() returns (code: Code)
      requires Valid()
      modifies `rbufPos, `rbufOffset, `argv, `elements
      ensures Valid() && Now(code) == Item(old(Now(Ok)))
    {
      hide LineItem, BulkItem, ArrayItem;
      if rbufOffset == 0 {
        return HalfReply;
      }
      var tag := rbuf[rbufPos];
      assert Unread()[0] == tag;
      Advance(1);
      if tag == MINUS || tag == PLUS || tag == COLON {
        code := ProcessLineItem();
      } else if tag == DOLLAR {
        code := ProcessBulkItem();
      } else if tag == STAR {
        code := ProcessMultiBulkItem();
      } else {
        code := BadType;
      }
    }

    /** One reply, with the reads it takes. When it is buffered in full, the socket is not touched. */
    method GetReply() returns (code: Code)
      requires Valid()
      modifies this
      ensures Valid()
      ensures (Now(code), incoming) == Reply(old(Reader(Ok, 1, argv, Unread())), old(incoming))
      ensures Drain(old(Reader(Ok, 1, argv, Unread()))).code != HalfReply ==>
                Now(code) == Drain(old(Reader(Ok, 1, argv, Unread()))) && incoming == old(incoming)
    {
      hide Item, Fill, Drain;
      code := Ok;
      elements := 1;
      ghost var goal := Reply(Now(Ok), incoming);
      if Drain(Now(Ok)).code != HalfReply { BufferedReply(Now(Ok), incoming); }
      while elements > 0
        invariant Valid() && (code == Ok || code == HalfReply)
        invariant Reply(Now(code), incoming) == goal
        decreases |incoming|, FirstSize(incoming), if code == HalfReply then 0 else 1, rbufOffset
      {
        if rbufOffset == 0 || code == HalfReply {
          code := BufferRead();
          if code != Ok {
            return;
          }
        }
        ghost var offset := |Unread()|;
        code := GetReplyFromReader();
        assert |Unread()| < offset;
        if code != Ok && code != HalfReply {
          break;
        }
      }
    }

    /** One reply, into an empty argv. */
    method Recv() returns (code: Code)
      requires Valid()
      modifies this
      ensures Valid()
      ensures (Now(code), incoming) == Reply(old(Reader(Ok, 1, [], Unread())), old(incoming))
      ensures var goal := Drain(old(Reader(Ok, 1, [], Unread())));
              goal.code != HalfReply ==> Now(code) == goal && incoming == old(incoming)
    {
      hide Drain, Reply;
      argv := [];
      code := GetReply();
    }
  }

  // ----- the reader undoes the serializer

  lemma {:induction false} NumberAppend(s: Bytes, t: Bytes, v: int)
    requires AllDigits(s)
    ensures NumberUpToCr(s + t, v) == NumberUpToCr(t, NumberValue(s, v))
    decreases |s|
  {
    if s == [] {
      assert s + t == t;
    } else {
      assert (s + t)[1..] == s[1..] + t;
      NumberAppend(s[1..], t, 10 * v + (s[0] - ZERO));
    }
  }

  function NumberValue(s: Bytes, v: int): int
    requires AllDigits(s)
    decreases |s|
  {
    if s == [] then v else NumberValue(s[1..], 10 * v + (s[0] - ZERO))
  }

  lemma {:induction false} NumberValueSnoc(s: Bytes, d: Byte, v: int)
    requires AllDigits(s) && IsDigit(d)
    ensures NumberValue(s + [d], v) == 10 * NumberValue(s, v) + (d - ZERO)
    decreases |s|
  {
    if s == [] {
      assert s + [d] == [d] && [d][1..] == [];
    } else {
      assert (s + [d])[1..] == s[1..] + [d];
      NumberValueSnoc(s[1..], d, 10 * v + (s[0] - ZERO));
    }
  }

  lemma {:induction false} DecimalNumberValue(n: nat)
    ensures AllDigits(Decimal(n)) && NumberValue(Decimal(n), 0) == n
  {
    DecimalDigits(n);
    if n >= 10 {
      DecimalNumberValue(n / 10);
      NumberValueSnoc(Decimal(n / 10), ZERO + n % 10, 0);
    } else {
      assert Decimal(n)[1..] == [];
    }
  }

  /** Reading up to the CR inverts decimal printing. */
  lemma LongLongDecimal(n: nat, x: Bytes)
    ensures LongLong(Decimal(n) + CRLF + x) == n
  {
    var s, t := Decimal(n) + CRLF + x, CRLF + x;
    assert s == Decimal(n) + t;
    DecimalDigits(n);
    DecimalNumberValue(n);
    assert s[0] == Decimal(n)[0] && IsDigit(s[0]);
    NumberAppend(Decimal(n), t, 0);
  }

  /** The CRLF after printed digits is the first. */
  lemma DecimalLine(n: nat, x: Bytes)
    ensures FirstCrlf(Decimal(n) + CRLF + x) == Some(|Decimal(n)|)
    ensures (Decimal(n) + CRLF + x)[|Decimal(n)| + 2..] == x
  {
    var s, d := Decimal(n) + CRLF + x, |Decimal(n)|;
    DecimalDigits(n);
    assert forall k :: 0 <= k < d ==> s[k] == Decimal(n)[k] && IsDigit(s[k]);
    assert CrlfAt(s, d);
    FirstCrlfUnique(s, d);
  }

  /** The parts of a length line, an argument and its CRLF, by position. */
  lemma BulkSlices(digits: Bytes, arg: Bytes, x: Bytes)
    ensures var u, d := digits + CRLF + (arg + CRLF + x), |digits| + 2;
            |u| == d + |arg| + 2 + |x| && u[d..d + |arg|] == arg && u[d + |arg| + 2..] == x
  {
  }

  lemma BulkTaken(r: Reader, arg: Bytes, x: Bytes)
    requires r.unread == Bulk(arg) + x
    ensures Item(r) == Reader(Ok, r.elements - 1, r.argv + [arg], x)
  {
    hide Decimal, LongLong, FirstCrlf, IsFirstCrlf, BulkItem, Bulk, Item, LineItem, ArrayItem;
    var digits, y := Decimal(|arg|), arg + CRLF + x;
    var u := digits + CRLF + y;
    BulkText(arg, x);
    DecimalLine(|arg|, y);
    LongLongDecimal(|arg|, y);
    BulkSlices(digits, arg, x);
    BulkItemTaken(r.(unread := u), |digits|, arg, x);
    BulkDispatch(r, u);
  }

  lemma BulkText(arg: Bytes, x: Bytes)
    ensures Bulk(arg) + x == [DOLLAR] + (Decimal(|arg|) + CRLF + (arg + CRLF + x))
  {
    hide Decimal;
    var digits, head, t := Decimal(|arg|), [DOLLAR] + Decimal(|arg|), arg + CRLF + x;
    Assoc(head + CRLF + arg, CRLF, x);
    Assoc(head + CRLF, arg, CRLF + x);
    Assoc(arg, CRLF, x);
    Assoc(head, CRLF, t);
    Assoc([DOLLAR], digits, CRLF + t);
    Assoc(digits, CRLF, t);
  }

  lemma BulkDispatch(r: Reader, u: Bytes)
    requires r.unread == [DOLLAR] + u
    ensures Item(r) == BulkItem(r.(unread := u))
  {
    hide LineItem, BulkItem, ArrayItem;
    assert r.unread[1..] == u;
  }

  lemma BulkItemTaken(q: Reader, d: nat, arg: Bytes, x: Bytes)
    requires FirstCrlf(q.unread) == Some(d) && LongLong(q.unread) == |arg|
    requires |q.unread| == d + 2 + |arg| + 2 + |x|
    requires q.unread[d + 2..d + 2 + |arg|] == arg && q.unread[d + 2 + |arg| + 2..] == x
    ensures BulkItem(q) == Reader(Ok, q.elements - 1, q.argv + [arg], x)
  {
  }

  lemma {:induction false} BulkListTaken(r: Reader, args: Argv, x: Bytes)
    requires r.code == Ok && r.unread == BulkList(args) + x && r.elements == |args|
    ensures Drain(r) == Reader(Ok, 0, r.argv + args, x)
    decreases |args|
  {
    hide Item, Bulk;
    if args == [] {
      assert r.argv + args == r.argv && BulkList(args) + x == x;
    } else {
      var y := BulkList(args[1..]) + x;
      assert r.unread == Bulk(args[0]) + y;
      BulkTaken(r, args[0], y);
      BulkNotEmpty(args[0]);
      var next := Reader(Ok, r.elements - 1, r.argv + [args[0]], y);
      BulkListTaken(next, args[1..], x);
      assert r.argv + [args[0]] + args[1..] == r.argv + args;
    }
  }

  lemma BulkNotEmpty(arg: Bytes)
    ensures Bulk(arg) != []
  {
  }

  /** The count line of an array sets the number of elements to read. */
  lemma CountItem(argv: Argv, n: nat, y: Bytes)
    ensures Item(Reader(Ok, 1, argv, Line(STAR, n) + y)) == Reader(Ok, n, argv, y)
  {
    hide Decimal, LongLong, FirstCrlf, IsFirstCrlf, LineItem, BulkItem;
    var r := Reader(Ok, 1, argv, Line(STAR, n) + y);
    var u := Decimal(n) + CRLF + y;
    assert r.unread == [STAR] + u && r.unread[1..] == u;
    DecimalLine(n, y);
    LongLongDecimal(n, y);
  }

  lemma CountTaken(argv: Argv, n: nat, y: Bytes)
    ensures Drain(Reader(Ok, 1, argv, Line(STAR, n) + y)) == Drain(Reader(Ok, n, argv, y))
  {
    hide Item, Decimal;
    CountItem(argv, n, y);
  }

  /** A printed command, fully buffered, is one reply: it is returned, and exactly its bytes are
      consumed. */
  lemma CommandTaken(argv: Argv, cmd: Argv, x: Bytes)
    ensures Drain(Reader(Ok, 1, argv, Command(cmd) + x)) == Reader(Ok, 0, argv + cmd, x)
  {
    hide Drain, Line, BulkList;
    var y := BulkList(cmd) + x;
    assert Command(cmd) + x == Line(STAR, |cmd|) + y;
    CountTaken(argv, |cmd|, y);
    BulkListTaken(Reader(Ok, |cmd|, argv, y), cmd, x);
  }

  // ----- replies of every kind

  /** The elements of a reply: status, error and integer lines, bulk strings, and nil. */
  datatype Element =
    | StatusLine(text: Bytes)
    | ErrorLine(text: Bytes)
    | IntegerLine(text: Bytes)
    | BulkString(text: Bytes)
    | Nil

  predicate Printable(e: Element) {
    e.StatusLine? || e.ErrorLine? || e.IntegerLine? ==> CR !in e.text
  }

  function PrintElement(e: Element): Bytes {
    match e
    case StatusLine(t) => [PLUS] + t + CRLF
    case ErrorLine(t) => [MINUS] + t + CRLF
    case IntegerLine(t) => [COLON] + t + CRLF
    case BulkString(t) => Bulk(t)
    case Nil => [DOLLAR, MINUS, ZERO + 1] + CRLF
  }

  function PrintElements(es: seq<Element>): Bytes {
    if es == [] then [] else PrintElement(es[0]) + PrintElements(es[1..])
  }

  /** What the reader keeps of an element: nothing of a nil. */
  function TextOf(e: Element): Argv { if e.Nil? then [] else [e.text] }

  function Kept(es: seq<Element>): Argv {
    if es == [] then [] else TextOf(es[0]) + Kept(es[1..])
  }

  lemma LineTaken(q: Reader, t: Bytes, x: Bytes)
    requires q.unread == t + CRLF + x && CR !in t
    ensures LineItem(q) == Reader(Ok, q.elements - 1, q.argv + [t], x)
  {
    var u := q.unread;
    assert forall k :: 0 <= k < |t| ==> u[k] == t[k];
    assert CrlfAt(u, |t|);
    FirstCrlfUnique(u, |t|);
    assert u[..|t|] == t && u[|t| + 2..] == x;
  }

  lemma NilTaken(q: Reader, x: Bytes)
    requires q.unread == [MINUS, ZERO + 1] + CRLF + x
    ensures BulkItem(q) == Reader(Ok, q.elements - 1, q.argv, x)
  {
    var u, body: Bytes := q.unread, [ZERO + 1] + CRLF + x;
    assert u[1..] == body && body[1..] == CRLF + x;
    assert NumberUpToCr(body, 0) == NumberUpToCr(CRLF + x, 1) == Some(1);
    assert CrlfAt(u, 2);
    FirstCrlfUnique(u, 2);
    assert u[4..] == x;
  }

  /** Each kind of element is taken whole, and exactly its bytes are consumed. */
  lemma ElementTaken(r: Reader, e: Element, x: Bytes)
    requires r.unread == PrintElement(e) + x && Printable(e)
    ensures PrintElement(e) != []
    ensures Item(r) == Reader(Ok, r.elements - 1, r.argv + TextOf(e), x)
  {
    hide Item, Bulk;
    match e
    case BulkString(t) =>
      BulkNotEmpty(t);
      BulkTaken(r, t, x);
    case Nil => NilElement(r, x);
    case StatusLine(t) => LineElement(r, PLUS, t, x);
    case ErrorLine(t) => LineElement(r, MINUS, t, x);
    case IntegerLine(t) => LineElement(r, COLON, t, x);
  }

  lemma LineElement(r: Reader, tag: Byte, t: Bytes, x: Bytes)
    requires tag == PLUS || tag == MINUS || tag == COLON
    requires r.unread == [tag] + t + CRLF + x && CR !in t
    ensures Item(r) == Reader(Ok, r.elements - 1, r.argv + [t], x)
  {
    hide LineItem, BulkItem, ArrayItem;
    var u := r.unread[1..];
    assert u == t + CRLF + x;
    LineTaken(r.(unread := u), t, x);
  }

  lemma NilElement(r: Reader, x: Bytes)
    requires r.unread == [DOLLAR, MINUS, ZERO + 1] + CRLF + x
    ensures Item(r) == Reader(Ok, r.elements - 1, r.argv, x)
  {
    hide LineItem, BulkItem, ArrayItem;
    var u := r.unread[1..];
    assert u == [MINUS, ZERO + 1] + CRLF + x;
    NilTaken(r.(unread := u), x);
  }

  lemma {:induction false} ElementsTaken(r: Reader, es: seq<Element>, x: Bytes)
    requires r.code == Ok && r.unread == PrintElements(es) + x && r.elements == |es|
    requires forall k :: 0 <= k < |es| ==> Printable(es[k])
    ensures Drain(r) == Reader(Ok, 0, r.argv + Kept(es), x)
    decreases |es|
  {
    hide Item, PrintElement, Drain, Printable;
    if es == [] {
      assert r.argv + Kept(es) == r.argv && PrintElements(es) + x == x;
      NothingToDrain(r);
    } else {
      var e, y := es[0], PrintElements(es[1..]) + x;
      assert r.unread == PrintElement(e) + y;
      ElementTaken(r, e, y);
      var next := Reader(Ok, r.elements - 1, r.argv + TextOf(e), y);
      DrainItem(r, next);
      ElementsTaken(next, es[1..], x);
      KeptCons(r.argv, es);
    }
  }

  lemma NothingToDrain(r: Reader)
    requires r.elements <= 0
    ensures Drain(r) == r
  {
  }

  lemma DrainItem(r: Reader, next: Reader)
    requires r.elements > 0 && r.unread != [] && Item(r) == next && next.code == Ok
    ensures Drain(r) == Drain(next)
  {
    hide Item;
  }

  lemma KeptCons(argv: Argv, es: seq<Element>)
    requires es != []
    ensures argv + TextOf(es[0]) + Kept(es[1..]) == argv + Kept(es)
  {
    var first, rest: Argv := TextOf(es[0]), Kept(es[1..]);
    assert Kept(es) == first + rest;
    Assoc(argv, first, rest);
  }

  /** A buffered array of any elements, or a single one, is one reply: its texts are returned in order and
      exactly its bytes are consumed. */
  lemma ReplyTaken(argv: Argv, es: seq<Element>, x: Bytes)
    requires forall k :: 0 <= k < |es| ==> Printable(es[k])
    ensures Drain(Reader(Ok, 1, argv, Line(STAR, |es|) + PrintElements(es) + x)) == Reader(Ok, 0, argv + Kept(es), x)
    ensures |es| == 1 ==> Drain(Reader(Ok, 1, argv, PrintElements(es) + x)) == Reader(Ok, 0, argv + Kept(es), x)
  {
    hide Drain, Line, PrintElements;
    if |es| == 1 {
      ElementsTaken(Reader(Ok, 1, argv, PrintElements(es) + x), es, x);
    }
    var y := PrintElements(es) + x;
    assert Line(STAR, |es|) + PrintElements(es) + x == Line(STAR, |es|) + y;
    CountTaken(argv, |es|, y);
    ElementsTaken(Reader(Ok, |es|, argv, y), es, x);
  }

  /** Replies taken one after the other, each into an empty argv as Recv does. */
  function Replies(unread: Bytes, count: nat): (seq<Argv>, Bytes)
    decreases count
  {
    if count == 0 then ([], unread)
    else
      var r := Drain(Reader(Ok, 1, [], unread));
      var (more, rest) := Replies(r.unread, count - 1);
      ([r.argv] + more, rest)
  }

  lemma FirstOfStream(cmds: seq<Argv>, x: Bytes)
    requires cmds != []
    ensures Stream(cmds) + x == Command(cmds[0]) + (Stream(cmds[1..]) + x)
    ensures Drain(Reader(Ok, 1, [], Stream(cmds) + x)) == Reader(Ok, 0, cmds[0], Stream(cmds[1..]) + x)
  {
    hide Drain, Command;
    var y := Stream(cmds[1..]) + x;
    assert Stream(cmds) + x == Command(cmds[0]) + y by {
      assert Commands(cmds)[1..] == Commands(cmds[1..]);
    }
    CommandTaken([], cmds[0], y);
    var none: Argv := [];
    assert none + cmds[0] == cmds[0];
  }

  /** The second reader agrees with the parser: buffered commands come back as the same list. */
  lemma {:induction false} PrintedRepliesRoundTrip(cmds: seq<Argv>, x: Bytes)
    ensures Replies(Stream(cmds) + x, |cmds|) == (cmds, x)
    decreases |cmds|
  {
    hide Drain, Command;
    if cmds == [] {
      assert Stream(cmds) + x == x;
    } else {
      FirstOfStream(cmds, x);
      PrintedRepliesRoundTrip(cmds[1..], x);
      assert [cmds[0]] + cmds[1..] == cmds;
    }
  }

  /** Recv called once per command on a client that has printed commands buffered: every call succeeds, the
      vectors come back in order, exactly their bytes are consumed and the socket is not read. */
  method ReceivePrinted(c: Client, cmds: seq<Argv>, ghost x: Bytes) returns (codes: seq<Code>, got: seq<Argv>)
    requires c.Valid() && c.Unread() == Stream(cmds) + x
    modifies c
    ensures c.Valid() && c.Unread() == x && c.incoming == old(c.incoming)
    ensures got == cmds && codes == seq(|cmds|, _ => Ok)
  {
    hide Drain, Stream, Command;
    codes, got := [], [];
    for i := 0 to |cmds|
      invariant c.Valid() && c.Unread() == Stream(cmds[i..]) + x && c.incoming == old(c.incoming)
      invariant got == cmds[..i] && codes == seq(i, _ => Ok)
    {
      assert cmds[i..][1..] == cmds[i + 1..];
      var code := ReceiveNext(c, cmds[i..], x);
      codes, got := codes + [code], got + [c.argv];
    }
    StreamEnd(cmds[|cmds|..], x);
  }

  method ReceiveNext(c: Client, ghost cmds: seq<Argv>, ghost x: Bytes) returns (code: Code)
    requires c.Valid() && cmds != [] && c.Unread() == Stream(cmds) + x
    modifies c
    ensures c.Valid() && c.Unread() == Stream(cmds[1..]) + x && c.incoming == old(c.incoming)
    ensures code == Ok && c.argv == cmds[0]
  {
    hide Drain, Stream, Command, Reply;
    FirstOfStream(cmds, x);
    code := c.Recv();
  }

  lemma StreamEnd(cmds: seq<Argv>, x: Bytes)
    requires cmds == []
    ensures Stream(cmds) + x == x
  {
  }

  /** The same from the socket: printed commands that arrive with one read, and fit the buffer, are returned
      by as many calls of Recv. */
  method ReceiveArriving(cmds: seq<Argv>, later: seq<Arrival>) returns (codes: seq<Code>, got: seq<Argv>)
    requires 1 <= |Stream(cmds)| <= IOBUF_LEN
    ensures got == cmds && codes == seq(|cmds|, _ => Ok)
  {
    hide Stream;
    var c := new Client([Data(Stream(cmds))] + later);
    var code := c.BufferRead();
    var none: Bytes := [];
    assert none + Stream(cmds) == Stream(cmds) == Stream(cmds) + none;
    codes, got := ReceivePrinted(c, cmds, none);
  }

  /** Why only buffered replies: the test for a complete bulk string does not count its length line,
      so an item is taken out of bounds exactly when that line, and no more, hides what is missing. */
  lemma BulkOutOfBoundsExactly(r: Reader, n: nat, x: Bytes)
    requires r.unread == Decimal(n) + CRLF + x
    ensures BulkItem(r).code == OutOfBounds <==> |x| < n + 2 <= |r.unread|
  {
    hide Decimal, LongLong, FirstCrlf;
    DecimalLine(n, x);
    LongLongDecimal(n, x);
  }
}
