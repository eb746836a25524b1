/**
 Exactly when the cut of a stream matters to the Redis request parser.

 Cut right behind a bulk length of -1 the parser forgets the line, uncut it throws. Streams of multibulk
 requests are independent of the cut if and only if no such line makes a difference.
 */
module RedisCuts {
  import opened ByteStrings
  import opened RedisRequests
  import opened RedisSerializer
  import SplitArgs

  // ----- what a request consumes does not depend on what follows

  /** A length line is read the same whatever follows it; at the end of the buffer it is remembered. */
  lemma HeaderIsLocal(c: Cmd, y: Bytes) returns (line: Bytes)
    requires BulkHeader(c, y).Go?
    ensures var Go(q, x) := BulkHeader(c, y);
            && y == line + x && (c.bulkLen == -1 ==> line != [] && x != [])
            && (forall z: Bytes :: c.bulkLen != -1 || z != [] ==> BulkHeader(c, line + z) == Go(q, z))
            && (c.bulkLen == -1 ==> BulkHeader(c, line) == Stop(Cached(q, [])))
  {
    if c.bulkLen == -1 {
      hide IndexOf, NextNum;
      var i := IndexOf(y, LF);
      line := y[..i + 1];
      LineIsLocal(y, []);
      assert line + [] == line;
      forall z: Bytes | z != [] ensures BulkHeader(c, line + z) == Go(BulkHeader(c, y).cmd, z) {
        LineIsLocal(y, z);
      }
    } else {
      line := [];
      assert forall z: Bytes :: line + z == z;
    }
  }

  lemma LineIsLocal(y: Bytes, z: Bytes)
    requires IndexOf(y, LF) >= 0
    ensures var i := IndexOf(y, LF); var s := y[..i + 1] + z;
            y == y[..i + 1] + y[i + 1..] && IndexOf(s, LF) == i && NextNum(s, i) == NextNum(y, i)
                && s[i + 1..] == z && s[0] == y[0]
  {
    var i := IndexOf(y, LF);
    var line := y[..i + 1];
    assert y == line + y[i + 1..];
    IndexOfUnique(line, LF, i);
    hide IndexOf, NextNum;
    LineExtend(line, z);
    LineExtend(line, y[i + 1..]);
  }

  /** One bulk string, with its length line, is read the same whatever follows. */
  lemma BulkIsLocal(c: Cmd, y: Bytes) returns (front: Bytes)
    requires c.multibulkLen != 0 && BulkHeader(c, y).Go?
    requires var Go(q, x) := BulkHeader(c, y); 0 <= q.bulkLen && q.bulkLen + 2 <= |x|
    ensures var Go(q, x) := BulkHeader(c, y);
            && front != [] && y == front + x[q.bulkLen + 2..]
            && forall z: Bytes :: Bulks(c, front + z) == Bulks(TakeBulk(q, x), z)
  {
    hide BulkHeader;
    var Go(q, x) := BulkHeader(c, y);
    var line := HeaderIsLocal(c, y);
    var bulk := x[..q.bulkLen + 2];
    front := line + bulk;
    Assoc(line, bulk, x[q.bulkLen + 2..]);
    forall z: Bytes ensures Bulks(c, front + z) == Bulks(TakeBulk(q, x), z) {
      Assoc(line, bulk, z);
      BulkThen(c, front + z, q, x, z);
    }
  }

  lemma BulkThen(c: Cmd, y: Bytes, q: Cmd, x: Bytes, z: Bytes)
    requires c.multibulkLen != 0 && 0 <= q.bulkLen && q.bulkLen + 2 <= |x|
    requires BulkHeader(c, y) == Go(q, x[..q.bulkLen + 2] + z)
    ensures Bulks(c, y) == Bulks(TakeBulk(q, x), z)
  {
    hide BulkHeader;
    var m := q.bulkLen + 2;
    var r := x[..m] + z;
    assert r[..q.bulkLen] == x[..q.bulkLen] && r[m..] == z;
  }

  /** Bulk strings that are complete stay so whatever follows them. */
  lemma {:induction false} BulksAreLocal(c: Cmd, y: Bytes) returns (part: Bytes)
    requires Bulks(c, y).Complete?
    ensures y == part + Bulks(c, y).rest
    ensures forall z: Bytes :: Bulks(c, part + z) == Complete(Bulks(c, y).argv, z)
    decreases |y|
  {
    hide BulkHeader;
    if c.multibulkLen == 0 {
      part := [];
      assert forall z: Bytes :: part + z == z;
    } else {
      var Go(q, x) := BulkHeader(c, y);
      var front := BulkIsLocal(c, y);
      var tail := BulksAreLocal(TakeBulk(q, x), x[q.bulkLen + 2..]);
      part := front + tail;
      Assoc(front, tail, Bulks(c, y).rest);
      forall z: Bytes ensures Bulks(c, part + z) == Complete(Bulks(c, y).argv, z) {
        Assoc(front, tail, z);
      }
    }
  }

  lemma MultibulkIsLocal(c: Cmd, y: Bytes) returns (part: Bytes)
    requires Multibulk(c, y).Complete?
    ensures y == part + Multibulk(c, y).rest && part != []
    ensures forall z: Bytes :: z != [] ==> Multibulk(c, part + z) == Complete(Multibulk(c, y).argv, z)
  {
    hide Bulks;
    if c.multibulkLen != 0 {
      part := BulksAreLocal(c, y);
    } else {
      hide Multibulk;
      var line, q, x := CountIsLocal(c, y);
      var tail := BulksAreLocal(q, x);
      part := line + tail;
      Assoc(line, tail, Bulks(q, x).rest);
      forall z: Bytes | z != [] ensures Multibulk(c, part + z) == Complete(Multibulk(c, y).argv, z) {
        Assoc(line, tail, z);
      }
    }
  }

  /** A count line, followed by anything, starts the bulk strings. */
  lemma CountIsLocal(c: Cmd, y: Bytes) returns (line: Bytes, q: Cmd, x: Bytes)
    requires c.multibulkLen == 0 && (Multibulk(c, y).Complete? || Multibulk(c, y).Thrown?)
    ensures y == line + x && line != [] && x != [] && q.bulkLen == c.bulkLen
    ensures Multibulk(c, y) == Bulks(q, x) && RequestOk(c, y) == LengthsOk(q, x)
    ensures forall z: Bytes :: z != [] ==> Multibulk(c, line + z) == Bulks(q, z)
  {
    hide IndexOf, NextNum, Bulks, LengthsOk;
    var i := IndexOf(y, LF);
    line, q, x := y[..i + 1], c.(multibulkLen := NextNum(y, i).value, argv := []), y[i + 1..];
    LineIsLocal(y, x);
    forall z: Bytes | z != [] ensures Multibulk(c, line + z) == Bulks(q, z) {
      LineIsLocal(y, z);
    }
  }

  // ----- the line that makes a difference

  /** Only a negative length line with bytes behind it throws. Cut right behind it, the request waits with
      the length remembered, and the cut is harmless unless that length is -1 and the rest, read as if the
      line had not been there, goes another way. */
  lemma {:induction false} ThrowingLine(c: Cmd, y: Bytes) returns (a: Bytes, d: Cmd, r: Bytes)
    requires Bulks(c, y) == Thrown && c.bulkLen >= -1
    ensures y == a + r && a != [] && r != [] && d.multibulkLen != 0 && d.bulkLen < 0
    ensures Bulks(c, a) == Cached(d, []) && forall z: Bytes :: z != [] ==> Bulks(c, a + z) == Thrown
    ensures LengthsOk(c, y) <==> d.bulkLen < -1 || (Bulks(d, r) == Thrown && LengthsOk(d, r))
    decreases |y|
  {
    hide BulkHeader;
    var Go(q, x) := BulkHeader(c, y);
    HeaderGoes(c, y);
    if q.bulkLen < 0 {
      a := HeaderIsLocal(c, y);
      d, r := q, x;
    } else {
      var front := BulkIsLocal(c, y);
      var tail;
      tail, d, r := ThrowingLine(TakeBulk(q, x), x[q.bulkLen + 2..]);
      a := front + tail;
      Assoc(front, tail, r);
      forall z: Bytes | z != [] ensures Bulks(c, a + z) == Thrown {
        Assoc(front, tail, z);
      }
    }
  }

  lemma HeaderGoes(c: Cmd, y: Bytes)
    requires BulkHeader(c, y).Go?
    ensures var Go(q, x) := BulkHeader(c, y);
            if c.bulkLen != -1 then q == c && x == y else |x| < |y| && x != []
  {
  }

  lemma ThrowingRequestLine(c: Cmd, y: Bytes) returns (a: Bytes, d: Cmd, r: Bytes)
    requires Multibulk(c, y) == Thrown && c.bulkLen >= -1
    ensures y == a + r && a != [] && r != [] && a[0] == y[0] && d.multibulkLen != 0 && d.bulkLen < 0
    ensures Multibulk(c, a) == Cached(d, []) && forall z: Bytes :: z != [] ==> Multibulk(c, a + z) == Thrown
    ensures RequestOk(c, y) <==> d.bulkLen < -1 || (Multibulk(d, r) == Thrown && RequestOk(d, r))
  {
    hide Multibulk, RequestOk, Bulks, LengthsOk;
    var line, q, x := [], c, y;
    InsideRequest(c, y);
    if c.multibulkLen == 0 {
      line, q, x := CountIsLocal(c, y);
    }
    var tail;
    tail, d, r := ThrowingLine(q, x);
    a := line + tail;
    assert line + (tail + r) == a + r;
    assert (a + r)[0] == a[0];
    assert c.multibulkLen != 0 ==> a == tail;
    InsideRequest(c, tail);
    InsideRequest(d, r);
    forall z: Bytes | z != [] ensures Multibulk(c, a + z) == Thrown {
      Assoc(line, tail, z);
      InsideRequest(c, tail + z);
    }
  }

  lemma InsideRequest(d: Cmd, r: Bytes)
    ensures d.multibulkLen != 0 ==> Multibulk(d, r) == Bulks(d, r) && RequestOk(d, r) == LengthsOk(d, r)
  {
  }

  // ----- the stream

  /** Every request met by one call on the whole stream is a multibulk request. */
  ghost predicate Multibulks(cfg: Settings, kind: Kind, cmd: Cmd, log: Log, buf: Bytes)
    decreases |buf|
  {
    buf == [] ||
    (KindOf(kind, buf) == MultibulkKind &&
     match Multibulk(cmd, buf)
     case Complete(argv, rest) =>
       DealFails(cfg, log, argv) || Multibulks(cfg, Unset, NO_CMD, Deal(cfg, log, argv), rest)
     case _ => true)
  }

  /** The bytes cached are those of a request that is waiting for more. */
  predicate Resumable(cmd: Cmd, half: Bytes) { half != [] ==> Multibulk(cmd, half) == Cached(cmd, half) }

  /** Where a stream that may depend on the cut can be cut: behind the first length of -1, which is not among the
      bytes already cached. One call throws; a call that ends there waits, the line forgotten. */
  lemma {:induction false} ForgottenLine(cfg: Settings, kind: Kind, cmd: Cmd, log: Log, buf: Bytes, half: Bytes)
      returns (a: Bytes, d: Cmd, r: Bytes, l: Log)
    requires Multibulks(cfg, kind, cmd, log, buf) && !Plain(cfg, kind, cmd, log, buf) && Consistent(kind, cmd)
    requires half <= buf && Resumable(cmd, half)
    ensures buf == a + r && half <= a && |half| < |a| && r != [] && d.multibulkLen != 0 && d.bulkLen == -1
    ensures forall n :: Requests(cfg, n, kind, cmd, log, a) == Open(Half, MultibulkKind, d, [], l)
    ensures forall n :: Requests(cfg, n, kind, cmd, log, buf) == Aborted(l)
    ensures Multibulk(d, r) != Thrown || !RequestOk(d, r)
    decreases |buf|
  {
    hide Multibulk, RequestOk, Requests, Deal, DealFails;
    if !RequestOk(cmd, buf) {
      if Multibulk(cmd, buf) != Thrown { NotThrownRequestOk(cmd, buf); }
      if cmd.multibulkLen != 0 && cmd.bulkLen < -1 { NegativeIsOk(cmd, buf); }
      a, d, r := ThrowingRequestLine(cmd, buf);
      l := log;
      assert (a + r)[0] == a[0];
      NotYetCached(cmd, half, a, d);
      assert half == buf[..|half|] && a == buf[..|a|];
      assert |a| <= |half| ==> a <= half;
      LastRequest(cfg, kind, cmd, log, a);
      LastRequest(cfg, kind, cmd, log, buf);
    } else {
      var Complete(argv, rest) := Multibulk(cmd, buf);
      var tail;
      tail, d, r, l := ForgottenLine(cfg, Unset, NO_CMD, Deal(cfg, log, argv), rest, []);
      var front := MultibulkIsLocal(cmd, buf);
      a := front + tail;
      Assoc(front, tail, r);
      assert (a + r)[0] == a[0];
      assert half == buf[..|half|] && front == buf[..|front|];
      assert |front| <= |half| ==> front <= half;
      PrefixRest(front, half);
      OneRequest(cfg, kind, cmd, log, a, argv, tail);
      OneRequest(cfg, kind, cmd, log, buf, argv, rest);
    }
  }

  lemma NotYetCached(c: Cmd, half: Bytes, a: Bytes, d: Cmd)
    requires Resumable(c, half) && a != [] && Multibulk(c, a) == Cached(d, [])
    requires forall z: Bytes :: z != [] ==> Multibulk(c, a + z) == Thrown
    ensures !(a <= half)
  {
    hide Multibulk;
    PrefixRest(a, half);
  }

  lemma PrefixRest(a: Bytes, b: Bytes)
    ensures a <= b ==> a == b || (b[|a|..] != [] && b == a + b[|a|..])
  {
  }

  /** A remembered length of -2 or below throws with the next byte, whatever the cut. */
  lemma NegativeIsOk(c: Cmd, buf: Bytes)
    requires c.multibulkLen != 0 && c.bulkLen < -1
    ensures RequestOk(c, buf)
  {
  }

  lemma LastRequest(cfg: Settings, kind: Kind, cmd: Cmd, log: Log, buf: Bytes)
    requires buf != [] && KindOf(kind, buf) == MultibulkKind
    ensures match Multibulk(cmd, buf)
            case Cached(d, h) =>
              forall n :: Requests(cfg, n, kind, cmd, log, buf) == Open(Half, MultibulkKind, d, h, log)
            case Thrown => forall n :: Requests(cfg, n, kind, cmd, log, buf) == Aborted(log)
            case Malformed => forall n :: Requests(cfg, n, kind, cmd, log, buf) == Failed(ProtoError, log)
            case _ => true
  {
    hide Multibulk;
  }

  lemma OneRequest(cfg: Settings, kind: Kind, cmd: Cmd, log: Log, buf: Bytes, argv: Argv, rest: Bytes)
    requires buf != [] && KindOf(kind, buf) == MultibulkKind && Multibulk(cmd, buf) == Complete(argv, rest)
    requires !DealFails(cfg, log, argv)
    ensures forall n ::
              Requests(cfg, n, kind, cmd, log, buf) == Requests(cfg, n, Unset, NO_CMD, Deal(cfg, log, argv), rest)
  {
    hide Multibulk, Deal, DealFails;
  }

  lemma {:induction false} DealtGrows(cfg: Settings, n: nat, kind: Kind, cmd: Cmd, log: Log, buf: Bytes)
    ensures |log.dealt| <= |Requests(cfg, n, kind, cmd, log, buf).log.dealt|
    decreases |buf|
  {
    hide ScanOne;
    if buf != [] {
      var s := ScanOne(n, KindOf(kind, buf), cmd, buf);
      if s.Complete? && !DealFails(cfg, log, s.argv) {
        DealtGrows(cfg, n, Unset, NO_CMD, Deal(cfg, log, s.argv), s.rest);
      }
    }
  }

  lemma {:induction false} BulksAppend(c: Cmd, buf: Bytes)
    requires Bulks(c, buf).Complete?
    ensures |c.argv| + (if c.multibulkLen == 0 then 0 else 1) <= |Bulks(c, buf).argv|
    decreases |buf|
  {
    hide BulkHeader;
    if c.multibulkLen != 0 {
      var Go(q, r) := BulkHeader(c, buf);
      HeaderGoes(c, buf);
      BulksAppend(TakeBulk(q, r), r[q.bulkLen + 2..]);
    }
  }

  /** A request that does not throw here either waits, is refused, or is dealt. */
  lemma NotAborted(cfg: Settings, n: nat, d: Cmd, l: Log, r: Bytes)
    requires cfg.deal.Some? && d.multibulkLen != 0 && r != [] && Multibulk(d, r) != Thrown
    ensures !Same(Requests(cfg, n, MultibulkKind, d, l, r), Aborted(l))
  {
    if Multibulk(d, r).Complete? {
      var Complete(argv, rest) := Multibulk(d, r);
      BulksAppend(d, r);
      if !DealFails(cfg, l, argv) {
        DealtGrows(cfg, n, Unset, NO_CMD, Deal(cfg, l, argv), rest);
      }
    }
  }

  predicate IsCut(chunks: seq<Bytes>, stream: Bytes) {
    chunks != [] && NonEmptyAll(chunks) && Concat(chunks) == stream
  }

  /** A cut that shows the difference. */
  lemma {:induction false} TellingCut(cfg: Settings, p: Parser, stream: Bytes) returns (chunks: seq<Bytes>)
    requires cfg.deal.Some? && p.Open? && Consistent(p.kind, p.cmd) && Resumable(p.cmd, p.half)
    requires Multibulks(cfg, p.kind, p.cmd, p.log, p.half + stream)
    requires !Plain(cfg, p.kind, p.cmd, p.log, p.half + stream)
    ensures IsCut(chunks, stream) && !Same(FeedAll(cfg, p, chunks), Feed(cfg, p, stream))
    decreases |p.half + stream|
  {
    hide Multibulk, RequestOk, Requests;
    var a, d, r, l := ForgottenLine(cfg, p.kind, p.cmd, p.log, p.half + stream, p.half);
    var q, first := Open(Half, MultibulkKind, d, [], l), a[|p.half|..];
    assert p.half + first == a && q.half + r == r;
    assert stream == (a + r)[|p.half|..] == first + r;
    var more: seq<Bytes>;
    if Multibulk(d, r) != Thrown {
      more := [r];
      assert Concat(more) == r + Concat(more[1..]) == r;
      assert FeedAll(cfg, q, more) == FeedAll(cfg, Feed(cfg, q, r), more[1..]);
      NotAborted(cfg, |r|, d, l, r);
    } else {
      more := TellingCut(cfg, q, r);
      ThrowsAtOnce(cfg, |r|, d, l, r);
    }
    chunks := [first] + more;
    assert chunks[1..] == more;
  }

  lemma ThrowsAtOnce(cfg: Settings, n: nat, d: Cmd, l: Log, r: Bytes)
    requires r != [] && Multibulk(d, r) == Thrown
    ensures Requests(cfg, n, MultibulkKind, d, l, r) == Aborted(l)
  {
  }

  /** A stream of multibulk requests gives the same for every cut into non-empty chunks if and only if no
      length of -1 with bytes behind it, taken away, would lead elsewhere. */
  lemma CutsDoNotMatterExactly(cfg: Settings, p: Parser, stream: Bytes)
    requires cfg.deal.Some? && CompleteSucceeds(cfg)
    requires p.Open? && Consistent(p.kind, p.cmd) && Resumable(p.cmd, p.half)
    requires Multibulks(cfg, p.kind, p.cmd, p.log, p.half + stream)
    ensures Plain(cfg, p.kind, p.cmd, p.log, p.half + stream) <==>
            forall chunks :: IsCut(chunks, stream) ==> Same(FeedAll(cfg, p, chunks), Feed(cfg, p, stream))
  {
    if Plain(cfg, p.kind, p.cmd, p.log, p.half + stream) {
      forall chunks | IsCut(chunks, stream) ensures Same(FeedAll(cfg, p, chunks), Feed(cfg, p, stream)) {
        SegmentationIndependence(cfg, p, chunks);
      }
    } else {
      var chunks := TellingCut(cfg, p, stream);
    }
  }

  // ----- every parser that waits for more is resumable

  lemma {:induction false} CachedBulks(c: Cmd, buf: Bytes)
    requires Bulks(c, buf).Cached?
    ensures var Cached(q, h) := Bulks(c, buf); q.multibulkLen != 0 && (h != [] ==> Bulks(q, h) == Cached(q, h))
    decreases |buf|
  {
    hide IndexOf, NextNum;
    if BulkHeader(c, buf).Go? {
      var Go(q, r) := BulkHeader(c, buf);
      if |r| >= q.bulkLen + 2 {
        CachedBulks(TakeBulk(q, r), r[q.bulkLen + 2..]);
      }
    }
  }

  lemma CachedRequest(c: Cmd, buf: Bytes)
    requires Multibulk(c, buf).Cached? && (c.multibulkLen == 0 ==> c.bulkLen == -1)
    ensures var Cached(q, h) := Multibulk(c, buf); Resumable(q, h) && (q.multibulkLen == 0 ==> q.bulkLen == -1)
  {
    hide IndexOf, NextNum, Bulks;
    if c.multibulkLen != 0 {
      CachedBulks(c, buf);
    } else {
      var i := IndexOf(buf, LF);
      if i >= 0 && buf[i + 1..] != [] {
        CachedBulks(c.(multibulkLen := NextNum(buf, i).value, argv := []), buf[i + 1..]);
      }
    }
  }

  lemma {:induction false} RequestsResumable(cfg: Settings, n: nat, kind: Kind, cmd: Cmd, log: Log, buf: Bytes)
    requires Consistent(kind, cmd)
    ensures var p := Requests(cfg, n, kind, cmd, log, buf);
            p.Open? ==> Consistent(p.kind, p.cmd) && (p.kind == Inline || Resumable(p.cmd, p.half))
    decreases |buf|
  {
    hide Multibulk, InlineLine, Resumable;
    NothingCached(cmd);
    if buf != [] {
      var k := KindOf(kind, buf);
      var s := ScanOne(n, k, cmd, buf);
      match s
      case Complete(argv, rest) =>
        if !DealFails(cfg, log, argv) {
          RequestsResumable(cfg, n, Unset, NO_CMD, Deal(cfg, log, argv), rest);
        }
      case Cached(_, _) =>
        if k == Inline {
          InlineKeepsCmd(n, cmd, buf);
        } else {
          CachedRequest(cmd, buf);
        }
      case _ =>
    }
  }

  lemma NothingCached(cmd: Cmd)
    ensures Resumable(cmd, [])
  {
  }

  lemma InlineKeepsCmd(n: nat, cmd: Cmd, buf: Bytes)
    ensures InlineLine(n, cmd, buf).Cached? ==> InlineLine(n, cmd, buf).cmd == cmd
  {
  }

  /** Whatever chunks a parser has been fed: if it is open, and not inside an inline request, it is resumable. */
  lemma {:induction false} FedIsResumable(cfg: Settings, p: Parser, chunks: seq<Bytes>)
    requires p.Open? ==> Consistent(p.kind, p.cmd) && (p.kind == Inline || Resumable(p.cmd, p.half))
    ensures var q := FeedAll(cfg, p, chunks);
            q.Open? ==> Consistent(q.kind, q.cmd) && (q.kind == Inline || Resumable(q.cmd, q.half))
    decreases |chunks|
  {
    hide Requests, Resumable;
    if chunks != [] {
      if p.Open? {
        RequestsResumable(cfg, |p.half + chunks[0]|, p.kind, p.cmd, p.log, p.half + chunks[0]);
      }
      FedIsResumable(cfg, Feed(cfg, p, chunks[0]), chunks[1..]);
    }
  }

  // ----- concrete streams

  /** A length line with a negative length. */
  function NegativeLine(n: nat): Bytes { [DOLLAR, MINUS] + Decimal(n) + CRLF }

  lemma NegativeNumber(n: nat, x: Bytes)
    requires n > 0
    ensures var buf := NegativeLine(n) + x;
            var i := |NegativeLine(n)| - 1;
            IndexOf(buf, LF) == i && NextNum(buf, i) == Some(0 - n) && buf[i + 1..] == x && buf[0] == DOLLAR
  {
    var buf, i := NegativeLine(n) + x, |NegativeLine(n)| - 1;
    DecimalDigits(n);
    ParseLongNegative(n);
    hide Decimal, ParseLong;
    assert forall k :: 0 <= k < |Decimal(n)| ==> buf[k + 2] == Decimal(n)[k];
    forall k | 0 <= k < i ensures buf[k] != LF {
      if 1 < k < i - 1 {
        assert buf[k] == Decimal(n)[k - 2];
      }
    }
    IndexOfUnique(buf, LF, i);
    assert buf[1..i - 1] == [MINUS] + Decimal(n);
  }

  /** A negative bulk length with bytes behind it throws. Cut right behind it, -2 and below throw with the
      next byte, while -1 leaves the request as it was before the line. */
  lemma NegativeBulk(c: Cmd, n: nat, x: Bytes)
    requires c.multibulkLen != 0 && c.bulkLen == -1 && n > 0
    ensures Bulks(c, NegativeLine(n) + x) == if x == [] then Cached(c.(bulkLen := 0 - n), []) else Thrown
    ensures x != [] && n > 1 ==> Bulks(c.(bulkLen := 0 - n), x) == Thrown
    ensures LengthsOk(c, NegativeLine(n) + x) <==> x == [] || n > 1 || (Bulks(c, x) == Thrown && LengthsOk(c, x))
  {
    hide BulkHeader, NegativeLine;
    NegativeHeader(c, n, x);
    HeaderRemembered(c.(bulkLen := 0 - n), x);
  }

  lemma NegativeHeader(c: Cmd, n: nat, x: Bytes)
    requires c.bulkLen == -1 && n > 0
    ensures var q := c.(bulkLen := 0 - n);
            BulkHeader(c, NegativeLine(n) + x) == if x == [] then Stop(Cached(q, [])) else Go(q, x)
  {
    hide IndexOf, NextNum;
    NegativeNumber(n, x);
  }

  lemma HeaderRemembered(q: Cmd, x: Bytes)
    ensures q.bulkLen != -1 ==> BulkHeader(q, x) == Go(q, x)
  {
  }

  /** "*1 $-1" and then "$0": uncut it throws; cut between the two the empty string is dealt. */
  lemma MinusOneDependsOnTheCut(cfg: Settings)
    requires DealSucceeds(cfg) && CompleteSucceeds(cfg)
    ensures var a := Line(STAR, 1) + NegativeLine(1);
            var b := Bulk([]);
            && Feed(cfg, Fresh(), a + b) == Aborted(Log([], [], []))
            && FeedAll(cfg, Fresh(), [a, b]).Open? && FeedAll(cfg, Fresh(), [a, b]).log.dealt == [[[]]]
            && !Same(FeedAll(cfg, Fresh(), [a, b]), Feed(cfg, Fresh(), a + b))
  {
    var a, b := Line(STAR, 1) + NegativeLine(1), Bulk([]);
    var two, one: seq<Bytes> := [a, b], [b];
    assert two[1..] == one && one[1..] == [];
    var p := Feed(cfg, Fresh(), a);
    assert FeedAll(cfg, Fresh(), two) == FeedAll(cfg, p, one) == Feed(cfg, p, b);
    UncutMinusOne(cfg);
    CutAfterMinusOne(cfg);
  }

  /** "*1 $-1" followed by x. */
  lemma MinusOneRequest(x: Bytes)
    ensures Multibulk(NO_CMD, Line(STAR, 1) + NegativeLine(1) + x)
            == if x == [] then Cached(Cmd(1, -1, []), []) else Thrown
    ensures Line(STAR, 1) + NegativeLine(1) + x != [] && (Line(STAR, 1) + NegativeLine(1) + x)[0] == STAR
  {
    hide Bulks, IndexOf, NextNum, Decimal;
    var r := NegativeLine(1) + x;
    assert Line(STAR, 1) + NegativeLine(1) + x == Line(STAR, 1) + r;
    NumberLine(STAR, 1, r);
    NegativeBulk(Cmd(1, -1, []), 1, x);
  }

  lemma UncutMinusOne(cfg: Settings)
    ensures Feed(cfg, Fresh(), Line(STAR, 1) + NegativeLine(1) + Bulk([])) == Aborted(Log([], [], []))
  {
    hide Multibulk, Line, NegativeLine, Bulk;
    BulkNotNothing();
    MinusOneRequest(Bulk([]));
    var y, none: Bytes := Line(STAR, 1) + NegativeLine(1) + Bulk([]), [];
    assert none + y == y;
  }

  lemma CutAfterMinusOne(cfg: Settings)
    requires DealSucceeds(cfg) && CompleteSucceeds(cfg)
    ensures var p := Feed(cfg, Feed(cfg, Fresh(), Line(STAR, 1) + NegativeLine(1)), Bulk([]));
            p.Open? && p.log.dealt == [[[]]]
  {
    hide Multibulk, Bulks, Line, NegativeLine, Bulk;
    var a, b, none: Bytes, c := Line(STAR, 1) + NegativeLine(1), Bulk([]), [], Cmd(1, -1, []);
    MinusOneRequest(none);
    assert a + none == a == none + a && none + b == b == b + none;
    assert KindOf(Unset, a) == MultibulkKind;
    assert Requests(cfg, |a|, Unset, NO_CMD, Fresh().log, a) == Open(Half, MultibulkKind, c, none, Fresh().log);
    assert Feed(cfg, Fresh(), a) == Open(Half, MultibulkKind, c, none, Fresh().log);
    BulkNotNothing();
    BulkIsRead(c, none, none);
    NothingLeftToRead([none], none);
    assert c.argv + [none] == [none];
    LoneRequest(cfg, c, Fresh().log, b, [none]);
  }

  lemma LoneRequest(cfg: Settings, c: Cmd, log: Log, b: Bytes, argv: Argv)
    requires DealSucceeds(cfg) && CompleteSucceeds(cfg) && b != [] && argv != [] && log.dealt == []
    requires c.multibulkLen != 0 && Bulks(c, b) == Complete(argv, [])
    ensures var p := Requests(cfg, |b|, MultibulkKind, c, log, b);
            p.Open? && p.log.dealt == [argv]
  {
    hide Bulks;
    assert Multibulk(c, b) == Complete(argv, []);
  }

  lemma BulkNotNothing()
    ensures Bulk([]) != []
  {
  }

  /** A cut right behind an empty request: the parser goes on as in a multibulk request. Uncut it starts over. */
  lemma BehindEmptyRequest(cfg: Settings, b: Bytes)
    requires b != []
    ensures var a := Line(STAR, 0);
            && FeedAll(cfg, Fresh(), [a, b]) == Requests(cfg, |b|, MultibulkKind, NO_CMD, Fresh().log, b)
            && Feed(cfg, Fresh(), a + b) == Requests(cfg, |a + b|, Unset, NO_CMD, Fresh().log, b)
  {
    hide Multibulk, IndexOf, NextNum, Decimal;
    var a, none: Bytes := Line(STAR, 0), [];
    var two, one: seq<Bytes> := [a, b], [b];
    assert two[1..] == one && one[1..] == [];
    EmptyRequest(none);
    EmptyRequest(b);
    assert a + none == a == none + a && none + b == b && none + (a + b) == a + b;
    var p := Feed(cfg, Fresh(), a);
    assert p == Open(Half, MultibulkKind, NO_CMD, none, Fresh().log);
    assert FeedAll(cfg, Fresh(), two) == FeedAll(cfg, p, one) == Feed(cfg, p, b);
  }

  /** The line "*0" alone is remembered; followed by anything it is a complete request. */
  lemma EmptyRequest(x: Bytes)
    ensures Multibulk(NO_CMD, Line(STAR, 0) + x) == if x == [] then Cached(NO_CMD, []) else Complete([], x)
  {
    hide IndexOf, NextNum, Decimal;
    NumberLine(STAR, 0, x);
  }

  /** What comes up to the end of the next line, read as a count or as a new request: the same if and only if it
      begins with a star, or is a complete line that is neither a count nor a list of arguments. */
  lemma NextLineExactly(cfg: Settings, n: nat, m: nat, log: Log, b: Bytes)
    requires CompleteSucceeds(cfg) && b != [] && (IndexOf(b, LF) == -1 || IndexOf(b, LF) == |b| - 1)
    ensures Same(Requests(cfg, n, MultibulkKind, NO_CMD, log, b), Requests(cfg, m, Unset, NO_CMD, log, b)) <==>
            b[0] == STAR || (LF in b && NextNum(b, |b| - 1).None? && SplitArgs.ReadArgs(b, []).Failed?)
  {
    hide Requests, IndexOf, NextNum, SplitArgs.ReadArgs;
    assert LF in b <==> IndexOf(b, LF) >= 0;
    LineAsCount(cfg, n, MultibulkKind, log, b);
    if b[0] == STAR {
      LineAsCount(cfg, m, Unset, log, b);
    } else {
      LineAsInline(cfg, m, log, b);
    }
  }

  lemma LineAsCount(cfg: Settings, n: nat, kind: Kind, log: Log, b: Bytes)
    requires b != [] && KindOf(kind, b) == MultibulkKind && (IndexOf(b, LF) == -1 || IndexOf(b, LF) == |b| - 1)
    ensures Requests(cfg, n, kind, NO_CMD, log, b) ==
            if IndexOf(b, LF) == -1 then Open(Half, MultibulkKind, NO_CMD, b, log)
            else match NextNum(b, |b| - 1)
              case None => Failed(ProtoError, log)
              case Some(count) => Open(Half, MultibulkKind, Cmd(count, -1, []), [], log)
  {
    hide Requests, Multibulk, IndexOf, NextNum;
    CountOnly(b);
    LastRequest(cfg, kind, NO_CMD, log, b);
  }

  lemma CountOnly(b: Bytes)
    requires b != [] && (IndexOf(b, LF) == -1 || IndexOf(b, LF) == |b| - 1)
    ensures Multibulk(NO_CMD, b) ==
            if IndexOf(b, LF) == -1 then Cached(NO_CMD, b)
            else match NextNum(b, |b| - 1)
              case None => Malformed
              case Some(count) => Cached(Cmd(count, -1, []), [])
  {
    hide IndexOf, NextNum, Bulks;
    assert IndexOf(b, LF) == |b| - 1 ==> b[|b|..] == [];
  }

  lemma LineAsInline(cfg: Settings, n: nat, log: Log, b: Bytes)
    requires CompleteSucceeds(cfg) && b != [] && b[0] != STAR && (IndexOf(b, LF) == -1 || IndexOf(b, LF) == |b| - 1)
    ensures var p := Requests(cfg, n, Unset, NO_CMD, log, b);
            if IndexOf(b, LF) == -1 then p.Failed? || (p.Open? && p.kind == Inline)
            else if SplitArgs.ReadArgs(b, []).Failed? then p == Failed(ProtoError, log)
            else (p.Open? && p.status == Done) || (p.Failed? && p.log.dealt != log.dealt)
  {
    hide IndexOf, SplitArgs.ReadArgs, Multibulk;
    if IndexOf(b, LF) >= 0 && SplitArgs.ReadArgs(b, []).Args? {
      var argv := SplitArgs.ReadArgs(b, []).argv;
      assert InlineLine(n, NO_CMD, b) == Complete(argv, []);
    }
  }

  lemma AfterEmptyRequestExactly(cfg: Settings, b: Bytes)
    requires CompleteSucceeds(cfg) && b != [] && (IndexOf(b, LF) == -1 || IndexOf(b, LF) == |b| - 1)
    ensures var a := Line(STAR, 0);
            Same(FeedAll(cfg, Fresh(), [a, b]), Feed(cfg, Fresh(), a + b)) <==>
            b[0] == STAR || (LF in b && NextNum(b, |b| - 1).None? && SplitArgs.ReadArgs(b, []).Failed?)
  {
    hide Requests, IndexOf, NextNum, SplitArgs.ReadArgs, Line;
    BehindEmptyRequest(cfg, b);
    NextLineExactly(cfg, |b|, |Line(STAR, 0) + b|, Fresh().log, b);
  }

  /** "*0" and then "$1": cut between the two, "$1" is read as a count; uncut, as an inline command. */
  lemma EmptyRequestThenInlineDependsOnTheCut(cfg: Settings)
    requires CompleteSucceeds(cfg)
    ensures var a: Bytes := Line(STAR, 0);
            var b: Bytes := Line(DOLLAR, 1);
            !Same(FeedAll(cfg, Fresh(), [a, b]), Feed(cfg, Fresh(), a + b))
  {
    hide Requests, IndexOf, NextNum, SplitArgs.ReadArgs, Decimal;
    var b, none: Bytes := Line(DOLLAR, 1), [];
    assert b + none == b;
    NumberLine(DOLLAR, 1, none);
    AfterEmptyRequestExactly(cfg, b);
  }
}
