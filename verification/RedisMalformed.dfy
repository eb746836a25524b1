/** What the Redis request parser makes of multibulk requests byte by byte, malformed ones included, and of handlers
    that fail. */
module RedisMalformed {
  import opened ByteStrings
  import opened RedisRequests
  import opened RedisSerializer

  const NOTHING: Log := Log([], [], [])

  /** Refused as malformed, with nothing dealt. */
  predicate IsRefused(p: Parser) { p == Failed(ProtoError, NOTHING) }

  // ----- malformed multibulk requests, whatever follows

  /** A length line that does not begin with a dollar sign: refused once it is complete, whatever follows. */
  lemma NoDollar(cfg: Settings, n: nat, line: Bytes, y: Bytes)
    requires n > 0 && line != [] && line[0] != 36 && 10 !in line
    ensures IsRefused(Feed(cfg, Fresh(), Line(STAR, n) + (line + [LF] + y)))
  {
    hide Requests, IndexOf, NextNum, Line;
    var none: Bytes, x := [], line + [LF] + y;
    var buf := Line(STAR, n) + x;
    assert none + buf == buf;
    NumberLine(STAR, n, x);
    FirstLine(line, y);
    BadHeaderStops(Cmd(n, -1, []), x);
    CountedBulks(n, buf, x);
    Refused(cfg, buf);
  }

  lemma BadHeaderStops(c: Cmd, x: Bytes)
    requires c.multibulkLen != 0 && c.bulkLen == -1 && x != [] && IndexOf(x, LF) >= 0
    requires x[0] != 36 || NextNum(x, IndexOf(x, LF)).None?
    ensures Bulks(c, x) == Malformed
  {
    hide IndexOf, NextNum;
    assert BulkHeader(c, x) == Stop(Malformed);
  }

  lemma CountedBulks(n: nat, buf: Bytes, x: Bytes)
    requires IndexOf(buf, LF) >= 0 && NextNum(buf, IndexOf(buf, LF)) == Some(n)
    requires buf[IndexOf(buf, LF) + 1..] == x && x != []
    ensures Multibulk(NO_CMD, buf) == Bulks(Cmd(n, -1, []), x)
  {
    hide IndexOf, NextNum, Bulks;
  }

  lemma FirstLine(line: Bytes, y: Bytes)
    requires 10 !in line
    ensures var x := line + [LF] + y;
            IndexOf(x, LF) == |line| && x[|line| + 1..] == y && (line != [] ==> x[0] == line[0])
  {
    var x := line + [LF] + y;
    assert forall k :: 0 <= k < |line| ==> x[k] == line[k] && x[k] in line;
    IndexOfUnique(x, LF, |line|);
  }

  lemma Refused(cfg: Settings, buf: Bytes)
    requires buf != [] && buf[0] == STAR && Multibulk(NO_CMD, buf) == Malformed
    ensures IsRefused(Requests(cfg, |buf|, Unset, NO_CMD, NOTHING, buf))
  {
    hide Multibulk;
  }

  predicate IsNumeral(text: Bytes, n: int) { text == if n < 0 then [45] + Decimal(0 - n) else Decimal(n) }

  /** A count or a length that is not a number in its strict form: refused, whatever follows. */
  lemma NotANumber(cfg: Settings, text: Bytes, y: Bytes)
    requires 10 !in text && forall n: int :: !IsNumeral(text, n)
    ensures IsRefused(Feed(cfg, Fresh(), [STAR] + text + CRLF + y))
    ensures forall k: nat :: k > 0 ==>
              IsRefused(Feed(cfg, Fresh(), Line(STAR, k) + ([DOLLAR] + text + CRLF + y)))
  {
    hide Requests, Line, ParseLong, Decimal;
    var none: Bytes := [];
    LongIsNumeral(text);
    TextLine(STAR, text, y);
    TextLine(DOLLAR, text, y);
    var buf := [STAR] + text + CRLF + y;
    assert none + buf == buf;
    Refused(cfg, buf);
    forall k: nat | k > 0
      ensures IsRefused(Feed(cfg, Fresh(), Line(STAR, k) + ([DOLLAR] + text + CRLF + y)))
    {
      BadLength(cfg, k, text, y);
    }
  }

  lemma LongIsNumeral(text: Bytes)
    ensures ParseLong(text).Some? ==> IsNumeral(text, ParseLong(text).value)
  {
    hide ParseLong, Decimal;
    if ParseLong(text).Some? {
      ParseLongExactly(text, ParseLong(text).value);
    }
  }

  lemma TextLine(tag: Byte, text: Bytes, y: Bytes)
    requires 10 !in text && tag != LF
    ensures var x := [tag] + text + CRLF + y;
            var i := |text| + 2;
            IndexOf(x, LF) == i && NextNum(x, i) == ParseLong(text) && x[i + 1..] == y && x[0] == tag
  {
    hide ParseLong;
    var x, line := [tag] + text + CRLF + y, [tag] + text + [CR];
    assert x == line + [LF] + y;
    assert 10 !in line;
    FirstLine(line, y);
    assert x[1..|text| + 1] == text;
  }

  lemma BadLength(cfg: Settings, k: nat, text: Bytes, y: Bytes)
    requires 10 !in text && ParseLong(text) == None && k > 0
    ensures IsRefused(Feed(cfg, Fresh(), Line(STAR, k) + ([DOLLAR] + text + CRLF + y)))
  {
    hide Requests, Line, ParseLong, IndexOf, NextNum;
    var none: Bytes, x := [], [DOLLAR] + text + CRLF + y;
    var buf := Line(STAR, k) + x;
    assert none + buf == buf;
    TextLine(DOLLAR, text, y);
    NumberLine(STAR, k, x);
    BadHeaderStops(Cmd(k, -1, []), x);
    CountedBulks(k, buf, x);
    Refused(cfg, buf);
  }

  // ----- handlers that fail

  /** DealMessage refuses the first command: nothing behind it is read, Complete is not called. */
  lemma DealFailure(cfg: Settings, cmd: Argv, x: Bytes)
    requires cfg.deal.Some? && cmd != [] && cfg.deal.value([cmd]) != 0
    ensures Feed(cfg, Fresh(), Command(cmd) + x) == Failed(DealError, Log([cmd], [cmd], []))
  {
    hide Multibulk, Command;
    var none: Bytes, buf := [], Command(cmd) + x;
    assert none + buf == buf;
    CommandIsRead(cmd, x);
    var argvs: seq<Argv> := [];
    assert argvs + [cmd] == [cmd] && buf[0] == STAR;
    assert Requests(cfg, |buf|, Unset, NO_CMD, NOTHING, buf) == Failed(DealError, Log([cmd], [cmd], []));
  }

  /** Complete refuses the batch of one command, whose name it was given in lower case. */
  lemma CompleteFailure(cfg: Settings, cmd: Argv)
    requires DealSucceeds(cfg) && cfg.complete.Some? && cmd != [] && forall h :: cfg.complete.value(h) != 0
    ensures var p := Feed(cfg, Fresh(), Command(cmd));
            && p.Failed? && p.error == CompleteError && p.log.dealt == [cmd] && p.log.argvs == []
            && |p.log.completed| == 1 && NamesLowered([cmd], p.log.completed[0])
  {
    hide Multibulk, Command, NameLowered;
    var none: Bytes, buf := [], Command(cmd);
    assert none + buf == buf && buf + none == buf;
    CommandIsRead(cmd, none);
    LowerNamesLower([cmd]);
    assert Requests(cfg, |buf|, Unset, NO_CMD, NOTHING, buf) == Finish(cfg, Unset, NO_CMD, Log([cmd], [cmd], []));
  }

  /** After any refusal, a further call reports an initialisation error and touches nothing. */
  lemma RefusedStaysRefused(cfg: Settings, e: Error, log: Log, chunk: Bytes)
    ensures Feed(cfg, Failed(e, log), chunk) == Failed(InitError, log)
  {
  }

  /** At the end of a buffer everything dealt has been handed to Complete, with names in lower case. */
  lemma {:induction false} DoneHandsOver(cfg: Settings, chunks: seq<Bytes>)
    requires cfg.deal.Some? && cfg.complete.Some?
    ensures var p := FeedAll(cfg, Fresh(), chunks);
            p.Open? && p.status == Done ==> NamesLowered(p.log.dealt, Concat(p.log.completed))
  {
    hide Requests, NameLowered;
    CommandsAreConserved(cfg, Fresh(), chunks);
    DoneIsEmpty(cfg, Fresh(), chunks);
    var p := FeedAll(cfg, Fresh(), chunks);
    assert p.log.dealt[..|p.log.dealt|] == p.log.dealt;
  }

  predicate EmptyWhenDone(p: Parser) { p.Open? && p.status == Done ==> p.log.argvs == [] }

  lemma {:induction false} DoneIsEmpty(cfg: Settings, p: Parser, chunks: seq<Bytes>)
    requires EmptyWhenDone(p)
    ensures EmptyWhenDone(FeedAll(cfg, p, chunks))
    decreases |chunks|
  {
    hide Requests;
    if chunks != [] {
      if p.Open? { RequestsDone(cfg, |p.half + chunks[0]|, p.kind, p.cmd, p.log, p.half + chunks[0]); }
      DoneIsEmpty(cfg, Feed(cfg, p, chunks[0]), chunks[1..]);
    }
  }

  lemma {:induction false} RequestsDone(cfg: Settings, n: nat, kind: Kind, cmd: Cmd, log: Log, buf: Bytes)
    ensures EmptyWhenDone(Requests(cfg, n, kind, cmd, log, buf))
    decreases |buf|
  {
    hide ScanOne, Deal, DealFails;
    if buf != [] {
      var s := ScanOne(n, KindOf(kind, buf), cmd, buf);
      if s.Complete? && !DealFails(cfg, log, s.argv) {
        RequestsDone(cfg, n, Unset, NO_CMD, Deal(cfg, log, s.argv), s.rest);
      }
    }
  }

  // ----- what the parser does not look at

  /** The byte before a line feed is skipped, whatever it is; a line of one byte holds no number. */
  lemma AnyByteBeforeLineFeed(cfg: Settings, n: nat, c: Byte)
    requires c != 10
    ensures Feed(cfg, Fresh(), [STAR] + Decimal(n) + [c, 10]) == Open(Half, MultibulkKind, Cmd(n, -1, []), [], NOTHING)
    ensures IsRefused(Feed(cfg, Fresh(), [STAR, 10]))
  {
    hide Requests, ParseLong, Decimal, Bulks;
    var none: Bytes, buf, line := [], [STAR] + Decimal(n) + [c, 10], [STAR] + Decimal(n) + [c];
    assert none + buf == buf && buf == line + [LF] + none;
    DecimalDigits(n);
    ParseLongDecimal(n);
    assert 10 !in Decimal(n) by {
      assert forall k :: 0 <= k < |Decimal(n)| ==> IsDigit(Decimal(n)[k]);
    }
    FirstLine(line, none);
    assert buf[1..|line| - 1] == Decimal(n);
    Waiting(cfg, buf, n);
    var two: Bytes := [STAR, 10];
    assert none + two == two && two == [STAR] + [LF] + none;
    FirstLine([STAR], none);
    Refused(cfg, two);
  }

  lemma Waiting(cfg: Settings, buf: Bytes, n: nat)
    requires buf != [] && buf[0] == STAR && IndexOf(buf, LF) == |buf| - 1 && NextNum(buf, |buf| - 1) == Some(n)
    ensures Requests(cfg, |buf|, Unset, NO_CMD, NOTHING, buf) == Open(Half, MultibulkKind, Cmd(n, -1, []), [], NOTHING)
  {
    hide IndexOf, NextNum, Bulks;
    assert buf[|buf|..] == [];
    assert Multibulk(NO_CMD, buf) == Cached(Cmd(n, -1, []), []);
  }

  /** The two bytes behind a bulk string are skipped, whatever they are. */
  lemma AnyTwoBytesBehindBulk(cfg: Settings, arg: Bytes, c: Byte, d: Byte)
    requires DealSucceeds(cfg) && CompleteSucceeds(cfg)
    ensures var p := Feed(cfg, Fresh(), Line(STAR, 1) + (Line(DOLLAR, |arg|) + (arg + [c, d])));
            p.Open? && p.status == Done && p.half == [] && p.log.dealt == [[arg]]
  {
    hide Requests, Decimal, IndexOf, NextNum, Bulks;
    var none: Bytes, r := [], arg + [c, d];
    var x := Line(DOLLAR, |arg|) + r;
    var buf := Line(STAR, 1) + x;
    assert none + buf == buf;
    assert |x| >= |r| >= 2;
    NumberLine(STAR, 1, x);
    CountedBulks(1, buf, x);
    LengthIsRead(Cmd(1, -1, []), |arg|, r);
    OneBulk(arg, c, d, x);
    OneCommand(cfg, buf, [arg]);
  }

  lemma OneBulk(arg: Bytes, c: Byte, d: Byte, x: Bytes)
    requires BulkHeader(Cmd(1, -1, []), x) == Go(Cmd(1, |arg|, []), arg + [c, d])
    ensures Bulks(Cmd(1, -1, []), x) == Complete([arg], [])
  {
    hide BulkHeader;
    var q, r := Cmd(1, |arg|, []), arg + [c, d];
    assert r[..|arg|] == arg && r[|arg| + 2..] == [];
    var none: Argv := [];
    assert none + [arg] == [arg];
    assert TakeBulk(q, r) == Cmd(0, -1, [arg]);
    NothingLeftToRead([arg], []);
  }

  lemma OneCommand(cfg: Settings, buf: Bytes, argv: Argv)
    requires DealSucceeds(cfg) && CompleteSucceeds(cfg) && argv != []
    requires buf != [] && buf[0] == STAR && Multibulk(NO_CMD, buf) == Complete(argv, [])
    ensures var p := Requests(cfg, |buf|, Unset, NO_CMD, NOTHING, buf);
            p.Open? && p.status == Done && p.half == [] && p.log.dealt == [argv]
  {
    hide Multibulk;
  }
}
