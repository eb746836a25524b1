/**
 The Redis request parser as a function of the bytes it is given.

 The parser is resumable: whatever it could not finish is cached and put in front of
 the next chunk. The main theorem is that how the socket cuts the stream does not
 matter, for well-formed and for malformed streams alike.
 */
module RedisRequests {
  import opened ByteStrings
  import SplitArgs

  const INLINE_MAXLEN: nat := 65536

  type Argv = seq<Bytes>

  // ----- one multibulk request

  /** The state inside a request: multibulk_len_, bulk_len_ and argv_. */
  datatype Cmd = Cmd(multibulkLen: int, bulkLen: int, argv: Argv)

  const NO_CMD: Cmd := Cmd(0, -1, [])

  /** How a request ends: complete, cached until more bytes come, refused as malformed or as too
      long, or by an exception (std::string built with a negative length). */
  datatype Scan =
    | Complete(argv: Argv, rest: Bytes)
    | Cached(cmd: Cmd, half: Bytes)
    | Malformed
    | TooLong
    | Thrown

  datatype Header = Go(cmd: Cmd, rest: Bytes) | Stop(scan: Scan)

  /** The number between the type byte and the byte before the line feed at i. */
  function NextNum(buf: Bytes, i: nat): Option<int>
    requires i < |buf|
  {
    if i < 2 then None else ParseLong(buf[1..i - 1])
  }

  function BulkHeader(c: Cmd, buf: Bytes): (h: Header)
    ensures h.Go? ==> |h.rest| <= |buf| && h.cmd.multibulkLen == c.multibulkLen && h.cmd.argv == c.argv
    ensures h.Stop? ==> h.scan.Cached? || h.scan.Malformed?
    ensures h.Go? && c.bulkLen == -1 ==> |h.rest| < |buf|
  {
    if c.bulkLen != -1 then Go(c, buf)
    else
      var i := IndexOf(buf, LF);
      if i < 0 then Stop(Cached(c, buf))
      else if buf[0] != DOLLAR then Stop(Malformed)
      else match NextNum(buf, i)
        case None => Stop(Malformed)
        case Some(n) =>
          if buf[i + 1..] == [] then Stop(Cached(c.(bulkLen := n), []))
          else Go(c.(bulkLen := n), buf[i + 1..])
  }

  function TakeBulk(c: Cmd, buf: Bytes): Cmd
    requires 0 <= c.bulkLen && c.bulkLen + 2 <= |buf|
  {
    Cmd(c.multibulkLen - 1, -1, c.argv + [buf[..c.bulkLen]])
  }

  /** The loop over the bulk strings of a request. */
  function Bulks(c: Cmd, buf: Bytes): (s: Scan)
    ensures s.Complete? ==> |s.rest| <= |buf| && (c.multibulkLen != 0 ==> |s.rest| < |buf|)
    ensures !s.TooLong?
    decreases |buf|
  {
    if c.multibulkLen == 0 then Complete(c.argv, buf)
    else match BulkHeader(c, buf)
      case Stop(s) => s
      case Go(q, r) =>
        if |r| < q.bulkLen + 2 then Cached(q, r)
        else if q.bulkLen < 0 then Thrown
        else Bulks(TakeBulk(q, r), r[q.bulkLen + 2..])
  }

  function Multibulk(c: Cmd, buf: Bytes): (s: Scan)
    ensures s.Complete? ==> |s.rest| < |buf|
    ensures !s.TooLong?
  {
    if c.multibulkLen != 0 then Bulks(c, buf)
    else
      var i := IndexOf(buf, LF);
      if i < 0 then Cached(c, buf)
      else match NextNum(buf, i)
        case None => Malformed
        case Some(n) =>
          var q := c.(multibulkLen := n, argv := []);
          if buf[i + 1..] == [] then Cached(q, []) else Bulks(q, buf[i + 1..])
  }

  /** An inline request. As in the source, the splitter sees the rest of the buffer rather than one
      line, and the limit is compared with total, the length of the whole buffer. */
  function InlineLine(total: nat, c: Cmd, buf: Bytes): (s: Scan)
    ensures s.Complete? ==> |s.rest| < |buf|
  {
    var i := IndexOf(buf, LF);
    if i < 0 then (if total > INLINE_MAXLEN then TooLong else Cached(c, buf))
    else match SplitArgs.ReadArgs(buf, [])
      case Failed => Malformed
      case Args(argv) => Complete(argv, buf[i + 1..])
  }

  // ----- the parser

  datatype Status = InitDone | Half | Done
  datatype Error = InitError | FullError | ProtoError | DealError | CompleteError
  datatype Kind = Unset | Inline | MultibulkKind

  /** What has left the parser: argvs_ waits for Complete, dealt is the sequence of DealMessage
      calls, completed that of Complete calls. */
  datatype Log = Log(argvs: seq<Argv>, dealt: seq<Argv>, completed: seq<seq<Argv>>)

  /** The parser between two calls of ProcessInputBuffer. */
  datatype Parser =
    | Open(status: Status, kind: Kind, cmd: Cmd, half: Bytes, log: Log)
    | Failed(error: Error, log: Log)
    | Aborted(log: Log)

  /** The callbacks; each sees all its calls so far, the last one being the current. */
  datatype Settings = Settings(deal: Option<seq<Argv> -> int>, complete: Option<seq<seq<Argv>> -> int>)

  function Fresh(): Parser { Open(InitDone, Unset, NO_CMD, [], Log([], [], [])) }

  function LowerName(argv: Argv): Argv { if argv == [] then [] else [Lower(argv[0])] + argv[1..] }

  function LowerNames(argvs: seq<Argv>): (r: seq<Argv>)
    ensures |r| == |argvs|
  {
    if argvs == [] then [] else [LowerName(argvs[0])] + LowerNames(argvs[1..])
  }

  /** Push a parsed command and show it to DealMessage. */
  function Deal(cfg: Settings, log: Log, argv: Argv): Log {
    if argv == [] then log
    else log.(argvs := log.argvs + [argv], dealt := if cfg.deal.Some? then log.dealt + [argv] else log.dealt)
  }

  predicate DealFails(cfg: Settings, log: Log, argv: Argv) {
    argv != [] && cfg.deal.Some? && cfg.deal.value(log.dealt + [argv]) != 0
  }

  /** The end of the buffer at a command boundary. */
  function Finish(cfg: Settings, kind: Kind, cmd: Cmd, log: Log): Parser {
    if cfg.complete.None? then Open(Done, kind, cmd, [], log.(argvs := []))
    else
      var after := log.(argvs := [], completed := log.completed + [LowerNames(log.argvs)]);
      if cfg.complete.value(after.completed) != 0 then Failed(CompleteError, after)
      else Open(Done, kind, cmd, [], after)
  }

  function KindOf(kind: Kind, buf: Bytes): Kind
    requires buf != []
  {
    if kind != Unset then kind else if buf[0] == STAR then MultibulkKind else Inline
  }

  function ScanOne(total: nat, kind: Kind, cmd: Cmd, buf: Bytes): (s: Scan)
    ensures s.Complete? ==> |s.rest| < |buf|
  {
    if kind == Inline then InlineLine(total, cmd, buf) else Multibulk(cmd, buf)
  }

  /** The loop over the requests of a buffer of length total, of which buf is left. */
  function Requests(cfg: Settings, total: nat, kind: Kind, cmd: Cmd, log: Log, buf: Bytes): Parser
    decreases |buf|
  {
    if buf == [] then Finish(cfg, kind, cmd, log)
    else
      var k := KindOf(kind, buf);
      match ScanOne(total, k, cmd, buf)
      case Cached(c, h) => Open(Half, k, c, h, log)
      case Malformed => Failed(ProtoError, log)
      case TooLong => Failed(FullError, log)
      case Thrown => Aborted(log)
      case Complete(argv, rest) =>
        if DealFails(cfg, log, argv) then Failed(DealError, Deal(cfg, log, argv))
        else Requests(cfg, total, Unset, NO_CMD, Deal(cfg, log, argv), rest)
  }

  /** ProcessInputBuffer. */
  function Feed(cfg: Settings, p: Parser, chunk: Bytes): Parser {
    match p
    case Open(_, kind, cmd, half, log) => Requests(cfg, |half + chunk|, kind, cmd, log, half + chunk)
    case Failed(_, log) => Failed(InitError, log)
    case Aborted(_) => p
  }

  function FeedAll(cfg: Settings, p: Parser, chunks: seq<Bytes>): Parser
    decreases |chunks|
  {
    if chunks == [] then p else FeedAll(cfg, Feed(cfg, p, chunks[0]), chunks[1..])
  }

  // ----- segmentation independence: one request

  /** The bulk strings of a request do not depend on the cut. The only line a cut can hide is a length of
      -1, because bulk_len_ == -1 also means that no length has been read: cut right after it, the line is
      forgotten; uncut, it throws. So past every such line the request has to throw all the same. */
  predicate LengthsOk(c: Cmd, buf: Bytes)
    decreases |buf|
  {
    c.multibulkLen == 0 ||
    match BulkHeader(c, buf)
    case Stop(_) => true
    case Go(q, r) =>
      |r| < q.bulkLen + 2 || q.bulkLen < -1 ||
      (if q.bulkLen == -1 then Bulks(q, r) == Thrown && LengthsOk(q, r)
       else LengthsOk(TakeBulk(q, r), r[q.bulkLen + 2..]))
  }

  predicate RequestOk(c: Cmd, buf: Bytes) {
    if c.multibulkLen != 0 then LengthsOk(c, buf)
    else
      var i := IndexOf(buf, LF);
      i < 0 || NextNum(buf, i).None? || LengthsOk(c.(multibulkLen := NextNum(buf, i).value, argv := []), buf[i + 1..])
  }

  lemma HeaderExtend(c: Cmd, a: Bytes, b: Bytes)
    requires b != []
    ensures match BulkHeader(c, a)
            case Go(q, r) => BulkHeader(c, a + b) == Go(q, r + b)
            case Stop(Malformed) => BulkHeader(c, a + b) == Stop(Malformed)
            case Stop(Cached(q, h)) => (q == c && h == a) || (h == [] && BulkHeader(c, a + b) == Go(q, b))
            case Stop(_) => true
  {
    if c.bulkLen == -1 {
      LineExtend(a, b);
    }
  }

  /** A complete line stays what it is when more bytes follow. */
  lemma LineExtend(a: Bytes, b: Bytes)
    ensures var i := IndexOf(a, LF);
            i >= 0 ==> IndexOf(a + b, LF) == i && NextNum(a + b, i) == NextNum(a, i)
                       && (a + b)[i + 1..] == a[i + 1..] + b && (a + b)[0] == a[0]
  {
    var i := IndexOf(a, LF);
    if i >= 0 {
      IndexOfExtend(a, b, LF);
      if i >= 2 {
        assert (a + b)[1..i - 1] == a[1..i - 1];
      }
    }
  }

  /** Cutting the buffer inside the bulk strings of a request: what is decided stays decided, and
      what is cached resumes where it stopped. */
  lemma {:induction false} BulksExtend(c: Cmd, a: Bytes, b: Bytes)
    requires b != [] && LengthsOk(c, a + b)
    ensures match Bulks(c, a)
            case Complete(argv, rest) => Bulks(c, a + b) == Complete(argv, rest + b)
            case Malformed => Bulks(c, a + b) == Malformed
            case Cached(q, h) => c.multibulkLen != 0 && q.multibulkLen != 0 && Bulks(c, a + b) == Bulks(q, h + b)
                && LengthsOk(q, h + b)
            case Thrown => Bulks(c, a + b) == Thrown
            case TooLong => false
    decreases |a|
  {
    hide IndexOf, NextNum;
    if c.multibulkLen == 0 { return; }
    HeaderExtend(c, a, b);
    match BulkHeader(c, a)
    case Stop(Malformed) =>
    case Stop(Cached(q, h)) =>
      assert [] + b == b;
      if h == [] && a != [] {
        AfterHeader(c, a + b, q, b);
      }
    case Go(q, r) =>
      AfterHeader(c, a + b, q, r + b);
      if |r| >= q.bulkLen + 2 && q.bulkLen >= 0 {
        BulkExtend(q, r, b);
        BulksExtend(TakeBulk(q, r), r[q.bulkLen + 2..], b);
      }
  }

  /** Once the length line is consumed, the request goes on with the length remembered. */
  lemma AfterHeader(c: Cmd, y: Bytes, q: Cmd, x: Bytes)
    requires c.multibulkLen != 0 && LengthsOk(c, y) && BulkHeader(c, y) == Go(q, x)
    ensures q.multibulkLen != 0 && Bulks(c, y) == Bulks(q, x) && LengthsOk(q, x)
  {
    assert q.bulkLen != -1 ==> BulkHeader(q, x) == Go(q, x);
  }

  lemma BulkExtend(q: Cmd, r: Bytes, b: Bytes)
    requires 0 <= q.bulkLen && q.bulkLen + 2 <= |r|
    ensures TakeBulk(q, r + b) == TakeBulk(q, r) && (r + b)[q.bulkLen + 2..] == r[q.bulkLen + 2..] + b
  {
    assert (r + b)[..q.bulkLen] == r[..q.bulkLen];
  }

  /** The same for a whole request. The one thing a cut can hide is that an empty request, "*0",
      was complete; it is then resumed as an empty cache. */
  lemma MultibulkExtend(c: Cmd, a: Bytes, b: Bytes)
    requires b != [] && RequestOk(c, a + b) && (c.multibulkLen == 0 ==> c.bulkLen == -1)
    ensures match Multibulk(c, a)
            case Complete(argv, rest) => Multibulk(c, a + b) == Complete(argv, rest + b)
            case Malformed => Multibulk(c, a + b) == Malformed
            case Cached(q, h) =>
              if q.multibulkLen == 0 && h == [] && a != []
              then q == NO_CMD && Multibulk(c, a + b) == Complete([], b)
              else (q.multibulkLen == 0 ==> q.bulkLen == -1)
                   && Multibulk(c, a + b) == Multibulk(q, h + b) && RequestOk(q, h + b)
            case Thrown => Multibulk(c, a + b) == Thrown
            case TooLong => false
  {
    if c.multibulkLen != 0 {
      BulksExtend(c, a, b);
    } else {
      LineExtend(a, b);
      var i := IndexOf(a, LF);
      if i >= 0 && NextNum(a, i).Some? {
        var q := c.(multibulkLen := NextNum(a, i).value, argv := []);
        var r := a[i + 1..];
        assert [] + b == b;
        if q.multibulkLen != 0 && r != [] {
          BulksExtend(q, r, b);
        }
      }
    }
  }

  // ----- segmentation independence: the whole stream

  /** Every request met is a multibulk request that does not depend on the cut. */
  ghost predicate Plain(cfg: Settings, kind: Kind, cmd: Cmd, log: Log, buf: Bytes)
    decreases |buf|
  {
    buf == [] ||
    (KindOf(kind, buf) == MultibulkKind && RequestOk(cmd, buf) &&
     match Multibulk(cmd, buf)
     case Complete(argv, rest) =>
       DealFails(cfg, log, argv) || Plain(cfg, Unset, NO_CMD, Deal(cfg, log, argv), rest)
     case _ => true)
  }

  ghost predicate CompleteSucceeds(cfg: Settings) {
    cfg.complete.Some? ==> forall h :: cfg.complete.value(h) == 0
  }

  predicate Consistent(kind: Kind, cmd: Cmd) {
    && (kind == Unset ==> cmd == NO_CMD)
    && (cmd.multibulkLen == 0 ==> cmd.bulkLen == -1)
  }

  /** Equal for every observer but the batches Complete gets: the same DealMessage calls, and
      unless the stream is refused or throws, the same status and the same resumable state. */
  predicate Same(p: Parser, q: Parser) {
    && p.log.dealt == q.log.dealt
    && match (p, q)
       case (Open(s, k, c, h, _), Open(s', k', c', h', _)) => s == s' && k == k' && c == c' && h == h'
       case (Failed(_, _), Failed(_, _)) => true
       case (Aborted(_), Aborted(_)) => true
       case _ => false
  }

  /** The batches gathered so far do not influence how the parser goes on. */
  lemma {:induction false} BatchesDoNotMatter(cfg: Settings, n: nat, m: nat, kind: Kind, cmd: Cmd, g: Log, h: Log,
      buf: Bytes)
    requires CompleteSucceeds(cfg) && g.dealt == h.dealt && Plain(cfg, kind, cmd, g, buf)
    ensures Same(Requests(cfg, n, kind, cmd, g, buf), Requests(cfg, m, kind, cmd, h, buf))
    ensures Plain(cfg, kind, cmd, h, buf)
    decreases |buf|
  {
    if buf != [] {
      match Multibulk(cmd, buf)
      case Complete(argv, rest) =>
        if !DealFails(cfg, g, argv) {
          BatchesDoNotMatter(cfg, n, m, Unset, NO_CMD, Deal(cfg, g, argv), Deal(cfg, h, argv), rest);
        }
      case _ =>
    }
  }

  /** A request that does not throw does not depend on the cut. */
  lemma {:induction false} NotThrownLengthsOk(c: Cmd, buf: Bytes)
    requires Bulks(c, buf) != Thrown
    ensures LengthsOk(c, buf)
    decreases |buf|
  {
    if c.multibulkLen != 0 && BulkHeader(c, buf).Go? {
      var Go(q, r) := BulkHeader(c, buf);
      if |r| >= q.bulkLen + 2 {
        NotThrownLengthsOk(TakeBulk(q, r), r[q.bulkLen + 2..]);
      }
    }
  }

  lemma NotThrownRequestOk(c: Cmd, buf: Bytes)
    requires Multibulk(c, buf) != Thrown
    ensures RequestOk(c, buf)
  {
    hide IndexOf, NextNum, Bulks, LengthsOk;
    var i := IndexOf(buf, LF);
    if c.multibulkLen != 0 {
      NotThrownLengthsOk(c, buf);
    } else if i >= 0 && NextNum(buf, i).Some? {
      var q := c.(multibulkLen := NextNum(buf, i).value, argv := []);
      if buf[i + 1..] == [] {
        NothingReadOk(q);
      } else {
        NotThrownLengthsOk(q, buf[i + 1..]);
      }
    }
  }

  lemma NothingReadOk(c: Cmd)
    ensures LengthsOk(c, [])
  {
  }

  /** One cut anywhere: parsing a, caching, then parsing b is parsing a + b. */
  lemma {:induction false} RequestsExtend(cfg: Settings, n: nat, m: nat, kind: Kind, cmd: Cmd, log: Log, a: Bytes,
      b: Bytes)
    requires a != [] && b != [] && CompleteSucceeds(cfg)
    requires Consistent(kind, cmd) && Plain(cfg, kind, cmd, log, a + b)
    ensures match Requests(cfg, n, kind, cmd, log, a)
            case Open(_, k, c, h, l) =>
              && Consistent(k, c) && Plain(cfg, k, c, l, h + b)
              && Same(Requests(cfg, m, k, c, l, h + b), Requests(cfg, m, kind, cmd, log, a + b))
            case Failed(_, l) =>
              Requests(cfg, m, kind, cmd, log, a + b).Failed?
                  && Requests(cfg, m, kind, cmd, log, a + b).log.dealt == l.dealt
            case Aborted(l) =>
              Requests(cfg, m, kind, cmd, log, a + b).Aborted?
                  && Requests(cfg, m, kind, cmd, log, a + b).log.dealt == l.dealt
    decreases |a|
  {
    hide Multibulk, RequestOk;
    assert (a + b)[0] == a[0];
    MultibulkExtend(cmd, a, b);
    match Multibulk(cmd, a)
    case Malformed =>
    case Thrown =>
    case Cached(q, h) =>
      if q.multibulkLen == 0 && h == [] {
        assert h + b == b;
        EmptyRequestResumes(cfg, m, log, b);
      } else {
        ResumedRequest(cfg, m, q, h + b, cmd, kind, a + b, log);
      }
    case Complete(argv, rest) =>
      if !DealFails(cfg, log, argv) {
        var after := Deal(cfg, log, argv);
        if rest == [] {
          FinishedResumes(cfg, n, m, after, rest, b);
        } else {
          RequestsExtend(cfg, n, m, Unset, NO_CMD, after, rest, b);
        }
      }
  }

  /** A cut at a command boundary: the parser starts over, with the batch handed to Complete. */
  lemma FinishedResumes(cfg: Settings, n: nat, m: nat, log: Log, rest: Bytes, b: Bytes)
    requires rest == [] && b != [] && CompleteSucceeds(cfg) && Plain(cfg, Unset, NO_CMD, log, rest + b)
    ensures var p := Requests(cfg, n, Unset, NO_CMD, log, rest);
            p.Open? && p.kind == Unset && p.cmd == NO_CMD && Plain(cfg, Unset, NO_CMD, p.log, p.half + b)
            && Same(Requests(cfg, m, Unset, NO_CMD, p.log, p.half + b), Requests(cfg, m, Unset, NO_CMD, log, rest + b))
  {
    var p := Finish(cfg, Unset, NO_CMD, log);
    assert rest + b == b == p.half + b;
    BatchesDoNotMatter(cfg, m, m, Unset, NO_CMD, log, p.log, b);
    SameSymmetric(Requests(cfg, m, Unset, NO_CMD, log, b), Requests(cfg, m, Unset, NO_CMD, p.log, b));
  }

  lemma SameSymmetric(p: Parser, q: Parser)
    requires Same(p, q)
    ensures Same(q, p)
  {
  }

  /** A request that parses the same from its cache continues the same. */
  lemma ResumedRequest(cfg: Settings, m: nat, q: Cmd, x: Bytes, cmd: Cmd, kind: Kind, y: Bytes, log: Log)
    requires x != [] && y != [] && CompleteSucceeds(cfg) && Plain(cfg, kind, cmd, log, y)
    requires Multibulk(q, x) == Multibulk(cmd, y) && RequestOk(q, x)
    ensures Plain(cfg, MultibulkKind, q, log, x)
    ensures Same(Requests(cfg, m, MultibulkKind, q, log, x), Requests(cfg, m, kind, cmd, log, y))
  {
    match Multibulk(q, x)
    case Complete(argv, rest) =>
      if !DealFails(cfg, log, argv) {
        var after := Deal(cfg, log, argv);
        BatchesDoNotMatter(cfg, m, m, Unset, NO_CMD, after, after, rest);
      }
    case _ =>
  }

  /** After an empty request, the multibulk kind remembered is the kind the next request has. */
  lemma EmptyRequestResumes(cfg: Settings, m: nat, log: Log, b: Bytes)
    requires b != [] && CompleteSucceeds(cfg) && Plain(cfg, Unset, NO_CMD, log, b)
    ensures Plain(cfg, MultibulkKind, NO_CMD, log, b)
    ensures Same(Requests(cfg, m, MultibulkKind, NO_CMD, log, b), Requests(cfg, m, Unset, NO_CMD, log, b))
  {
    ResumedRequest(cfg, m, NO_CMD, b, NO_CMD, Unset, b, log);
  }

  // ----- the theorems

  ghost predicate PlainStream(cfg: Settings, p: Parser, stream: Bytes) {
    p.Open? && Consistent(p.kind, p.cmd) && Plain(cfg, p.kind, p.cmd, p.log, p.half + stream)
  }

  lemma SameTransitive(p: Parser, q: Parser, r: Parser)
    requires Same(p, q) && Same(q, r)
    ensures Same(p, r)
  {
  }

  lemma {:induction false} StoppedStays(cfg: Settings, p: Parser, chunks: seq<Bytes>)
    requires !p.Open?
    ensures var q := FeedAll(cfg, p, chunks); q.log == p.log && (q.Failed? <==> p.Failed?) && !q.Open?
    decreases |chunks|
  {
    if chunks != [] {
      StoppedStays(cfg, Feed(cfg, p, chunks[0]), chunks[1..]);
    }
  }

  /** However a stream of multibulk requests is cut into non-empty chunks, the parser makes the
      same DealMessage calls and ends in the same state as on the whole stream at once. */
  lemma {:induction false} SegmentationIndependence(cfg: Settings, p: Parser, chunks: seq<Bytes>)
    requires chunks != [] && forall c :: c in chunks ==> c != []
    requires CompleteSucceeds(cfg) && PlainStream(cfg, p, Concat(chunks))
    ensures Same(FeedAll(cfg, p, chunks), Feed(cfg, p, Concat(chunks)))
    decreases |chunks|
  {
    var first, others := chunks[0], chunks[1..];
    var later := Concat(others);
    var q := Feed(cfg, p, first);
    assert first in chunks;
    if others == [] {
      assert first + later == first;
      var whole := p.half + first;
      BatchesDoNotMatter(cfg, |whole|, |whole|, p.kind, p.cmd, p.log, p.log, whole);
    } else {
      assert others[0] in chunks && later == others[0] + Concat(others[1..]);
      var a, n := p.half + first, |p.half + Concat(chunks)|;
      assert a + later == p.half + Concat(chunks);
      RequestsExtend(cfg, |a|, n, p.kind, p.cmd, p.log, a, later);
      match q
      case Failed(_, _) =>
        StoppedStays(cfg, q, others);
      case Aborted(_) =>
        StoppedStays(cfg, q, others);
      case Open(_, k, c, h, l) =>
        assert forall c :: c in others ==> c in chunks;
        SegmentationIndependence(cfg, q, others);
        BatchesDoNotMatter(cfg, |h + later|, n, k, c, l, l, h + later);
        SameTransitive(FeedAll(cfg, q, others), Feed(cfg, q, later), Requests(cfg, n, k, c, l, h + later));
        SameTransitive(FeedAll(cfg, q, others), Requests(cfg, n, k, c, l, h + later), Feed(cfg, p, Concat(chunks)));
    }
  }

  // ----- streams made of complete requests

  ghost predicate DealSucceeds(cfg: Settings) {
    cfg.deal.Some? && forall h :: cfg.deal.value(h) == 0
  }

  predicate NonEmptyAll<T>(xs: seq<seq<T>>) { forall k :: 0 <= k < |xs| ==> xs[k] != [] }

  /** part is a complete request for argv, whatever follows it. */
  ghost predicate ReadsAs(part: Bytes, argv: Argv) {
    && part != [] && part[0] == STAR
    && forall y: Bytes :: Multibulk(NO_CMD, part + y) == Complete(argv, y)
  }

  function Dealt(log: Log, cmds: seq<Argv>): Log {
    log.(argvs := log.argvs + cmds, dealt := log.dealt + cmds)
  }

  /** A complete request is dealt, and the parser starts over after it. */
  lemma PartIsDealt(cfg: Settings, n: nat, log: Log, part: Bytes, argv: Argv, y: Bytes, buf: Bytes)
    requires DealSucceeds(cfg) && argv != [] && ReadsAs(part, argv) && buf == part + y
    ensures Requests(cfg, n, Unset, NO_CMD, log, buf) == Requests(cfg, n, Unset, NO_CMD, Dealt(log, [argv]), y)
    ensures Plain(cfg, Unset, NO_CMD, Dealt(log, [argv]), y) ==> Plain(cfg, Unset, NO_CMD, log, buf)
  {
    assert KindOf(Unset, buf) == MultibulkKind;
    assert Multibulk(NO_CMD, buf) == Complete(argv, y);
    NotThrownRequestOk(NO_CMD, buf);
  }

  /** Complete requests are dealt one by one, whatever follows them. */
  lemma {:induction false} PartsAreDealt(cfg: Settings, n: nat, log: Log, parts: seq<Bytes>, cmds: seq<Argv>,
      x: Bytes, buf: Bytes)
    requires DealSucceeds(cfg) && NonEmptyAll(cmds) && buf == Concat(parts) + x
    requires |parts| == |cmds| && forall k :: 0 <= k < |cmds| ==> ReadsAs(parts[k], cmds[k])
    ensures Requests(cfg, n, Unset, NO_CMD, log, buf) == Requests(cfg, n, Unset, NO_CMD, Dealt(log, cmds), x)
    ensures Plain(cfg, Unset, NO_CMD, Dealt(log, cmds), x) ==> Plain(cfg, Unset, NO_CMD, log, buf)
    decreases |cmds|
  {
    hide Requests, Plain, ReadsAs;
    if cmds == [] {
      assert buf == x && Dealt(log, cmds) == log;
    } else {
      var y := Concat(parts[1..]) + x;
      assert buf == parts[0] + y;
      PartIsDealt(cfg, n, log, parts[0], cmds[0], y, buf);
      PartsAreDealt(cfg, n, Dealt(log, [cmds[0]]), parts[1..], cmds[1..], x, y);
      assert Dealt(Dealt(log, [cmds[0]]), cmds[1..]) == Dealt(log, cmds) by {
        assert log.argvs + [cmds[0]] + cmds[1..] == log.argvs + cmds;
        assert log.dealt + [cmds[0]] + cmds[1..] == log.dealt + cmds;
      }
    }
  }

  // ----- conservation of commands

  /** b is the command a with its name in lower case. */
  predicate NameLowered(a: Argv, b: Argv) {
    && |a| == |b| && (a != [] ==> LowerCased(a[0], b[0]))
    && forall k :: 0 < k < |a| ==> b[k] == a[k]
  }

  predicate NamesLowered(a: seq<Argv>, b: seq<Argv>) {
    |a| == |b| && forall k :: 0 <= k < |a| ==> NameLowered(a[k], b[k])
  }

  /** Complete has been given the first commands DealMessage has seen, with their names in lower case, and the
      others wait for it as they are. */
  predicate Conserved(log: Log) {
    var done := Concat(log.completed);
    && |done| <= |log.dealt|
    && NamesLowered(log.dealt[..|done|], done)
    && log.argvs == log.dealt[|done|..]
  }

  lemma {:induction false} LowerNamesLower(argvs: seq<Argv>)
    ensures NamesLowered(argvs, LowerNames(argvs))
    decreases |argvs|
  {
    if argvs != [] {
      LowerNamesLower(argvs[1..]);
      if argvs[0] != [] { LowerIsLowerCased(argvs[0][0]); }
      forall k | 0 <= k < |argvs| ensures NameLowered(argvs[k], LowerNames(argvs)[k]) {
        if k > 0 {
          assert argvs[k] == argvs[1..][k - 1] && LowerNames(argvs)[k] == LowerNames(argvs[1..])[k - 1];
        }
      }
    }
  }

  lemma NamesLoweredAppend(a: seq<Argv>, b: seq<Argv>, c: seq<Argv>, d: seq<Argv>)
    requires NamesLowered(a, b) && NamesLowered(c, d)
    ensures NamesLowered(a + c, b + d)
  {
    hide NameLowered;
  }

  lemma DealConserves(cfg: Settings, log: Log, argv: Argv)
    requires cfg.deal.Some? && Conserved(log)
    ensures Conserved(Deal(cfg, log, argv))
  {
    var n, after := |Concat(log.completed)|, Deal(cfg, log, argv);
    if argv != [] {
      assert after.dealt[..n] == log.dealt[..n] && after.dealt[n..] == log.dealt[n..] + [argv];
    }
  }

  lemma FinishConserves(cfg: Settings, kind: Kind, cmd: Cmd, log: Log)
    requires cfg.complete.Some? && Conserved(log)
    ensures Conserved(Finish(cfg, kind, cmd, log).log)
  {
    hide Concat, NameLowered, LowerNames;
    var done, batch := Concat(log.completed), LowerNames(log.argvs);
    ConcatSnoc(log.completed, batch);
    LowerNamesLower(log.argvs);
    NamesLoweredAppend(log.dealt[..|done|], done, log.argvs, batch);
    assert log.dealt == log.dealt[..|done|] + log.argvs;
    assert log.dealt[..|log.dealt|] == log.dealt && log.dealt[|log.dealt|..] == [];
  }

  lemma {:induction false} RequestsConserve(cfg: Settings, n: nat, kind: Kind, cmd: Cmd, log: Log, buf: Bytes)
    requires cfg.deal.Some? && cfg.complete.Some? && Conserved(log)
    ensures Conserved(Requests(cfg, n, kind, cmd, log, buf).log)
    decreases |buf|
  {
    if buf == [] {
      FinishConserves(cfg, kind, cmd, log);
    } else {
      var s := ScanOne(n, KindOf(kind, buf), cmd, buf);
      if s.Complete? {
        DealConserves(cfg, log, s.argv);
        RequestsConserve(cfg, n, Unset, NO_CMD, Deal(cfg, log, s.argv), s.rest);
      }
    }
  }

  /** No command is lost, invented, duplicated or reordered between DealMessage and Complete,
      on any bytes whatsoever, refused or not. */
  lemma {:induction false} CommandsAreConserved(cfg: Settings, p: Parser, chunks: seq<Bytes>)
    requires cfg.deal.Some? && cfg.complete.Some? && Conserved(p.log)
    ensures Conserved(FeedAll(cfg, p, chunks).log)
    decreases |chunks|
  {
    if chunks != [] {
      if p.Open? {
        RequestsConserve(cfg, |p.half + chunks[0]|, p.kind, p.cmd, p.log, p.half + chunks[0]);
      }
      CommandsAreConserved(cfg, Feed(cfg, p, chunks[0]), chunks[1..]);
    }
  }
}
