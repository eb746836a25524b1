/**
 Replies that take more than one read of the socket.

 The client consumes the type byte of an item before it knows whether the item is complete. So a reply is
 read right when every read ends between two items, and a reply of one item exactly when it comes with one read.
 */
module RedisReplyCuts {
  import opened ByteStrings
  import opened RedisRequests
  import opened RedisSerializer
  import opened RedisCli

  // ----- reads that end between items

  /** One read for each group of elements. */
  function Arrivals(groups: seq<seq<Element>>): seq<Arrival> {
    if groups == [] then [] else [Data(PrintElements(groups[0]))] + Arrivals(groups[1..])
  }

  predicate AllPrintable(es: seq<Element>) { forall k :: 0 <= k < |es| ==> Printable(es[k]) }

  predicate Fits(g: seq<Element>) { g != [] && AllPrintable(g) && |PrintElements(g)| <= IOBUF_LEN }

  lemma StepOk(r: Reader, incoming: seq<Arrival>)
    requires r.code == Ok && |r.unread| <= IOBUF_LEN && r.elements > 0 && r.unread != [] && Item(r).code == Ok
    ensures Reply(r, incoming) == Reply(Item(r), incoming)
  {
    hide Item, Fill;
  }

  /** With nothing unread, reading some bytes and going on is going on with those bytes unread. */
  lemma StepFill(r: Reader, bytes: Bytes, later: seq<Arrival>)
    requires r.code == Ok && r.elements > 0 && r.unread == [] && 1 <= |bytes| <= IOBUF_LEN
    ensures Reply(r, [Data(bytes)] + later) == Reply(r.(unread := bytes), later)
  {
    hide Item;
    var incoming := [Data(bytes)] + later;
    assert incoming[1..] == later && r.unread + bytes == bytes;
    assert Fill(r.unread, incoming) == (Ok, bytes, later);
  }

  lemma PrintedNotEmpty(es: seq<Element>)
    requires es != [] && AllPrintable(es)
    ensures PrintElements(es) != []
  {
    hide Item;
    var r := Reader(Ok, 1, [], PrintElement(es[0]) + []);
    ElementTaken(r, es[0], []);
  }

  /** Reads that end between items deliver every element, in order. */
  lemma {:induction false} WholeItems(r: Reader, es: seq<Element>, groups: seq<seq<Element>>, more: seq<Arrival>)
    requires r.code == Ok && r.unread == PrintElements(es) && |r.unread| <= IOBUF_LEN && AllPrintable(es)
    requires forall k :: 0 <= k < |groups| ==> Fits(groups[k])
    requires r.elements == |es| + |Concat(groups)|
    ensures Reply(r, Arrivals(groups) + more) == (Reader(Ok, 0, r.argv + Kept(es + Concat(groups)), []), more)
    decreases |groups|, |es|
  {
    hide Item, Fill, PrintElement, Printable;
    if es != [] {
      FirstItem(r, es, Arrivals(groups) + more);
      var next := r.(elements := r.elements - 1, argv := r.argv + TextOf(es[0]), unread := PrintElements(es[1..]));
      WholeItems(next, es[1..], groups, more);
      var all := es + Concat(groups);
      assert all[1..] == es[1..] + Concat(groups);
      KeptCons(r.argv, all);
    } else if groups == [] {
      assert Arrivals(groups) + more == more && es + Concat(groups) == [] && r.argv + Kept([]) == r.argv;
    } else {
      var g, others := groups[0], groups[1..];
      assert Fits(g);
      PrintedNotEmpty(g);
      var later := Arrivals(others) + more;
      assert Arrivals(groups) + more == [Data(PrintElements(g))] + later;
      assert es + Concat(groups) == g + Concat(others);
      StepFill(r, PrintElements(g), later);
      WholeItems(r.(unread := PrintElements(g)), g, others, more);
    }
  }

  lemma FirstItem(r: Reader, es: seq<Element>, incoming: seq<Arrival>)
    requires r.code == Ok && r.unread == PrintElements(es) && |r.unread| <= IOBUF_LEN && es != [] && AllPrintable(es)
    requires r.elements > 0
    ensures |PrintElements(es[1..])| <= IOBUF_LEN
    ensures Reply(r, incoming) ==
            Reply(Reader(Ok, r.elements - 1, r.argv + TextOf(es[0]), PrintElements(es[1..])), incoming)
  {
    hide Item, Fill, PrintElement, Reply;
    ElementTaken(r, es[0], PrintElements(es[1..]));
    StepOk(r, incoming);
  }

  /** The same for an array reply: its count line comes with the first elements, or alone. */
  lemma ArrayInWholeItems(argv: Argv, es: seq<Element>, groups: seq<seq<Element>>, more: seq<Arrival>)
    requires AllPrintable(es) && forall k :: 0 <= k < |groups| ==> Fits(groups[k])
    requires var n := |es| + |Concat(groups)|; |Line(STAR, n) + PrintElements(es)| <= IOBUF_LEN
    ensures var n := |es| + |Concat(groups)|;
            Reply(Reader(Ok, 1, argv, []), [Data(Line(STAR, n) + PrintElements(es))] + (Arrivals(groups) + more))
            == (Reader(Ok, 0, argv + Kept(es + Concat(groups)), []), more)
  {
    hide Item, Fill, PrintElement, Printable, Reply, Line;
    var n, later := |es| + |Concat(groups)|, Arrivals(groups) + more;
    var first := Line(STAR, n) + PrintElements(es);
    LineNotEmpty(n);
    CountItem(argv, n, PrintElements(es));
    StepFill(Reader(Ok, 1, argv, []), first, later);
    StepOk(Reader(Ok, 1, argv, first), later);
    WholeItems(Reader(Ok, n, argv, PrintElements(es)), es, groups, more);
  }

  lemma LineNotEmpty(n: nat)
    ensures Line(STAR, n) != []
  {
  }

  // ----- a read that ends inside an item

  /** Each element takes its bytes, a type byte and a CRLF at least. */
  function Weight(argv: Argv): nat {
    if argv == [] then 0 else Weight(argv[..|argv| - 1]) + |argv[|argv| - 1]| + 3
  }

  lemma WeightSnoc(argv: Argv, e: Bytes)
    ensures Weight(argv + [e]) == Weight(argv) + |e| + 3
  {
    assert (argv + [e])[..|argv|] == argv;
  }

  function Pending(incoming: seq<Arrival>): nat {
    if incoming == [] then 0 else (if incoming[0].Data? then |incoming[0].bytes| else 0) + Pending(incoming[1..])
  }

  lemma ItemWeight(r: Reader)
    requires r.unread != []
    ensures Weight(Item(r).argv) + |Item(r).unread| <= Weight(r.argv) + |r.unread|
  {
    hide FirstCrlf, LongLong, Weight;
    var s := Item(r);
    if s.argv != r.argv {
      WeightSnoc(r.argv, s.argv[|s.argv| - 1]);
    }
  }

  lemma FillPending(unread: Bytes, incoming: seq<Arrival>)
    requires |unread| <= IOBUF_LEN
    ensures var (_, u, later) := Fill(unread, incoming); |u| + Pending(later) <= |unread| + Pending(incoming)
  {
    var (code, u, later) := Fill(unread, incoming);
    if incoming != [] && later != [] && later != incoming && later != incoming[1..] {
      assert later[1..] == incoming[1..];
    }
  }

  /** No element is returned without the bytes it takes. */
  lemma {:induction false} ReplyWeight(r: Reader, incoming: seq<Arrival>)
    requires (r.code == Ok || r.code == HalfReply) && |r.unread| <= IOBUF_LEN
    ensures var (s, later) := Reply(r, incoming);
            Weight(s.argv) + |s.unread| + Pending(later) <= Weight(r.argv) + |r.unread| + Pending(incoming)
    decreases |incoming|, FirstSize(incoming), if r.code == HalfReply then 0 else 1, |r.unread|
  {
    hide Item, Fill, Weight, Pending;
    if r.elements > 0 {
      var q, later := r, incoming;
      if r.unread == [] || r.code == HalfReply {
        FillPending(r.unread, incoming);
        var (code, unread, rest) := Fill(r.unread, incoming);
        if code != Ok { return; }
        q, later := r.(code := Ok, unread := unread), rest;
      }
      ItemWeight(q);
      var s := Item(q);
      if s.code == Ok || s.code == HalfReply {
        ReplyWeight(s, later);
      }
    }
  }

  predicate NoLengths(s: Bytes) { DOLLAR !in s && STAR !in s }

  predicate NoLengthsAll(incoming: seq<Arrival>) {
    forall k :: 0 <= k < |incoming| && incoming[k].Data? ==> NoLengths(incoming[k].bytes)
  }

  /** Without bulk strings and arrays, every element asked for is returned. */
  lemma {:induction false} LinesOnly(r: Reader, incoming: seq<Arrival>)
    requires (r.code == Ok || r.code == HalfReply) && |r.unread| <= IOBUF_LEN && NoLengths(r.unread)
             && NoLengthsAll(incoming)
    ensures var s := Reply(r, incoming).0; s.elements + |s.argv| == r.elements + |r.argv|
    ensures var s := Reply(r, incoming).0; s.code == Ok ==> s.elements <= 0
    decreases |incoming|, FirstSize(incoming), if r.code == HalfReply then 0 else 1, |r.unread|
  {
    hide Item, Fill, NoLengths;
    if r.elements > 0 {
      var q, later := r, incoming;
      if r.unread == [] || r.code == HalfReply {
        FillNoLengths(r.unread, incoming);
        var (code, unread, rest) := Fill(r.unread, incoming);
        if code != Ok { return; }
        q, later := r.(code := Ok, unread := unread), rest;
      }
      LineItemOnly(q);
      var s := Item(q);
      if s.code == Ok || s.code == HalfReply {
        LinesOnly(s, later);
      }
    }
  }

  lemma LineItemOnly(r: Reader)
    requires r.unread != [] && NoLengths(r.unread)
    ensures var s := Item(r); NoLengths(s.unread) && s.elements + |s.argv| == r.elements + |r.argv|
  {
    hide FirstCrlf;
  }

  lemma FillNoLengths(unread: Bytes, incoming: seq<Arrival>)
    requires |unread| <= IOBUF_LEN && NoLengths(unread) && NoLengthsAll(incoming)
    ensures var (_, u, later) := Fill(unread, incoming); NoLengths(u) && NoLengthsAll(later)
  {
  }

  // ----- a reply of one item

  function DataOf(chunks: seq<Bytes>): seq<Arrival> {
    if chunks == [] then [] else [Data(chunks[0])] + DataOf(chunks[1..])
  }

  lemma {:induction false} PendingData(chunks: seq<Bytes>)
    ensures Pending(DataOf(chunks)) == |Concat(chunks)|
    decreases |chunks|
  {
    if chunks != [] {
      PendingData(chunks[1..]);
    }
  }

  lemma {:induction false} NoLengthsData(chunks: seq<Bytes>)
    requires NoLengths(Concat(chunks))
    ensures NoLengthsAll(DataOf(chunks))
    decreases |chunks|
  {
    if chunks != [] {
      assert forall b :: b in chunks[0] || b in Concat(chunks[1..]) ==> b in Concat(chunks);
      NoLengthsData(chunks[1..]);
    }
  }

  lemma StepHalf(r: Reader, incoming: seq<Arrival>)
    requires r.code == Ok && |r.unread| <= IOBUF_LEN && r.elements > 0 && r.unread != [] && Item(r).code == HalfReply
    ensures Reply(r, incoming) == Reply(Item(r), incoming)
  {
    hide Item, Fill;
  }

  /** A line whose last bytes are missing has no CRLF yet. */
  lemma NoCrlfYet(t: Bytes, u: Bytes, z: Bytes)
    requires CR !in t && u + z == t + CRLF && z != []
    ensures FirstCrlf(u) == None
  {
    var s := t + CRLF;
    assert |u| + |z| == |u + z| == |t| + 2;
    assert forall k :: 0 <= k < |u| ==> u[k] == (u + z)[k] == s[k];
    assert forall k :: 0 <= k < |t| ==> s[k] == t[k] && s[k] != CR;
    assert forall k :: !CrlfAt(u, k);
  }

  lemma CutLine(tag: Byte, t: Bytes, c: Bytes, rest: seq<Bytes>)
    requires tag == PLUS || tag == MINUS || tag == COLON
    requires CR !in t && c + Concat(rest) == [tag] + t + CRLF && c != [] && Concat(rest) != [] && |c| <= IOBUF_LEN
    ensures Reply(Reader(Ok, 1, [], c), DataOf(rest)).0.argv != [t]
  {
    var u, z := c[1..], Concat(rest);
    assert u + z == (c + z)[1..] == t + CRLF;
    assert c[0] == (c + z)[0] == tag;
    NoCrlfYet(t, u, z);
    var r := Reader(Ok, 1, [], c);
    assert Item(r) == Reader(HalfReply, 1, [], u);
    hide Item, Reply, Pending, Weight;
    StepHalf(r, DataOf(rest));
    ReplyWeight(Item(r), DataOf(rest));
    PendingData(rest);
    var none: Argv := [];
    WeightSnoc(none, t);
    assert none + [t] == [t];
    assert |u + z| == |t| + 2;
    NoWeight();
  }

  lemma NoWeight()
    ensures Weight([]) == 0
  {
  }

  lemma CutNil(c: Bytes, rest: seq<Bytes>)
    requires c + Concat(rest) == [DOLLAR, MINUS, ZERO + 1] + CRLF && c != [] && Concat(rest) != []
    ensures var s := Reply(Reader(Ok, 1, [], c), DataOf(rest)).0; s.elements != 0 || s.argv != []
  {
    hide Item, Reply, FirstCrlf, Concat, DataOf;
    var u, z, t: Bytes := c[1..], Concat(rest), [MINUS, ZERO + 1];
    assert u + z == (c + z)[1..] == t + CRLF;
    assert c[0] == (c + z)[0] == DOLLAR && c == [DOLLAR] + u;
    NoCrlfYet(t, u, z);
    var r := Reader(Ok, 1, [], c);
    BulkDispatch(r, u);
    NoLength(r.(unread := u));
    assert |c + z| == 5;
    StepHalf(r, DataOf(rest));
    assert NoLengths(u + z);
    assert forall b :: b in u || b in z ==> b in u + z;
    NoLengthsData(rest);
    LinesOnly(Item(r), DataOf(rest));
  }

  /** What a bulk string that is not complete looks like to the reader. */
  lemma BulkIncomplete(r: Reader, t: Bytes, u: Bytes, z: Bytes)
    requires r.unread == [DOLLAR] + u && u + z == Decimal(|t|) + CRLF + (t + CRLF) && z != []
    ensures Item(r).code == OutOfBounds || Item(r) == r.(code := HalfReply, unread := u)
  {
    hide Item, BulkItem, FirstCrlf, LongLong, Decimal, BulkAt;
    var d, q := Decimal(|t|), r.(unread := u);
    assert |u| + |z| == |u + z| == |d| + 2 + |t| + 2;
    BulkDispatch(r, u);
    if |u| < |d| + 2 {
      var w := (d + CRLF)[|u|..];
      assert u == (u + z)[..|u|] == (d + CRLF)[..|u|];
      DecimalDigits(|t|);
      NoCrlfYet(d, u, w);
      NoLength(q);
    } else {
      var x := u[|d| + 2..];
      assert u[..|d| + 2] == (u + z)[..|d| + 2] == d + CRLF;
      assert u == d + CRLF + x;
      DecimalLine(|t|, x);
      LongLongDecimal(|t|, x);
      MissingBytes(q, |d|, |t|);
    }
  }

  lemma NoLength(r: Reader)
    requires FirstCrlf(r.unread) == None
    ensures BulkItem(r) == r.(code := HalfReply)
  {
  }

  lemma MissingBytes(r: Reader, i: nat, n: nat)
    requires FirstCrlf(r.unread) == Some(i) && LongLong(r.unread) == n && |r.unread| < i + 2 + n + 2
    ensures BulkItem(r).code == OutOfBounds || BulkItem(r) == r.(code := HalfReply)
  {
    hide LongLong;
  }

  /** A read that ends inside a bulk string: whatever comes next, the reply fails. */
  lemma BulkCut(r: Reader, t: Bytes, z: Bytes, bytes: Bytes, later: seq<Arrival>)
    requires r.code == Ok && r.elements > 0 && r.unread != [] && r.unread + z == Bulk(t) && z != []
    requires bytes != [] && bytes[0] == z[0] && |r.unread| <= IOBUF_LEN
    ensures Reply(r, [Data(bytes)] + later).0.code != Ok
  {
    hide Item, Decimal, Reply, Fill, Bulk;
    var u, incoming := r.unread[1..], [Data(bytes)] + later;
    BulkBehindType(r.unread, t, z);
    BulkIncomplete(r, t, u, z);
    if Item(r).code == OutOfBounds {
      StepStop(r, incoming);
    } else {
      StepHalf(r, incoming);
      LengthFirst(u, z, bytes, |t|, CRLF + (t + CRLF));
      HalfThenBad(Item(r), bytes, later);
    }
  }

  lemma BulkBehindType(c: Bytes, t: Bytes, z: Bytes)
    requires c != [] && c + z == Bulk(t)
    ensures c == [DOLLAR] + c[1..] && c[1..] + z == Decimal(|t|) + CRLF + (t + CRLF)
    ensures c[1..] + z == Decimal(|t|) + (CRLF + (t + CRLF))
  {
    hide Decimal, Bulk;
    var y := Decimal(|t|) + CRLF + (t + CRLF);
    BulkText(t, []);
    assert Bulk(t) + [] == Bulk(t) && t + CRLF + [] == t + CRLF;
    assert c + z == [DOLLAR] + y;
    assert (c + z)[0] == c[0] && (c + z)[1..] == c[1..] + z;
    Assoc(Decimal(|t|), CRLF, t + CRLF);
  }

  /** Whatever follows, the first byte behind the type is a digit of the length. */
  lemma LengthFirst(u: Bytes, z: Bytes, bytes: Bytes, n: nat, rest: Bytes)
    requires u + z == Decimal(n) + rest && z != [] && bytes != [] && bytes[0] == z[0]
    ensures IsDigit((u + bytes)[0])
  {
    DecimalDigits(n);
    hide Decimal;
    assert (u + z)[0] == Decimal(n)[0];
  }

  lemma CutBulk(t: Bytes, c: Bytes, rest: seq<Bytes>)
    requires c + Concat(rest) == Bulk(t) && c != [] && rest != [] && NonEmptyAll(rest) && |c| <= IOBUF_LEN
    ensures Reply(Reader(Ok, 1, [], c), DataOf(rest)).0.code != Ok
  {
    hide Reply, Bulk;
    var z := Concat(rest);
    assert rest[0] != [] && z == rest[0] + Concat(rest[1..]);
    assert (c + z)[|c|] == z[0];
    BulkCut(Reader(Ok, 1, [], c), t, z, rest[0], DataOf(rest[1..]));
  }

  lemma StepStop(r: Reader, incoming: seq<Arrival>)
    requires r.code == Ok && |r.unread| <= IOBUF_LEN && r.elements > 0 && r.unread != [] && Item(r).code == OutOfBounds
    ensures Reply(r, incoming).0.code == OutOfBounds
  {
    hide Item, Fill;
  }

  /** Resumed inside a length or a count, the reader takes a digit for the type of an item. */
  lemma HalfThenBad(r: Reader, bytes: Bytes, later: seq<Arrival>)
    requires r.code == HalfReply && r.elements > 0
    requires bytes != [] && |r.unread| < IOBUF_LEN && IsDigit((r.unread + bytes)[0])
    ensures Reply(r, [Data(bytes)] + later).0.code == BadType
  {
    hide LineItem, BulkItem, ArrayItem;
    var (code, unread, rest) := Fill(r.unread, [Data(bytes)] + later);
    assert code == Ok && unread[0] == (r.unread + bytes)[0];
    assert Item(Reader(Ok, r.elements, r.argv, unread)).code == BadType;
  }

  lemma TakenWhole(e: Element, c: Bytes)
    requires Printable(e) && c == PrintElement(e) && |c| <= IOBUF_LEN
    ensures c != [] && Reply(Reader(Ok, 1, [], c), []) == (Reader(Ok, 0, Kept([e]), []), [])
  {
    hide Item, PrintElement, Fill;
    var none: Argv, r := [], Reader(Ok, 1, [], c);
    assert c == PrintElement(e) + [];
    ElementTaken(r, e, []);
    var es := [e];
    assert es[1..] == [] && Kept(es[1..]) == [];
    assert Kept(es) == none + TextOf(e);
    StepOk(r, []);
    NothingMore(Reader(Ok, 0, Kept(es), []));
  }

  lemma NothingMore(r: Reader)
    requires r.code == Ok && |r.unread| <= IOBUF_LEN && r.elements <= 0
    ensures Reply(r, []) == (r, [])
  {
  }

  lemma CutInside(e: Element, c: Bytes, rest: seq<Bytes>)
    requires Printable(e) && c + Concat(rest) == PrintElement(e) && |c| <= IOBUF_LEN
    requires c != [] && rest != [] && NonEmptyAll(rest)
    ensures Reply(Reader(Ok, 1, [], c), DataOf(rest)).0 != Reader(Ok, 0, Kept([e]), [])
  {
    hide Item, Reply, Bulk, Fill;
    assert rest[0] != [] && Concat(rest) == rest[0] + Concat(rest[1..]);
    assert [e][1..] == [];
    match e
    case Nil => CutNil(c, rest);
    case BulkString(t) => CutBulk(t, c, rest);
    case StatusLine(t) => CutLine(PLUS, t, c, rest);
    case ErrorLine(t) => CutLine(MINUS, t, c, rest);
    case IntegerLine(t) => CutLine(COLON, t, c, rest);
  }

  /** What reads of the socket can give. */
  predicate AreReads(chunks: seq<Bytes>) {
    NonEmptyAll(chunks) && forall k :: 0 <= k < |chunks| ==> |chunks[k]| <= IOBUF_LEN
  }

  /** A reply of one item is read right if and only if it comes with one read, whatever the item. */
  lemma OneReadExactly(e: Element, chunks: seq<Bytes>)
    requires Printable(e) && chunks != [] && AreReads(chunks) && Concat(chunks) == PrintElement(e)
    ensures Reply(Reader(Ok, 1, [], []), DataOf(chunks)) == (Reader(Ok, 0, Kept([e]), []), []) <==> |chunks| == 1
  {
    hide Item, Reply, PrintElement, Fill, Kept;
    var c, rest := chunks[0], chunks[1..];
    assert Concat(chunks) == c + Concat(rest);
    if rest == [] {
      assert c + Concat(rest) == c;
      TakenWhole(e, c);
    } else {
      assert forall k :: 0 <= k < |rest| ==> rest[k] == chunks[k + 1];
      CutInside(e, c, rest);
    }
    StepFill(Reader(Ok, 1, [], []), c, DataOf(rest));
  }

  /** An item longer than the buffer is never read right. */
  lemma LongElementNeverRead(e: Element, chunks: seq<Bytes>)
    requires Printable(e) && AreReads(chunks) && Concat(chunks) == PrintElement(e) && |PrintElement(e)| > IOBUF_LEN
    ensures Reply(Reader(Ok, 1, [], []), DataOf(chunks)) != (Reader(Ok, 0, Kept([e]), []), [])
  {
    hide Reply, Kept, Concat;
    OneChunk(chunks);
    OneReadExactly(e, chunks);
  }

  lemma OneChunk(chunks: seq<Bytes>)
    ensures |chunks| == 1 ==> Concat(chunks) == chunks[0]
    ensures chunks == [] ==> Concat(chunks) == []
  {
  }

  // ----- a printed command

  /** Every read is a run of whole bulk strings. */
  ghost predicate WholeBulks(args: Argv, chunks: seq<Bytes>)
    decreases |chunks|
  {
    chunks == [] ||
    exists k :: 0 < k <= |args| && chunks[0] == BulkList(args[..k]) && WholeBulks(args[k..], chunks[1..])
  }

  /** Every read ends between items: the first is the count line with some of the bulk strings. */
  ghost predicate WholeReads(cmd: Argv, chunks: seq<Bytes>) {
    && chunks != []
    && exists k :: 0 <= k <= |cmd| && chunks[0] == Line(STAR, |cmd|) + BulkList(cmd[..k])
        && WholeBulks(cmd[k..], chunks[1..])
  }

  lemma {:induction false} BulkListSplit(args: Argv, k: nat)
    requires k <= |args|
    ensures BulkList(args) == BulkList(args[..k]) + BulkList(args[k..])
  {
    hide Bulk;
    if k == 0 {
      assert args[..0] == [] && args[0..] == args;
    } else {
      var rest := args[1..];
      BulkListSplit(rest, k - 1);
      assert args[..k][1..] == rest[..k - 1] && args[k..] == rest[k - 1..] && args[..k][0] == args[0];
      Assoc(Bulk(args[0]), BulkList(rest[..k - 1]), BulkList(rest[k - 1..]));
    }
  }

  /** Longer runs of bulk strings have more bytes. */
  lemma LongerRun(args: Argv, j: nat, k: nat)
    requires j < k <= |args|
    ensures |BulkList(args[..j])| < |BulkList(args[..k])|
  {
    hide Bulk;
    var run := args[..k];
    BulkListSplit(run, j);
    assert run[..j] == args[..j];
    var more := run[j..];
    BulkNotEmpty(more[0]);
  }

  lemma FirstBulk(args: Argv, k: nat)
    requires 0 < k <= |args|
    ensures BulkList(args[..k]) == Bulk(args[0]) + BulkList(args[1..][..k - 1])
  {
    hide Bulk;
    assert args[..k][1..] == args[1..][..k - 1] && args[..k][0] == args[0];
  }

  /** The unread bytes are k whole bulk strings, which are taken, or a bulk string is cut and the reply fails. */
  lemma {:induction false} TakeBulks(r: Reader, args: Argv, rest: seq<Bytes>) returns (k: int)
    requires r.code == Ok && r.elements == |args| && r.unread != [] && NonEmptyAll(rest)
    requires r.unread + Concat(rest) == BulkList(args) && |r.unread| <= IOBUF_LEN
    ensures k <= |args|
    ensures k >= 0 ==> k > 0 && r.unread == BulkList(args[..k])
                       && Reply(r, DataOf(rest)) == Reply(Reader(Ok, |args| - k, r.argv + args[..k], []), DataOf(rest))
    ensures k < 0 ==> Reply(r, DataOf(rest)).0.code != Ok
    ensures k < 0 ==> forall j :: 0 <= j <= |args| ==> r.unread != BulkList(args[..j])
    decreases |args|
  {
    hide Item, Reply, Bulk, BulkList, DataOf, Concat;
    BulkListCons(args);
    if |r.unread| < |Bulk(args[0])| {
      k := -1;
      FirstBulkCut(r, args, rest);
    } else {
      var u := FirstBulkTaken(r, args, rest);
      var next := Reader(Ok, |args| - 1, r.argv + [args[0]], u);
      var j := 0;
      if u == [] {
        NoBulkYet(args[1..]);
      } else {
        j := TakeBulks(next, args[1..], rest);
      }
      k := if j < 0 then -1 else j + 1;
      RunCons(args, u);
      if j >= 0 {
        ArgvCons(r.argv, args, j);
      }
    }
  }

  lemma BulkListCons(args: Argv)
    ensures BulkList(args) == if args == [] then [] else Bulk(args[0]) + BulkList(args[1..])
  {
  }

  lemma ArgvCons(argv: Argv, args: Argv, j: nat)
    requires j < |args|
    ensures argv + [args[0]] + args[1..][..j] == argv + args[..j + 1]
    ensures j == 0 ==> argv + [args[0]] == argv + args[..j + 1]
  {
    assert j == 0 ==> args[1..][..j] == [] && args[..j + 1] == [args[0]];
    assert [args[0]] + args[1..][..j] == args[..j + 1];
  }

  lemma FirstBulkTaken(r: Reader, args: Argv, rest: seq<Bytes>) returns (u: Bytes)
    requires r.code == Ok && r.elements == |args| && args != [] && |r.unread| <= IOBUF_LEN
    requires r.unread + Concat(rest) == BulkList(args) && |Bulk(args[0])| <= |r.unread|
    ensures r.unread == Bulk(args[0]) + u && u + Concat(rest) == BulkList(args[1..]) && |u| <= IOBUF_LEN
    ensures Reply(r, DataOf(rest)) == Reply(Reader(Ok, |args| - 1, r.argv + [args[0]], u), DataOf(rest))
  {
    hide Item, Reply, Bulk, BulkList, DataOf, Concat;
    BulkListCons(args);
    var b, y := Bulk(args[0]), BulkList(args[1..]);
    u := r.unread[|b|..];
    assert r.unread == (b + y)[..|r.unread|] && r.unread == b + u;
    assert u + Concat(rest) == (r.unread + Concat(rest))[|b|..] == y;
    BulkNotEmpty(args[0]);
    BulkTaken(r, args[0], u);
    StepOk(r, DataOf(rest));
  }

  /** The runs of args that begin with a whole first bulk string. */
  lemma RunCons(args: Argv, u: Bytes)
    requires args != []
    ensures forall j :: 0 < j <= |args| ==>
              (Bulk(args[0]) + u == BulkList(args[..j]) <==> u == BulkList(args[1..][..j - 1]))
    ensures Bulk(args[0]) + u != BulkList(args[..0])
  {
    hide Bulk, BulkList;
    var b := Bulk(args[0]);
    BulkNotEmpty(args[0]);
    NoBulkYet(args);
    forall j | 0 < j <= |args| ensures b + u == BulkList(args[..j]) <==> u == BulkList(args[1..][..j - 1]) {
      FirstBulk(args, j);
      var run := BulkList(args[1..][..j - 1]);
      assert (b + u)[|b|..] == u && (b + run)[|b|..] == run;
    }
  }

  lemma FirstBulkCut(r: Reader, args: Argv, rest: seq<Bytes>)
    requires r.code == Ok && r.elements == |args| && args != [] && r.unread != [] && NonEmptyAll(rest)
    requires r.unread + Concat(rest) == BulkList(args) && |r.unread| <= IOBUF_LEN && |r.unread| < |Bulk(args[0])|
    ensures Reply(r, DataOf(rest)).0.code != Ok
    ensures forall j :: 0 <= j <= |args| ==> r.unread != BulkList(args[..j])
  {
    hide Item, Reply, Bulk;
    var b, y := Bulk(args[0]), BulkList(args[1..]);
    assert |r.unread + Concat(rest)| == |r.unread| + |Concat(rest)|;
    assert rest != [] && rest[0] != [] && Concat(rest) == rest[0] + Concat(rest[1..]);
    var z := b[|r.unread|..];
    assert r.unread == (r.unread + Concat(rest))[..|r.unread|] == b[..|r.unread|];
    assert r.unread + z == b;
    assert rest[0][0] == (r.unread + Concat(rest))[|r.unread|] == (b + y)[|r.unread|] == z[0];
    BulkCut(r, args[0], z, rest[0], DataOf(rest[1..]));
    forall j | 0 <= j <= |args| ensures r.unread != BulkList(args[..j]) {
      if j > 0 { FirstBulk(args, j); }
    }
  }

  lemma {:induction false} BulksReadExactly(r: Reader, args: Argv, chunks: seq<Bytes>)
    requires r.code == Ok && r.elements == |args| && r.unread == [] && AreReads(chunks)
    requires Concat(chunks) == BulkList(args)
    ensures Reply(r, DataOf(chunks)) == (Reader(Ok, 0, r.argv + args, []), []) <==> WholeBulks(args, chunks)
    decreases |chunks|, 0
  {
    hide Item, Reply, Bulk, Fill;
    if chunks == [] {
      if args != [] { BulkNotEmpty(args[0]); }
      NothingMore(r);
      assert r.argv + args == r.argv;
    } else {
      var c, rest := chunks[0], chunks[1..];
      assert c != [] && Concat(chunks) == c + Concat(rest) && args != [];
      assert forall i :: 0 <= i < |rest| ==> rest[i] == chunks[i + 1];
      assert |c + Concat(rest)| == |c| + |Concat(rest)|;
      var k := TakeBulks(r.(unread := c), args, rest);
      StepFill(r, c, DataOf(rest));
      if k >= 0 {
        BulksGoOn(r.argv, args, k, c, rest);
        OnlyRun(args, k, chunks);
      }
    }
  }

  /** The reads behind the first k bulk strings. */
  lemma {:induction false} BulksGoOn(argv: Argv, args: Argv, k: nat, c: Bytes, rest: seq<Bytes>)
    requires 0 <= k <= |args| && c == BulkList(args[..k]) && c + Concat(rest) == BulkList(args)
    requires AreReads(rest)
    ensures Reply(Reader(Ok, |args| - k, argv + args[..k], []), DataOf(rest)) == (Reader(Ok, 0, argv + args, []), [])
            <==> WholeBulks(args[k..], rest)
    decreases |rest|, 1
  {
    hide Item, Reply, Bulk, Fill, WholeBulks;
    BulkListSplit(args, k);
    assert Concat(rest) == (c + Concat(rest))[|c|..] == BulkList(args[k..]);
    assert |BulkList(args)| == |c| + |Concat(rest)|;
    BulksReadExactly(Reader(Ok, |args| - k, argv + args[..k], []), args[k..], rest);
    Assoc(argv, args[..k], args[k..]);
    assert args[..k] + args[k..] == args;
  }

  lemma OnlyRun(args: Argv, k: nat, chunks: seq<Bytes>)
    requires chunks != [] && 0 < k <= |args| && chunks[0] == BulkList(args[..k])
    ensures WholeBulks(args, chunks) <==> WholeBulks(args[k..], chunks[1..])
  {
    hide BulkList;
    forall j | 0 < j <= |args| && chunks[0] == BulkList(args[..j]) ensures j == k {
      if j < k { LongerRun(args, j, k); }
      if k < j { LongerRun(args, k, j); }
    }
  }

  /** A printed command, cut into reads, is returned right if and only if every read ends between items. */
  lemma CommandReadsExactly(cmd: Argv, chunks: seq<Bytes>)
    requires AreReads(chunks) && Concat(chunks) == Command(cmd)
    ensures Reply(Reader(Ok, 1, [], []), DataOf(chunks)) == (Reader(Ok, 0, cmd, []), []) <==> WholeReads(cmd, chunks)
  {
    hide Item, Reply, Bulk, Fill, BulkList, Line, WholeBulks, DataOf;
    var r, line := Reader(Ok, 1, [], []), Line(STAR, |cmd|);
    LineNotEmpty(|cmd|);
    assert chunks != [];
    var c, rest := chunks[0], chunks[1..];
    assert c != [] && Concat(chunks) == c + Concat(rest);
    assert forall i :: 0 <= i < |rest| ==> rest[i] == chunks[i + 1];
    assert |c + Concat(rest)| == |c| + |Concat(rest)|;
    DataOfCons(chunks);
    StepFill(r, c, DataOf(rest));
    if |c| < |line| {
      CountCut(cmd, c, rest);
      assert forall k :: 0 <= k <= |cmd| ==> c != line + BulkList(cmd[..k]);
    } else {
      CountWhole(cmd, c, rest);
      assert c == line + c[|line|..];
      OnlyFirstRead(cmd, c[|line|..], chunks);
    }
  }

  lemma DataOfCons(chunks: seq<Bytes>)
    requires chunks != []
    ensures DataOf(chunks) == [Data(chunks[0])] + DataOf(chunks[1..])
  {
  }

  lemma OnlyFirstRead(cmd: Argv, u: Bytes, chunks: seq<Bytes>)
    requires chunks != [] && chunks[0] == Line(STAR, |cmd|) + u
    ensures WholeReads(cmd, chunks) <==>
            exists k :: 0 <= k <= |cmd| && u == BulkList(cmd[..k]) && WholeBulks(cmd[k..], chunks[1..])
  {
    hide BulkList, Line, WholeBulks;
    var line := Line(STAR, |cmd|);
    forall k | 0 <= k <= |cmd|
      ensures chunks[0] == line + BulkList(cmd[..k]) <==> u == BulkList(cmd[..k])
    {
      assert (line + u)[|line|..] == u && (line + BulkList(cmd[..k]))[|line|..] == BulkList(cmd[..k]);
    }
  }

  /** A read that ends inside the count line. */
  lemma CountCut(cmd: Argv, c: Bytes, rest: seq<Bytes>)
    requires c + Concat(rest) == Command(cmd) && c != [] && NonEmptyAll(rest) && |c| <= IOBUF_LEN
    requires |c| < |Line(STAR, |cmd|)|
    ensures Reply(Reader(Ok, 1, [], c), DataOf(rest)).0.code != Ok
  {
    hide Item, Reply, Fill, BulkList, Decimal;
    var d, y, u := Decimal(|cmd|), BulkList(cmd), c[1..];
    var r, z, whole := Reader(Ok, 1, [], c), (d + CRLF)[|c| - 1..], c + Concat(rest);
    assert |whole| == |c| + |Concat(rest)| && whole == [STAR] + d + CRLF + y;
    assert c == whole[..|c|] && c[0] == STAR && c == [STAR] + u;
    assert u == whole[1..|c|] == (d + CRLF)[..|c| - 1];
    assert u + z == d + CRLF && z != [];
    DecimalDigits(|cmd|);
    NoCrlfYet(d, u, z);
    CountHalf(r, u);
    assert rest != [] && rest[0] != [] && Concat(rest) == rest[0] + Concat(rest[1..]);
    assert (u + rest[0])[0] == whole[1] == d[0];
    StepHalf(r, DataOf(rest));
    HalfThenBad(Item(r), rest[0], DataOf(rest[1..]));
  }

  lemma CountHalf(r: Reader, u: Bytes)
    requires r.unread == [STAR] + u && FirstCrlf(u) == None
    ensures Item(r) == r.(code := HalfReply, unread := u)
  {
    assert r.unread[1..] == u;
  }

  /** A read that takes the count line and more. */
  lemma CountWhole(cmd: Argv, c: Bytes, rest: seq<Bytes>)
    requires c + Concat(rest) == Command(cmd) && c != [] && AreReads(rest) && |c| <= IOBUF_LEN
    requires |c| >= |Line(STAR, |cmd|)|
    ensures c[..|Line(STAR, |cmd|)|] == Line(STAR, |cmd|)
    ensures var u := c[|Line(STAR, |cmd|)|..];
            Reply(Reader(Ok, 1, [], c), DataOf(rest)) == (Reader(Ok, 0, cmd, []), []) <==>
            exists k :: 0 <= k <= |cmd| && u == BulkList(cmd[..k]) && WholeBulks(cmd[k..], rest)
  {
    hide Item, Reply, Fill, Line, BulkList, WholeBulks, DataOf;
    var line, y, none: Argv := Line(STAR, |cmd|), BulkList(cmd), [];
    var u, whole := c[|line|..], c + Concat(rest);
    assert |whole| == |c| + |Concat(rest)| && whole == line + y;
    assert c[..|line|] == whole[..|line|] == line && c == line + u;
    assert u + Concat(rest) == whole[|line|..] == y;
    CountItem(none, |cmd|, u);
    LineNotEmpty(|cmd|);
    StepOk(Reader(Ok, 1, none, c), DataOf(rest));
    BulksBehindCount(cmd, u, rest);
  }

  lemma BulksBehindCount(cmd: Argv, u: Bytes, rest: seq<Bytes>)
    requires u + Concat(rest) == BulkList(cmd) && AreReads(rest) && |u| <= IOBUF_LEN
    ensures Reply(Reader(Ok, |cmd|, [], u), DataOf(rest)) == (Reader(Ok, 0, cmd, []), []) <==>
            exists k :: 0 <= k <= |cmd| && u == BulkList(cmd[..k]) && WholeBulks(cmd[k..], rest)
  {
    hide Item, Reply, Fill, BulkList, WholeBulks, DataOf;
    var none: Argv := [];
    assert |u + Concat(rest)| == |u| + |Concat(rest)|;
    var k := 0;
    if u != [] {
      k := TakeBulks(Reader(Ok, |cmd|, none, u), cmd, rest);
    } else {
      NoBulkYet(cmd);
    }
    if k >= 0 {
      BulksGoOn(none, cmd, k, u, rest);
      assert none + cmd == cmd && none + cmd[..k] == cmd[..k];
      assert k == 0 ==> cmd[..0] == none;
      forall j | 0 <= j <= |cmd| && u == BulkList(cmd[..j]) ensures j == k {
        if j < k { LongerRun(cmd, j, k); }
        if k < j { LongerRun(cmd, k, j); }
      }
    }
  }

  lemma NoBulkYet(cmd: Argv)
    ensures BulkList(cmd[..0]) == []
  {
  }

  // ----- which commands can be read at all

  /** The count line and each bulk string fit into the buffer. */
  predicate ItemsFit(cmd: Argv) {
    |Line(STAR, |cmd|)| <= IOBUF_LEN && forall k :: 0 <= k < |cmd| ==> |Bulk(cmd[k])| <= IOBUF_LEN
  }

  /** A run of bulk strings is as long as each of them. */
  lemma {:induction false} RunHolds(args: Argv, j: nat)
    requires j < |args|
    ensures |Bulk(args[j])| <= |BulkList(args)|
  {
    hide Bulk;
    if j > 0 {
      RunHolds(args[1..], j - 1);
    }
  }

  lemma {:induction false} WholeBulksFit(args: Argv, chunks: seq<Bytes>)
    requires WholeBulks(args, chunks) && AreReads(chunks) && Concat(chunks) == BulkList(args)
    ensures forall j :: 0 <= j < |args| ==> |Bulk(args[j])| <= IOBUF_LEN
    decreases |chunks|
  {
    hide Bulk;
    if chunks == [] {
      if args != [] { BulkNotEmpty(args[0]); }
    } else {
      var k :| 0 < k <= |args| && chunks[0] == BulkList(args[..k]) && WholeBulks(args[k..], chunks[1..]);
      BehindRun(args, k, chunks[0], chunks[1..]);
      WholeBulksFit(args[k..], chunks[1..]);
      forall j | 0 <= j < |args| ensures |Bulk(args[j])| <= IOBUF_LEN {
        if j < k {
          RunHolds(args[..k], j);
        } else {
          assert args[j] == args[k..][j - k];
        }
      }
    }
  }

  lemma BehindRun(args: Argv, k: nat, c: Bytes, rest: seq<Bytes>)
    requires k <= |args| && c == BulkList(args[..k]) && c + Concat(rest) == BulkList(args)
    ensures Concat(rest) == BulkList(args[k..])
  {
    hide BulkList;
    BulkListSplit(args, k);
    assert (c + Concat(rest))[|c|..] == Concat(rest) && (c + BulkList(args[k..]))[|c|..] == BulkList(args[k..]);
  }

  function EachBulk(args: Argv): (chunks: seq<Bytes>)
    ensures |chunks| == |args|
  {
    if args == [] then [] else [Bulk(args[0])] + EachBulk(args[1..])
  }

  lemma {:induction false} EachBulkIsWhole(args: Argv)
    requires forall k :: 0 <= k < |args| ==> |Bulk(args[k])| <= IOBUF_LEN
    ensures AreReads(EachBulk(args)) && Concat(EachBulk(args)) == BulkList(args) && WholeBulks(args, EachBulk(args))
    decreases |args|
  {
    hide Bulk;
    if args != [] {
      EachBulkIsWhole(args[1..]);
      BulkNotEmpty(args[0]);
      FirstBulk(args, 1);
      assert args[1..][..0] == [] && Bulk(args[0]) + [] == Bulk(args[0]);
      assert EachBulk(args)[1..] == EachBulk(args[1..]);
    }
  }

  /** The command comes with these reads, and is returned right. */
  ghost predicate ReadRight(cmd: Argv, chunks: seq<Bytes>) {
    && AreReads(chunks) && Concat(chunks) == Command(cmd)
    && Reply(Reader(Ok, 1, [], []), DataOf(chunks)) == (Reader(Ok, 0, cmd, []), [])
  }

  ghost predicate Readable(cmd: Argv) { exists chunks: seq<Bytes> :: ReadRight(cmd, chunks) }

  /** Some reads return a command right if and only if each of its items fits into the buffer. */
  lemma ReadableExactly(cmd: Argv)
    ensures Readable(cmd) <==> ItemsFit(cmd)
  {
    hide ItemsFit, ReadRight;
    if Readable(cmd) {
      var chunks: seq<Bytes> :| ReadRight(cmd, chunks);
      ReadRightFits(cmd, chunks);
    }
    if ItemsFit(cmd) {
      ItemByItem(cmd);
    }
  }

  lemma ReadRightFits(cmd: Argv, chunks: seq<Bytes>)
    requires ReadRight(cmd, chunks)
    ensures ItemsFit(cmd)
  {
    hide Reply, ItemsFit, WholeReads, Command;
    CommandReadsExactly(cmd, chunks);
    WholeReadsFit(cmd, chunks);
  }

  lemma ItemByItem(cmd: Argv)
    requires ItemsFit(cmd)
    ensures ReadRight(cmd, [Line(STAR, |cmd|)] + EachBulk(cmd))
  {
    hide Reply, Bulk, Line, DataOf, WholeBulks, Command, Concat, BulkList;
    var line, bulks := Line(STAR, |cmd|), EachBulk(cmd);
    var chunks := [line] + bulks;
    LineNotEmpty(|cmd|);
    EachBulkIsWhole(cmd);
    NoBulkYet(cmd);
    CommandParts(cmd, bulks);
    assert chunks[1..] == bulks && cmd[0..] == cmd && line + [] == line;
    assert AreReads(chunks) by {
      assert forall k :: 0 < k < |chunks| ==> chunks[k] == bulks[k - 1];
    }
    assert chunks[0] == line + BulkList(cmd[..0]) && WholeBulks(cmd[0..], chunks[1..]);
    CommandReadsExactly(cmd, chunks);
  }

  lemma CommandParts(cmd: Argv, bulks: seq<Bytes>)
    requires Concat(bulks) == BulkList(cmd)
    ensures Concat([Line(STAR, |cmd|)] + bulks) == Command(cmd)
  {
    hide Line, BulkList;
    assert ([Line(STAR, |cmd|)] + bulks)[1..] == bulks;
  }

  lemma WholeReadsFit(cmd: Argv, chunks: seq<Bytes>)
    requires WholeReads(cmd, chunks) && AreReads(chunks) && Concat(chunks) == Command(cmd)
    ensures ItemsFit(cmd)
  {
    hide Bulk, Line, BulkList, WholeBulks;
    var line := Line(STAR, |cmd|);
    var k :| 0 <= k <= |cmd| && chunks[0] == line + BulkList(cmd[..k]) && WholeBulks(cmd[k..], chunks[1..]);
    var run, rest := BulkList(cmd[..k]), chunks[1..];
    Assoc(line, run, Concat(rest));
    assert (line + (run + Concat(rest)))[|line|..] == run + Concat(rest);
    assert (line + BulkList(cmd))[|line|..] == BulkList(cmd);
    BehindRun(cmd, k, run, rest);
    WholeBulksFit(cmd[k..], rest);
    forall j | 0 <= j < |cmd| ensures |Bulk(cmd[j])| <= IOBUF_LEN {
      if j < k {
        RunHolds(cmd[..k], j);
      } else {
        assert cmd[j] == cmd[k..][j - k];
      }
    }
  }
}
