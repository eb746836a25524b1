/** Printing commands in the arrays and bulk strings of RESP, and reading them back. */
module RedisSerializer {
  import opened ByteStrings
  import opened RedisRequests

  function Line(tag: Byte, n: nat): Bytes { [tag] + Decimal(n) + CRLF }

  function Bulk(arg: Bytes): Bytes { Line(DOLLAR, |arg|) + arg + CRLF }

  function BulkList(args: Argv): Bytes {
    if args == [] then [] else Bulk(args[0]) + BulkList(args[1..])
  }

  function Command(argv: Argv): Bytes { Line(STAR, |argv|) + BulkList(argv) }

  function Commands(cmds: seq<Argv>): (parts: seq<Bytes>)
    ensures |parts| == |cmds|
  {
    if cmds == [] then [] else [Command(cmds[0])] + Commands(cmds[1..])
  }

  function Stream(cmds: seq<Argv>): Bytes { Concat(Commands(cmds)) }

  lemma {:induction false} BulkListSnoc(args: Argv, arg: Bytes)
    ensures BulkList(args + [arg]) == BulkList(args) + Bulk(arg)
  {
    if args == [] {
      assert args + [arg] == [arg] && BulkList([arg]) == Bulk(arg) + BulkList([]);
    } else {
      assert (args + [arg])[1..] == args[1..] + [arg];
      BulkListSnoc(args[1..], arg);
    }
  }

  /** A command of two arguments, byte by byte: the count, then each length and argument in order. */
  lemma TwoArguments(x: Byte, y: Byte, z: Byte)
    ensures Command([[x], [y, z]]) == [42, 50, 13, 10, 36, 49, 13, 10, x, 13, 10, 36, 50, 13, 10, y, z, 13, 10]
  {
    var a, b := [x], [y, z];
    assert Decimal(1) == [49] && Decimal(2) == [50];
    assert Bulk(a) == [36, 49, 13, 10, x, 13, 10];
    assert Bulk(b) == [36, 50, 13, 10, y, z, 13, 10];
    hide Bulk;
    assert [a, b][1..] == [b] && BulkList([b]) == Bulk(b) + BulkList([]);
  }

  /** Each argument stands behind those before it. */
  lemma {:induction false} ArgumentsInOrder(args: Argv, k: nat)
    requires k < |args|
    ensures BulkList(args) == BulkList(args[..k]) + Bulk(args[k]) + BulkList(args[k + 1..])
  {
    hide Bulk;
    if k == 0 {
      assert args[..0] == [];
    } else {
      ArgumentsInOrder(args[1..], k - 1);
      var before := args[1..][..k - 1];
      assert args[..k][1..] == before && args[1..][k..] == args[k + 1..];
      Assoc(Bulk(args[0]), BulkList(before), Bulk(args[k]));
      Assoc(Bulk(args[0]), BulkList(before) + Bulk(args[k]), BulkList(args[k + 1..]));
    }
  }

  // ----- the serializer

  /** The number of characters std::to_string prints. */
  method IntLen(n: int) returns (len: nat)
    ensures len == |Decimal(if n < 0 then -n else n)| + (if n < 0 then 1 else 0)
  {
    len := 0;
    var i := n;
    if i < 0 {
      len := 1;
      i := -i;
    }
    ghost var sign := len;
    len, i := len + 1, i / 10;
    while i != 0
      invariant i >= 0
      invariant i == 0 ==> len == sign + |Decimal(if n < 0 then -n else n)|
      invariant i > 0 ==> len + |Decimal(i)| == sign + |Decimal(if n < 0 then -n else n)|
    {
      len, i := len + 1, i / 10;
    }
  }

  method BulkLen(len: nat) returns (r: nat)
    ensures forall arg: Bytes :: |arg| == len ==> r == |Bulk(arg)|
  {
    var digits := IntLen(len);
    r := 1 + digits + 2 + len + 2;
  }

  /** redisFormatCommandArgv, with the space it reserves. */
  method FormatCommandArgv(argv: Argv) returns (cmd: Bytes, totlen: nat)
    ensures cmd == Command(argv) && totlen == |cmd|
  {
    totlen := TotalLen(argv);
    cmd := [STAR] + Decimal(|argv|) + CRLF;
    for i := 0 to |argv|
      invariant cmd == Line(STAR, |argv|) + BulkList(argv[..i])
    {
      assert argv[..i + 1] == argv[..i] + [argv[i]];
      BulkListSnoc(argv[..i], argv[i]);
      cmd := cmd + ([DOLLAR] + Decimal(|argv[i]|) + CRLF + argv[i] + CRLF);
    }
    assert argv[..|argv|] == argv;
  }

  /** The first loop: how long the printed command will be. */
  method TotalLen(argv: Argv) returns (totlen: nat)
    ensures totlen == |Command(argv)|
  {
    var digits := IntLen(|argv|);
    totlen := 1 + digits + 2;
    for i := 0 to |argv|
      invariant totlen == |Line(STAR, |argv|)| + |BulkList(argv[..i])|
    {
      var len := BulkLen(|argv[i]|);
      assert argv[..i + 1] == argv[..i] + [argv[i]];
      BulkListSnoc(argv[..i], argv[i]);
      totlen := totlen + len;
    }
    assert argv[..|argv|] == argv;
  }

  // ----- reading one printed command

  /** A printed number line is found, and its number recovered. */
  lemma NumberLine(tag: Byte, n: nat, x: Bytes)
    requires tag != LF
    ensures var buf := Line(tag, n) + x;
            var i := |Line(tag, n)| - 1;
            IndexOf(buf, LF) == i && NextNum(buf, i) == Some(n) && buf[i + 1..] == x && buf[0] == tag
  {
    var buf, i := Line(tag, n) + x, |Line(tag, n)| - 1;
    DecimalDigits(n);
    ParseLongDecimal(n);
    assert forall k :: 0 <= k < |Decimal(n)| ==> buf[k + 1] == Decimal(n)[k];
    assert buf[i] == LF && buf[i - 1] == CR;
    forall k | 0 <= k < i ensures buf[k] != LF {
      if 0 < k < i - 1 {
        assert buf[k] == Decimal(n)[k - 1];
      }
    }
    IndexOfUnique(buf, LF, i);
    assert buf[1..i - 1] == Decimal(n);
  }

  /** One printed bulk string is consumed and appended. */
  lemma BulkIsRead(c: Cmd, arg: Bytes, x: Bytes)
    requires c.multibulkLen != 0 && c.bulkLen == -1
    ensures var after := Cmd(c.multibulkLen - 1, -1, c.argv + [arg]);
            Bulks(c, Bulk(arg) + x) == Bulks(after, x)
  {
    hide BulkHeader, Line;
    var line, r := Line(DOLLAR, |arg|), arg + CRLF + x;
    Assoc(line + arg, CRLF, x);
    Assoc(line, arg, CRLF + x);
    Assoc(arg, CRLF, x);
    LengthIsRead(c, |arg|, r);
    assert r[..|arg|] == arg && r[|arg| + 2..] == x;
  }

  lemma LengthIsRead(c: Cmd, n: nat, r: Bytes)
    requires c.bulkLen == -1 && r != []
    ensures BulkHeader(c, Line(DOLLAR, n) + r) == Go(c.(bulkLen := n), r)
  {
    hide IndexOf, NextNum, Decimal;
    NumberLine(DOLLAR, n, r);
  }

  lemma NothingLeftToRead(done: Argv, x: Bytes)
    ensures Bulks(Cmd(0, -1, done), x) == Complete(done, x)
  {
  }

  lemma {:induction false} BulkListIsRead(done: Argv, args: Argv, x: Bytes)
    ensures Bulks(Cmd(|args|, -1, done), BulkList(args) + x) == Complete(done + args, x)
    decreases |args|
  {
    hide Bulk, Bulks;
    if args == [] {
      assert done + args == done && BulkList(args) + x == x;
      NothingLeftToRead(done, x);
    } else {
      var y := BulkList(args[1..]) + x;
      assert BulkList(args) + x == Bulk(args[0]) + y;
      BulkIsRead(Cmd(|args|, -1, done), args[0], y);
      BulkListIsRead(done + [args[0]], args[1..], x);
      assert Cmd(|args| - 1, -1, done + [args[0]]) == Cmd(|args[1..]|, -1, done + [args[0]]);
      assert done + [args[0]] + args[1..] == done + args;
    }
  }

  lemma CommandIsRead(argv: Argv, x: Bytes)
    requires argv != []
    ensures Multibulk(NO_CMD, Command(argv) + x) == Complete(argv, x)
    ensures Command(argv) != [] && Command(argv)[0] == STAR
  {
    var r := BulkList(argv) + x;
    assert Command(argv) + x == Line(STAR, |argv|) + r;
    NumberLine(STAR, |argv|, r);
    assert r != [] by {
      assert BulkList(argv) == Bulk(argv[0]) + BulkList(argv[1..]);
    }
    BulkListIsRead([], argv, x);
    var none: Argv := [];
    assert none + argv == argv;
  }

  // ----- reading a printed stream

  lemma CommandReadsBack(argv: Argv)
    requires argv != []
    ensures ReadsAs(Command(argv), argv)
  {
    var part := Command(argv);
    CommandIsRead(argv, []);
    forall y: Bytes ensures Multibulk(NO_CMD, part + y) == Complete(argv, y) {
      CommandIsRead(argv, y);
    }
  }

  lemma {:induction false} CommandsReadBack(cmds: seq<Argv>)
    requires NonEmptyAll(cmds)
    ensures forall k :: 0 <= k < |cmds| ==> ReadsAs(Commands(cmds)[k], cmds[k])
    decreases |cmds|
  {
    if cmds != [] {
      CommandReadsBack(cmds[0]);
      CommandsReadBack(cmds[1..]);
      forall k | 0 <= k < |cmds| ensures ReadsAs(Commands(cmds)[k], cmds[k]) {
        if k > 0 {
          assert Commands(cmds)[k] == Commands(cmds[1..])[k - 1] && cmds[k] == cmds[1..][k - 1];
        }
      }
    }
  }

  /** A proper, non-empty prefix of a printed command is cached, not refused. */
  lemma PrefixIsCached(argv: Argv, w: Bytes, z: Bytes)
    requires argv != [] && Command(argv) == w + z && w != [] && z != []
    ensures Multibulk(NO_CMD, w).Cached? && w[0] == STAR && RequestOk(NO_CMD, w)
  {
    CommandIsRead(argv, []);
    assert Command(argv) + [] == w + z;
    NotThrownRequestOk(NO_CMD, w + z);
    MultibulkExtend(NO_CMD, w, z);
    NotThrownRequestOk(NO_CMD, w);
  }

  /** The round trip: any commands over arbitrary bytes, printed one after the other and followed by
      any prefix w of one more, cut anywhere, are dealt exactly as they were; the parser ends Done
      with nothing cached if w is empty, and waits for the rest of the last command otherwise. */
  lemma PrintedStreamRoundTrip(cfg: Settings, cmds: seq<Argv>, last: Argv, w: Bytes, chunks: seq<Bytes>)
    requires DealSucceeds(cfg) && CompleteSucceeds(cfg) && NonEmptyAll(cmds) && last != []
    requires w <= Command(last) && w != Command(last)
    requires chunks != [] && NonEmptyAll(chunks) && Concat(chunks) == Stream(cmds) + w
    ensures var p := FeedAll(cfg, Fresh(), chunks);
            && p.Open? && p.log.dealt == cmds
            && (w == [] ==> p.status == Done && p.kind == Unset && p.cmd == NO_CMD && p.half == [])
            && (w != [] ==> p.status == Half && p.kind == MultibulkKind)
  {
    hide Multibulk, Command, Bulks;
    var p, stream := Fresh(), Stream(cmds) + w;
    var after := Log(cmds, cmds, []);
    assert p.half + stream == stream;
    assert Dealt(p.log, cmds) == after;
    if w != [] {
      var z := Command(last)[|w|..];
      assert Command(last) == w + z && z != [];
      PrefixIsCached(last, w, z);
    }
    assert Plain(cfg, Unset, NO_CMD, after, w);
    CommandsReadBack(cmds);
    PartsAreDealt(cfg, |stream|, p.log, Commands(cmds), cmds, w, stream);
    assert forall c :: c in chunks ==> c != [];
    SegmentationIndependence(cfg, p, chunks);
  }
}
