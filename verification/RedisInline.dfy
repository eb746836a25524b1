/** What the Redis request parser makes of inline requests, in terms of the words and the bytes of the line. */
module RedisInline {
  import opened ByteStrings
  import opened RedisRequests
  import opened RedisSerializer
  import opened SplitArgs
  import RedisParserObject
  import opened RedisMalformed

  /** A line the parser takes for an inline request: not empty, without a star in front and without a line feed. */
  predicate InlineText(s: Bytes) { s != [] && s[0] != 42 && 10 !in s }

  // ----- one inline line

  /** A line, with or without bytes behind it, as an inline request that starts a buffer or resumes one. */
  lemma LineScanned(cfg: Settings, n: nat, kind: Kind, log: Log, line: Bytes, y: Bytes)
    requires InlineText(line) && (kind == Unset || kind == Inline)
    ensures var p := Requests(cfg, n, kind, NO_CMD, log, line + [LF] + y);
            match SplitArgs.ReadArgs(line + [LF] + y, [])
            case Failed => p == RedisRequests.Failed(ProtoError, log)
            case Args(argv) =>
              if DealFails(cfg, log, argv) then p == RedisRequests.Failed(DealError, Deal(cfg, log, argv))
              else p == Requests(cfg, n, Unset, NO_CMD, Deal(cfg, log, argv), y)
  {
    hide SplitArgs.ReadArgs, Multibulk;
    var buf := line + [LF] + y;
    assert forall k :: 0 <= k < |line| ==> buf[k] == line[k] && buf[k] in line;
    IndexOfUnique(buf, LF, |line|);
    assert buf[|line| + 1..] == y && buf[0] == line[0];
  }

  lemma LineUnended(cfg: Settings, n: nat, kind: Kind, log: Log, line: Bytes)
    requires InlineText(line) && (kind == Unset || kind == Inline)
    ensures Requests(cfg, n, kind, NO_CMD, log, line) ==
            if n > 65536 then RedisRequests.Failed(FullError, log) else Open(Half, Inline, NO_CMD, line, log)
  {
    hide Multibulk, SplitArgs.ReadArgs;
    assert IndexOf(line, LF) == -1;
  }

  /** Words in any style, written on a line of their own. */
  predicate LineOfWords(words: seq<Word>) {
    words != [] && AllWritable(words) && InlineText(WriteLine(words))
  }

  lemma WordsThenLine(words: seq<Word>, y: Bytes)
    requires AllWritable(words)
    ensures SplitArgs.ReadArgs(WriteLine(words) + CRLF + y, []) == SplitArgs.ReadArgs(y, ArgsOf(words))
  {
    hide SplitArgs.ReadArgs, WriteLine;
    var none: Argv := [];
    assert none + ArgsOf(words) == ArgsOf(words);
    Assoc(WriteLine(words), CRLF, y);
    WriteLineThen(words, none, CRLF + y);
    assert CRLF + y == [CR] + ([LF] + y);
    BetweenArguments(CR, [LF] + y, ArgsOf(words));
    BetweenArguments(LF, y, ArgsOf(words));
  }

  /** A line of words is one command with exactly those arguments. */
  lemma InlineIsDealt(cfg: Settings, words: seq<Word>)
    requires DealSucceeds(cfg) && CompleteSucceeds(cfg) && LineOfWords(words)
    ensures var p := Feed(cfg, Fresh(), WriteLine(words) + CRLF);
            && p.Open? && p.status == Done && p.kind == Unset && p.cmd == NO_CMD && p.half == []
            && p.log.dealt == [ArgsOf(words)] && p.log.argvs == []
  {
    hide SplitArgs.ReadArgs, WriteLine, Requests;
    var none: Bytes, buf := [], WriteLine(words) + CRLF;
    assert none + buf == buf && buf + none == buf;
    LineWithCr(WriteLine(words));
    assert WriteLine(words) + [CR] + [LF] + none == buf;
    WordsThenLine(words, none);
    BetweenArguments(0, none, ArgsOf(words));
    LineScanned(cfg, |buf|, Unset, NOTHING, WriteLine(words) + [CR], none);
    NothingMore(cfg, |buf|, Deal(cfg, NOTHING, ArgsOf(words)));
    assert ArgsOf(words) != [];
  }

  lemma LineWithCr(line: Bytes)
    requires InlineText(line)
    ensures InlineText(line + [CR])
  {
  }

  lemma NothingMore(cfg: Settings, n: nat, log: Log)
    requires CompleteSucceeds(cfg)
    ensures var p := Requests(cfg, n, Unset, NO_CMD, log, []);
            p.Open? && p.status == Done && p.kind == Unset && p.cmd == NO_CMD && p.half == []
            && p.log.dealt == log.dealt && p.log.argvs == []
  {
  }

  /** The splitter sees the rest of the buffer: a multibulk request behind the line is dealt as it is, but its bytes
      are taken for further arguments of the line as well. */
  lemma InlineThenCommand(cfg: Settings, words: seq<Word>, cmd: Argv)
    requires DealSucceeds(cfg) && CompleteSucceeds(cfg) && LineOfWords(words) && cmd != []
    ensures var p := Feed(cfg, Fresh(), WriteLine(words) + CRLF + Command(cmd));
            match SplitArgs.ReadArgs(Command(cmd), ArgsOf(words))
            case Failed => IsRefused(p)
            case Args(argv) =>
              && p.Open? && p.status == Done && p.half == []
              && p.log.dealt == (if argv == [] then [] else [argv]) + [cmd] && p.log.argvs == []
  {
    hide SplitArgs.ReadArgs, WriteLine, Requests, Command, ReadsAs;
    var none: Bytes, y := [], Command(cmd);
    var buf := WriteLine(words) + CRLF + y;
    assert none + buf == buf;
    LineWithCr(WriteLine(words));
    assert WriteLine(words) + [CR] + [LF] + y == buf;
    WordsThenLine(words, y);
    LineScanned(cfg, |buf|, Unset, NOTHING, WriteLine(words) + [CR], y);
    match SplitArgs.ReadArgs(y, ArgsOf(words))
    case Failed =>
    case Args(argv) =>
      var log := Deal(cfg, NOTHING, argv);
      CommandReadsBack(cmd);
      assert y + none == y;
      PartIsDealt(cfg, |buf|, log, y, cmd, none, y);
      NothingMore(cfg, |buf|, Dealt(log, [cmd]));
  }

  /** Words without quotes, line feeds or NULs behind a line are taken for its arguments: "PING" and a request for
      "a" give the arguments PING *1 $1 a, and then the command a. */
  lemma SwallowedRequest(cfg: Settings)
    requires DealSucceeds(cfg) && CompleteSucceeds(cfg)
    ensures var ping: Bytes, star: Bytes, dollar: Bytes, a: Bytes := [80, 73, 78, 71], [42, 49], [36, 49], [97];
            Feed(cfg, Fresh(), ping + CRLF + Command([a])).log.dealt == [[ping, star, dollar, a], [a]]
  {
    hide Requests, SplitArgs.ReadArgs, WriteLine;
    var ping: Bytes, star: Bytes, dollar: Bytes, a: Bytes := [80, 73, 78, 71], [42, 49], [36, 49], [97];
    var one := [Word(Bare, ping)];
    BareWord(ping);
    BareWord(star);
    BareWord(dollar);
    BareWord(a);
    CommandOfA();
    var argv1, argv2, argv3: Argv := [ping], [ping, star], [ping, star, dollar];
    WordsThenLine([Word(Bare, star)], dollar + CRLF + (a + CRLF));
    LineOf(star, argv1, dollar + CRLF + (a + CRLF));
    LineOf(dollar, argv2, a + CRLF);
    LineOf(a, argv3, []);
    assert a + CRLF + [] == a + CRLF;
    assert argv1 + [star] == argv2 && argv2 + [dollar] == argv3 && argv3 + [a] == [ping, star, dollar, a];
    BetweenArguments(0, [], [ping, star, dollar, a]);
    assert ArgsOf(one) == argv1 by { assert one[1..] == []; }
    InlineThenCommand(cfg, one, [a]);
  }

  lemma BareWord(s: Bytes)
    requires s != [] && forall k :: 0 <= k < |s| ==> 33 <= s[k] && s[k] != 34 && s[k] != 39
    ensures WriteLine([Word(Bare, s)]) == s && AllWritable([Word(Bare, s)])
    ensures s[0] != 42 ==> LineOfWords([Word(Bare, s)])
  {
    EscapeBare(s);
    var none: Bytes := [];
    assert none + s + none == s;
    assert Writable(Bare, s);
  }

  lemma {:induction false} EscapeBare(s: Bytes)
    ensures Escape(Bare, s) == s
    decreases |s|
  {
    if s != [] {
      EscapeBare(s[1..]);
      assert s == [s[0]] + s[1..];
    }
  }

  lemma LineOf(s: Bytes, argv: Argv, y: Bytes)
    requires s != [] && forall k :: 0 <= k < |s| ==> 33 <= s[k] && s[k] != 34 && s[k] != 39
    ensures SplitArgs.ReadArgs(s + CRLF + y, argv) == SplitArgs.ReadArgs(y, argv + [s])
  {
    hide SplitArgs.ReadArgs, WriteLine;
    var words := [Word(Bare, s)];
    BareWord(s);
    assert ArgsOf(words) == [s] by { assert words[1..] == []; }
    Assoc(s, CRLF, y);
    WriteLineThen(words, argv, CRLF + y);
    assert CRLF + y == [CR] + ([LF] + y);
    BetweenArguments(CR, [LF] + y, argv + [s]);
    BetweenArguments(LF, y, argv + [s]);
  }

  /** A printed command, in numbers. */
  lemma CommandOfA()
    ensures Command([[97]]) == [42, 49] + CRLF + ([36, 49] + CRLF + ([97] + CRLF))
    ensures Command([[97]]) == [42, 49, 13, 10, 36, 49, 13, 10, 97, 13, 10]
  {
    var args: Argv := [[97]];
    assert BulkList(args) == Bulk(args[0]) + BulkList(args[1..]) == Bulk(args[0]);
    assert Decimal(1) == [49];
  }

  // ----- parts of a line, and malformed lines

  /** A line that has not ended is kept whole up to 65536 bytes and refused beyond. */
  lemma PartOfLine(cfg: Settings, line: Bytes)
    requires InlineText(line)
    ensures Feed(cfg, Fresh(), line) ==
            if |line| > 65536 then RedisRequests.Failed(FullError, NOTHING)
            else Open(Half, Inline, NO_CMD, line, NOTHING)
  {
    hide Requests;
    var none: Bytes := [];
    assert none + line == line;
    LineUnended(cfg, |line|, Unset, NOTHING, line);
  }

  /** A line cut into two parts, the first of at most 65536 bytes, is read as the whole. */
  lemma LineInTwoParts(cfg: Settings, a: Bytes, b: Bytes)
    requires InlineText(a) && |a| <= 65536 && 10 !in b
    ensures Feed(cfg, Feed(cfg, Fresh(), a), b + [LF]) == Feed(cfg, Fresh(), a + b + [LF])
  {
    hide Requests, SplitArgs.ReadArgs;
    var none: Bytes, buf := [], a + b + [LF];
    PartOfLine(cfg, a);
    assert a + (b + [LF]) == buf && none + buf == buf && buf + none == buf;
    LineScanned(cfg, |buf|, Unset, NOTHING, a + b, none);
    LineScanned(cfg, |buf|, Inline, NOTHING, a + b, none);
  }

  /** A line the splitter refuses ends the parse: nothing is dealt. */
  lemma BadLineIsRefused(cfg: Settings, line: Bytes, y: Bytes)
    requires InlineText(line) && SplitArgs.ReadArgs(line + [LF] + y, []) == SplitArgs.Failed
    ensures IsRefused(Feed(cfg, Fresh(), line + [LF] + y))
  {
    hide Requests, SplitArgs.ReadArgs;
    var none: Bytes := [];
    assert none + (line + [LF] + y) == line + [LF] + y;
    LineScanned(cfg, |line + [LF] + y|, Unset, NOTHING, line, y);
  }

  /** For instance a closing quote with another byte behind it. */
  lemma ByteBehindQuoteIsRefused(cfg: Settings, x: Bytes, c: Byte, rest: Bytes, y: Bytes)
    requires forall k :: 0 <= k < |x| ==> x[k] != 34 && x[k] != 92 && x[k] != 0 && x[k] != 10
    requires c != 0 && !Blank(c) && 10 !in rest
    ensures IsRefused(Feed(cfg, Fresh(), [34] + (x + ([34, c] + rest)) + [LF] + y))
  {
    hide Requests, SplitArgs.ReadArgs;
    var line := [34] + (x + ([34, c] + rest));
    BadLines(x, c, rest + [LF] + y);
    assert line + [LF] + y == [34] + (x + ([34, c] + (rest + [LF] + y)));
    BadLineIsRefused(cfg, line, y);
  }

  /** A line of blanks is an empty command: nothing is dealt, and Complete gets an empty batch. */
  lemma BlankLine(cfg: Settings, blanks: Bytes)
    requires CompleteSucceeds(cfg) && blanks != [] && forall k :: 0 <= k < |blanks| ==> blanks[k] in [32, 9, 13]
    ensures var p := Feed(cfg, Fresh(), blanks + [10]);
            && p.Open? && p.status == Done && p.half == [] && p.log.dealt == []
            && p.log.completed == if cfg.complete.Some? then [[]] else []
  {
    hide Requests, SplitArgs.ReadArgs;
    var none: Bytes, buf := [], blanks + [10];
    assert none + buf == buf && buf + none == buf;
    assert forall b :: b in blanks ==> b in [32, 9, 13];
    assert blanks[0] in blanks;
    BlanksOnly(buf, []);
    LineScanned(cfg, |buf|, Unset, NOTHING, blanks, none);
    EmptyBatch(cfg, |buf|);
  }

  lemma EmptyBatch(cfg: Settings, n: nat)
    requires CompleteSucceeds(cfg)
    ensures var p := Requests(cfg, n, Unset, NO_CMD, NOTHING, []);
            && p.Open? && p.status == Done && p.half == [] && p.log.dealt == []
            && p.log.completed == if cfg.complete.Some? then [[]] else []
  {
  }

  // ----- the object

  /** The object on a line of words. */
  method ParseInline(cfg: Settings, words: seq<Word>) returns (dealt: seq<Argv>, done: bool)
    requires DealSucceeds(cfg) && CompleteSucceeds(cfg) && LineOfWords(words)
    ensures dealt == [ArgsOf(words)] && done
  {
    hide Feed, WriteLine;
    var p := new RedisParserObject.RedisParser(cfg);
    p.ProcessInputBuffer(WriteLine(words) + CRLF);
    InlineIsDealt(cfg, words);
    dealt, done := p.dealt, p.code == RedisParserObject.CodeDone;
  }
}
