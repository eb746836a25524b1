/** The RedisParser object: the fields and loops of the source, proved against RedisRequests. */
module RedisParserObject {
  import opened ByteStrings
  import opened RedisRequests
  import opened RedisSerializer
  import SplitArgs

  /** status_code_; CodeThrown is not a status of the source but an exception leaving the call. */
  datatype Code = CodeInitDone | CodeHalf | CodeDone | CodeError | CodeThrown

  lemma DropMore(buf: Bytes, at: nat, n: nat)
    requires at + n <= |buf|
    ensures buf[at..][n..] == buf[at + n..]
  {
  }

  lemma NoRequest(cfg: Settings, total: nat, kind: Kind, cmd: Cmd, log: Log, buf: Bytes)
    requires buf == []
    ensures Requests(cfg, total, kind, cmd, log, buf) == Finish(cfg, kind, cmd, log)
  {
  }

  class RedisParser {
    const settings: Settings
    var code: Code
    var error: Option<Error>
    var kind: Kind
    var multibulkLen: int
    var bulkLen: int
    var halfArgv: Bytes
    var argv: Argv
    var argvs: seq<Argv>
    var curPos: int
    var length: int
    var inputBuf: Bytes
    /** The calls made to DealMessage and to Complete. */
    var dealt: seq<Argv>
    var completed: seq<seq<Argv>>

    ghost function CmdNow(): Cmd
      reads this
    {
      Cmd(multibulkLen, bulkLen, argv)
    }

    ghost function LogNow(): Log
      reads this
    {
      Log(argvs, dealt, completed)
    }

    /** The parser as a value, between calls. The cache counts only while a request is half read. */
    ghost function State(): Parser
      reads this
    {
      match code
      case CodeInitDone => Open(InitDone, kind, CmdNow(), [], LogNow())
      case CodeHalf => Open(Half, kind, CmdNow(), halfArgv, LogNow())
      case CodeDone => Open(Done, kind, CmdNow(), [], LogNow())
      case CodeError => Failed(if error.Some? then error.value else InitError, LogNow())
      case CodeThrown => Aborted(LogNow())
    }

    ghost predicate Valid()
      reads this
    {
      && (code == CodeInitDone || code == CodeDone ==> halfArgv == [])
      && (code == CodeError ==> error.Some?)
      && curPos == 0
    }

    /** Inside a call: a position in the buffer. */
    ghost predicate Reading()
      reads this
    {
      0 <= curPos <= length == |inputBuf|
    }

    ghost function Rest(): Bytes
      requires Reading()
      reads this
    {
      inputBuf[curPos..]
    }

    constructor (s: Settings)
      ensures settings == s && Valid() && State() == Fresh()
    {
      settings := s;
      code, error, kind := CodeInitDone, None, Unset;
      multibulkLen, bulkLen, halfArgv, argv, argvs := 0, -1, [], [], [];
      curPos, length, inputBuf, dealt, completed := 0, 0, [], [], [];
    }

    method FindNextSeparators() returns (pos: int)
      requires Reading()
      ensures pos == (if IndexOf(Rest(), LF) < 0 then -1 else curPos + IndexOf(Rest(), LF))
    {
      var i := IndexOf(inputBuf[curPos..], LF);
      pos := if i < 0 then -1 else curPos + i;
    }

    method GetNextNum(pos: int) returns (value: Option<int>)
      requires Reading() && curPos <= pos < length
      ensures value == NextNum(Rest(), pos - curPos)
    {
      assert Rest()[1..][..] == inputBuf[curPos + 1..];
      if pos - curPos - 2 < 0 {
        value := None;
      } else {
        assert Rest()[1..pos - curPos - 1] == inputBuf[curPos + 1..pos - 1];
        value := ParseLong(inputBuf[curPos + 1..pos - 1]);
      }
    }

    method SetHalf()
      requires Reading()
      modifies `halfArgv, `curPos, `code, `error
      ensures code == CodeHalf && error == None && halfArgv == old(Rest()) && curPos == length
    {
      halfArgv := inputBuf[curPos..];
      curPos := length;
      code, error := CodeHalf, None;
    }

    method SetError(e: Error)
      modifies `code, `error
      ensures code == CodeError && error == Some(e)
    {
      code, error := CodeError, Some(e);
    }

    /** How the fields show the outcome of one request that started at position start. */
    ghost predicate Shows(s: Scan, start: int)
      reads this
    {
      match s
      case Complete(a, rest) => code == CodeDone && argv == a && Reading() && start < curPos && Rest() == rest
      case Cached(c, h) => code == CodeHalf && CmdNow() == c && halfArgv == h
      case Malformed => code == CodeError && error == Some(ProtoError)
      case TooLong => code == CodeError && error == Some(FullError)
      case Thrown => code == CodeThrown
    }

    method ProcessInlineBuffer()
      requires Reading() && curPos < length
      modifies `argv, `halfArgv, `curPos, `code, `error
      ensures Shows(InlineLine(length, old(CmdNow()), old(Rest())), old(curPos))
    {
      hide IndexOf, SplitArgs.ReadArgs;
      ghost var rest := Rest();
      var pos := FindNextSeparators();
      if pos == -1 {
        if length > INLINE_MAXLEN {
          SetError(FullError);
        } else {
          SetHalf();
        }
        return;
      }
      var rc, args := SplitArgs.Split2Args(inputBuf[curPos..]);
      DropMore(inputBuf, curPos, pos - curPos + 1);
      argv := args;
      curPos := pos + 1;
      if rc == -1 {
        SetError(ProtoError);
      } else {
        code, error := CodeDone, None;
      }
    }

    method ProcessMultibulkBuffer()
      requires Reading() && curPos < length
      modifies `multibulkLen, `bulkLen, `argv, `halfArgv, `curPos, `code, `error
      ensures Shows(Multibulk(old(CmdNow()), old(Rest())), old(curPos))
    {
      hide Bulks, IndexOf, NextNum;
      ghost var start, goal := curPos, Multibulk(CmdNow(), Rest());
      if multibulkLen == 0 {
        var pos := FindNextSeparators();
        if pos == -1 {
          SetHalf();
          return;
        }
        var value := GetNextNum(pos);
        if value.None? {
          SetError(ProtoError);
          return;
        }
        assert Rest()[pos - curPos + 1..] == inputBuf[pos + 1..];
        multibulkLen := value.value;
        curPos := pos + 1;
        argv := [];
        if curPos > length - 1 {
          SetHalf();
          return;
        }
      }
      assert Bulks(CmdNow(), Rest()) == goal;
      ReadBulks(start);
    }

    /** The first half of the loop body: the length line of the next bulk string. */
    method ReadBulkHeader() returns (go: bool)
      requires Reading() && multibulkLen != 0
      modifies `bulkLen, `halfArgv, `curPos, `code, `error
      ensures match BulkHeader(old(CmdNow()), old(Rest()))
              case Go(q, r) => go && Reading() && old(curPos) <= curPos && CmdNow() == q && Rest() == r
              case Stop(s) => !go && Shows(s, 0)
    {
      hide IndexOf, NextNum;
      ghost var c, rest := CmdNow(), Rest();
      if bulkLen == -1 {
        var pos := FindNextSeparators();
        if pos == -1 {
          assert BulkHeader(c, rest) == Stop(Cached(c, rest));
          SetHalf();
          return false;
        }
        assert rest[0] == inputBuf[curPos];
        if inputBuf[curPos] != DOLLAR {
          assert BulkHeader(c, rest) == Stop(Malformed);
          SetError(ProtoError);
          return false;
        }
        var value := GetNextNum(pos);
        if value.None? {
          assert BulkHeader(c, rest) == Stop(Malformed);
          SetError(ProtoError);
          return false;
        }
        DropMore(inputBuf, curPos, pos - curPos + 1);
        bulkLen := value.value;
        curPos := pos + 1;
        if curPos > length - 1 {
          assert BulkHeader(c, rest) == Stop(Cached(CmdNow(), []));
          SetHalf();
          return false;
        }
        assert BulkHeader(c, rest) == Go(CmdNow(), Rest());
      }
      return true;
    }

    /** The loop over bulk strings, and how the request ends. */
    method ReadBulks(ghost start: int)
      requires Reading() && start <= curPos && (multibulkLen == 0 ==> start < curPos)
      modifies `multibulkLen, `bulkLen, `argv, `halfArgv, `curPos, `code, `error
      ensures Shows(Bulks(old(CmdNow()), old(Rest())), start)
    {
      hide BulkHeader;
      ghost var goal := Bulks(CmdNow(), Rest());
      while multibulkLen != 0
        invariant Reading() && start <= curPos && (multibulkLen == 0 ==> start < curPos)
        invariant Bulks(CmdNow(), Rest()) == goal
        decreases length - curPos
      {
        var go := ReadBulkHeader();
        if !go {
          return;
        }
        ghost var q, r := CmdNow(), Rest();
        if (length - 1) - curPos + 1 < bulkLen + 2 {
          assert goal == Cached(q, r);
          SetHalf();
          return;
        }
        if bulkLen < 0 {
          code := CodeThrown;
          return;
        }
        assert r[..bulkLen] == inputBuf[curPos..curPos + bulkLen];
        assert r[bulkLen + 2..] == inputBuf[curPos + bulkLen + 2..];
        argv := argv + [inputBuf[curPos..curPos + bulkLen]];
        curPos := curPos + bulkLen + 2;
        bulkLen := -1;
        multibulkLen := multibulkLen - 1;
        assert CmdNow() == TakeBulk(q, r);
      }
      code, error := CodeDone, None;
    }

    method ResetCommandStatus()
      modifies `kind, `multibulkLen, `bulkLen, `halfArgv
      ensures kind == Unset && multibulkLen == 0 && bulkLen == -1 && halfArgv == []
    {
      kind, multibulkLen, bulkLen, halfArgv := Unset, 0, -1, [];
    }

    /** A complete command: queue it and show it to DealMessage. */
    method DealParsed() returns (ok: bool)
      modifies `argv, `argvs, `dealt, `code, `error
      ensures LogNow() == Deal(settings, old(LogNow()), old(argv)) && argv == []
      ensures ok == !DealFails(settings, old(LogNow()), old(argv))
      ensures !ok ==> code == CodeError && error == Some(DealError)
    {
      ok := true;
      if argv != [] {
        argvs := argvs + [argv];
        if settings.deal.Some? {
          dealt := dealt + [argv];
          if settings.deal.value(dealt) != 0 {
            SetError(DealError);
            ok := false;
          }
        }
        argv := [];
      }
    }

    /** The end of the buffer: hand the queued commands to Complete. */
    method FinishBuffer()
      modifies `argvs, `completed, `code, `error
      ensures code == CodeDone || (code == CodeError && error.Some?)
      ensures halfArgv == [] ==> State() == Finish(settings, kind, CmdNow(), old(LogNow()))
    {
      if settings.complete.Some? {
        completed := completed + [LowerNames(argvs)];
        argvs := [];
        if settings.complete.value(completed) != 0 {
          SetError(CompleteError);
          return;
        }
      }
      argvs := [];
      code, error := CodeDone, None;
    }

    /** Decide the kind of the request at the current position, and read it. */
    method ReadRequest()
      requires Reading() && curPos < length
      modifies `kind, `multibulkLen, `bulkLen, `argv, `halfArgv, `curPos, `code, `error
      ensures kind == KindOf(old(kind), old(Rest()))
      ensures Shows(ScanOne(length, kind, old(CmdNow()), old(Rest())), old(curPos))
    {
      hide Multibulk, InlineLine;
      if kind == Unset {
        kind := if inputBuf[curPos] == STAR then MultibulkKind else Inline;
      }
      if kind == Inline {
        ProcessInlineBuffer();
      } else {
        ProcessMultibulkBuffer();
      }
    }

    /** Where the requests from the current position on will lead. */
    ghost function Ahead(): Parser
      requires Reading()
      reads this
    {
      Requests(settings, length, kind, CmdNow(), LogNow(), Rest())
    }

    method ProcessRequestBuffer()
      requires Reading() && (curPos == length ==> halfArgv == [])
      modifies this
      ensures State() == Requests(settings, old(length), old(kind), old(CmdNow()), old(LogNow()), old(Rest()))
      ensures (code == CodeError ==> error.Some?) && (code == CodeDone ==> halfArgv == []) && code != CodeInitDone
    {
      hide Requests;
      ghost var goal := Ahead();
      while curPos <= length - 1
        invariant Reading() && (curPos == length ==> halfArgv == []) && Ahead() == goal
        decreases length - curPos
      {
        var go := ProcessOneRequest();
        if !go {
          return;
        }
      }
      NoRequest(settings, length, kind, CmdNow(), LogNow(), Rest());
      FinishBuffer();
    }

    /** One pass of the loop: go on behind the request, or stop in the state it leads to. */
    method ProcessOneRequest() returns (go: bool)
      requires Reading() && curPos < length
      modifies this
      ensures go ==> Reading() && old(curPos) < curPos && length == old(length) && halfArgv == []
      ensures go ==> Ahead() == old(Ahead())
      ensures !go ==> State() == old(Ahead()) && (code == CodeError ==> error.Some?)
      ensures !go ==> code != CodeDone && code != CodeInitDone
    {
      hide ScanOne, KindOf, Deal, DealFails, Finish;
      ReadRequest();
      if code != CodeDone {
        return false;
      }
      var ok := DealParsed();
      if !ok {
        return false;
      }
      ResetCommandStatus();
      return true;
    }

    method ProcessInputBuffer(chunk: Bytes)
      requires Valid()
      modifies this
      ensures Valid() && State() == Feed(settings, old(State()), chunk)
    {
      hide Requests;
      if code == CodeThrown { return; }
      if code == CodeError {
        SetError(InitError);
        return;
      }
      inputBuf := halfArgv + chunk;
      length := |inputBuf|;
      assert inputBuf[0..] == inputBuf;
      ProcessRequestBuffer();
      curPos, length, inputBuf := 0, 0, [];
    }
  }

  /** A parser fed one chunk after the other, as RedisConn does with what it reads. */
  method ParseChunks(cfg: Settings, chunks: seq<Bytes>) returns (p: RedisParser)
    ensures p.Valid() && p.settings == cfg && p.State() == FeedAll(cfg, Fresh(), chunks)
  {
    hide Feed;
    p := new RedisParser(cfg);
    for i := 0 to |chunks|
      invariant fresh(p) && p.Valid() && p.settings == cfg
      invariant FeedAll(cfg, p.State(), chunks[i..]) == FeedAll(cfg, Fresh(), chunks)
    {
      assert chunks[i..][0] == chunks[i] && chunks[i..][1..] == chunks[i + 1..];
      p.ProcessInputBuffer(chunks[i]);
    }
  }

  /** The object on printed commands: whatever the cut, it deals the commands and nothing else. */
  method ParsePrinted(cfg: Settings, cmds: seq<Argv>, chunks: seq<Bytes>) returns (dealt: seq<Argv>, done: bool)
    requires DealSucceeds(cfg) && CompleteSucceeds(cfg) && NonEmptyAll(cmds)
    requires chunks != [] && NonEmptyAll(chunks) && Concat(chunks) == Stream(cmds)
    ensures dealt == cmds && done
  {
    hide FeedAll, Stream, Command;
    var p := ParseChunks(cfg, chunks);
    var one: Argv := [[]];
    assert Stream(cmds) + [] == Stream(cmds);
    CommandIsRead(one, []);
    PrintedStreamRoundTrip(cfg, cmds, one, [], chunks);
    dealt, done := p.dealt, p.code == CodeDone;
  }
}
