/** Inline requests: the quoting-aware splitter of the Redis parser. */
module SplitArgs {
  import opened ByteStrings

  datatype Mode = Plain | InDouble | InSingle
  datatype Token = Taken(arg: Bytes, rest: Bytes) | Bad
  datatype Split = Args(argv: seq<Bytes>) | Failed

  /** *(p + i) of the NUL-terminated text whose remaining bytes are s. */
  function At(s: Bytes, i: nat): Byte { if i < |s| then s[i] else NUL }

  /** isspace */
  predicate IsSpace(b: Byte) { b == SPACE || 9 <= b <= 13 }

  predicate IsHexDigit(b: Byte) { IsDigit(b) || 65 <= b <= 70 || 97 <= b <= 102 }

  /** As in the source, the letters count from zero. */
  function HexDigit(b: Byte): (n: int)
    ensures 0 <= n <= 15
  {
    if IsDigit(b) then b - ZERO
    else if 65 <= b <= 70 then b - 65
    else if 97 <= b <= 102 then b - 97
    else 0
  }

  predicate IsHexEscape(s: Bytes) {
    At(s, 0) == BACKSLASH && At(s, 1) == 120 && IsHexDigit(At(s, 2)) && IsHexDigit(At(s, 3))
  }

  /** The byte an escaped letter stands for. */
  function Unescape(b: Byte): Byte {
    if b == 110 then LF else if b == 114 then CR else if b == 116 then TAB
    else if b == 98 then 8 else if b == 97 then 7 else b
  }

  predicate ClosesAt(s: Bytes) { At(s, 1) == NUL || IsSpace(At(s, 1)) }

  predicate EndsPlain(b: Byte) { b == SPACE || b == LF || b == CR || b == TAB || b == NUL }

  /** What the bytes at p mean in a quoting mode: skip n bytes and go on with piece
      appended, skip n bytes and end the token, or give up. */
  datatype Step = More(mode: Mode, piece: Bytes, n: nat) | End(n: nat) | Reject

  function CharStep(s: Bytes, mode: Mode): (r: Step)
    ensures r.More? ==> 1 <= r.n <= |s|
    ensures r.End? ==> r.n <= 1 && r.n <= |s| && (r.n == 0 ==> mode == Plain && At(s, 0) == NUL)
  {
    match mode
    case InDouble =>
      if IsHexEscape(s) then More(InDouble, [HexDigit(At(s, 2)) * 16 + HexDigit(At(s, 3))], 4)
      else if At(s, 0) == BACKSLASH && At(s, 1) != NUL then More(InDouble, [Unescape(At(s, 1))], 2)
      else if At(s, 0) == QUOTE then if ClosesAt(s) then End(1) else Reject
      else if At(s, 0) == NUL then Reject
      else More(InDouble, [s[0]], 1)
    case InSingle =>
      if At(s, 0) == BACKSLASH && At(s, 1) == APOSTROPHE then More(InSingle, [APOSTROPHE], 2)
      else if At(s, 0) == APOSTROPHE then if ClosesAt(s) then End(1) else Reject
      else if At(s, 0) == NUL then Reject
      else More(InSingle, [s[0]], 1)
    case Plain =>
      if At(s, 0) == NUL then End(0)
      else if EndsPlain(s[0]) then End(1)
      else if s[0] == QUOTE then More(InDouble, [], 1)
      else if s[0] == APOSTROPHE then More(InSingle, [], 1)
      else More(Plain, [s[0]], 1)
  }

  /** One token, read from s in the given quoting mode. */
  function ReadToken(s: Bytes, mode: Mode, arg: Bytes): (t: Token)
    ensures t.Taken? ==> |t.rest| <= |s|
    ensures t.Taken? && (mode != Plain || At(s, 0) != NUL) ==> |t.rest| < |s|
    decreases |s|
  {
    match CharStep(s, mode)
    case Reject => Bad
    case End(n) => Taken(arg, s[n..])
    case More(m, piece, n) => ReadToken(s[n..], m, arg + piece)
  }

  function SkipBlanks(s: Bytes): (r: Bytes)
    ensures |r| <= |s|
    ensures !IsSpace(At(r, 0))
  {
    if s != [] && IsSpace(s[0]) then SkipBlanks(s[1..]) else s
  }

  /** The tokens of s, after those already in argv. */
  function ReadArgs(s: Bytes, argv: seq<Bytes>): Split
    decreases |s|
  {
    var r := SkipBlanks(s);
    if At(r, 0) == NUL then Args(argv)
    else match ReadToken(r, Plain, [])
      case Bad => Failed
      case Taken(arg, rest) => ReadArgs(rest, argv + [arg])
  }

  /** The three nested loops over the pointer p. */
  method Split2Args(text: Bytes) returns (rc: int, argv: seq<Bytes>)
    ensures rc == 0 || rc == -1
    ensures rc == 0 ==> ReadArgs(text, []) == Args(argv)
    ensures rc == -1 ==> ReadArgs(text, []) == Failed && argv == []
  {
    argv := [];
    var p := 0;
    while true
      invariant 0 <= p <= |text|
      invariant ReadArgs(text[p..], argv) == ReadArgs(text, [])
      decreases |text| - p
    {
      ghost var p0 := p;
      while p < |text| && text[p] != NUL && IsSpace(text[p])
        invariant p0 <= p <= |text|
        invariant SkipBlanks(text[p..]) == SkipBlanks(text[p0..])
      {
        assert text[p..][1..] == text[p + 1..];
        p := p + 1;
      }
      assert text[p..] == SkipBlanks(text[p0..]);
      if p == |text| || text[p] == NUL {
        return 0, argv;
      }
      var ok, arg, q := TakeToken(text, p);
      if !ok {
        return -1, [];
      }
      p := q;
      argv := argv + [arg];
    }
  }

  /** The inner loop: one token from position start; the caller clears argv when it fails. */
  method TakeToken(text: Bytes, start: nat) returns (ok: bool, arg: Bytes, p: nat)
    requires start <= |text| && At(text, start) != NUL
    ensures ok ==> start < p <= |text| && ReadToken(text[start..], Plain, []) == Taken(arg, text[p..])
    ensures !ok ==> ReadToken(text[start..], Plain, []) == Bad
  {
    ok, p, arg := true, start, [];
    var mode, done := Plain, false;
    ghost var rest := text[p..];
    ghost var token := ReadToken(rest, mode, arg);
    while !done
      invariant start <= p <= |text| && rest == text[p..]
      invariant !done ==> ReadToken(rest, mode, arg) == token
      invariant done ==> token == Taken(arg, rest)
      decreases !done, |text| - p
    {
      match CharStep(text[p..], mode) {
        case Reject =>
          return false, [], p;
        case End(n) =>
          p, done, rest := p + n, true, rest[n..];
        case More(m, piece, n) =>
          p, mode, arg, rest := p + n, m, arg + piece, rest[n..];
      }
    }
  }

  // ----- the ways to write an argument that the splitter undoes

  /** Bare: as it is. Double: in double quotes, escaping quote and backslash. Named: in double
      quotes, also writing control bytes by their letters. Single: in single quotes. */
  datatype Style = Bare | Double | Named | Single

  /** The letter of a named escape. */
  function Letter(b: Byte): Option<Byte> {
    if b == LF then Some(110) else if b == CR then Some(114) else if b == TAB then Some(116)
    else if b == 8 then Some(98) else if b == 7 then Some(97) else None
  }

  function EscapeByte(style: Style, b: Byte): Bytes {
    match style
    case Bare => [b]
    case Double => if b == QUOTE || b == BACKSLASH then [BACKSLASH, b] else [b]
    case Named =>
      if b == QUOTE || b == BACKSLASH then [BACKSLASH, b]
      else if Letter(b).Some? then [BACKSLASH, Letter(b).value]
      else [b]
    case Single => if b == APOSTROPHE then [BACKSLASH, b] else [b]
  }

  function Escape(style: Style, arg: Bytes): Bytes {
    if arg == [] then [] else EscapeByte(style, arg[0]) + Escape(style, arg[1..])
  }

  function Mark(style: Style): Bytes {
    if style.Bare? then [] else if style.Single? then [APOSTROPHE] else [QUOTE]
  }

  function ModeOf(style: Style): Mode {
    if style.Bare? then Plain else if style.Single? then InSingle else InDouble
  }

  function Write(style: Style, arg: Bytes): Bytes { Mark(style) + Escape(style, arg) + Mark(style) }

  predicate PlainByte(b: Byte) { !EndsPlain(b) && b != QUOTE && b != APOSTROPHE }

  /** Byte strings that a style can write between its marks. */
  predicate Escapable(style: Style, arg: Bytes) {
    && (forall k :: 0 <= k < |arg| ==> arg[k] != NUL && (style.Bare? ==> PlainByte(arg[k])))
    && (style.Single? && arg != [] ==> arg[|arg| - 1] != BACKSLASH)
  }

  predicate Writable(style: Style, arg: Bytes) {
    Escapable(style, arg) && (style.Bare? ==> arg != [] && !IsSpace(arg[0]))
  }

  datatype Word = Word(style: Style, arg: Bytes)

  function WriteLine(words: seq<Word>): Bytes {
    if words == [] then []
    else if |words| == 1 then Write(words[0].style, words[0].arg)
    else Write(words[0].style, words[0].arg) + [SPACE] + WriteLine(words[1..])
  }

  function ArgsOf(words: seq<Word>): seq<Bytes> {
    if words == [] then [] else [words[0].arg] + ArgsOf(words[1..])
  }

  /** What follows a written argument: the end of the text, a space, a tab, or a line end. */
  predicate Separated(after: Bytes) { after == [] || after[0] in [SPACE, TAB, LF, CR] }

  /** A written byte is read back. */
  lemma EscapedByteIsRead(style: Style, b: Byte, tail: Bytes, arg: Bytes)
    requires b != NUL && (style.Bare? ==> PlainByte(b))
    requires style.Single? && b == BACKSLASH ==> tail != [] && tail[0] != APOSTROPHE
    ensures ReadToken(EscapeByte(style, b) + tail, ModeOf(style), arg) == ReadToken(tail, ModeOf(style), arg + [b])
  {
    var e := EscapeByte(style, b);
    assert (e + tail)[0] == e[0];
    assert |e| == 2 ==> (e + tail)[1] == e[1];
    assert |e| == 1 && tail != [] ==> (e + tail)[1] == tail[0];
    assert CharStep(e + tail, ModeOf(style)) == More(ModeOf(style), [b], |e|) && (e + tail)[|e|..] == tail;
  }

  /** The closing mark, or the separator after a bare word, ends the token. */
  lemma MarkEndsToken(style: Style, after: Bytes, arg: Bytes)
    requires Separated(after)
    ensures ReadToken(Mark(style) + after, ModeOf(style), arg)
         == Taken(arg, if after == [] || !style.Bare? then after else after[1..])
  {
    var s := Mark(style) + after;
    if style.Bare? {
      assert s == after;
      assert after == [] ==> s[0..] == after;
    } else {
      assert s[1..] == after && At(s, 1) == At(after, 0);
      assert CharStep(s, ModeOf(style)) == End(1);
    }
  }

  /** The opening mark selects the mode. */
  lemma MarkOpensToken(style: Style, body: Bytes)
    ensures ReadToken(Mark(style) + body, Plain, []) == ReadToken(body, ModeOf(style), [])
  {
    var s, none: Bytes := Mark(style) + body, [];
    assert none + none == none;
    if style.Bare? {
      assert s == body;
    } else {
      assert s[1..] == body && CharStep(s, Plain) == More(ModeOf(style), none, 1);
    }
  }

  /** The text after a written byte does not turn a backslash into an escape. */
  lemma TailStart(style: Style, x: Bytes, z: Bytes)
    requires x != [] && Escapable(style, x)
    ensures Escapable(style, x[1..])
    ensures style.Single? && x[0] == BACKSLASH ==>
              Escape(style, x[1..]) + z != [] && (Escape(style, x[1..]) + z)[0] != APOSTROPHE
  {
    assert forall k :: 0 <= k < |x| - 1 ==> x[1..][k] == x[k + 1];
    if style.Single? && x[0] == BACKSLASH {
      var y := x[1..];
      assert y != [] && Escape(style, y)[0] == EscapeByte(style, y[0])[0];
    }
  }

  lemma {:induction false} EscapedBytesAreRead(style: Style, x: Bytes, z: Bytes, arg: Bytes)
    requires Escapable(style, x)
    ensures ReadToken(Escape(style, x) + z, ModeOf(style), arg) == ReadToken(z, ModeOf(style), arg + x)
    decreases |x|
  {
    hide ReadToken, CharStep, EscapeByte;
    if x == [] {
      assert Escape(style, x) + z == z && arg + x == arg;
    } else {
      var tail := Escape(style, x[1..]) + z;
      TailStart(style, x, z);
      assert Escape(style, x) + z == EscapeByte(style, x[0]) + tail;
      EscapedByteIsRead(style, x[0], tail, arg);
      EscapedBytesAreRead(style, x[1..], z, arg + [x[0]]);
      assert arg + [x[0]] + x[1..] == arg + x;
    }
  }

  /** Writing an argument in any style is undone by the token reader. */
  lemma WrittenTokenIsRead(style: Style, x: Bytes, after: Bytes)
    requires Writable(style, x) && Separated(after)
    ensures ReadToken(Write(style, x) + after, Plain, [])
         == Taken(x, if after == [] || !style.Bare? then after else after[1..])
  {
    var z, none: Bytes := Mark(style) + after, [];
    var body := Escape(style, x) + z;
    assert Write(style, x) + after == Mark(style) + body && none + x == x;
    MarkOpensToken(style, body);
    EscapedBytesAreRead(style, x, z, none);
    MarkEndsToken(style, after, x);
  }

  lemma WrittenStart(style: Style, x: Bytes)
    requires Writable(style, x)
    ensures Write(style, x) != [] && !IsSpace(Write(style, x)[0]) && Write(style, x)[0] != NUL
  {
  }

  predicate AllWritable(words: seq<Word>) { forall w :: w in words ==> Writable(w.style, w.arg) }

  /** Arguments written in any mixture of styles and joined by spaces are exactly the
      arguments the splitter returns. */
  lemma WriteLineRoundTrip(words: seq<Word>, argv: seq<Bytes>)
    requires AllWritable(words)
    ensures ReadArgs(WriteLine(words), argv) == Args(argv + ArgsOf(words))
  {
    hide ReadArgs, WriteLine;
    assert WriteLine(words) + [] == WriteLine(words);
    WriteLineThen(words, argv, []);
    BlanksOnly([], argv + ArgsOf(words));
  }

  /** Whatever follows a written line, after a blank, is read on with the arguments of the line taken. */
  lemma {:induction false} WriteLineThen(words: seq<Word>, argv: seq<Bytes>, after: Bytes)
    requires AllWritable(words) && Separated(after)
    ensures ReadArgs(WriteLine(words) + after, argv) == ReadArgs(after, argv + ArgsOf(words))
    decreases |words|
  {
    hide ReadToken, Write, Writable, ReadArgs, WriteLine, Separated;
    if words == [] {
      assert argv + ArgsOf(words) == argv;
      NoWords(after);
    } else {
      var w, rest := words[0], words[1..];
      assert w in words && AllWritable(rest);
      WriteLineThen(rest, argv + [w.arg], after);
      assert argv + [w.arg] + ArgsOf(rest) == argv + ArgsOf(words);
      FirstWordIsRead(words, argv, after);
    }
  }

  lemma NoWords(after: Bytes)
    ensures WriteLine([]) + after == after
  {
  }

  /** The first word of a line is taken, and the rest of the line read on. */
  lemma FirstWordIsRead(words: seq<Word>, argv: seq<Bytes>, after: Bytes)
    requires words != [] && Writable(words[0].style, words[0].arg) && Separated(after)
    ensures ReadArgs(WriteLine(words) + after, argv) == ReadArgs(WriteLine(words[1..]) + after, argv + [words[0].arg])
  {
    hide ReadToken, Write, Writable, ReadArgs;
    var w, rest := words[0], WriteLine(words[1..]) + after;
    var tail := if |words| == 1 then after else [SPACE] + rest;
    var line := Write(w.style, w.arg) + tail;
    assert WriteLine(words) + after == line;
    WrittenTokenIsRead(w.style, w.arg, tail);
    WrittenStart(w.style, w.arg);
    TokenThenRest(line, Write(w.style, w.arg)[0], argv);
    if |words| == 1 { NoWords(after); } else { assert tail[1..] == rest; }
    BlankSkipped(tail, argv + [w.arg]);
  }

  lemma BlankSkipped(tail: Bytes, argv: seq<Bytes>)
    requires Separated(tail)
    ensures tail != [] ==> ReadArgs(tail, argv) == ReadArgs(tail[1..], argv)
  {
  }

  lemma {:induction false} BlanksOnly(s: Bytes, argv: seq<Bytes>)
    requires forall k :: 0 <= k < |s| ==> s[k] in [SPACE, TAB, LF, CR]
    ensures ReadArgs(s, argv) == Args(argv)
    decreases |s|
  {
    if s != [] {
      BlankSkipped(s, argv);
      BlanksOnly(s[1..], argv);
    }
  }

  /** A line that does not begin with a blank or a NUL: one token, then the rest. */
  lemma TokenThenRest(line: Bytes, first: Byte, argv: seq<Bytes>)
    requires line != [] && line[0] == first && !IsSpace(first) && first != NUL
    ensures var t := ReadToken(line, Plain, []);
            ReadArgs(line, argv) == if t.Bad? then Failed else ReadArgs(t.rest, argv + [t.arg])
  {
    hide ReadToken;
    assert SkipBlanks(line) == line;
  }

  /** The value hexadecimal notation gives a digit. */
  function HexValue(b: Byte): int
    requires IsHexDigit(b)
  {
    if IsDigit(b) then b - ZERO else if b <= 70 then b - 55 else b - 87
  }

  /** A hexadecimal escape stands for the byte it denotes exactly when both its digits are
      decimal: the letters are counted from zero instead of ten. */
  lemma HexEscapeExact(h: Byte, l: Byte)
    requires IsHexDigit(h) && IsHexDigit(l)
    ensures ReadArgs([QUOTE, BACKSLASH, 120, h, l, QUOTE], []) == Args([[16 * HexValue(h) + HexValue(l)]])
            <==> IsDigit(h) && IsDigit(l)
  {
    var s: Bytes := [QUOTE, BACKSLASH, 120, h, l, QUOTE];
    var v: Byte := HexDigit(h) * 16 + HexDigit(l);
    assert SkipBlanks(s) == s;
    assert s[1..] == [BACKSLASH, 120, h, l, QUOTE] && s[1..][4..] == [QUOTE];
    assert CharStep(s, Plain) == More(InDouble, [], 1);
    assert CharStep(s[1..], InDouble) == More(InDouble, [v], 4);
    assert CharStep([QUOTE], InDouble) == End(1);
    var none: Bytes := [];
    assert none + none == none && none + [v] == [v];
    assert ReadToken([QUOTE], InDouble, [v]) == Taken([v], []);
    assert ReadToken(s[1..], InDouble, none) == Taken([v], []);
    assert ReadToken(s, Plain, none) == Taken([v], []);
    var argv: seq<Bytes> := [];
    assert argv + [[v]] == [[v]];
    assert ReadArgs([], [[v]]) == Args([[v]]);
    assert ReadArgs(s, argv) == Args([[v]]);
    assert Args([[v]]) == Args([[16 * HexValue(h) + HexValue(l)]]) <==> [[v]][0] == [16 * HexValue(h) + HexValue(l)];
    assert [v] == [16 * HexValue(h) + HexValue(l)] <==> [v][0] == 16 * HexValue(h) + HexValue(l);
  }

  // ----- the splitter byte by byte, in numbers

  predicate Blank(b: Byte) { b == 32 || b == 9 || b == 10 || b == 11 || b == 12 || b == 13 }

  /** Blanks between arguments are skipped; the text ends at its end or at a NUL. */
  lemma BetweenArguments(b: Byte, s: Bytes, argv: seq<Bytes>)
    ensures Blank(b) ==> ReadArgs([b] + s, argv) == ReadArgs(s, argv)
    ensures ReadArgs([], argv) == Args(argv) && ReadArgs([0] + s, argv) == Args(argv)
    ensures !Blank(b) && b != 0 ==>
              var t := ReadToken([b] + s, Plain, []);
              ReadArgs([b] + s, argv) == if t == Bad then Failed else ReadArgs(t.rest, argv + [t.arg])
  {
    assert ([b] + s)[1..] == s;
  }

  /** Outside quotes: space, tab, line feed and carriage return end an argument, and so do a NUL and the end of the
      text; quotes open; any other byte is taken. */
  lemma OutsideQuotes(b: Byte, s: Bytes, arg: Bytes)
    ensures ReadToken([b] + s, Plain, arg) ==
            if b == 32 || b == 9 || b == 10 || b == 13 then Taken(arg, s)
            else if b == 0 then Taken(arg, [b] + s)
            else if b == 34 then ReadToken(s, InDouble, arg)
            else if b == 39 then ReadToken(s, InSingle, arg)
            else ReadToken(s, Plain, arg + [b])
    ensures ReadToken([], Plain, arg) == Taken(arg, [])
  {
    hide CharStep;
    StepOutside(b, s);
    StepNothing();
    assert ([b] + s)[1..] == s && ([b] + s)[0..] == [b] + s && arg + [] == arg;
    var none: Bytes := [];
    assert none[0..] == none;
  }

  lemma StepOutside(b: Byte, s: Bytes)
    ensures CharStep([b] + s, Plain) ==
            if b == 0 then End(0)
            else if b == 32 || b == 9 || b == 10 || b == 13 then End(1)
            else if b == 34 then More(InDouble, [], 1)
            else if b == 39 then More(InSingle, [], 1)
            else More(Plain, [b], 1)
  {
  }

  lemma StepNothing()
    ensures CharStep([], Plain) == End(0) && CharStep([], InDouble) == Reject && CharStep([], InSingle) == Reject
  {
  }

  /** In double quotes: the quote closes if a blank, a NUL or the end follows, and is refused otherwise; a NUL or the
      end of the text is refused; any other byte but a backslash is taken. */
  lemma InDoubleQuotes(b: Byte, s: Bytes, arg: Bytes)
    requires b != 92
    ensures ReadToken([b] + s, InDouble, arg) ==
            if b == 34 then (if s == [] || s[0] == 0 || Blank(s[0]) then Taken(arg, s) else Bad)
            else if b == 0 then Bad
            else ReadToken(s, InDouble, arg + [b])
    ensures ReadToken([], InDouble, arg) == Bad
  {
    StepNothing();
    var t := [b] + s;
    assert t[1..] == s && (s != [] ==> t[1] == s[0]);
    assert CharStep(t, InDouble) == if b == 34 then (if s == [] || s[0] == 0 || Blank(s[0]) then End(1) else Reject)
                                    else if b == 0 then Reject
                                    else More(InDouble, [b], 1);
  }

  /** The byte for a letter behind a backslash: n, r, t, b and a are line feed, carriage return, tab, backspace and
      bell; any other byte stands for itself. */
  function Named(c: Byte): Byte {
    if c == 110 then 10 else if c == 114 then 13 else if c == 116 then 9 else if c == 98 then 8
    else if c == 97 then 7 else c
  }

  predicate Hex(b: Byte) { 48 <= b <= 57 || 65 <= b <= 70 || 97 <= b <= 102 }

  /** A backslash in double quotes, in front of anything but x and two hexadecimal digits. */
  lemma BackslashInDoubleQuotes(c: Byte, s: Bytes, arg: Bytes)
    requires c != 0
    requires c == 120 ==> |s| < 2 || !Hex(s[0]) || !Hex(s[1])
    ensures ReadToken([92, c] + s, InDouble, arg) == ReadToken(s, InDouble, arg + [Named(c)])
  {
    var t := [92, c] + s;
    assert t[2..] == s && (|s| >= 1 ==> t[2] == s[0]) && (|s| >= 2 ==> t[3] == s[1]);
    assert t[0] == 92 && t[1] == c;
    hide ReadToken, Named;
    assert CharStep(t, InDouble) == More(InDouble, [Unescape(c)], 2);
    StepTaken(t, InDouble, arg);
    NamedByte(c);
  }

  lemma NamedByte(c: Byte)
    ensures Named(c) == Unescape(c)
  {
  }

  lemma StepTaken(s: Bytes, mode: Mode, arg: Bytes)
    requires CharStep(s, mode).More?
    ensures var More(m, piece, n) := CharStep(s, mode); ReadToken(s, mode, arg) == ReadToken(s[n..], m, arg + piece)
  {
    hide CharStep;
  }

  /** A backslash in front of a NUL or the end of the text leads to a refusal. */
  lemma BackslashThenEnd(s: Bytes, arg: Bytes)
    requires s == [] || s[0] == 0
    ensures ReadToken([92] + s, InDouble, arg) == ReadToken(s, InDouble, arg + [92]) == Bad
  {
    var t := [92] + s;
    assert t[1..] == s && (s != [] ==> t[1] == s[0]);
    assert CharStep(t, InDouble) == More(InDouble, [92], 1);
    assert CharStep(s, InDouble) == Reject;
  }

  /** Two hexadecimal digits behind a backslash and an x: letters count from zero. */
  lemma HexInDoubleQuotes(h: Byte, l: Byte, s: Bytes, arg: Bytes)
    requires Hex(h) && Hex(l)
    ensures var hv := h - if h <= 57 then 48 else if h <= 70 then 65 else 97;
            var lv := l - if l <= 57 then 48 else if l <= 70 then 65 else 97;
            ReadToken([92, 120, h, l] + s, InDouble, arg) == ReadToken(s, InDouble, arg + [hv * 16 + lv])
  {
    var t := [92, 120, h, l] + s;
    assert t[4..] == s;
    assert CharStep(t, InDouble) == More(InDouble, [HexDigit(h) * 16 + HexDigit(l)], 4);
  }

  /** In single quotes only a backslash in front of the quote means something else. */
  lemma InSingleQuotes(b: Byte, s: Bytes, arg: Bytes)
    ensures ReadToken([b] + s, InSingle, arg) ==
            if b == 92 && s != [] && s[0] == 39 then ReadToken(s[1..], InSingle, arg + [39])
            else if b == 39 then (if s == [] || s[0] == 0 || Blank(s[0]) then Taken(arg, s) else Bad)
            else if b == 0 then Bad
            else ReadToken(s, InSingle, arg + [b])
    ensures ReadToken([], InSingle, arg) == Bad
  {
    StepNothing();
    var t := [b] + s;
    assert t[1..] == s && (s != [] ==> t[1] == s[0] && t[2..] == s[1..]);
    assert CharStep(t, InSingle) ==
           if b == 92 && s != [] && s[0] == 39 then More(InSingle, [39], 2)
           else if b == 39 then (if s == [] || s[0] == 0 || Blank(s[0]) then End(1) else Reject)
           else if b == 0 then Reject
           else More(InSingle, [b], 1);
  }

  /** A closing quote with anything but a blank, a NUL or the end behind it fails the whole line, whatever follows. */
  lemma {:induction false} ByteBehindQuote(x: Bytes, c: Byte, s: Bytes, arg: Bytes)
    requires forall k :: 0 <= k < |x| ==> x[k] != 34 && x[k] != 92 && x[k] != 0
    requires c != 0 && !Blank(c)
    ensures ReadToken(x + ([34, c] + s), InDouble, arg) == Bad
    decreases |x|
  {
    hide ReadToken;
    if x == [] {
      assert x + ([34, c] + s) == [34] + ([c] + s);
      InDoubleQuotes(34, [c] + s, arg);
    } else {
      assert x + ([34, c] + s) == [x[0]] + (x[1..] + ([34, c] + s));
      InDoubleQuotes(x[0], x[1..] + ([34, c] + s), arg);
      ByteBehindQuote(x[1..], c, s, arg + [x[0]]);
    }
  }

  /** So does a quote that is never closed. */
  lemma {:induction false} NeverClosed(x: Bytes, arg: Bytes)
    requires forall k :: 0 <= k < |x| ==> x[k] != 34 && x[k] != 92
    ensures ReadToken(x, InDouble, arg) == Bad
    decreases |x|
  {
    hide ReadToken;
    if x == [] {
      InDoubleQuotes(34, [], arg);
    } else {
      assert x == [x[0]] + x[1..];
      InDoubleQuotes(x[0], x[1..], arg);
      if x[0] != 0 {
        NeverClosed(x[1..], arg + [x[0]]);
      }
    }
  }

  /** A line that begins with such a token is refused. */
  lemma BadLines(x: Bytes, c: Byte, s: Bytes)
    requires forall k :: 0 <= k < |x| ==> x[k] != 34 && x[k] != 92 && x[k] != 0
    requires c != 0 && !Blank(c)
    ensures ReadArgs([34] + (x + ([34, c] + s)), []) == Failed && ReadArgs([34] + x, []) == Failed
  {
    hide ReadToken, ReadArgs;
    var y, none: Bytes := x + ([34, c] + s), [];
    ByteBehindQuote(x, c, s, none);
    NeverClosed(x, none);
    OutsideQuotes(34, y, none);
    OutsideQuotes(34, x, none);
    BetweenArguments(34, y, []);
    BetweenArguments(34, x, []);
  }
}
