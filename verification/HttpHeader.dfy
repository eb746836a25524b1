/** The header block of an HTTP request: finding its end, splitting it into lines, and the line parser
    that moves from method to URL to version to keys and values. */
module HttpHeader {
  import opened ByteStrings

  const BLANK_LINE: Bytes := [CR, LF, CR, LF]

  // ----- lines

  datatype ParseStatus = InMethod | InPath | InVersion | InKey | InValue

  datatype Head = Head(status: ParseStatus, method_: Bytes, url: Bytes, version: Bytes, headers: map<Bytes, Bytes>)

  function NoHead(): Head { Head(InMethod, [], [], [], map[]) }

  /** The head, and the key and value of the line being read. */
  datatype Cursor = Cursor(head: Head, key: Bytes, value: Bytes)

  /** One byte of a header line. */
  function Step(c: Cursor, b: Byte): Cursor {
    var h := c.head;
    match h.status
    case InMethod =>
      if b != SPACE then c.(head := h.(method_ := h.method_ + [b])) else c.(head := h.(status := InPath))
    case InPath =>
      if b != SPACE then c.(head := h.(url := h.url + [b])) else c.(head := h.(status := InVersion))
    case InVersion =>
      if b != CR && b != LF then c.(head := h.(version := h.version + [b]))
      else if b == LF then c.(head := h.(status := InKey))
      else c
    case InKey =>
      if b != COLON && b != SPACE then c.(key := c.key + [b])
      else if b == SPACE then c.(head := h.(status := InValue))
      else c
    case InValue =>
      if b != CR && b != LF then c.(value := c.value + [b])
      else if b == CR then c.(head := h.(headers := h.headers[Lower(c.key) := c.value], status := InKey))
      else c
  }

  function Steps(c: Cursor, line: Bytes): Cursor
    decreases |line|
  {
    if line == [] then c else Steps(Step(c, line[0]), line[1..])
  }

  /** ParseHeadLine: key and value are local to the line. */
  function HeadLine(h: Head, line: Bytes): Head { Steps(Cursor(h, [], []), line).head }

  lemma {:induction false} StepsAppend(c: Cursor, a: Bytes, b: Bytes)
    ensures Steps(c, a + b) == Steps(Steps(c, a), b)
    decreases |a|
  {
    if a == [] {
      assert a + b == b;
    } else {
      assert (a + b)[1..] == a[1..] + b && (a + b)[0] == a[0];
      StepsAppend(Step(c, a[0]), a[1..], b);
    }
  }

  method ParseHeadLine(h: Head, data: Bytes, lineStart: nat, lineEnd: nat) returns (r: Head)
    requires lineStart <= lineEnd < |data|
    ensures r == HeadLine(h, data[lineStart..lineEnd + 1])
  {
    var c := Cursor(h, [], []);
    ghost var line := data[lineStart..lineEnd + 1];
    for i := lineStart to lineEnd + 1
      invariant c == Steps(Cursor(h, [], []), data[lineStart..i])
    {
      assert data[lineStart..i + 1] == data[lineStart..i] + [data[i]];
      StepsAppend(Cursor(h, [], []), data[lineStart..i], [data[i]]);
      assert [data[i]][1..] == [];
      c := Step(c, data[i]);
    }
    return c.head;
  }

  method FindLf(data: Bytes) returns (count: nat)
    ensures count == if IndexOf(data, LF) < 0 then |data| else IndexOf(data, LF)
  {
    count := 0;
    while count < |data|
      invariant count <= |data| && forall k :: 0 <= k < count ==> data[k] != LF
    {
      if data[count] == LF {
        IndexOfUnique(data, LF, count);
        return;
      }
      count := count + 1;
    }
  }

  // ----- the block

  /** The first blank line, or -1. */
  function FirstBlank(s: Bytes): (i: int)
    ensures -1 <= i && (i >= 0 ==> i + 4 <= |s| && s[i..i + 4] == BLANK_LINE)
  {
    if |s| < 4 then -1
    else if s[..4] == BLANK_LINE then 0
    else
      var r := FirstBlank(s[1..]);
      assert r >= 0 ==> s[1..][r..r + 4] == s[r + 1..r + 5];
      if r < 0 then -1 else r + 1
  }

  /** The text strstr sees: up to the first NUL. */
  function CString(s: Bytes): Bytes {
    if IndexOf(s, NUL) < 0 then s else s[..IndexOf(s, NUL)]
  }

  datatype HeaderResult = NotFound | BadHeader | Found(len: nat, head: Head)

  /** The loop over lines: until at most the closing blank line is left. */
  function Lines(h: Head, text: Bytes): Head
    decreases |text|
  {
    if |text| <= 4 then h
    else
      var i := IndexOf(text, LF);
      var n := if i < 0 then |text| - 1 else i;
      Lines(HeadLine(h, text[..n + 1]), text[n + 1..])
  }

  /** ParseHeader up to the query parameters, on the bytes received so far. */
  function Header(received: Bytes): HeaderResult {
    var i := FirstBlank(CString(received));
    if i < 0 then NotFound
    else if i + 4 <= 5 then BadHeader
    else Found(i + 4, Lines(NoHead(), received[..i + 4]))
  }

  method ParseHeader(received: Bytes) returns (r: HeaderResult)
    ensures r == Header(received)
  {
    hide FirstBlank, Lines;
    var text := CString(received);
    var sep := FirstBlank(text);
    if sep < 0 {
      return NotFound;
    }
    var headerLen := sep + 4;
    if headerLen <= 5 {
      return BadHeader;
    }
    assert text[sep..sep + 4] == BLANK_LINE && BLANK_LINE[3] == LF;
    assert text[sep + 3] == text[sep..sep + 4][3];
    assert received[..headerLen][headerLen - 1] == text[sep + 3];
    var head := ParseLines(received[..headerLen]);
    return Found(headerLen, head);
  }

  /** The loop of ParseHeader: every line is visited once. */
  method ParseLines(text: Bytes) returns (head: Head)
    requires text != [] && text[|text| - 1] == LF
    ensures head == Lines(NoHead(), text)
  {
    hide HeadLine, IndexOf;
    var remainSize, lineStart, lineEnd := |text|, 0, 0;
    head := NoHead();
    ghost var rest, goal := text, Lines(head, text);
    while remainSize > 4
      invariant lineStart == lineEnd && lineStart + remainSize == |text| && remainSize >= 0
      invariant rest == text[lineStart..] && Lines(head, rest) == goal
    {
      assert rest[remainSize - 1] == LF;
      var count := FindLf(text[lineStart..]);
      lineEnd := lineEnd + count;
      assert rest[..count + 1] == text[lineStart..lineEnd + 1];
      head := ParseHeadLine(head, text, lineStart, lineEnd);
      remainSize := remainSize - (lineEnd - lineStart + 1);
      lineEnd := lineEnd + 1;
      lineStart := lineEnd;
      rest := rest[count + 1..];
    }
  }

  // ----- printing a request, and reading it back

  datatype Field = Field(key: Bytes, value: Bytes)

  predicate Without(s: Bytes, bad: Bytes) { forall k :: 0 <= k < |s| ==> s[k] !in bad }

  predicate LegalStart(method_: Bytes, url: Bytes, version: Bytes) {
    Without(method_, [SPACE, CR, LF, NUL]) && Without(url, [SPACE, CR, LF, NUL]) && Without(version, [CR, LF, NUL])
  }

  predicate LegalField(f: Field) {
    Without(f.key, [COLON, SPACE, CR, LF, NUL]) && Without(f.value, [CR, LF, NUL])
  }

  function StartLine(method_: Bytes, url: Bytes, version: Bytes): Bytes {
    method_ + [SPACE] + (url + [SPACE] + (version + CRLF))
  }

  function FieldLine(f: Field): Bytes { f.key + [COLON, SPACE] + (f.value + CRLF) }

  function FieldLines(fields: seq<Field>): Bytes {
    if fields == [] then [] else FieldLine(fields[0]) + FieldLines(fields[1..])
  }

  function PrintHeader(method_: Bytes, url: Bytes, version: Bytes, fields: seq<Field>): Bytes {
    StartLine(method_, url, version) + (FieldLines(fields) + CRLF)
  }

  /** The map the fields stand for: keys in lower case, later fields win. */
  function FieldMap(m: map<Bytes, Bytes>, fields: seq<Field>): map<Bytes, Bytes>
    decreases |fields|
  {
    if fields == [] then m else FieldMap(m[Lower(fields[0].key) := fields[0].value], fields[1..])
  }

  // the line parser on printed lines

  lemma {:induction false} MethodBytes(c: Cursor, s: Bytes)
    requires c.head.status == InMethod && Without(s, [SPACE])
    ensures Steps(c, s) == c.(head := c.head.(method_ := c.head.method_ + s))
    decreases |s|
  {
    if s == [] {
      assert c.head.method_ + s == c.head.method_;
    } else {
      assert s[0] != SPACE && Without(s[1..], [SPACE]);
      MethodBytes(Step(c, s[0]), s[1..]);
      assert c.head.method_ + [s[0]] + s[1..] == c.head.method_ + s;
    }
  }

  lemma {:induction false} UrlBytes(c: Cursor, s: Bytes)
    requires c.head.status == InPath && Without(s, [SPACE])
    ensures Steps(c, s) == c.(head := c.head.(url := c.head.url + s))
    decreases |s|
  {
    if s == [] {
      assert c.head.url + s == c.head.url;
    } else {
      assert s[0] != SPACE && Without(s[1..], [SPACE]);
      UrlBytes(Step(c, s[0]), s[1..]);
      assert c.head.url + [s[0]] + s[1..] == c.head.url + s;
    }
  }

  lemma {:induction false} VersionBytes(c: Cursor, s: Bytes)
    requires c.head.status == InVersion && Without(s, [CR, LF])
    ensures Steps(c, s) == c.(head := c.head.(version := c.head.version + s))
    decreases |s|
  {
    if s == [] {
      assert c.head.version + s == c.head.version;
    } else {
      assert s[0] != CR && s[0] != LF && Without(s[1..], [CR, LF]);
      VersionBytes(Step(c, s[0]), s[1..]);
      assert c.head.version + [s[0]] + s[1..] == c.head.version + s;
    }
  }

  lemma {:induction false} KeyBytes(c: Cursor, s: Bytes)
    requires c.head.status == InKey && Without(s, [COLON, SPACE])
    ensures Steps(c, s) == c.(key := c.key + s)
    decreases |s|
  {
    if s == [] {
      assert c.key + s == c.key;
    } else {
      assert s[0] != COLON && s[0] != SPACE && Without(s[1..], [COLON, SPACE]);
      KeyBytes(Step(c, s[0]), s[1..]);
      assert c.key + [s[0]] + s[1..] == c.key + s;
    }
  }

  lemma {:induction false} ValueBytes(c: Cursor, s: Bytes)
    requires c.head.status == InValue && Without(s, [CR, LF])
    ensures Steps(c, s) == c.(value := c.value + s)
    decreases |s|
  {
    if s == [] {
      assert c.value + s == c.value;
    } else {
      assert s[0] != CR && s[0] != LF && Without(s[1..], [CR, LF]);
      ValueBytes(Step(c, s[0]), s[1..]);
      assert c.value + [s[0]] + s[1..] == c.value + s;
    }
  }

  lemma TwoSteps(c: Cursor, a: Byte, b: Byte)
    ensures Steps(c, [a, b]) == Step(Step(c, a), b)
  {
    assert [a, b][1..] == [b];
    OneStep(Step(c, a), b);
  }

  lemma OneStep(c: Cursor, a: Byte)
    ensures Steps(c, [a]) == Step(c, a)
  {
    assert [a][1..] == [];
  }

  lemma WeakenWithout(s: Bytes, bad: Bytes, fewer: Bytes)
    requires Without(s, bad) && forall b :: b in fewer ==> b in bad
    ensures Without(s, fewer)
  {
  }

  lemma StartLineParsed(method_: Bytes, url: Bytes, version: Bytes)
    requires LegalStart(method_, url, version)
    ensures HeadLine(NoHead(), StartLine(method_, url, version)) == Head(InKey, method_, url, version, map[])
  {
    hide Steps;
    var none: Bytes := [];
    assert none + method_ == method_ && none + url == url && none + version == version;
    var c0 := Cursor(NoHead(), [], []);
    var tail2 := version + CRLF;
    var tail1 := url + [SPACE] + tail2;
    var line := method_ + [SPACE] + tail1;
    WeakenWithout(method_, [SPACE, CR, LF, NUL], [SPACE]);
    WeakenWithout(url, [SPACE, CR, LF, NUL], [SPACE]);
    WeakenWithout(version, [CR, LF, NUL], [CR, LF]);
    // method
    var c1 := c0.(head := Head(InMethod, method_, [], [], map[]));
    MethodBytes(c0, method_);
    StepsAppend(c0, method_ + [SPACE], tail1);
    StepsAppend(c0, method_, [SPACE]);
    OneStep(c1, SPACE);
    // URL
    var c2 := c0.(head := Head(InPath, method_, [], [], map[]));
    var c3 := c0.(head := Head(InPath, method_, url, [], map[]));
    UrlBytes(c2, url);
    StepsAppend(c2, url + [SPACE], tail2);
    StepsAppend(c2, url, [SPACE]);
    OneStep(c3, SPACE);
    // version
    var c4 := c0.(head := Head(InVersion, method_, url, [], map[]));
    var c5 := c0.(head := Head(InVersion, method_, url, version, map[]));
    VersionBytes(c4, version);
    StepsAppend(c4, version, CRLF);
    TwoSteps(c5, CR, LF);
  }

  lemma FieldLineParsed(h: Head, f: Field)
    requires h.status == InKey && LegalField(f)
    ensures HeadLine(h, FieldLine(f)) == h.(headers := h.headers[Lower(f.key) := f.value])
  {
    hide Steps;
    var none: Bytes := [];
    assert none + f.key == f.key && none + f.value == f.value;
    WeakenWithout(f.key, [COLON, SPACE, CR, LF, NUL], [COLON, SPACE]);
    WeakenWithout(f.value, [CR, LF, NUL], [CR, LF]);
    var tail := f.value + CRLF;
    var c0, c1 := Cursor(h, [], []), Cursor(h, f.key, []);
    KeyBytes(c0, f.key);
    StepsAppend(c0, f.key + [COLON, SPACE], tail);
    StepsAppend(c0, f.key, [COLON, SPACE]);
    TwoSteps(c1, COLON, SPACE);
    var c2, c3 := Cursor(h.(status := InValue), f.key, []), Cursor(h.(status := InValue), f.key, f.value);
    ValueBytes(c2, f.value);
    StepsAppend(c2, f.value, CRLF);
    TwoSteps(c3, CR, LF);
  }

  // the loop over printed lines

  /** A line that ends in its only LF is split off. */
  lemma LineSplit(h: Head, content: Bytes, rest: Bytes)
    requires Without(content, [LF]) && |content + CRLF + rest| > 4
    ensures Lines(h, content + CRLF + rest) == Lines(HeadLine(h, content + CRLF), rest)
  {
    hide HeadLine;
    var text, i := content + CRLF + rest, |content| + 1;
    assert text[i] == LF;
    forall k | 0 <= k < i ensures text[k] != LF {
      if k < |content| {
        assert text[k] == content[k];
      }
    }
    IndexOfUnique(text, LF, i);
    assert text[..i + 1] == content + CRLF && text[i + 1..] == rest;
  }

  function FieldText(f: Field): Bytes { f.key + [COLON, SPACE] + f.value }

  lemma FieldTextClean(f: Field)
    requires LegalField(f)
    ensures FieldLine(f) == FieldText(f) + CRLF && FieldText(f) != []
    ensures Without(FieldText(f), [CR, LF, NUL])
  {
    var t := FieldText(f);
    assert FieldLine(f) == t + CRLF;
    forall k | 0 <= k < |t| ensures t[k] !in [CR, LF, NUL] {
      if k < |f.key| {
        assert t[k] == f.key[k];
      } else if k >= |f.key| + 2 {
        assert t[k] == f.value[k - |f.key| - 2];
      }
    }
  }

  function StartText(method_: Bytes, url: Bytes, version: Bytes): Bytes {
    method_ + [SPACE] + (url + [SPACE] + version)
  }

  lemma StartTextClean(method_: Bytes, url: Bytes, version: Bytes)
    requires LegalStart(method_, url, version)
    ensures StartLine(method_, url, version) == StartText(method_, url, version) + CRLF
    ensures StartText(method_, url, version) != [] && Without(StartText(method_, url, version), [CR, LF, NUL])
  {
    var t, u := StartText(method_, url, version), url + [SPACE] + version;
    assert StartLine(method_, url, version) == t + CRLF;
    assert forall k :: 0 <= k < |u| ==> u[k] !in [CR, LF, NUL] by {
      forall k | 0 <= k < |u| ensures u[k] !in [CR, LF, NUL] {
        if k < |url| { assert u[k] == url[k]; } else if k > |url| { assert u[k] == version[k - |url| - 1]; }
      }
    }
    forall k | 0 <= k < |t| ensures t[k] !in [CR, LF, NUL] {
      if k < |method_| { assert t[k] == method_[k]; } else if k > |method_| { assert t[k] == u[k - |method_| - 1]; }
    }
  }

  lemma {:induction false} FieldLinesParsed(h: Head, fields: seq<Field>)
    requires h.status == InKey && forall f :: f in fields ==> LegalField(f)
    ensures Lines(h, FieldLines(fields) + CRLF) == h.(headers := FieldMap(h.headers, fields))
    decreases |fields|
  {
    hide HeadLine, FieldLine, LegalField;
    if fields == [] {
      assert FieldLines(fields) + CRLF == CRLF;
    } else {
      var f, rest := fields[0], FieldLines(fields[1..]) + CRLF;
      assert f in fields;
      FieldTextClean(f);
      assert FieldLines(fields) + CRLF == FieldText(f) + CRLF + rest;
      WeakenWithout(FieldText(f), [CR, LF, NUL], [LF]);
      assert |rest| >= 2;
      LineSplit(h, FieldText(f), rest);
      FieldLineParsed(h, f);
      FieldLinesParsed(h.(headers := h.headers[Lower(f.key) := f.value]), fields[1..]);
    }
  }

  // finding the end of the printed block

  lemma {:induction false} BlankAfterClean(s: Bytes, t: Bytes)
    requires Without(s, [CR])
    ensures FirstBlank(s + t) == if FirstBlank(t) < 0 then -1 else |s| + FirstBlank(t)
    decreases |s|
  {
    if s == [] {
      assert s + t == t;
    } else {
      assert s[0] != CR && Without(s[1..], [CR]);
      assert (s + t)[1..] == s[1..] + t && (s + t)[0] == s[0];
      if |s + t| >= 4 {
        assert (s + t)[..4][0] != CR;
      }
      BlankAfterClean(s[1..], t);
    }
  }

  /** A line end followed by something that is not a line end is not the blank line. */
  lemma BlankAfterLineEnd(t: Bytes)
    requires t != [] && t[0] != CR
    ensures FirstBlank(CRLF + t) == if FirstBlank(t) < 0 then -1 else 2 + FirstBlank(t)
  {
    var s := CRLF + t;
    if |s| >= 4 {
      assert s[..4][2] == t[0];
    }
    assert s[1..] == [LF] + t && Without([LF], [CR]);
    BlankAfterClean([LF], t);
  }

  lemma {:induction false} BlankOfLines(content: Bytes, fields: seq<Field>, body: Bytes)
    requires content != [] && Without(content, [CR, LF, NUL]) && forall f :: f in fields ==> LegalField(f)
    ensures FirstBlank(content + CRLF + (FieldLines(fields) + CRLF) + body) == |content + CRLF + FieldLines(fields)| - 2
    ensures Without(content + CRLF + (FieldLines(fields) + CRLF), [NUL])
    decreases |fields|
  {
    hide FirstBlank, FieldLine, LegalField;
    WeakenWithout(content, [CR, LF, NUL], [CR]);
    WeakenWithout(content, [CR, LF, NUL], [NUL]);
    if fields == [] {
      assert FieldLines(fields) + CRLF == CRLF;
      assert content + CRLF + CRLF + body == content + (CRLF + (CRLF + body));
      BlankAfterClean(content, CRLF + (CRLF + body));
      BlankHere(body);
    } else {
      var f, lines := fields[0], FieldLines(fields[1..]);
      assert f in fields;
      FieldTextClean(f);
      BlankOfLines(FieldText(f), fields[1..], body);
      assert FieldLines(fields) == FieldText(f) + CRLF + lines;
      BlankOneMoreLine(content, FieldText(f), lines, body);
    }
  }

  /** One more line in front moves the blank line by its length. */
  lemma BlankOneMoreLine(content: Bytes, next: Bytes, lines: Bytes, body: Bytes)
    requires Without(content, [CR]) && Without(content, [NUL]) && next != [] && Without(next, [CR, LF, NUL])
    requires FirstBlank(next + CRLF + (lines + CRLF) + body) == |next + CRLF + lines| - 2
    requires Without(next + CRLF + (lines + CRLF), [NUL])
    ensures var all := next + CRLF + lines;
            && FirstBlank(content + CRLF + (all + CRLF) + body) == |content + CRLF + all| - 2
            && Without(content + CRLF + (all + CRLF), [NUL])
  {
    hide FirstBlank;
    var inner, t := next + CRLF + (lines + CRLF), next + CRLF + (lines + CRLF) + body;
    assert next + CRLF + lines + CRLF == inner;
    assert t[0] == next[0];
    BlankAfterLineEnd(t);
    BlankAfterClean(content, CRLF + t);
    assert content + CRLF + inner + body == content + (CRLF + t);
    var s := content + CRLF + inner;
    forall k | 0 <= k < |s| ensures s[k] !in [NUL] {
      if k < |content| {
        assert s[k] == content[k];
      } else if k >= |content| + 2 {
        assert s[k] == inner[k - |content| - 2];
      }
    }
  }

  lemma BlankHere(body: Bytes)
    ensures FirstBlank(CRLF + (CRLF + body)) == 0
  {
    assert (CRLF + (CRLF + body))[..4] == BLANK_LINE;
  }

  lemma {:induction false} BlankExtends(s: Bytes, t: Bytes)
    requires FirstBlank(s) >= 0
    ensures FirstBlank(s + t) == FirstBlank(s)
    decreases |s|
  {
    assert (s + t)[..4] == s[..4] && (s + t)[1..] == s[1..] + t;
    if s[..4] != BLANK_LINE {
      BlankExtends(s[1..], t);
    }
  }

  /** A NUL in the body does not hide the header. */
  lemma CStringBlank(h: Bytes, body: Bytes)
    requires Without(h, [NUL]) && FirstBlank(h) >= 0
    ensures FirstBlank(CString(h + body)) == FirstBlank(h)
  {
    hide FirstBlank;
    var s := CString(h + body);
    assert forall k :: 0 <= k < |h| ==> (h + body)[k] == h[k] != NUL;
    assert s == h + s[|h|..];
    BlankExtends(h, s[|h|..]);
  }

  /** The round trip: any printed request header, whatever body follows it, parses to its method, URL and
      version and to the map of its fields, and its end is found exactly. */
  lemma PrintedHeaderRoundTrip(method_: Bytes, url: Bytes, version: Bytes, fields: seq<Field>, body: Bytes)
    requires LegalStart(method_, url, version) && forall f :: f in fields ==> LegalField(f)
    ensures var h := PrintHeader(method_, url, version, fields);
            Header(h + body) == Found(|h|, Head(InKey, method_, url, version, FieldMap(map[], fields)))
  {
    hide HeadLine, FirstBlank, LegalField;
    var h := PrintHeader(method_, url, version, fields);
    var content, rest := StartText(method_, url, version), FieldLines(fields) + CRLF;
    StartTextClean(method_, url, version);
    assert h == content + CRLF + rest;
    BlankOfLines(content, fields, []);
    assert h + [] == h;
    CStringBlank(h, body);
    assert (h + body)[..|h|] == h;
    WeakenWithout(content, [CR, LF, NUL], [LF]);
    assert |content| >= 2;
    LineSplit(NoHead(), content, rest);
    StartLineParsed(method_, url, version);
    FieldLinesParsed(Head(InKey, method_, url, version, map[]), fields);
  }

  lemma {:induction false} BlankPrefix(s: Bytes, k: nat)
    requires FirstBlank(s) >= 0 && k < FirstBlank(s) + 4 && k <= |s|
    ensures FirstBlank(s[..k]) < 0
  {
    assert s[..k] + s[k..] == s;
    if FirstBlank(s[..k]) >= 0 {
      BlankExtends(s[..k], s[k..]);
    }
  }

  /** Before its last byte has arrived, the header is not found. */
  lemma HeaderPrefixNotFound(h: Bytes, k: nat)
    requires Without(h, [NUL]) && 0 <= FirstBlank(h) == |h| - 4 && k < |h|
    ensures Header(h[..k]) == NotFound
  {
    hide FirstBlank;
    BlankPrefix(h, k);
    assert forall j :: 0 <= j < k ==> h[..k][j] == h[j] != NUL;
  }

  // ----- the fields by name, whatever the case of the letters

  predicate Named(f: Field, name: Bytes) { SameButCase(f.key, name) }

  /** Field i is the last one of that name. */
  predicate LastNamed(fields: seq<Field>, name: Bytes, i: int) {
    0 <= i < |fields| && Named(fields[i], name) && forall j :: i < j < |fields| ==> !Named(fields[j], name)
  }

  predicate NoneNamed(fields: seq<Field>, name: Bytes) {
    forall i :: 0 <= i < |fields| ==> !Named(fields[i], name)
  }

  lemma {:induction false} FieldMapLookup(m: map<Bytes, Bytes>, fields: seq<Field>, name: Bytes)
    requires NoUpperCase(name)
    ensures forall i :: LastNamed(fields, name, i) ==>
              name in FieldMap(m, fields) && FieldMap(m, fields)[name] == fields[i].value
    ensures NoneNamed(fields, name) ==> (name in FieldMap(m, fields) <==> name in m)
    ensures NoneNamed(fields, name) && name in m ==> FieldMap(m, fields)[name] == m[name]
    decreases |fields|
  {
    hide Named, NoUpperCase;
    if fields != [] {
      var f, rest := fields[0], fields[1..];
      var next := m[Lower(f.key) := f.value];
      FieldMapLookup(next, rest, name);
      assert Lower(f.key) == name <==> Named(f, name) by { FieldNamed(f, name); }
      assert forall j :: 0 <= j < |rest| ==> rest[j] == fields[j + 1];
      assert NoneNamed(fields, name) ==> !Named(fields[0], name) && NoneNamed(rest, name);
      forall i | LastNamed(fields, name, i)
        ensures name in FieldMap(m, fields) && FieldMap(m, fields)[name] == fields[i].value
      {
        if i > 0 {
          assert rest[i - 1] == fields[i];
          assert LastNamed(rest, name, i - 1);
        } else {
          assert NoneNamed(rest, name);
        }
      }
    }
  }

  lemma FieldNamed(f: Field, name: Bytes)
    requires NoUpperCase(name)
    ensures Lower(f.key) == name <==> Named(f, name)
  {
    LowerNamed(f.key, name);
  }

  lemma {:induction false} LastNamedExists(fields: seq<Field>, name: Bytes)
    ensures NoneNamed(fields, name) || exists i :: LastNamed(fields, name, i)
    decreases |fields|
  {
    hide Named;
    if fields != [] {
      var front, n := fields[..|fields| - 1], |fields| - 1;
      LastNamedExists(front, name);
      assert forall j :: 0 <= j < n ==> front[j] == fields[j];
      if Named(fields[n], name) {
        assert LastNamed(fields, name, n);
      } else if !NoneNamed(front, name) {
        var i :| LastNamed(front, name, i);
        assert LastNamed(fields, name, i);
      }
    }
  }

  /** What a printed header says under a name without upper-case letters: the value of the last field whose key is
      that name up to case, and nothing if there is none. */
  lemma PrintedHeaderLookup(method_: Bytes, url: Bytes, version: Bytes, fields: seq<Field>, body: Bytes, name: Bytes)
    requires LegalStart(method_, url, version) && forall f :: f in fields ==> LegalField(f)
    requires NoUpperCase(name)
    ensures var r := Header(PrintHeader(method_, url, version, fields) + body);
            && r.Found?
            && (NoneNamed(fields, name) ==> name !in r.head.headers)
            && forall i :: LastNamed(fields, name, i) ==>
                 name in r.head.headers && r.head.headers[name] == fields[i].value
  {
    hide Header, PrintHeader, LegalField, FieldMap;
    PrintedHeaderRoundTrip(method_, url, version, fields, body);
    FieldMapLookup(map[], fields, name);
  }

  // ----- any field line

  /** The bytes of s that are no colons. */
  function NoColons(s: Bytes): Bytes {
    if s == [] then [] else (if s[0] == 58 then [] else [s[0]]) + NoColons(s[1..])
  }

  lemma {:induction false} KeyBytesAny(c: Cursor, s: Bytes)
    requires c.head.status == InKey && 32 !in s
    ensures Steps(c, s) == c.(key := c.key + NoColons(s))
    decreases |s|
  {
    if s == [] {
      assert c.key + NoColons(s) == c.key;
    } else {
      var kept: Bytes := if s[0] == 58 then [] else [s[0]];
      assert s[0] in s && forall b :: b in s[1..] ==> b in s;
      KeyByte(c, s[0]);
      var t := Step(c, s[0]);
      hide Step;
      KeyBytesAny(t, s[1..]);
      Assoc(c.key, kept, NoColons(s[1..]));
    }
  }

  lemma KeyByte(c: Cursor, b: Byte)
    requires c.head.status == InKey && b != 32
    ensures Step(c, b) == c.(key := c.key + if b == 58 then [] else [b])
  {
    assert c.key + [] == c.key;
  }

  /** Any line of the block: without a space it is ignored; otherwise the key is what stands before the first space,
      without colons and in lower case, and the value is all that stands behind it. */
  lemma FieldLineExactly(h: Head, content: Bytes, i: nat)
    requires h.status == InKey && 13 !in content && 10 !in content
    ensures 32 !in content ==> HeadLine(h, content + [13, 10]) == h
    ensures i < |content| && content[i] == 32 && 32 !in content[..i] ==>
              exists key :: LowerCased(NoColons(content[..i]), key) && Stored(h, content, key, content[i + 1..])
  {
    hide Steps, HeadLine;
    if 32 !in content {
      NoSpaceNoField(h, content);
    }
    if i < |content| && content[i] == 32 && 32 !in content[..i] {
      var name, value := content[..i], content[i + 1..];
      assert forall b :: b in value ==> b in content;
      KeyThenValue(h, name, value);
      assert content + [13, 10] == name + [32] + (value + [13, 10]);
      LowerIsLowerCased(NoColons(name));
      assert Stored(h, content, Lower(NoColons(name)), value);
    }
  }

  /** The line stores this value under this key. */
  predicate Stored(h: Head, content: Bytes, key: Bytes, value: Bytes) {
    HeadLine(h, content + [13, 10]) == h.(headers := h.headers[key := value])
  }

  lemma NoSpaceNoField(h: Head, content: Bytes)
    requires h.status == InKey && 32 !in content
    ensures HeadLine(h, content + [13, 10]) == h
  {
    hide Steps;
    KeyBytesAny(Cursor(h, [], []), content + [13, 10]);
  }

  /** Any start line with two spaces: what stands before, between and behind them. */
  lemma StartLineExactly(m: Bytes, u: Bytes, v: Bytes)
    requires 32 !in m && 32 !in u && 13 !in v && 10 !in v
    ensures HeadLine(NoHead(), m + [32] + (u + [32] + (v + [13, 10]))) == Head(InKey, m, u, v, map[])
  {
    hide Steps;
    var c0, none: Bytes := Cursor(NoHead(), [], []), [];
    assert none + m == m && none + u == u && none + v == v;
    var tail := u + [32] + (v + [13, 10]);
    assert Without(m, [SPACE]) && Without(u, [SPACE]) && Without(v, [CR, LF]) by {
      assert forall k :: 0 <= k < |m| ==> m[k] in m;
      assert forall k :: 0 <= k < |u| ==> u[k] in u;
      assert forall k :: 0 <= k < |v| ==> v[k] in v;
    }
    MethodBytes(c0, m);
    StepsAppend(c0, m + [32], tail);
    StepsAppend(c0, m, [32]);
    OneStep(c0.(head := Head(InMethod, m, [], [], map[])), 32);
    var c2, c3 := c0.(head := Head(InPath, m, [], [], map[])), c0.(head := Head(InPath, m, u, [], map[]));
    UrlBytes(c2, u);
    StepsAppend(c2, u + [32], v + [13, 10]);
    StepsAppend(c2, u, [32]);
    OneStep(c3, 32);
    var c4, c5 := c0.(head := Head(InVersion, m, u, [], map[])), c0.(head := Head(InVersion, m, u, v, map[]));
    VersionBytes(c4, v);
    StepsAppend(c4, v, [13, 10]);
    TwoSteps(c5, 13, 10);
  }

  lemma KeyThenValue(h: Head, name: Bytes, value: Bytes)
    requires h.status == InKey && 32 !in name && 13 !in value && 10 !in value
    ensures HeadLine(h, name + [32] + (value + [13, 10])) == h.(headers := h.headers[Lower(NoColons(name)) := value])
  {
    hide Steps;
    var none: Bytes, key := [], NoColons(name);
    assert none + key == key && none + value == value;
    var c0, c1 := Cursor(h, [], []), Cursor(h, key, []);
    KeyBytesAny(c0, name);
    StepsAppend(c0, name + [32], value + [13, 10]);
    StepsAppend(c0, name, [32]);
    OneStep(c1, 32);
    var c2, c3 := Cursor(h.(status := InValue), key, []), Cursor(h.(status := InValue), key, value);
    assert Without(value, [CR, LF]) by {
      assert forall k :: 0 <= k < |value| ==> value[k] in value;
    }
    ValueBytes(c2, value);
    StepsAppend(c2, value, [13, 10]);
    TwoSteps(c3, 13, 10);
  }

  // ----- where the header ends

  predicate BlankAt(s: Bytes, k: int) {
    0 <= k && k + 4 <= |s| && s[k] == 13 && s[k + 1] == 10 && s[k + 2] == 13 && s[k + 3] == 10
  }

  /** The first blank line, and -1 exactly when there is none. */
  lemma {:induction false} FirstBlankExactly(s: Bytes)
    ensures FirstBlank(s) == -1 <==> forall k :: !BlankAt(s, k)
    ensures FirstBlank(s) >= 0 ==> BlankAt(s, FirstBlank(s)) && forall k :: 0 <= k < FirstBlank(s) ==> !BlankAt(s, k)
    decreases |s|
  {
    if |s| >= 4 {
      FirstBlankExactly(s[1..]);
      assert s[..4] == BLANK_LINE <==> BlankAt(s, 0) by {
        assert s[..4] == [s[0], s[1], s[2], s[3]];
      }
      assert forall k :: k >= 1 ==> (BlankAt(s, k) <==> BlankAt(s[1..], k - 1));
      assert forall k :: k >= 0 ==> (BlankAt(s[1..], k) <==> BlankAt(s, k + 1));
    }
  }

  /** A block of at most one byte is refused, whatever follows. */
  lemma ShortBlockIsBad(b: Byte, x: Bytes)
    requires b != 0
    ensures Header([13, 10, 13, 10] + x) == BadHeader
    ensures Header([b, 13, 10, 13, 10] + x) == BadHeader
  {
    hide FirstBlank, Lines;
    ShortBlank([13, 10, 13, 10], x);
    ShortBlank([b, 13, 10, 13, 10], x);
  }

  lemma ShortBlank(s: Bytes, x: Bytes)
    requires 4 <= |s| <= 5 && 0 !in s && s[|s| - 4..] == [13, 10, 13, 10]
    ensures 0 <= FirstBlank(CString(s + x)) <= 1
  {
    hide FirstBlank;
    var t := CString(s + x);
    assert forall k :: 0 <= k < |s| ==> (s + x)[k] == s[k] != NUL by {
      assert forall k :: 0 <= k < |s| ==> s[k] in s;
    }
    assert s <= t;
    var u := s[|s| - 4..];
    assert u[0] == 13 && u[1] == 10 && u[2] == 13 && u[3] == 10;
    assert BlankAt(t, |s| - 4);
    FirstBlankExactly(t);
  }

  /** Behind a NUL nothing is found. */
  lemma NulHidesTheEnd(s: Bytes, x: Bytes)
    requires 0 !in s && FirstBlank(s) == -1
    ensures Header(s + [0] + x) == NotFound
  {
    hide FirstBlank;
    var t := s + [0] + x;
    assert forall k :: 0 <= k < |s| ==> t[k] == s[k] != NUL by {
      assert forall k :: 0 <= k < |s| ==> s[k] in s;
    }
    IndexOfUnique(t, NUL, |s|);
    assert t[..|s|] == s;
  }
}
