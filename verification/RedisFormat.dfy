/** The format-string serializer: redisvFormatCommand on formats of literals, spaces, %s and %b. */
module RedisFormat {
  import opened ByteStrings
  import opened RedisRequests
  import opened RedisSerializer

  const PERCENT: Byte := 37
  const LETTER_S: Byte := 115
  const LETTER_B: Byte := 98

  // ----- what a format means

  datatype Piece = Gap | Lit(b: Byte) | Value(bytes: Bytes)

  datatype Format = Pieces(list: seq<Piece>) | Unsupported

  /** The value strlen sees. */
  function UpToNul(s: Bytes): Bytes { if IndexOf(s, NUL) < 0 then s else s[..IndexOf(s, NUL)] }

  /** The pieces of a format and its variable arguments. A percent sign at the end is a literal; "%%" stands for
      no bytes at all; any other conversion, or a missing argument, is outside this model. */
  function ParseFormat(f: Bytes, args: seq<Bytes>): Format
    decreases |f|
  {
    if f == [] then Pieces([])
    else if f[0] != PERCENT || |f| == 1 then
      match ParseFormat(f[1..], args)
      case Unsupported => Unsupported
      case Pieces(l) => Pieces([if f[0] == SPACE then Gap else Lit(f[0])] + l)
    else if f[1] == PERCENT then
      match ParseFormat(f[2..], args)
      case Unsupported => Unsupported
      case Pieces(l) => Pieces([Value([])] + l)
    else if (f[1] == LETTER_S || f[1] == LETTER_B) && args != [] then
      match ParseFormat(f[2..], args[1..])
      case Unsupported => Unsupported
      case Pieces(l) => Pieces([Value(Argument(f[1], args[0]))] + l)
    else Unsupported
  }

  function Argument(conversion: Byte, arg: Bytes): Bytes { if conversion == LETTER_S then UpToNul(arg) else arg }

  /** How many pieces precede the next gap. */
  function RunLength(ps: seq<Piece>): (n: nat)
    ensures n <= |ps| && (ps != [] && ps[0] != Gap ==> n > 0)
    ensures forall k :: 0 <= k < n ==> ps[k] != Gap
    ensures n < |ps| ==> ps[n] == Gap
  {
    if ps == [] || ps[0] == Gap then 0 else 1 + RunLength(ps[1..])
  }

  /** The space-separated words of a format: its maximal runs without gaps. */
  function Words(ps: seq<Piece>): seq<seq<Piece>>
    decreases |ps|
  {
    if ps == [] then []
    else if ps[0] == Gap then Words(ps[1..])
    else var n := RunLength(ps); [ps[..n]] + Words(ps[n..])
  }

  function PieceText(p: Piece): Bytes {
    match p case Gap => [] case Lit(b) => [b] case Value(v) => v
  }

  /** A word with its values substituted; spaces inside a value stay inside it. */
  function Text(word: seq<Piece>): Bytes {
    if word == [] then [] else PieceText(word[0]) + Text(word[1..])
  }

  function Texts(words: seq<seq<Piece>>): Argv {
    if words == [] then [] else [Text(words[0])] + Texts(words[1..])
  }

  /** A word that begins with an empty value is refused. */
  predicate Refused(words: seq<seq<Piece>>) {
    exists k :: 0 <= k < |words| && words[k] != [] && words[k][0] == Value([])
  }

  // ----- the loop

  datatype Building = Building(args: Argv, cur: Bytes, touched: bool) | Error

  function Put(s: Building, p: Piece): Building {
    if s.Error? then Error
    else match p
      case Gap => if s.touched then Building(s.args + [s.cur], [], false) else s
      case Lit(b) => Building(s.args, s.cur + [b], true)
      case Value(v) => if s.cur + v == [] then Error else Building(s.args, s.cur + v, true)
  }

  function PutAll(s: Building, ps: seq<Piece>): Building
    decreases |ps|
  {
    if ps == [] then s else PutAll(Put(s, ps[0]), ps[1..])
  }

  /** Add the last argument if needed. */
  function Close(s: Building): Building {
    if s.Error? || !s.touched then s else Building(s.args + [s.cur], [], false)
  }

  lemma {:induction false} PutAllAppend(s: Building, a: seq<Piece>, b: seq<Piece>)
    ensures PutAll(s, a + b) == PutAll(PutAll(s, a), b)
    decreases |a|
  {
    if a == [] {
      assert a + b == b;
    } else {
      assert (a + b)[1..] == a[1..] + b && (a + b)[0] == a[0];
      PutAllAppend(Put(s, a[0]), a[1..], b);
    }
  }

  lemma {:induction false} ErrorStays(ps: seq<Piece>)
    ensures PutAll(Error, ps) == Error
    decreases |ps|
  {
    if ps != [] {
      ErrorStays(ps[1..]);
    }
  }

  /** Once an argument has begun, a word's text is appended to it. */
  lemma {:induction false} PutRest(args: Argv, cur: Bytes, word: seq<Piece>)
    requires cur != [] && forall k :: 0 <= k < |word| ==> word[k] != Gap
    ensures PutAll(Building(args, cur, true), word) == Building(args, cur + Text(word), true)
    decreases |word|
  {
    hide PutAll, Put, PieceText, Text;
    if word == [] {
      NoWord(Building(args, cur, true));
      assert cur + [] == cur;
    } else {
      var t, rest := PieceText(word[0]), word[1..];
      PutText(args, cur, word);
      PutRest(args, cur + t, rest);
      assert cur + t + Text(rest) == cur + (t + Text(rest));
    }
  }

  lemma NoWord(s: Building)
    ensures PutAll(s, []) == s && Text([]) == []
  {
  }

  /** The first piece of a word goes behind the argument begun. */
  lemma PutText(args: Argv, cur: Bytes, word: seq<Piece>)
    requires cur != [] && word != [] && word[0] != Gap
    ensures PutAll(Building(args, cur, true), word) == PutAll(Building(args, cur + PieceText(word[0]), true), word[1..])
    ensures Text(word) == PieceText(word[0]) + Text(word[1..])
  {
  }

  lemma PutWord(args: Argv, word: seq<Piece>)
    requires word != [] && forall k :: 0 <= k < |word| ==> word[k] != Gap
    ensures PutAll(Building(args, [], false), word) ==
            if word[0] == Value([]) then Error else Building(args, Text(word), true)
  {
    var none, first: Bytes := [], PieceText(word[0]);
    assert none + first == first;
    if first == [] {
      ErrorStays(word[1..]);
    } else {
      assert Put(Building(args, none, false), word[0]) == Building(args, first, true);
      PutRest(args, first, word[1..]);
    }
  }

  /** The loop builds exactly the words, or fails exactly when a word begins with an empty value. */
  lemma {:induction false} LoopBuildsWords(args: Argv, ps: seq<Piece>)
    ensures Close(PutAll(Building(args, [], false), ps)) ==
            if Refused(Words(ps)) then Error else Building(args + Texts(Words(ps)), [], false)
    decreases |ps|
  {
    hide Text, Texts, Put, PutAll, Refused;
    if ps == [] {
      NothingBuilt(args);
    } else if ps[0] == Gap {
      GapSkipped(args, ps);
      LoopBuildsWords(args, ps[1..]);
    } else {
      var n := RunLength(ps);
      var word, rest := ps[..n], ps[n..];
      var words := Words(rest);
      assert Words(ps) == [word] + words && ps == word + rest;
      PutWord(args, word);
      PutAllAppend(Building(args, [], false), word, rest);
      RefusedCons(word, words);
      if word[0] == Value([]) {
        ErrorStays(rest);
      } else {
        AfterWord(args, Text(word), rest);
        TextsCons(args, word, words);
      }
    }
  }

  lemma NothingBuilt(args: Argv)
    ensures PutAll(Building(args, [], false), []) == Building(args, [], false)
    ensures !Refused([]) && args + Texts([]) == args
  {
  }

  lemma GapSkipped(args: Argv, ps: seq<Piece>)
    requires ps != [] && ps[0] == Gap
    ensures PutAll(Building(args, [], false), ps) == PutAll(Building(args, [], false), ps[1..])
  {
  }

  lemma TextsCons(args: Argv, word: seq<Piece>, words: seq<seq<Piece>>)
    ensures args + [Text(word)] + Texts(words) == args + Texts([word] + words)
  {
    hide Text;
    assert ([word] + words)[1..] == words;
  }

  lemma RefusedCons(word: seq<Piece>, words: seq<seq<Piece>>)
    requires word != []
    ensures Refused([word] + words) <==> word[0] == Value([]) || Refused(words)
  {
    var all := [word] + words;
    assert forall k :: 0 <= k < |words| ==> all[k + 1] == words[k];
    if Refused(words) {
      var k :| 0 <= k < |words| && words[k] != [] && words[k][0] == Value([]);
      assert all[k + 1] != [] && all[k + 1][0] == Value([]);
    }
    if word[0] == Value([]) {
      assert all[0] != [] && all[0][0] == Value([]);
    }
  }

  /** After a word comes a gap or the end, which pushes it. */
  lemma AfterWord(args: Argv, text: Bytes, rest: seq<Piece>)
    requires rest != [] ==> rest[0] == Gap
    ensures Close(PutAll(Building(args, text, true), rest)) ==
            if Refused(Words(rest)) then Error else Building(args + [text] + Texts(Words(rest)), [], false)
    decreases |rest|, 1
  {
    var next := args + [text];
    if rest == [] {
      assert next + Texts(Words(rest)) == next;
    } else {
      LoopBuildsWordsAfterGap(next, rest);
    }
  }

  lemma LoopBuildsWordsAfterGap(args: Argv, rest: seq<Piece>)
    requires rest != [] && rest[0] == Gap
    ensures Close(PutAll(Building(args, [], false), rest[1..])) ==
            if Refused(Words(rest)) then Error else Building(args + Texts(Words(rest)), [], false)
    decreases |rest|, 0
  {
    LoopBuildsWords(args, rest[1..]);
  }

  // ----- the serializer

  /** redisvFormatCommand: the arguments are the words of the format with values substituted; the bytes are
      those of FormatCommandArgv, and as many as were reserved. An error means some word begins with an
      empty value. */
  method FormatCommand(format: Bytes, values: seq<Bytes>) returns (ok: bool, cmd: Bytes, totlen: nat)
    requires NUL !in format && ParseFormat(format, values).Pieces?
    ensures var words := Words(ParseFormat(format, values).list);
            && (ok <==> !Refused(words))
            && (ok ==> cmd == Command(Texts(words)) && totlen == |cmd|)
  {
    hide Command, Words, Refused, Texts, BulkList, Decimal, ParseFormat;
    ghost var pieces := ParseFormat(format, values).list;
    var args: Argv;
    ok, args, totlen := FormatArgs(format, values);
    cmd := [];
    if ok {
      var digits := IntLen(|args|);
      totlen := totlen + 1 + digits + 2;
      CommandLen(args);
      var len;
      cmd, len := FormatCommandArgv(args);
    }
  }

  /** The loop over the format, with the argument that is still open at its end. */
  method FormatArgs(format: Bytes, values: seq<Bytes>) returns (ok: bool, args: Argv, totlen: nat)
    requires ParseFormat(format, values).Pieces?
    ensures var words := Words(ParseFormat(format, values).list);
            && (ok <==> !Refused(words))
            && (ok ==> args == Texts(words) && totlen == |BulkList(args)|)
  {
    hide Words, Refused, Texts, BulkList, ParseFormat, PutAll, Put, Argument;
    ghost var pieces := ParseFormat(format, values).list;
    var c, k := 0, 0;
    var curarg: Bytes, touched := [], false;
    ok, args, totlen := true, [], 0;
    NoBulks();
    ghost var goal := PutAll(Building([], [], false), pieces);
    LoopBuildsWords([], pieces);
    var none: Argv := [];
    assert none + Texts(Words(pieces)) == Texts(Words(pieces));
    assert format[0..] == format && values[0..] == values;
    while c < |format|
      invariant c <= |format| && k <= |values| && ParseFormat(format[c..], values[k..]).Pieces?
      invariant PutAll(Building(args, curarg, touched), ParseFormat(format[c..], values[k..]).list) == goal
      invariant totlen == |BulkList(args)|
    {
      if format[c] != PERCENT || c + 1 == |format| {
        PlainPass(Building(args, curarg, touched), format, c, values, k);
        if format[c] == SPACE {
          if touched {
            totlen := AddLen(totlen, args, curarg);
            args, curarg, touched := args + [curarg], [], false;
          }
        } else {
          curarg, touched := curarg + [format[c]], true;
        }
      } else {
        ghost var n := ConversionPass(Building(args, curarg, touched), format, c, values, k);
        assert curarg + [] == curarg;
        if format[c + 1] != PERCENT {
          curarg, k := curarg + Argument(format[c + 1], values[k]), k + 1;
        }
        if curarg == [] {
          ErrorStays(ParseFormat(format[c + 2..], values[k..]).list);
          return false, [], 0;
        }
        touched := true;
        c := c + 1;
      }
      c := c + 1;
    }
    AtEnd(Building(args, curarg, touched), format[c..], values[k..]);
    if touched {
      totlen := AddLen(totlen, args, curarg);
      args := args + [curarg];
    }
  }

  /** One pass over a byte that is no conversion. */
  lemma PlainPass(s: Building, format: Bytes, c: nat, values: seq<Bytes>, k: nat)
    requires c < |format| && k <= |values| && ParseFormat(format[c..], values[k..]).Pieces?
    requires s.Building? && (format[c] != PERCENT || c + 1 == |format|)
    ensures ParseFormat(format[c + 1..], values[k..]).Pieces?
    ensures var next := if format[c] != SPACE then Building(s.args, s.cur + [format[c]], true)
                        else if s.touched then Building(s.args + [s.cur], [], false) else s;
            PutAll(s, ParseFormat(format[c..], values[k..]).list)
                == PutAll(next, ParseFormat(format[c + 1..], values[k..]).list)
  {
    Dropped(format, c, 1);
    var rest := ParseFormat(format[c + 1..], values[k..]).list;
    var p := if format[c] == SPACE then Gap else Lit(format[c]);
    assert ParseFormat(format[c..], values[k..]) == Pieces([p] + rest);
    hide ParseFormat;
    PutOne(s, p, rest);
  }

  /** One pass over a conversion, which takes n of the values. */
  lemma ConversionPass(s: Building, format: Bytes, c: nat, values: seq<Bytes>, k: nat) returns (n: nat)
    requires c + 1 < |format| && k <= |values| && ParseFormat(format[c..], values[k..]).Pieces?
    requires s.Building? && format[c] == PERCENT
    ensures n == (if format[c + 1] == PERCENT then 0 else 1) && k + n <= |values|
    ensures ParseFormat(format[c + 2..], values[k + n..]).Pieces?
    ensures var text := s.cur + (if n == 0 then [] else Argument(format[c + 1], values[k]));
            var next := if text == [] then Error else Building(s.args, text, true);
            PutAll(s, ParseFormat(format[c..], values[k..]).list)
                == PutAll(next, ParseFormat(format[c + 2..], values[k + n..]).list)
  {
    hide Argument;
    Dropped(format, c, 2);
    n := if format[c + 1] == PERCENT then 0 else 1;
    assert n == 1 ==> values[k..] != [];
    Dropped(values, k, n);
    var rest := ParseFormat(format[c + 2..], values[k + n..]).list;
    var p := Value(if n == 0 then [] else Argument(format[c + 1], values[k]));
    assert ParseFormat(format[c..], values[k..]) == Pieces([p] + rest);
    hide ParseFormat;
    PutOne(s, p, rest);
  }

  lemma Dropped<T>(s: seq<T>, i: nat, n: nat)
    requires i + n <= |s|
    ensures s[i..][n..] == s[i + n..] && (i < |s| ==> s[i..][0] == s[i]) && (i + 1 < |s| ==> s[i..][1] == s[i + 1])
  {
  }

  lemma PutOne(s: Building, p: Piece, rest: seq<Piece>)
    ensures PutAll(s, [p] + rest) == PutAll(Put(s, p), rest)
  {
    assert ([p] + rest)[1..] == rest;
  }

  lemma AtEnd(s: Building, f: Bytes, args: seq<Bytes>)
    requires f == [] && ParseFormat(f, args).Pieces?
    ensures PutAll(s, ParseFormat(f, args).list) == s
  {
  }

  /** totlen += bulklen(curarg.size()) */
  method AddLen(totlen: nat, args: Argv, arg: Bytes) returns (r: nat)
    requires totlen == |BulkList(args)|
    ensures r == |BulkList(args + [arg])|
  {
    var len := BulkLen(|arg|);
    BulkListSnoc(args, arg);
    r := totlen + len;
  }

  lemma NoBulks()
    ensures BulkList([]) == []
  {
  }

  lemma CommandLen(args: Argv)
    ensures |Command(args)| == 1 + |Decimal(|args|)| + 2 + |BulkList(args)|
  {
  }
}
