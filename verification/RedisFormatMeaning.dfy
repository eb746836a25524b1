/** What a format string means, in terms of what was written into it: a round trip for redisvFormatCommand. */
module RedisFormatMeaning {
  import opened ByteStrings
  import opened RedisRequests
  import opened RedisSerializer
  import opened RedisFormat

  /** What a format is made of: a space, a byte that stands for itself, "%s" and "%b" with their values, and "%%". */
  datatype Item = Blank | Plain(b: Byte) | Str(value: Bytes) | Bin(value: Bytes) | Percents

  predicate LegalItem(x: Item) { x.Plain? ==> x.b != 0 && x.b != 32 && x.b != 37 }

  function PrintItem(x: Item): Bytes {
    match x
    case Blank => [32]
    case Plain(b) => [b]
    case Str(_) => [37, 115]
    case Bin(_) => [37, 98]
    case Percents => [37, 37]
  }

  function Print(items: seq<Item>): Bytes {
    if items == [] then [] else PrintItem(items[0]) + Print(items[1..])
  }

  /** The variable arguments, in order. */
  function ValuesOf(items: seq<Item>): seq<Bytes> {
    if items == [] then []
    else (if items[0].Str? || items[0].Bin? then [items[0].value] else []) + ValuesOf(items[1..])
  }

  /** t is what strlen sees of v: all of it, or what stands before its first NUL. */
  predicate IsCString(t: Bytes, v: Bytes) {
    t <= v && (forall k :: 0 <= k < |t| ==> t[k] != 0) && (t == v || v[|t|] == 0)
  }

  /** t is what the item adds to its argument: a byte, a binary value in full, a string up to its first NUL. */
  predicate IsText(x: Item, t: Bytes) {
    match x
    case Blank => false
    case Plain(b) => t == [b]
    case Str(v) => IsCString(t, v)
    case Bin(v) => t == v
    case Percents => t == []
  }

  /** parts are the texts of the items of a word. */
  predicate AreParts(word: seq<Item>, parts: seq<Bytes>) {
    |parts| == |word| && forall k :: 0 <= k < |word| ==> IsText(word[k], parts[k])
  }

  function Blanks(n: nat): seq<Item> { seq(n, _ => Blank) }

  /** The words with gaps[k] spaces before the k-th. */
  function Spread(words: seq<seq<Item>>, gaps: seq<nat>): seq<Item>
    requires |gaps| == |words|
  {
    if words == [] then [] else Blanks(gaps[0]) + (words[0] + Spread(words[1..], gaps[1..]))
  }

  predicate LegalWord(word: seq<Item>) {
    word != [] && forall k :: 0 <= k < |word| ==> LegalItem(word[k]) && word[k] != Blank
  }

  predicate LegalWords(words: seq<seq<Item>>, gaps: seq<nat>) {
    && |gaps| == |words| && (forall k :: 0 <= k < |words| ==> LegalWord(words[k]))
    && forall k :: 0 < k < |gaps| ==> gaps[k] > 0
  }

  // ----- reading what was printed

  function PieceOf(x: Item): Piece {
    match x
    case Blank => Gap
    case Plain(b) => Lit(b)
    case Str(v) => Value(UpToNul(v))
    case Bin(v) => Value(v)
    case Percents => Value([])
  }

  function PiecesOf(items: seq<Item>): (ps: seq<Piece>)
    ensures |ps| == |items| && forall k :: 0 <= k < |items| ==> ps[k] == PieceOf(items[k])
  {
    if items == [] then [] else [PieceOf(items[0])] + PiecesOf(items[1..])
  }

  lemma {:induction false} PrintedFormat(items: seq<Item>)
    requires forall k :: 0 <= k < |items| ==> LegalItem(items[k])
    ensures ParseFormat(Print(items), ValuesOf(items)) == Pieces(PiecesOf(items))
    decreases |items|
  {
    hide UpToNul, ParseFormat;
    if items == [] {
      NothingPrinted();
    } else {
      PrintedFormat(items[1..]);
      OneItem(items[0], Print(items[1..]), ValuesOf(items[1..]), PiecesOf(items[1..]));
    }
  }

  lemma NothingPrinted()
    ensures ParseFormat([], []) == Pieces([])
  {
  }

  lemma OneItem(x: Item, f: Bytes, args: seq<Bytes>, ps: seq<Piece>)
    requires LegalItem(x) && ParseFormat(f, args) == Pieces(ps)
    ensures ParseFormat(PrintItem(x) + f, (if x.Str? || x.Bin? then [x.value] else []) + args)
         == Pieces([PieceOf(x)] + ps)
  {
    hide UpToNul;
    var g := PrintItem(x) + f;
    var values := (if x.Str? || x.Bin? then [x.value] else []) + args;
    assert g[|PrintItem(x)|..] == f;
    if x.Str? || x.Bin? {
      assert values[1..] == args;
    } else {
      assert values == args;
    }
  }

  lemma UpToNulIsCString(v: Bytes, t: Bytes)
    ensures IsCString(t, v) <==> t == UpToNul(v)
  {
    var i := IndexOf(v, NUL);
    if IsCString(t, v) && t != v {
      assert forall k :: 0 <= k < |t| ==> v[k] == t[k];
      IndexOfUnique(v, NUL, |t|);
    }
    assert t == v && i >= 0 ==> t[i] == 0;
  }

  lemma TextOfItem(x: Item, t: Bytes)
    requires x != Blank
    ensures IsText(x, t) <==> t == PieceText(PieceOf(x))
  {
    if x.Str? { UpToNulIsCString(x.value, t); }
  }

  lemma {:induction false} TextOfWord(word: seq<Item>, parts: seq<Bytes>)
    requires LegalWord(word) || word == []
    requires AreParts(word, parts)
    ensures Text(PiecesOf(word)) == Concat(parts)
    decreases |word|
  {
    hide IsText, PieceOf;
    if word != [] {
      assert forall k :: 0 <= k < |word| - 1 ==> word[1..][k] == word[k + 1] && parts[1..][k] == parts[k + 1];
      TextOfItem(word[0], parts[0]);
      TextOfWord(word[1..], parts[1..]);
      assert PiecesOf(word)[1..] == PiecesOf(word[1..]);
    }
  }

  // ----- the words of what was printed

  function AllPieces(words: seq<seq<Item>>): seq<seq<Piece>> {
    if words == [] then [] else [PiecesOf(words[0])] + AllPieces(words[1..])
  }

  lemma {:induction false} RunOf(w: seq<Piece>, rest: seq<Piece>)
    requires (forall k :: 0 <= k < |w| ==> w[k] != Gap) && (rest != [] ==> rest[0] == Gap)
    ensures RunLength(w + rest) == |w|
    decreases |w|
  {
    if w == [] {
      assert w + rest == rest;
    } else {
      assert (w + rest)[1..] == w[1..] + rest;
      RunOf(w[1..], rest);
    }
  }

  lemma {:induction false} GapsSkipped(n: nat, rest: seq<Item>)
    ensures Words(PiecesOf(Blanks(n) + rest)) == Words(PiecesOf(rest))
    decreases n
  {
    if n == 0 {
      assert Blanks(0) + rest == rest;
    } else {
      var all := Blanks(n) + rest;
      assert all[1..] == Blanks(n - 1) + rest && all[0] == Blank;
      assert PiecesOf(all)[1..] == PiecesOf(all[1..]);
      GapsSkipped(n - 1, rest);
    }
  }

  lemma WordTaken(word: seq<Item>, rest: seq<Item>)
    requires LegalWord(word) && (rest != [] ==> rest[0] == Blank)
    ensures Words(PiecesOf(word + rest)) == [PiecesOf(word)] + Words(PiecesOf(rest))
  {
    hide Words, RunLength, PiecesOf;
    var p, q, ps := PiecesOf(word), PiecesOf(rest), PiecesOf(word + rest);
    PiecesAppend(word, rest);
    assert forall k :: 0 <= k < |p| ==> p[k] == PieceOf(word[k]) && p[k] != Gap;
    RunOf(p, q);
    hide PieceOf;
    assert ps[..|p|] == p && ps[|p|..] == q && ps[0] == p[0];
    FirstRun(ps);
  }

  lemma PiecesAppend(a: seq<Item>, b: seq<Item>)
    ensures PiecesOf(a + b) == PiecesOf(a) + PiecesOf(b)
  {
    hide PieceOf;
  }

  lemma FirstRun(ps: seq<Piece>)
    requires ps != [] && ps[0] != Gap
    ensures Words(ps) == [ps[..RunLength(ps)]] + Words(ps[RunLength(ps)..])
  {
  }

  lemma {:induction false} WordsOfSpread(words: seq<seq<Item>>, gaps: seq<nat>, last: nat)
    requires LegalWords(words, gaps)
    ensures Words(PiecesOf(Spread(words, gaps) + Blanks(last))) == AllPieces(words)
    decreases |words|
  {
    hide Words, LegalWord;
    var none: seq<Item> := [];
    if words == [] {
      assert Spread(words, gaps) + Blanks(last) == Blanks(last) + none;
      GapsSkipped(last, none);
      NoPieces();
    } else {
      var tail := Spread(words[1..], gaps[1..]) + Blanks(last);
      assert Spread(words, gaps) + Blanks(last) == Blanks(gaps[0]) + (words[0] + tail);
      GapsSkipped(gaps[0], words[0] + tail);
      TailIsBlank(words[1..], gaps[1..], last);
      WordTaken(words[0], tail);
      WordsOfSpread(words[1..], gaps[1..], last);
    }
  }

  lemma NoPieces()
    ensures Words(PiecesOf([])) == []
  {
  }

  lemma TailIsBlank(words: seq<seq<Item>>, gaps: seq<nat>, last: nat)
    requires |gaps| == |words| && forall k :: 0 <= k < |gaps| ==> gaps[k] > 0
    ensures var tail := Spread(words, gaps) + Blanks(last); tail != [] ==> tail[0] == Blank
  {
  }

  lemma {:induction false} SpreadIsLegal(words: seq<seq<Item>>, gaps: seq<nat>)
    requires LegalWords(words, gaps)
    ensures forall k :: 0 <= k < |Spread(words, gaps)| ==> LegalItem(Spread(words, gaps)[k])
    decreases |words|
  {
    if words != [] {
      assert LegalWord(words[0]);
      SpreadIsLegal(words[1..], gaps[1..]);
      var tail := Spread(words[1..], gaps[1..]);
      assert forall x :: x in words[0] ==> LegalItem(x);
      assert forall x :: x in tail ==> LegalItem(x);
      assert forall x :: x in Spread(words, gaps) ==> x == Blank || x in words[0] || x in tail;
    }
  }

  lemma {:induction false} NoNulPrinted(items: seq<Item>)
    requires forall k :: 0 <= k < |items| ==> LegalItem(items[k])
    ensures NUL !in Print(items)
    decreases |items|
  {
    if items != [] {
      NoNulPrinted(items[1..]);
    }
  }

  // ----- the round trip

  /** The texts of the words, given the parts each is made of. */
  function Joined(parts: seq<seq<Bytes>>): Argv {
    if parts == [] then [] else [Concat(parts[0])] + Joined(parts[1..])
  }

  predicate AllParts(words: seq<seq<Item>>, parts: seq<seq<Bytes>>) {
    |parts| == |words| && forall k :: 0 <= k < |words| ==> AreParts(words[k], parts[k])
  }

  lemma {:induction false} TextsOfWords(words: seq<seq<Item>>, parts: seq<seq<Bytes>>)
    requires AllParts(words, parts) && forall k :: 0 <= k < |words| ==> LegalWord(words[k])
    ensures Texts(AllPieces(words)) == Joined(parts)
    decreases |words|
  {
    hide AreParts, LegalWord;
    if words != [] {
      TextOfWord(words[0], parts[0]);
      TextsOfWords(words[1..], parts[1..]);
    }
  }

  /** Some word begins with a value that adds nothing. */
  predicate BeginsEmpty(parts: seq<seq<Bytes>>) {
    exists k :: 0 <= k < |parts| && parts[k] != [] && parts[k][0] == []
  }

  lemma {:induction false} AllPiecesAt(words: seq<seq<Item>>)
    ensures |AllPieces(words)| == |words|
    ensures forall k :: 0 <= k < |words| ==> AllPieces(words)[k] == PiecesOf(words[k])
    decreases |words|
  {
    if words != [] {
      AllPiecesAt(words[1..]);
    }
  }

  lemma RefusedExactly(words: seq<seq<Item>>, parts: seq<seq<Bytes>>)
    requires AllParts(words, parts) && forall k :: 0 <= k < |words| ==> LegalWord(words[k])
    ensures Refused(AllPieces(words)) <==> BeginsEmpty(parts)
  {
    AllPiecesAt(words);
    hide PieceOf, IsText;
    forall k | 0 <= k < |words|
      ensures PiecesOf(words[k]) != [] && parts[k] != []
      ensures PiecesOf(words[k])[0] == Value([]) <==> parts[k][0] == []
    {
      assert LegalWord(words[k]) && AreParts(words[k], parts[k]);
      assert IsText(words[k][0], parts[k][0]);
      FirstItem(words[k][0], parts[k][0]);
    }
  }

  lemma FirstItem(x: Item, t: Bytes)
    requires x != Blank && IsText(x, t)
    ensures PieceOf(x) == Value([]) <==> t == []
  {
    TextOfItem(x, t);
  }

  /** Any words of literals and values, with any spaces before, between and behind them: the command is the list of
      the words, each with its values in place, binary values in full and strings up to their first NUL. It is refused
      exactly when a word begins with a value that adds nothing. */
  method FormatItems(words: seq<seq<Item>>, gaps: seq<nat>, last: nat, ghost parts: seq<seq<Bytes>>)
    returns (ok: bool, cmd: Bytes, totlen: nat)
    requires LegalWords(words, gaps) && AllParts(words, parts)
    ensures ok <==> !BeginsEmpty(parts)
    ensures ok ==> cmd == Command(Joined(parts)) && totlen == |cmd|
  {
    hide Command, Words, Refused, Texts, ParseFormat, PiecesOf, LegalWord, AreParts;
    var items := Spread(words, gaps) + Blanks(last);
    SpreadIsLegal(words, gaps);
    NoNulPrinted(items);
    PrintedFormat(items);
    WordsOfSpread(words, gaps, last);
    TextsOfWords(words, parts);
    RefusedExactly(words, parts);
    ok, cmd, totlen := FormatCommand(Print(items), ValuesOf(items));
  }

  /** "%b" alone: the value in full, NULs included; "%s" alone: up to the first NUL. */
  method FormatOneValue(v: Bytes, before: Bytes, after: Bytes) returns (bin: Bytes, str: Bytes)
    requires v != [] && before != [] && 0 !in before
    ensures bin == Command([v]) && str == Command([before])
  {
    hide Command, ParseFormat, Words, Refused;
    var ok, n;
    OneWord([v]);
    OneWord([before]);
    assert IsText(Bin(v), v);
    CutAtNul(before, after);
    ok, bin, n := FormatItems([[Bin(v)]], [0], 0, [[v]]);
    ok, str, n := FormatItems([[Str(before + [0] + after)]], [0], 0, [[before]]);
  }

  /** A percent sign at the end of the format stands for itself. */
  method FormatPercent() returns (cmd: Bytes)
    ensures cmd == Command([[37]])
  {
    hide Command, ParseFormat, Words, Refused, Texts;
    PercentAlone();
    var ok, n;
    ok, cmd, n := FormatCommand([37], []);
  }

  lemma PercentAlone()
    ensures ParseFormat([37], []).Pieces?
    ensures var words := Words(ParseFormat([37], []).list); !Refused(words) && Texts(words) == [[37]]
  {
    var f: Bytes := [37];
    assert f[1..] == [] && ParseFormat([], []) == Pieces([]);
    var ps := [Lit(37)];
    assert ps[..1] == ps && ps[1..] == [];
    assert ParseFormat(f, []) == Pieces(ps);
    assert RunLength(ps[1..]) == 0 && RunLength(ps) == 1;
    assert Words(ps[1..]) == [] && Words(ps) == [ps];
    var words := [ps];
    assert words[1..] == [] && Text(ps[1..]) == [] && Text(ps) == [37] + Text(ps[1..]) == [37];
    assert Texts(words[1..]) == [] && Texts(words) == [[37]] + Texts(words[1..]);
    assert forall k :: 0 <= k < |words| ==> words[k] == ps;
    assert !Refused(words);
  }

  lemma CutAtNul(before: Bytes, after: Bytes)
    requires 0 !in before
    ensures IsText(Str(before + [0] + after), before)
  {
    var v := before + [0] + after;
    assert v[|before|] == 0 && before <= v;
    assert forall k :: 0 <= k < |before| ==> before[k] in before;
  }

  lemma OneWord(part: seq<Bytes>)
    requires |part| == 1
    ensures Joined([part]) == part
  {
    var parts := [part];
    assert parts[1..] == [] && part[1..] == [] && Concat(part) == part[0] + Concat(part[1..]) == part[0];
  }
}
