/** The framing of protobuf messages: a big-endian length tag, then the body. */
module PbFraming {
  import opened ByteStrings

  const HEADER_LEN: nat := 4
  const MAX_MESSAGE: nat := 0x2000_0000
  const TWO_32: nat := 0x1_0000_0000

  /** The number whose base-256 digits these four bytes are, the most significant first. */
  function BigEndian(t: Bytes): nat
    requires |t| == 4
  {
    ((t[0] as int * 256 + t[1]) * 256 + t[2]) * 256 + t[3]
  }

  /** htonl: the four bytes of a uint32. */
  function Tag(n: nat): (t: Bytes)
    requires n < TWO_32
    ensures |t| == HEADER_LEN && BigEndian(t) == n
  {
    var n1 := n / 256;
    var n2 := n1 / 256;
    [n2 / 256, n2 % 256, n1 % 256, n % 256]
  }

  /** ntohl: the uint32 of four bytes. */
  function Untag(t: Bytes): (n: nat)
    requires |t| == HEADER_LEN
    ensures n < TWO_32 && n == BigEndian(t)
  {
    var a: int := t[0]; var b: int := t[1]; var c: int := t[2]; var d: int := t[3];
    0x100_0000 * a + 0x1_0000 * b + 0x100 * c + d
  }

  lemma DivMod(q: int, r: int)
    requires 0 <= r < 256
    ensures (256 * q + r) / 256 == q && (256 * q + r) % 256 == r
  {
  }

  lemma TagRoundTrip(n: nat)
    requires n < TWO_32
    ensures Untag(Tag(n)) == n
  {
  }

  lemma UntagRoundTrip(t: Bytes)
    requires |t| == HEADER_LEN
    ensures Tag(Untag(t)) == t
  {
    var a: int, b: int, c: int, d: int := t[0], t[1], t[2], t[3];
    DivMod(0x1_0000 * a + 0x100 * b + c, d);
    DivMod(0x100 * a + b, c);
    DivMod(a, b);
  }

  /** BuildInternalTag truncates the size to 32 bits. */
  function Frame(body: Bytes): Bytes { Tag(|body| % TWO_32) + body }

  function Frames(bodies: seq<Bytes>): Bytes {
    if bodies == [] then [] else Frame(bodies[0]) + Frames(bodies[1..])
  }

  lemma {:induction false} FramesSnoc(bodies: seq<Bytes>, body: Bytes)
    ensures Frames(bodies + [body]) == Frames(bodies) + Frame(body)
  {
    if bodies == [] {
      assert bodies + [body] == [body] && Frames([body]) == Frame(body) + Frames([]);
    } else {
      assert (bodies + [body])[1..] == bodies[1..] + [body];
      FramesSnoc(bodies[1..], body);
    }
  }

  /** s is these bodies in their frames: each behind four bytes that give its length modulo 2^32, big-endian. */
  predicate Framed(s: Bytes, bodies: seq<Bytes>)
    decreases |bodies|
  {
    if bodies == [] then s == []
    else
      var n := |bodies[0]|;
      && |s| >= 4 + n
      && ((s[0] as int * 256 + s[1]) * 256 + s[2]) * 256 + s[3] == n % 0x1_0000_0000
      && s[4..4 + n] == bodies[0]
      && Framed(s[4 + n..], bodies[1..])
  }

  /** There is one such string for each list of bodies. */
  lemma {:induction false} FramedExactly(s: Bytes, bodies: seq<Bytes>)
    ensures Framed(s, bodies) <==> s == Frames(bodies)
    decreases |bodies|
  {
    hide Tag, BigEndian;
    if bodies != [] {
      var n, rest := |bodies[0]|, Frames(bodies[1..]);
      var f := Tag(n % TWO_32) + bodies[0] + rest;
      assert Frames(bodies) == f;
      assert f[..4] == Tag(n % TWO_32) && f[4..4 + n] == bodies[0] && f[4 + n..] == rest;
      FirstFour(f);
      FramedExactly(rest, bodies[1..]);
      if Framed(s, bodies) {
        FirstFour(s);
        FramedExactly(s[4 + n..], bodies[1..]);
        SameTag(s[..4], n % TWO_32);
        assert s == s[..4] + s[4..4 + n] + s[4 + n..];
      }
    }
  }

  lemma FirstFour(s: Bytes)
    requires |s| >= 4
    ensures BigEndian(s[..4]) == ((s[0] as int * 256 + s[1]) * 256 + s[2]) * 256 + s[3]
  {
  }

  lemma SameTag(t: Bytes, n: nat)
    requires |t| == 4 && n < TWO_32 && BigEndian(t) == n
    ensures t == Tag(n)
  {
    hide Tag, BigEndian;
    assert Untag(t) == n;
    UntagRoundTrip(t);
  }

  /** The bodies the receiver accepts. */
  predicate Legal(bodies: seq<Bytes>) {
    forall k :: 0 <= k < |bodies| ==> 1 <= |bodies[k]| < MAX_MESSAGE - HEADER_LEN
  }

  /** Bodies, empty ones included, whose frames fit the largest buffer. */
  predicate Small(bodies: seq<Bytes>) {
    forall k :: 0 <= k < |bodies| ==> |bodies[k]| < MAX_MESSAGE - HEADER_LEN
  }

  /** The bodies before the first empty one. */
  function BeforeEmpty(bodies: seq<Bytes>): (r: seq<Bytes>)
    ensures r <= bodies && [] !in r && (r == bodies <==> [] !in bodies)
    ensures |r| < |bodies| ==> bodies[|r|] == []
  {
    if bodies == [] || bodies[0] == [] then [] else [bodies[0]] + BeforeEmpty(bodies[1..])
  }

  /** Received bytes that do not yet make up a whole frame. */
  predicate Incomplete(pending: Bytes) {
    |pending| <= HEADER_LEN || |pending| < HEADER_LEN + Untag(pending[..HEADER_LEN])
  }

  lemma FrameParts(body: Bytes, x: Bytes)
    requires |body| < TWO_32
    ensures var s := Frame(body) + x;
            |s| == HEADER_LEN + |body| + |x| && Untag(s[..HEADER_LEN]) == |body|
            && s[HEADER_LEN..HEADER_LEN + |body|] == body && s[HEADER_LEN + |body|..] == x
  {
    TagRoundTrip(|body|);
    hide Tag, Untag;
    assert (Frame(body) + x)[..HEADER_LEN] == Tag(|body|);
  }

  /** Frames are uniquely decodable: if the frames of a, followed by an incomplete rest, begin the
      frames of b, then a begins b; and if nothing of b is missing, a is b. */
  lemma {:induction false} UniqueDecoding(a: seq<Bytes>, pending: Bytes, b: seq<Bytes>)
    requires Legal(a) && Legal(b) && Incomplete(pending)
    requires Frames(a) + pending <= Frames(b)
    ensures a <= b && (Frames(a) + pending == Frames(b) ==> a == b && pending == [])
    decreases |a|
  {
    hide Tag, Untag, Frame;
    if a == [] {
      assert Frames(a) + pending == pending;
      if b != [] && pending == Frames(b) {
        FrameParts(b[0], Frames(b[1..]));
      }
    } else {
      var x, y := Frames(a[1..]) + pending, Frames(b);
      assert Frames(a) + pending == Frame(a[0]) + x;
      FrameParts(a[0], x);
      assert b != [];
      FrameParts(b[0], Frames(b[1..]));
      PrefixParts(Frame(a[0]) + x, y, HEADER_LEN, HEADER_LEN + |a[0]|);
      UniqueDecoding(a[1..], pending, b[1..]);
      assert a == [a[0]] + a[1..] && b == [b[0]] + b[1..];
    }
  }

  /** The header of the frame in progress is that of the next body sent. */
  lemma {:induction false} PendingHeader(a: seq<Bytes>, pending: Bytes, b: seq<Bytes>)
    requires Legal(a) && Small(b) && HEADER_LEN <= |pending|
    requires Frames(a) + pending <= Frames(b)
    ensures |a| < |b| && Untag(pending[..HEADER_LEN]) == |b[|a|]|
    decreases |a|
  {
    hide Tag, Untag, Frame;
    if a == [] {
      assert Frames(a) + pending == pending;
      FrameParts(b[0], Frames(b[1..]));
      assert Frames(b)[..HEADER_LEN] == pending[..HEADER_LEN];
    } else {
      var x := Frames(a[1..]) + pending;
      assert Frames(a) + pending == Frame(a[0]) + x;
      FrameParts(a[0], x);
      FrameParts(b[0], Frames(b[1..]));
      PrefixParts(Frame(a[0]) + x, Frames(b), HEADER_LEN, HEADER_LEN + |a[0]|);
      PendingHeader(a[1..], pending, b[1..]);
    }
  }

  /** The frames of non-empty bodies that begin the frames of b, empty bodies included, are those of the first
      bodies of b. */
  lemma {:induction false} DecodingPrefix(a: seq<Bytes>, pending: Bytes, b: seq<Bytes>)
    requires Legal(a) && Small(b) && Frames(a) + pending <= Frames(b)
    ensures a <= b
    decreases |a|
  {
    hide Tag, Untag, Frame;
    if a != [] {
      var x, y := Frames(a[1..]) + pending, Frames(b);
      assert Frames(a) + pending == Frame(a[0]) + x;
      FrameParts(a[0], x);
      assert b != [];
      FrameParts(b[0], Frames(b[1..]));
      PrefixParts(Frame(a[0]) + x, y, HEADER_LEN, HEADER_LEN + |a[0]|);
      DecodingPrefix(a[1..], pending, b[1..]);
      assert a == [a[0]] + a[1..] && b == [b[0]] + b[1..];
    }
  }

  lemma {:induction false} FramesLonger(bodies: seq<Bytes>, k: nat)
    requires Small(bodies) && k < |bodies|
    ensures |Frames(bodies)| >= |Frames(bodies[..k])| + HEADER_LEN + |bodies[k]|
    decreases k
  {
    hide Tag;
    if k == 0 {
      assert bodies[..0] == [] && |Frame(bodies[0])| == HEADER_LEN + |bodies[0]|;
    } else {
      assert bodies[..k][0] == bodies[0] && bodies[..k][1..] == bodies[1..][..k - 1];
      assert Frames(bodies[..k]) == Frame(bodies[0]) + Frames(bodies[1..][..k - 1]);
      FramesLonger(bodies[1..], k - 1);
    }
  }

  lemma {:induction false} FullPrefix(a: seq<Bytes>, b: seq<Bytes>)
    requires Legal(a) && a <= b
    ensures a <= BeforeEmpty(b)
    decreases |a|
  {
    if a != [] {
      assert a[0] == b[0] && a[1..] <= b[1..];
      FullPrefix(a[1..], b[1..]);
    }
  }

  /** What was decoded lies before the first empty body, and is all of that once its bytes are there. */
  lemma DecodedBeforeEmpty(a: seq<Bytes>, pending: Bytes, b: seq<Bytes>)
    requires Legal(a) && Small(b) && Incomplete(pending) && Frames(a) + pending <= Frames(b)
    ensures a <= BeforeEmpty(b)
    ensures |a| < |BeforeEmpty(b)| ==> |Frames(a) + pending| < |Frames(BeforeEmpty(b))|
  {
    hide Tag, Untag, Frames, Frame;
    DecodingPrefix(a, pending, b);
    var first := BeforeEmpty(b);
    FullPrefix(a, b);
    if |a| < |first| {
      var k := |a|;
      assert first[..k] == a && first[k] == b[k] && first[k] in first;
      assert Small(first);
      FramesLonger(first, k);
      if HEADER_LEN <= |pending| {
        PendingHeader(a, pending, b);
      }
    }
  }

  /** Prefixes agree on every common slice. */
  lemma PrefixParts(s: Bytes, t: Bytes, i: nat, j: nat)
    requires s <= t && i <= j <= |s|
    ensures s[..i] == t[..i] && s[i..j] == t[i..j] && s[j..] <= t[j..]
    ensures s == t <==> s[j..] == t[j..]
  {
    assert s == s[..j] + s[j..] && t == t[..j] + t[j..];
  }
}
