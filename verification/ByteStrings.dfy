/** Byte strings, their concatenation, and the decimal numerals of the wire formats. */
module ByteStrings {

  type Byte = b: int | 0 <= b < 256
  type Bytes = seq<Byte>

  datatype Option<+T> = None | Some(value: T)

  const NUL: Byte := 0
  const TAB: Byte := 9
  const LF: Byte := 10
  const CR: Byte := 13
  const SPACE: Byte := 32
  const QUOTE: Byte := 34
  const DOLLAR: Byte := 36
  const APOSTROPHE: Byte := 39
  const STAR: Byte := 42
  const PLUS: Byte := 43
  const MINUS: Byte := 45
  const ZERO: Byte := 48
  const COLON: Byte := 58
  const BACKSLASH: Byte := 92
  const CRLF: Bytes := [CR, LF]

  lemma Assoc<T>(a: seq<T>, b: seq<T>, c: seq<T>)
    ensures a + b + c == a + (b + c)
  {
  }

  function Concat<T>(parts: seq<seq<T>>): seq<T> {
    if parts == [] then [] else parts[0] + Concat(parts[1..])
  }

  lemma {:induction false} ConcatAppend<T>(a: seq<seq<T>>, b: seq<seq<T>>)
    ensures Concat(a + b) == Concat(a) + Concat(b)
  {
    if a == [] {
      assert a + b == b;
    } else {
      assert (a + b)[1..] == a[1..] + b;
      ConcatAppend(a[1..], b);
    }
  }

  lemma ConcatSnoc<T>(a: seq<seq<T>>, x: seq<T>)
    ensures Concat(a + [x]) == Concat(a) + x
  {
    ConcatAppend(a, [x]);
    assert Concat([x]) == x + Concat([]);
  }

  /** memchr: the first position of b, or -1. */
  function IndexOf(s: Bytes, b: Byte): (i: int)
    ensures -1 <= i < |s|
    ensures i >= 0 ==> s[i] == b && forall k :: 0 <= k < i ==> s[k] != b
    ensures i < 0 ==> forall k :: 0 <= k < |s| ==> s[k] != b
  {
    if s == [] then -1
    else if s[0] == b then 0
    else var r := IndexOf(s[1..], b);
      assert forall k :: 1 <= k < |s| ==> s[k] == s[1..][k - 1];
      if r < 0 then -1 else r + 1
  }

  lemma IndexOfUnique(s: Bytes, b: Byte, i: nat)
    requires i < |s| && s[i] == b && forall k :: 0 <= k < i ==> s[k] != b
    ensures IndexOf(s, b) == i
  {
    var j := IndexOf(s, b);
    assert j >= 0;
    if j < i {} else if i < j {}
  }

  /** Bytes that arrive later do not move the first separator. */
  lemma IndexOfExtend(s: Bytes, t: Bytes, b: Byte)
    requires IndexOf(s, b) >= 0
    ensures IndexOf(s + t, b) == IndexOf(s, b)
  {
    var i := IndexOf(s, b);
    assert forall k :: 0 <= k < |s| ==> (s + t)[k] == s[k];
    IndexOfUnique(s + t, b, i);
  }

  // ----- decimal numerals

  predicate IsDigit(b: Byte) { ZERO <= b <= ZERO + 9 }

  /** std::to_string of an unsigned number. */
  function Decimal(n: nat): Bytes {
    if n < 10 then [ZERO + n] else Decimal(n / 10) + [ZERO + n % 10]
  }

  predicate AllDigits(s: Bytes) { forall k :: 0 <= k < |s| ==> IsDigit(s[k]) }

  function DigitsValue(s: Bytes): nat
    requires AllDigits(s)
  {
    if s == [] then 0 else 10 * DigitsValue(s[..|s| - 1]) + (s[|s| - 1] - ZERO)
  }

  /** slash::string2l: a strict decimal numeral (no blanks, no plus, no leading zero). */
  function ParseLong(s: Bytes): Option<int> {
    if s == [ZERO] then Some(0)
    else if s == [] then None
    else if s[0] == MINUS then
      if ParseDigits(s[1..]).Some? then Some(-ParseDigits(s[1..]).value) else None
    else ParseDigits(s)
  }

  function ParseDigits(s: Bytes): Option<int> {
    if s != [] && s[0] != ZERO && AllDigits(s) then Some(DigitsValue(s)) else None
  }

  lemma {:induction false} DecimalDigits(n: nat)
    ensures Decimal(n) != [] && AllDigits(Decimal(n)) && DigitsValue(Decimal(n)) == n
    ensures n > 0 ==> Decimal(n)[0] != ZERO
  {
    if n >= 10 {
      DecimalDigits(n / 10);
      assert Decimal(n)[..|Decimal(n)| - 1] == Decimal(n / 10);
    } else {
      assert Decimal(n)[..0] == [];
    }
  }

  /** The strict reader inverts the printer. */
  lemma ParseLongDecimal(n: nat)
    ensures ParseLong(Decimal(n)) == Some(n)
  {
    DecimalDigits(n);
  }

  lemma ParseLongNegative(n: nat)
    requires n > 0
    ensures ParseLong([MINUS] + Decimal(n)) == Some(0 - n)
  {
    DecimalDigits(n);
    assert ([MINUS] + Decimal(n))[1..] == Decimal(n);
  }

  // ----- lower case, ASCII

  function ToLower(b: Byte): Byte { if 65 <= b <= 90 then b + 32 else b }

  function Lower(s: Bytes): Bytes { seq(|s|, i requires 0 <= i < |s| => ToLower(s[i])) }

  /** c is b in lower case: the upper-case letters are 65 to 90, the lower-case ones 32 above. */
  predicate LowerByte(b: Byte, c: Byte) { if 65 <= b <= 90 then c == b + 32 else c == b }

  /** t is s in lower case. */
  predicate LowerCased(s: Bytes, t: Bytes) { |s| == |t| && forall k :: 0 <= k < |s| ==> LowerByte(s[k], t[k]) }

  /** The same up to the case of ASCII letters. */
  predicate SameButCase(s: Bytes, t: Bytes) {
    && |s| == |t|
    && forall k :: 0 <= k < |s| ==>
         s[k] == t[k] || (65 <= s[k] <= 90 && t[k] == s[k] + 32) || (65 <= t[k] <= 90 && s[k] == t[k] + 32)
  }

  predicate NoUpperCase(s: Bytes) { forall k :: 0 <= k < |s| ==> !(65 <= s[k] <= 90) }

  lemma LowerIsLowerCased(s: Bytes)
    ensures LowerCased(s, Lower(s)) && NoUpperCase(Lower(s))
    ensures forall t :: LowerCased(s, t) ==> t == Lower(s)
  {
    assert forall k :: 0 <= k < |s| ==> Lower(s)[k] == ToLower(s[k]);
  }

  /** A name without upper-case letters is what exactly the strings equal to it up to case become. */
  lemma LowerNamed(s: Bytes, name: Bytes)
    requires NoUpperCase(name)
    ensures Lower(s) == name <==> SameButCase(s, name)
  {
    LowerIsLowerCased(s);
    if SameButCase(s, name) {
      assert LowerCased(s, name);
    }
    if Lower(s) == name {
      assert LowerCased(s, name);
    }
  }

  // ----- exactly which strings are numbers

  lemma {:induction false} DecimalOfDigits(s: Bytes)
    requires AllDigits(s) && s != [] && (s[0] != ZERO || |s| == 1)
    ensures Decimal(DigitsValue(s)) == s
    decreases |s|
  {
    hide Decimal, DigitsValue;
    var front, last := s[..|s| - 1], s[|s| - 1];
    assert s == front + [last];
    LastDigit(s);
    if front == [] {
      OneDigit(last - ZERO);
    } else {
      assert front[0] == s[0];
      DecimalOfDigits(front);
      LeadingDigitPositive(front);
      OneMoreDigit(DigitsValue(front), last - ZERO);
    }
  }

  lemma LastDigit(s: Bytes)
    requires AllDigits(s) && s != []
    ensures DigitsValue(s) == 10 * DigitsValue(s[..|s| - 1]) + (s[|s| - 1] - ZERO) && DigitsValue([]) == 0
  {
  }

  lemma OneDigit(d: nat)
    requires d < 10
    ensures Decimal(d) == [ZERO + d]
  {
  }

  lemma OneMoreDigit(q: nat, d: nat)
    requires q > 0 && d < 10
    ensures Decimal(10 * q + d) == Decimal(q) + [ZERO + d]
  {
    assert (10 * q + d) / 10 == q && (10 * q + d) % 10 == d;
  }

  lemma {:induction false} LeadingDigitPositive(s: Bytes)
    requires AllDigits(s) && s != [] && s[0] != ZERO
    ensures DigitsValue(s) > 0
    decreases |s|
  {
    if |s| > 1 {
      assert s[..|s| - 1][0] == s[0];
      LeadingDigitPositive(s[..|s| - 1]);
    } else {
      assert s[..0] == [];
    }
  }

  /** The strict reader accepts exactly what the printer prints, with a minus sign before negative numbers. */
  lemma ParseLongExactly(s: Bytes, n: int)
    ensures ParseLong(s) == Some(n) <==> s == if n < 0 then [MINUS] + Decimal(0 - n) else Decimal(n)
  {
    if n < 0 {
      ParseLongNegative(0 - n);
    } else {
      ParseLongDecimal(n);
    }
    if ParseLong(s) == Some(n) {
      if s == [ZERO] {
        assert Decimal(0) == [ZERO];
      } else if s[0] == MINUS {
        DecimalOfDigits(s[1..]);
        LeadingDigitPositive(s[1..]);
        assert s == [MINUS] + s[1..];
      } else {
        DecimalOfDigits(s);
      }
    }
  }

  /** A numeral by its digits: the last is the remainder, the others are the numeral of the quotient. */
  lemma DecimalExample()
    ensures Decimal(0) == [48] && Decimal(120) == [49, 50, 48]
  {
    hide Decimal;
    OneDigit(0);
    OneDigit(1);
    OneMoreDigit(1, 2);
    OneMoreDigit(12, 0);
  }
}
