/** `strtoul` with base 16, as the chunked reader uses it, and the texts it reads a number from. */
module Strtoul {
  import opened Common
  import U = UrlCodec

  type Bytes = seq<byte>

  const ULONG_MAX: u64 := 0xFFFF_FFFF_FFFF_FFFF

  predicate IsHex(c: byte) { U.HexValue(c).Some? }

  predicate AllHex(ds: Bytes) { forall d :: d in ds ==> IsHex(d) }

  function HexNumber(ds: Bytes): nat
    requires AllHex(ds)
  {
    if ds == [] then 0
    else
      var d := ds[|ds| - 1];
      assert IsHex(d);
      HexNumber(ds[..|ds| - 1]) * 16 + U.HexValue(d).value
  }

  predicate IsSpace(c: byte) { c == 32 || 9 <= c <= 13 }

  function SpaceCount(s: Bytes): (n: nat)
    ensures n <= |s|
  {
    if s != [] && IsSpace(s[0]) then 1 + SpaceCount(s[1..]) else 0
  }

  function DigitCount(s: Bytes): (n: nat)
    ensures n <= |s| && AllHex(s[..n])
  {
    if s != [] && IsHex(s[0]) then
      var n := 1 + DigitCount(s[1..]);
      assert s[..n] == [s[0]] + s[1..][..n - 1];
      n
    else 0
  }

  /** The value, and how much of the text it is made of; 0 if it has none. */
  datatype Number = Number(value: nat, used: nat)

  predicate IsSign(c: byte) { c == 43 || c == 45 }

  /** `0x` and a digit stand at a place. */
  predicate Has0x(s: Bytes, j: nat) {
    j + 2 < |s| && s[j] == 48 && (s[j + 1] == 120 || s[j + 1] == 88) && IsHex(s[j + 2])
  }

  /** What is returned for a number: too large ones are the maximum, negative ones wrap. */
  function Returned(v: nat, negative: bool): u64 {
    if v > ULONG_MAX then ULONG_MAX else if negative && v > 0 then ULONG_MAX - v + 1 else v
  }

  function Strtoul16(s: Bytes): (r: Number)
    ensures r.value <= ULONG_MAX
  {
    var i := SpaceCount(s);
    var signed := i < |s| && (s[i] == 43 || s[i] == 45);
    var j := if signed then i + 1 else i;
    var prefixed := j + 2 < |s| && s[j] == 48 && (s[j + 1] == 120 || s[j + 1] == 88) && IsHex(s[j + 2]);
    var k := if prefixed then j + 2 else j;
    var n := DigitCount(s[k..]);
    var v := HexNumber(s[k..][..n]);
    if n == 0 then Number(0, 0)
    else if v > ULONG_MAX then Number(ULONG_MAX, k + n)
    else if signed && s[i] == 45 && v > 0 then Number(ULONG_MAX - v + 1, k + n)
    else Number(v, k + n)
  }

  // ----- the texts of numbers -----------------------------------------------------------------

  /** White space, a sign, `0x` and digits, of which only the digits must be there, and what follows. */
  datatype Numeral = Numeral(blanks: Bytes, sign: Bytes, prefix: Bytes, digits: Bytes, tail: Bytes)

  predicate GoodNumeral(x: Numeral) {
    && (forall b :: b in x.blanks ==> b in {9, 10, 11, 12, 13, 32})
    && (x.sign == [] || x.sign == [43] || x.sign == [45])
    && GoodDigits(x.prefix, x.digits, x.tail)
  }

  /** No digit follows the digits, and a zero among them is not the beginning of `0x`. */
  predicate GoodDigits(prefix: Bytes, digits: Bytes, tail: Bytes) {
    && (prefix == [] || prefix == [48, 120] || prefix == [48, 88])
    && digits != [] && AllHex(digits)
    && (tail == [] || !IsHex(tail[0]))
    && (prefix == [] && |digits| == 1 ==> !Has0x(digits + tail, 0))
  }

  function Flat(x: Numeral): Bytes { x.blanks + (x.sign + (x.prefix + (x.digits + x.tail))) }

  function ValueOf(x: Numeral): u64
    requires GoodNumeral(x)
  {
    Returned(HexNumber(x.digits), x.sign == [45])
  }

  // ----- from the parts to the value ----------------------------------------------------------

  lemma {:induction false} CountSpaces(blanks: Bytes, rest: Bytes)
    requires (forall b :: b in blanks ==> IsSpace(b)) && (rest == [] || !IsSpace(rest[0]))
    ensures SpaceCount(blanks + rest) == |blanks|
  {
    if blanks == [] {
      assert blanks + rest == rest;
    } else {
      assert (blanks + rest)[1..] == blanks[1..] + rest;
      CountSpaces(blanks[1..], rest);
    }
  }

  lemma {:induction false} CountDigits(ds: Bytes, rest: Bytes)
    requires AllHex(ds) && (rest == [] || !IsHex(rest[0]))
    ensures DigitCount(ds + rest) == |ds|
  {
    if ds == [] {
      assert ds + rest == rest;
    } else {
      assert (ds + rest)[1..] == ds[1..] + rest;
      CountDigits(ds[1..], rest);
    }
  }

  lemma CutAt(p: Bytes, rest: Bytes)
    ensures (p + rest)[..|p|] == p && (p + rest)[|p|..] == rest
  {
  }

  lemma PrefixIsSeen(prefix: Bytes, digits: Bytes, tail: Bytes)
    requires GoodDigits(prefix, digits, tail)
    ensures Has0x(prefix + (digits + tail), 0) <==> prefix != []
  {
    var u := digits + tail;
    if prefix == [] {
      assert prefix + u == u;
      assert |digits| > 1 ==> u[1] == digits[1] && IsHex(digits[1]);
    } else {
      assert (prefix + u)[2] == digits[0] && IsHex(digits[0]);
    }
  }

  lemma Has0xBehind(p: Bytes, r: Bytes, j: nat)
    ensures Has0x(p + r, |p| + j) <==> Has0x(r, j)
  {
  }

  lemma DropBehind(p: Bytes, r: Bytes, j: nat)
    requires j <= |r|
    ensures (p + r)[|p| + j..] == r[j..]
  {
  }

  lemma FirstOfDigits(prefix: Bytes, digits: Bytes, tail: Bytes)
    requires GoodDigits(prefix, digits, tail)
    ensures var m := prefix + (digits + tail); m != [] && IsHex(m[0])
  {
    assert digits[0] in digits;
  }

  /** Where the digits are. */
  lemma DigitsAreBehind(sign: Bytes, prefix: Bytes, digits: Bytes, tail: Bytes)
    requires GoodDigits(prefix, digits, tail)
    ensures var t := sign + (prefix + (digits + tail));
      && (Has0x(t, |sign|) <==> prefix != [])
      && t[|sign| + |prefix|..] == digits + tail
  {
    PrefixIsSeen(prefix, digits, tail);
    Has0xBehind(sign, prefix + (digits + tail), 0);
    CutAt(prefix, digits + tail);
    DropBehind(sign, prefix + (digits + tail), |prefix|);
  }

  lemma SignIsSeen(sign: Bytes, m: Bytes)
    requires sign == [] || (|sign| == 1 && IsSign(sign[0]))
    requires m != [] && IsHex(m[0])
    ensures var t := sign + m;
      && t != [] && !IsSpace(t[0])
      && (IsSign(t[0]) <==> sign != [])
      && (t[0] == 45 <==> sign == [45])
  {
    if sign == [] {
      assert sign + m == m;
    }
  }

  /** The number behind white space. */
  lemma ReadBehind(blanks: Bytes, t: Bytes, j: nat, k: nat, n: nat)
    requires forall b :: b in blanks ==> IsSpace(b)
    requires t != [] && !IsSpace(t[0])
    requires j == (if IsSign(t[0]) then 1 else 0) && k == (if Has0x(t, j) then j + 2 else j)
    requires n > 0 && n == DigitCount(t[k..])
    ensures Strtoul16(blanks + t) == Number(Returned(HexNumber(t[k..][..n]), t[0] == 45), |blanks| + k + n)
  {
    var s := blanks + t;
    CountSpaces(blanks, t);
    assert s[|blanks|] == t[0];
    Has0xBehind(blanks, t, j);
    DropBehind(blanks, t, k);
    assert s[|blanks| + k..] == t[k..];
  }

  /** Such a text is read as the number it is. */
  lemma NumeralIs(x: Numeral)
    requires GoodNumeral(x)
    ensures Strtoul16(Flat(x)) == Number(ValueOf(x), |x.blanks| + (|x.sign| + |x.prefix|) + |x.digits|)
  {
    var m := x.prefix + (x.digits + x.tail);
    FirstOfDigits(x.prefix, x.digits, x.tail);
    SignIsSeen(x.sign, m);
    DigitsAreBehind(x.sign, x.prefix, x.digits, x.tail);
    CountDigits(x.digits, x.tail);
    CutAt(x.digits, x.tail);
    ReadBehind(x.blanks, x.sign + m, |x.sign|, |x.sign| + |x.prefix|, |x.digits|);
  }

  lemma BareNumeral(digits: Bytes, tail: Bytes)
    ensures Flat(Numeral([], [], [], digits, tail)) == digits + tail
  {
    var s := digits + tail;
    assert [] + s == s;
  }

  lemma NoPrefix(digits: Bytes, end: Bytes)
    requires end != [] && end[0] != 120 && end[0] != 88
    ensures |digits| == 1 ==> !Has0x(digits + end, 0)
  {
    if |digits| == 1 {
      assert (digits + end)[1] == end[0];
    }
  }

  lemma PlainNumeral(digits: Bytes, end: Bytes)
    requires digits != [] && AllHex(digits)
    requires end != [] && !IsHex(end[0]) && end[0] != 120 && end[0] != 88
    ensures var x := Numeral([], [], [], digits, end);
      GoodNumeral(x) && Flat(x) == digits + end
  {
    BareNumeral(digits, end);
    NoPrefix(digits, end);
  }

  /** Digits alone, and what they are read as. */
  lemma PlainIs(digits: Bytes, tail: Bytes)
    requires digits != [] && AllHex(digits)
    requires tail != [] && !IsHex(tail[0]) && tail[0] != 120 && tail[0] != 88
    ensures Strtoul16(digits + tail) == Number(Returned(HexNumber(digits), false), |digits|)
  {
    PlainNumeral(digits, tail);
    NumeralIs(Numeral([], [], [], digits, tail));
  }

  // ----- from the value to the parts ----------------------------------------------------------

  lemma {:induction false} SpacesAre(s: Bytes)
    ensures forall b :: b in s[..SpaceCount(s)] ==> IsSpace(b)
    ensures SpaceCount(s) < |s| ==> !IsSpace(s[SpaceCount(s)])
  {
    if s != [] && IsSpace(s[0]) {
      SpacesAre(s[1..]);
      var n := SpaceCount(s);
      assert s[..n] == [s[0]] + s[1..][..n - 1];
    }
  }

  lemma {:induction false} DigitsEnd(s: Bytes)
    ensures DigitCount(s) < |s| ==> !IsHex(s[DigitCount(s)])
  {
    if s != [] && IsHex(s[0]) {
      DigitsEnd(s[1..]);
    }
  }

  lemma FourCuts(s: Bytes, i: nat, j: nat, k: nat, m: nat)
    requires i <= j <= k <= m <= |s|
    ensures s == s[..i] + (s[i..j] + (s[j..k] + (s[k..m] + s[m..])))
  {
    assert s[k..] == s[k..m] + s[m..];
    assert s[j..] == s[j..k] + s[k..];
    assert s[i..] == s[i..j] + s[j..];
    assert s == s[..i] + s[i..];
  }

  lemma DigitsAt(s: Bytes, j: nat, k: nat, m: nat)
    requires j <= |s| && k == (if Has0x(s, j) then j + 2 else j)
    requires k < m == k + DigitCount(s[k..])
    ensures m <= |s| && GoodDigits(s[j..k], s[k..m], s[m..])
  {
    DigitsEnd(s[k..]);
    assert s[k..][..m - k] == s[k..m];
    assert m < |s| ==> s[k..][m - k] == s[m..][0];
    assert s[k..m] + s[m..] == s[k..];
    if k == j {
      SameAt(s, j);
    } else {
      assert s[j..k] == [s[j], s[j + 1]];
    }
  }

  lemma SameAt(s: Bytes, j: nat)
    requires j <= |s|
    ensures Has0x(s[j..], 0) <==> Has0x(s, j)
  {
  }

  /** A text that a number is read from is made of these parts. */
  lemma PartsOf(s: Bytes) returns (x: Numeral)
    requires Strtoul16(s).used > 0
    ensures GoodNumeral(x) && Flat(x) == s
  {
    var i := SpaceCount(s);
    var j := if i < |s| && IsSign(s[i]) then i + 1 else i;
    var k := if Has0x(s, j) then j + 2 else j;
    x := PartsAt(s, i, j, k, k + DigitCount(s[k..]));
  }

  lemma SignAt(s: Bytes, i: nat, j: nat)
    requires i <= |s| && j == (if i < |s| && IsSign(s[i]) then i + 1 else i)
    ensures s[i..j] == [] || s[i..j] == [43] || s[i..j] == [45]
  {
    assert j > i ==> s[i..j] == [s[i]];
  }

  lemma PartsAt(s: Bytes, i: nat, j: nat, k: nat, m: nat) returns (x: Numeral)
    requires i == SpaceCount(s) && j == (if i < |s| && IsSign(s[i]) then i + 1 else i)
    requires k == (if Has0x(s, j) then j + 2 else j) && k < m == k + DigitCount(s[k..])
    ensures GoodNumeral(x) && Flat(x) == s
  {
    SpacesAre(s);
    SignAt(s, i, j);
    DigitsAt(s, j, k, m);
    FourCuts(s, i, j, k, m);
    x := Numeral(s[..i], s[i..j], s[j..k], s[k..m], s[m..]);
  }

  lemma SameDigits(prefix: Bytes, digits: Bytes, tail: Bytes, prefix': Bytes, digits': Bytes, tail': Bytes)
    requires GoodDigits(prefix, digits, tail) && GoodDigits(prefix', digits', tail')
    requires prefix + (digits + tail) == prefix' + (digits' + tail')
    ensures prefix == prefix' && digits == digits' && tail == tail'
  {
    PrefixIsSeen(prefix, digits, tail);
    PrefixIsSeen(prefix', digits', tail');
    CutAt(prefix, digits + tail);
    CutAt(prefix', digits' + tail');
    CountDigits(digits, tail);
    CountDigits(digits', tail');
    CutAt(digits, tail);
    CutAt(digits', tail');
  }

  lemma SameSign(sign: Bytes, m: Bytes, sign': Bytes, m': Bytes)
    requires (sign == [] || (|sign| == 1 && IsSign(sign[0]))) && m != [] && IsHex(m[0])
    requires (sign' == [] || (|sign'| == 1 && IsSign(sign'[0]))) && m' != [] && IsHex(m'[0])
    requires sign + m == sign' + m'
    ensures sign == sign' && m == m'
  {
    assert (sign + m)[0] == if sign == [] then m[0] else sign[0];
    assert (sign' + m')[0] == if sign' == [] then m'[0] else sign'[0];
    CutAt(sign, m);
    CutAt(sign', m');
  }

  lemma SameBlanks(blanks: Bytes, t: Bytes, blanks': Bytes, t': Bytes)
    requires (forall b :: b in blanks ==> IsSpace(b)) && t != [] && !IsSpace(t[0])
    requires (forall b :: b in blanks' ==> IsSpace(b)) && t' != [] && !IsSpace(t'[0])
    requires blanks + t == blanks' + t'
    ensures blanks == blanks' && t == t'
  {
    CountSpaces(blanks, t);
    CountSpaces(blanks', t');
    CutAt(blanks, t);
    CutAt(blanks', t');
  }

  /** A text is a number in one way only. */
  lemma SameNumeral(x: Numeral, y: Numeral)
    requires GoodNumeral(x) && GoodNumeral(y) && Flat(x) == Flat(y)
    ensures x == y
  {
    var m, m' := x.prefix + (x.digits + x.tail), y.prefix + (y.digits + y.tail);
    FirstOfDigits(x.prefix, x.digits, x.tail);
    FirstOfDigits(y.prefix, y.digits, y.tail);
    SignIsSeen(x.sign, m);
    SignIsSeen(y.sign, m');
    SameBlanks(x.blanks, x.sign + m, y.blanks, y.sign + m');
    SameSign(x.sign, m, y.sign, m');
    SameDigits(x.prefix, x.digits, x.tail, y.prefix, y.digits, y.tail);
  }

  /** Exactly when a text has these parts a number is read from it, and exactly their value. */
  lemma ReadsNumberIff(s: Bytes, v: nat)
    ensures Strtoul16(s).used > 0 && Strtoul16(s).value == v
       <==> exists x :: GoodNumeral(x) && Flat(x) == s && ValueOf(x) == v
  {
    if Strtoul16(s).used > 0 {
      var x := PartsOf(s);
      NumeralIs(x);
    }
    forall x | GoodNumeral(x) && Flat(x) == s
      ensures Strtoul16(s).used > 0 && Strtoul16(s).value == ValueOf(x)
    {
      NumeralIs(x);
    }
  }
}
