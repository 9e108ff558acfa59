/** Which lines the chunked reader takes for the header of a chunk, and how that relates to section
    4.1 of RFC 7230: hexadecimal digits, extensions behind a semicolon, CRLF. */
module ChunkedHeaders {
  import opened Common
  import opened Strtoul
  import opened Chunked
  import opened ChunkedGrammar

  // ----- lines with a number ------------------------------------------------------------------

  lemma {:induction false} NoNulBefore(s: Bytes)
    ensures 0 !in UpToNul(s)
  {
    if s != [] && s[0] != 0 {
      NoNulBefore(s[1..]);
    }
  }

  lemma {:induction false} NulSplits(s: Bytes) returns (more: Bytes)
    ensures s == UpToNul(s) + more && (more == [] || more[0] == 0)
  {
    if s == [] || s[0] == 0 {
      more := s;
      assert [] + s == s;
    } else {
      more := NulSplits(s[1..]);
      ConcatAssoc([s[0]], UpToNul(s[1..]), more);
      assert s == [s[0]] + s[1..];
    }
  }

  lemma {:induction false} NulBehind(p: Bytes, t: Bytes)
    requires 0 !in p
    ensures UpToNul(p + t) == p + UpToNul(t)
  {
    if p == [] {
      assert p + t == t;
    } else {
      assert (p + t)[1..] == p[1..] + t;
      NulBehind(p[1..], t);
    }
  }

  function Head(x: Numeral): Bytes { x.blanks + (x.sign + (x.prefix + x.digits)) }

  lemma HeadAndTail(x: Numeral)
    ensures Flat(x) == Head(x) + x.tail
  {
    ConcatAssoc(x.prefix, x.digits, x.tail);
    ConcatAssoc(x.sign, x.prefix + x.digits, x.tail);
    ConcatAssoc(x.blanks, x.sign + (x.prefix + x.digits), x.tail);
  }

  lemma NoNulInHead(x: Numeral)
    requires GoodNumeral(x)
    ensures 0 !in Head(x)
  {
    assert 0 !in x.prefix + x.digits;
    assert 0 !in x.sign + (x.prefix + x.digits);
  }

  /** Putting a NUL and anything behind it at the end of the tail, or taking it off. */
  lemma TailToNul(x: Numeral, tail: Bytes)
    requires UpToNul(x.tail) == tail
    ensures GoodNumeral(x) <==> GoodNumeral(x.(tail := tail))
  {
    var more := NulSplits(x.tail);
    assert tail != [] ==> x.tail[0] == tail[0];
    assert tail == [] && x.tail != [] ==> x.tail[0] == 0;
    if |x.digits| == 1 {
      SameHas0x(x.digits, tail, more);
    }
  }

  lemma SameHas0x(digits: Bytes, tail: Bytes, more: Bytes)
    requires |digits| == 1 && (more == [] || more[0] == 0)
    ensures Has0x(digits + (tail + more), 0) <==> Has0x(digits + tail, 0)
  {
    var s, t := digits + (tail + more), digits + tail;
    assert |tail| >= 1 ==> s[1] == t[1];
    assert |tail| >= 2 ==> s[2] == t[2];
  }

  lemma HeaderHas(h: Bytes, size: nat, x: Numeral)
    requires IsLine(h) && size < ULONG_MAX
    requires GoodNumeral(x) && Flat(x) == h && ValueOf(x) == size
    ensures IsHeader(h, size)
  {
    var y := x.(tail := UpToNul(x.tail));
    HeadAndTail(x);
    HeadAndTail(y);
    NoNulInHead(x);
    NulBehind(Head(x), x.tail);
    TailToNul(x, y.tail);
    NumeralIs(y);
  }

  lemma PartsOfHeader(h: Bytes, size: nat) returns (x: Numeral)
    requires IsHeader(h, size)
    ensures GoodNumeral(x) && Flat(x) == h && ValueOf(x) == size
  {
    NoNulBefore(h);
    var more := NulSplits(h);
    var y := PartsOf(UpToNul(h));
    NumeralIs(y);
    x := y.(tail := y.tail + more);
    HeadAndTail(y);
    HeadAndTail(x);
    ConcatAssoc(Head(y), y.tail, more);
    NoNulIn(Head(y), y.tail);
    NulBehind(y.tail, more);
    assert UpToNul(more) == [] && y.tail + [] == y.tail;
    TailToNul(x, y.tail);
  }

  lemma NoNulIn(p: Bytes, t: Bytes)
    requires 0 !in p + t
    ensures 0 !in t
  {
    assert forall c :: c in t ==> c in p + t;
  }

  /** The headers are the lines made of white space, a sign, `0x`, digits and anything that does not
      go on with a digit, of which only the digits must be there. */
  lemma HeaderIff(h: Bytes, size: nat)
    ensures IsHeader(h, size)
       <==> IsLine(h) && size < ULONG_MAX && exists x :: GoodNumeral(x) && Flat(x) == h && ValueOf(x) == size
  {
    if IsHeader(h, size) {
      var x := PartsOfHeader(h, size);
    }
    forall x | IsLine(h) && size < ULONG_MAX && GoodNumeral(x) && Flat(x) == h && ValueOf(x) == size
      ensures IsHeader(h, size)
    {
      HeaderHas(h, size, x);
    }
  }

  // ----- the headers of the standard ----------------------------------------------------------

  /** Extensions, or none, and CRLF. */
  predicate StandardEnd(end: Bytes) {
    && |end| >= 2 && end[|end| - 2] == CR && end[|end| - 1] == LF
    && (forall i :: 0 <= i < |end| - 2 ==> end[i] != CR && end[i] != LF)
    && (|end| > 2 ==> end[0] == 59)
  }

  /** Digits, leading zeros among them or not, and such an end. */
  predicate Standard(h: Bytes, digits: Bytes, end: Bytes) {
    h == digits + end && digits != [] && AllHex(digits) && StandardEnd(end)
  }

  lemma StartOfEnd(end: Bytes)
    requires StandardEnd(end)
    ensures end != [] && !IsHex(end[0]) && end[0] != 120 && end[0] != 88
  {
    assert end[0] == 59 || end[0] == CR;
  }

  lemma StandardNumeral(digits: Bytes, end: Bytes)
    requires digits != [] && AllHex(digits) && StandardEnd(end)
    ensures var x := Numeral([], [], [], digits, end);
      GoodNumeral(x) && Flat(x) == digits + end
  {
    StartOfEnd(end);
    PlainNumeral(digits, end);
  }

  lemma StandardLine(digits: Bytes, end: Bytes)
    requires AllHex(digits) && StandardEnd(end)
    ensures IsLine(digits + end)
  {
    var ext := end[..|end| - 2];
    assert end == ext + CRLF;
    ConcatAssoc(digits, ext, CRLF);
    assert LF !in digits by {
      assert !IsHex(LF);
    }
    LineOfText(digits + ext);
  }

  /** All of them are taken, with the size they say. */
  lemma StandardIsHeader(h: Bytes, digits: Bytes, end: Bytes)
    requires Standard(h, digits, end) && HexNumber(digits) < ULONG_MAX
    ensures IsHeader(h, HexNumber(digits))
  {
    StandardNumeral(digits, end);
    StandardLine(digits, end);
    HeaderHas(h, HexNumber(digits), Numeral([], [], [], digits, end));
  }

  /** What is taken beyond them: a line whose number has white space, a sign or `0x` before it, or some
      other end, a bare line feed among them, behind it. */
  lemma BeyondStandardIff(x: Numeral)
    requires GoodNumeral(x)
    ensures (exists digits, end :: Standard(Flat(x), digits, end))
       <==> x.blanks == [] && x.sign == [] && x.prefix == [] && StandardEnd(x.tail)
  {
    if x.blanks == [] && x.sign == [] && x.prefix == [] && StandardEnd(x.tail) {
      StandardNumeral(x.digits, x.tail);
      assert Standard(Flat(x), x.digits, x.tail);
    }
    forall digits, end | Standard(Flat(x), digits, end)
      ensures x.blanks == [] && x.sign == [] && x.prefix == [] && StandardEnd(x.tail)
    {
      StandardNumeral(digits, end);
      SameNumeral(Numeral([], [], [], digits, end), x);
    }
  }

  // ----- the bodies of the standard -----------------------------------------------------------

  ghost predicate StandardHeader(h: Bytes, size: nat) {
    exists digits, end :: Standard(h, digits, end) && HexNumber(digits) == size
  }

  /** Chunks, a last chunk without trailers, and anything behind them. */
  ghost predicate StandardBody(parts: seq<Part>, last: Bytes) {
    && (forall part :: part in parts ==> part.data != [] && StandardHeader(part.header, |part.data|))
    && StandardHeader(last, 0)
  }

  /** Every body of the standard that has no trailers is well-formed, and is read. */
  lemma StandardIsRead(parts: seq<Part>, last: Bytes, rest: Bytes)
    requires StandardBody(parts, last) && forall part :: part in parts ==> |part.data| < ULONG_MAX
    ensures var s, end := Text(parts, LastChunk(last), rest), LastChunk(last);
      WellFormed(s) && ReadChunked(s) == Outcome(true, Body(parts, end), rest)
  {
    var end := LastChunk(last);
    forall part | part in parts ensures GoodPart(part) {
      HeaderOfStandard(part.header, |part.data|);
    }
    HeaderOfStandard(last, 0);
    assert Spells(parts, end, Text(parts, end, rest), Body(parts, end), rest);
    AcceptsExactly(Text(parts, end, rest), Body(parts, end), rest);
  }

  lemma HeaderOfStandard(h: Bytes, size: nat)
    requires StandardHeader(h, size) && size < ULONG_MAX
    ensures IsHeader(h, size)
  {
    var digits, end :| Standard(h, digits, end) && HexNumber(digits) == size;
    StandardIsHeader(h, digits, end);
  }

  lemma WrittenIsStandard(n: nat)
    ensures StandardHeader(ToHex(n) + CRLF, n)
  {
    HexDigits(n);
    assert StandardEnd(CRLF) && Standard(ToHex(n) + CRLF, ToHex(n), CRLF);
  }

  /** What the writer's loop sends when it gets to a `done` is a body of the standard, with one chunk
      for each piece of data that is not empty, and with what is sent after that behind it. */
  lemma SentIsStandard(calls: seq<Call>) returns (parts: seq<Part>, last: Bytes)
    requires SmallWrites(Executed(calls)) && ReachesDone(calls)
    ensures StandardBody(parts, last) && |parts| == |Pieces(Executed(calls))|
    ensures forall i :: 0 <= i < |parts| ==> parts[i].data == Pieces(Executed(calls))[i]
    ensures Sent(calls) == Text(parts, LastChunk(last), OpsSend(AfterDone(Executed(calls))))
  {
    DoneIsReached(calls);
    var ops := Executed(calls);
    parts := SentParts(ops, []);
    last := ToHex(0) + CRLF;
    assert OpsSend(ops) + [] == OpsSend(ops);
    assert OpsSend(AfterDone(ops)) + [] == OpsSend(AfterDone(ops));
    WrittenIsStandard(0);
    forall i | 0 <= i < |parts| ensures StandardHeader(parts[i].header, |parts[i].data|) {
      WrittenIsStandard(|parts[i].data|);
    }
  }

  lemma LineWithNumeral(x: Numeral)
    requires GoodNumeral(x) && LF !in Head(x) && (x.tail == CRLF || x.tail == [LF])
    ensures IsLine(Flat(x))
  {
    HeadAndTail(x);
    if x.tail == CRLF {
      LineOfText(Head(x));
    } else {
      assert (Head(x) + [LF])[..|Head(x)|] == Head(x);
    }
  }

  lemma OneIsRead(x: Numeral)
    requires x.digits == [49] && (x.blanks == [] || x.blanks == [32]) && (x.sign == [] || x.sign == [43])
    requires (x.prefix == [] || x.prefix == [48, 120]) && (x.tail == CRLF || x.tail == [LF])
    ensures GoodNumeral(x) && ValueOf(x) == 1 && LF !in Head(x)
  {
    assert HexNumber([49]) == HexNumber([]) * 16 + 1;
    assert (x.digits + x.tail)[0] == 49;
  }

  /** Instances of what is taken beyond the standard: a size of one with white space, a plus sign or
      `0x` before it, or with a bare line feed behind it, in any combination. */
  lemma LenientHeaders(x: Numeral)
    requires x.digits == [49] && (x.blanks == [] || x.blanks == [32]) && (x.sign == [] || x.sign == [43])
    requires (x.prefix == [] || x.prefix == [48, 120]) && (x.tail == CRLF || x.tail == [LF])
    requires x.blanks != [] || x.sign != [] || x.prefix != [] || x.tail != CRLF
    ensures IsHeader(Flat(x), 1) && !StandardHeader(Flat(x), 1)
  {
    OneIsRead(x);
    LineWithNumeral(x);
    HeaderHas(Flat(x), 1, x);
    BeyondStandardIff(x);
    assert |[LF]| < 2;
  }
}
