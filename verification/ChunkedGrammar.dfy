/** Which byte strings the chunked reader of httplib.cpp accepts: a grammar of lines, chunks and
    endings that does not mention the reader, and the proof that the reader accepts exactly that. */
module ChunkedGrammar {
  import opened Common
  import opened Strtoul
  import opened Chunked

  /** Bytes up to and including their only line feed. */
  predicate IsLine(l: Bytes) {
    l != [] && l[|l| - 1] == LF && LF !in l[..|l| - 1]
  }

  /** A line, or what stands in its place where the stream ends. */
  predicate IsFirstLine(l: Bytes, rest: Bytes) {
    l != [] && LF !in l[..|l| - 1] && (l[|l| - 1] == LF || rest == [])
  }

  /** A line that `strtoul` reads a size from; what stands behind the number does not matter. */
  predicate IsHeader(h: Bytes, size: nat) {
    var number := Strtoul16(UpToNul(h));
    IsLine(h) && number.used > 0 && number.value == size < ULONG_MAX
  }

  datatype Part = Part(header: Bytes, data: Bytes)

  predicate GoodPart(part: Part) { part.data != [] && IsHeader(part.header, |part.data|) }

  predicate Good(parts: seq<Part>) { forall part :: part in parts ==> GoodPart(part) }

  /** What stands behind the chunks: the last chunk and a line end, or one more chunk with some other
      line where its line end should be. */
  datatype Ending = LastChunk(header: Bytes) | Unended(part: Part, line: Bytes)

  predicate GoodEnding(end: Ending, rest: Bytes) {
    match end
    case LastChunk(header) => IsHeader(header, 0)
    case Unended(part, line) => GoodPart(part) && IsFirstLine(line, rest) && line != CRLF
  }

  function EndingText(end: Ending, rest: Bytes): Bytes {
    match end
    case LastChunk(header) => header + (CRLF + rest)
    case Unended(part, line) => part.header + (part.data + (line + rest))
  }

  /** Chunks of header, data and line end, then the ending, then the rest. */
  function Text(parts: seq<Part>, end: Ending, rest: Bytes): Bytes {
    if parts == [] then EndingText(end, rest)
    else parts[0].header + (parts[0].data + (CRLF + Text(parts[1..], end, rest)))
  }

  /** The data of all chunks. */
  function Body(parts: seq<Part>, end: Ending): Bytes {
    if parts != [] then parts[0].data + Body(parts[1..], end)
    else if end.LastChunk? then [] else end.part.data
  }

  /** `s` consists of the chunks, the ending and the rest, and `body` is the data in it. */
  predicate Spells(parts: seq<Part>, end: Ending, s: Bytes, body: Bytes, rest: Bytes) {
    && Good(parts) && GoodEnding(end, rest)
    && s == Text(parts, end, rest) && body == Body(parts, end)
  }

  /** A chunked body with all its line ends, and anything behind it. */
  ghost predicate WellFormed(s: Bytes) {
    exists parts, end, body, rest :: Spells(parts, end, s, body, rest) && end.LastChunk?
  }

  ghost predicate CutShort(s: Bytes) {
    exists parts, end, body, rest :: Spells(parts, end, s, body, rest) && end.Unended?
  }

  // ----- lines --------------------------------------------------------------------------------

  lemma {:induction false} FirstLineIs(l: Bytes, rest: Bytes)
    requires IsFirstLine(l, rest)
    ensures LineLength(l + rest) == |l| && (l + rest)[..|l|] == l && (l + rest)[|l|..] == rest
  {
    var p := l[..|l| - 1];
    if l[|l| - 1] == LF {
      LineOf(p, rest);
      assert l + rest == p + [LF] + rest;
    } else {
      assert LF !in l by {
        assert l == p + [l[|l| - 1]];
      }
      AllOneLine(l);
      assert l + rest == l;
    }
  }

  lemma {:induction false} AllOneLine(s: Bytes)
    requires LF !in s
    ensures LineLength(s) == |s|
  {
    if s != [] {
      AllOneLine(s[1..]);
    }
  }

  lemma {:induction false} FirstLine(s: Bytes)
    requires s != []
    ensures IsFirstLine(s[..LineLength(s)], s[LineLength(s)..])
  {
    if s[0] != LF && |s| > 1 {
      FirstLine(s[1..]);
      var n := LineLength(s);
      assert s[..n] == [s[0]] + s[1..][..n - 1];
      assert s[..n][..n - 1] == [s[0]] + s[1..][..n - 1][..n - 2];
    }
  }

  /** Of the lines that end with their first line feed, a C string comparison takes only CRLF for
      the line end. */
  lemma IsCRLF(l: Bytes, rest: Bytes)
    requires IsFirstLine(l, rest)
    ensures UpToNul(l) == CRLF <==> l == CRLF
  {
    EndLine([]);
    if UpToNul(l) == CRLF {
      assert UpToNul(l[1..]) == UpToNul(l)[1..] == [LF];
      assert l[0] == CR && l[1..][0] == LF;
    }
  }

  /** A text is its first line and the rest. */
  lemma CutLine(t: Bytes)
    requires t != []
    ensures var line, rest := t[..LineLength(t)], t[LineLength(t)..];
      t == line + rest && IsFirstLine(line, rest) && (UpToNul(line) == CRLF <==> line == CRLF)
  {
    FirstLine(t);
    IsCRLF(t[..LineLength(t)], t[LineLength(t)..]);
  }

  // ----- what the grammar has is read ---------------------------------------------------------

  /** The reader of a chunk's header and data. */
  lemma ReadPart(part: Part, t: Bytes, body: Bytes)
    requires GoodPart(part)
    ensures ReadOn(part.header + (part.data + t), body) == AfterData(t, body + part.data)
  {
    var s := part.data + t;
    FirstLineIs(part.header, s);
    assert s[..|part.data|] == part.data && s[|part.data|..] == t;
  }

  lemma AfterLineEnd(t: Bytes, body: Bytes)
    ensures AfterData(CRLF + t, body) == ReadOn(t, body)
  {
    EndLine(t);
  }

  lemma ReadEnding(end: Ending, rest: Bytes, body: Bytes)
    requires GoodEnding(end, rest)
    ensures ReadOn(EndingText(end, rest), body) == Outcome(true, body + Body([], end), rest)
  {
    match end
    case LastChunk(header) =>
      FirstLineIs(header, CRLF + rest);
      EndLine(rest);
      assert body + [] == body;
    case Unended(part, line) =>
      ReadPart(part, line + rest, body);
      FirstLineIs(line, rest);
      IsCRLF(line, rest);
  }

  lemma {:induction false} ReadText(parts: seq<Part>, end: Ending, rest: Bytes, body: Bytes)
    requires Good(parts) && GoodEnding(end, rest)
    ensures ReadOn(Text(parts, end, rest), body) == Outcome(true, body + Body(parts, end), rest)
  {
    if parts == [] {
      ReadEnding(end, rest, body);
    } else {
      var next, d := Text(parts[1..], end, rest), parts[0].data;
      ReadPart(parts[0], CRLF + next, body);
      AfterLineEnd(next, body + d);
      ReadText(parts[1..], end, rest, body + d);
      ConcatAssoc(body, d, Body(parts[1..], end));
    }
  }

  // ----- what is read the grammar has ---------------------------------------------------------

  /** The last chunk of a body that is read. */
  lemma ParseLast(h: Bytes, t: Bytes, body: Bytes)
    requires Strtoul16(UpToNul(h)).value == 0 && ReadChunks(h, t, body).ok
    ensures t == CRLF + ReadChunks(h, t, body).rest
  {
    CutLine(t);
    assert UpToNul(t[..LineLength(t)]) == CRLF;
  }

  /** A chunk that is read has all its data, and something behind it. */
  lemma DataIsThere(h: Bytes, t: Bytes, body: Bytes)
    requires Strtoul16(UpToNul(h)).value > 0 && ReadChunks(h, t, body).ok
    ensures var number := Strtoul16(UpToNul(h));
      && number.used > 0 && number.value < ULONG_MAX && number.value < |t|
      && ReadChunks(h, t, body) == AfterData(t[number.value..], body + t[..number.value])
  {
  }

  /** The first chunk of a body that is read. */
  lemma ParsePart(h: Bytes, t: Bytes, body: Bytes) returns (part: Part, u: Bytes)
    requires IsFirstLine(h, t)
    requires Strtoul16(UpToNul(h)).value > 0 && ReadChunks(h, t, body).ok
    ensures part.header == h && GoodPart(part) && t == part.data + u && u != []
    ensures ReadChunks(h, t, body) == AfterData(u, body + part.data)
  {
    DataIsThere(h, t, body);
    var size := Strtoul16(UpToNul(h)).value;
    part, u := Part(h, t[..size]), t[size..];
  }

  lemma ParseLineEnd(u: Bytes, body: Bytes) returns (line: Bytes, next: Bytes)
    requires AfterData(u, body).ok
    ensures u == line + next && IsFirstLine(line, next)
    ensures AfterData(u, body) == if line == CRLF then ReadOn(next, body) else Outcome(true, body, next)
  {
    line, next := u[..LineLength(u)], u[LineLength(u)..];
    CutLine(u);
  }

  lemma {:induction false} Parse(s: Bytes, body: Bytes) returns (parts: seq<Part>, end: Ending)
    requires ReadOn(s, body).ok
    ensures Good(parts) && GoodEnding(end, ReadOn(s, body).rest)
    ensures s == Text(parts, end, ReadOn(s, body).rest)
    decreases |s|
  {
    var h, t := s[..LineLength(s)], s[LineLength(s)..];
    FirstLine(s);
    assert s == h + t;
    if Strtoul16(UpToNul(h)).value == 0 {
      ParseLast(h, t, body);
      return [], LastChunk(h);
    }
    var part, u := ParsePart(h, t, body);
    var line, next := ParseLineEnd(u, body + part.data);
    if line == CRLF {
      var more;
      more, end := Parse(next, body + part.data);
      parts := [part] + more;
      assert parts[1..] == more;
    } else {
      parts, end := [], Unended(part, line);
    }
  }

  /** For every byte string: the reader accepts it with this body and this rest exactly when the
      grammar says so. */
  lemma AcceptsExactly(s: Bytes, body: Bytes, rest: Bytes)
    ensures ReadChunked(s) == Outcome(true, body, rest) <==> exists parts, end :: Spells(parts, end, s, body, rest)
  {
    forall parts, end | Spells(parts, end, s, body, rest)
      ensures ReadChunked(s) == Outcome(true, body, rest)
    {
      ReadText(parts, end, rest, []);
      assert [] + body == body;
    }
    if ReadChunked(s) == Outcome(true, body, rest) {
      var parts, end := Parse(s, []);
      ReadText(parts, end, rest, []);
      assert [] + Body(parts, end) == Body(parts, end);
      assert Spells(parts, end, s, body, rest);
    }
  }

  // ----- one reading only ---------------------------------------------------------------------

  lemma SameLine(l: Bytes, rest: Bytes, m: Bytes, after: Bytes)
    requires IsFirstLine(l, rest) && IsFirstLine(m, after) && l + rest == m + after
    ensures l == m && rest == after
  {
    FirstLineIs(l, rest);
    FirstLineIs(m, after);
  }

  lemma SamePart(p: Part, rest: Bytes, q: Part, after: Bytes)
    requires GoodPart(p) && GoodPart(q)
    requires p.header + (p.data + rest) == q.header + (q.data + after)
    ensures p == q && rest == after
  {
    SameLine(p.header, p.data + rest, q.header, q.data + after);
    assert (p.data + rest)[..|p.data|] == p.data && (q.data + after)[..|p.data|] == q.data;
    assert (p.data + rest)[|p.data|..] == rest && (q.data + after)[|p.data|..] == after;
  }

  lemma SameChunk(p: Part, next: Bytes, q: Part, next': Bytes)
    requires GoodPart(p) && GoodPart(q)
    requires p.header + (p.data + (CRLF + next)) == q.header + (q.data + (CRLF + next'))
    ensures p == q && next == next'
  {
    SamePart(p, CRLF + next, q, CRLF + next');
    SameLine(CRLF, next, CRLF, next');
  }

  /** A last chunk is no chunk with data. */
  lemma LastIsNoPart(h: Bytes, rest: Bytes, part: Part, t: Bytes)
    requires IsHeader(h, 0) && GoodPart(part)
    ensures h + rest != part.header + (part.data + t)
  {
    if h + rest == part.header + (part.data + t) {
      SameLine(h, rest, part.header, part.data + t);
      assert false;
    }
  }

  lemma SameUnended(p: Part, l: Bytes, rest: Bytes, q: Part, m: Bytes, after: Bytes)
    requires GoodPart(p) && IsFirstLine(l, rest) && GoodPart(q) && IsFirstLine(m, after)
    requires p.header + (p.data + (l + rest)) == q.header + (q.data + (m + after))
    ensures p == q && l == m && rest == after
  {
    SamePart(p, l + rest, q, m + after);
    SameLine(l, rest, m, after);
  }

  /** Two endings that spell the same. */
  lemma SameEnding(e: Ending, rest: Bytes, f: Ending, after: Bytes)
    requires GoodEnding(e, rest) && GoodEnding(f, after) && EndingText(e, rest) == EndingText(f, after)
    ensures e == f && rest == after
  {
    match (e, f) {
      case (LastChunk(h), LastChunk(k)) =>
        SameLine(h, CRLF + rest, k, CRLF + after);
        SameLine(CRLF, rest, CRLF, after);
      case (Unended(p, l), Unended(q, m)) =>
        SameUnended(p, l, rest, q, m, after);
      case (LastChunk(h), Unended(q, m)) =>
        LastIsNoPart(h, CRLF + rest, q, m + after);
      case (Unended(p, l), LastChunk(k)) =>
        LastIsNoPart(k, CRLF + after, p, l + rest);
    }
  }

  /** An ending does not begin with a chunk. */
  lemma EndingIsNoPart(e: Ending, rest: Bytes, part: Part, next: Bytes)
    requires GoodEnding(e, rest) && GoodPart(part)
    ensures EndingText(e, rest) != part.header + (part.data + (CRLF + next))
  {
    match e {
      case LastChunk(h) =>
        LastIsNoPart(h, CRLF + rest, part, CRLF + next);
      case Unended(p, l) =>
        if EndingText(e, rest) == part.header + (part.data + (CRLF + next)) {
          SameUnended(p, l, rest, part, CRLF, next);
          assert false;
        }
    }
  }

  lemma SameParts(parts: seq<Part>, others: seq<Part>)
    requires parts != [] && others != [] && parts[0] == others[0] && parts[1..] == others[1..]
    ensures parts == others
  {
    assert parts == [parts[0]] + parts[1..];
    assert others == [others[0]] + others[1..];
  }

  /** The grammar is unambiguous. */
  lemma {:induction false} OneSpelling(parts: seq<Part>, e: Ending, rest: Bytes,
                                       others: seq<Part>, f: Ending, after: Bytes)
    requires Good(parts) && GoodEnding(e, rest) && Good(others) && GoodEnding(f, after)
    requires Text(parts, e, rest) == Text(others, f, after)
    ensures parts == others && e == f && rest == after
  {
    if parts == [] && others == [] {
      SameEnding(e, rest, f, after);
    } else if parts == [] {
      EndingIsNoPart(e, rest, others[0], Text(others[1..], f, after));
    } else if others == [] {
      EndingIsNoPart(f, after, parts[0], Text(parts[1..], e, rest));
    } else {
      var next, next' := Text(parts[1..], e, rest), Text(others[1..], f, after);
      SameChunk(parts[0], next, others[0], next');
      OneSpelling(parts[1..], e, rest, others[1..], f, after);
      SameParts(parts, others);
    }
  }

  // ----- when the reader is right -------------------------------------------------------------

  /** The reader accepts well-formed bodies, and those that are cut short. No input is both. */
  lemma AcceptsIff(s: Bytes)
    ensures ReadChunked(s).ok <==> WellFormed(s) || CutShort(s)
    ensures !(WellFormed(s) && CutShort(s))
  {
    var o := ReadChunked(s);
    forall parts, end, body, rest | Spells(parts, end, s, body, rest)
      ensures o.ok
    {
      AcceptsExactly(s, body, rest);
    }
    if o.ok {
      AcceptsExactly(s, o.body, o.rest);
    }
    if WellFormed(s) && CutShort(s) {
      var parts, e, body, rest :| Spells(parts, e, s, body, rest) && e.LastChunk?;
      var others, f, body', after :| Spells(others, f, s, body', after) && f.Unended?;
      OneSpelling(parts, e, rest, others, f, after);
    }
  }

  /** With data whose line end is wrong the reader succeeds if anything at all stands there. */
  lemma BadLineEnd(part: Part, junk: Bytes)
    requires GoodPart(part) && (junk == [] || UpToNul(junk[..LineLength(junk)]) != CRLF)
    ensures ReadChunked(part.header + (part.data + junk)).ok <==> junk != []
  {
    ReadPart(part, junk, []);
  }

  /** An instance: data longer than announced, on which the stream ends. All that was announced is
      delivered with success, and nothing of a last chunk has come. */
  lemma CutShortIsTaken(part: Part, extra: Bytes)
    requires GoodPart(part) && extra != [] && LF !in extra
    ensures var s := part.header + (part.data + extra);
      ReadChunked(s) == Outcome(true, part.data, []) && !WellFormed(s)
  {
    var s, end := part.header + (part.data + extra), Unended(part, extra);
    assert extra + [] == extra && CRLF[1] == LF;
    assert Spells([], end, s, part.data, []);
    AcceptsExactly(s, part.data, []);
    AcceptsIff(s);
  }

  // ----- what the writer sends ----------------------------------------------------------------

  lemma LineOfText(p: Bytes)
    requires LF !in p
    ensures IsLine(p + CRLF)
  {
    var l := p + CRLF;
    assert l[..|l| - 1] == p + [CR];
  }

  /** The writer's headers are headers. */
  lemma HeaderOfSize(n: nat)
    requires n < ULONG_MAX
    ensures IsHeader(ToHex(n) + CRLF, n)
  {
    HexDigits(n);
    LineOfText(ToHex(n));
    ReadHeader(n);
  }

  function WrittenLast(): Ending { LastChunk(ToHex(0) + CRLF) }

  /** One more chunk in front of a well-formed body. */
  lemma ChunkInFront(d: Bytes, parts: seq<Part>, after: Bytes) returns (more: seq<Part>)
    requires 0 < |d| < ULONG_MAX && Good(parts)
    ensures Good(more) && more == [Part(ToHex(|d|) + CRLF, d)] + parts
    ensures Text(more, WrittenLast(), after) == Chunk(d) + Text(parts, WrittenLast(), after)
  {
    HeaderOfSize(|d|);
    var part, tail := Part(ToHex(|d|) + CRLF, d), Text(parts, WrittenLast(), after);
    more := [part] + parts;
    assert more[1..] == parts;
    assert part.header + (d + (CRLF + tail)) == Chunk(d) + tail;
  }

  /** The data of the writes before the first `done`, without the empty ones. */
  function Pieces(ops: seq<SinkOp>): seq<Bytes> {
    if ops == [] || ops[0].SinkDone? then []
    else (if ops[0].data == [] then [] else [ops[0].data]) + Pieces(ops[1..])
  }

  /** The parts that the writer makes of such pieces. */
  predicate Written(parts: seq<Part>, pieces: seq<Bytes>) {
    && |parts| == |pieces|
    && forall i :: 0 <= i < |parts| ==>
         parts[i].data == pieces[i] && pieces[i] != [] && parts[i].header == ToHex(|pieces[i]|) + CRLF
  }

  /** One chunk for each piece, the last chunk, and what is sent behind it. */
  lemma {:induction false} SentParts(ops: seq<SinkOp>, rest: Bytes) returns (parts: seq<Part>)
    requires SmallWrites(ops) && SinkDone in ops
    ensures Good(parts) && Written(parts, Pieces(ops))
    ensures OpsSend(ops) + rest == Text(parts, WrittenLast(), OpsSend(AfterDone(ops)) + rest)
  {
    var later, after := OpsSend(ops[1..]), OpsSend(AfterDone(ops)) + rest;
    ConcatAssoc(OpSends(ops[0]), later, rest);
    if ops[0].SinkDone? {
      parts := [];
      assert LAST == ToHex(0) + CRLF + CRLF;
      ConcatAssoc(ToHex(0) + CRLF, CRLF, after);
    } else {
      parts := SentParts(ops[1..], rest);
      if ops[0].data != [] {
        parts := ChunkInFront(ops[0].data, parts, after);
      } else {
        assert [] + (later + rest) == later + rest;
        assert [] + Pieces(ops[1..]) == Pieces(ops[1..]);
      }
    }
  }

  /** What the writer's loop sends begins with a well-formed body exactly when the loop gets to a call
      with a `done`. */
  lemma WellFormedIff(calls: seq<Call>)
    requires SmallWrites(Executed(calls))
    ensures WellFormed(Sent(calls)) <==> ReachesDone(calls)
  {
    ReadableIff(calls);
    DoneIsReached(calls);
    if ReachesDone(calls) {
      var parts := SentParts(Executed(calls), []);
      var after := OpsSend(AfterDone(Executed(calls))) + [];
      assert Sent(calls) + [] == Sent(calls);
      HeaderOfSize(0);
      assert Spells(parts, WrittenLast(), Sent(calls), Body(parts, WrittenLast()), after);
    } else {
      AcceptsIff(Sent(calls));
    }
  }
}
