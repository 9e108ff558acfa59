/** The objects that do the chunked transfer: streams that give and take as much as they like, the
    line reader with its two buffers, and the chunked reader and writer. */
module HttpStream {
  import opened Common
  import opened Strtoul
  import opened Chunked

  const RECV_BUFSIZ: nat := 4096

  /** The receiving end of a connection. Each read gives as much as the next entry of `grants`
      says, within reason; a negative entry is an error. A reliable stream has no errors. */
  class InStream {
    const reliable: bool
    var rest: Bytes
    var grants: seq<int>

    constructor (data: Bytes, grants: seq<int>, reliable: bool)
      ensures rest == data && this.reliable == reliable
    {
      this.reliable, rest, this.grants := reliable, data, grants;
    }

    /** `n < 0` is an error, `n == 0` the end of the data. */
    method Read(size: nat) returns (bytes: Bytes, n: int)
      requires size > 0
      modifies this
      ensures n < 0 ==> !reliable && rest == old(rest)
      ensures n >= 0 ==> n == |bytes| <= size && old(rest) == bytes + rest
      ensures n == 0 ==> rest == []
    {
      var grant := if grants == [] then size else grants[0];
      if grants != [] {
        grants := grants[1..];
      }
      bytes := [];
      if grant < 0 && !reliable {
        n := -1;
      } else {
        n := if grant < 1 then 1 else if grant > size then size else grant;
        n := if n > |rest| then |rest| else n;
        bytes := rest[..n];
        rest := rest[n..];
      }
    }
  }

  /** The sending end. Each write takes at least one byte, and at most as many as it is granted. */
  class OutStream {
    const reliable: bool
    var written: Bytes
    var grants: seq<int>

    constructor (grants: seq<int>, reliable: bool)
      ensures written == [] && this.reliable == reliable
    {
      this.reliable, written, this.grants := reliable, [], grants;
    }

    method Write(d: Bytes) returns (n: int)
      requires d != []
      modifies this
      ensures n < 0 ==> !reliable && written == old(written)
      ensures n >= 0 ==> 0 < n <= |d| && written == old(written) + d[..n]
    {
      var grant := if grants == [] then |d| else grants[0];
      if grants != [] {
        grants := grants[1..];
      }
      if grant < 0 && !reliable {
        n := -1;
      } else {
        n := if grant < 1 then 1 else if grant > |d| then |d| else grant;
        written := written + d[..n];
      }
    }
  }

  // ----- the line reader ----------------------------------------------------------------------

  /** A line in a fixed buffer that is kept NUL-terminated, and in a growing one once it is full. */
  class StreamLineReader {
    const fixed: array<byte>
    var fixedUsed: nat
    var growable: Bytes

    ghost predicate Valid()
      reads this, fixed
    {
      && fixedUsed < fixed.Length && fixed.Length >= 2
      && (fixedUsed > 0 ==> fixed[fixedUsed] == 0)
      && (growable != [] ==> fixedUsed == fixed.Length - 1)
    }

    /** The line: one plain string of bytes. */
    ghost function Contents(): Bytes
      requires Valid()
      reads this, fixed
    {
      if growable == [] then fixed[..fixedUsed] else growable
    }

    constructor (size: nat)
      requires size >= 2
      ensures Valid() && Contents() == [] && fresh(fixed)
    {
      fixed := new byte[size];
      fixedUsed, growable := 0, [];
    }

    /** The line as a C string: up to its first NUL, be it data or the terminator. */
    method CString() returns (s: Bytes)
      requires Valid() && Contents() != []
      ensures s == UpToNul(Contents())
    {
      if growable == [] {
        assert fixed[..][..fixedUsed] == fixed[..fixedUsed];
        StopsAtNul(fixed[..], fixedUsed);
        s := UpToNul(fixed[..]);
      } else {
        s := UpToNul(growable);
      }
    }

    method Append(c: byte)
      requires Valid()
      modifies this, fixed
      ensures Valid() && Contents() == old(Contents()) + [c]
    {
      if fixedUsed < fixed.Length - 1 {
        fixed[fixedUsed] := c;
        fixedUsed := fixedUsed + 1;
        fixed[fixedUsed] := 0;
        assert fixed[..fixedUsed] == old(fixed[..fixedUsed]) + [c];
      } else {
        if growable == [] {
          assert fixed[fixedUsed] == 0;
          growable := fixed[..fixedUsed];
        }
        growable := growable + [c];
      }
    }

    /** Reads a line byte by byte. */
    method GetLine(strm: InStream) returns (ok: bool)
      requires Valid()
      modifies this, fixed, strm
      ensures Valid()
      ensures ok ==> old(strm.rest) != []
      ensures ok ==> var k := LineLength(old(strm.rest));
        Contents() == old(strm.rest)[..k] && strm.rest == old(strm.rest)[k..]
      ensures !ok && strm.reliable ==> old(strm.rest) == [] && strm.rest == []
    {
      fixedUsed, growable := 0, [];
      ghost var all := strm.rest;
      var i := 0;
      while true
        invariant Valid() && |Contents()| == i
        invariant InLine(all, Contents(), strm.rest)
        decreases |strm.rest|
      {
        var bytes, n := strm.Read(1);
        if n < 0 {
          return false;
        } else if n == 0 {
          if i == 0 {
            return false;
          } else {
            break;
          }
        }
        var c := bytes[0];
        assert bytes == [c];
        NextInLine(all, Contents(), c, strm.rest);
        Append(c);
        if c == LF {
          break;
        }
        i := i + 1;
      }
      ok := true;
      LineIsRead(all, Contents(), strm.rest);
    }
  }

  /** `line` is the beginning of the first line of `all`, and `rest` follows it. */
  ghost predicate InLine(all: Bytes, line: Bytes, rest: Bytes) {
    all == line + rest && LineLength(all) == |line| + LineLength(rest)
  }

  /** `line` is the first line, or all there is of it. */
  ghost predicate LineEnds(all: Bytes, line: Bytes, rest: Bytes) {
    all == line + rest && LineLength(all) == |line|
  }

  lemma NextInLine(all: Bytes, line: Bytes, c: byte, rest: Bytes)
    requires InLine(all, line, [c] + rest)
    ensures if c == LF then LineEnds(all, line + [c], rest) else InLine(all, line + [c], rest)
  {
    assert ([c] + rest)[1..] == rest;
    ConcatAssoc(line, [c], rest);
  }

  lemma LineIsRead(all: Bytes, line: Bytes, rest: Bytes)
    requires LineEnds(all, line, rest) || (InLine(all, line, rest) && rest == [])
    ensures line == all[..LineLength(all)] && rest == all[LineLength(all)..]
  {
  }

  lemma {:induction false} StopsAtNul(s: Bytes, n: nat)
    requires n < |s| && s[n] == 0
    ensures UpToNul(s) == UpToNul(s[..n])
  {
    if n > 0 && s[0] != 0 {
      assert s[1..][..n - 1] == s[..n][1..];
      StopsAtNul(s[1..], n - 1);
    }
  }

  // ----- the reader ---------------------------------------------------------------------------

  /** Who takes the content. The piece it refuses has been handed to it too. A willing one refuses
      nothing. */
  class Receiver {
    const willing: bool
    var got: Bytes
    var answers: seq<bool>

    constructor (answers: seq<bool>, willing: bool)
      ensures got == [] && this.willing == willing
    {
      this.willing, got, this.answers := willing, [], answers;
    }

    method Take(d: Bytes) returns (ok: bool)
      modifies this
      ensures got == old(got) + d
      ensures !ok ==> !willing
    {
      got := got + d;
      ok := willing || answers == [] || answers[0];
      if answers != [] {
        answers := answers[1..];
      }
    }
  }

  /** Hands on `len` bytes, in as many pieces as the stream gives. `progress` has the answers of the
      progress callback, which is asked after each piece while there are any. */
  method ReadContentWithLength(strm: InStream, len: nat, progress: seq<bool>, out: Receiver) returns (ok: bool)
    modifies strm, out
    ensures out.got + strm.rest == old(out.got) + old(strm.rest)
    ensures |old(out.got)| <= |out.got| <= |old(out.got)| + len
    ensures ok ==> |out.got| == |old(out.got)| + len
    ensures !ok && strm.reliable && out.willing && false !in progress ==>
              strm.rest == [] && |out.got| < |old(out.got)| + len
  {
    var r, i := 0, 0;
    while r < len
      invariant r <= len && |out.got| == |old(out.got)| + r
      invariant out.got + strm.rest == old(out.got) + old(strm.rest)
      decreases len - r
    {
      var readLen := len - r;
      var bytes, n := strm.Read(if readLen < RECV_BUFSIZ then readLen else RECV_BUFSIZ);
      if n <= 0 {
        assert n == 0 ==> bytes == [] && strm.rest == [];
        return false;
      }
      ConcatAssoc(out.got, bytes, strm.rest);
      var taken := out.Take(bytes);
      if !taken {
        return false;
      }
      r := r + n;
      if i < |progress| {
        if !progress[i] {
          return false;
        }
        i := i + 1;
      }
    }
    ok := true;
  }

  /** Reads a line and compares it with a line end, as a C string. */
  method GetLineEnd(lineReader: StreamLineReader, strm: InStream) returns (got: bool, end: bool)
    requires lineReader.Valid()
    modifies lineReader, lineReader.fixed, strm
    ensures lineReader.Valid()
    ensures got ==> var all := old(strm.rest);
      var n := LineLength(all);
      n > 0 && strm.rest == all[n..] && end == (UpToNul(all[..n]) == CRLF)
    ensures !got && strm.reliable ==> old(strm.rest) == [] && strm.rest == []
  {
    got := lineReader.GetLine(strm);
    end := false;
    if got {
      var line := lineReader.CString();
      end := line == CRLF;
    }
  }

  /** The reader only ever adds to the body. */
  lemma {:induction false} BodyGrows(header: Bytes, s: Bytes, body: Bytes)
    ensures body <= ReadChunks(header, s, body).body
    decreases |s|
  {
    var number := Strtoul16(UpToNul(header));
    if number.used > 0 && 0 < number.value < ULONG_MAX && number.value <= |s| {
      var body1, t := body + s[..number.value], s[number.value..];
      var n := LineLength(t);
      var u := t[n..];
      if n > 0 && UpToNul(t[..n]) == CRLF && u != [] {
        BodyGrows(u[..LineLength(u)], u[LineLength(u)..], body1);
      }
    }
  }

  lemma AfterDataGrows(t: Bytes, body: Bytes)
    ensures body <= AfterData(t, body).body
  {
    var u := t[LineLength(t)..];
    BodyGrows(u[..LineLength(u)], u[LineLength(u)..], body);
  }

  /** Two ways to cut a text in two. */
  lemma SameText(body: Bytes, s: Bytes, got: Bytes, rest: Bytes, k: nat)
    requires got + rest == body + s && |got| == |body| + k
    ensures k <= |s| && got == body + s[..k] && rest == s[k..]
  {
    assert |rest| + k == |s|;
    assert (got + rest)[..|got|] == got && (got + rest)[|got|..] == rest;
    assert (body + s)[..|got|] == body + s[..k] && (body + s)[|got|..] == s[k..];
  }

  predicate Announces(header: Bytes, size: nat) {
    var number := Strtoul16(UpToNul(header));
    number.used > 0 && number.value == size && 0 < size < ULONG_MAX
  }

  /** The reader when the data of a chunk has come. */
  lemma DataHasCome(header: Bytes, s: Bytes, body: Bytes, size: nat, got: Bytes, rest: Bytes)
    requires Announces(header, size) && got + rest == body + s && |got| == |body| + size
    ensures ReadChunks(header, s, body) == AfterData(rest, got)
    ensures got <= ReadChunks(header, s, body).body
  {
    SameText(body, s, got, rest, size);
    AfterDataGrows(rest, got);
  }

  /** The reader when a part of it has come. */
  lemma DataIsShort(header: Bytes, s: Bytes, body: Bytes, size: nat, got: Bytes, rest: Bytes)
    requires Announces(header, size) && got + rest == body + s && |body| <= |got| < |body| + size
    ensures rest == [] ==> ReadChunks(header, s, body) == Outcome(false, got, [])
    ensures got <= ReadChunks(header, s, body).body
  {
    var k := |got| - |body|;
    SameText(body, s, got, rest, k);
    if size <= |s| {
      AfterDataGrows(s[size..], body + s[..size]);
      assert body + s[..k] <= body + s[..size];
    } else {
      assert body + s[..k] <= body + s;
    }
  }

  /** The data of a chunk. `spec` is what the whole reader comes to. */
  method ReadChunkData(strm: InStream, out: Receiver, size: nat, ghost header: Bytes, ghost spec: Outcome)
    returns (ok: bool)
    requires Announces(header, size) && ReadChunks(header, strm.rest, out.got) == spec
    modifies strm, out
    ensures out.got <= spec.body
    ensures ok ==> AfterData(strm.rest, out.got) == spec && |strm.rest| < |old(strm.rest)|
    ensures !ok && strm.reliable && out.willing ==> spec == Outcome(false, out.got, strm.rest)
  {
    ok := ReadContentWithLength(strm, size, [], out);
    assert |out.got + strm.rest| == |old(out.got) + old(strm.rest)|;
    if |out.got| == |old(out.got)| + size {
      DataHasCome(header, old(strm.rest), old(out.got), size, out.got, strm.rest);
    } else {
      DataIsShort(header, old(strm.rest), old(out.got), size, out.got, strm.rest);
    }
  }

  /** The line end behind the data of a chunk, and the header line of the next one. */
  method ReadNextHeader(lineReader: StreamLineReader, strm: InStream, ghost body: Bytes, ghost spec: Outcome)
    returns (more: bool, ok: bool)
    requires lineReader.Valid() && AfterData(strm.rest, body) == spec
    modifies lineReader, lineReader.fixed, strm
    ensures lineReader.Valid() && (more ==> |strm.rest| <= |old(strm.rest)|)
    ensures more ==> lineReader.Contents() != [] && ReadChunks(lineReader.Contents(), strm.rest, body) == spec
    ensures !more && (ok || strm.reliable) ==> spec == Outcome(ok, body, strm.rest)
  {
    var got, end := GetLineEnd(lineReader, strm);
    if !got {
      return false, false;
    }
    if !end {
      return false, true;
    }
    ok := lineReader.GetLine(strm);
    more := ok;
  }

  /** The loop over the chunks, behind the first header line. */
  method ReadChunkLoop(lineReader: StreamLineReader, strm: InStream, out: Receiver, ghost spec: Outcome)
    returns (ok: bool)
    requires lineReader.Valid() && lineReader.Contents() != []
    requires ReadChunks(lineReader.Contents(), strm.rest, out.got) == spec
    modifies lineReader, lineReader.fixed, strm, out
    ensures ok || (strm.reliable && out.willing) ==> Outcome(ok, out.got, strm.rest) == spec
    ensures out.got <= spec.body
  {
    BodyGrows(lineReader.Contents(), strm.rest, out.got);
    while true
      invariant lineReader.Valid() && lineReader.Contents() != []
      invariant ReadChunks(lineReader.Contents(), strm.rest, out.got) == spec && out.got <= spec.body
      decreases |strm.rest|
    {
      var line := lineReader.CString();
      var number := Strtoul16(line);
      if number.used == 0 {
        return false;
      }
      if number.value == ULONG_MAX {
        return false;
      }
      if number.value == 0 {
        var got, end := GetLineEnd(lineReader, strm);
        return got && end;
      }
      ok := ReadChunkData(strm, out, number.value, lineReader.Contents(), spec);
      if !ok {
        return;
      }
      var more;
      more, ok := ReadNextHeader(lineReader, strm, out.got, spec);
      if !more {
        return;
      }
    }
  }

  /** Reads a chunked body, whatever the sizes of the reads. When the stream fails or the receiver
      refuses, what has been handed on is a beginning of the body. */
  method ReadContentChunked(strm: InStream, out: Receiver) returns (ok: bool)
    modifies strm, out
    ensures ok || (strm.reliable && out.willing) ==>
              Outcome(ok, out.got, strm.rest) == ReadOn(old(strm.rest), old(out.got))
    ensures out.got <= ReadOn(old(strm.rest), old(out.got)).body
  {
    ghost var s := strm.rest;
    var lineReader := new StreamLineReader(16);
    if s != [] {
      BodyGrows(s[..LineLength(s)], s[LineLength(s)..], out.got);
    }
    ok := lineReader.GetLine(strm);
    if ok {
      ok := ReadChunkLoop(lineReader, strm, out, ReadOn(s, out.got));
    }
  }

  // ----- the writer ---------------------------------------------------------------------------

  method FromIToHex(n: nat) returns (ret: Bytes)
    ensures ret == ToHex(n)
  {
    ret := [LowHexDigit(n % 16)];
    var m := n / 16;
    while m > 0
      invariant (if m > 0 then ToHex(m) + ret else ret) == ToHex(n)
      decreases m
    {
      if m / 16 > 0 {
        ConcatAssoc(ToHex(m / 16), [LowHexDigit(m % 16)], ret);
      }
      ret := [LowHexDigit(m % 16)] + ret;
      m := m / 16;
    }
  }

  /** Writes all of `d`, in as many pieces as the stream takes. */
  method WriteData(strm: OutStream, d: Bytes) returns (ok: bool)
    modifies strm
    ensures old(strm.written) <= strm.written <= old(strm.written) + d
    ensures ok ==> strm.written == old(strm.written) + d
    ensures !ok ==> !strm.reliable
  {
    var offset := 0;
    assert d[..0] == [] && old(strm.written) + [] == old(strm.written);
    while offset < |d|
      invariant offset <= |d| && strm.written == old(strm.written) + d[..offset]
    {
      var length := strm.Write(d[offset..]);
      if length < 0 {
        return false;
      }
      assert d[..offset + length] == d[..offset] + d[offset..][..length];
      ConcatAssoc(old(strm.written), d[..offset], d[offset..][..length]);
      offset := offset + length;
    }
    assert d[..|d|] == d;
    ok := true;
  }

  /** The sink a content provider writes to, without compression. */
  class ChunkedSink {
    const strm: OutStream
    var ok: bool
    var dataAvailable: bool

    constructor (strm: OutStream)
      ensures this.strm == strm && ok && dataAvailable
    {
      this.strm, ok, dataAvailable := strm, true, true;
    }

    method Write(d: Bytes) returns (r: bool)
      modifies this, strm
      ensures r == ok && (!old(ok) ==> !ok && dataAvailable == old(dataAvailable) && strm.written == old(strm.written))
      ensures old(ok) ==> dataAvailable == (d != [])
      ensures ok ==> strm.written == old(strm.written) + OpSends(SinkWrite(d))
      ensures old(ok) && !ok ==> !strm.reliable
      ensures strm.written <= old(strm.written) + OpSends(SinkWrite(d))
    {
      if ok {
        dataAvailable := |d| > 0;
        assert old(strm.written) + [] == old(strm.written);
        if d != [] {
          var size := FromIToHex(|d|);
          var chunk := size + CRLF + d + CRLF;
          var sent := WriteData(strm, chunk);
          if !sent {
            ok := false;
          }
        }
      }
      r := ok;
    }

    method Done()
      modifies this, strm
      ensures !old(ok) ==> !ok && dataAvailable == old(dataAvailable) && strm.written == old(strm.written)
      ensures old(ok) ==> !dataAvailable
      ensures ok ==> strm.written == old(strm.written) + LAST
      ensures old(ok) && !ok ==> !strm.reliable
      ensures strm.written <= old(strm.written) + LAST
    {
      if !ok {
        return;
      }
      dataAvailable := false;
      var sent := WriteData(strm, LAST);
      if !sent {
        ok := false;
      }
    }
  }

  /** One operation on the sink. After an error it does nothing. */
  method Perform(sink: ChunkedSink, op: SinkOp)
    modifies sink, sink.strm
    ensures old(sink.ok) ==> sink.dataAvailable == LeavesMore([op])
    ensures sink.ok ==> sink.strm.written == old(sink.strm.written) + OpSends(op)
    ensures sink.strm.written <= old(sink.strm.written) + OpSends(op)
    ensures !sink.ok ==> !old(sink.ok) || !sink.strm.reliable
    ensures !old(sink.ok) ==> !sink.ok && sink.strm.written == old(sink.strm.written)
  {
    match op
    case SinkWrite(d) =>
      var r := sink.Write(d);
    case SinkDone =>
      sink.Done();
  }

  lemma SendsNext(sent: Bytes, ops: seq<SinkOp>, i: nat)
    requires i < |ops|
    ensures sent + OpsSend(ops[..i + 1]) == sent + OpsSend(ops[..i]) + OpSends(ops[i])
    ensures LeavesMore(ops[..i + 1]) == LeavesMore([ops[i]])
  {
    PrefixNext(ops, i);
    OpsSendNext(ops[..i], ops[i]);
    ConcatAssoc(sent, OpsSend(ops[..i]), OpSends(ops[i]));
  }

  /** One call of the content provider: it does what it does, even after an error. */
  method Provide(sink: ChunkedSink, call: Call) returns (goesOn: bool)
    modifies sink, sink.strm
    requires sink.ok && sink.dataAvailable
    ensures goesOn == call.goesOn
    ensures sink.ok ==> sink.dataAvailable == LeavesMore(call.ops)
    ensures sink.ok ==> sink.strm.written == old(sink.strm.written) + OpsSend(call.ops)
    ensures !sink.ok ==> !sink.strm.reliable
    ensures sink.strm.written <= old(sink.strm.written) + OpsSend(call.ops)
  {
    var i, ops := 0, call.ops;
    ghost var before := sink.strm.written;
    assert ops[..0] == [] && before + [] == before;
    while i < |ops|
      invariant i <= |ops|
      invariant sink.ok ==> sink.dataAvailable == LeavesMore(ops[..i])
      invariant sink.ok ==> sink.strm.written == before + OpsSend(ops[..i])
      invariant !sink.ok ==> !sink.strm.reliable
      invariant sink.strm.written <= before + OpsSend(ops[..i])
      decreases |ops| - i
    {
      SendsNext(before, ops, i);
      Perform(sink, ops[i]);
      i := i + 1;
    }
    assert ops[..|ops|] == ops;
    goesOn := call.goesOn;
  }

  lemma {:induction false} OpsSendNext(ops: seq<SinkOp>, op: SinkOp)
    ensures OpsSend(ops + [op]) == OpsSend(ops) + OpSends(op)
  {
    if ops == [] {
      assert [op][1..] == [] && OpSends(op) + [] == OpSends(op);
    } else {
      assert (ops + [op])[1..] == ops[1..] + [op];
      OpsSendNext(ops[1..], op);
      ConcatAssoc(OpSends(ops[0]), OpsSend(ops[1..]), OpSends(op));
    }
  }

  lemma {:induction false} OpsSendAll(ops: seq<SinkOp>, later: seq<SinkOp>)
    ensures OpsSend(ops + later) == OpsSend(ops) + OpsSend(later)
  {
    if ops == [] {
      assert [] + later == later;
    } else {
      assert (ops + later)[1..] == ops[1..] + later;
      OpsSendAll(ops[1..], later);
      ConcatAssoc(OpSends(ops[0]), OpsSend(ops[1..]), OpsSend(later));
    }
  }

  /** What is left to be sent, and the verdict, before and after a call. */
  lemma SentByCall(calls: seq<Call>, i: nat, sent: Bytes)
    requires i < |calls|
    ensures var now, all := sent + OpsSend(calls[i].ops), sent + Sent(calls[i..]);
      && now <= all
      && all == if Continues(calls[i]) then now + Sent(calls[i + 1..]) else now
    ensures Verdict(calls[i..])
         == if !calls[i].goesOn then Canceled
            else if LeavesMore(calls[i].ops) then Verdict(calls[i + 1..]) else Success
  {
    var later := if Continues(calls[i]) then Executed(calls[i + 1..]) else [];
    assert calls[i..][0] == calls[i] && calls[i..][1..] == calls[i + 1..];
    OpsSendAll(calls[i].ops, later);
    ConcatAssoc(sent, OpsSend(calls[i].ops), OpsSend(later));
  }

  /** The loop over a content provider. The server is shutting down once the calls are used up. */
  method ProvideAll(sink: ChunkedSink, calls: seq<Call>) returns (error: Error)
    requires sink.ok && sink.dataAvailable
    modifies sink, sink.strm
    ensures error == Success || sink.strm.reliable ==> error == Verdict(calls)
    ensures error == Success || sink.strm.reliable ==> sink.strm.written == old(sink.strm.written) + Sent(calls)
    ensures sink.strm.written <= old(sink.strm.written) + Sent(calls)
  {
    var i := 0;
    ghost var all, verdict := sink.strm.written + Sent(calls), Verdict(calls);
    assert calls[0..] == calls;
    while sink.dataAvailable && i < |calls|
      invariant sink.ok && i <= |calls|
      invariant sink.dataAvailable ==> sink.strm.written + Sent(calls[i..]) == all && verdict == Verdict(calls[i..])
      invariant !sink.dataAvailable ==> sink.strm.written == all && verdict == Success
      decreases |calls| - i
    {
      SentByCall(calls, i, sink.strm.written);
      var goesOn := Provide(sink, calls[i]);
      if !goesOn {
        return Canceled;
      }
      if !sink.ok {
        return WriteError;
      }
      i := i + 1;
    }
    NothingLeft(calls, i, sink.strm.written);
    error := Success;
  }

  lemma NothingLeft(calls: seq<Call>, i: nat, sent: Bytes)
    requires i <= |calls|
    ensures i == |calls| ==> sent + Sent(calls[i..]) == sent && Verdict(calls[i..]) == Success
  {
    if i == |calls| {
      assert calls[i..] == [] && sent + [] == sent;
    }
  }

  /** The chunked writer. A stream that fails has taken a beginning of what was to be sent. */
  method WriteContentChunked(strm: OutStream, calls: seq<Call>) returns (error: Error)
    modifies strm
    ensures error == Success || strm.reliable ==> error == Verdict(calls)
    ensures error == Success || strm.reliable ==> strm.written == old(strm.written) + Sent(calls)
    ensures strm.written <= old(strm.written) + Sent(calls)
  {
    var sink := new ChunkedSink(strm);
    error := ProvideAll(sink, calls);
  }

  /** A whole transfer between reliable streams: any grouping of the writes into calls, any short
      writes, any short reads. */
  method Transfer(calls: seq<Call>, data: seq<Bytes>, takes: seq<int>, gives: seq<int>, behind: Bytes)
    returns (error: Error, ok: bool, body: Bytes, rest: Bytes)
    requires AllOps(calls) == Writes(data) + [SinkDone] && forall call :: call in calls ==> call.goesOn
    requires forall d :: d in data ==> 0 < |d| < ULONG_MAX
    ensures error == Success && ok && body == Joined(data) && rest == behind
  {
    var wire := new OutStream(takes, true);
    error := WriteContentChunked(wire, calls);
    assert [] + Sent(calls) == Sent(calls);
    RoundTrip(calls, data, behind);
    var strm := new InStream(wire.written + behind, gives, true);
    var out := new Receiver([], true);
    ok := ReadContentChunked(strm, out);
    body, rest := out.got, strm.rest;
  }
}
