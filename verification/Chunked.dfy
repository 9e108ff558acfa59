/** Chunked transfer coding (section 4.1 of RFC 7230) as httplib.cpp writes and reads it: what goes
    over the wire, and what a reader makes of any bytes at all. */
module Chunked {
  import opened Common
  import opened Strtoul

  const CR: byte := 13
  const LF: byte := 10
  const CRLF: Bytes := [13, 10]

  // ----- numbers on the wire ------------------------------------------------------------------

  function LowHexDigit(d: nat): byte
    requires d < 16
  {
    if d < 10 then 48 + d else 97 + d - 10
  }

  function ToHex(n: nat): (h: Bytes)
    ensures h != []
  {
    if n < 16 then [LowHexDigit(n)] else ToHex(n / 16) + [LowHexDigit(n % 16)]
  }

  // ----- lines --------------------------------------------------------------------------------

  /** The length of the first line with its line feed; all of a text that has none. */
  function LineLength(s: Bytes): (n: nat)
    ensures n <= |s| && (s != [] ==> n > 0)
  {
    if s == [] then 0 else if s[0] == LF then 1 else 1 + LineLength(s[1..])
  }

  /** What a C string function sees of a buffer. */
  function UpToNul(s: Bytes): Bytes {
    if s == [] || s[0] == 0 then [] else [s[0]] + UpToNul(s[1..])
  }

  // ----- the reader ---------------------------------------------------------------------------

  /** The verdict, the body delivered so far, and what has not been consumed. */
  datatype Outcome = Outcome(ok: bool, body: Bytes, rest: Bytes)

  /** From a chunk's header line: its data, the line end behind it, and so on. */
  function ReadChunks(header: Bytes, s: Bytes, body: Bytes): Outcome
    decreases |s|
  {
    var number := Strtoul16(UpToNul(header));
    if number.used == 0 || number.value == ULONG_MAX then Outcome(false, body, s)
    else if number.value == 0 then
      var n := LineLength(s);
      Outcome(n > 0 && UpToNul(s[..n]) == CRLF, body, s[n..])
    else if |s| < number.value then Outcome(false, body + s, [])
    else
      AfterData(s[number.value..], body + s[..number.value])
  }

  /** From behind the data of a chunk. A line end that is not one ends the body early, and successfully. */
  function AfterData(t: Bytes, body: Bytes): Outcome
    decreases |t|
  {
    var n := LineLength(t);
    var u := t[n..];
    if n == 0 then Outcome(false, body, u)
    else if UpToNul(t[..n]) != CRLF then Outcome(true, body, u)
    else if u == [] then Outcome(false, body, u)
    else ReadChunks(u[..LineLength(u)], u[LineLength(u)..], body)
  }

  function ReadChunked(s: Bytes): Outcome {
    if s == [] then Outcome(false, [], []) else ReadChunks(s[..LineLength(s)], s[LineLength(s)..], [])
  }

  // ----- the writer ---------------------------------------------------------------------------

  const LAST: Bytes := [48, 13, 10, 13, 10]

  function Chunk(d: Bytes): Bytes { ToHex(|d|) + CRLF + d + CRLF }

  /** What a content provider does to its sink. */
  datatype SinkOp = SinkWrite(data: Bytes) | SinkDone

  /** One call of a content provider: what it does to its sink, and what it returns. */
  datatype Call = Call(ops: seq<SinkOp>, goesOn: bool)

  datatype Error = Success | Canceled | WriteError

  function OpSends(op: SinkOp): Bytes {
    if op.SinkDone? then LAST else if op.data == [] then [] else Chunk(op.data)
  }

  function OpsSend(ops: seq<SinkOp>): Bytes {
    if ops == [] then [] else OpSends(ops[0]) + OpsSend(ops[1..])
  }

  /** Whether a call leaves `data_available` as it found it, true: only its last operation counts. */
  predicate LeavesMore(ops: seq<SinkOp>) {
    ops == [] || (ops[|ops| - 1].SinkWrite? && ops[|ops| - 1].data != [])
  }

  /** Whether another pass of the loop follows a call, as far as the provider is concerned. */
  predicate Continues(call: Call) { call.goesOn && LeavesMore(call.ops) }

  /** What the loop over the provider carries out. The server is shutting down behind the calls. */
  function Executed(calls: seq<Call>): seq<SinkOp> {
    if calls == [] then []
    else calls[0].ops + if Continues(calls[0]) then Executed(calls[1..]) else []
  }

  function Verdict(calls: seq<Call>): Error {
    if calls == [] then Success
    else if !calls[0].goesOn then Canceled
    else if !LeavesMore(calls[0].ops) then Success
    else Verdict(calls[1..])
  }

  /** What the writer's loop sends. */
  function Sent(calls: seq<Call>): Bytes { OpsSend(Executed(calls)) }

  /** Everything the provider means to send: the operations of all calls. */
  function AllOps(calls: seq<Call>): seq<SinkOp> {
    if calls == [] then [] else calls[0].ops + AllOps(calls[1..])
  }

  function Writes(data: seq<Bytes>): seq<SinkOp> { seq(|data|, i requires 0 <= i < |data| => SinkWrite(data[i])) }

  function Joined(data: seq<Bytes>): Bytes {
    if data == [] then [] else data[0] + Joined(data[1..])
  }

  /** The data of the writes before the first `done`, and what comes after it. */
  function BeforeDone(ops: seq<SinkOp>): Bytes {
    if ops == [] || ops[0].SinkDone? then [] else ops[0].data + BeforeDone(ops[1..])
  }

  function AfterDone(ops: seq<SinkOp>): seq<SinkOp> {
    if ops == [] then [] else if ops[0].SinkDone? then ops[1..] else AfterDone(ops[1..])
  }

  /** Some call that the loop gets to says `done`. */
  ghost predicate ReachesDone(calls: seq<Call>) {
    exists k: nat :: ReachedAt(calls, k)
  }

  predicate ReachedAt(calls: seq<Call>, k: nat) {
    k < |calls| && SinkDone in calls[k].ops && forall j :: 0 <= j < k ==> Continues(calls[j])
  }

  predicate SmallWrites(ops: seq<SinkOp>) {
    forall op :: op in ops && op.SinkWrite? ==> |op.data| < ULONG_MAX
  }

  // ----- the round trip -----------------------------------------------------------------------

  lemma {:induction false} HexDigits(n: nat)
    ensures forall d :: d in ToHex(n) ==> IsHex(d) && (48 <= d <= 57 || 97 <= d <= 102)
    ensures HexNumber(ToHex(n)) == n
    ensures n > 0 ==> ToHex(n)[0] != 48
  {
    if n >= 16 {
      HexDigits(n / 16);
      assert ToHex(n)[..|ToHex(n)| - 1] == ToHex(n / 16);
    }
  }

  lemma {:induction false} LineOf(p: Bytes, rest: Bytes)
    requires LF !in p
    ensures LineLength(p + [LF] + rest) == |p| + 1
  {
    var s := p + [LF] + rest;
    if p != [] {
      assert s[1..] == p[1..] + [LF] + rest;
      LineOf(p[1..], rest);
    }
  }

  lemma {:induction false} NoNul(s: Bytes)
    requires 0 !in s
    ensures UpToNul(s) == s
  {
    if s != [] {
      NoNul(s[1..]);
    }
  }

  /** The header line of a chunk gives its size back. */
  lemma ReadHeader(n: nat)
    requires n < ULONG_MAX
    ensures var h := ToHex(n) + CRLF;
      UpToNul(h) == h && Strtoul16(h) == Number(n, |ToHex(n)|)
  {
    HexDigits(n);
    NoNul(ToHex(n) + CRLF);
    PlainIs(ToHex(n), CRLF);
  }

  /** A header line is the first line of what it begins. */
  lemma HeaderLine(n: nat, rest: Bytes)
    ensures var s, k := ToHex(n) + CRLF + rest, |ToHex(n)| + 2;
      LineLength(s) == k && s[..k] == ToHex(n) + CRLF && s[k..] == rest
  {
    HexDigits(n);
    var p := ToHex(n) + [CR];
    LineOf(p, rest);
    assert ToHex(n) + CRLF + rest == p + [LF] + rest;
  }

  lemma EndLine(rest: Bytes)
    ensures var s := CRLF + rest;
      LineLength(s) == 2 && s[..2] == CRLF && s[2..] == rest && UpToNul(CRLF) == CRLF
  {
    LineOf([CR], rest);
    assert CRLF + rest == [CR] + [LF] + rest;
    NoNul(CRLF);
  }

  // ----- what was sent, read ------------------------------------------------------------------

  /** The reader at the beginning of a line, with the body it has so far. */
  function ReadOn(s: Bytes, body: Bytes): Outcome {
    if s == [] then Outcome(false, body, []) else ReadChunks(s[..LineLength(s)], s[LineLength(s)..], body)
  }

  /** Reading one chunk and going on. */
  lemma ReadChunk(d: Bytes, next: Bytes, body: Bytes)
    requires 0 < |d| < ULONG_MAX
    ensures ReadOn(Chunk(d) + next, body) == ReadOn(next, body + d)
  {
    var s := d + (CRLF + next);
    assert Chunk(d) + next == ToHex(|d|) + CRLF + s;
    HeaderLine(|d|, s);
    ReadHeader(|d|);
    EndLine(next);
    assert s[..|d|] == d && s[|d|..] == CRLF + next;
    assert AfterData(CRLF + next, body + d) == ReadOn(next, body + d);
    assert ReadChunks(ToHex(|d|) + CRLF, s, body) == AfterData(CRLF + next, body + d);
  }

  lemma ReadLast(rest: Bytes, body: Bytes)
    ensures ReadOn(LAST + rest, body) == Outcome(true, body, rest)
  {
    assert LAST + rest == ToHex(0) + CRLF + (CRLF + rest);
    HeaderLine(0, CRLF + rest);
    ReadHeader(0);
    EndLine(rest);
  }

  /** The reader of what any operations send. Behind the first `done` it leaves everything; without
      one it wants more. */
  lemma {:induction false} ReadOps(ops: seq<SinkOp>, rest: Bytes, body: Bytes)
    requires SmallWrites(ops)
    ensures ReadOn(OpsSend(ops) + rest, body)
         == if SinkDone in ops then Outcome(true, body + BeforeDone(ops), OpsSend(AfterDone(ops)) + rest)
            else ReadOn(rest, body + BeforeDone(ops))
  {
    if ops == [] {
      assert [] + rest == rest && body + [] == body;
    } else if ops[0].SinkDone? {
      ConcatAssoc(LAST, OpsSend(ops[1..]), rest);
      ReadLast(OpsSend(ops[1..]) + rest, body);
      assert body + [] == body;
    } else {
      var d, next := ops[0].data, OpsSend(ops[1..]) + rest;
      assert SinkDone in ops <==> SinkDone in ops[1..];
      ConcatAssoc(OpSends(ops[0]), OpsSend(ops[1..]), rest);
      ConcatAssoc(body, d, BeforeDone(ops[1..]));
      ReadOps(ops[1..], rest, body + d);
      if d == [] {
        assert [] + next == next && body + d == body;
      } else {
        ReadChunk(d, next, body);
      }
    }
  }

  lemma ReachedLater(calls: seq<Call>, k: nat)
    requires calls != []
    ensures ReachedAt(calls, k + 1) <==> Continues(calls[0]) && ReachedAt(calls[1..], k)
  {
    var rest := calls[1..];
    if k < |rest| {
      assert rest[k] == calls[k + 1];
      if ReachedAt(rest, k) && Continues(calls[0]) {
        forall j | 0 <= j < k + 1 ensures Continues(calls[j]) {
          assert j > 0 ==> calls[j] == rest[j - 1];
        }
      }
      if ReachedAt(calls, k + 1) {
        forall j | 0 <= j < k ensures Continues(rest[j]) {
          assert rest[j] == calls[j + 1];
        }
      }
    }
  }

  lemma {:induction false} DoneIsReached(calls: seq<Call>)
    ensures SinkDone in Executed(calls) <==> ReachesDone(calls)
  {
    if calls != [] {
      var rest := calls[1..];
      DoneIsReached(rest);
      assert SinkDone in calls[0].ops ==> ReachedAt(calls, 0);
      if Continues(calls[0]) && ReachesDone(rest) {
        var k: nat :| ReachedAt(rest, k);
        ReachedLater(calls, k);
      }
      if k: nat :| ReachedAt(calls, k) && SinkDone !in calls[0].ops {
        ReachedLater(calls, k - 1);
      }
    }
  }

  /** The calls that are made: the `n` that each go on with a write of some data, or with nothing, as
      their last operation, and the next one if there is any. Only a call that is refused is not a
      success. */
  lemma {:induction false} ExecutedUpTo(calls: seq<Call>, n: nat)
    requires n <= |calls|
    requires forall j :: 0 <= j < n ==> var ops := calls[j].ops;
      calls[j].goesOn && (ops == [] || (ops[|ops| - 1].SinkWrite? && ops[|ops| - 1].data != []))
    requires n < |calls| ==> var ops := calls[n].ops;
      !(calls[n].goesOn && (ops == [] || (ops[|ops| - 1].SinkWrite? && ops[|ops| - 1].data != [])))
    ensures Executed(calls) == AllOps(if n < |calls| then calls[..n + 1] else calls)
    ensures Verdict(calls) == if n < |calls| && !calls[n].goesOn then Canceled else Success
    decreases n
  {
    var made := if n < |calls| then calls[..n + 1] else calls;
    if n > 0 {
      assert made[1..] == if n - 1 < |calls[1..]| then calls[1..][..n] else calls[1..];
      ExecutedUpTo(calls[1..], n - 1);
    } else if calls != [] {
      assert made == [calls[0]] && made[1..] == [];
    }
  }

  /** What a provider sends is read successfully exactly when the loop gets to a call with a `done`. */
  lemma ReadableIff(calls: seq<Call>)
    requires SmallWrites(Executed(calls))
    ensures ReadChunked(Sent(calls)).ok <==> ReachesDone(calls)
  {
    ReadOps(Executed(calls), [], []);
    assert Sent(calls) + [] == Sent(calls);
    DoneIsReached(calls);
  }

  /** And then the reader delivers what was written before the first `done`. */
  lemma ReadsUpToDone(calls: seq<Call>, behind: Bytes)
    requires SmallWrites(Executed(calls)) && ReachesDone(calls)
    ensures ReadChunked(Sent(calls) + behind)
         == Outcome(true, BeforeDone(Executed(calls)), OpsSend(AfterDone(Executed(calls))) + behind)
  {
    DoneIsReached(calls);
    ReadOps(Executed(calls), behind, []);
    assert [] + BeforeDone(Executed(calls)) == BeforeDone(Executed(calls));
  }

  /** Calls of which only the very last operation can clear `data_available` are all carried out. */
  lemma {:induction false} AllExecuted(calls: seq<Call>)
    requires forall call :: call in calls ==> call.goesOn
    requires var ops := AllOps(calls); forall i :: 0 <= i < |ops| - 1 ==> ops[i].SinkWrite? && ops[i].data != []
    ensures Executed(calls) == AllOps(calls) && Verdict(calls) == Success
  {
    if calls != [] {
      var ops, later := calls[0].ops, AllOps(calls[1..]);
      assert AllOps(calls) == ops + later;
      assert forall i :: 0 <= i < |later| ==> later[i] == AllOps(calls)[|ops| + i];
      if LeavesMore(ops) {
        AllExecuted(calls[1..]);
      } else {
        assert AllOps(calls)[|ops| - 1] == ops[|ops| - 1];
        assert later == [];
      }
    }
  }

  lemma {:induction false} WritesThenDone(data: seq<Bytes>)
    ensures var ops := Writes(data) + [SinkDone];
      BeforeDone(ops) == Joined(data) && AfterDone(ops) == []
  {
    var ops := Writes(data) + [SinkDone];
    if data == [] {
      assert ops == [SinkDone];
    } else {
      assert ops[1..] == Writes(data[1..]) + [SinkDone];
      WritesThenDone(data[1..]);
    }
  }

  /** Non-empty writes and a `done`, however they are grouped into calls, arrive as one body, and
      nothing behind them is consumed. */
  lemma RoundTrip(calls: seq<Call>, data: seq<Bytes>, behind: Bytes)
    requires AllOps(calls) == Writes(data) + [SinkDone] && forall call :: call in calls ==> call.goesOn
    requires forall d :: d in data ==> 0 < |d| < ULONG_MAX
    ensures Verdict(calls) == Success
    ensures ReadChunked(Sent(calls) + behind) == Outcome(true, Joined(data), behind)
  {
    AllExecuted(calls);
    WritesThenDone(data);
    DoneIsReached(calls);
    assert AllOps(calls)[|data|] == SinkDone;
    ReadsUpToDone(calls, behind);
    assert OpsSend([]) + behind == behind;
  }

  /** An empty write that a call ends with stops the loop: the body stays without its last chunk
      although no error is reported, and the `done` that was to follow is not asked for. */
  lemma EmptyWriteStops(d: Bytes)
    requires 0 < |d| < ULONG_MAX
    ensures var calls := [Call([SinkWrite(d)], true), Call([SinkWrite([])], true), Call([SinkDone], true)];
      Verdict(calls) == Success && !ReadChunked(Sent(calls)).ok
  {
    var calls := [Call([SinkWrite(d)], true), Call([SinkWrite([])], true), Call([SinkDone], true)];
    assert !Continues(calls[1]);
    ReadableIff(calls);
  }

  /** An empty write that another operation of its call follows does no harm. */
  lemma EmptyWriteAmongOthers(d: Bytes)
    requires 0 < |d| < ULONG_MAX
    ensures var calls := [Call([SinkWrite(d), SinkWrite([]), SinkDone], true)];
      ReadChunked(Sent(calls)) == Outcome(true, d, [])
  {
    var ops := [SinkWrite(d), SinkWrite([]), SinkDone];
    var calls := [Call(ops, true)];
    assert SinkDone in calls[0].ops && ReachedAt(calls, 0);
    assert Executed(calls) == ops;
    ReadsUpToDone(calls, []);
    assert ops[1..] == [SinkWrite([]), SinkDone] && ops[1..][1..] == [SinkDone];
    assert BeforeDone([SinkWrite([]), SinkDone]) == [] + BeforeDone([SinkDone]);
    assert BeforeDone(ops) == d + [] == d;
    assert AfterDone(ops) == AfterDone([SinkDone]) == [];
    assert Sent(calls) + [] == Sent(calls);
  }
}
