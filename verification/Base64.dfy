/** The base64 encoder of httplib.cpp against section 4 of RFC 4648. */
module Base64 {
  import opened Common

  const UPPER: string := "ABCDEFGHIJKLMNOPQRSTUVWXYZ"
  const LOWER: string := "abcdefghijklmnopqrstuvwxyz"
  const REST: string := "0123456789+/"
  const LOOKUP: Alphabet := UPPER + LOWER + REST

  type Alphabet = s: string | |s| == 64 witness seq(64, _ => 'A')

  // ----- the register -----------------------------------------------------------------------

  /** What an `int` of 32 bits keeps of a mathematical value. */
  function Int32(x: int): int { (x + 0x8000_0000) % 0x1_0000_0000 - 0x8000_0000 }

  function Pow2(k: nat): nat
    ensures Pow2(k) > 0
  {
    if k == 0 then 1 else 2 * Pow2(k - 1)
  }

  /** `(val >> k) & 0x3F`: the shift rounds down, and the mask keeps six bits. */
  function Sextet(val: int, k: nat): (x: nat)
    ensures x < 64
  {
    val / Pow2(k) % 64
  }

  /** What the inner loop writes from the register when `bits` says where its next sextet starts. */
  function Emitted(L: Alphabet, val: int, bits: int): string
    decreases bits + 6
  {
    if bits < 0 then "" else [L[Sextet(val, bits)]] + Emitted(L, val, bits - 6)
  }

  // ----- groups of three bytes --------------------------------------------------------------

  /** The four symbols of a 24-bit group. */
  function Group(L: Alphabet, a: byte, b: byte, c: byte): string {
    var n := a * 65536 + b * 256 + c;
    [L[n / 262144], L[n / 4096 % 64], L[n / 64 % 64], L[n % 64]]
  }

  /** The encoding: groups of three bytes; a last group that is short is filled with zero bits and
      its missing symbols are padding. */
  function Encode(L: Alphabet, s: seq<byte>): string {
    if |s| == 0 then ""
    else if |s| == 1 then Group(L, s[0], 0, 0)[..2] + "=="
    else if |s| == 2 then Group(L, s[0], s[1], 0)[..3] + "="
    else Group(L, s[0], s[1], s[2]) + Encode(L, s[3..])
  }

  lemma GroupParts(a: byte, b: byte, c: byte)
    ensures var n := a * 65536 + b * 256 + c;
      && n / 262144 == a / 4
      && n / 4096 % 64 == a % 4 * 16 + b / 16
      && n / 64 % 64 == b % 16 * 4 + c / 64
      && n % 64 == c % 64
  {
    var n := a * 65536 + b * 256 + c;
    var a1, a0, b1, b0, c1, c0 := a / 4, a % 4, b / 16, b % 16, c / 64, c % 64;
    assert n == 262144 * a1 + 65536 * a0 + 4096 * b1 + 256 * b0 + 64 * c1 + c0;
    Quotient(n, 262144, a1, 65536 * a0 + 4096 * b1 + 256 * b0 + 64 * c1 + c0);
    Quotient(n, 4096, 64 * a1 + 16 * a0 + b1, 256 * b0 + 64 * c1 + c0);
    Quotient(64 * a1 + 16 * a0 + b1, 64, a1, 16 * a0 + b1);
    Quotient(n, 64, 4096 * a1 + 1024 * a0 + 64 * b1 + 4 * b0 + c1, c0);
    Quotient(4096 * a1 + 1024 * a0 + 64 * b1 + 4 * b0 + c1, 64, 64 * a1 + 16 * a0 + b1, 4 * b0 + c1);
  }

  lemma GroupSymbols(L: Alphabet, a: byte, b: byte, c: byte)
    ensures Group(L, a, b, c) == [L[a / 4], L[a % 4 * 16 + b / 16], L[b % 16 * 4 + c / 64], L[c % 64]]
  {
    GroupParts(a, b, c);
  }

  lemma {:induction false} EncodeAppend(L: Alphabet, p: seq<byte>, q: seq<byte>)
    requires |p| % 3 == 0
    ensures Encode(L, p + q) == Encode(L, p) + Encode(L, q)
    decreases |p|
  {
    if p == [] {
      assert p + q == q;
    } else {
      assert (p + q)[3..] == p[3..] + q;
      EncodeAppend(L, p[3..], q);
      ConcatAssoc(Group(L, p[0], p[1], p[2]), Encode(L, p[3..]), Encode(L, q));
    }
  }

  lemma {:induction false} EncodedLength(L: Alphabet, s: seq<byte>)
    ensures |Encode(L, s)| == 4 * ((|s| + 2) / 3)
    decreases |s|
  {
    if |s| >= 3 {
      EncodedLength(L, s[3..]);
      assert (|s| + 2) / 3 == (|s| - 3 + 2) / 3 + 1;
    }
  }

  lemma FourMore(n: nat)
    ensures (4 + n) % 4 == n % 4
  {
  }

  lemma {:induction false} EncodedInFours(L: Alphabet, s: seq<byte>)
    ensures |Encode(L, s)| % 4 == 0
    decreases |s|
  {
    if |s| >= 3 {
      EncodedInFours(L, s[3..]);
      FourMore(|Encode(L, s[3..])|);
    }
  }

  // ----- the encoder ------------------------------------------------------------------------

  /** The symbols written for a group of which only one or two bytes have been read. */
  function Partial(L: Alphabet, p: seq<byte>): string
    requires |p| < 3
  {
    if |p| == 0 then ""
    else if |p| == 1 then [L[p[0] / 4]]
    else [L[p[0] / 4], L[p[0] % 4 * 16 + p[1] / 16]]
  }

  /** The groups of a text that are complete, and the bytes after them. */
  function Done(s: seq<byte>): seq<byte> { s[..|s| - |s| % 3] }

  function Waiting(s: seq<byte>): seq<byte> { s[|s| - |s| % 3..] }

  function Written(L: Alphabet, s: seq<byte>): string {
    Encode(L, Done(s)) + Partial(L, Waiting(s))
  }

  /** The value of `valb` between two bytes. */
  function Resting(n: nat): int {
    if n % 3 == 0 then -6 else if n % 3 == 1 then -4 else -2
  }

  lemma NextResting(n: nat)
    ensures Resting(n + 1) == if n % 3 == 2 then -6 else Resting(n) + 2
  {
  }

  /** Where the register stands after the bytes `s`: its low `valb + 6` bits, at most four, wait to
      be written, and they are the low bits of the last byte. */
  predicate Register(s: seq<byte>, val: int, valb: int) {
    && valb == Resting(|s|)
    && (s != [] ==> val % 256 == s[|s| - 1])
  }

  /** Shifting a byte in keeps the four bits before it, whatever the register has lost on top. */
  lemma PushByte(val: int, c: byte)
    ensures var w := Int32(val * 256) + c;
      w % 256 == c && w % 4096 == val % 16 * 256 + c
  {
    var w := Int32(val * 256) + c;
    var k := (val * 256 + 0x8000_0000) / 0x1_0000_0000;
    assert w == val * 256 - k * 0x1_0000_0000 + c;
    Quotient(w, 256, val - k * 0x100_0000, c);
    Quotient(w, 4096, val / 16 - k * 0x10_0000, val % 16 * 256 + c);
  }

  lemma EmitOne(L: Alphabet, val: int, c: byte)
    requires val % 256 == c
    ensures Emitted(L, val, 2) == [L[c / 4]]
  {
    assert Pow2(2) == 4;
    var k := val / 256;
    Quotient(val, 4, 64 * k + c / 4, c % 4);
    Quotient(64 * k + c / 4, 64, k, c / 4);
  }

  /** The sextet that holds the low bits of `p` and the high bits of `c`. */
  lemma MiddleSextet(val: int, p: byte, c: byte)
    requires val % 4096 == p % 16 * 256 + c
    ensures val / 16 % 64 == p % 4 * 16 + c / 16
    ensures val / 64 % 64 == p % 16 * 4 + c / 64
    ensures val % 64 == c % 64
  {
    var k, pl := val / 4096, p % 16;
    assert val == 4096 * k + 256 * pl + c;
    Quotient(pl, 4, pl / 4, pl % 4);
    Quotient(p, 4, 4 * (p / 16) + pl / 4, pl % 4);
    Quotient(val, 16, 256 * k + 16 * pl + c / 16, c % 16);
    Quotient(256 * k + 16 * pl + c / 16, 64, 4 * k + pl / 4, pl % 4 * 16 + c / 16);
    Quotient(val, 64, 64 * k + 4 * pl + c / 64, c % 64);
    Quotient(64 * k + 4 * pl + c / 64, 64, k, 4 * pl + c / 64);
  }

  lemma EmitTwo(L: Alphabet, val: int, p: byte, c: byte)
    requires val % 4096 == p % 16 * 256 + c
    ensures Emitted(L, val, 4) == [L[p % 4 * 16 + c / 16]]
  {
    assert Pow2(4) == 16;
    MiddleSextet(val, p, c);
  }

  lemma EmitThree(L: Alphabet, val: int, p: byte, c: byte)
    requires val % 4096 == p % 16 * 256 + c
    ensures Emitted(L, val, 6) == [L[p % 16 * 4 + c / 64], L[c % 64]]
  {
    assert Pow2(6) == 64 && Pow2(0) == 1;
    MiddleSextet(val, p, c);
    assert Emitted(L, val, 0) == [L[c % 64]];
  }

  /** A byte that does not complete its group waits behind those of its group. */
  lemma GroupGrows(s: seq<byte>, c: byte)
    requires |s| % 3 < 2
    ensures Done(s + [c]) == Done(s) && Waiting(s + [c]) == Waiting(s) + [c]
  {
    Quotient(|s| + 1, 3, |s| / 3, |s| % 3 + 1);
    SplitGrows(s, c, |s| - |s| % 3);
  }

  lemma SplitGrows(s: seq<byte>, c: byte, n: nat)
    requires n <= |s|
    ensures (s + [c])[..n] == s[..n] && (s + [c])[n..] == s[n..] + [c]
  {
  }

  lemma FirstOfGroup(L: Alphabet, s: seq<byte>, c: byte)
    requires |s| % 3 == 0
    ensures Written(L, s + [c]) == Written(L, s) + [L[c / 4]]
  {
    GroupGrows(s, c);
    assert Waiting(s) == [] && Waiting(s + [c]) == [c];
    assert Partial(L, []) == "" && Partial(L, [c]) == [L[c / 4]];
  }

  lemma SecondOfGroup(L: Alphabet, s: seq<byte>, p: byte, c: byte)
    requires |s| % 3 == 1 && s[|s| - 1] == p
    ensures Written(L, s + [c]) == Written(L, s) + [L[p % 4 * 16 + c / 16]]
  {
    GroupGrows(s, c);
    assert Waiting(s) == [p] && Waiting(s + [c]) == [p, c];
    ConcatAssoc(Encode(L, Done(s)), [L[p / 4]], [L[p % 4 * 16 + c / 16]]);
  }

  lemma ThirdOfGroup(L: Alphabet, s: seq<byte>, o: byte, p: byte, c: byte)
    requires |s| % 3 == 2 && s[|s| - 2] == o && s[|s| - 1] == p
    ensures Written(L, s + [c]) == Written(L, s) + [L[p % 16 * 4 + c / 64], L[c % 64]]
  {
    var t := s + [c];
    assert Waiting(s) == [o, p] && t == Done(s) + [o, p, c] && Done(t) == t && Waiting(t) == [];
    EncodeAppend(L, Done(s), [o, p, c]);
    assert Encode(L, [o, p, c]) == Group(L, o, p, c);
    GroupSymbols(L, o, p, c);
    ConcatAssoc(Encode(L, Done(s)), Partial(L, [o, p]), [L[p % 16 * 4 + c / 64], L[c % 64]]);
  }

  /** One byte more: the register takes it. */
  lemma RegisterNext(s: seq<byte>, c: byte, val: int, valb: int)
    requires Register(s, val, valb)
    ensures Register(s + [c], Int32(val * 256) + c, Resting(|s| + 1))
    ensures valb + 8 == Resting(|s| + 1) + 6 || valb + 8 == Resting(|s| + 1) + 12
  {
    PushByte(val, c);
    NextResting(|s|);
    assert (s + [c])[|s|] == c && |s + [c]| == |s| + 1;
  }

  lemma TakeFirst(L: Alphabet, s: seq<byte>, c: byte, w: int)
    requires |s| % 3 == 0 && w % 256 == c
    ensures Written(L, s) + Emitted(L, w, 2) == Written(L, s + [c])
  {
    EmitOne(L, w, c);
    FirstOfGroup(L, s, c);
  }

  lemma TakeSecond(L: Alphabet, s: seq<byte>, p: byte, c: byte, w: int)
    requires |s| % 3 == 1 && s[|s| - 1] == p && w % 4096 == p % 16 * 256 + c
    ensures Written(L, s) + Emitted(L, w, 4) == Written(L, s + [c])
  {
    EmitTwo(L, w, p, c);
    SecondOfGroup(L, s, p, c);
  }

  lemma TakeThird(L: Alphabet, s: seq<byte>, o: byte, p: byte, c: byte, w: int)
    requires |s| % 3 == 2 && s[|s| - 2] == o && s[|s| - 1] == p && w % 4096 == p % 16 * 256 + c
    ensures Written(L, s) + Emitted(L, w, 6) == Written(L, s + [c])
  {
    EmitThree(L, w, p, c);
    ThirdOfGroup(L, s, o, p, c);
  }

  lemma LowBits(val: int, p: byte)
    requires val % 256 == p
    ensures val % 16 == p % 16
  {
    Quotient(val, 16, 16 * (val / 256) + p / 16, p % 16);
  }

  /** The symbols written stay in step with the groups. */
  lemma TakeByte(L: Alphabet, s: seq<byte>, c: byte, val: int, valb: int)
    requires Register(s, val, valb)
    ensures Written(L, s) + Emitted(L, Int32(val * 256) + c, valb + 8) == Written(L, s + [c])
  {
    var w := Int32(val * 256) + c;
    PushByte(val, c);
    if |s| % 3 == 0 {
      TakeFirst(L, s, c, w);
    } else {
      LowBits(val, s[|s| - 1]);
      if |s| % 3 == 1 {
        TakeSecond(L, s, s[|s| - 1], c, w);
      } else {
        TakeThird(L, s, s[|s| - 2], s[|s| - 1], c, w);
      }
    }
  }

  /** The symbol after the last byte, if bits are left, and the padding. */
  function LastSymbol(L: Alphabet, val: int, valb: int): string {
    if -6 < valb < 0 then [L[Sextet(Int32(val * 256), valb + 8)]] else ""
  }

  function Padding(valb: int): string {
    if valb == -6 then "" else if valb == -4 then "==" else "="
  }

  /** The two sextets that can be left in the register at the end. */
  lemma LeftInRegister(L: Alphabet, val: int, valb: int, c: byte)
    requires val % 256 == c
    ensures valb == -4 ==> LastSymbol(L, val, valb) == [L[c % 4 * 16]]
    ensures valb == -2 ==> LastSymbol(L, val, valb) == [L[c % 16 * 4]]
  {
    var w := Int32(val * 256);
    PushByte(val, 0);
    Quotient(val, 16, 16 * (val / 256) + c / 16, c % 16);
    MiddleSextet(w, c, 0);
    assert Pow2(4) == 16 && Pow2(6) == 64;
  }

  lemma EncodeOne(L: Alphabet, c: byte)
    ensures Encode(L, [c]) == Partial(L, [c]) + ([L[c % 4 * 16]] + "==")
  {
    GroupSymbols(L, c, 0, 0);
  }

  lemma EncodeTwo(L: Alphabet, b: byte, c: byte)
    ensures Encode(L, [b, c]) == Partial(L, [b, c]) + ([L[c % 16 * 4]] + "=")
  {
    GroupSymbols(L, b, c, 0);
  }

  /** A text that ends in the middle of a group. */
  lemma EncodeLast(L: Alphabet, s: seq<byte>, end: string)
    requires Encode(L, Waiting(s)) == Partial(L, Waiting(s)) + end
    ensures Encode(L, s) == Written(L, s) + end
  {
    assert s == Done(s) + Waiting(s);
    EncodeAppend(L, Done(s), Waiting(s));
    ConcatAssoc(Encode(L, Done(s)), Partial(L, Waiting(s)), end);
  }

  lemma OneWaits(s: seq<byte>, c: byte)
    requires |s| % 3 == 1 && s[|s| - 1] == c
    ensures Waiting(s) == [c]
  {
  }

  lemma TwoWait(s: seq<byte>, b: byte, c: byte)
    requires |s| % 3 == 2 && s[|s| - 2] == b && s[|s| - 1] == c
    ensures Waiting(s) == [b, c]
  {
  }

  lemma ShortOfOne(L: Alphabet, s: seq<byte>, c: byte)
    requires |s| % 3 == 1 && s[|s| - 1] == c
    ensures Encode(L, s) == Written(L, s) + ([L[c % 4 * 16]] + "==")
  {
    OneWaits(s, c);
    EncodeOne(L, c);
    EncodeLast(L, s, [L[c % 4 * 16]] + "==");
  }

  lemma ShortOfTwo(L: Alphabet, s: seq<byte>, b: byte, c: byte)
    requires |s| % 3 == 2 && s[|s| - 2] == b && s[|s| - 1] == c
    ensures Encode(L, s) == Written(L, s) + ([L[c % 16 * 4]] + "=")
  {
    TwoWait(s, b, c);
    EncodeTwo(L, b, c);
    EncodeLast(L, s, [L[c % 16 * 4]] + "=");
  }

  lemma FinishWhole(L: Alphabet, s: seq<byte>)
    requires |s| % 3 == 0
    ensures Encode(L, s) == Written(L, s)
  {
    assert Done(s) == s && Waiting(s) == [];
    assert Partial(L, []) == "";
  }

  lemma FinishShort(L: Alphabet, s: seq<byte>, val: int, valb: int)
    requires Register(s, val, valb) && |s| % 3 != 0
    ensures Encode(L, s) == Written(L, s) + (LastSymbol(L, val, valb) + Padding(valb))
  {
    var c := s[|s| - 1];
    LeftInRegister(L, val, valb, c);
    if |s| % 3 == 1 {
      ShortOfOne(L, s, c);
    } else {
      ShortOfTwo(L, s, s[|s| - 2], c);
    }
  }

  lemma Finish(L: Alphabet, s: seq<byte>, val: int, valb: int)
    requires Register(s, val, valb)
    ensures Encode(L, s) == Written(L, s) + (LastSymbol(L, val, valb) + Padding(valb))
  {
    if |s| % 3 == 0 {
      FinishWhole(L, s);
    } else {
      FinishShort(L, s, val, valb);
    }
  }

  /** Fills a text up to a multiple of four symbols. */
  method Pad(out: string, ghost whole: string, ghost padding: string) returns (r: string)
    requires out + padding == whole && |whole| % 4 == 0
    requires padding == "" || padding == "=" || padding == "=="
    ensures r == whole
  {
    r := out;
    ghost var rest := padding;
    while |r| % 4 != 0
      invariant rest == "" || rest == "=" || rest == "=="
      invariant r + rest == whole
      decreases |rest|
    {
      r := r + "=";
      rest := rest[1..];
    }
  }

  /** The inner loop: writes every whole sextet of the register. */
  method WriteSextets(L: Alphabet, out: string, val: int, bits: int, ghost low: int) returns (r: string, valb: int)
    requires -6 <= low < 0 && (bits == low + 6 || bits == low + 12)
    ensures r == out + Emitted(L, val, bits) && valb == low
  {
    r, valb := out, bits;
    while valb >= 0
      invariant valb == low || valb == low + 6 || valb == low + 12
      invariant r + Emitted(L, val, valb) == out + Emitted(L, val, bits)
    {
      ConcatAssoc(r, [L[Sextet(val, valb)]], Emitted(L, val, valb - 6));
      r := r + [L[Sextet(val, valb)]];
      valb := valb - 6;
    }
    assert r + "" == r;
  }

  lemma ByteIsTaken(L: Alphabet, read: seq<byte>, c: byte, out: string, val: int, valb: int)
    requires Register(read, val, valb) && out == Written(L, read)
    ensures var w, low := Int32(val * 256) + c, Resting(|read| + 1);
      && Register(read + [c], w, low) && -6 <= low < 0
      && (valb + 8 == low + 6 || valb + 8 == low + 12)
      && out + Emitted(L, w, valb + 8) == Written(L, read + [c])
  {
    TakeByte(L, read, c, val, valb);
    RegisterNext(read, c, val, valb);
  }

  /** The body of the outer loop: one byte goes into the register. */
  method EncodeByte(L: Alphabet, ghost read: seq<byte>, c: byte, out: string, val: int, valb: int)
    returns (r: string, w: int, low: int)
    requires Register(read, val, valb) && out == Written(L, read)
    ensures Register(read + [c], w, low) && r == Written(L, read + [c])
  {
    ByteIsTaken(L, read, c, out, val, valb);
    w := Int32(val * 256) + c;
    r, low := WriteSextets(L, out, w, valb + 8, Resting(|read| + 1));
  }

  method EncodeBytes(L: Alphabet, s: seq<byte>) returns (out: string, val: int, valb: int)
    ensures Register(s, val, valb) && out == Written(L, s)
  {
    out, val, valb := "", 0, -6;
    for i := 0 to |s|
      invariant Register(s[..i], val, valb) && out == Written(L, s[..i])
    {
      PrefixNext(s, i);
      out, val, valb := EncodeByte(L, s[..i], s[i], out, val, valb);
    }
    assert s[..|s|] == s;
  }

  /** The encoder, over its own alphabet or any other. */
  method Base64Encode(L: Alphabet, s: seq<byte>) returns (out: string)
    ensures out == Encode(L, s)
  {
    var val, valb;
    out, val, valb := EncodeBytes(L, s);
    Finish(L, s, val, valb);
    EncodedInFours(L, s);
    ConcatAssoc(out, LastSymbol(L, val, valb), Padding(valb));
    if valb > -6 {
      out := out + [L[Sextet(Int32(val * 256), valb + 8)]];
    }
    out := Pad(out, Encode(L, s), Padding(valb));
  }

  // ----- decoding ---------------------------------------------------------------------------

  /** The value of a symbol, from the ranges of the alphabet. */
  function Index(c: char): nat {
    if 'A' <= c <= 'Z' then c as int - 'A' as int
    else if 'a' <= c <= 'z' then c as int - 'a' as int + 26
    else if '0' <= c <= '9' then c as int - '0' as int + 52
    else if c == '+' then 62
    else if c == '/' then 63
    else 64
  }

  /** The alphabet of the standard, in its order. */
  lemma LookupIs()
    ensures LOOKUP == "ABCDEFGHIJKLMNOPQRSTUVWXYZabcdefghijklmnopqrstuvwxyz0123456789+/"
  {
  }

  lemma IndexOfUpper(k: nat)
    requires k < 26
    ensures Index(UPPER[k]) == k && UPPER[k] != '='
  {
  }

  lemma IndexOfLower(k: nat)
    requires k < 26
    ensures Index(LOWER[k]) == k + 26 && LOWER[k] != '='
  {
  }

  lemma IndexOfRest(k: nat)
    requires k < 12
    ensures Index(REST[k]) == k + 52 && REST[k] != '='
  {
  }

  lemma IndexOfLookup(k: nat)
    requires k < 64
    ensures Index(LOOKUP[k]) == k && LOOKUP[k] != '='
  {
    if k < 26 {
      IndexOfUpper(k);
    } else if k < 52 {
      IndexOfLower(k - 26);
      assert LOOKUP[k] == LOWER[k - 26];
    } else {
      IndexOfRest(k - 52);
      assert LOOKUP[k] == REST[k - 52];
    }
  }

  /** The three bytes that four symbol values stand for. */
  function Bytes(a: nat, b: nat, c: nat, d: nat): seq<int> {
    [a * 4 + b / 16, b % 16 * 16 + c / 4, c % 4 * 64 + d]
  }

  function Decode(t: string): seq<int> {
    if |t| < 4 then []
    else
      var bytes := Bytes(Index(t[0]), Index(t[1]), Index(t[2]), Index(t[3]));
      if t[2] == '=' then bytes[..1]
      else if t[3] == '=' then bytes[..2]
      else bytes + Decode(t[4..])
  }

  lemma BytesOfSextets(a: byte, b: byte, c: byte)
    ensures Bytes(a / 4, a % 4 * 16 + b / 16, b % 16 * 4 + c / 64, c % 64) == [a, b, c]
  {
    Quotient(a % 4 * 16 + b / 16, 16, a % 4, b / 16);
    Quotient(b % 16 * 4 + c / 64, 4, b % 16, c / 64);
  }

  /** The first two bytes do not depend on the symbols that a short group leaves out. */
  lemma ShortBytes(a: byte, b: byte, x: nat, y: nat)
    ensures Bytes(a / 4, a % 4 * 16, x, y)[0] == a
    ensures Bytes(a / 4, a % 4 * 16 + b / 16, b % 16 * 4, y)[..2] == [a, b]
  {
    Quotient(a % 4 * 16 + b / 16, 16, a % 4, b / 16);
    Quotient(a % 4 * 16, 16, a % 4, 0);
    Quotient(b % 16 * 4, 4, b % 16, 0);
  }

  /** The values of the symbols are their places in the alphabet, and padding is none of them. */
  ghost predicate Readable(L: Alphabet) {
    forall k :: 0 <= k < 64 ==> Index(L[k]) == k && L[k] != '='
  }

  lemma IndexGroup(L: Alphabet, a: byte, b: byte, c: byte)
    requires Readable(L)
    ensures var g := Group(L, a, b, c);
      && Index(g[0]) == a / 4 && Index(g[1]) == a % 4 * 16 + b / 16
      && Index(g[2]) == b % 16 * 4 + c / 64 && Index(g[3]) == c % 64
      && g[2] != '=' && g[3] != '='
  {
    GroupSymbols(L, a, b, c);
  }

  lemma DecodeThree(L: Alphabet, a: byte, b: byte, c: byte, t: string)
    requires Readable(L)
    ensures Decode(Group(L, a, b, c) + t) == [a, b, c] + Decode(t)
  {
    IndexGroup(L, a, b, c);
    BytesOfSextets(a, b, c);
    assert (Group(L, a, b, c) + t)[4..] == t;
  }

  lemma DecodeTwo(L: Alphabet, a: byte, b: byte)
    requires Readable(L)
    ensures Decode(Group(L, a, b, 0)[..3] + "=") == [a, b]
  {
    IndexGroup(L, a, b, 0);
    ShortBytes(a, b, 0, Index('='));
  }

  lemma DecodeOne(L: Alphabet, a: byte)
    requires Readable(L)
    ensures Decode(Group(L, a, 0, 0)[..2] + "==") == [a]
  {
    IndexGroup(L, a, 0, 0);
    ShortBytes(a, 0, Index('='), Index('='));
  }

  /** Decoding an encoded text gives the bytes back, whatever their number. */
  lemma {:induction false} RoundTripIn(L: Alphabet, s: seq<byte>)
    requires Readable(L)
    ensures Decode(Encode(L, s)) == s
    decreases |s|
  {
    if |s| == 1 {
      DecodeOne(L, s[0]);
    } else if |s| == 2 {
      DecodeTwo(L, s[0], s[1]);
    } else if |s| > 2 {
      RoundTripIn(L, s[3..]);
      DecodeThree(L, s[0], s[1], s[2], Encode(L, s[3..]));
      assert s == [s[0], s[1], s[2]] + s[3..];
    }
  }

  lemma LookupIsReadable()
    ensures Readable(LOOKUP)
  {
    forall k | 0 <= k < 64 ensures Index(LOOKUP[k]) == k && LOOKUP[k] != '=' {
      IndexOfLookup(k);
    }
  }

  lemma RoundTrip(s: seq<byte>)
    ensures Decode(Encode(LOOKUP, s)) == s
  {
    LookupIsReadable();
    RoundTripIn(LOOKUP, s);
  }

  lemma EncodingsDiffer(s: seq<byte>, t: seq<byte>)
    requires s != t
    ensures Encode(LOOKUP, s) != Encode(LOOKUP, t)
  {
    RoundTrip(s);
    RoundTrip(t);
  }
}
