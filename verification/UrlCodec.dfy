/** Percent-encoding of query parameters and the decoder of httplib.cpp, over bytes. */
module UrlCodec {
  import opened Common

  const PERCENT: byte := 37
  const PLUS: byte := 43
  const SPACE: byte := 32
  const LETTER_U: byte := 117

  // ----- hexadecimal digits -----------------------------------------------------------------

  function HexValue(c: byte): (v: Option<nat>)
    ensures v.Some? ==> v.value < 16
  {
    if 48 <= c <= 57 then Some(c - 48)
    else if 65 <= c <= 70 then Some(c - 65 + 10)
    else if 97 <= c <= 102 then Some(c - 97 + 10)
    else None
  }

  function HexDigit(d: nat): byte
    requires d < 16
  {
    if d < 10 then 48 + d else 65 + d - 10
  }

  /** The value of the first `cnt` characters, if all of them are there and are hex digits. */
  function HexPrefix(s: seq<byte>, cnt: nat, acc: nat): Option<nat>
    decreases cnt
  {
    if cnt == 0 then Some(acc)
    else if s == [] || HexValue(s[0]).None? then None
    else HexPrefix(s[1..], cnt - 1, acc * 16 + HexValue(s[0]).value)
  }

  /** Reads `cnt` hex digits at `i`. The character after the last one reads as NUL. */
  method FromHexToI(s: seq<byte>, i: nat, cnt: nat) returns (val: Option<nat>)
    ensures val == if i < |s| then HexPrefix(s[i..], cnt, 0) else None
  {
    if i >= |s| {
      return None;
    }
    var acc: nat, k: nat, left: nat := 0, i, cnt;
    while left > 0
      invariant k <= |s|
      invariant HexPrefix(s[k..], left, acc) == HexPrefix(s[i..], cnt, 0)
      decreases left
    {
      if k == |s| || s[k] == 0 || HexValue(s[k]).None? {
        return None;
      }
      assert s[k..][1..] == s[k + 1..];
      acc := acc * 16 + HexValue(s[k]).value;
      k, left := k + 1, left - 1;
    }
    val := Some(acc);
  }

  lemma {:induction false} HexPrefixBound(s: seq<byte>, cnt: nat, acc: nat)
    requires HexPrefix(s, cnt, acc).Some?
    ensures cnt <= |s|
    ensures cnt == 2 && acc == 0 ==> HexPrefix(s, cnt, acc).value < 256
    ensures cnt == 4 && acc == 0 ==> HexPrefix(s, cnt, acc).value < 0x10000
    decreases cnt
  {
    if cnt > 0 {
      HexPrefixBound(s[1..], cnt - 1, acc * 16 + HexValue(s[0]).value);
      if cnt == 2 && acc == 0 {
        assert HexPrefix(s[1..][1..], 0, HexValue(s[0]).value * 16 + HexValue(s[1]).value).Some?;
      }
      if cnt == 4 && acc == 0 {
        var a := HexValue(s[0]).value;
        var b := a * 16 + HexValue(s[1..][0]).value;
        var c := b * 16 + HexValue(s[1..][1..][0]).value;
        assert HexPrefix(s, 4, 0) == HexPrefix(s[1..], 3, a) == HexPrefix(s[1..][1..], 2, b)
            == HexPrefix(s[1..][1..][1..], 1, c);
      }
    }
  }

  // ----- the encoder ------------------------------------------------------------------------

  /** Letters, digits and the marks - _ . ! ~ * ' ( ) stay as they are. */
  predicate Unreserved(c: byte) {
    || 48 <= c <= 57 || 65 <= c <= 90 || 97 <= c <= 122
    || c == 45 || c == 95 || c == 46 || c == 33 || c == 126 || c == 42 || c == 39 || c == 40 || c == 41
  }

  function EncodeByte(c: byte): seq<byte> {
    if Unreserved(c) then [c] else [PERCENT, HexDigit(c / 16), HexDigit(c % 16)]
  }

  function Encode(s: seq<byte>): seq<byte> {
    if s == [] then [] else EncodeByte(s[0]) + Encode(s[1..])
  }

  method EncodeQueryParam(value: seq<byte>) returns (escaped: seq<byte>)
    ensures escaped == Encode(value)
  {
    escaped := [];
    for i := 0 to |value|
      invariant escaped + Encode(value[i..]) == Encode(value)
    {
      var c := value[i];
      assert value[i..][1..] == value[i + 1..];
      ConcatAssoc(escaped, EncodeByte(c), Encode(value[i + 1..]));
      if Unreserved(c) {
        escaped := escaped + [c];
      } else {
        escaped := escaped + [PERCENT, HexDigit(c / 16), HexDigit(c % 16)];
      }
    }
    assert escaped + [] == escaped;
  }

  // ----- the decoder ------------------------------------------------------------------------

  /** The UTF-8 bytes of a code point; nothing for a surrogate. */
  function ToUtf8(code: nat): seq<byte>
    requires code < 0x10000
  {
    if code < 0x80 then [code]
    else if code < 0x800 then [0xC0 + code / 64, 0x80 + code % 64]
    else if 0xD800 <= code < 0xE000 then []
    else [0xE0 + code / 4096, 0x80 + code / 64 % 64, 0x80 + code % 64]
  }

  /** What the decoder writes for the start of a text, and how much of the text it consumes. */
  datatype Piece = Piece(written: seq<byte>, used: nat)

  function FirstPiece(s: seq<byte>, plusToSpace: bool): (p: Piece)
    requires s != []
    ensures 1 <= p.used <= |s|
  {
    if s[0] == PERCENT && |s| > 1 then
      if s[1] == LETTER_U then
        var v := HexPrefix(s[2..], 4, 0);
        if v.Some? then
          HexPrefixBound(s[2..], 4, 0);
          Piece(ToUtf8(v.value), 6)
        else Piece([s[0]], 1)
      else
        var v := HexPrefix(s[1..], 2, 0);
        if v.Some? then
          HexPrefixBound(s[1..], 2, 0);
          Piece([v.value], 3)
        else Piece([s[0]], 1)
    else if plusToSpace && s[0] == PLUS then Piece([SPACE], 1)
    else Piece([s[0]], 1)
  }

  function Decode(s: seq<byte>, plusToSpace: bool): seq<byte>
    decreases |s|
  {
    if s == [] then []
    else
      var p := FirstPiece(s, plusToSpace);
      p.written + Decode(s[p.used..], plusToSpace)
  }

  method DecodeUrl(s: seq<byte>, plusToSpace: bool) returns (result: seq<byte>)
    ensures result == Decode(s, plusToSpace)
  {
    result := [];
    var i := 0;
    while i < |s|
      invariant i <= |s|
      invariant result + Decode(s[i..], plusToSpace) == Decode(s, plusToSpace)
    {
      ghost var t, before, at := s[i..], result, i;
      if s[i] == PERCENT && i + 1 < |s| {
        assert t[1..] == s[i + 1..] && t[2..] == s[i + 2..];
        if s[i + 1] == LETTER_U {
          var val := FromHexToI(s, i + 2, 4);
          assert val == HexPrefix(t[2..], 4, 0);
          if val.Some? {
            HexPrefixBound(t[2..], 4, 0);
            result := result + ToUtf8(val.value);
            i := i + 5;
          } else {
            result := result + [s[i]];
          }
        } else {
          var val := FromHexToI(s, i + 1, 2);
          assert val == HexPrefix(t[1..], 2, 0);
          if val.Some? {
            HexPrefixBound(t[1..], 2, 0);
            result := result + [val.value];
            i := i + 2;
          } else {
            result := result + [s[i]];
          }
        }
      } else if plusToSpace && s[i] == PLUS {
        result := result + [SPACE];
      } else {
        result := result + [s[i]];
      }
      i := i + 1;
      ghost var p := FirstPiece(t, plusToSpace);
      assert i == at + p.used && result == before + p.written;
      assert t[p.used..] == s[i..];
      ConcatAssoc(before, p.written, Decode(s[i..], plusToSpace));
    }
    assert result + [] == result;
  }

  // ----- what is written ----------------------------------------------------------------------

  /** Letters, digits and nine marks. */
  predicate IsSafe(c: byte) {
    var ch := c as char;
    || '0' <= ch <= '9' || 'A' <= ch <= 'Z' || 'a' <= ch <= 'z'
    || ch in {'-', '_', '.', '!', '~', '*', '\'', '(', ')'}
  }

  lemma SafeIff(c: byte)
    ensures IsSafe(c) <==> Unreserved(c)
  {
  }

  /** The hexadecimal digit of a value, in lower or upper case. */
  predicate IsDigitOf(c: byte, v: nat) {
    v < 16 && (c == "0123456789abcdef"[v] as int || c == "0123456789ABCDEF"[v] as int)
  }

  lemma HexValueIff(c: byte, v: nat)
    ensures HexValue(c) == Some(v) <==> IsDigitOf(c, v)
  {
  }

  /** Bytes are encoded one by one. */
  lemma {:induction false} EncodeAppend(s: seq<byte>, t: seq<byte>)
    ensures Encode(s + t) == Encode(s) + Encode(t)
  {
    if s == [] {
      assert s + t == t;
    } else {
      assert (s + t)[1..] == s[1..] + t;
      EncodeAppend(s[1..], t);
      ConcatAssoc(EncodeByte(s[0]), Encode(s[1..]), Encode(t));
    }
  }

  /** A safe byte stays as it is, and any other becomes a percent sign and its two digits. */
  lemma EncodeOne(c: byte)
    ensures IsSafe(c) ==> Encode([c]) == [c]
    ensures !IsSafe(c) ==>
      Encode([c]) == [37, "0123456789ABCDEF"[c / 16] as int, "0123456789ABCDEF"[c % 16] as int]
  {
    SafeIff(c);
    assert Encode([c]) == EncodeByte(c) + [];
  }

  // ----- what is read -------------------------------------------------------------------------

  /** A text begins with `cnt` hexadecimal digits. */
  predicate StartsHex(s: seq<byte>, cnt: nat) {
    cnt <= |s| && forall i :: 0 <= i < cnt ==> HexValue(s[i]).Some?
  }

  lemma {:induction false} HexPrefixIff(s: seq<byte>, cnt: nat, acc: nat)
    ensures HexPrefix(s, cnt, acc).Some? <==> StartsHex(s, cnt)
    decreases cnt
  {
    if cnt > 0 && s != [] && HexValue(s[0]).Some? {
      HexPrefixIff(s[1..], cnt - 1, acc * 16 + HexValue(s[0]).value);
      if StartsHex(s, cnt) {
        forall i | 0 <= i < cnt - 1 ensures HexValue(s[1..][i]).Some? {
          assert s[1..][i] == s[i + 1];
        }
      }
      if StartsHex(s[1..], cnt - 1) {
        forall i | 0 <= i < cnt ensures HexValue(s[i]).Some? {
          assert i > 0 ==> s[1..][i - 1] == s[i];
        }
      }
    }
  }

  lemma TwoDigitValue(s: seq<byte>, a: nat, b: nat)
    requires |s| >= 2 && IsDigitOf(s[0], a) && IsDigitOf(s[1], b)
    ensures HexPrefix(s, 2, 0) == Some(a * 16 + b)
  {
    HexValueIff(s[0], a);
    HexValueIff(s[1], b);
    assert HexPrefix(s, 2, 0) == HexPrefix(s[1..], 1, a) == HexPrefix(s[1..][1..], 0, a * 16 + b);
  }

  lemma HexPrefixStep(s: seq<byte>, cnt: nat, acc: nat, v: nat)
    requires cnt > 0 && s != [] && HexValue(s[0]) == Some(v)
    ensures HexPrefix(s, cnt, acc) == HexPrefix(s[1..], cnt - 1, acc * 16 + v)
  {
  }

  lemma FourDigitsValue(s: seq<byte>, a: nat, b: nat, c: nat, d: nat)
    requires |s| >= 4 && IsDigitOf(s[0], a) && IsDigitOf(s[1], b) && IsDigitOf(s[2], c) && IsDigitOf(s[3], d)
    ensures HexPrefix(s, 4, 0) == Some(((a * 16 + b) * 16 + c) * 16 + d)
  {
    HexValueIff(s[0], a);
    HexValueIff(s[1], b);
    HexValueIff(s[2], c);
    HexValueIff(s[3], d);
    HexPrefixStep(s, 4, 0, a);
    HexPrefixStep(s[1..], 3, a, b);
    HexPrefixStep(s[1..][1..], 2, a * 16 + b, c);
    HexPrefixStep(s[1..][1..][1..], 1, (a * 16 + b) * 16 + c, d);
  }

  /** An escape is the byte of its two digits. */
  lemma DecodeEscape(s: seq<byte>, a: nat, b: nat, plusToSpace: bool)
    requires |s| >= 3 && s[0] == 37 && IsDigitOf(s[1], a) && IsDigitOf(s[2], b)
    ensures Decode(s, plusToSpace) == [a * 16 + b] + Decode(s[3..], plusToSpace)
  {
    TwoDigitValue(s[1..], a, b);
    HexValueIff(s[1], a);
  }

  /** A Unicode escape is the UTF-8 of its four digits. */
  lemma DecodeUnicode(s: seq<byte>, a: nat, b: nat, c: nat, d: nat, plusToSpace: bool)
    requires |s| >= 6 && s[0] == 37 && s[1] == 117
    requires IsDigitOf(s[2], a) && IsDigitOf(s[3], b) && IsDigitOf(s[4], c) && IsDigitOf(s[5], d)
    ensures Decode(s, plusToSpace) == ToUtf8(((a * 16 + b) * 16 + c) * 16 + d) + Decode(s[6..], plusToSpace)
  {
    FourDigitsValue(s[2..], a, b, c, d);
  }

  /** Whatever does not begin such an escape is taken as it is, percent signs included, but for plus
      signs where they stand for spaces. */
  lemma DecodePlain(s: seq<byte>, plusToSpace: bool)
    requires s != []
    requires s[0] == 37 ==> !StartsHex(s[1..], 2) && !(|s| > 1 && s[1] == 117 && StartsHex(s[2..], 4))
    ensures Decode(s, plusToSpace)
         == [if s[0] == 43 && plusToSpace then 32 else s[0]] + Decode(s[1..], plusToSpace)
  {
    HexPrefixIff(s[1..], 2, 0);
    if |s| > 1 {
      HexPrefixIff(s[2..], 4, 0);
    }
  }

  // ----- the round trip ---------------------------------------------------------------------

  lemma HexDigitValue(d: nat)
    requires d < 16
    ensures HexValue(HexDigit(d)) == Some(d) && HexDigit(d) != LETTER_U
  {
  }

  lemma TwoDigits(c: byte, rest: seq<byte>)
    ensures HexPrefix([HexDigit(c / 16), HexDigit(c % 16)] + rest, 2, 0) == Some(c)
  {
    var s := [HexDigit(c / 16), HexDigit(c % 16)] + rest;
    HexDigitValue(c / 16);
    HexDigitValue(c % 16);
    assert s[1..][0] == HexDigit(c % 16);
    assert HexPrefix(s, 2, 0) == HexPrefix(s[1..], 1, c / 16) == HexPrefix(s[1..][1..], 0, c / 16 * 16 + c % 16);
  }

  lemma DecodeEncodedByte(c: byte, rest: seq<byte>, plusToSpace: bool)
    ensures FirstPiece(EncodeByte(c) + rest, plusToSpace) == Piece([c], |EncodeByte(c)|)
  {
    if !Unreserved(c) {
      TwoDigits(c, rest);
      HexDigitValue(c / 16);
      assert (EncodeByte(c) + rest)[1..] == [HexDigit(c / 16), HexDigit(c % 16)] + rest;
    }
  }

  /** Decoding an encoded text gives it back, whether or not plus signs are turned into spaces. */
  lemma {:induction false} RoundTrip(s: seq<byte>, plusToSpace: bool)
    ensures Decode(Encode(s), plusToSpace) == s
  {
    if s != [] {
      DecodeEncodedByte(s[0], Encode(s[1..]), plusToSpace);
      assert Encode(s)[|EncodeByte(s[0])|..] == Encode(s[1..]);
      RoundTrip(s[1..], plusToSpace);
      assert s == [s[0]] + s[1..];
    }
  }

  /** The decoder enters its branch for Unicode escapes somewhere in the text. */
  predicate MeetsUnicodeEscape(s: seq<byte>, plusToSpace: bool)
    decreases |s|
  {
    s != [] && ((s[0] == PERCENT && |s| > 1 && s[1] == LETTER_U)
                || MeetsUnicodeEscape(s[FirstPiece(s, plusToSpace).used..], plusToSpace))
  }

  lemma {:induction false} NoUnicodeEscape(s: seq<byte>, plusToSpace: bool)
    ensures !MeetsUnicodeEscape(Encode(s), plusToSpace)
  {
    if s != [] {
      DecodeEncodedByte(s[0], Encode(s[1..]), plusToSpace);
      assert Encode(s)[|EncodeByte(s[0])|..] == Encode(s[1..]);
      HexDigitValue(s[0] / 16);
      NoUnicodeEscape(s[1..], plusToSpace);
    }
  }

  // ----- Unicode escapes ----------------------------------------------------------------------

  /** The code point of a UTF-8 sequence of up to three bytes. */
  function FromUtf8(b: seq<nat>): nat {
    if |b| == 1 then b[0]
    else if |b| == 2 then b[0] % 32 * 64 + b[1] % 64
    else if |b| == 3 then b[0] % 16 * 4096 + b[1] % 64 * 64 + b[2] % 64
    else 0
  }

  lemma TwoBytesReadBack(code: nat)
    requires 0x80 <= code < 0x800
    ensures FromUtf8(ToUtf8(code)) == code
  {
    Quotient(0xC0 + code / 64, 32, 6, code / 64);
    Quotient(0x80 + code % 64, 64, 2, code % 64);
  }

  lemma ThreeBytesReadBack(code: nat)
    requires 0x800 <= code < 0x10000 && !(0xD800 <= code < 0xE000)
    ensures FromUtf8(ToUtf8(code)) == code
  {
    Quotient(code, 64, code / 64, code % 64);
    Quotient(code, 4096, code / 4096, code / 64 % 64 * 64 + code % 64);
    Quotient(0xE0 + code / 4096, 16, 14, code / 4096);
    Quotient(0x80 + code / 64 % 64, 64, 2, code / 64 % 64);
    Quotient(0x80 + code % 64, 64, 2, code % 64);
  }

  /** Every code point up to 0xFFFF is written so that it reads back, in the shortest form, with the
      lead and continuation bytes of UTF-8; only surrogates are dropped. */
  lemma Utf8ReadsBack(code: nat)
    requires code < 0x10000
    ensures var b := ToUtf8(code);
      && (b == [] <==> 0xD800 <= code < 0xE000)
      && (b != [] ==> FromUtf8(b) == code && |b| == if code < 0x80 then 1 else if code < 0x800 then 2 else 3)
      && (|b| == 1 ==> b[0] < 0x80)
      && (|b| == 2 ==> 0xC2 <= b[0] <= 0xDF && 0x80 <= b[1] <= 0xBF)
      && (|b| == 3 ==> 0xE0 <= b[0] <= 0xEF && 0x80 <= b[1] <= 0xBF && 0x80 <= b[2] <= 0xBF)
  {
    if 0x80 <= code < 0x800 {
      TwoBytesReadBack(code);
    } else if code >= 0x800 && !(0xD800 <= code < 0xE000) {
      ThreeBytesReadBack(code);
    }
  }

  function FourDigits(code: nat): seq<byte>
    requires code < 0x10000
  {
    [HexDigit(code / 4096), HexDigit(code / 256 % 16), HexDigit(code / 16 % 16), HexDigit(code % 16)]
  }

  lemma ReadDigit(d: nat, s: seq<byte>, cnt: nat, acc: nat)
    requires d < 16
    ensures HexPrefix([HexDigit(d)] + s, cnt + 1, acc) == HexPrefix(s, cnt, acc * 16 + d)
  {
    HexDigitValue(d);
    assert ([HexDigit(d)] + s)[1..] == s;
  }

  lemma FourDigitValue(code: nat)
    requires code < 0x10000
    ensures ((code / 4096 * 16 + code / 256 % 16) * 16 + code / 16 % 16) * 16 + code % 16 == code
  {
    Quotient(code / 16, 16, code / 256, code / 16 % 16);
    Quotient(code / 256, 16, code / 4096, code / 256 % 16);
  }

  lemma ReadFourDigits(code: nat, rest: seq<byte>)
    requires code < 0x10000
    ensures HexPrefix(FourDigits(code) + rest, 4, 0) == Some(code)
  {
    var a, b, c, d := code / 4096, code / 256 % 16, code / 16 % 16, code % 16;
    var s1 := [HexDigit(d)] + rest;
    var s2 := [HexDigit(c)] + s1;
    var s3 := [HexDigit(b)] + s2;
    assert FourDigits(code) + rest == [HexDigit(a)] + s3;
    ReadDigit(a, s3, 3, 0);
    ReadDigit(b, s2, 2, a);
    ReadDigit(c, s1, 1, a * 16 + b);
    ReadDigit(d, rest, 0, (a * 16 + b) * 16 + c);
    FourDigitValue(code);
  }

  /** A Unicode escape decodes to the UTF-8 bytes of its code point, and to nothing for a surrogate. */
  lemma DecodeUnicodeEscape(code: nat, rest: seq<byte>, plusToSpace: bool)
    requires code < 0x10000
    ensures Decode([PERCENT, LETTER_U] + FourDigits(code) + rest, plusToSpace)
         == ToUtf8(code) + Decode(rest, plusToSpace)
  {
    var s := [PERCENT, LETTER_U] + FourDigits(code) + rest;
    ReadFourDigits(code, rest);
    assert s[2..] == FourDigits(code) + rest && s[6..] == rest;
  }
}
