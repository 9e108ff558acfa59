/** Machine widths and small value types shared by all components. */
module Common {
  const TWO32: nat := 0x1_0000_0000
  const TWO64: nat := 0x1_0000_0000_0000_0000

  type u32 = x: nat | x < 0x1_0000_0000
  type u64 = x: nat | x < 0x1_0000_0000_0000_0000
  type byte = x: nat | x < 256

  datatype Option<+T> = None | Some(value: T)

  /** `++x` on a `uint32_t`. */
  function Inc32(x: u32): u32 { if x + 1 < TWO32 then x + 1 else 0 }

  /** `x - y` on `uint32_t` operands: wraps below zero. */
  function Sub32(x: u32, y: u32): u32 { if x >= y then x - y else x - y + TWO32 }

  /** `x + y` on `uint64_t` operands. */
  function Add64(x: u64, y: u64): u64 { if x + y < TWO64 then x + y else x + y - TWO64 }

  lemma SubsetSize<T>(a: set<T>, b: set<T>)
    requires a <= b
    ensures |a| <= |b|
  {
    assert a + (b - a) == b;
  }

  /** The value of an unbounded sum in a `uint32_t` or `uint64_t`. */
  function Wrap32(x: nat): u32 { if x < TWO32 then x else Wrap32(x - TWO32) }

  function Wrap64(x: nat): u64 { if x < TWO64 then x else Wrap64(x - TWO64) }

  /** Taking the divisor off leaves the remainder. */
  lemma LessOneDivisor(x: nat, d: nat)
    requires x >= d > 0
    ensures x % d == (x - d) % d
  {
    var q, r := (x - d) / d, (x - d) % d;
    assert x == d * (q + 1) + r;
    Quotient(x, d, q + 1, r);
  }

  lemma {:induction false} Wrap32IsMod(x: nat)
    ensures Wrap32(x) == x % TWO32
    decreases x
  {
    if x >= TWO32 {
      LessOneDivisor(x, TWO32);
      Wrap32IsMod(x - TWO32);
    }
  }

  lemma {:induction false} Wrap64IsMod(x: nat)
    ensures Wrap64(x) == x % TWO64
    decreases x
  {
    if x >= TWO64 {
      LessOneDivisor(x, TWO64);
      Wrap64IsMod(x - TWO64);
    }
  }

  /** Two additions in a row wrap like one. */
  lemma {:induction false} Wrap32Twice(x: nat, y: nat)
    ensures Wrap32(Wrap32(x) + y) == Wrap32(x + y)
    decreases x
  {
    if x >= TWO32 {
      Wrap32Twice(x - TWO32, y);
    }
  }

  lemma {:induction false} Wrap64Twice(x: nat, y: nat)
    ensures Wrap64(Wrap64(x) + y) == Wrap64(x + y)
    decreases x
  {
    if x >= TWO64 {
      Wrap64Twice(x - TWO64, y);
    }
  }

  function Elems<T(==)>(s: seq<T>): set<T> { set x | x in s }

  lemma ElemsAppend<T>(s: seq<T>, x: T)
    ensures Elems(s + [x]) == Elems(s) + {x}
  {
  }

  lemma PrefixNext<T>(s: seq<T>, i: nat)
    requires i < |s|
    ensures s[..i + 1] == s[..i] + [s[i]]
  {
  }

  lemma ConcatAssoc<T>(a: seq<T>, b: seq<T>, c: seq<T>)
    ensures a + b + c == a + (b + c)
  {
  }

  /** Quotient and remainder are unique. */
  lemma Quotient(n: int, d: int, q: int, r: int)
    requires d > 0 && n == d * q + r && 0 <= r < d
    ensures n / d == q && n % d == r
  {
    var k := n / d - q;
    assert n == d * (n / d) + n % d;
    assert d * k == r - n % d;
    assert k >= 1 ==> d * k >= d;
    assert k <= -1 ==> d * k <= -d;
  }
}
