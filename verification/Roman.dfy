/** The Roman numeral of a number (numerics.cpp, dec_to_roman), and how it reads back. */
module Roman {
  import opened Common

  const NUMBERS: seq<nat> := [1, 4, 5, 9, 10, 40, 50, 90, 100, 400, 500, 900, 1000]
  const ROMANS: seq<string> := ["I", "IV", "V", "IX", "X", "XL", "L", "XC", "C", "CD", "D", "CM", "M"]

  /** The numeral of `n` from the tokens up to number `x`, largest first. */
  function RomanFrom(n: nat, x: int): string
    requires -1 <= x <= 12
    decreases x, n
  {
    if x < 0 then ""
    else if n >= NUMBERS[x] then
      TokenIsPositive(x);
      ROMANS[x] + RomanFrom(n - NUMBERS[x], x)
    else RomanFrom(n, x - 1)
  }

  lemma TokenIsPositive(x: int)
    requires 0 <= x <= 12
    ensures NUMBERS[x] > 0
  {
  }

  function Numeral(n: nat): string { RomanFrom(n, 12) }

  method DecToRoman(decimal: u64) returns (result: string)
    ensures result == Numeral(decimal)
  {
    result := "";
    var n := decimal;
    var x := 12;
    while x >= 0
      invariant -1 <= x <= 12
      invariant result + RomanFrom(n, x) == Numeral(decimal)
    {
      while n >= NUMBERS[x]
        invariant result + RomanFrom(n, x) == Numeral(decimal)
        decreases n
      {
        TokenIsPositive(x);
        ConcatAssoc(result, ROMANS[x], RomanFrom(n - NUMBERS[x], x));
        n := n - NUMBERS[x];
        result := result + ROMANS[x];
      }
      x := x - 1;
    }
    assert result + "" == result;
  }

  // ----- reading a numeral ------------------------------------------------------------------

  function Symbol(c: char): nat {
    match c
    case 'I' => 1
    case 'V' => 5
    case 'X' => 10
    case 'L' => 50
    case 'C' => 100
    case 'D' => 500
    case 'M' => 1000
    case _ => 0
  }

  /** The subtractive rule: a symbol before a larger one counts negatively. */
  function Read(s: string): int {
    if s == "" then 0
    else if |s| > 1 && Symbol(s[0]) < Symbol(s[1]) then Read(s[1..]) - Symbol(s[0])
    else Symbol(s[0]) + Read(s[1..])
  }

  /** What the table of tokens is like: a single symbol, or a pair whose second symbol is larger
      and leaves less than itself up to the next token. */
  lemma Token(x: int)
    requires 0 <= x <= 12
    ensures var t, v := ROMANS[x], NUMBERS[x];
      && 1 <= |t| <= 2 && Symbol(t[0]) <= v
      && (|t| == 1 ==> Symbol(t[0]) == v)
      && (|t| == 2 ==> x < 12 && v == Symbol(t[1]) - Symbol(t[0]) && Symbol(t[0]) < Symbol(t[1])
                       && NUMBERS[x + 1] - v <= Symbol(t[1]))
      && (x < 12 ==> NUMBERS[x] < NUMBERS[x + 1])
  {
  }

  lemma {:induction false} FirstSymbol(n: nat, x: int)
    requires -1 <= x <= 12
    ensures var s := RomanFrom(n, x);
      s != "" ==> x >= 0 && Symbol(s[0]) <= n && Symbol(s[0]) <= NUMBERS[x]
    decreases x, n
  {
    if x >= 0 {
      Token(x);
      if n >= NUMBERS[x] {
        assert RomanFrom(n, x)[0] == ROMANS[x][0];
      } else {
        FirstSymbol(n, x - 1);
        if x > 0 {
          Token(x - 1);
        }
      }
    }
  }

  lemma ReadOne(c: char, s: string)
    requires s != "" ==> Symbol(s[0]) <= Symbol(c)
    ensures Read([c] + s) == Symbol(c) + Read(s)
  {
    assert ([c] + s)[1..] == s;
  }

  lemma ReadPair(b: char, c: char, s: string)
    requires Symbol(b) < Symbol(c)
    ensures Read([b] + ([c] + s)) == Read([c] + s) - Symbol(b)
  {
    assert ([b] + ([c] + s))[1..] == [c] + s;
  }

  lemma ReadToken(t: string, s: string)
    requires 1 <= |t| <= 2 && (|t| == 2 ==> Symbol(t[0]) < Symbol(t[1]))
    requires s != "" ==> Symbol(s[0]) <= Symbol(t[|t| - 1])
    ensures Read(t + s) == Read(t) + Read(s)
  {
    var c := t[|t| - 1];
    ReadOne(c, s);
    ReadOne(c, "");
    assert [c] + "" == [c];
    if |t| == 1 {
      assert t == [c];
    } else {
      assert t == [t[0], c] && t + s == [t[0]] + ([c] + s) && t == [t[0]] + ([c] + "");
      ReadPair(t[0], c, s);
      ReadPair(t[0], c, "");
    }
  }

  lemma {:induction false} ReadFrom(n: nat, x: int)
    requires -1 <= x <= 12
    requires x < 12 ==> n < NUMBERS[x + 1]
    ensures Read(RomanFrom(n, x)) == n
    decreases x, n
  {
    if x >= 0 {
      Token(x);
      if n >= NUMBERS[x] {
        var m := n - NUMBERS[x];
        FirstSymbol(m, x);
        ReadFrom(m, x);
        ReadToken(ROMANS[x], RomanFrom(m, x));
        assert Read(ROMANS[x]) == NUMBERS[x];
      } else {
        ReadFrom(n, x - 1);
      }
    }
  }

  /** The numeral of every number reads back as that number. */
  lemma NumeralReadsBack(n: nat)
    ensures Read(Numeral(n)) == n
  {
    ReadFrom(n, 12);
  }

  lemma NumeralsDiffer(m: nat, n: nat)
    requires m != n
    ensures Numeral(m) != Numeral(n)
  {
    NumeralReadsBack(m);
    NumeralReadsBack(n);
  }

  // ----- repetitions ------------------------------------------------------------------------

  predicate FourAt(s: string, i: nat) {
    i + 4 <= |s| && s[i] == s[i + 1] == s[i + 2] == s[i + 3]
  }

  /** A numeral that starts with the symbol of its own largest token takes that token. */
  lemma StartsWithToken(n: nat, x: int)
    requires 0 <= x <= 12 && |ROMANS[x]| == 1
    requires RomanFrom(n, x) != "" && RomanFrom(n, x)[0] == ROMANS[x][0]
    ensures n >= NUMBERS[x] && RomanFrom(n, x) == ROMANS[x] + RomanFrom(n - NUMBERS[x], x)
  {
    Token(x);
    if n < NUMBERS[x] {
      FirstSymbol(n, x);
    }
  }

  lemma {:induction false} FewRepeats(n: nat, x: int, i: nat)
    requires -1 <= x <= 12
    requires x < 12 ==> n < NUMBERS[x + 1]
    requires FourAt(RomanFrom(n, x), i)
    ensures RomanFrom(n, x)[i] == 'M'
    decreases x, n
  {
    var s := RomanFrom(n, x);
    Token(x);
    if n < NUMBERS[x] {
      FewRepeats(n, x - 1, i);
    } else {
      var t, m := ROMANS[x], n - NUMBERS[x];
      var rest := RomanFrom(m, x);
      assert s == t + rest;
      if i >= |t| {
        assert FourAt(rest, i - |t|);
        FewRepeats(m, x, i - |t|);
      } else if |t| == 2 {
        FirstSymbol(m, x);
        assert false;
      } else if x < 12 {
        assert rest[0] == t[0] && rest[1] == t[0] && rest[2] == t[0];
        StartsWithToken(m, x);
        var rest1 := RomanFrom(m - NUMBERS[x], x);
        assert rest == t + rest1;
        StartsWithToken(m - NUMBERS[x], x);
        var rest2 := RomanFrom(m - 2 * NUMBERS[x], x);
        assert rest1 == t + rest2;
        StartsWithToken(m - 2 * NUMBERS[x], x);
        assert false;
      }
    }
  }

  /** Only M is repeated more than three times. */
  lemma OnlyThousandsRepeat(n: nat, i: nat)
    requires FourAt(Numeral(n), i)
    ensures Numeral(n)[i] == 'M'
  {
    FewRepeats(n, 12, i);
  }

  // ----- the standard spelling --------------------------------------------------------------

  /** So many times the same symbol. */
  function Times(c: char, n: nat): string { if n == 0 then "" else [c] + Times(c, n - 1) }

  /** A digit, spelled with the symbols for one, five and ten of its place. */
  function Digit(d: nat, one: char, five: char, ten: char): string {
    if d == 9 then [one, ten]
    else if d >= 5 then [five] + Times(one, d - 5)
    else if d == 4 then [one, five]
    else Times(one, d)
  }

  /** The thousands as so many M, then the digits of the hundreds, the tens and the units. */
  function Standard(n: nat): string {
    Times('M', n / 1000)
    + (Digit(n / 100 % 10, 'C', 'D', 'M')
    + (Digit(n / 10 % 10, 'X', 'L', 'C')
    + Digit(n % 10, 'I', 'V', 'X')))
  }

  /** A place of the table: its four tokens are one, four, five and nine times a unit. */
  predicate Place(x: int, u: nat, one: char, five: char, ten: char) {
    && 3 <= x <= 11 && u > 0
    && NUMBERS[x - 3] == u && NUMBERS[x - 2] == 4 * u && NUMBERS[x - 1] == 5 * u && NUMBERS[x] == 9 * u
    && ROMANS[x - 3] == [one] && ROMANS[x - 2] == [one, five] && ROMANS[x - 1] == [five] && ROMANS[x] == [one, ten]
  }

  lemma Ones(n: nat, x: int, u: nat, c: char, k: nat)
    requires 0 <= x <= 12 && NUMBERS[x] == u > 0 && ROMANS[x] == [c]
    requires k * u <= n < (k + 1) * u
    ensures RomanFrom(n, x) == Times(c, k) + RomanFrom(n - k * u, x - 1)
    decreases k
  {
    if k == 0 {
      assert Times(c, 0) + RomanFrom(n, x - 1) == RomanFrom(n, x - 1);
    } else {
      Multiples(k, 1, u);
      Ones(n - u, x, u, c, k - 1);
      ConcatAssoc([c], Times(c, k - 1), RomanFrom(n - k * u, x - 1));
    }
  }

  /** Tokens that are too large are passed over. */
  lemma FallTo(n: nat, x: int, y: int)
    requires -1 <= y <= x <= 12 && (y < x ==> n < NUMBERS[y + 1])
    ensures RomanFrom(n, x) == RomanFrom(n, y)
    decreases x
  {
    if y < x {
      Ascending(y + 1, x);
      FallTo(n, x - 1, y);
    }
  }

  lemma Ascending(x: int, y: int)
    requires 0 <= x <= y <= 12
    ensures NUMBERS[x] <= NUMBERS[y]
  {
  }

  lemma OneToken(n: nat, x: int)
    requires 0 <= x <= 12 && n >= NUMBERS[x]
    ensures RomanFrom(n, x) == ROMANS[x] + RomanFrom(n - NUMBERS[x], x)
  {
  }

  lemma SpellNine(n: nat, x: int, u: nat, one: char, five: char, ten: char)
    requires Place(x, u, one, five, ten) && 9 * u <= n < 10 * u
    ensures RomanFrom(n, x) == [one, ten] + RomanFrom(n - 9 * u, x - 4)
  {
    OneToken(n, x);
    FallTo(n - 9 * u, x, x - 4);
  }

  lemma SpellFive(n: nat, x: int, u: nat, one: char, five: char, ten: char, k: nat)
    requires Place(x, u, one, five, ten) && k < 4 && k * u <= n - 5 * u < (k + 1) * u
    requires (k + 1) * u <= 4 * u
    ensures RomanFrom(n, x) == [five] + Times(one, k) + RomanFrom(n - 5 * u - k * u, x - 4)
  {
    var m := n - 5 * u;
    FallTo(n, x, x - 1);
    OneToken(n, x - 1);
    FallTo(m, x - 1, x - 3);
    Ones(m, x - 3, u, one, k);
    ConcatAssoc([five], Times(one, k), RomanFrom(m - k * u, x - 4));
  }

  lemma SpellFour(n: nat, x: int, u: nat, one: char, five: char, ten: char)
    requires Place(x, u, one, five, ten) && 4 * u <= n < 5 * u
    ensures RomanFrom(n, x) == [one, five] + RomanFrom(n - 4 * u, x - 4)
  {
    FallTo(n, x, x - 2);
    OneToken(n, x - 2);
    FallTo(n - 4 * u, x - 2, x - 4);
  }

  lemma SpellFew(n: nat, x: int, u: nat, one: char, five: char, ten: char, k: nat)
    requires Place(x, u, one, five, ten) && k * u <= n < (k + 1) * u <= 4 * u
    ensures RomanFrom(n, x) == Times(one, k) + RomanFrom(n - k * u, x - 4)
  {
    FallTo(n, x, x - 3);
    Ones(n, x - 3, u, one, k);
  }

  /** What a place makes of a number below ten of its units. */
  lemma SpellDigit(n: nat, x: int, u: nat, one: char, five: char, ten: char, d: nat)
    requires Place(x, u, one, five, ten) && d < 10 && d * u <= n < (d + 1) * u
    ensures RomanFrom(n, x) == Digit(d, one, five, ten) + RomanFrom(n - d * u, x - 4)
  {
    if d == 9 {
      SpellNine(n, x, u, one, five, ten);
    } else if d >= 5 {
      var k := d - 5;
      Multiples(d, 5, u);
      Multiples(4, k + 1, u);
      SpellFive(n, x, u, one, five, ten, k);
    } else if d == 4 {
      SpellFour(n, x, u, one, five, ten);
    } else {
      Multiples(4, d + 1, u);
      SpellFew(n, x, u, one, five, ten, d);
    }
  }

  lemma Multiples(a: nat, b: nat, u: nat)
    requires a >= b
    ensures a * u == b * u + (a - b) * u && b * u <= a * u
    ensures (a + 1) * u == b * u + (a - b + 1) * u
  {
    assert (a - b) * u >= 0;
  }

  lemma Places()
    ensures Place(11, 100, 'C', 'D', 'M') && Place(7, 10, 'X', 'L', 'C') && Place(3, 1, 'I', 'V', 'X')
    ensures NUMBERS[12] == 1000 && ROMANS[12] == ['M']
  {
  }

  lemma SpellThousands(n: nat)
    ensures Numeral(n) == Times('M', n / 1000) + RomanFrom(n % 1000, 11)
  {
    Places();
    Ones(n, 12, 1000, 'M', n / 1000);
  }

  lemma SpellHundreds(n: nat)
    requires n < 1000
    ensures RomanFrom(n, 11) == Digit(n / 100, 'C', 'D', 'M') + RomanFrom(n % 100, 7)
  {
    Places();
    SpellDigit(n, 11, 100, 'C', 'D', 'M', n / 100);
  }

  lemma SpellTens(n: nat)
    requires n < 100
    ensures RomanFrom(n, 7) == Digit(n / 10, 'X', 'L', 'C') + RomanFrom(n % 10, 3)
  {
    Places();
    SpellDigit(n, 7, 10, 'X', 'L', 'C', n / 10);
  }

  lemma SpellUnits(n: nat)
    requires n < 10
    ensures RomanFrom(n, 3) == Digit(n, 'I', 'V', 'X')
  {
    Places();
    SpellDigit(n, 3, 1, 'I', 'V', 'X', n);
    assert Digit(n, 'I', 'V', 'X') + "" == Digit(n, 'I', 'V', 'X');
  }

  lemma TimesGrows(d: nat, a: nat, b: nat)
    ensures a >= b ==> d * a >= d * b
  {
    if a >= b {
      assert d * a == d * b + d * (a - b);
    }
  }

  /** The quotients and remainders of a number by two divisors of which one is ten times the other. */
  lemma NextDigit(n: nat, d: nat)
    requires d > 0
    ensures n % (10 * d) / d == n / d % 10 && n % (10 * d) % d == n % d
  {
    var q, r := n / (10 * d), n % (10 * d);
    assert n == 10 * d * q + r;
    assert d * (10 * q + r / d) == 10 * d * q + d * (r / d);
    Quotient(n, d, 10 * q + r / d, r % d);
    assert d * (r / d) <= r < d * 10;
    TimesGrows(d, r / d, 10);
    Quotient(n / d, 10, q, r / d);
  }

  /** Every numeral is the standard one. */
  lemma NumeralIsStandard(n: nat)
    ensures Numeral(n) == Standard(n)
  {
    NextDigit(n, 100);
    NextDigit(n, 10);
    SpellThousands(n);
    SpellHundreds(n % 1000);
    SpellTens(n % 100);
    SpellUnits(n % 10);
  }
}
