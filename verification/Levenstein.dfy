/** The edit distance used for misspelled answers (levenstein.cpp), over sequences of code points
    that have already been lowercased. */
module Levenstein {
  type Text = seq<int>

  function Min(x: int, y: int): int { if x < y then x else y }

  function Min3(x: int, y: int, z: int): int { Min(Min(x, y), z) }

  function Init(s: Text): Text
    requires s != []
  {
    s[..|s| - 1]
  }

  function Last(s: Text): int
    requires s != []
  {
    s[|s| - 1]
  }

  /** What the table holds for two prefixes: the diagonal alone on equal symbols. */
  function Greedy(a: Text, b: Text): nat
    decreases |a| + |b|
  {
    if a == [] then |b|
    else if b == [] then |a|
    else if Last(a) == Last(b) then Greedy(Init(a), Init(b))
    else 1 + Min3(Greedy(a, Init(b)), Greedy(Init(a), b), Greedy(Init(a), Init(b)))
  }

  lemma PrefixInit(s: Text, i: nat)
    requires i <= |s|
    ensures i > 0 ==> Init(s[..i]) == s[..i - 1] && Last(s[..i]) == s[i - 1]
  {
  }

  /** A cell of the table from its neighbours. */
  lemma Cell(a: Text, b: Text, i: nat, j: nat)
    requires i <= |a| && j <= |b|
    ensures Greedy(a[..i], b[..j]) ==
      if i == 0 then j
      else if j == 0 then i
      else if a[i - 1] == b[j - 1] then Greedy(a[..i - 1], b[..j - 1])
      else 1 + Min3(Greedy(a[..i], b[..j - 1]), Greedy(a[..i - 1], b[..j]), Greedy(a[..i - 1], b[..j - 1]))
  {
    PrefixInit(a, i);
    PrefixInit(b, j);
  }

  method Levenstein(a: Text, b: Text) returns (d: int)
    ensures d == Greedy(a, b)
  {
    var m, n := |a|, |b|;
    var dp := new int[m + 1, n + 1];
    for i := 0 to m + 1
      invariant forall k, l :: 0 <= k < i && 0 <= l <= n ==> dp[k, l] == Greedy(a[..k], b[..l])
    {
      FillRow(dp, a, b, i);
    }
    d := dp[m, n];
    assert a[..m] == a && b[..n] == b;
  }

  /** The inner loop: row `i` of the table from the row above. */
  method FillRow(dp: array2<int>, a: Text, b: Text, i: nat)
    requires dp.Length0 == |a| + 1 && dp.Length1 == |b| + 1 && i <= |a|
    requires i > 0 ==> forall l :: 0 <= l <= |b| ==> dp[i - 1, l] == Greedy(a[..i - 1], b[..l])
    modifies dp
    ensures forall l :: 0 <= l <= |b| ==> dp[i, l] == Greedy(a[..i], b[..l])
    ensures forall k, l :: 0 <= k <= |a| && 0 <= l <= |b| && k != i ==> dp[k, l] == old(dp[k, l])
  {
    for j := 0 to |b| + 1
      invariant forall l :: 0 <= l < j ==> dp[i, l] == Greedy(a[..i], b[..l])
      invariant forall k, l :: 0 <= k <= |a| && 0 <= l <= |b| && k != i ==> dp[k, l] == old(dp[k, l])
    {
      Cell(a, b, i, j);
      if i == 0 {
        dp[i, j] := j;
      } else if j == 0 {
        dp[i, j] := i;
      } else if a[i - 1] == b[j - 1] {
        dp[i, j] := dp[i - 1, j - 1];
      } else {
        dp[i, j] := 1 + Min3(dp[i, j - 1], dp[i - 1, j], dp[i - 1, j - 1]);
      }
    }
  }

  // ----- edit scripts -----------------------------------------------------------------------

  /** One step of a script that reads `a` and writes `b` from left to right. */
  datatype Edit = Keep(c: int) | Insert(d: int) | Remove(c: int) | Replace(c: int, d: int)

  function Reads(e: Edit): Text { if e.Insert? then [] else [e.c] }

  function Writes(e: Edit): Text {
    match e
    case Keep(c) => [c]
    case Insert(d) => [d]
    case Remove(_) => []
    case Replace(_, d) => [d]
  }

  function Price(e: Edit): nat { if e.Keep? then 0 else 1 }

  function Source(es: seq<Edit>): Text {
    if es == [] then [] else Source(es[..|es| - 1]) + Reads(es[|es| - 1])
  }

  function Target(es: seq<Edit>): Text {
    if es == [] then [] else Target(es[..|es| - 1]) + Writes(es[|es| - 1])
  }

  function Cost(es: seq<Edit>): nat {
    if es == [] then 0 else Cost(es[..|es| - 1]) + Price(es[|es| - 1])
  }

  lemma AddEdit(es: seq<Edit>, e: Edit)
    ensures Source(es + [e]) == Source(es) + Reads(e)
    ensures Target(es + [e]) == Target(es) + Writes(e)
    ensures Cost(es + [e]) == Cost(es) + Price(e)
  {
    assert (es + [e])[..|es|] == es;
  }

  lemma {:induction false} InsertAll(b: Text) returns (es: seq<Edit>)
    ensures Source(es) == [] && Target(es) == b && Cost(es) == |b|
  {
    if b == [] {
      es := [];
    } else {
      var fs := InsertAll(Init(b));
      Whole(b);
      es := Extend(fs, Insert(Last(b)), [], b);
    }
  }

  lemma {:induction false} RemoveAll(a: Text) returns (es: seq<Edit>)
    ensures Source(es) == a && Target(es) == [] && Cost(es) == |a|
  {
    if a == [] {
      es := [];
    } else {
      var fs := RemoveAll(Init(a));
      Whole(a);
      es := Extend(fs, Remove(Last(a)), a, []);
    }
  }

  lemma Whole(a: Text)
    requires a != []
    ensures a == Init(a) + [Last(a)]
  {
  }

  /** Appends one edit to a script for the prefixes it leaves over. */
  lemma Extend(fs: seq<Edit>, e: Edit, a: Text, b: Text) returns (es: seq<Edit>)
    requires Source(fs) + Reads(e) == a && Target(fs) + Writes(e) == b
    ensures Source(es) == a && Target(es) == b && Cost(es) == Cost(fs) + Price(e)
  {
    AddEdit(fs, e);
    es := fs + [e];
  }

  /** The distance is reached by a script. */
  lemma {:induction false} BestScript(a: Text, b: Text) returns (es: seq<Edit>)
    ensures Source(es) == a && Target(es) == b && Cost(es) == Greedy(a, b)
    decreases |a| + |b|
  {
    if a == [] {
      es := InsertAll(b);
    } else if b == [] {
      es := RemoveAll(a);
    } else {
      Whole(a);
      Whole(b);
      if Last(a) == Last(b) {
        var fs := BestScript(Init(a), Init(b));
        es := Extend(fs, Keep(Last(a)), a, b);
      } else if Greedy(a, b) == 1 + Greedy(a, Init(b)) {
        var fs := BestScript(a, Init(b));
        es := Extend(fs, Insert(Last(b)), a, b);
      } else if Greedy(a, b) == 1 + Greedy(Init(a), b) {
        var fs := BestScript(Init(a), b);
        es := Extend(fs, Remove(Last(a)), a, b);
      } else {
        var fs := BestScript(Init(a), Init(b));
        es := Extend(fs, Replace(Last(a), Last(b)), a, b);
      }
    }
  }

  /** One more symbol on either side changes the distance by at most one. */
  lemma {:induction false} OneMoreSymbol(a: Text, b: Text)
    ensures a != [] ==> Greedy(Init(a), b) <= Greedy(a, b) + 1 && Greedy(a, b) <= Greedy(Init(a), b) + 1
    ensures b != [] ==> Greedy(a, Init(b)) <= Greedy(a, b) + 1 && Greedy(a, b) <= Greedy(a, Init(b)) + 1
    decreases |a| + |b|
  {
    if a != [] {
      OneMoreSymbol(Init(a), b);
    }
    if b != [] {
      OneMoreSymbol(a, Init(b));
    }
    if a != [] && b != [] {
      OneMoreSymbol(Init(a), Init(b));
    }
  }

  /** Taking only the diagonal on equal symbols costs nothing: replacing is never dearer than one,
      and free on equal symbols. */
  lemma DiagonalStep(a: Text, b: Text)
    requires a != [] && b != []
    ensures Greedy(a, b) <= Greedy(Init(a), Init(b)) + if Last(a) == Last(b) then 0 else 1
  {
  }

  lemma InitOf(s: Text, c: int)
    ensures Init(s + [c]) == s && Last(s + [c]) == c && s + [] == s
  {
  }

  /** An edit at the end changes the distance by its price at most. */
  lemma OneEdit(a: Text, b: Text, e: Edit)
    ensures Greedy(a + Reads(e), b + Writes(e)) <= Greedy(a, b) + Price(e)
  {
    match e
    case Keep(c) =>
      InitOf(a, c);
      InitOf(b, c);
      DiagonalStep(a + [c], b + [c]);
    case Insert(d) =>
      InitOf(a, d);
      InitOf(b, d);
      OneMoreSymbol(a, b + [d]);
    case Remove(c) =>
      InitOf(a, c);
      InitOf(b, c);
      OneMoreSymbol(a + [c], b);
    case Replace(c, d) =>
      InitOf(a, c);
      InitOf(b, d);
      DiagonalStep(a + [c], b + [d]);
  }

  /** No script is cheaper than the distance. */
  lemma {:induction false} NoCheaperScript(es: seq<Edit>)
    ensures Greedy(Source(es), Target(es)) <= Cost(es)
    decreases |es|
  {
    if es != [] {
      var fs, e := es[..|es| - 1], es[|es| - 1];
      NoCheaperScript(fs);
      OneEdit(Source(fs), Target(fs), e);
    }
  }

  /** The table's corner is the minimum price over all edit scripts from one text to the other. */
  lemma DistanceIsMinimal(a: Text, b: Text)
    ensures exists es :: Source(es) == a && Target(es) == b && Cost(es) == Greedy(a, b)
    ensures forall es :: Source(es) == a && Target(es) == b ==> Greedy(a, b) <= Cost(es)
  {
    var best := BestScript(a, b);
    forall es | Source(es) == a && Target(es) == b ensures Greedy(a, b) <= Cost(es) {
      NoCheaperScript(es);
    }
  }

  // ----- a metric ---------------------------------------------------------------------------

  lemma {:induction false} Symmetric(a: Text, b: Text)
    ensures Greedy(a, b) == Greedy(b, a)
    decreases |a| + |b|
  {
    if a != [] && b != [] {
      Symmetric(Init(a), b);
      Symmetric(a, Init(b));
      Symmetric(Init(a), Init(b));
    }
  }

  lemma {:induction false} LengthBound(a: Text, b: Text)
    ensures |a| - |b| <= Greedy(a, b) && |b| - |a| <= Greedy(a, b)
    ensures Greedy(a, b) <= if |a| < |b| then |b| else |a|
    decreases |a| + |b|
  {
    if a != [] && b != [] {
      LengthBound(Init(a), b);
      LengthBound(a, Init(b));
      LengthBound(Init(a), Init(b));
    }
  }

  lemma {:induction false} ZeroMeansEqual(a: Text, b: Text)
    ensures Greedy(a, b) == 0 <==> a == b
    decreases |a| + |b|
  {
    if a != [] && b != [] {
      assert a == Init(a) + [Last(a)] && b == Init(b) + [Last(b)];
      ZeroMeansEqual(Init(a), Init(b));
    }
  }

  lemma {:induction false} Triangle(a: Text, b: Text, c: Text)
    ensures Greedy(a, c) <= Greedy(a, b) + Greedy(b, c)
    decreases |a| + |b| + |c|
  {
    if a == [] || b == [] || c == [] {
      LengthBound(a, c);
      LengthBound(a, b);
      LengthBound(b, c);
    } else {
      Triangle(Init(a), b, c);
      Triangle(a, b, Init(c));
      Triangle(a, Init(b), c);
      Triangle(Init(a), Init(b), Init(c));
      Triangle(Init(a), Init(b), c);
      Triangle(a, Init(b), Init(c));
      OneMoreSymbol(a, c);
      OneMoreSymbol(a, b);
      OneMoreSymbol(b, c);
      DiagonalStep(a, c);
    }
  }

  // ----- accepted misspellings --------------------------------------------------------------

  predicate AddedAt(a: Text, b: Text, i: nat) {
    i < |a| && a[..i] + a[i + 1..] == b
  }

  predicate ChangedAt(a: Text, b: Text, i: nat) {
    |a| == |b| && i < |a| && a[i] != b[i] && a[..i] == b[..i] && a[i + 1..] == b[i + 1..]
  }

  /** `b` with one symbol added somewhere is `a`. */
  ghost predicate OneAdded(a: Text, b: Text) {
    exists i: nat :: AddedAt(a, b, i)
  }

  /** The texts differ in exactly one place. */
  ghost predicate OneChanged(a: Text, b: Text) {
    exists i: nat :: ChangedAt(a, b, i)
  }

  lemma {:induction false} CommonSuffix(a: Text, b: Text, s: Text)
    ensures Greedy(a + s, b + s) == Greedy(a, b)
    decreases |s|
  {
    if s == [] {
      assert a + s == a && b + s == b;
    } else {
      assert Init(a + s) == a + Init(s) && Init(b + s) == b + Init(s);
      CommonSuffix(a, b, Init(s));
    }
  }

  lemma AddedLater(a: Text, b: Text, x: int)
    requires OneAdded(a, b)
    ensures OneAdded(a + [x], b + [x])
  {
    var i: nat :| AddedAt(a, b, i);
    assert (a + [x])[..i] + (a + [x])[i + 1..] == (a[..i] + a[i + 1..]) + [x];
    assert AddedAt(a + [x], b + [x], i);
  }

  lemma ChangedLater(a: Text, b: Text, x: int)
    requires OneChanged(a, b)
    ensures OneChanged(a + [x], b + [x])
  {
    var i: nat :| ChangedAt(a, b, i);
    assert (a + [x])[i + 1..] == a[i + 1..] + [x] && (b + [x])[i + 1..] == b[i + 1..] + [x];
    assert (a + [x])[..i] == a[..i] && (b + [x])[..i] == b[..i];
    assert ChangedAt(a + [x], b + [x], i);
  }

  lemma LastAdded(a: Text)
    requires a != []
    ensures OneAdded(a, Init(a))
  {
    assert AddedAt(a, Init(a), |a| - 1);
  }

  lemma LastChanged(a: Text, b: Text)
    requires a != [] && b != [] && Last(a) != Last(b) && Init(a) == Init(b)
    ensures OneChanged(a, b)
  {
    var i := |a| - 1;
    assert |a| == |Init(a)| + 1 == |b|;
    assert ChangedAt(a, b, i);
  }

  lemma {:induction false} NearIsOneEdit(a: Text, b: Text)
    requires Greedy(a, b) == 1 && |a| >= |b|
    ensures OneAdded(a, b) || OneChanged(a, b)
    decreases |a| + |b|
  {
    if b == [] {
      assert Init(a) == b;
      LastAdded(a);
    } else {
      Whole(a);
      Whole(b);
      LengthBound(a, Init(b));
      if Last(a) == Last(b) {
        NearIsOneEdit(Init(a), Init(b));
        if OneAdded(Init(a), Init(b)) {
          AddedLater(Init(a), Init(b), Last(a));
        } else {
          ChangedLater(Init(a), Init(b), Last(a));
        }
      } else if Greedy(Init(a), b) == 0 {
        ZeroMeansEqual(Init(a), b);
        LastAdded(a);
      } else {
        ZeroMeansEqual(Init(a), Init(b));
        LastChanged(a, b);
      }
    }
  }

  lemma AddedIsNear(a: Text, b: Text)
    requires OneAdded(a, b)
    ensures Greedy(a, b) <= 1
  {
    var i: nat :| AddedAt(a, b, i);
    AddInside(a[..i], a[i], a[i + 1..]);
    assert a == a[..i] + [a[i]] + a[i + 1..];
  }

  lemma AddInside(p: Text, x: int, s: Text)
    ensures Greedy(p + [x] + s, p + s) <= 1
  {
    CommonSuffix(p + [x], p, s);
    assert Init(p + [x]) == p;
    OneMoreSymbol(p + [x], p);
    ZeroMeansEqual(p, p);
  }

  lemma ChangedIsNear(a: Text, b: Text)
    requires OneChanged(a, b)
    ensures Greedy(a, b) <= 1
  {
    var i: nat :| ChangedAt(a, b, i);
    ChangeInside(a[..i], a[i], b[i], a[i + 1..]);
    assert a == a[..i] + [a[i]] + a[i + 1..];
    assert b == b[..i] + [b[i]] + b[i + 1..];
  }

  lemma ChangeInside(p: Text, x: int, y: int, s: Text)
    ensures Greedy(p + [x] + s, p + [y] + s) <= 1
  {
    CommonSuffix(p + [x], p + [y], s);
    assert Init(p + [x]) == p && Init(p + [y]) == p;
    DiagonalStep(p + [x], p + [y]);
    ZeroMeansEqual(p, p);
  }

  /** Two texts are less than two edits apart exactly when they are equal, differ in one place, or
      one of them is the other with one symbol added. */
  lemma NearIff(a: Text, b: Text)
    ensures Greedy(a, b) < 2 <==> a == b || OneChanged(a, b) || OneAdded(a, b) || OneAdded(b, a)
  {
    Symmetric(a, b);
    ZeroMeansEqual(a, b);
    if Greedy(a, b) == 1 {
      if |a| >= |b| {
        NearIsOneEdit(a, b);
      } else {
        NearIsOneEdit(b, a);
        ChangedBothWays(b, a);
      }
    }
    if OneAdded(a, b) {
      AddedIsNear(a, b);
    }
    if OneAdded(b, a) {
      AddedIsNear(b, a);
    }
    if OneChanged(a, b) {
      ChangedIsNear(a, b);
    }
  }

  lemma ChangedBothWays(a: Text, b: Text)
    ensures OneChanged(a, b) ==> OneChanged(b, a)
  {
    if OneChanged(a, b) {
      var i: nat :| ChangedAt(a, b, i);
      assert ChangedAt(b, a, i);
    }
  }

  lemma AddedLength(a: Text, b: Text)
    ensures OneAdded(a, b) ==> |b| == |a| - 1
  {
    if OneAdded(a, b) {
      var i: nat :| AddedAt(a, b, i);
      assert |a[..i] + a[i + 1..]| == |a| - 1;
    }
  }

  /** A message that is not shorter than the answer is near it exactly when it is the answer, or
      the answer with one symbol changed or one symbol added. */
  lemma NearAndNotShorter(message: Text, answer: Text)
    requires |message| >= |answer|
    ensures Greedy(message, answer) < 2
       <==> message == answer || OneChanged(message, answer) || OneAdded(message, answer)
  {
    NearIff(message, answer);
    AddedLength(answer, message);
  }

  // ----- the verdict on a message -------------------------------------------------------------

  /** A text as the game compares it: lowercased code points, and the length of its bytes. */
  datatype Candidate = Candidate(text: Text, bytes: nat)

  /** A code point without the accents that Spanish players may leave out. `í` keeps its own. */
  function Unaccented(x: int): int {
    if x == 0xE1 then 0x61
    else if x == 0xE9 then 0x65
    else if x == 0xF3 then 0x6F
    else if x == 0xFA || x == 0xFC then 0x75
    else x
  }

  /** A text as direct comparisons see it; the edit distance is always that of the texts themselves. */
  function Folded(text: Text, spanish: bool): (f: Text)
    ensures |f| == |text|
  {
    if spanish then seq(|text|, i requires 0 <= i < |text| => Unaccented(text[i])) else text
  }

  /** Whether a message answers a question. `numeric` says that the answer is a number or a sum of
      dollars; these, and answers of up to five bytes, must be met exactly. */
  predicate Accepts(answer: Candidate, message: Candidate, numeric: bool, spanish: bool) {
    && answer.bytes > 0
    && ((message.bytes >= answer.bytes && Folded(answer.text, spanish) == Folded(message.text, spanish))
        || (!numeric && answer.bytes > 5
            && (Folded(answer.text, spanish) == Folded(message.text, spanish)
                || (message.bytes >= answer.bytes && Greedy(message.text, answer.text) < 2))))
  }

  /** Both are one of a and á, or of e and é, or of o and ó, or of u, ú and ü. */
  predicate SameVowel(x: int, y: int) {
    || (x in {0x61, 0xE1} && y in {0x61, 0xE1})
    || (x in {0x65, 0xE9} && y in {0x65, 0xE9})
    || (x in {0x6F, 0xF3} && y in {0x6F, 0xF3})
    || (x in {0x75, 0xFA, 0xFC} && y in {0x75, 0xFA, 0xFC})
  }

  lemma UnaccentedIff(x: int, y: int)
    ensures Unaccented(x) == Unaccented(y) <==> x == y || SameVowel(x, y)
  {
  }

  /** The texts are equal, or in a Spanish game differ in nothing but the accents of such vowels. */
  predicate SameButAccents(a: Text, b: Text, spanish: bool) {
    |a| == |b| && forall i :: 0 <= i < |a| ==> a[i] == b[i] || (spanish && SameVowel(a[i], b[i]))
  }

  lemma FoldedAt(a: Text, b: Text, spanish: bool, i: nat)
    requires i < |a| && i < |b|
    ensures Folded(a, spanish)[i] == Folded(b, spanish)[i]
       <==> a[i] == b[i] || (spanish && SameVowel(a[i], b[i]))
  {
    UnaccentedIff(a[i], b[i]);
  }

  lemma FoldedEqual(a: Text, b: Text, spanish: bool)
    ensures Folded(a, spanish) == Folded(b, spanish) <==> SameButAccents(a, b, spanish)
  {
    var f, g := Folded(a, spanish), Folded(b, spanish);
    if |a| == |b| {
      forall i | 0 <= i < |a| ensures f[i] == g[i] <==> a[i] == b[i] || (spanish && SameVowel(a[i], b[i])) {
        FoldedAt(a, b, spanish, i);
      }
    }
  }

  /** What is accepted: the answer, in Spanish games with any of its accents left out or put in, and,
      if it is long enough and no number, with one symbol changed, added or left out. Accents count
      as symbols there. Only long answers may be met with fewer bytes, and only but for accents. */
  lemma AcceptedIff(answer: Candidate, message: Candidate, numeric: bool, spanish: bool)
    ensures Accepts(answer, message, numeric, spanish) <==>
      && answer.bytes > 0
      && (|| (SameButAccents(message.text, answer.text, spanish)
              && (message.bytes >= answer.bytes || (!numeric && answer.bytes > 5)))
          || (!numeric && answer.bytes > 5 && message.bytes >= answer.bytes
              && (OneChanged(message.text, answer.text) || OneAdded(message.text, answer.text)
                  || OneAdded(answer.text, message.text))))
  {
    NearIff(message.text, answer.text);
    FoldedEqual(message.text, answer.text, spanish);
    FoldedEqual(answer.text, message.text, spanish);
  }

  /** For the edit distance an accent that is left out is a symbol changed, so a message without
      it that has also a symbol added is refused. */
  lemma AccentAndAddition(answer: Candidate, message: Candidate, x: int, numeric: bool, spanish: bool)
    requires x in answer.text && x !in message.text && |message.text| > |answer.text|
    ensures !Accepts(answer, message, numeric, spanish)
  {
    if answer.bytes > 0 {
      AcceptedIff(answer, message, numeric, spanish);
      AddedLength(answer.text, message.text);
    }
  }

  const MEXICO: Text := [0x6D, 0xE9, 0x78, 0x69, 0x63, 0x6F]
  const PLAIN: Text := [0x6D, 0x65, 0x78, 0x69, 0x63, 0x6F]

  /** In a Spanish game `mexico` is taken for `méxico`, but not `mexicos`. */
  lemma AccentLeftOut()
    ensures Accepts(Candidate(MEXICO, 7), Candidate(PLAIN, 6), false, true)
    ensures !Accepts(Candidate(MEXICO, 7), Candidate(PLAIN + [0x73], 7), false, true)
  {
    PlainIsFolded();
    assert MEXICO[1] == 0xE9;
    AccentAndAddition(Candidate(MEXICO, 7), Candidate(PLAIN + [0x73], 7), 0xE9, false, true);
  }

  lemma PlainIsFolded()
    ensures Folded(MEXICO, true) == Folded(PLAIN, true)
  {
    FoldedEqual(MEXICO, PLAIN, true);
  }
}
