/** Search and replace as in stringops.cpp. The search ignores case, although its comments call it
    case sensitive. */
module ReplaceString {
  import opened Common

  function LowerChar(c: char): char {
    if 'A' <= c <= 'Z' then c - 'A' + 'a' else c
  }

  function Lower(s: string): (l: string)
    ensures |l| == |s|
  {
    seq(|s|, i requires 0 <= i < |s| => LowerChar(s[i]))
  }

  predicate At(s: string, t: string, k: nat) {
    k + |t| <= |s| && s[k..k + |t|] == t
  }

  /** The first place at or after `pos` where `t` stands in `s`. */
  function Find(s: string, t: string, pos: nat): (k: Option<nat>)
    ensures k.Some? ==> pos <= k.value && k.value + |t| <= |s|
    decreases |s| + 1 - pos
  {
    if pos + |t| > |s| then None
    else if At(s, t, pos) then Some(pos)
    else Find(s, t, pos + 1)
  }

  lemma {:induction false} FindSpec(s: string, t: string, pos: nat)
    ensures var k := Find(s, t, pos);
      && (k.Some? ==> At(s, t, k.value) && forall j :: pos <= j < k.value ==> !At(s, t, j))
      && (k.None? ==> forall j :: pos <= j ==> !At(s, t, j))
    decreases |s| + 1 - pos
  {
    if pos + |t| <= |s| && !At(s, t, pos) {
      FindSpec(s, t, pos + 1);
    }
  }

  /** Where the search text first stands in a text, whatever the case. */
  function FirstMatch(s: string, search: string): (k: Option<nat>)
    ensures k.Some? ==> k.value + |search| <= |s|
  {
    Find(Lower(s), Lower(search), 0)
  }

  /** The leftmost match is replaced, and the search goes on behind it in the old text. */
  function Replaced(s: string, search: string, replace: string): string
    requires search != ""
    decreases |s|
  {
    var k := FirstMatch(s, search);
    if k.None? then s
    else s[..k.value] + replace + Replaced(s[k.value + |search|..], search, replace)
  }

  lemma LowerConcat(s: string, t: string)
    ensures Lower(s + t) == Lower(s) + Lower(t)
  {
  }

  lemma LowerSlice(s: string, lo: nat, hi: nat)
    requires lo <= hi <= |s|
    ensures Lower(s)[lo..hi] == Lower(s[lo..hi])
  {
    assert s == s[..lo] + s[lo..hi] + s[hi..];
    LowerConcat(s[..lo] + s[lo..hi], s[hi..]);
    LowerConcat(s[..lo], s[lo..hi]);
  }

  lemma LowerParts(s: string, k: nat)
    requires k <= |s|
    ensures Lower(s)[..k] == Lower(s[..k]) && Lower(s)[k..] == Lower(s[k..])
  {
    assert s == s[..k] + s[k..];
    LowerConcat(s[..k], s[k..]);
  }

  lemma AtBehind(u: string, v: string, t: string, j: nat)
    ensures At(v, t, j) <==> At(u + v, t, |u| + j)
  {
    if j + |t| <= |v| {
      assert v[j..j + |t|] == (u + v)[|u| + j..|u| + j + |t|];
    }
  }

  function Shifted(k: Option<nat>, n: nat): Option<nat> {
    if k.None? then None else Some(n + k.value)
  }

  /** Searching from a place is searching the text behind it. */
  lemma {:induction false} FindBehind(u: string, v: string, t: string, pos: nat)
    ensures Find(u + v, t, |u| + pos) == Shifted(Find(v, t, pos), |u|)
    decreases |v| + 1 - pos
  {
    AtBehind(u, v, t, pos);
    if pos + |t| <= |v| && !At(v, t, pos) {
      FindBehind(u, v, t, pos + 1);
    }
  }

  /** In a text whose first part has been dealt with, the search from there finds the first match
      of the rest. */
  lemma FoundBehind(done: string, tail: string, search: string)
    ensures Find(Lower(done + tail), Lower(search), |done|) == Shifted(FirstMatch(tail, search), |done|)
  {
    LowerConcat(done, tail);
    FindBehind(Lower(done), Lower(tail), Lower(search), 0);
  }

  lemma Splice(p: string, m: string, c: string, r: string)
    ensures (p + m + c)[..|p|] + r + (p + m + c)[|p| + |m|..] == p + r + c
  {
    assert (p + m + c)[..|p|] == p;
    assert (p + m + c)[|p| + |m|..] == c;
  }

  lemma LowerThree(p: string, m: string, c: string)
    ensures Lower(p + m + c) == Lower(p) + Lower(m) + Lower(c)
  {
    LowerConcat(p + m, c);
    LowerConcat(p, m);
  }

  /** Replaces one match in the text and in its lowercase shadow. */
  method ReplaceMatch(subject: string, subjectLc: string, pos: nat, length: nat, replace: string,
                      ghost p: string, ghost m: string, ghost c: string)
    returns (next: string, nextLc: string)
    requires subject == p + m + c && |p| == pos && |m| == length && subjectLc == Lower(subject)
    ensures next == p + replace + c && nextLc == Lower(p + replace + c)
  {
    Splice(p, m, c, replace);
    LowerThree(p, m, c);
    Splice(Lower(p), Lower(m), Lower(c), Lower(replace));
    LowerThree(p, replace, c);
    next := subject[..pos] + replace + subject[pos + length..];
    nextLc := subjectLc[..pos] + Lower(replace) + subjectLc[pos + length..];
  }

  /** Cuts what has not been searched yet at its first match. */
  lemma CutTail(done: string, tail: string, search: string, replace: string, j: nat)
    returns (b: string, m: string, c: string)
    requires search != "" && FirstMatch(tail, search) == Some(j)
    ensures |b| == j && |m| == |search| && |c| < |tail|
    ensures done + tail == (done + b) + m + c
    ensures done + Replaced(tail, search, replace) == (done + b + replace) + Replaced(c, search, replace)
  {
    b, m, c := tail[..j], tail[j..j + |search|], tail[j + |search|..];
    ThreeParts(tail, j, j + |search|);
    FourParts(done, b, m, c);
    ReplacedOnce(tail, search, replace);
    FourParts(done, b, replace, Replaced(c, search, replace));
  }

  lemma FourParts(d: string, b: string, m: string, c: string)
    ensures d + (b + m + c) == (d + b) + m + c
  {
  }

  method ReplaceString(text: string, search: string, replace: string) returns (subject: string)
    requires search != ""
    ensures subject == Replaced(text, search, replace)
  {
    subject := text;
    var pos: nat := 0;
    var subjectLc, searchLc := Lower(subject), Lower(search);
    ghost var done, tail := "", text;
    FoundBehind(done, tail, search);
    var found := Find(subjectLc, searchLc, pos);
    while found.Some?
      invariant subject == done + tail && pos == |done| && subjectLc == Lower(subject)
      invariant found == Shifted(FirstMatch(tail, search), pos)
      invariant done + Replaced(tail, search, replace) == Replaced(text, search, replace)
      decreases |tail|
    {
      ghost var b, m, c := CutTail(done, tail, search, replace, found.value - pos);
      pos := found.value;
      subject, subjectLc := ReplaceMatch(subject, subjectLc, pos, |search|, replace, done + b, m, c);
      pos := pos + |replace|;
      done, tail := done + b + replace, c;
      FoundBehind(done, tail, search);
      found := Find(subjectLc, searchLc, pos);
    }
  }

  // ----- what the result is made of -----------------------------------------------------------

  /** The stretches of the text between the matches, from the left. */
  function Stretches(s: string, search: string): (r: seq<string>)
    requires search != ""
    ensures r != []
    decreases |s|
  {
    var k := FirstMatch(s, search);
    if k.None? then [s] else [s[..k.value]] + Stretches(s[k.value + |search|..], search)
  }

  /** The matches, as they stand in the text. */
  function Matches(s: string, search: string): (r: seq<string>)
    requires search != ""
    ensures |r| + 1 == |Stretches(s, search)|
    decreases |s|
  {
    var k := FirstMatch(s, search);
    if k.None? then [] else [s[k.value..k.value + |search|]] + Matches(s[k.value + |search|..], search)
  }

  /** The stretches with the texts `between` put between them. */
  function Weave(stretches: seq<string>, between: seq<string>): string
    requires |stretches| == |between| + 1
  {
    if between == [] then stretches[0] else stretches[0] + between[0] + Weave(stretches[1..], between[1..])
  }

  lemma WeaveStep(a: string, stretches: seq<string>, m: string, between: seq<string>)
    requires |stretches| == |between| + 1
    ensures Weave([a] + stretches, [m] + between) == a + m + Weave(stretches, between)
  {
    assert ([a] + stretches)[1..] == stretches && ([m] + between)[1..] == between;
  }

  /** The first match and what goes before it. */
  lemma FirstStretch(s: string, search: string, k: nat)
    requires search != "" && FirstMatch(s, search) == Some(k)
    ensures var next := s[k + |search|..];
      && Stretches(s, search) == [s[..k]] + Stretches(next, search)
      && Matches(s, search) == [s[k..k + |search|]] + Matches(next, search)
  {
  }

  lemma ThreeParts(s: string, lo: nat, hi: nat)
    requires lo <= hi <= |s|
    ensures s == s[..lo] + s[lo..hi] + s[hi..]
  {
  }

  lemma {:induction false} TextIsWoven(s: string, search: string)
    requires search != ""
    ensures s == Weave(Stretches(s, search), Matches(s, search))
    decreases |s|
  {
    if FirstMatch(s, search).Some? {
      var k := FirstMatch(s, search).value;
      var next := s[k + |search|..];
      TextIsWoven(next, search);
      FirstStretch(s, search, k);
      WeaveStep(s[..k], Stretches(next, search), s[k..k + |search|], Matches(next, search));
      ThreeParts(s, k, k + |search|);
    }
  }

  function Copies(replace: string, n: nat): (r: seq<string>)
    ensures |r| == n
  {
    if n == 0 then [] else [replace] + Copies(replace, n - 1)
  }

  lemma ReplacedOnce(s: string, search: string, replace: string)
    requires search != "" && FirstMatch(s, search).Some?
    ensures var k := FirstMatch(s, search);
      Replaced(s, search, replace) == s[..k.value] + replace + Replaced(s[k.value + |search|..], search, replace)
  {
  }

  lemma {:induction false} ResultIsWoven(s: string, search: string, replace: string)
    requires search != ""
    ensures Replaced(s, search, replace) == Weave(Stretches(s, search), Copies(replace, |Matches(s, search)|))
    decreases |s|
  {
    if FirstMatch(s, search).Some? {
      var k := FirstMatch(s, search).value;
      var next := s[k + |search|..];
      var copies := Copies(replace, |Matches(next, search)|);
      ResultIsWoven(next, search, replace);
      FirstStretch(s, search, k);
      ReplacedOnce(s, search, replace);
      assert Copies(replace, |Matches(s, search)|) == [replace] + copies;
      WeaveStep(s[..k], Stretches(next, search), replace, copies);
    }
  }

  /** The text is woven from its stretches and matches, and the result from the same stretches and
      as many copies of the replacement. */
  lemma ReplacedIsWoven(s: string, search: string, replace: string)
    requires search != ""
    ensures s == Weave(Stretches(s, search), Matches(s, search))
    ensures Replaced(s, search, replace) == Weave(Stretches(s, search), Copies(replace, |Matches(s, search)|))
  {
    TextIsWoven(s, search);
    ResultIsWoven(s, search, replace);
  }

  lemma FirstMatchMatches(s: string, search: string, k: nat)
    requires FirstMatch(s, search) == Some(k)
    ensures Lower(s[k..k + |search|]) == Lower(search)
  {
    FindSpec(Lower(s), Lower(search), 0);
    LowerSlice(s, k, k + |search|);
  }

  predicate AllAre(texts: seq<string>, lower: string) {
    forall x :: x in texts ==> Lower(x) == lower
  }

  lemma AllOf(m: string, later: seq<string>, lower: string)
    requires Lower(m) == lower && AllAre(later, lower)
    ensures AllAre([m] + later, lower)
  {
  }

  lemma {:induction false} AllMatchesAre(s: string, search: string)
    requires search != ""
    ensures AllAre(Matches(s, search), Lower(search))
    decreases |s|
  {
    if FirstMatch(s, search).Some? {
      var k := FirstMatch(s, search).value;
      var next := s[k + |search|..];
      FirstMatchMatches(s, search, k);
      AllMatchesAre(next, search);
      FirstStretch(s, search, k);
      AllOf(s[k..k + |search|], Matches(next, search), Lower(search));
    }
  }

  /** The same character, or one ASCII letter in both cases. */
  predicate SameLetter(c: char, d: char) {
    || c == d
    || ('A' <= c <= 'Z' && d as int == c as int + 32)
    || ('A' <= d <= 'Z' && c as int == d as int + 32)
  }

  predicate SameButCase(m: string, t: string) {
    |m| == |t| && forall i :: 0 <= i < |m| ==> SameLetter(m[i], t[i])
  }

  lemma LowerIff(c: char, d: char)
    ensures LowerChar(c) == LowerChar(d) <==> SameLetter(c, d)
  {
  }

  lemma LowerTextIff(m: string, t: string)
    ensures Lower(m) == Lower(t) <==> SameButCase(m, t)
  {
    if |m| == |t| {
      forall i | 0 <= i < |m| ensures Lower(m)[i] == Lower(t)[i] <==> SameLetter(m[i], t[i]) {
        LowerIff(m[i], t[i]);
      }
    }
  }

  /** Every match is the search text but for case. */
  lemma MatchesMatch(s: string, search: string)
    requires search != ""
    ensures forall m :: m in Matches(s, search) ==> Lower(m) == Lower(search) && SameButCase(m, search)
  {
    AllMatchesAre(s, search);
    forall m | m in Matches(s, search) ensures SameButCase(m, search) {
      LowerTextIff(m, search);
    }
  }

  /** The search text stands at a place, in any case. */
  predicate StandsAt(s: string, search: string, j: nat) {
    j + |search| <= |s| && SameButCase(s[j..j + |search|], search)
  }

  lemma StandsAtIff(s: string, search: string, j: nat)
    ensures StandsAt(s, search, j) <==> At(Lower(s), Lower(search), j)
  {
    if j + |search| <= |s| {
      LowerSlice(s, j, j + |search|);
      LowerTextIff(s[j..j + |search|], search);
    }
  }

  ghost predicate Nowhere(s: string, search: string) {
    forall j: nat :: !StandsAt(s, search, j)
  }

  /** The first match is the leftmost place where the search text stands, and there is none exactly
      when it stands nowhere. */
  lemma FirstMatchIff(s: string, search: string)
    ensures var k := FirstMatch(s, search);
      && (k.None? <==> Nowhere(s, search))
      && (k.Some? ==> StandsAt(s, search, k.value) && forall j: nat :: j < k.value ==> !StandsAt(s, search, j))
  {
    FindSpec(Lower(s), Lower(search), 0);
    forall j: nat ensures StandsAt(s, search, j) <==> At(Lower(s), Lower(search), j) {
      StandsAtIff(s, search, j);
    }
  }

  /** No stretch holds a match. */
  lemma {:induction false} StretchesHoldNoMatch(s: string, search: string)
    requires search != ""
    ensures forall a :: a in Stretches(s, search) ==> FirstMatch(a, search).None?
    decreases |s|
  {
    var k := FirstMatch(s, search);
    if k.Some? {
      NoMatchBefore(s, search, k.value);
      StretchesHoldNoMatch(s[k.value + |search|..], search);
    }
  }

  lemma AtPrefix(u: string, t: string, k: nat, j: nat)
    requires k <= |u|
    ensures At(u[..k], t, j) ==> At(u, t, j) && j + |t| <= k
  {
    if At(u[..k], t, j) {
      assert u[..k][j..j + |t|] == u[j..j + |t|];
    }
  }

  lemma NoMatchBefore(s: string, search: string, k: nat)
    requires search != "" && FirstMatch(s, search) == Some(k)
    ensures FirstMatch(s[..k], search).None?
  {
    var t := Lower(search);
    LowerParts(s, k);
    FindSpec(Lower(s), t, 0);
    FindSpec(Lower(s)[..k], t, 0);
    forall j: nat ensures !At(Lower(s)[..k], t, j) {
      AtPrefix(Lower(s), t, k, j);
    }
  }

  // ----- when the loop ends -------------------------------------------------------------------

  /** The state of the loop. */
  datatype Loop = Loop(subject: string, pos: nat)

  function Turn(l: Loop, search: string, replace: string): Option<Loop> {
    var k := Find(Lower(l.subject), Lower(search), l.pos);
    if k.None? then None
    else Some(Loop(l.subject[..k.value] + replace + l.subject[k.value + |search|..], k.value + |replace|))
  }

  /** The state after `n` turns, None once the loop has left before. */
  function Turns(text: string, search: string, replace: string, n: nat): Option<Loop> {
    if n == 0 then Some(Loop(text, 0))
    else
      var l := Turns(text, search, replace, n - 1);
      if l.None? then None else Turn(l.value, search, replace)
  }

  /** Behind the place the search has reached there is less text after each turn. */
  lemma TurnUsesText(l: Loop, search: string, replace: string)
    requires l.pos <= |l.subject|
    ensures var l' := Turn(l, search, replace);
      && (l'.Some? ==> l'.value.pos <= |l'.value.subject|)
      && (l'.Some? ==> |l'.value.subject| - l'.value.pos + |search| <= |l.subject| - l.pos)
      && (search == "" ==> l'.Some?)
  {
  }

  lemma {:induction false} EmptySearchNeverLeaves(text: string, replace: string, n: nat)
    ensures var l := Turns(text, "", replace, n); l.Some? && l.value.pos <= |l.value.subject|
  {
    if n > 0 {
      EmptySearchNeverLeaves(text, replace, n - 1);
      TurnUsesText(Turns(text, "", replace, n - 1).value, "", replace);
    }
  }

  lemma {:induction false} EachTurnUsesText(text: string, search: string, replace: string, n: nat)
    requires search != ""
    ensures var l := Turns(text, search, replace, n);
      l.Some? ==> l.value.pos <= |l.value.subject| && |l.value.subject| - l.value.pos + n <= |text|
  {
    if n > 0 {
      EachTurnUsesText(text, search, replace, n - 1);
      var l := Turns(text, search, replace, n - 1);
      if l.Some? {
        TurnUsesText(l.value, search, replace);
      }
    }
  }

  /** The loop leaves exactly when there is something to search for. */
  lemma LoopLeavesIff(text: string, search: string, replace: string)
    ensures (exists n: nat :: Turns(text, search, replace, n).None?) <==> search != ""
  {
    if search == "" {
      forall n: nat ensures Turns(text, search, replace, n).Some? {
        EmptySearchNeverLeaves(text, replace, n);
      }
    } else {
      EachTurnUsesText(text, search, replace, |text| + 1);
    }
  }

  // ----- when it is case sensitive ------------------------------------------------------------

  /** What the function is documented to compute: the same replacement with an exact search. */
  function ReplacedExact(s: string, search: string, replace: string): string
    requires search != ""
    decreases |s|
  {
    var k := Find(s, search, 0);
    if k.None? then s
    else s[..k.value] + replace + ReplacedExact(s[k.value + |search|..], search, replace)
  }

  lemma ExactIsMatch(s: string, search: string, k: nat)
    ensures At(s, search, k) ==> At(Lower(s), Lower(search), k)
  {
    if At(s, search, k) {
      LowerSlice(s, k, k + |search|);
    }
  }

  /** The exact search finds nothing before the first match, and finds that if it is exact. */
  lemma FirstExact(s: string, search: string)
    ensures var k, e := FirstMatch(s, search), Find(s, search, 0);
      && (e.Some? ==> k.Some? && k.value <= e.value)
      && (k.Some? && At(s, search, k.value) ==> e == k)
      && (e == k && k.Some? ==> At(s, search, k.value))
  {
    FindSpec(Lower(s), Lower(search), 0);
    FindSpec(s, search, 0);
    forall j: nat ensures At(s, search, j) ==> At(Lower(s), Lower(search), j) {
      ExactIsMatch(s, search, j);
    }
  }

  predicate AllExact(s: string, search: string)
    requires search != ""
  {
    forall m :: m in Matches(s, search) ==> m == search
  }

  lemma AllExactStep(s: string, search: string, k: nat)
    requires search != "" && FirstMatch(s, search) == Some(k)
    ensures AllExact(s, search) <==> At(s, search, k) && AllExact(s[k + |search|..], search)
  {
    var m, later := s[k..k + |search|], Matches(s[k + |search|..], search);
    FirstStretch(s, search, k);
    assert m in [m] + later && forall x :: x in later ==> x in [m] + later;
  }

  lemma ExactOnce(s: string, search: string, replace: string)
    requires search != "" && Find(s, search, 0).Some?
    ensures var k := Find(s, search, 0);
      ReplacedExact(s, search, replace)
      == s[..k.value] + replace + ReplacedExact(s[k.value + |search|..], search, replace)
  {
  }

  /** Both results after a match that is exact: the same beginning, then the results for the rest. */
  lemma BothOnce(s: string, search: string, replace: string) returns (p: string, tail: string)
    requires search != "" && FirstMatch(s, search).Some? && Find(s, search, 0) == FirstMatch(s, search)
    ensures tail == s[FirstMatch(s, search).value + |search|..]
    ensures Replaced(s, search, replace) == p + Replaced(tail, search, replace)
    ensures ReplacedExact(s, search, replace) == p + ReplacedExact(tail, search, replace)
  {
    ReplacedOnce(s, search, replace);
    ExactOnce(s, search, replace);
    var k := FirstMatch(s, search);
    p, tail := s[..k.value] + replace, s[k.value + |search|..];
  }

  lemma {:induction false} ExactAgrees(s: string, search: string, replace: string)
    requires search != "" && AllExact(s, search)
    ensures Replaced(s, search, replace) == ReplacedExact(s, search, replace)
    decreases |s|
  {
    FirstExact(s, search);
    if FirstMatch(s, search).Some? {
      var k := FirstMatch(s, search).value;
      AllExactStep(s, search, k);
      ExactAgrees(s[k + |search|..], search, replace);
      var p, tail := BothOnce(s, search, replace);
    }
  }

  lemma DifferentTails(p: string, a: string, b: string)
    requires a != b
    ensures p + a != p + b
  {
    assert (p + a)[|p|..] == a && (p + b)[|p|..] == b;
  }

  lemma MatchIsReplaced(s: string, search: string, c: char, k: nat)
    requires search != "" && FirstMatch(s, search) == Some(k)
    ensures k < |Replaced(s, search, [c])| && Replaced(s, search, [c])[k] == c
  {
    ReplacedOnce(s, search, [c]);
    SymbolAt(s, k, [c], Replaced(s[k + |search|..], search, [c]), k);
  }

  lemma SymbolIsKept(s: string, search: string, c: char, k: nat)
    requires search != "" && k < |s| && (Find(s, search, 0).Some? ==> k < Find(s, search, 0).value)
    ensures k < |ReplacedExact(s, search, [c])| && ReplacedExact(s, search, [c])[k] == s[k]
  {
    var e := Find(s, search, 0);
    if e.Some? {
      SymbolAt(s, e.value, [c], ReplacedExact(s[e.value + |search|..], search, [c]), k);
    }
  }

  /** Where the exact search passes over the first match, that stands in its result. */
  lemma PassedOver(s: string, search: string, c: char, k: nat)
    requires search != "" && FirstMatch(s, search) == Some(k) && !At(s, search, k) && c != s[k]
    ensures Replaced(s, search, [c]) != ReplacedExact(s, search, [c])
  {
    FirstExact(s, search);
    MatchIsReplaced(s, search, c, k);
    SymbolIsKept(s, search, c, k);
  }

  lemma SymbolAt(s: string, e: nat, r: string, tail: string, k: nat)
    requires k <= e <= |s| && r != "" && k < |s|
    ensures (s[..e] + r + tail)[k] == if k < e then s[k] else r[0]
  {
  }

  /** A match that is not exact shows in the result for some replacement. */
  lemma {:induction false} InexactDiffers(s: string, search: string) returns (replace: string)
    requires search != "" && !AllExact(s, search)
    ensures Replaced(s, search, replace) != ReplacedExact(s, search, replace)
    decreases |s|
  {
    assert FirstMatch(s, search).Some?;
    var k := FirstMatch(s, search).value;
    AllExactStep(s, search, k);
    if At(s, search, k) {
      FirstExact(s, search);
      replace := InexactDiffers(s[k + |search|..], search);
      var p, tail := BothOnce(s, search, replace);
      DifferentTails(p, Replaced(tail, search, replace), ReplacedExact(tail, search, replace));
    } else {
      var c := if s[k] == 'a' then 'b' else 'a';
      replace := [c];
      PassedOver(s, search, c, k);
    }
  }

  /** In a given text the search is case sensitive, for all replacements, exactly when every match
      is the search text itself. */
  lemma ExactIff(s: string, search: string)
    requires search != ""
    ensures (forall replace :: Replaced(s, search, replace) == ReplacedExact(s, search, replace))
       <==> AllExact(s, search)
  {
    if AllExact(s, search) {
      forall replace ensures Replaced(s, search, replace) == ReplacedExact(s, search, replace) {
        ExactAgrees(s, search, replace);
      }
    } else {
      var replace := InexactDiffers(s, search);
    }
  }

  predicate IsLetter(c: char) { 'A' <= c <= 'Z' || 'a' <= c <= 'z' }

  function OtherCase(c: char): char {
    if 'A' <= c <= 'Z' then c - 'A' + 'a' else if 'a' <= c <= 'z' then c - 'a' + 'A' else c
  }

  lemma WithoutLetters(m: string, search: string)
    requires (forall c :: c in search ==> !IsLetter(c)) && Lower(m) == Lower(search)
    ensures m == search
  {
    assert |m| == |search|;
    forall i | 0 <= i < |m| ensures m[i] == search[i] {
      assert Lower(m)[i] == Lower(search)[i];
      assert !IsLetter(search[i]);
    }
  }

  /** A text that differs from the search text in the case of one letter. */
  lemma WithLetter(search: string, i: nat) returns (s: string)
    requires i < |search| && IsLetter(search[i])
    ensures !AllExact(s, search)
  {
    s := search[i := OtherCase(search[i])];
    assert Lower(s) == Lower(search) && s[i] != search[i];
    WholeMatch(s, search);
  }

  lemma WholeMatch(s: string, search: string)
    requires search != "" && Lower(s) == Lower(search) && s != search
    ensures !AllExact(s, search)
  {
    assert |s| == |search| && Lower(s)[0..0 + |search|] == Lower(s);
    assert At(Lower(s), Lower(search), 0);
    AllExactStep(s, search, 0);
    assert s[0..0 + |search|] == s;
  }

  /** The search is case sensitive in all texts exactly when its text has no letters. */
  lemma CaseSensitiveIff(search: string)
    requires search != ""
    ensures (forall s, replace :: Replaced(s, search, replace) == ReplacedExact(s, search, replace))
       <==> (forall c :: c in search ==> !IsLetter(c))
  {
    if forall c :: c in search ==> !IsLetter(c) {
      forall s, replace ensures Replaced(s, search, replace) == ReplacedExact(s, search, replace) {
        MatchesMatch(s, search);
        forall m | m in Matches(s, search) ensures m == search {
          WithoutLetters(m, search);
        }
        ExactAgrees(s, search, replace);
      }
    } else {
      var i: nat :| i < |search| && IsLetter(search[i]);
      var s := WithLetter(search, i);
      var replace := InexactDiffers(s, search);
    }
  }

  /** An instance; and with a replacement that happens to be what stood there, no difference shows. */
  lemma CaseIsIgnored()
    ensures Replaced("A", "a", "b") == "b" && ReplacedExact("A", "a", "b") == "A"
    ensures Replaced("A", "a", "A") == ReplacedExact("A", "a", "A") && !AllExact("A", "a")
  {
    assert Lower("A") == "a" && Lower("a") == "a";
    assert At(Lower("A"), Lower("a"), 0);
    assert !At("A", "a", 0);
    assert "A"[0..0 + 1] == "A";
    assert "A"[1..] == "" && FirstMatch("", "a").None?;
    assert "A" in Matches("A", "a");
  }
}
