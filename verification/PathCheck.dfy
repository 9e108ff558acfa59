/** The check that a request path never climbs above its root (httplib.cpp, is_valid_path). */
module PathCheck {
  import opened Common

  /** The length of the component a text starts with. */
  function ComponentLength(p: string): (n: nat)
    ensures n <= |p|
    ensures forall k :: 0 <= k < n ==> p[k] != '/'
    ensures n < |p| ==> p[n] == '/'
  {
    if p == "" || p[0] == '/' then 0 else 1 + ComponentLength(p[1..])
  }

  /** The parts between the slashes that are not empty. */
  function Components(p: string): seq<string>
    decreases |p|
  {
    if p == "" then []
    else if p[0] == '/' then Components(p[1..])
    else [p[..ComponentLength(p)]] + Components(p[ComponentLength(p)..])
  }

  /** Follows the components from a directory; None as soon as there is no parent to go to. */
  function Follow(dir: seq<string>, components: seq<string>): Option<seq<string>>
    decreases |components|
  {
    if components == [] then Some(dir)
    else
      var c, rest := components[0], components[1..];
      if c == "." then Follow(dir, rest)
      else if c == ".." then if dir == [] then None else Follow(dir[..|dir| - 1], rest)
      else Follow(dir + [c], rest)
  }

  predicate StaysInside(path: string) { Follow([], Components(path)).Some? }

  method SkipSlashes(path: string, start: nat) returns (i: nat)
    requires start <= |path|
    ensures start <= i <= |path| && (i < |path| ==> path[i] != '/')
    ensures Components(path[i..]) == Components(path[start..])
  {
    i := start;
    while i < |path| && path[i] == '/'
      invariant start <= i <= |path|
      invariant Components(path[i..]) == Components(path[start..])
    {
      assert path[i..][1..] == path[i + 1..];
      i := i + 1;
    }
  }

  method ReadComponent(path: string, beg: nat) returns (i: nat)
    requires beg < |path| && path[beg] != '/'
    ensures i == beg + ComponentLength(path[beg..]) && beg < i <= |path|
  {
    i := beg;
    while i < |path| && path[i] != '/'
      invariant beg <= i <= |path|
      invariant beg + ComponentLength(path[beg..]) == i + ComponentLength(path[i..])
    {
      assert path[i..][1..] == path[i + 1..];
      i := i + 1;
    }
  }

  lemma NextComponent(path: string, beg: nat, i: nat)
    requires beg < i <= |path| && path[beg] != '/' && i == beg + ComponentLength(path[beg..])
    ensures Components(path[beg..]) == [path[beg..i]] + Components(path[i..])
  {
    assert path[beg..][..i - beg] == path[beg..i] && path[beg..][i - beg..] == path[i..];
  }

  lemma FollowFirst(dir: seq<string>, c: string, rest: seq<string>)
    ensures Follow(dir, [c] + rest) ==
      if c == "." then Follow(dir, rest)
      else if c == ".." then if dir == [] then None else Follow(dir[..|dir| - 1], rest)
      else Follow(dir + [c], rest)
  {
    assert ([c] + rest)[1..] == rest;
  }

  /** At the start of every component `level` is the depth of the directory reached so far. */
  method IsValidPath(path: string) returns (valid: bool)
    ensures valid <==> StaysInside(path)
  {
    var level: nat := 0;
    ghost var dir: seq<string> := [];
    assert path[0..] == path;
    var i := SkipSlashes(path, 0);
    while i < |path|
      invariant i <= |path| && (i < |path| ==> path[i] != '/')
      invariant level == |dir|
      invariant Follow(dir, Components(path[i..])) == Follow([], Components(path))
      decreases |path| - i
    {
      var beg := i;
      i := ReadComponent(path, beg);
      var len := i - beg;
      assert len > 0;
      var c := path[beg..beg + len];
      NextComponent(path, beg, i);
      FollowFirst(dir, c, Components(path[i..]));
      if c == "." {
      } else if c == ".." {
        if level == 0 {
          return false;
        }
        level := level - 1;
        dir := dir[..|dir| - 1];
      } else {
        level := level + 1;
        dir := dir + [c];
      }
      i := SkipSlashes(path, i);
    }
    valid := true;
  }

  /** Components are what a path is made of: they are not empty and hold no slash. */
  lemma {:induction false} ComponentsAreClean(p: string)
    ensures forall c :: c in Components(p) ==> c != "" && '/' !in c
    decreases |p|
  {
    if p != "" {
      if p[0] == '/' {
        ComponentsAreClean(p[1..]);
      } else {
        ComponentsAreClean(p[ComponentLength(p)..]);
      }
    }
  }

  // ----- what the components are ------------------------------------------------------------

  predicate Slashes(s: string) { forall i :: 0 <= i < |s| ==> s[i] == '/' }

  /** A text that is not empty and holds no slash. */
  predicate Stretch(c: string) { c != "" && forall i :: 0 <= i < |c| ==> c[i] != '/' }

  /** Stretches, each with slashes behind it; none may be missing but behind the last one. */
  predicate Alternate(cs: seq<string>, gaps: seq<string>) {
    && |cs| == |gaps|
    && (cs != [] ==>
          && Stretch(cs[0]) && Slashes(gaps[0]) && (gaps[0] != "" || cs[1..] == [])
          && Alternate(cs[1..], gaps[1..]))
  }

  function Spelled(cs: seq<string>, gaps: seq<string>): string
    requires |cs| == |gaps|
  {
    if cs == [] then "" else cs[0] + (gaps[0] + Spelled(cs[1..], gaps[1..]))
  }

  /** The path is slashes or none, then stretches without slashes, separated by slashes, with slashes
      or none behind the last. */
  predicate Splits(path: string, lead: string, cs: seq<string>, gaps: seq<string>) {
    Slashes(lead) && Alternate(cs, gaps) && path == lead + Spelled(cs, gaps)
  }

  lemma {:induction false} BehindSlashes(lead: string, p: string)
    requires Slashes(lead)
    ensures Components(lead + p) == Components(p)
  {
    if lead == "" {
      assert lead + p == p;
    } else {
      assert (lead + p)[1..] == lead[1..] + p && (lead + p)[0] == lead[0];
      assert Slashes(lead[1..]);
      BehindSlashes(lead[1..], p);
    }
  }

  lemma {:induction false} LengthIs(c: string, p: string)
    requires (forall i :: 0 <= i < |c| ==> c[i] != '/') && (p == "" || p[0] == '/')
    ensures ComponentLength(c + p) == |c|
  {
    if c == "" {
      assert c + p == p;
    } else {
      assert (c + p)[1..] == c[1..] + p;
      LengthIs(c[1..], p);
    }
  }

  lemma FirstComponent(c: string, p: string)
    requires Stretch(c) && (p == "" || p[0] == '/')
    ensures Components(c + p) == [c] + Components(p)
  {
    LengthIs(c, p);
    assert (c + p)[0] == c[0] && (c + p)[..|c|] == c && (c + p)[|c|..] == p;
  }

  lemma FirstGap(gap: string, p: string)
    requires Slashes(gap) && (gap != "" || p == "")
    ensures gap + p == "" || (gap + p)[0] == '/'
  {
  }

  lemma {:induction false} SpelledComponents(cs: seq<string>, gaps: seq<string>)
    requires Alternate(cs, gaps)
    ensures Components(Spelled(cs, gaps)) == cs
    decreases |cs|
  {
    if cs != [] {
      var p := Spelled(cs[1..], gaps[1..]);
      SpelledComponents(cs[1..], gaps[1..]);
      FirstGap(gaps[0], p);
      FirstComponent(cs[0], gaps[0] + p);
      BehindSlashes(gaps[0], p);
      assert cs == [cs[0]] + cs[1..];
    }
  }

  /** However a path is split, its components are the stretches. */
  lemma SplitIsComponents(path: string, lead: string, cs: seq<string>, gaps: seq<string>)
    requires Splits(path, lead, cs, gaps)
    ensures Components(path) == cs
  {
    SpelledComponents(cs, gaps);
    BehindSlashes(lead, Spelled(cs, gaps));
  }

  lemma {:induction false} SlashesFirst(p: string) returns (n: nat)
    ensures n <= |p| && Slashes(p[..n]) && (n < |p| ==> p[n] != '/')
  {
    if p == "" || p[0] != '/' {
      n := 0;
    } else {
      n := SlashesFirst(p[1..]);
      n := n + 1;
      assert p[..n] == [p[0]] + p[1..][..n - 1];
    }
  }

  lemma StretchFirst(p: string)
    requires p != "" && p[0] != '/'
    ensures var k := ComponentLength(p); Stretch(p[..k])
  {
  }

  lemma InThree(p: string, k: nat, m: nat)
    requires k <= m <= |p|
    ensures p == p[..k] + (p[k..][..m - k] + p[m..])
  {
    assert p[k..][..m - k] == p[k..m];
    assert p[k..] == p[k..m] + p[m..];
    assert p == p[..k] + p[k..];
  }

  lemma AlternateInFront(c: string, gap: string, cs: seq<string>, gaps: seq<string>)
    requires Stretch(c) && Slashes(gap) && (gap != "" || cs == []) && Alternate(cs, gaps)
    ensures Alternate([c] + cs, [gap] + gaps)
    ensures Spelled([c] + cs, [gap] + gaps) == c + (gap + Spelled(cs, gaps))
  {
    assert ([c] + cs)[1..] == cs && ([gap] + gaps)[1..] == gaps;
  }

  /** From the start of a component: there is a splitting. */
  lemma {:induction false} SplitFrom(p: string) returns (cs: seq<string>, gaps: seq<string>)
    requires p != "" ==> p[0] != '/'
    ensures Alternate(cs, gaps) && Spelled(cs, gaps) == p && (p == "" ==> cs == [])
    decreases |p|
  {
    cs, gaps := [], [];
    if p != "" {
      var k := ComponentLength(p);
      var n := SlashesFirst(p[k..]);
      StretchFirst(p);
      cs, gaps := SplitFrom(p[k + n..]);
      AlternateInFront(p[..k], p[k..][..n], cs, gaps);
      InThree(p, k, k + n);
      cs, gaps := [p[..k]] + cs, [p[k..][..n]] + gaps;
    }
  }

  /** Every path can be split. */
  lemma PathSplits(path: string) returns (lead: string, cs: seq<string>, gaps: seq<string>)
    ensures Splits(path, lead, cs, gaps)
  {
    var n := SlashesFirst(path);
    lead := path[..n];
    cs, gaps := SplitFrom(path[n..]);
    assert path == path[..n] + path[n..];
  }

  /** Every prefix of the walk stays inside as well: the depth is never below the root. */
  lemma {:induction false} PrefixStaysInside(dir: seq<string>, cs: seq<string>, k: nat)
    requires k <= |cs| && Follow(dir, cs).Some?
    ensures Follow(dir, cs[..k]).Some?
    decreases k
  {
    if k > 0 {
      var c := cs[0];
      assert cs[..k][1..] == cs[1..][..k - 1];
      if c == "." {
        PrefixStaysInside(dir, cs[1..], k - 1);
      } else if c == ".." {
        PrefixStaysInside(dir[..|dir| - 1], cs[1..], k - 1);
      } else {
        PrefixStaysInside(dir + [c], cs[1..], k - 1);
      }
    }
  }

  /** Ups and downs of a component. */
  function Climb(c: string): int { if c == "." then 0 else if c == ".." then -1 else 1 }

  function Height(cs: seq<string>): int {
    if cs == [] then 0 else Height(cs[..|cs| - 1]) + Climb(cs[|cs| - 1])
  }

  lemma {:induction false} FollowAppend(dir: seq<string>, cs: seq<string>, c: string)
    ensures Follow(dir, cs + [c]) ==
      var d := Follow(dir, cs);
      if d.None? then None
      else if c == "." then d
      else if c == ".." then if d.value == [] then None else Some(d.value[..|d.value| - 1])
      else Some(d.value + [c])
    decreases |cs|
  {
    if cs == [] {
      assert [c][1..] == [];
    } else {
      assert (cs + [c])[1..] == cs[1..] + [c];
      var e := cs[0];
      if e == "." {
        FollowAppend(dir, cs[1..], c);
      } else if e == ".." {
        if dir != [] {
          FollowAppend(dir[..|dir| - 1], cs[1..], c);
        }
      } else {
        FollowAppend(dir + [e], cs[1..], c);
      }
    }
  }

  /** A walk from the root stays inside exactly when no beginning of it goes up more often than
      down, and then its end is as deep as the difference. */
  lemma {:induction false} InsideIffNeverBelow(cs: seq<string>)
    ensures Follow([], cs).Some? <==> forall k :: 0 <= k <= |cs| ==> Height(cs[..k]) >= 0
    ensures Follow([], cs).Some? ==> |Follow([], cs).value| == Height(cs)
    decreases |cs|
  {
    assert cs[..|cs|] == cs;
    if cs != [] {
      var fs, c := cs[..|cs| - 1], cs[|cs| - 1];
      assert cs == fs + [c];
      InsideIffNeverBelow(fs);
      FollowAppend([], fs, c);
      assert forall k :: 0 <= k <= |fs| ==> cs[..k] == fs[..k];
      assert fs[..|fs|] == fs;
    }
  }

  /** No beginning of the walk goes up more often than down. */
  predicate NeverBelow(cs: seq<string>) { forall k :: 0 <= k <= |cs| ==> Height(cs[..k]) >= 0 }

  /** The verdict on a path, for any way to split it; and there is one. */
  lemma VerdictOnSplit(path: string)
    ensures forall lead, cs, gaps :: Splits(path, lead, cs, gaps) ==> (StaysInside(path) <==> NeverBelow(cs))
    ensures exists lead, cs, gaps :: Splits(path, lead, cs, gaps)
  {
    forall lead, cs, gaps | Splits(path, lead, cs, gaps) ensures StaysInside(path) <==> NeverBelow(cs) {
      SplitIsComponents(path, lead, cs, gaps);
      InsideIffNeverBelow(cs);
    }
    var lead, cs, gaps := PathSplits(path);
  }
}
