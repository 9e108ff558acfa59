/** Insane rounds: the answer set, its counters and the players' statistics over a run. */
module GameInsane {
  import opened Common
  import opened Engine
  import opened GameInvariant
  import opened GameAwards

  // ----- the board of a round -------------------------------------------------------------------

  /** How many different texts there are in a list. */
  function Different(s: seq<string>): (n: nat)
    ensures n <= |s|
  {
    if s == [] then 0
    else
      var init := s[..|s| - 1];
      Different(init) + if s[|s| - 1] in init then 0 else 1
  }

  lemma {:induction false} ElemsAreDifferent(s: seq<string>)
    ensures |Elems(s)| == Different(s)
  {
    if s != [] {
      var init, last := s[..|s| - 1], s[|s| - 1];
      ElemsAreDifferent(init);
      assert s == init + [last];
      ElemsAppend(init, last);
      assert last in init ==> Elems(s) == Elems(init);
    }
  }

  lemma KeysAreEntries(answers: AnswerList)
    requires |answers| >= 2
    ensures forall k :: k in AnswerKeys(answers) <==> exists i :: 1 <= i < |answers| && answers[i] == k
    ensures |AnswerKeys(answers)| == Different(answers[1..]) < TWO32
  {
    var entries := answers[1..];
    ElemsAreDifferent(entries);
    forall k ensures k in AnswerKeys(answers) <==> exists i :: 1 <= i < |answers| && answers[i] == k {
      if k in entries {
        var j :| 0 <= j < |entries| && entries[j] == k;
        assert answers[j + 1] == k;
      }
      if i :| 1 <= i < |answers| && answers[i] == k {
        assert entries[i - 1] == k;
      }
    }
  }

  /** A tick that asks an insane round puts up the first list of two entries or more that is fetched:
      every entry behind the question is an answer, nothing else is, and both counters show how many
      different ones there are. */
  lemma BoardIsFetched(g: Game, e: TickEnv, i: nat)
    requires Asking(g) && !e.disableInsane && g.round % 10 == 0 && !e.stop
    requires i < 5 && |Attempt(e.attempts, i)| >= 2
    requires forall j :: 0 <= j < i ==> |Attempt(e.attempts, j)| < 2
    ensures var h, list := TickGame(g, e), Attempt(e.attempts, i);
      && h.phase == FirstHint
      && (forall k :: k in h.insane.keys <==> exists n :: 1 <= n < |list| && list[n] == k)
      && h.insane.left == h.insane.num == Different(list[1..])
  {
    FetchIsFirst(e.attempts, 0, i);
    KeysAreEntries(Attempt(e.attempts, i));
    assert TickGame(g, e) == DoInsaneRound(g, e);
  }

  lemma {:induction false} FetchIsFirst(attempts: seq<AnswerList>, tries: nat, i: nat)
    requires tries <= i < 5 && |Attempt(attempts, i)| >= 2
    requires forall j :: tries <= j < i ==> |Attempt(attempts, j)| < 2
    ensures FetchInsane(attempts, tries) == Some(Attempt(attempts, i))
    decreases 5 - tries
  {
    if tries < i {
      FetchIsFirst(attempts, tries + 1, i);
    }
  }

  // ----- finds ----------------------------------------------------------------------------------

  datatype Find = Find(key: string, author: u64)

  function FindsOf(g: Game, ev: Event): seq<Find> {
    if ev.Say? && InsaneHit(g, ev.msg) then [Find(ev.msg.key, ev.msg.author)] else []
  }

  /** The insane answers found in a run, in order. */
  function Finds(g: Game, es: seq<Event>): seq<Find>
    decreases |es|
  {
    if es == [] then [] else FindsOf(g, es[0]) + Finds(Step(g, es[0]), es[1..])
  }

  /** The run fetches no new insane round. */
  predicate NoFetch(g: Game, es: seq<Event>)
    decreases |es|
  {
    es == [] || (!AsksInsane(g, es[0]) && NoFetch(Step(g, es[0]), es[1..]))
  }

  function KeysOf(fs: seq<Find>): set<string> { set f | f in fs :: f.key }

  predicate DistinctKeys(fs: seq<Find>) {
    forall i, j :: 0 <= i < j < |fs| ==> fs[i].key != fs[j].key
  }

  lemma TickKeepsKeys(g: Game, e: TickEnv)
    requires !AsksInsane(g, Tick(e))
    ensures TickGame(g, e).insane == g.insane.(stats := TickGame(g, e).insane.stats)
    ensures TickGame(g, e).insane.stats == if ClearsStats(g, Tick(e)) then map[] else g.insane.stats
  {
  }

  lemma MessageKeys(g: Game, m: Message)
    requires Inv(g) && InsaneHit(g, m)
    ensures TakeInsane(g, m).insane.keys == g.insane.keys - {m.key}
    ensures TakeInsane(g, m).insane.left == g.insane.left - 1
    ensures TakeInsane(g, m).insane.num == g.insane.num
  {
    assert |g.insane.keys - {m.key}| == |g.insane.keys| - 1;
  }

  lemma OneKey(f: Find)
    ensures KeysOf([f]) == {f.key}
  {
    assert f in [f];
  }

  lemma StepKeys(g: Game, ev: Event)
    requires Inv(g) && !AsksInsane(g, ev)
    ensures Step(g, ev).insane.keys == g.insane.keys - KeysOf(FindsOf(g, ev))
    ensures KeysOf(FindsOf(g, ev)) <= g.insane.keys
    ensures Step(g, ev).insane.left + |FindsOf(g, ev)| == g.insane.left
    ensures Step(g, ev).insane.num == g.insane.num
  {
    match ev
    case Tick(e) => TickKeepsKeys(g, e);
    case Say(m) =>
      if InsaneHit(g, m) {
        MessageKeys(g, m);
        OneKey(Find(m.key, m.author));
      } else {
        assert FindsOf(g, ev) == [];
        assert HandleMessage(g, m).insane == g.insane;
      }
    case Kill =>
  }

  lemma FindsAppend(fs: seq<Find>, rest: seq<Find>)
    ensures KeysOf(fs + rest) == KeysOf(fs) + KeysOf(rest)
    ensures DistinctKeys(fs) && DistinctKeys(rest) && KeysOf(fs) !! KeysOf(rest) ==> DistinctKeys(fs + rest)
  {
    if DistinctKeys(fs) && DistinctKeys(rest) && KeysOf(fs) !! KeysOf(rest) {
      forall i, j | 0 <= i < j < |fs + rest| ensures (fs + rest)[i].key != (fs + rest)[j].key {
        if i < |fs| <= j {
          assert fs[i] in fs && fs[i].key in KeysOf(fs);
          assert rest[j - |fs|] in rest && rest[j - |fs|].key in KeysOf(rest);
        }
      }
    }
  }

  lemma TakeTwice(all: set<string>, a: set<string>, b: set<string>)
    requires a <= all && b <= all - a
    ensures a + b <= all && all - (a + b) == (all - a) - b && a !! b
  {
  }

  /** Between two fetches every answer key is found at most once, the keys still open are exactly
      those not found, and the counter shows how many they are. */
  lemma {:induction false} FindsDrainTheRound(g: Game, es: seq<Event>)
    requires Inv(g) && NoFetch(g, es)
    ensures DistinctKeys(Finds(g, es))
    ensures KeysOf(Finds(g, es)) <= g.insane.keys
    ensures Run(g, es).insane.keys == g.insane.keys - KeysOf(Finds(g, es))
    ensures Run(g, es).insane.left + |Finds(g, es)| == g.insane.left
    ensures Run(g, es).insane.num == g.insane.num
    decreases |es|
  {
    if es != [] {
      var h := Step(g, es[0]);
      var fs, rest := FindsOf(g, es[0]), Finds(h, es[1..]);
      StepKeys(g, es[0]);
      StepKeepsInv(g, es[0]);
      FindsDrainTheRound(h, es[1..]);
      FindsAppend(fs, rest);
      TakeTwice(g.insane.keys, KeysOf(fs), KeysOf(rest));
      assert Finds(g, es) == fs + rest && Run(g, es) == Run(h, es[1..]);
    }
  }

  /** A message ends an insane round exactly when it takes the last key. */
  lemma LastKeyEndsRound(g: Game, m: Message)
    requires Inv(g) && Heard(g, m) && IsInsaneRound(g, m.disableInsane)
    ensures HandleMessage(g, m).phase != g.phase <==> g.insane.keys == {m.key}
  {
    if m.key in g.insane.keys {
      TakeInsaneEffect(g, m);
    }
  }

  /** In every reachable state of a game the counter shows the number of open keys, and never more
      than there were. */
  lemma CountersAgree(cfg: Config, streak: Streak, scores: map<u64, u64>, es: seq<Event>)
    ensures var g := Run(NewGame(cfg, streak, scores), es); g.insane.left == |g.insane.keys| <= g.insane.num
  {
    NewGameOk(cfg, streak, scores);
    RunKeepsInv(NewGame(cfg, streak, scores), es);
  }

  // ----- statistics ---------------------------------------------------------------------------

  /** The event shows the score board of an insane round and clears it. */
  predicate ClearsStats(g: Game, ev: Event) {
    || (ev.Tick? && g.phase == TimeUp && !g.terminating && IsInsaneRound(g, ev.env.disableInsane))
    || (ev.Say? && InsaneHit(g, ev.msg) && g.insane.left == 1)
  }

  /** Then the board is empty, and otherwise nobody leaves it. */
  lemma BoardIsClearedIff(g: Game, ev: Event)
    requires Inv(g)
    ensures ClearsStats(g, ev) ==> Step(g, ev).insane.stats == map[]
    ensures !ClearsStats(g, ev) ==> g.insane.stats.Keys <= Step(g, ev).insane.stats.Keys
  {
    match ev
    case Tick(e) =>
      if AsksInsane(g, ev) {
        assert TickGame(g, e) == DoInsaneRound(g, e);
      } else {
        TickKeepsKeys(g, e);
      }
    case Say(m) =>
      if InsaneHit(g, m) {
        TakeInsaneEffect(g, m);
      }
    case Kill =>
  }

  predicate NoClear(g: Game, es: seq<Event>)
    decreases |es|
  {
    es == [] || (!ClearsStats(g, es[0]) && NoClear(Step(g, es[0]), es[1..]))
  }

  function FoundBy(fs: seq<Find>, uid: u64): nat {
    if fs == [] then 0 else (if fs[0].author == uid then 1 else 0) + FoundBy(fs[1..], uid)
  }

  lemma StepStats(g: Game, ev: Event, uid: u64)
    requires Inv(g) && !ClearsStats(g, ev)
    ensures GetStat(Step(g, ev).insane.stats, uid)
         == Wrap32(GetStat(g.insane.stats, uid) + FoundBy(FindsOf(g, ev), uid))
  {
    match ev
    case Tick(e) => if AsksInsane(g, ev) { assert TickGame(g, e) == DoInsaneRound(g, e); } else { TickKeepsKeys(g, e); }
    case Say(m) =>
      if InsaneHit(g, m) {
        assert g.insane.left > 1;
        assert TakeInsane(g, m).insane.stats == AddInsaneStats(g, m.author).insane.stats;
        assert FindsOf(g, ev)[1..] == [];
      }
    case Kill =>
  }

  lemma FoundByAppend(fs: seq<Find>, rest: seq<Find>, uid: u64)
    requires |fs| <= 1
    ensures FoundBy(fs + rest, uid) == FoundBy(fs, uid) + FoundBy(rest, uid)
  {
    if fs == [] {
      assert fs + rest == rest;
    } else {
      assert (fs + rest)[1..] == rest && fs[1..] == [];
    }
  }

  /** How many answers a player finds in a run. */
  function FoundInRun(g: Game, es: seq<Event>, uid: u64): nat
    decreases |es|
  {
    if es == [] then 0 else FoundBy(FindsOf(g, es[0]), uid) + FoundInRun(Step(g, es[0]), es[1..], uid)
  }

  lemma {:induction false} FoundInRunCounts(g: Game, es: seq<Event>, uid: u64)
    ensures FoundInRun(g, es, uid) == FoundBy(Finds(g, es), uid)
    decreases |es|
  {
    if es != [] {
      FoundInRunCounts(Step(g, es[0]), es[1..], uid);
      FoundByAppend(FindsOf(g, es[0]), Finds(Step(g, es[0]), es[1..]), uid);
    }
  }

  lemma StatsStep(g: Game, ev: Event, uid: u64, n: nat)
    requires Inv(g) && !ClearsStats(g, ev) && GetStat(g.insane.stats, uid) == Wrap32(n)
    ensures GetStat(Step(g, ev).insane.stats, uid) == Wrap32(n + FoundBy(FindsOf(g, ev), uid))
  {
    StepStats(g, ev, uid);
    Wrap32Twice(n, FoundBy(FindsOf(g, ev), uid));
  }

  /** `n` is what the player's count would be without a limit, and `m` what it comes to. */
  lemma {:induction false} StatsGrow(g: Game, es: seq<Event>, uid: u64, n: nat, m: nat)
    requires Inv(g) && NoClear(g, es)
    requires GetStat(g.insane.stats, uid) == Wrap32(n) && m == n + FoundInRun(g, es, uid)
    ensures GetStat(Run(g, es).insane.stats, uid) == Wrap32(m)
    decreases |es|
  {
    if es != [] {
      StatsStep(g, es[0], uid, n);
      StepKeepsInv(g, es[0]);
      StatsGrow(Step(g, es[0]), es[1..], uid, n + FoundBy(FindsOf(g, es[0]), uid), m);
    }
  }

  /** Until the board is cleared, each player's count grows by exactly the answers he found, modulo
      2^32. */
  lemma StatsCountFinds(g: Game, es: seq<Event>, uid: u64)
    requires Inv(g) && NoClear(g, es)
    ensures Count(Run(g, es).insane.stats, uid) == (Count(g.insane.stats, uid) + FoundBy(Finds(g, es), uid)) % TWO32
  {
    var n := GetStat(g.insane.stats, uid);
    FoundInRunCounts(g, es, uid);
    StatsGrow(g, es, uid, n, n + FoundInRun(g, es, uid));
    Wrap32IsMod(n + FoundInRun(g, es, uid));
  }
}
