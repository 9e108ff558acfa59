/** What a start command starts. */
module StartRules {
  import opened Engine
  import opened GameInvariant
  import opened GameTermination
  import opened Server

  /** The questions asked for, or the guild's limit for the kind of game if that is lower. */
  predicate IsLength(r: Request, n: int) {
    && (r.quickfire ==> n == if r.maxQuickfire < r.questions then r.maxQuickfire else r.questions)
    && (!r.quickfire && r.hintless ==> n == if r.maxHardcore < r.questions then r.maxHardcore else r.questions)
    && (!r.quickfire && !r.hintless ==> n == if r.maxNormal < r.questions then r.maxNormal else r.questions)
  }

  /** The game that a successful start puts in its channel: the streak and its holder come from the
      snapshot exactly when that is less than ten minutes old; an older one is dropped. */
  lemma StartedGame(s: Server, r: Request)
    requires Starts(s, r)
    ensures var t := StartGame(s, r);
      && r.channel in t.games && t.games[r.channel].guild == r.guild
      && var g := t.games[r.channel].game;
      && Inv(g) && Asking(g) == (g.cfg.numQuestions > 1) && g.phase == AskQuestion && g.round == 1
      && g.score == 0 && g.insane == InsaneState({}, 0, 0, map[])
      && g.scores == r.dayScores && g.cfg.cache == r.shuffleList
      && g.cfg.interval == (if r.quickfire then 5 else 20) && g.cfg.hintless == r.hintless
      && IsLength(r, g.cfg.numQuestions - 1)
      && g.cfg.numQuestions <= 201 && (r.quickfire && !r.premium ==> g.cfg.numQuestions <= 16)
      && (if r.channel in s.streaks && r.now - s.streaks[r.channel].time < 600
          then g.streak == s.streaks[r.channel].streak && t.streaks == s.streaks
          else g.streak == Streak(0, 1) && r.channel !in t.streaks)
  {
  }

  /** A refused start leaves the channel's own game and all streaks alone. */
  lemma RefusedStart(s: Server, r: Request)
    requires !Starts(s, r)
    ensures var t := StartGame(s, r);
      && t.streaks == s.streaks
      && (forall c :: c in t.games ==> c in s.games && t.games[c] == s.games[c])
      && |s.games.Keys - t.games.Keys| <= 1
      && (r.channel in s.games ==> r.channel in t.games)
      && (!r.dashboard ==> t == s)
  {
    var t := StartGame(s, r);
    if t.games != s.games {
      var c := FirstRival(s.games, r).value;
      assert s.games.Keys - t.games.Keys == {c};
    } else {
      assert s.games.Keys - t.games.Keys == {};
    }
  }

  /** A started game never reads outside its cache if and only if it is not longer than its list, or
      a malformed question ends it before; the check for fifty entries covers up to fifty questions. */
  lemma StartedCacheSafety(s: Server, r: Request)
    requires Starts(s, r)
    ensures var g := StartGame(s, r).games[r.channel].game;
      && ((forall es :: SafeRun(g, es))
          <==> g.cfg.numQuestions - 1 <= |r.shuffleList| || exists b: nat :: Blocks(g.cfg, 1, b))
      && (r.questions <= 50 ==> forall es :: SafeRun(g, es))
  {
    var g := StartGame(s, r).games[r.channel].game;
    StartedGame(s, r);
    CacheSafety(g);
    if g.cfg.numQuestions <= 1 {
      assert g.cfg.numQuestions - 1 <= |r.shuffleList|;
    }
  }

  /** An instance: sixty questions are asked for, fifty are fetched, and the start is accepted. */
  lemma ShortListIsAccepted()
    ensures exists s, r, es ::
      && Starts(s, r) && |r.shuffleList| == 50
      && (forall q :: q in r.shuffleList ==> q.id != 0)
      && !SafeRun(StartGame(s, r).games[r.channel].game, es)
  {
    var s := Server(map[], map[]);
    var r := Request(0, 1, 1, false, false, true, 60, false, false, 200, 200, 200,
                     seq(50, _ => Question(1, "x")), false, map[]);
    assert Admit(s.games, r).ok by {
      assert FirstRival(s.games, r).None?;
    }
    var g := StartGame(s, r).games[r.channel].game;
    StartedCacheSafety(s, r);
    assert g.cfg.numQuestions == 61;
    assert forall b: nat :: !Blocks(g.cfg, 1, b);
    assert !forall es :: SafeRun(g, es);
    var es :| !SafeRun(g, es);
    assert Starts(s, r);
  }
}
