/** The table of games as the bot keeps it: maps that the command and timer code walk over in key
    order, erase from and insert into. Each method is proved to compute the step of `Server`. */
module TriviaServer {
  import opened Common
  import opened Engine
  import S = Server

  predicate Ascending(order: seq<u64>) {
    forall i, j :: 0 <= i < j < |order| ==> order[i] < order[j]
  }

  /** `order` lists some of the keys, `rest` holds the others, and all of these come later. */
  ghost predicate Splits(keys: set<u64>, order: seq<u64>, rest: set<u64>) {
    && (forall c :: c in keys <==> c in order || c in rest)
    && (forall c, i :: c in rest && 0 <= i < |order| ==> order[i] < c)
  }

  lemma SplitNext(keys: set<u64>, order: seq<u64>, rest: set<u64>, m: u64)
    requires Ascending(order) && Splits(keys, order, rest)
    requires m in rest && forall x :: x in rest ==> m <= x
    ensures Ascending(order + [m]) && Splits(keys, order + [m], rest - {m})
  {
    var longer, less := order + [m], rest - {m};
    forall c ensures c in keys <==> c in longer || c in less {
      if c == m {
        assert longer[|order|] == c;
      }
    }
    forall c, i | c in less && 0 <= i < |longer| ensures longer[i] < c {
      assert i < |order| ==> longer[i] == order[i];
    }
  }

  method Least(s: set<u64>) returns (m: u64)
    requires s != {}
    ensures m in s && forall x :: x in s ==> m <= x
  {
    S.MinExists(s);
    m :| m in s && forall x :: x in s ==> m <= x;
  }

  /** The keys of a table in the order a `std::map` iterates over them. */
  method InOrder(keys: set<u64>) returns (order: seq<u64>)
    ensures Ascending(order)
    ensures forall c :: c in keys <==> c in order
  {
    order := [];
    var rest := keys;
    while rest != {}
      invariant Ascending(order) && Splits(keys, order, rest)
      decreases |rest|
    {
      var m := Least(rest);
      SplitNext(keys, order, rest, m);
      order := order + [m];
      rest := rest - {m};
    }
  }

  /** The keys of `all` among the first `i` of a walk. */
  ghost function Walked(all: set<u64>, order: seq<u64>, i: nat): set<u64>
    requires i <= |order|
  {
    set c | c in all && c in order[..i]
  }

  lemma WalkOne(all: set<u64>, order: seq<u64>, i: nat)
    requires Ascending(order) && i < |order|
    ensures order[i] !in Walked(all, order, i)
    ensures Walked(all, order, i + 1)
         == if order[i] in all then Walked(all, order, i) + {order[i]} else Walked(all, order, i)
    ensures |Walked(all, order, i + 1)| == |Walked(all, order, i)| + if order[i] in all then 1 else 0
  {
    assert order[..i + 1] == order[..i] + [order[i]];
  }

  lemma WalkedIsBefore(games: map<u64, S.Entry>, guild: u64, order: seq<u64>, i: nat)
    requires Ascending(order) && i < |order| && forall c :: c in games ==> c in order
    ensures Walked(S.GuildGames(games, guild), order, i) == S.GamesBefore(games, guild, order[i])
  {
    forall c | c in S.GamesBefore(games, guild, order[i]) ensures c in order[..i] {
      var k :| 0 <= k < |order| && order[k] == c;
      assert k < i && order[..i][k] == c;
    }
  }

  lemma WalkedAll(all: set<u64>, order: seq<u64>)
    requires forall c :: c in all ==> c in order
    ensures Walked(all, order, |order|) == all
  {
    assert order[..|order|] == order;
  }

  /** No rival among the first `i` of a walk. */
  predicate NoneMet(games: map<u64, S.Entry>, r: S.Request, order: seq<u64>, i: nat)
    requires i <= |order|
  {
    forall k :: 0 <= k < i ==> !S.Rival(games, r, order[k])
  }

  lemma NoneMetNext(games: map<u64, S.Entry>, r: S.Request, order: seq<u64>, i: nat)
    requires i < |order| && NoneMet(games, r, order, i) && !S.Rival(games, r, order[i])
    ensures NoneMet(games, r, order, i + 1)
  {
  }

  lemma FirstMet(games: map<u64, S.Entry>, r: S.Request, order: seq<u64>, i: nat)
    requires Ascending(order) && i < |order| && forall c :: c in games ==> c in order
    requires NoneMet(games, r, order, i) && S.Rival(games, r, order[i])
    ensures S.FirstRival(games, r) == Some(order[i])
  {
    var f := S.FirstRival(games, r);
    var k :| 0 <= k < |order| && order[k] == f.value;
  }

  lemma NeverMet(games: map<u64, S.Entry>, r: S.Request, order: seq<u64>)
    requires NoneMet(games, r, order, |order|) && forall c :: c in games ==> c in order
    ensures S.FirstRival(games, r) == None
  {
    assert forall c :: S.Rival(games, r, c) ==> c in order;
  }

  /** A sweep that has ticked some games so far, before anything is dropped. */
  ghost function PartSwept(s: S.Server, ticked: map<u64, Game>): S.Server {
    S.Server(
      map c | c in s.games :: if c in ticked then S.Entry(s.games[c].guild, ticked[c]) else s.games[c],
      s.streaks + S.SavedBy(ticked))
  }

  ghost function Expired(ticked: map<u64, Game>): set<u64> {
    set c | c in ticked && ticked[c].terminating
  }

  lemma SweepOneGame(s: S.Server, ticked: map<u64, Game>, c: u64, g: Game)
    requires c in s.games && c !in ticked
    ensures PartSwept(s, ticked[c := g]).games == PartSwept(s, ticked).games[c := S.Entry(s.games[c].guild, g)]
  {
  }

  lemma SweepOneStreak(s: S.Server, ticked: map<u64, Game>, c: u64, g: Game)
    requires c !in ticked
    ensures PartSwept(s, ticked[c := g]).streaks == S.Save(PartSwept(s, ticked).streaks, c, g)
  {
    SavedByOne(ticked, c, g);
    if g.saved.Some? {
      MergeOne(s.streaks, S.SavedBy(ticked), c, g.saved.value);
    }
  }

  lemma SavedByOne(ticked: map<u64, Game>, c: u64, g: Game)
    requires c !in ticked
    ensures S.SavedBy(ticked[c := g])
         == if g.saved.Some? then S.SavedBy(ticked)[c := g.saved.value] else S.SavedBy(ticked)
  {
  }

  lemma MergeOne<V>(a: map<u64, V>, b: map<u64, V>, c: u64, v: V)
    ensures a + b[c := v] == (a + b)[c := v]
  {
  }

  lemma ExpireOne(ticked: map<u64, Game>, c: u64, g: Game)
    requires c !in ticked
    ensures Expired(ticked[c := g]) == Expired(ticked) + if g.terminating then {c} else {}
  {
  }

  /** Exactly the due games among the first `i` of the walk have been ticked. */
  ghost predicate TickedSoFar(s: S.Server, due: map<u64, TickEnv>, order: seq<u64>, i: nat, ticked: map<u64, Game>)
    requires i <= |order|
  {
    && (forall c :: c in ticked <==> c in order[..i] && c in due)
    && (forall c :: c in ticked ==> c in s.games && ticked[c] == S.Play(s.games[c].game, Engine.Tick(due[c])))
  }

  lemma TickNext(s: S.Server, due: map<u64, TickEnv>, order: seq<u64>, i: nat, ticked: map<u64, Game>)
    requires Ascending(order) && i < |order| && TickedSoFar(s, due, order, i, ticked) && order[i] in s.games
    ensures order[i] !in ticked
    ensures var c := order[i];
      TickedSoFar(s, due, order, i + 1,
                  if c in due then ticked[c := S.Play(s.games[c].game, Engine.Tick(due[c]))] else ticked)
  {
    assert order[..i + 1] == order[..i] + [order[i]];
  }

  lemma TickedAll(s: S.Server, due: map<u64, TickEnv>, order: seq<u64>, ticked: map<u64, Game>)
    requires TickedSoFar(s, due, order, |order|, ticked) && forall c :: c in s.games <==> c in order
    ensures S.SweepGames(s, due) == S.Server(PartSwept(s, ticked).games - Expired(ticked), PartSwept(s, ticked).streaks)
  {
    assert order[..|order|] == order;
    assert ticked == S.Ticked(s, due);
    SweptAll(s, ticked);
  }

  lemma SweptAll(s: S.Server, ticked: map<u64, Game>)
    ensures S.SweepWith(s, ticked)
         == S.Server(PartSwept(s, ticked).games - Expired(ticked), PartSwept(s, ticked).streaks)
  {
    assert S.SweepWith(s, ticked).games == PartSwept(s, ticked).games - Expired(ticked);
  }

  class TriviaServer {
    var games: map<u64, S.Entry>
    var streaks: map<u64, Snapshot>

    ghost function View(): S.Server
      reads this
    {
      S.Server(games, streaks)
    }

    /** The admission walk for a guild without premium. */
    method AdmitFree(r: S.Request) returns (ok: bool)
      requires !r.premium
      modifies `games
      ensures S.Admission(ok, games) == S.Admit(old(games), r)
    {
      var order := InOrder(games.Keys);
      for i := 0 to |order|
        invariant games == old(games) && NoneMet(games, r, order, i)
      {
        var j := order[i];
        if games[j].guild == r.guild && games[j].game.phase != End && j != r.channel {
          FirstMet(games, r, order, i);
          if r.dashboard {
            games := games - {j};
            return true;
          } else {
            return false;
          }
        }
      }
      NeverMet(games, r, order);
      ok := true;
    }

    /** The admission walk for a premium guild, which counts its games. */
    method AdmitPremium(r: S.Request) returns (ok: bool)
      requires r.premium
      modifies `games
      ensures S.Admission(ok, games) == S.Admit(old(games), r)
    {
      var order := InOrder(games.Keys);
      var numberOfGames := 0;
      ghost var all := S.GuildGames(games, r.guild);
      for i := 0 to |order|
        invariant games == old(games)
        invariant r.dashboard ==> NoneMet(games, r, order, i)
        invariant numberOfGames == |Walked(all, order, i)|
      {
        var j := order[i];
        WalkOne(all, order, i);
        if r.dashboard && !S.Rival(games, r, j) {
          NoneMetNext(games, r, order, i);
        }
        if games[j].guild == r.guild {
          if r.dashboard && games[j].game.phase != End && j != r.channel {
            FirstMet(games, r, order, i);
            WalkedIsBefore(games, r.guild, order, i);
            assert S.Admit(games, r) == S.Admission(numberOfGames < 2, games - {j});
            games := games - {j};
            return numberOfGames < 2;
          } else {
            numberOfGames := numberOfGames + 1;
          }
        }
      }
      WalkedAll(all, order);
      if r.dashboard {
        NeverMet(games, r, order);
      }
      ok := numberOfGames < 2;
      assert S.Admit(games, r) == S.Admission(ok, games);
    }

    method StartGame(r: S.Request)
      modifies this
      ensures View() == S.StartGame(old(View()), r)
    {
      if !r.permitted {
        return;
      }
      var ok;
      if !r.premium {
        ok := AdmitFree(r);
      } else {
        ok := AdmitPremium(r);
      }
      if !ok {
        return;
      }
      var alreadyRunning := r.channel in games;
      if alreadyRunning && r.dashboard {
        alreadyRunning := false;
      }
      if alreadyRunning {
        return;
      }
      var inRange, questions := LimitQuestions(r);
      if !inRange {
        return;
      }
      if |r.shuffleList| == 1 || |r.shuffleList| < 50 {
        return;
      }
      if r.quickfire && !r.premium && r.cooling {
        return;
      }
      var streak := TakeStreak(r);
      var interval := if r.quickfire then TRIV_INTERVAL / 4 else TRIV_INTERVAL;
      var game := NewGame(Config(questions + 1, interval, r.hintless, r.shuffleList), streak, r.dayScores);
      games := games[r.channel := S.Entry(r.guild, game)];
    }

    /** The number of questions, within the limits of the mode and the guild. */
    method LimitQuestions(r: S.Request) returns (inRange: bool, questions: int)
      ensures inRange == S.PlannedQuestions(r).Some?
      ensures inRange ==> questions == S.PlannedQuestions(r).value
    {
      questions := r.questions;
      var maxQuickfire := if r.premium then 200 else 15;
      var maxNormal := 200;
      if (!r.quickfire && (questions < 5 || questions > maxNormal))
         || (r.quickfire && (questions < 5 || questions > maxQuickfire)) {
        return false, questions;
      }
      if !r.quickfire {
        if r.hintless {
          if r.maxHardcore < questions {
            questions := r.maxHardcore;
          }
        } else {
          if r.maxNormal < questions {
            questions := r.maxNormal;
          }
        }
      } else {
        if r.maxQuickfire < questions {
          questions := r.maxQuickfire;
        }
      }
      inRange := true;
    }

    /** The streak a new game begins with; a snapshot that is too old is dropped. */
    method TakeStreak(r: S.Request) returns (streak: Streak)
      modifies `streaks
      ensures var s := S.Server(games, old(streaks));
        && streak == (if S.Carries(s, r) then old(streaks)[r.channel].streak else Streak(0, 1))
        && streaks == (if S.Carries(s, r) then old(streaks) else old(streaks) - {r.channel})
    {
      streak := Streak(0, 1);
      if r.channel in streaks {
        if r.now < streaks[r.channel].time + 600 {
          streak := streaks[r.channel].streak;
        } else {
          streaks := streaks - {r.channel};
        }
      }
    }

    /** One sweep of the timer: tick what is due, then drop what is terminating. */
    method Tick(due: map<u64, TickEnv>)
      modifies this
      ensures View() == S.SweepGames(old(View()), due)
    {
      ghost var s := View();
      ghost var ticked: map<u64, Game> := map[];
      var order := InOrder(games.Keys);
      var expired: set<u64> := {};
      assert PartSwept(s, map[]).games == s.games && PartSwept(s, map[]).streaks == s.streaks;
      for i := 0 to |order|
        invariant View() == PartSwept(s, ticked) && expired == Expired(ticked)
        invariant TickedSoFar(s, due, order, i, ticked)
      {
        var c := order[i];
        TickNext(s, due, order, i, ticked);
        if c in due {
          var g := TickOne(s, ticked, c, due[c]);
          if g.terminating {
            expired := expired + {c};
          }
          ticked := ticked[c := g];
        }
      }
      TickedAll(s, due, order, ticked);
      games := games - expired;
    }

    /** The tick of one game that is due. */
    method TickOne(ghost s: S.Server, ghost ticked: map<u64, Game>, c: u64, e: TickEnv) returns (g: Game)
      requires View() == PartSwept(s, ticked) && c in s.games && c !in ticked
      modifies this
      ensures g == S.Play(s.games[c].game, Engine.Tick(e))
      ensures View() == PartSwept(s, ticked[c := g])
      ensures Expired(ticked[c := g]) == Expired(ticked) + if g.terminating then {c} else {}
    {
      assert games[c] == s.games[c];
      g := S.Play(games[c].game, Engine.Tick(e));
      SweepOneGame(s, ticked, c, g);
      SweepOneStreak(s, ticked, c, g);
      ExpireOne(ticked, c, g);
      games := games[c := S.Entry(games[c].guild, g)];
      streaks := S.Save(streaks, c, g);
    }

    method Chat(c: u64, m: Message)
      modifies this
      ensures View() == S.PlayIn(old(View()), c, Say(m))
    {
      if c in games {
        var g := S.Play(games[c].game, Say(m));
        games := games[c := S.Entry(games[c].guild, g)];
        streaks := S.Save(streaks, c, g);
      }
    }

    method Stop(c: u64)
      modifies this
      ensures View() == S.PlayIn(old(View()), c, Kill)
    {
      if c in games {
        var g := S.Play(games[c].game, Kill);
        games := games[c := S.Entry(games[c].guild, g)];
      }
    }
  }
}
