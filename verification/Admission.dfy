/** How many games a guild can have, over every run of the server. */
module AdmissionControl {
  import opened Common
  import opened Engine
  import opened GameInvariant
  import opened Server

  /** All games of a guild in the table, ended or not. */
  function AllGames(s: Server, guild: u64): set<u64> {
    set c | c in s.games && s.games[c].guild == guild
  }

  function LiveGames(s: Server, guild: u64): set<u64> {
    set c | c in s.games && s.games[c].guild == guild && s.games[c].game.phase != End
  }

  /** A free guild has at most one game that has not ended, a premium guild at most two games. */
  ghost predicate Compliant(s: Server, premium: set<u64>) {
    && (forall guild :: guild !in premium ==> |LiveGames(s, guild)| <= 1)
    && (forall guild :: guild in premium ==> |AllGames(s, guild)| <= 2)
  }

  /** The premium status seen by a start command is the guild's fixed status. */
  predicate Honest(op: Op, premium: set<u64>) {
    op.Start? ==> (op.req.premium <==> op.req.guild in premium)
  }

  /** A step that adds no game and revives none keeps the limits. */
  lemma ShrinkKeepsCompliance(s: Server, t: Server, premium: set<u64>)
    requires Compliant(s, premium)
    requires forall c :: c in t.games ==>
      && c in s.games && t.games[c].guild == s.games[c].guild
      && (s.games[c].game.phase == End ==> t.games[c].game.phase == End)
    ensures Compliant(t, premium)
  {
    forall guild ensures |LiveGames(t, guild)| <= |LiveGames(s, guild)|
                 ensures |AllGames(t, guild)| <= |AllGames(s, guild)| {
      SubsetSize(LiveGames(t, guild), LiveGames(s, guild));
      SubsetSize(AllGames(t, guild), AllGames(s, guild));
    }
  }

  lemma PlayKeepsCompliance(s: Server, c: u64, ev: Event, premium: set<u64>)
    requires Compliant(s, premium)
    ensures Compliant(PlayIn(s, c, ev), premium)
  {
    if c in s.games {
      EndIsFinal(s.games[c].game.(saved := None), ev);
    }
    ShrinkKeepsCompliance(s, PlayIn(s, c, ev), premium);
  }

  lemma SweepKeepsCompliance(s: Server, due: map<u64, TickEnv>, premium: set<u64>)
    requires Compliant(s, premium)
    ensures Compliant(SweepGames(s, due), premium)
  {
    forall c | c in SweepGames(s, due).games
      ensures s.games[c].game.phase == End && c in due ==> Ticked(s, due)[c].phase == End
    {
      if c in due {
        EndIsFinal(s.games[c].game.(saved := None), Tick(due[c]));
      }
    }
    ShrinkKeepsCompliance(s, SweepGames(s, due), premium);
  }

  /** After the admission check there is room for the game that is about to be inserted. */
  lemma AdmittedHasRoom(s: Server, r: Request, premium: set<u64>)
    requires Compliant(s, premium) && (r.premium <==> r.guild in premium) && Admit(s.games, r).ok
    ensures var t := s.(games := Admit(s.games, r).games);
      && (!r.premium ==> LiveGames(t, r.guild) <= {r.channel})
      && (r.premium ==> |AllGames(t, r.guild)| <= 1)
  {
    var t := s.(games := Admit(s.games, r).games);
    assert GuildGames(s.games, r.guild) == AllGames(s, r.guild);
    var rival := FirstRival(s.games, r);
    if rival.Some? && (r.dashboard || !r.premium) {
      var c := rival.value;
      assert AllGames(t, r.guild) == AllGames(s, r.guild) - {c};
      assert LiveGames(t, r.guild) == LiveGames(s, r.guild) - {c};
      if !r.premium {
        assert |LiveGames(s, r.guild) - {c}| == 0;
      }
    } else if !r.premium {
      assert forall d :: d in LiveGames(t, r.guild) && d != r.channel ==> Rival(s.games, r, d);
    }
  }

  lemma InsertFits(t: Server, u: Server, c: u64, e: Entry, guild: u64)
    requires u.games == t.games[c := e]
    ensures guild != e.guild ==> |AllGames(u, guild)| <= |AllGames(t, guild)|
    ensures |AllGames(u, guild)| <= |AllGames(t, guild)| + 1
  {
    SubsetSize(AllGames(u, guild), AllGames(t, guild) + {c});
    if guild != e.guild {
      SubsetSize(AllGames(u, guild), AllGames(t, guild));
    }
  }

  lemma InsertFitsLive(t: Server, u: Server, c: u64, e: Entry, guild: u64)
    requires u.games == t.games[c := e]
    ensures guild != e.guild ==> |LiveGames(u, guild)| <= |LiveGames(t, guild)|
    ensures LiveGames(t, guild) <= {c} ==> |LiveGames(u, guild)| <= 1
  {
    if guild != e.guild {
      SubsetSize(LiveGames(u, guild), LiveGames(t, guild));
    }
    if LiveGames(t, guild) <= {c} {
      SubsetSize(LiveGames(u, guild), {c});
    }
  }

  lemma StartKeepsCompliance(s: Server, r: Request, premium: set<u64>)
    requires Compliant(s, premium) && (r.premium <==> r.guild in premium)
    ensures Compliant(StartGame(s, r), premium)
  {
    if r.permitted {
      var t := s.(games := Admit(s.games, r).games);
      ShrinkKeepsCompliance(s, t, premium);
      if Starts(s, r) {
        AdmittedHasRoom(s, r, premium);
        var u := StartGame(s, r);
        var e := Entry(r.guild, FreshGame(s, r, PlannedQuestions(r).value));
        assert u.games == t.games[r.channel := e];
        forall guild
          ensures guild !in premium ==> |LiveGames(u, guild)| <= 1
          ensures guild in premium ==> |AllGames(u, guild)| <= 2
        {
          InsertFits(t, u, r.channel, e, guild);
          InsertFitsLive(t, u, r.channel, e, guild);
        }
      }
    }
  }

  lemma {:induction false} AdmissionHolds(s: Server, ops: seq<Op>, premium: set<u64>)
    requires Compliant(s, premium) && forall op :: op in ops ==> Honest(op, premium)
    ensures Compliant(ServeAll(s, ops), premium)
    decreases |ops|
  {
    if ops != [] {
      assert ops[0] in ops;
      match ops[0] {
        case Start(r) => StartKeepsCompliance(s, r, premium);
        case Sweep(due) => SweepKeepsCompliance(s, due, premium);
        case Chat(c, m) => PlayKeepsCompliance(s, c, Say(m), premium);
        case Stop(c) => PlayKeepsCompliance(s, c, Kill, premium);
      }
      AdmissionHolds(Serve(s, ops[0]), ops[1..], premium);
    }
  }

  // ----- who is admitted ----------------------------------------------------------------------

  /** The guild's games in other channels that have not ended. */
  function Others(s: Server, r: Request): set<u64> { LiveGames(s, r.guild) - {r.channel} }

  predicate IsFirst(c: u64, games: set<u64>) { c in games && forall d :: d in games ==> c <= d }

  /** The guild's games in channels before `c`. */
  function GamesAhead(s: Server, guild: u64, c: u64): set<u64> { set d | d in AllGames(s, guild) && d < c }

  /** A free guild has room when no other game runs, and the dashboard makes room for it. A premium
      guild has room with one game at most; the dashboard counts only up to the game it stops. */
  ghost predicate HasRoom(s: Server, r: Request) {
    if !r.premium then r.dashboard || Others(s, r) == {}
    else if r.dashboard && Others(s, r) != {} then
      forall c :: IsFirst(c, Others(s, r)) ==> |GamesAhead(s, r.guild, c)| <= 1
    else |AllGames(s, r.guild)| <= 1
  }

  lemma RivalsAreOthers(s: Server, r: Request)
    ensures var f := FirstRival(s.games, r);
      && (f.None? <==> Others(s, r) == {})
      && (f.Some? ==> IsFirst(f.value, Others(s, r)) && forall c :: IsFirst(c, Others(s, r)) ==> c == f.value)
  {
    assert forall c :: Rival(s.games, r, c) <==> c in Others(s, r);
  }

  lemma AdmitIff(s: Server, r: Request)
    ensures Admit(s.games, r).ok <==> HasRoom(s, r)
  {
    RivalsAreOthers(s, r);
    assert GuildGames(s.games, r.guild) == AllGames(s, r.guild);
    var f := FirstRival(s.games, r);
    if f.Some? {
      assert GamesBefore(s.games, r.guild, f.value) == GamesAhead(s, r.guild, f.value);
    }
  }

  /** Exactly which start commands start a game. */
  lemma StartsIff(s: Server, r: Request)
    ensures Starts(s, r) <==>
      && r.permitted && HasRoom(s, r) && (r.dashboard || r.channel !in s.games)
      && 5 <= r.questions <= (if r.quickfire && !r.premium then 15 else 200)
      && |r.shuffleList| >= 50
      && !(r.quickfire && !r.premium && r.cooling)
  {
    AdmitIff(s, r);
  }

  /** A start command, successful or not, removes no game from other channels but the first of the
      guild's other running ones, and that exactly if it is permitted and comes from the dashboard. */
  lemma OtherChannels(s: Server, r: Request, c: u64)
    requires c != r.channel
    ensures var t := StartGame(s, r);
      && (c in t.games <==> c in s.games && !(r.permitted && r.dashboard && IsFirst(c, Others(s, r))))
      && (c in t.games ==> t.games[c] == s.games[c])
      && (c in t.streaks <==> c in s.streaks) && (c in t.streaks ==> t.streaks[c] == s.streaks[c])
  {
    RivalsAreOthers(s, r);
  }

  /** The dashboard's start is to replace the game of its channel, but that game is counted: with an
      ended one beside it a premium guild is refused, although it would keep its limit. */
  lemma ReplacementIsRefused(s: Server, r: Request, c: u64)
    requires r.premium && r.dashboard && c != r.channel
    requires AllGames(s, r.guild) == {c, r.channel} && s.games[c].game.phase == End
    ensures !Starts(s, r) && StartGame(s, r).games == s.games
  {
    forall d ensures d !in Others(s, r) {
      assert d in LiveGames(s, r.guild) ==> d in AllGames(s, r.guild) && d != c;
    }
    StartsIff(s, r);
    RivalsAreOthers(s, r);
  }
}
