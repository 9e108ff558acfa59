/** Streaks across the consecutive games of a channel. */
module StreakCarry {
  import opened Common
  import opened Engine
  import opened Streaks
  import opened Server

  type Histories = map<u64, seq<Outcome>>

  function Hist(hs: Histories, c: u64): seq<Outcome> { if c in hs then hs[c] else [] }

  /** The outcomes of a channel since the last game there that started afresh. */
  ghost function Record(s: Server, hs: Histories, op: Op): Histories {
    match op
    case Start(r) => if Starts(s, r) && !Carries(s, r) then hs[r.channel := []] else hs
    case Sweep(due) =>
      map c | c in hs.Keys + due.Keys ::
        if c in due && c in s.games then Hist(hs, c) + OutcomeOf(s.games[c].game, Tick(due[c])) else Hist(hs, c)
    case Chat(c, m) => if c in s.games then hs[c := Hist(hs, c) + OutcomeOf(s.games[c].game, Say(m))] else hs
    case Stop(_) => hs
  }

  ghost function RecordAll(s: Server, hs: Histories, ops: seq<Op>): Histories
    decreases |ops|
  {
    if ops == [] then hs else RecordAll(Serve(s, ops[0]), Record(s, hs, ops[0]), ops[1..])
  }

  /** Each guild has insane rounds off for good (`off`) or on for good, and authors have real ids. */
  ghost predicate SteadyOp(s: Server, op: Op, off: set<u64>) {
    match op
    case Start(_) => true
    case Sweep(due) => forall c :: c in due && c in s.games ==> Steady(Tick(due[c]), s.games[c].guild in off)
    case Chat(c, m) => c in s.games ==> Steady(Say(m), s.games[c].guild in off)
    case Stop(_) => true
  }

  ghost predicate SteadyRun(s: Server, ops: seq<Op>, off: set<u64>)
    decreases |ops|
  {
    ops == [] || (SteadyOp(s, ops[0], off) && SteadyRun(Serve(s, ops[0]), ops[1..], off))
  }

  /** The running game and the saved snapshot of a channel show the streak of its history. */
  ghost predicate TracksAt(s: Server, h: seq<Outcome>, c: u64, off: set<u64>) {
    && (c in s.games ==> Tracks(s.games[c].game, s.games[c].guild in off, h))
    && (c in s.streaks ==> s.streaks[c].streak == StreakOf(h))
  }

  ghost predicate AllTrack(s: Server, hs: Histories, off: set<u64>) {
    forall c :: TracksAt(s, Hist(hs, c), c, off)
  }

  /** One event of one game keeps game, snapshot and history together. */
  lemma PlayTracks(g: Game, ev: Event, off: bool, h: seq<Outcome>)
    requires Tracks(g, off, h) && Steady(ev, off)
    ensures var g1 := Play(g, ev);
      && Tracks(g1, off, h + OutcomeOf(g, ev))
      && (g1.saved.Some? ==> g1.saved.value.streak == StreakOf(h + OutcomeOf(g, ev)))
      && (g1.saved.None? ==> OutcomeOf(g, ev) == [])
  {
    var g0 := g.(saved := None);
    assert OutcomeOf(g0, ev) == OutcomeOf(g, ev);
    assert Tracks(g0, off, h);
    StepTracks(g0, ev, off, h);
    if OutcomeOf(g0, ev) != [] {
      OutcomesAreSaved(g0, ev);
    }
  }

  lemma FreshTracks(s: Server, h: seq<Outcome>, r: Request, off: set<u64>)
    requires Starts(s, r) && TracksAt(s, h, r.channel, off)
    ensures TracksAt(StartGame(s, r), if Carries(s, r) then h else [], r.channel, off)
  {
    var g := FreshGame(s, r, PlannedQuestions(r).value);
    assert StartGame(s, r).games[r.channel] == Entry(r.guild, g);
    assert Tracks(g, r.guild in off, if Carries(s, r) then h else []);
  }

  lemma StartTracks(s: Server, hs: Histories, r: Request, off: set<u64>)
    requires AllTrack(s, hs, off)
    ensures AllTrack(StartGame(s, r), Record(s, hs, Start(r)), off)
  {
    var t, hs1 := StartGame(s, r), Record(s, hs, Start(r));
    forall c ensures TracksAt(t, Hist(hs1, c), c, off) {
      assert TracksAt(s, Hist(hs, c), c, off);
      if Starts(s, r) && c == r.channel {
        FreshTracks(s, Hist(hs, c), r, off);
      }
    }
  }

  lemma PlayTracksAt(s: Server, h: seq<Outcome>, c: u64, ev: Event, off: set<u64>)
    requires TracksAt(s, h, c, off) && c in s.games && Steady(ev, s.games[c].guild in off)
    ensures TracksAt(PlayIn(s, c, ev), h + OutcomeOf(s.games[c].game, ev), c, off)
  {
    PlayTracks(s.games[c].game, ev, s.games[c].guild in off, h);
    if OutcomeOf(s.games[c].game, ev) == [] {
      assert h + OutcomeOf(s.games[c].game, ev) == h;
    }
  }

  lemma PlayInTracks(s: Server, hs: Histories, c: u64, ev: Event, off: set<u64>)
    requires AllTrack(s, hs, off) && c in s.games && Steady(ev, s.games[c].guild in off)
    ensures AllTrack(PlayIn(s, c, ev), hs[c := Hist(hs, c) + OutcomeOf(s.games[c].game, ev)], off)
  {
    var t, hs1 := PlayIn(s, c, ev), hs[c := Hist(hs, c) + OutcomeOf(s.games[c].game, ev)];
    forall d ensures TracksAt(t, Hist(hs1, d), d, off) {
      assert TracksAt(s, Hist(hs, d), d, off);
      if d == c {
        PlayTracksAt(s, Hist(hs, c), c, ev, off);
      }
    }
  }

  /** A sweep does to each due game what a tick of it alone does, unless it drops the game. */
  lemma SweepIsLocal(s: Server, due: map<u64, TickEnv>, c: u64, h: seq<Outcome>, off: set<u64>)
    requires c in due && c in s.games && TracksAt(PlayIn(s, c, Tick(due[c])), h, c, off)
    ensures TracksAt(SweepGames(s, due), h, c, off)
  {
    var t, u := SweepGames(s, due), PlayIn(s, c, Tick(due[c]));
    assert c in t.games ==> t.games[c] == u.games[c];
    assert c in t.streaks ==> c in u.streaks && t.streaks[c] == u.streaks[c];
  }

  lemma SweepTracks(s: Server, hs: Histories, due: map<u64, TickEnv>, off: set<u64>)
    requires AllTrack(s, hs, off) && SteadyOp(s, Sweep(due), off)
    ensures AllTrack(SweepGames(s, due), Record(s, hs, Sweep(due)), off)
  {
    var t, hs1 := SweepGames(s, due), Record(s, hs, Sweep(due));
    forall c ensures TracksAt(t, Hist(hs1, c), c, off) {
      assert TracksAt(s, Hist(hs, c), c, off);
      if c in due && c in s.games {
        assert Hist(hs1, c) == Hist(hs, c) + OutcomeOf(s.games[c].game, Tick(due[c]));
        PlayTracksAt(s, Hist(hs, c), c, Tick(due[c]), off);
        SweepIsLocal(s, due, c, Hist(hs1, c), off);
      } else {
        assert Hist(hs1, c) == Hist(hs, c);
      }
    }
  }

  lemma ServeTracks(s: Server, hs: Histories, op: Op, off: set<u64>)
    requires AllTrack(s, hs, off) && SteadyOp(s, op, off)
    ensures AllTrack(Serve(s, op), Record(s, hs, op), off)
  {
    match op
    case Start(r) => StartTracks(s, hs, r, off);
    case Sweep(due) => SweepTracks(s, hs, due, off);
    case Chat(c, m) =>
      if c in s.games {
        PlayInTracks(s, hs, c, Say(m), off);
      }
    case Stop(c) =>
      if c in s.games {
        StopTracks(s, hs, c, off);
      }
  }

  lemma StopTracks(s: Server, hs: Histories, c: u64, off: set<u64>)
    requires AllTrack(s, hs, off) && c in s.games
    ensures AllTrack(PlayIn(s, c, Kill), hs, off)
  {
    forall d ensures TracksAt(PlayIn(s, c, Kill), Hist(hs, d), d, off) {
      assert TracksAt(s, Hist(hs, d), d, off);
      if d == c {
        PlayTracksAt(s, Hist(hs, c), c, Kill, off);
        assert Hist(hs, c) + [] == Hist(hs, c);
      }
    }
  }

  /** In every run of the server each game's streak is the trailing run of its channel's history,
      carried from game to game within ten minutes. */
  lemma {:induction false} StreaksCarryOver(s: Server, hs: Histories, ops: seq<Op>, off: set<u64>)
    requires AllTrack(s, hs, off) && SteadyRun(s, ops, off)
    ensures AllTrack(ServeAll(s, ops), RecordAll(s, hs, ops), off)
    decreases |ops|
  {
    if ops != [] {
      ServeTracks(s, hs, ops[0], off);
      StreaksCarryOver(Serve(s, ops[0]), Record(s, hs, ops[0]), ops[1..], off);
    }
  }
}
