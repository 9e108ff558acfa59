/** Every started game leaves the table of games. */
module ServerTermination {
  import opened Common
  import opened Engine
  import opened GameInvariant
  import opened GameTermination
  import opened Server
  import opened StartRules

  predicate Healthy(s: Server, c: u64) { c in s.games ==> Inv(s.games[c].game) }

  /** The due sweeps after which the channel has no game any more. */
  function Budget(s: Server, c: u64): int {
    if c !in s.games then 0 else if Rank(s.games[c].game) > 0 then Rank(s.games[c].game) else 1
  }

  /** A start command that puts a new game in the channel. */
  ghost predicate StartsIn(s: Server, op: Op, c: u64) {
    op.Start? && op.req.channel == c && Starts(s, op.req)
  }

  /** No start command of the run succeeds in the channel; others may be refused there. */
  ghost predicate NoNewGame(s: Server, ops: seq<Op>, c: u64)
    decreases |ops|
  {
    ops == [] || (!StartsIn(s, ops[0], c) && NoNewGame(Serve(s, ops[0]), ops[1..], c))
  }

  predicate SweepsIn(op: Op, c: u64) { op.Sweep? && c in op.due }

  /** What a game saves does not count. */
  lemma Unsaved(g: Game)
    requires Inv(g)
    ensures var h := g.(saved := None); Inv(h) && Rank(h) == Rank(g)
  {
  }

  lemma PlayRank(g: Game, ev: Event)
    requires Inv(g)
    ensures var h := Play(g, ev);
      && Inv(h) && Rank(h) <= Rank(g)
      && (ev.Tick? ==> Rank(h) < Rank(g) || (g.terminating && h.terminating))
  {
    var h := g.(saved := None);
    Unsaved(g);
    StepKeepsInv(h, ev);
    match ev
    case Tick(e) => if g.terminating { EndIsFinal(h, ev); } else { TickLowersRank(h, e); }
    case Say(m) => MessageKeepsRank(h, m);
    case Kill =>
  }

  lemma SweepLowersBudget(s: Server, due: map<u64, TickEnv>, c: u64)
    requires Healthy(s, c) && c in due && c in s.games
    ensures var t := SweepGames(s, due); Healthy(t, c) && Budget(t, c) < Budget(s, c)
  {
    PlayRank(s.games[c].game, Tick(due[c]));
    assert Ticked(s, due)[c] == Play(s.games[c].game, Tick(due[c]));
  }

  lemma PlayKeepsBudget(s: Server, d: u64, ev: Event, c: u64)
    requires Healthy(s, c) && !ev.Tick?
    ensures var t := PlayIn(s, d, ev);
      Healthy(t, c) && Budget(t, c) <= Budget(s, c) && (c !in s.games ==> c !in t.games)
  {
    if c == d && c in s.games {
      PlayRank(s.games[c].game, ev);
    }
  }

  lemma StartKeepsBudget(s: Server, r: Request, c: u64)
    requires Healthy(s, c) && (r.channel != c || !Starts(s, r))
    ensures var t := StartGame(s, r);
      Healthy(t, c) && Budget(t, c) <= Budget(s, c) && (c !in s.games ==> c !in t.games)
  {
    var t := StartGame(s, r);
    if !Starts(s, r) {
      RefusedStart(s, r);
    }
    assert c in t.games ==> c in s.games && t.games[c] == s.games[c];
  }

  lemma OpKeepsBudget(s: Server, op: Op, c: u64)
    requires Healthy(s, c) && !StartsIn(s, op, c)
    ensures var t := Serve(s, op);
      && Healthy(t, c) && Budget(t, c) <= Budget(s, c)
      && (c !in s.games ==> c !in t.games)
      && (SweepsIn(op, c) && c in s.games ==> Budget(t, c) < Budget(s, c))
  {
    match op
    case Start(r) => StartKeepsBudget(s, r, c);
    case Sweep(due) =>
      if c in due && c in s.games {
        SweepLowersBudget(s, due, c);
      } else if c in s.games {
        assert SweepGames(s, due).games[c] == s.games[c];
      }
    case Chat(d, m) => PlayKeepsBudget(s, d, Say(m), c);
    case Stop(d) => PlayKeepsBudget(s, d, Kill, c);
  }

  function DueSweeps(ops: seq<Op>, c: u64): nat {
    if ops == [] then 0 else (if SweepsIn(ops[0], c) then 1 else 0) + DueSweeps(ops[1..], c)
  }

  /** Whatever else happens on the server, a game that no new one replaces is gone after as many due
      sweeps as its budget. */
  lemma {:induction false} GameLeaves(s: Server, ops: seq<Op>, c: u64)
    requires Healthy(s, c) && NoNewGame(s, ops, c)
    requires DueSweeps(ops, c) >= Budget(s, c)
    ensures c !in ServeAll(s, ops).games
    decreases |ops|
  {
    if ops != [] {
      OpKeepsBudget(s, ops[0], c);
      GameLeaves(Serve(s, ops[0]), ops[1..], c);
    }
  }

  /** No started game outlives 802 due sweeps. */
  lemma StartedGameLeaves(s: Server, r: Request, ops: seq<Op>)
    requires Starts(s, r) && NoNewGame(StartGame(s, r), ops, r.channel)
    requires DueSweeps(ops, r.channel) >= 802
    ensures r.channel !in ServeAll(StartGame(s, r), ops).games
  {
    var t := StartGame(s, r);
    var g := FreshGame(s, r, PlannedQuestions(r).value);
    NewGameOk(g.cfg, g.streak, r.dayScores);
    TicksInAll(g.cfg, 1);
    GameLeaves(t, ops, r.channel);
  }
}
