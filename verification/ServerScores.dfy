/** The scoring lease and the games together: points that a player is credited in the games of
    different guilds. */
module ServerScores {
  import opened Common
  import opened Engine
  import opened GameAwards
  import opened Server
  import opened ScoreLease

  /** A game asks for the lease of the author whose message it takes for an answer. */
  datatype Ask = Ask(call: Call, credited: bool)

  /** The message is an answer. */
  predicate Hits(g: Game, m: Message) { InsaneHit(g, m) || NormalHit(g, m) }

  function AsksOf(s: Server, op: Op): seq<Ask> {
    if op.Chat? && op.channel in s.games && Hits(s.games[op.channel].game, op.msg) then
      [Ask(Call(op.msg.author, s.games[op.channel].guild, op.msg.now), op.msg.canScore)]
    else []
  }

  /** All that is asked for in a run of the server, in order. */
  ghost function Asks(s: Server, ops: seq<Op>): seq<Ask>
    decreases |ops|
  {
    if ops == [] then [] else AsksOf(s, ops[0]) + Asks(Serve(s, ops[0]), ops[1..])
  }

  function CallsOf(asks: seq<Ask>): seq<Call> { seq(|asks|, i requires 0 <= i < |asks| => asks[i].call) }

  /** The games are given the verdicts of the lock table, which each call leaves updated. */
  predicate Leased(locks: Locks, asks: seq<Ask>)
    decreases |asks|
  {
    asks == [] || (asks[0].credited == Succeeds(locks, asks[0].call) && Leased(Called(locks, asks[0].call), asks[1..]))
  }

  function Called(locks: Locks, c: Call): Locks { Upsert(locks, c.user, c.guild, c.now) }

  lemma {:induction false} AfterFirst(locks: Locks, c: Call, cs: seq<Call>)
    ensures After(locks, [c] + cs) == After(Called(locks, c), cs)
    decreases |cs|
  {
    var all := [c] + cs;
    if cs == [] {
      assert all[..0] == [] && all == [c];
    } else {
      assert all[..|all| - 1] == [c] + cs[..|cs| - 1];
      AfterFirst(locks, c, cs[..|cs| - 1]);
    }
  }

  /** What is credited is what the lock table grants. */
  lemma {:induction false} CreditedIsGranted(locks: Locks, asks: seq<Ask>, i: nat)
    requires Leased(locks, asks) && i < |asks|
    ensures asks[i].credited == Granted(locks, CallsOf(asks), i)
    decreases i
  {
    var cs := CallsOf(asks);
    if i == 0 {
      assert cs[..0] == [];
    } else {
      var c, later := asks[0].call, CallsOf(asks[1..]);
      assert cs == [c] + later;
      assert cs[..i] == [c] + later[..i - 1];
      AfterFirst(locks, c, later[..i - 1]);
      CreditedIsGranted(Called(locks, c), asks[1..], i - 1);
    }
  }

  /** In every run of the server two credits of a player in games of different guilds are at least
      sixty seconds apart. */
  lemma CreditsAreApart(s: Server, locks: Locks, ops: seq<Op>, i: nat, j: nat)
    requires Leased(locks, Asks(s, ops)) && Ordered(CallsOf(Asks(s, ops)))
    requires i < j < |Asks(s, ops)| && Asks(s, ops)[i].credited && Asks(s, ops)[j].credited
    requires Asks(s, ops)[i].call.user == Asks(s, ops)[j].call.user
    requires Asks(s, ops)[i].call.guild != Asks(s, ops)[j].call.guild
    ensures Asks(s, ops)[j].call.now - Asks(s, ops)[i].call.now >= 60
  {
    var asks := Asks(s, ops);
    CreditedIsGranted(locks, asks, i);
    CreditedIsGranted(locks, asks, j);
    GrantsAreApart(locks, CallsOf(asks), i, j);
  }

  /** The score of a player in a game that goes on. */
  function ScoreIn(s: Server, c: u64, uid: u64): nat
    requires c in s.games
  {
    Count(s.games[c].game.scores, uid)
  }

  /** Nothing but a credit changes a score: not a tick, a stop, or a start elsewhere. */
  lemma OnlyCreditsScore(s: Server, op: Op, c: u64, uid: u64)
    requires c in s.games && c in Serve(s, op).games && !(op.Start? && op.req.channel == c)
    requires ScoreIn(Serve(s, op), c, uid) != ScoreIn(s, c, uid)
    ensures op.Chat? && op.channel == c && AsksOf(s, op) == [Ask(Call(uid, s.games[c].guild, op.msg.now), true)]
  {
    var g := s.games[c].game.(saved := None);
    match op
    case Start(r) =>
    case Sweep(due) =>
      if c in due {
        TickScores(g, due[c]);
      }
    case Chat(d, m) =>
      if d == c {
        StepScores(g, Say(m), uid);
      }
    case Stop(d) =>
  }
}
