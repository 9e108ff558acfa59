/** The table of running games: start commands, the timer sweep, chat messages and stop commands.
    Each of them is one atomic step. */
module Server {
  import opened Common
  import opened Engine

  datatype Entry = Entry(guild: u64, game: Game)

  datatype Server = Server(games: map<u64, Entry>, streaks: map<u64, Snapshot>)

  /** A start command. `permitted` is the verdict of the checks on the author and the channel,
      `shuffleList` the questions fetched for the chosen categories, `cooling` the quickfire
      cooldown of a free guild. */
  datatype Request = Request(
    now: int, channel: u64, guild: u64, dashboard: bool, premium: bool, permitted: bool,
    questions: int, quickfire: bool, hintless: bool,
    maxNormal: u32, maxHardcore: u32, maxQuickfire: u32,
    shuffleList: seq<Question>, cooling: bool, dayScores: map<u64, u64>)

  datatype Op =
    | Start(req: Request)
    | Sweep(due: map<u64, TickEnv>)
    | Chat(channel: u64, msg: Message)
    | Stop(channel: u64)

  // ----- admission --------------------------------------------------------------------------

  /** A running game of the guild in another channel. */
  predicate Rival(games: map<u64, Entry>, r: Request, c: u64) {
    c in games && games[c].guild == r.guild && games[c].game.phase != End && c != r.channel
  }

  lemma MinExists(s: set<u64>)
    requires s != {}
    ensures exists m :: m in s && forall x :: x in s ==> m <= x
  {
    var m :| m in s;
    while exists x :: x in s && x < m
      invariant m in s
      decreases m
    {
      var x :| x in s && x < m;
      m := x;
    }
  }

  /** The rival that a walk through the table in channel order meets first. */
  ghost function FirstRival(games: map<u64, Entry>, r: Request): (f: Option<u64>)
    ensures f.None? ==> forall c :: !Rival(games, r, c)
    ensures f.Some? ==> Rival(games, r, f.value) && forall c :: Rival(games, r, c) ==> f.value <= c
  {
    var rivals := set c | c in games && Rival(games, r, c);
    if rivals == {} then
      assert forall c :: Rival(games, r, c) ==> c in rivals;
      None
    else
      MinExists(rivals);
      var m :| m in rivals && forall x :: x in rivals ==> m <= x;
      assert forall c :: Rival(games, r, c) ==> c in rivals;
      Some(m)
  }

  function GuildGames(games: map<u64, Entry>, guild: u64): set<u64> {
    set c | c in games && games[c].guild == guild
  }

  /** The guild's games that a walk in channel order meets before channel `c`. */
  function GamesBefore(games: map<u64, Entry>, guild: u64, c: u64): set<u64> {
    set d | d in GuildGames(games, guild) && d < c
  }

  datatype Admission = Admission(ok: bool, games: map<u64, Entry>)

  /** A free guild may have no game running elsewhere; a premium guild has room for two games. A
      start from the dashboard first removes the first rival, and counts no further than there. */
  ghost function Admit(games: map<u64, Entry>, r: Request): Admission {
    var rival := FirstRival(games, r);
    if !r.premium then
      if rival.None? then Admission(true, games)
      else if r.dashboard then Admission(true, games - {rival.value})
      else Admission(false, games)
    else
      if r.dashboard && rival.Some? then
        Admission(|GamesBefore(games, r.guild, rival.value)| < 2, games - {rival.value})
      else
        Admission(|GuildGames(games, r.guild)| < 2, games)
  }

  // ----- the new game -----------------------------------------------------------------------

  /** The number of questions a request leads to, if it is in range. */
  function PlannedQuestions(r: Request): (n: Option<nat>)
    ensures n.Some? ==> n.value <= 200
  {
    var maxQuestions := if r.quickfire && !r.premium then 15 else 200;
    var limit := if r.quickfire then r.maxQuickfire else if r.hintless then r.maxHardcore else r.maxNormal;
    if r.questions < 5 || r.questions > maxQuestions then None
    else if limit < r.questions then Some(limit)
    else Some(r.questions)
  }

  ghost predicate Starts(s: Server, r: Request) {
    && r.permitted
    && Admit(s.games, r).ok
    && (r.channel in Admit(s.games, r).games ==> r.dashboard)
    && PlannedQuestions(r).Some?
    && |r.shuffleList| >= 50
    && !(r.quickfire && !r.premium && r.cooling)
  }

  /** The last game's streak is carried into a game that starts within ten minutes. */
  predicate Carries(s: Server, r: Request) {
    r.channel in s.streaks && r.now < s.streaks[r.channel].time + 600
  }

  function FreshGame(s: Server, r: Request, questions: nat): Game
    requires questions <= 200
  {
    NewGame(Config(questions + 1, if r.quickfire then TRIV_INTERVAL / 4 else TRIV_INTERVAL, r.hintless, r.shuffleList),
            if Carries(s, r) then s.streaks[r.channel].streak else Streak(0, 1),
            r.dayScores)
  }

  ghost function StartGame(s: Server, r: Request): Server {
    if !r.permitted then s
    else
      var games := Admit(s.games, r).games;
      if !Starts(s, r) then s.(games := games)
      else
        Server(games[r.channel := Entry(r.guild, FreshGame(s, r, PlannedQuestions(r).value))],
               if Carries(s, r) then s.streaks else s.streaks - {r.channel})
  }

  // ----- events of running games ------------------------------------------------------------

  /** One event of one game; what it saves is read from the field `saved` afterwards. */
  function Play(g: Game, ev: Event): Game {
    Step(g.(saved := None), ev)
  }

  function Save(streaks: map<u64, Snapshot>, c: u64, g: Game): map<u64, Snapshot> {
    if g.saved.Some? then streaks[c := g.saved.value] else streaks
  }

  function PlayIn(s: Server, c: u64, ev: Event): Server {
    if c in s.games then
      var g := Play(s.games[c].game, ev);
      Server(s.games[c := Entry(s.games[c].guild, g)], Save(s.streaks, c, g))
    else s
  }

  /** The games that are due, after their tick. */
  function Ticked(s: Server, due: map<u64, TickEnv>): map<u64, Game> {
    map c | c in s.games && c in due :: Play(s.games[c].game, Tick(due[c]))
  }

  /** What the ticked games have saved. */
  function SavedBy(ticked: map<u64, Game>): map<u64, Snapshot> {
    map c | c in ticked && ticked[c].saved.Some? :: ticked[c].saved.value
  }

  /** Puts the ticked games in the table and drops those that are terminating. */
  function SweepWith(s: Server, ticked: map<u64, Game>): Server {
    Server(
      map c | c in s.games && !(c in ticked && ticked[c].terminating) ::
        if c in ticked then Entry(s.games[c].guild, ticked[c]) else s.games[c],
      s.streaks + SavedBy(ticked))
  }

  function SweepGames(s: Server, due: map<u64, TickEnv>): Server {
    SweepWith(s, Ticked(s, due))
  }

  ghost function Serve(s: Server, op: Op): Server {
    match op
    case Start(r) => StartGame(s, r)
    case Sweep(due) => SweepGames(s, due)
    case Chat(c, m) => PlayIn(s, c, Say(m))
    case Stop(c) => PlayIn(s, c, Kill)
  }

  ghost function ServeAll(s: Server, ops: seq<Op>): Server
    decreases |ops|
  {
    if ops == [] then s else ServeAll(Serve(s, ops[0]), ops[1..])
  }
}
