/** One trivia game (state_t): its state, and what a timer tick or a chat message does to it.

    The environment is explicit. Every event carries the guild setting that is read while it
    runs and the answers of the calls that leave the process: the insane-round fetches, the
    dashboard's stop flag, the scoring lease and the verdict of the answer matcher. */
module Engine {
  import opened Common

  const TRIV_INTERVAL := 20

  datatype Phase = AskQuestion | FirstHint | SecondHint | TimeUp | AnswerCorrect | End

  /** A cached question: the answer is the one the question has once it has been tidied. */
  datatype Question = Question(id: u64, answer: string)

  /** What is fixed when a game starts. */
  datatype Config = Config(numQuestions: u32, interval: int, hintless: bool, cache: seq<Question>)

  /** Who answered last (0 for nobody), and how many times in a row. */
  datatype Streak = Streak(last: u64, count: u32)

  /** The answers of an insane round that are still to be found, the counters shown to the
      players, and how many answers each player has found. */
  datatype InsaneState = InsaneState(keys: set<string>, left: u32, num: u32, stats: map<u64, u32>)

  /** What `log_question_index` leaves in the table of channel streaks. */
  datatype Snapshot = Snapshot(streak: Streak, time: int)

  /** An insane round as fetched: the question text, then one normalised key for each answer. */
  type AnswerList = a: seq<string> | |a| <= 0x1_0000_0000

  datatype Game = Game(
    cfg: Config,
    phase: Phase,
    terminating: bool,
    round: u32,
    score: u32,
    answer: string,
    streak: Streak,
    insane: InsaneState,
    scores: map<u64, u64>,
    saved: Option<Snapshot>)

  datatype TickEnv = TickEnv(now: int, disableInsane: bool, attempts: seq<AnswerList>, stop: bool)

  datatype Message = Message(now: int, author: u64, banned: bool, key: string, accepted: bool,
                             disableInsane: bool, canScore: bool, stop: bool)

  datatype Event = Tick(env: TickEnv) | Say(msg: Message) | Kill

  // ----- helpers of the source --------------------------------------------------------------

  predicate IsInsaneRound(g: Game, disableInsane: bool) {
    !disableInsane && g.round % 10 == 0
  }

  function StopGame(g: Game): Game {
    if g.phase != End then g.(phase := End, terminating := false) else g
  }

  /** `log_question_index`, and the `StopGame` that follows when the dashboard asked for it. */
  function Logged(g: Game, now: int, stop: bool): Game {
    var l := g.(saved := Some(Snapshot(g.streak, now)));
    if stop then StopGame(l) else l
  }

  function GetScore(scores: map<u64, u64>, uid: u64): u64 {
    if uid in scores then scores[uid] else 0
  }

  function GetStat(stats: map<u64, u32>, uid: u64): u32 {
    if uid in stats then stats[uid] else 0
  }

  function AddScore(g: Game, uid: u64, addition: u64): Game {
    g.(scores := g.scores[uid := Add64(GetScore(g.scores, uid), addition)])
  }

  function AddInsaneStats(g: Game, uid: u64): Game {
    g.(insane := g.insane.(stats := g.insane.stats[uid := Inc32(GetStat(g.insane.stats, uid))]))
  }

  /** The question read as `question_cache[round - 1]`. Outside the cache that read is undefined
      behaviour in C++; `CacheFault` marks those states and the value here is a placeholder. */
  function CacheAt(g: Game): Question {
    if 1 <= g.round <= |g.cfg.cache| then g.cfg.cache[g.round - 1] else Question(0, "")
  }

  function Attempt(attempts: seq<AnswerList>, i: nat): AnswerList {
    if i < |attempts| then attempts[i] else []
  }

  /** The first of at most five fetches that brings two entries or more. */
  function FetchInsane(attempts: seq<AnswerList>, tries: nat): (r: Option<AnswerList>)
    requires tries <= 5
    ensures r.Some? ==> |r.value| >= 2
    decreases 5 - tries
  {
    if tries == 5 then None
    else if |Attempt(attempts, tries)| >= 2 then Some(Attempt(attempts, tries))
    else FetchInsane(attempts, tries + 1)
  }

  function AnswerKeys(answers: AnswerList): set<string>
    requires |answers| >= 1
  {
    Elems(answers[1..])
  }

  // ----- timer ticks ------------------------------------------------------------------------

  function DoInsaneRound(g: Game, e: TickEnv): Game {
    if g.round >= g.cfg.numQuestions then
      g.(phase := End, score := 0)
    else
      var answers := FetchInsane(e.attempts, 0);
      if answers.None? then
        Logged(g, e.now, true)
      else
        var l := Logged(g, e.now, e.stop);
        var n := |AnswerKeys(answers.value)| % TWO32;
        if e.stop then l
        else l.(insane := l.insane.(keys := AnswerKeys(answers.value), left := n, num := n), phase := FirstHint)
  }

  function DoNormalRound(g: Game, e: TickEnv): Game {
    if g.round >= g.cfg.numQuestions then
      g.(phase := End, score := 0)
    else if CacheAt(g).id == 0 then
      g.(phase := End, score := 0, answer := "")
    else
      var asked := g.(answer := CacheAt(g).answer,
                      score := if g.cfg.hintless then 6 else if g.cfg.interval == TRIV_INTERVAL then 4 else 8,
                      phase := if g.cfg.hintless then TimeUp else FirstHint);
      Logged(asked, e.now, e.stop)
  }

  function DoFirstHint(g: Game, e: TickEnv): Game {
    Logged(g.(phase := SecondHint, score := if g.cfg.interval == TRIV_INTERVAL then 2 else 4), e.now, e.stop)
  }

  function DoSecondHint(g: Game, e: TickEnv): Game {
    Logged(g.(phase := TimeUp, score := if g.cfg.interval == TRIV_INTERVAL then 1 else 2), e.now, e.stop)
  }

  /** The question becomes unanswerable: an insane round loses its statistics, a normal one that is
      still open costs the streak. */
  function CloseQuestion(g: Game, insane: bool): Game {
    if insane then g.(answer := "", insane := g.insane.(stats := map[]))
    else if g.answer != "" then g.(answer := "", streak := Streak(0, 1))
    else g
  }

  function DoTimeUp(g: Game, e: TickEnv): Game {
    var c := CloseQuestion(g, IsInsaneRound(g, e.disableInsane));
    var next := if c.round > c.cfg.numQuestions then End else AskQuestion;
    Logged(c.(phase := next, round := Inc32(c.round)), e.now, e.stop)
  }

  function DoAnswerCorrect(g: Game, e: TickEnv): Game {
    Logged(g.(round := Inc32(g.round), answer := "", phase := AskQuestion), e.now, e.stop)
  }

  function DoEndGame(g: Game): Game {
    g.(terminating := true)
  }

  function TickGame(g: Game, e: TickEnv): Game {
    if g.phase == End then DoEndGame(g)
    else if g.terminating then g
    else match g.phase
      case AskQuestion =>
        if IsInsaneRound(g, e.disableInsane) then DoInsaneRound(g, e) else DoNormalRound(g, e)
      case FirstHint => DoFirstHint(g, e)
      case SecondHint => DoSecondHint(g, e)
      case TimeUp => DoTimeUp(g, e)
      case AnswerCorrect => DoAnswerCorrect(g, e)
  }

  // ----- chat messages ----------------------------------------------------------------------

  /** The phases in which a question is out and hints are running. */
  predicate InPlay(p: Phase) { p == FirstHint || p == SecondHint || p == TimeUp }

  /** The message is looked at as a possible answer. */
  predicate Heard(g: Game, m: Message) {
    !g.terminating && !m.banned && (g.phase == AskQuestion || InPlay(g.phase))
  }

  predicate InsaneHit(g: Game, m: Message) {
    Heard(g, m) && IsInsaneRound(g, m.disableInsane) && m.key in g.insane.keys
  }

  predicate NormalHit(g: Game, m: Message) {
    Heard(g, m) && !IsInsaneRound(g, m.disableInsane) && g.answer != "" && m.accepted
  }

  /** Credits the finder of an insane answer: a point if the lease allows it, and his statistics. */
  function CreditInsane(g: Game, m: Message): Game {
    AddInsaneStats(if m.canScore then AddScore(g, m.author, 1) else g, m.author)
  }

  /** All insane answers are found: on to the next round, or the end after the last one. */
  function FinishInsane(g: Game): Game {
    var a := g.(insane := g.insane.(stats := map[]));
    if a.round <= Sub32(a.cfg.numQuestions, 1) then a.(round := Inc32(a.round), phase := AnswerCorrect)
    else a.(phase := End)
  }

  /** An insane answer has been found: the key goes, and the round ends with the last one. */
  function TakeInsane(g: Game, m: Message): Game {
    var a := g.(insane := g.insane.(keys := g.insane.keys - {m.key}, left := Sub32(g.insane.left, 1)));
    var c := CreditInsane(a, m);
    if c.insane.left < 1 then Logged(FinishInsane(c), m.now, m.stop) else c
  }

  function TakeNormal(g: Game, m: Message): Game {
    var a := g.(answer := "", phase := AnswerCorrect);
    var b := if m.canScore then AddScore(a, m.author, a.score) else a;
    var c := b.(streak := Streak(m.author, if b.streak.last == m.author then Inc32(b.streak.count) else 1));
    Logged(c, m.now, m.stop)
  }

  function HandleMessage(g: Game, m: Message): Game {
    if InsaneHit(g, m) then TakeInsane(g, m)
    else if NormalHit(g, m) then TakeNormal(g, m)
    else g
  }

  // ----- runs -------------------------------------------------------------------------------

  /** `Kill` is the stop command, which marks the game for removal. */
  function Step(g: Game, ev: Event): Game {
    match ev
    case Tick(e) => TickGame(g, e)
    case Say(m) => HandleMessage(g, m)
    case Kill => g.(terminating := true)
  }

  function Run(g: Game, es: seq<Event>): Game
    decreases |es|
  {
    if es == [] then g else Run(Step(g, es[0]), es[1..])
  }

  /** A question is due, and there are rounds left. */
  predicate Asking(g: Game) { g.phase == AskQuestion && !g.terminating && g.round < g.cfg.numQuestions }

  /** The event reads `question_cache[round - 1]` outside the cache. */
  predicate CacheFault(g: Game, ev: Event) {
    && ev.Tick? && Asking(g) && !IsInsaneRound(g, ev.env.disableInsane)
    && !(1 <= g.round <= |g.cfg.cache|)
  }

  /** A game as the start command builds it. */
  function NewGame(cfg: Config, streak: Streak, scores: map<u64, u64>): Game {
    Game(cfg, AskQuestion, false, 1, 0, "", streak, InsaneState({}, 0, 0, map[]), scores, None)
  }
}
