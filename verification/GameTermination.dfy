/** Every game ends: an exact bound on the ticks of a run, and when the question cache is safe. */
module GameTermination {
  import opened Engine
  import opened GameInvariant
  import opened GameEndings

  // ----- the bound --------------------------------------------------------------------------

  /** The ticks a question takes when nobody answers it. Insane rounds have hints in every game. */
  function QuestionTicks(cfg: Config, round: nat): nat {
    if cfg.hintless && round % 10 != 0 then 2 else 4
  }

  /** The ticks from asking the question of a round to `terminating`, at most. */
  function TicksFrom(cfg: Config, round: nat): (n: nat)
    ensures n >= 2
    decreases cfg.numQuestions - round
  {
    if round >= cfg.numQuestions then 2 else QuestionTicks(cfg, round) + TicksFrom(cfg, round + 1)
  }

  /** The ticks a game has left at most. */
  function Rank(g: Game): nat {
    if g.terminating then 0
    else match g.phase
      case AskQuestion => TicksFrom(g.cfg, g.round)
      case FirstHint => 3 + TicksFrom(g.cfg, g.round + 1)
      case SecondHint => 2 + TicksFrom(g.cfg, g.round + 1)
      case TimeUp => 1 + TicksFrom(g.cfg, g.round + 1)
      case AnswerCorrect => 1 + TicksFrom(g.cfg, g.round + 1)
      case End => 1
  }

  lemma TickLowersRank(g: Game, e: TickEnv)
    requires Inv(g) && !g.terminating
    ensures Rank(TickGame(g, e)) < Rank(g)
  {
    if g.phase != End {
      if TickEnds(g, e) {
        TickEndsIff(g, e);
        TickEndsQuietly(g, e);
      } else {
        TickAdvances(g, e);
      }
    }
  }

  lemma TickEndsQuietly(g: Game, e: TickEnv)
    requires Inv(g) && TickEnds(g, e)
    ensures !TickGame(g, e).terminating
  {
    RemovesIff(g, Tick(e));
  }

  /** A message leaves phase and round alone, ends the game, or has the question answered; the last
      insane answer moves on to the next round as well. */
  lemma MessageMoves(g: Game, m: Message)
    requires Inv(g)
    ensures var h := HandleMessage(g, m);
      && h.terminating == g.terminating
      && ((h.phase == g.phase && h.round == g.round)
          || (h.phase == End && g.phase != End && !g.terminating)
          || (h.phase == AnswerCorrect && InPlay(g.phase) && h.round == g.round)
          || (h.phase == AnswerCorrect && (g.phase == AskQuestion || InPlay(g.phase)) && g.round % 10 == 0
              && g.round < g.cfg.numQuestions && h.round == g.round + 1))
      && h.round >= g.round
  {
    if InsaneHit(g, m) {
      TakeInsaneEffect(g, m);
      assert HandleMessage(g, m) == TakeInsane(g, m);
    } else if NormalHit(g, m) {
      assert HandleMessage(g, m) == TakeNormal(g, m);
    }
  }

  lemma MessageKeepsRank(g: Game, m: Message)
    requires Inv(g)
    ensures Rank(HandleMessage(g, m)) <= Rank(g)
  {
    MessageMoves(g, m);
    StepSameGame(g, Say(m));
  }

  function Ticks(es: seq<Event>): nat {
    if es == [] then 0 else (if es[0].Tick? then 1 else 0) + Ticks(es[1..])
  }

  lemma {:induction false} RankBoundsRun(g: Game, es: seq<Event>)
    requires Inv(g)
    ensures Inv(Run(g, es))
    ensures Rank(Run(g, es)) == 0 || Rank(Run(g, es)) + Ticks(es) <= Rank(g)
    decreases |es|
  {
    if es != [] {
      var h := Step(g, es[0]);
      StepKeepsInv(g, es[0]);
      match es[0] {
        case Tick(e) => if g.terminating { EndIsFinal(g, es[0]); } else { TickLowersRank(g, e); }
        case Say(m) => MessageKeepsRank(g, m);
        case Kill =>
      }
      RankBoundsRun(h, es[1..]);
      assert Rank(g) == 0 ==> Rank(h) == 0;
    }
  }

  /** Whatever messages, stops and setting changes come between, so many ticks set `terminating`. */
  lemma EveryGameEnds(g: Game, es: seq<Event>)
    requires Inv(g) && Ticks(es) >= Rank(g)
    ensures Run(g, es).terminating
  {
    RankBoundsRun(g, es);
  }

  /** The tens from `round` to the last question. */
  function Tens(cfg: Config, round: nat): int {
    (cfg.numQuestions - 1) / 10 - (round - 1) / 10
  }

  /** The bound in figures: four ticks for a question, or two for a normal one without hints. */
  lemma {:induction false} TicksInAll(cfg: Config, round: nat)
    requires 1 <= round <= cfg.numQuestions
    ensures var left, tens := cfg.numQuestions - round, Tens(cfg, round);
      && TicksFrom(cfg, round) == (if cfg.hintless then 2 * left + 2 * tens else 4 * left) + 2
      && 0 <= tens <= left
    decreases cfg.numQuestions - round
  {
    if round < cfg.numQuestions {
      TicksInAll(cfg, round + 1);
      assert round / 10 - (round - 1) / 10 == if round % 10 == 0 then 1 else 0;
    }
  }

  // ----- the bound is reached -----------------------------------------------------------------

  /** A tick that asks, hints or times out as long as the game has questions. */
  const RoutineTick := Tick(TickEnv(0, false, [["question", "answer"]], false))

  function Routine(n: nat): seq<Event> { seq(n, _ => RoutineTick) }

  /** The question of a round can be asked by such a tick. */
  predicate CanAsk(cfg: Config, round: nat) {
    round % 10 == 0 || (1 <= round <= |cfg.cache| && cfg.cache[round - 1].id != 0)
  }

  lemma RunRoutine(g: Game, n: nat)
    ensures Run(g, Routine(n + 1)) == Run(TickGame(g, RoutineTick.env), Routine(n))
  {
    assert Routine(n + 1)[1..] == Routine(n);
  }

  lemma RoutineAdvances(g: Game)
    requires Inv(g) && !g.terminating && g.phase != End
    requires g.phase == AskQuestion ==> g.round < g.cfg.numQuestions && CanAsk(g.cfg, g.round)
    ensures !TickEnds(g, RoutineTick.env)
  {
    assert |Attempt(RoutineTick.env.attempts, 0)| == 2;
  }

  /** A state in which the question of the round is due. */
  predicate Due(g: Game, cfg: Config, round: nat) {
    Inv(g) && g.phase == AskQuestion && !g.terminating && g.round == round && g.cfg == cfg
  }

  lemma HintRunsOut(g: Game)
    requires Inv(g) && (g.phase == FirstHint || g.phase == SecondHint) && !g.terminating
    ensures var h := TickGame(g, RoutineTick.env);
      && Inv(h) && h.phase == (if g.phase == FirstHint then SecondHint else TimeUp)
      && !h.terminating && h.round == g.round && h.cfg == g.cfg
  {
    RoutineAdvances(g);
    TickAdvances(g, RoutineTick.env);
  }

  lemma TimeRunsOut(g: Game)
    requires Inv(g) && g.phase == TimeUp && !g.terminating
    ensures Due(TickGame(g, RoutineTick.env), g.cfg, g.round + 1)
  {
    RoutineAdvances(g);
    TickAdvances(g, RoutineTick.env);
  }

  lemma HintsRunOut(g: Game)
    requires Inv(g) && g.phase == FirstHint && !g.terminating
    ensures Due(Run(g, Routine(3)), g.cfg, g.round + 1)
  {
    var g1 := TickGame(g, RoutineTick.env);
    HintRunsOut(g);
    HintRunsOut(g1);
    TimeRunsOut(TickGame(g1, RoutineTick.env));
    ThreeTicks(g);
  }

  lemma ThreeTicks(g: Game)
    ensures var e := RoutineTick.env;
      Run(g, Routine(3)) == TickGame(TickGame(TickGame(g, e), e), e)
  {
    var g1 := TickGame(g, RoutineTick.env);
    RunRoutine(g, 2);
    RunRoutine(g1, 1);
    RunRoutine(TickGame(g1, RoutineTick.env), 0);
  }

  lemma QuestionIsAsked(g: Game)
    requires Due(g, g.cfg, g.round) && g.round < g.cfg.numQuestions && CanAsk(g.cfg, g.round)
    ensures var h := TickGame(g, RoutineTick.env);
      && Inv(h) && h.phase == (if QuestionTicks(g.cfg, g.round) == 2 then TimeUp else FirstHint)
      && !h.terminating && h.round == g.round && h.cfg == g.cfg
  {
    RoutineAdvances(g);
    TickAdvances(g, RoutineTick.env);
  }

  /** A question that nobody answers. */
  lemma QuestionTimesOut(g: Game)
    requires Due(g, g.cfg, g.round) && g.round < g.cfg.numQuestions && CanAsk(g.cfg, g.round)
    ensures Due(Run(g, Routine(QuestionTicks(g.cfg, g.round))), g.cfg, g.round + 1)
  {
    var g1 := TickGame(g, RoutineTick.env);
    QuestionIsAsked(g);
    if QuestionTicks(g.cfg, g.round) == 2 {
      TimeRunsOut(g1);
      RunRoutine(g, 1);
      RunRoutine(g1, 0);
    } else {
      RunRoutine(g, 3);
      HintsRunOut(g1);
    }
  }

  /** All questions of the game can be asked. */
  predicate CanAskAll(g: Game) {
    forall round :: g.round <= round < g.cfg.numQuestions ==> CanAsk(g.cfg, round)
  }

  lemma {:induction false} AllTimeOut(g: Game)
    requires Due(g, g.cfg, g.round) && g.round <= g.cfg.numQuestions && CanAskAll(g)
    ensures Due(Run(g, Routine(TicksFrom(g.cfg, g.round) - 2)), g.cfg, g.cfg.numQuestions)
    decreases g.cfg.numQuestions - g.round
  {
    if g.round < g.cfg.numQuestions {
      var q, n := QuestionTicks(g.cfg, g.round), TicksFrom(g.cfg, g.round + 1) - 2;
      QuestionTimesOut(g);
      AllTimeOut(Run(g, Routine(q)));
      RunInTwo(g, q, n);
    }
  }

  lemma RunInTwo(g: Game, m: nat, n: nat)
    ensures Run(g, Routine(m + n)) == Run(Run(g, Routine(m)), Routine(n))
  {
    assert Routine(m + n) == Routine(m) + Routine(n);
    RunAppend(g, Routine(m), Routine(n));
  }

  /** The bound of `EveryGameEnds` cannot be lowered, with or without hints. */
  lemma BoundIsReached(g: Game)
    requires Due(g, g.cfg, g.round) && g.round <= g.cfg.numQuestions && CanAskAll(g)
    ensures var n := Rank(g) - 1; Ticks(Routine(n)) == n && !Run(g, Routine(n)).terminating
  {
    var n := TicksFrom(g.cfg, g.round) - 2;
    var h := Run(g, Routine(n));
    AllTimeOut(g);
    RunRoutineOnce(g, n);
    OutOfRounds(h);
    RoutineTicks(n + 1);
  }

  lemma RunRoutineOnce(g: Game, n: nat)
    ensures Run(g, Routine(n + 1)) == TickGame(Run(g, Routine(n)), RoutineTick.env)
  {
    RunInTwo(g, n, 1);
    RunRoutine(Run(g, Routine(n)), 0);
  }

  lemma OutOfRounds(g: Game)
    requires Due(g, g.cfg, g.cfg.numQuestions)
    ensures !TickGame(g, RoutineTick.env).terminating
  {
    RemovesIff(g, RoutineTick);
  }

  lemma {:induction false} RoutineTicks(n: nat)
    ensures Ticks(Routine(n)) == n
  {
    if n > 0 {
      assert Routine(n)[1..] == Routine(n - 1);
      RoutineTicks(n - 1);
    }
  }

  // ----- what the question cache must cover -----------------------------------------------------

  predicate SafeRun(g: Game, es: seq<Event>)
    decreases |es|
  {
    es == [] || (!CacheFault(g, es[0]) && SafeRun(Step(g, es[0]), es[1..]))
  }

  lemma {:induction false} LongCacheIsSafe(g: Game, es: seq<Event>)
    requires Inv(g) && g.cfg.numQuestions - 1 <= |g.cfg.cache|
    ensures SafeRun(g, es)
    decreases |es|
  {
    if es != [] {
      StepKeepsInv(g, es[0]);
      StepSameGame(g, es[0]);
      LongCacheIsSafe(Step(g, es[0]), es[1..]);
    }
  }

  /** A malformed question, with id 0, ends the game that asks it. From `start` on every game has to
      ask the question of round `b`, unless that is a tenth round or comes right behind one: tenth
      rounds can be insane, and an insane round that is fully answered counts twice. */
  predicate Blocks(cfg: Config, start: nat, b: nat) {
    1 <= start <= b <= |cfg.cache| && cfg.cache[b - 1].id == 0 && (b % 10 >= 2 || (b % 10 == 1 && b == start))
  }

  /** The game has not got past round `b`. */
  predicate UpTo(g: Game, b: nat) {
    && (g.phase == AskQuestion ==> g.round <= b)
    && (InPlay(g.phase) || g.phase == AnswerCorrect ==> g.round < b)
  }

  lemma StaysUpTo(g: Game, ev: Event, start: nat, b: nat)
    requires Inv(g) && UpTo(g, b) && start <= g.round && Blocks(g.cfg, start, b)
    ensures UpTo(Step(g, ev), b) && start <= Step(g, ev).round
  {
    match ev
    case Tick(e) =>
      if !g.terminating && g.phase != End {
        TickStaysUpTo(g, e, start, b);
      }
    case Say(m) => MessageMoves(g, m);
    case Kill =>
  }

  lemma TickStaysUpTo(g: Game, e: TickEnv, start: nat, b: nat)
    requires Inv(g) && !g.terminating && g.phase != End
    requires UpTo(g, b) && start <= g.round && Blocks(g.cfg, start, b)
    ensures UpTo(TickGame(g, e), b) && start <= TickGame(g, e).round
  {
    RoundsOnlyRise(g, Tick(e));
    if TickEnds(g, e) {
      TickEndsIff(g, e);
    } else {
      TickAdvances(g, e);
    }
  }

  lemma RoundsOnlyRise(g: Game, ev: Event)
    requires Inv(g)
    ensures Step(g, ev).round >= g.round
  {
    match ev
    case Tick(e) => assert TickGame(g, e).round == g.round || TickGame(g, e).round == g.round + 1;
    case Say(m) => MessageMoves(g, m);
    case Kill =>
  }

  lemma {:induction false} BlockedIsSafe(g: Game, es: seq<Event>, start: nat, b: nat)
    requires Inv(g) && UpTo(g, b) && start <= g.round && Blocks(g.cfg, start, b)
    ensures SafeRun(g, es)
    decreases |es|
  {
    if es != [] {
      StepKeepsInv(g, es[0]);
      StepSameGame(g, es[0]);
      StaysUpTo(g, es[0], start, b);
      BlockedIsSafe(Step(g, es[0]), es[1..], start, b);
    }
  }

  // ----- runs that leave the cache --------------------------------------------------------------

  lemma {:induction false} SafeRunAppend(g: Game, es: seq<Event>, fs: seq<Event>)
    requires SafeRun(g, es + fs)
    ensures SafeRun(Run(g, es), fs)
    decreases |es|
  {
    if es == [] {
      assert es + fs == fs;
    } else {
      assert (es + fs)[1..] == es[1..] + fs;
      SafeRunAppend(Step(g, es[0]), es[1..], fs);
    }
  }

  const FullAnswer := Say(Message(0, 1, false, "answer", true, false, true, false))

  /** An insane round with a single answer, which is found at once. */
  lemma InsaneRoundIsAnswered(g: Game)
    requires Due(g, g.cfg, g.round) && g.round % 10 == 0 && g.round < g.cfg.numQuestions
    ensures Due(Run(g, [RoutineTick, FullAnswer, RoutineTick]), g.cfg, g.round + 2)
  {
    var e := RoutineTick.env;
    var g1 := TickGame(g, e);
    RoutineAdvances(g);
    TickAdvances(g, e);
    assert Attempt(e.attempts, 0) == ["question", "answer"];
    assert ["question", "answer"][1..] == ["answer"];
    assert g1.insane.keys == {"answer"};
    var g2 := Step(g1, FullAnswer);
    TakeInsaneEffect(g1, FullAnswer.msg);
    StepKeepsInv(g1, FullAnswer);
    StepSameGame(g1, FullAnswer);
    RoutineAdvances(g2);
    TickAdvances(g2, e);
    RunThree(g, RoutineTick, FullAnswer, RoutineTick);
  }

  /** A next question that cannot be asked but does not block comes behind a tenth round, and the one
      behind it can be asked. */
  lemma PassedOver(cfg: Config, round: nat)
    requires 1 <= round < |cfg.cache| && !CanAsk(cfg, round + 1)
    requires !Blocks(cfg, round, round + 1) && !Blocks(cfg, round, round + 2)
    ensures round % 10 == 0 && (round + 2 <= |cfg.cache| ==> CanAsk(cfg, round + 2))
  {
  }

  /** On to the next round, or past it if its question cannot be asked. */
  lemma Onward(g: Game) returns (es: seq<Event>, next: nat)
    requires Due(g, g.cfg, g.round) && g.round <= |g.cfg.cache| && g.round < g.cfg.numQuestions
    requires CanAsk(g.cfg, g.round) && forall b: nat :: !Blocks(g.cfg, g.round, b)
    ensures Due(Run(g, es), g.cfg, next) && g.round < next <= |g.cfg.cache| + 1
    ensures next <= |g.cfg.cache| ==> CanAsk(g.cfg, next)
  {
    next := g.round + 1;
    if next <= |g.cfg.cache| && !CanAsk(g.cfg, next) {
      PassedOver(g.cfg, g.round);
      es, next := [RoutineTick, FullAnswer, RoutineTick], g.round + 2;
      InsaneRoundIsAnswered(g);
    } else {
      es := Routine(QuestionTicks(g.cfg, g.round));
      QuestionTimesOut(g);
    }
  }

  lemma {:induction false} FaultComes(g: Game) returns (es: seq<Event>)
    requires Due(g, g.cfg, g.round) && g.round < g.cfg.numQuestions && |g.cfg.cache| + 1 < g.cfg.numQuestions
    requires g.round <= |g.cfg.cache| ==> CanAsk(g.cfg, g.round)
    requires forall b: nat :: !Blocks(g.cfg, g.round, b)
    ensures !SafeRun(g, es)
    decreases |g.cfg.cache| + 1 - g.round
  {
    if g.round > |g.cfg.cache| {
      es := [Tick(TickEnv(0, true, [], false))];
    } else {
      var on, next := Onward(g);
      forall b: nat ensures !Blocks(g.cfg, next, b) {
        assert !Blocks(g.cfg, g.round, b);
        assert b == next ==> CanAsk(g.cfg, b) || b > |g.cfg.cache|;
      }
      var more := FaultComes(Run(g, on));
      es := on + more;
      if SafeRun(g, es) {
        SafeRunAppend(g, on, more);
      }
    }
  }

  /** From any round a game is safe in every run exactly when its list covers all rounds, or a
      malformed question that cannot be passed over ends it before. */
  lemma CacheSafety(g: Game)
    requires Due(g, g.cfg, g.round)
    ensures (forall es :: SafeRun(g, es))
       <==> g.cfg.numQuestions - 1 <= |g.cfg.cache| || g.cfg.numQuestions <= g.round
            || exists b: nat :: Blocks(g.cfg, g.round, b)
  {
    if g.cfg.numQuestions - 1 <= |g.cfg.cache| {
      forall es ensures SafeRun(g, es) {
        LongCacheIsSafe(g, es);
      }
    } else if g.cfg.numQuestions <= g.round {
      forall es ensures SafeRun(g, es) {
        OverIsSafe(g, es);
      }
    } else if b: nat :| Blocks(g.cfg, g.round, b) {
      forall es ensures SafeRun(g, es) {
        BlockedIsSafe(g, es, g.round, b);
      }
    } else {
      assert !Blocks(g.cfg, g.round, g.round);
      var es := FaultComes(g);
    }
  }

  lemma {:induction false} OverIsSafe(g: Game, es: seq<Event>)
    requires Inv(g) && g.round >= g.cfg.numQuestions
    ensures SafeRun(g, es)
    decreases |es|
  {
    if es != [] {
      StepKeepsInv(g, es[0]);
      StepSameGame(g, es[0]);
      RoundsOnlyRise(g, es[0]);
      OverIsSafe(Step(g, es[0]), es[1..]);
    }
  }
}
