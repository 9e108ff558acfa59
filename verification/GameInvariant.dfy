/** What every step of a game keeps. */
module GameInvariant {
  import opened Common
  import opened Engine

  // ----- the invariant ----------------------------------------------------------------------

  /** Points the open question is worth, by phase, pace and mode. */
  function PhasePoints(phase: Phase, interval: int, hintless: bool): u32
    requires InPlay(phase)
  {
    var normal := interval == TRIV_INTERVAL;
    if hintless then 6
    else match phase
      case FirstHint => if normal then 4 else 8
      case SecondHint => if normal then 2 else 4
      case TimeUp => if normal then 1 else 2
  }

  /** A normal question is waiting for its answer. */
  predicate Open(g: Game) { InPlay(g.phase) && g.answer != "" }

  predicate InsaneOk(g: Game) {
    && g.insane.left == |g.insane.keys| <= g.insane.num
    && (g.insane.keys != {} ==> g.cfg.numQuestions > 0)
  }

  predicate RoundOk(g: Game) {
    && 1 <= g.round
    && (InPlay(g.phase) ==> g.round < g.cfg.numQuestions)
    && (g.phase == AnswerCorrect ==> g.round <= g.cfg.numQuestions && g.round + 1 < TWO32)
  }

  predicate Inv(g: Game) {
    && RoundOk(g)
    && InsaneOk(g)
    && (g.phase == AskQuestion ==> g.answer == "")
    && (Open(g) ==> g.score == PhasePoints(g.phase, g.cfg.interval, g.cfg.hintless))
    && (Open(g) && g.cfg.hintless ==> g.phase == TimeUp)
    && (g.saved.Some? ==> g.saved.value.streak == g.streak)
  }

  lemma NewGameOk(cfg: Config, streak: Streak, scores: map<u64, u64>)
    ensures Inv(NewGame(cfg, streak, scores))
  {
  }

  lemma KeysFit(answers: AnswerList)
    requires |answers| >= 2
    ensures 0 < |AnswerKeys(answers)| < TWO32
  {
    assert answers[1] in AnswerKeys(answers);
    DistinctBound(answers[1..]);
  }

  lemma {:induction false} DistinctBound(s: seq<string>)
    ensures |Elems(s)| <= |s|
  {
    if s != [] {
      DistinctBound(s[1..]);
      assert Elems(s) == {s[0]} + Elems(s[1..]);
    }
  }

  lemma InsaneRoundKeepsInv(g: Game, e: TickEnv)
    requires Inv(g) && g.phase == AskQuestion
    ensures Inv(DoInsaneRound(g, e))
  {
    var answers := FetchInsane(e.attempts, 0);
    if answers.Some? {
      KeysFit(answers.value);
    }
  }

  lemma NormalRoundKeepsInv(g: Game, e: TickEnv)
    requires Inv(g) && g.phase == AskQuestion
    ensures Inv(DoNormalRound(g, e))
  {
  }

  lemma TimeUpKeepsInv(g: Game, e: TickEnv)
    requires Inv(g) && g.phase == TimeUp
    ensures Inv(DoTimeUp(g, e))
  {
  }

  lemma AnswerCorrectKeepsInv(g: Game, e: TickEnv)
    requires Inv(g) && g.phase == AnswerCorrect
    ensures Inv(DoAnswerCorrect(g, e))
  {
  }

  lemma TickKeepsInv(g: Game, e: TickEnv)
    requires Inv(g)
    ensures Inv(TickGame(g, e))
  {
    if g.phase != End && !g.terminating {
      match g.phase
      case AskQuestion => InsaneRoundKeepsInv(g, e); NormalRoundKeepsInv(g, e);
      case FirstHint => assert Inv(DoFirstHint(g, e));
      case SecondHint => assert Inv(DoSecondHint(g, e));
      case TimeUp => TimeUpKeepsInv(g, e);
      case AnswerCorrect => AnswerCorrectKeepsInv(g, e);
    }
  }

  /** What a found insane answer changes: one key and one from the counter, and, exactly when it
      was the last key, the round and the phase. Neither unsigned subtraction underflows. */
  lemma TakeInsaneEffect(g: Game, m: Message)
    requires Inv(g) && InsaneHit(g, m)
    ensures var t := TakeInsane(g, m);
      && t.insane.keys == g.insane.keys - {m.key}
      && t.insane.left == g.insane.left - 1 == |t.insane.keys|
      && (t.insane.keys != {} ==> t.phase == g.phase && t.round == g.round && t.saved == g.saved)
      && (t.insane.keys == {} && g.round < g.cfg.numQuestions ==>
            t.round == g.round + 1 && t.round + 1 < TWO32 && t.phase == if m.stop then End else AnswerCorrect)
      && (t.insane.keys == {} && g.round >= g.cfg.numQuestions ==> t.round == g.round && t.phase == End)
      && !t.terminating
      && t.insane.num == g.insane.num && t.answer == g.answer && t.score == g.score && t.streak == g.streak
  {
    assert |g.insane.keys - {m.key}| == |g.insane.keys| - 1;
    assert Sub32(g.insane.left, 1) == g.insane.left - 1;
    assert Sub32(g.cfg.numQuestions, 1) == g.cfg.numQuestions - 1;
  }

  lemma TakeInsaneKeepsInv(g: Game, m: Message)
    requires Inv(g) && InsaneHit(g, m)
    ensures Inv(TakeInsane(g, m))
  {
    TakeInsaneEffect(g, m);
  }

  /** What an accepted answer changes: the question is closed and nobody else can have it; round,
      points and the insane board stay. */
  lemma TakeNormalEffect(g: Game, m: Message)
    requires NormalHit(g, m)
    ensures var t := HandleMessage(g, m);
      && t.answer == "" && t.phase == (if m.stop then End else AnswerCorrect) && !t.terminating
      && t.round == g.round && t.score == g.score && t.insane == g.insane && t.cfg == g.cfg
      && t.streak.last == m.author
  {
    assert HandleMessage(g, m) == TakeNormal(g, m);
  }

  lemma TakeNormalKeepsInv(g: Game, m: Message)
    requires Inv(g) && NormalHit(g, m)
    ensures Inv(TakeNormal(g, m))
  {
  }

  lemma StepKeepsInv(g: Game, ev: Event)
    requires Inv(g)
    ensures Inv(Step(g, ev))
  {
    match ev
    case Tick(e) => TickKeepsInv(g, e);
    case Say(m) =>
      if InsaneHit(g, m) {
        TakeInsaneKeepsInv(g, m);
      } else if NormalHit(g, m) {
        TakeNormalKeepsInv(g, m);
      }
    case Kill =>
  }

  lemma {:induction false} RunKeepsInv(g: Game, es: seq<Event>)
    requires Inv(g)
    ensures Inv(Run(g, es))
    decreases |es|
  {
    if es != [] {
      StepKeepsInv(g, es[0]);
      RunKeepsInv(Step(g, es[0]), es[1..]);
    }
  }

  lemma {:induction false} RunAppend(g: Game, es: seq<Event>, fs: seq<Event>)
    ensures Run(g, es + fs) == Run(Run(g, es), fs)
    decreases |es|
  {
    if es == [] {
      assert es + fs == fs;
    } else {
      assert (es + fs)[1..] == es[1..] + fs;
      RunAppend(Step(g, es[0]), es[1..], fs);
    }
  }

  lemma RunThree(g: Game, e1: Event, e2: Event, e3: Event)
    ensures Run(g, [e1, e2, e3]) == Step(Step(Step(g, e1), e2), e3)
  {
    var h1 := Step(g, e1);
    var h2 := Step(h1, e2);
    assert [e1, e2, e3][1..] == [e2, e3] && Run(g, [e1, e2, e3]) == Run(h1, [e2, e3]);
    assert [e2, e3][1..] == [e3] && Run(h1, [e2, e3]) == Run(h2, [e3]);
    assert [e3][1..] == [] && Run(h2, [e3]) == Run(Step(h2, e3), []);
  }

  /** No event changes the length, the pace, the mode or the questions of a game. */
  lemma StepSameGame(g: Game, ev: Event)
    ensures Step(g, ev).cfg == g.cfg
  {
    match ev
    case Tick(e) => assert TickGame(g, e).cfg == g.cfg;
    case Say(m) => assert TakeInsane(g, m).cfg == g.cfg && TakeNormal(g, m).cfg == g.cfg;
    case Kill =>
  }

  /** A finished game stays finished and is only ever marked for removal, and one that is marked does
      not change any more, although stopping a game assigns `terminating = false`. */
  lemma EndIsFinal(g: Game, ev: Event)
    ensures g.phase == End ==> Step(g, ev).phase == End
    ensures g.phase == End ==> Step(g, ev) == g.(terminating := Step(g, ev).terminating)
    ensures g.terminating ==> Step(g, ev) == g
  {
  }
}
