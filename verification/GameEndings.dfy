/** Which events change a game, and which end it: step by step, then over whole runs. */
module GameEndings {
  import opened Engine
  import opened GameInvariant

  // ----- one event --------------------------------------------------------------------------

  /** The message comes from a player who is not banned, while a question can be answered, and holds
      an open answer. */
  predicate Counts(g: Game, m: Message) {
    && !g.terminating && !m.banned
    && g.phase != AnswerCorrect && g.phase != End
    && (if !m.disableInsane && g.round % 10 == 0 then m.key in g.insane.keys
        else g.answer != "" && g.phase != AskQuestion && m.accepted)
  }

  lemma MessageCountsIff(g: Game, m: Message)
    requires Inv(g)
    ensures HandleMessage(g, m) != g <==> Counts(g, m)
  {
    if InsaneHit(g, m) {
      TakeInsaneEffect(g, m);
      assert m.key !in TakeInsane(g, m).insane.keys;
    } else if NormalHit(g, m) {
      assert TakeNormal(g, m).answer == "";
    }
  }

  /** None of the first five attempts brings two entries. */
  predicate NothingFetched(attempts: seq<AnswerList>, tries: nat) {
    forall i :: tries <= i < 5 ==> |Attempt(attempts, i)| < 2
  }

  /** The fetch of an insane round gives up exactly then, and otherwise takes the first attempt that
      brings two entries. */
  lemma {:induction false} FetchesFiveTimes(attempts: seq<AnswerList>, tries: nat)
    requires tries <= 5
    ensures var r := FetchInsane(attempts, tries);
      && (r.None? <==> NothingFetched(attempts, tries))
      && (r.Some? ==> exists i :: tries <= i < 5 && r.value == Attempt(attempts, i) && |r.value| >= 2
                        && forall j :: tries <= j < i ==> |Attempt(attempts, j)| < 2)
    decreases 5 - tries
  {
    if tries < 5 && |Attempt(attempts, tries)| < 2 {
      FetchesFiveTimes(attempts, tries + 1);
    }
  }

  /** The list has a question for the round, and it is not malformed. */
  predicate HasQuestion(g: Game) { 1 <= g.round <= |g.cfg.cache| && g.cfg.cache[g.round - 1].id != 0 }

  /** A tick that finds the game stopped, out of rounds, or without the question of the round. */
  predicate TickEnds(g: Game, e: TickEnv) {
    && !g.terminating && g.phase != End
    && (e.stop
        || (g.phase == AskQuestion
            && (g.round >= g.cfg.numQuestions
                || (if !e.disableInsane && g.round % 10 == 0 then NothingFetched(e.attempts, 0)
                    else !HasQuestion(g)))))
  }

  /** A message that answers the question, or takes the last insane answer, in a game that is stopped
      or, for insane answers, out of rounds by then. */
  predicate MessageEnds(g: Game, m: Message) {
    && Counts(g, m)
    && (if !m.disableInsane && g.round % 10 == 0 then
          g.insane.keys == {m.key} && (m.stop || g.round >= g.cfg.numQuestions)
        else m.stop)
  }

  predicate Ends(g: Game, ev: Event) {
    match ev
    case Tick(e) => TickEnds(g, e)
    case Say(m) => MessageEnds(g, m)
    case Kill => false
  }

  /** An ending that no stop has caused leaves no points and no answer. */
  lemma EndsWithNothing(g: Game, e: TickEnv)
    requires Inv(g) && TickEnds(g, e) && g.phase == AskQuestion
    requires g.round >= g.cfg.numQuestions || ((e.disableInsane || g.round % 10 != 0) && !HasQuestion(g))
    ensures TickGame(g, e) == g.(phase := End, score := 0) && g.answer == ""
  {
    if IsInsaneRound(g, e.disableInsane) {
      assert TickGame(g, e) == DoInsaneRound(g, e);
    } else {
      assert TickGame(g, e) == DoNormalRound(g, e);
    }
  }

  lemma TickEndsIff(g: Game, e: TickEnv)
    requires Inv(g) && g.phase != End
    ensures TickGame(g, e).phase == End <==> TickEnds(g, e)
  {
    if !g.terminating {
      match g.phase
      case AskQuestion =>
        if IsInsaneRound(g, e.disableInsane) {
          FetchesFiveTimes(e.attempts, 0);
          assert TickGame(g, e) == DoInsaneRound(g, e);
        } else {
          assert TickGame(g, e) == DoNormalRound(g, e);
        }
      case FirstHint => assert TickGame(g, e) == DoFirstHint(g, e);
      case SecondHint => assert TickGame(g, e) == DoSecondHint(g, e);
      case TimeUp => assert TickGame(g, e) == DoTimeUp(g, e);
      case AnswerCorrect => assert TickGame(g, e) == DoAnswerCorrect(g, e);
      case End =>
    }
  }

  lemma MessageEndsIff(g: Game, m: Message)
    requires Inv(g) && g.phase != End
    ensures HandleMessage(g, m).phase == End <==> MessageEnds(g, m)
  {
    if InsaneHit(g, m) {
      TakeInsaneEffect(g, m);
      assert g.insane.keys - {m.key} == {} <==> g.insane.keys == {m.key};
    } else if NormalHit(g, m) {
      assert HandleMessage(g, m) == TakeNormal(g, m);
    }
  }

  lemma EndsIff(g: Game, ev: Event)
    requires Inv(g) && g.phase != End
    ensures Step(g, ev).phase == End <==> Ends(g, ev)
  {
    match ev
    case Tick(e) => TickEndsIff(g, e);
    case Say(m) => MessageEndsIff(g, m);
    case Kill =>
  }

  /** Where a tick leads from each phase if nothing ends the game: the phase, the round, the open
      answer, what it is worth, and the insane board. */
  lemma TickAdvances(g: Game, e: TickEnv)
    requires Inv(g) && !g.terminating && g.phase != End && !TickEnds(g, e)
    ensures var h := TickGame(g, e);
      && Inv(h) && !h.terminating && h.cfg == g.cfg
      && match g.phase
         case AskQuestion =>
           && h.round == g.round
           && (if !e.disableInsane && g.round % 10 == 0 then
                 h.phase == FirstHint && h.answer == "" && h.score == g.score && h.insane.stats == g.insane.stats
               else
                 && 1 <= g.round <= |g.cfg.cache| && h.answer == g.cfg.cache[g.round - 1].answer
                 && h.phase == (if g.cfg.hintless then TimeUp else FirstHint)
                 && h.score == PhasePoints(h.phase, g.cfg.interval, g.cfg.hintless)
                 && h.insane == g.insane)
         case FirstHint =>
           && h.phase == SecondHint && h.round == g.round && h.answer == g.answer && h.insane == g.insane
           && h.score == PhasePoints(SecondHint, g.cfg.interval, false)
         case SecondHint =>
           && h.phase == TimeUp && h.round == g.round && h.answer == g.answer && h.insane == g.insane
           && h.score == PhasePoints(TimeUp, g.cfg.interval, false)
         case _ =>
           && h.phase == AskQuestion && h.round == g.round + 1 && h.answer == "" && h.score == g.score
           && h.insane.keys == g.insane.keys && h.insane.left == g.insane.left && h.insane.num == g.insane.num
  {
    TickKeepsInv(g, e);
    TickEndsIff(g, e);
    match g.phase
    case AskQuestion =>
      if IsInsaneRound(g, e.disableInsane) {
        assert TickGame(g, e) == DoInsaneRound(g, e);
      } else {
        assert TickGame(g, e) == DoNormalRound(g, e);
      }
    case FirstHint => assert TickGame(g, e) == DoFirstHint(g, e);
    case SecondHint => assert TickGame(g, e) == DoSecondHint(g, e);
    case TimeUp => assert TickGame(g, e) == DoTimeUp(g, e);
    case AnswerCorrect => assert TickGame(g, e) == DoAnswerCorrect(g, e);
    case End =>
  }

  // ----- whole runs -------------------------------------------------------------------------

  /** The game as event `i` of a run finds it. */
  function Before(g: Game, es: seq<Event>, i: nat): Game
    requires i <= |es|
  {
    Run(g, es[..i])
  }

  lemma BeforeLater(g: Game, es: seq<Event>)
    requires es != []
    ensures Before(g, es, 0) == g
    ensures forall i :: 0 <= i < |es[1..]| ==> Before(g, es, i + 1) == Before(Step(g, es[0]), es[1..], i)
  {
    forall i | 0 <= i < |es[1..]| ensures Before(g, es, i + 1) == Before(Step(g, es[0]), es[1..], i) {
      assert es[..i + 1][1..] == es[1..][..i];
    }
  }

  lemma {:induction false} StaysEnded(g: Game, es: seq<Event>)
    ensures g.phase == End ==> Run(g, es).phase == End
    ensures g.terminating ==> Run(g, es).terminating
    decreases |es|
  {
    if es != [] {
      EndIsFinal(g, es[0]);
      StaysEnded(Step(g, es[0]), es[1..]);
    }
  }

  ghost predicate SomethingEnds(g: Game, es: seq<Event>) {
    exists i :: 0 <= i < |es| && Ends(Before(g, es, i), es[i])
  }

  lemma EndsNowOrLater(g: Game, es: seq<Event>)
    requires es != []
    ensures SomethingEnds(g, es) <==> Ends(g, es[0]) || SomethingEnds(Step(g, es[0]), es[1..])
  {
    var h, later := Step(g, es[0]), es[1..];
    BeforeLater(g, es);
    assert Ends(g, es[0]) ==> Ends(Before(g, es, 0), es[0]);
    if i :| 0 <= i < |later| && Ends(Before(h, later, i), later[i]) {
      assert Ends(Before(g, es, i + 1), es[i + 1]);
    }
    if i :| 0 < i < |es| && Ends(Before(g, es, i), es[i]) {
      assert Before(g, es, i - 1 + 1) == Before(h, later, i - 1);
      assert Ends(Before(h, later, i - 1), later[i - 1]);
    }
  }

  /** Over any run: the game has ended exactly if some event of the run met the conditions for it. */
  lemma {:induction false} RunEndsIff(g: Game, es: seq<Event>)
    requires Inv(g) && g.phase != End
    ensures Run(g, es).phase == End <==> SomethingEnds(g, es)
    decreases |es|
  {
    if es != [] {
      var h := Step(g, es[0]);
      EndsIff(g, es[0]);
      EndsNowOrLater(g, es);
      StepKeepsInv(g, es[0]);
      if h.phase == End {
        StaysEnded(h, es[1..]);
      } else {
        RunEndsIff(h, es[1..]);
      }
    }
  }

  /** The stop command, or a tick of a game that has ended. */
  predicate Removes(g: Game, ev: Event) {
    ev.Kill? || (ev.Tick? && g.phase == End)
  }

  ghost predicate SomethingRemoves(g: Game, es: seq<Event>) {
    exists i :: 0 <= i < |es| && Removes(Before(g, es, i), es[i])
  }

  lemma RemovesNowOrLater(g: Game, es: seq<Event>)
    requires es != []
    ensures SomethingRemoves(g, es) <==> Removes(g, es[0]) || SomethingRemoves(Step(g, es[0]), es[1..])
  {
    var h, later := Step(g, es[0]), es[1..];
    BeforeLater(g, es);
    assert Removes(g, es[0]) ==> Removes(Before(g, es, 0), es[0]);
    if i :| 0 <= i < |later| && Removes(Before(h, later, i), later[i]) {
      assert Removes(Before(g, es, i + 1), es[i + 1]);
    }
    if i :| 0 < i < |es| && Removes(Before(g, es, i), es[i]) {
      assert Before(g, es, i - 1 + 1) == Before(h, later, i - 1);
      assert Removes(Before(h, later, i - 1), later[i - 1]);
    }
  }

  /** Over any run: the game is marked for removal exactly if it was killed, or ticked after its end. */
  lemma {:induction false} RunRemovesIff(g: Game, es: seq<Event>)
    requires !g.terminating
    ensures Run(g, es).terminating <==> SomethingRemoves(g, es)
    decreases |es|
  {
    if es != [] {
      var h := Step(g, es[0]);
      RemovesIff(g, es[0]);
      RemovesNowOrLater(g, es);
      if h.terminating {
        StaysEnded(h, es[1..]);
      } else {
        RunRemovesIff(h, es[1..]);
      }
    }
  }

  lemma RemovesIff(g: Game, ev: Event)
    requires !g.terminating
    ensures Step(g, ev).terminating <==> Removes(g, ev)
  {
    match ev
    case Tick(e) =>
    case Say(m) => assert !TakeInsane(g, m).terminating && !TakeNormal(g, m).terminating;
    case Kill =>
  }

  /** The events of a run without the messages that do not count. */
  function Heeded(g: Game, es: seq<Event>): seq<Event>
    decreases |es|
  {
    if es == [] then []
    else (if es[0].Say? && !Counts(g, es[0].msg) then [] else [es[0]]) + Heeded(Step(g, es[0]), es[1..])
  }

  /** Every message of the run changes the game. */
  predicate AllCount(g: Game, es: seq<Event>)
    decreases |es|
  {
    es == [] || ((es[0].Say? ==> Step(g, es[0]) != g) && AllCount(Step(g, es[0]), es[1..]))
  }

  /** Over any run: what does not count has no effect, not even later, and what counts has one. */
  lemma {:induction false} OnlyHeededMatter(g: Game, es: seq<Event>)
    requires Inv(g)
    ensures Run(g, Heeded(g, es)) == Run(g, es) && AllCount(g, Heeded(g, es))
    decreases |es|
  {
    if es != [] {
      var h := Step(g, es[0]);
      StepKeepsInv(g, es[0]);
      OnlyHeededMatter(h, es[1..]);
      if es[0].Say? {
        MessageCountsIff(g, es[0].msg);
      }
      if h == g && es[0].Say? {
        assert Heeded(g, es) == Heeded(g, es[1..]);
      } else {
        assert Heeded(g, es)[1..] == Heeded(h, es[1..]);
      }
    }
  }
}
