/** The streak fields of a game against the history of its normal questions. */
module Streaks {
  import opened Common
  import opened Engine
  import opened GameInvariant

  /** How a normal question ended: answered, or timed out while it was still open. */
  datatype Outcome = Correct(author: u64) | Missed

  function OutcomeOf(g: Game, ev: Event): seq<Outcome> {
    match ev
    case Say(m) => if NormalHit(g, m) then [Correct(m.author)] else []
    case Tick(_) => if g.phase == TimeUp && Open(g) && !g.terminating then [Missed] else []
    case Kill => []
  }

  function History(g: Game, es: seq<Event>): seq<Outcome>
    decreases |es|
  {
    if es == [] then [] else OutcomeOf(g, es[0]) + History(Step(g, es[0]), es[1..])
  }

  function Last(h: seq<Outcome>): Outcome
    requires h != []
  {
    h[|h| - 1]
  }

  /** How many outcomes at the end of the history are answers of `a`. */
  function RunOf(h: seq<Outcome>, a: u64): nat {
    if h != [] && Last(h) == Correct(a) then 1 + RunOf(h[..|h| - 1], a) else 0
  }

  lemma {:induction false} RunOfIsMaximal(h: seq<Outcome>, a: u64)
    ensures var k := RunOf(h, a);
      && k <= |h|
      && (forall i :: |h| - k <= i < |h| ==> h[i] == Correct(a))
      && (k < |h| ==> h[|h| - k - 1] != Correct(a))
  {
    if h != [] && Last(h) == Correct(a) {
      RunOfIsMaximal(h[..|h| - 1], a);
    }
  }

  /** The streak a history stands for: nobody's after a miss, else the last author's trailing run. */
  function StreakOf(h: seq<Outcome>): Streak {
    if h == [] || Last(h) == Missed then Streak(0, 1)
    else Streak(Last(h).author, Wrap32(RunOf(h, Last(h).author)))
  }

  lemma {:induction false} IncWraps(n: nat)
    ensures Inc32(Wrap32(n)) == Wrap32(n + 1)
  {
    if n >= TWO32 {
      IncWraps(n - TWO32);
    }
  }

  /** An answer moves the streak as the history says, unless it is the first after a miss and its
      author is the number 0 that also stands for nobody. */
  lemma CorrectMovesStreak(g: Game, m: Message, h: seq<Outcome>)
    requires NormalHit(g, m) && g.streak == StreakOf(h)
    ensures HandleMessage(g, m).streak == StreakOf(h + [Correct(m.author)])
        <==> m.author != 0 || (h != [] && Last(h).Correct?)
  {
    var a := m.author;
    var h1 := h + [Correct(a)];
    assert h1[..|h1| - 1] == h;
    assert StreakOf(h1) == Streak(a, Wrap32(1 + RunOf(h, a)));
    assert HandleMessage(g, m).streak == Streak(a, if g.streak.last == a then Inc32(g.streak.count) else 1);
    if h != [] && Last(h) == Correct(a) {
      IncWraps(RunOf(h, a));
    }
  }

  /** A question that times out moves the streak as the history says exactly when the round is not
      an insane one by then, or there was nothing to lose. */
  lemma MissMovesStreak(g: Game, e: TickEnv, h: seq<Outcome>)
    requires OutcomeOf(g, Tick(e)) == [Missed] && g.streak == StreakOf(h)
    ensures TickGame(g, e).streak == StreakOf(h + [Missed])
        <==> !IsInsaneRound(g, e.disableInsane) || g.streak == Streak(0, 1)
  {
    assert TickGame(g, e) == DoTimeUp(g, e);
    assert Last(h + [Missed]) == Missed;
  }

  lemma OtherStepsKeepStreak(g: Game, ev: Event)
    requires OutcomeOf(g, ev) == []
    ensures Inv(g) ==> Step(g, ev).streak == g.streak
  {
    match ev
    case Tick(e) =>
      if Inv(g) {
        assert TickGame(g, e).streak == g.streak;
      }
    case Say(m) =>
      if InsaneHit(g, m) {
        assert TakeInsane(g, m).streak == g.streak;
      }
    case Kill =>
  }

  /** The insane-round setting is `off` for the whole run, and authors have real ids. */
  predicate Steady(ev: Event, off: bool) {
    match ev
    case Tick(e) => e.disableInsane == off
    case Say(m) => m.disableInsane == off && m.author != 0
    case Kill => true
  }

  /** The streak fields say what the history says. */
  predicate Tracks(g: Game, off: bool, h: seq<Outcome>) {
    && Inv(g)
    && (Open(g) ==> !IsInsaneRound(g, off))
    && g.streak == StreakOf(h)
  }

  lemma OpenStaysNormal(g: Game, ev: Event, off: bool)
    requires Inv(g) && Steady(ev, off) && (Open(g) ==> !IsInsaneRound(g, off))
    ensures Open(Step(g, ev)) ==> !IsInsaneRound(Step(g, ev), off)
  {
    match ev
    case Tick(e) =>
      if g.phase == AskQuestion && !g.terminating {
        if IsInsaneRound(g, off) {
          assert TickGame(g, e) == DoInsaneRound(g, e);
        } else {
          assert TickGame(g, e) == DoNormalRound(g, e);
        }
      }
    case Say(m) =>
      if InsaneHit(g, m) {
        TakeInsaneEffect(g, m);
        assert TakeInsane(g, m).answer == g.answer;
      }
    case Kill =>
  }

  lemma StepTracks(g: Game, ev: Event, off: bool, h: seq<Outcome>)
    requires Tracks(g, off, h) && Steady(ev, off)
    ensures Tracks(Step(g, ev), off, h + OutcomeOf(g, ev))
  {
    StepKeepsInv(g, ev);
    OpenStaysNormal(g, ev, off);
    if OutcomeOf(g, ev) == [] {
      OtherStepsKeepStreak(g, ev);
      assert h + OutcomeOf(g, ev) == h;
    } else {
      match ev
      case Tick(e) => MissMovesStreak(g, e, h);
      case Say(m) => CorrectMovesStreak(g, m, h);
      case Kill =>
    }
  }

  /** Over every run of one game, the streak fields are the trailing run of the history. */
  lemma {:induction false} RunTracks(g: Game, es: seq<Event>, off: bool, h: seq<Outcome>)
    requires Tracks(g, off, h) && forall ev :: ev in es ==> Steady(ev, off)
    ensures Tracks(Run(g, es), off, h + History(g, es))
    decreases |es|
  {
    if es == [] {
      assert h + [] == h;
    } else {
      var g1 := Step(g, es[0]);
      StepTracks(g, es[0], off, h);
      RunTracks(g1, es[1..], off, h + OutcomeOf(g, es[0]));
      ConcatAssoc(h, OutcomeOf(g, es[0]), History(g1, es[1..]));
    }
  }

  /** The event moves the streak otherwise than the history: author 0 answers when there is nobody to
      follow, or an insane round saves a streak from an open question that times out. */
  predicate Breaks(g: Game, ev: Event, h: seq<Outcome>) {
    match ev
    case Say(m) => NormalHit(g, m) && m.author == 0 && (h == [] || Last(h) == Missed)
    case Tick(e) =>
      && g.phase == TimeUp && Open(g) && !g.terminating
      && IsInsaneRound(g, e.disableInsane) && g.streak != Streak(0, 1)
    case Kill => false
  }

  lemma StepAgreesIff(g: Game, ev: Event, h: seq<Outcome>)
    requires Inv(g) && g.streak == StreakOf(h)
    ensures Step(g, ev).streak == StreakOf(h + OutcomeOf(g, ev)) <==> !Breaks(g, ev, h)
  {
    if OutcomeOf(g, ev) == [] {
      OtherStepsKeepStreak(g, ev);
      assert h + [] == h;
    } else {
      match ev
      case Tick(e) => MissMovesStreak(g, e, h);
      case Say(m) => CorrectMovesStreak(g, m, h);
      case Kill =>
    }
  }

  /** After `n` events the streak is that of the history. */
  predicate AgreesAfter(g: Game, es: seq<Event>, h: seq<Outcome>, n: nat) {
    n <= |es| && Run(g, es[..n]).streak == StreakOf(h + History(g, es[..n]))
  }

  lemma AgreesLater(g: Game, es: seq<Event>, h: seq<Outcome>, n: nat)
    requires n < |es|
    ensures AgreesAfter(g, es, h, n + 1)
       <==> AgreesAfter(Step(g, es[0]), es[1..], h + OutcomeOf(g, es[0]), n)
  {
    assert es[..n + 1][1..] == es[1..][..n];
    ConcatAssoc(h, OutcomeOf(g, es[0]), History(Step(g, es[0]), es[1..][..n]));
  }

  predicate NothingBreaks(g: Game, es: seq<Event>, h: seq<Outcome>)
    decreases |es|
  {
    es == [] || (!Breaks(g, es[0], h) && NothingBreaks(Step(g, es[0]), es[1..], h + OutcomeOf(g, es[0])))
  }

  /** Over every run: streak and history agree after each beginning of it exactly when no event of it
      breaks the rule. */
  lemma {:induction false} RunAgreesIff(g: Game, es: seq<Event>, h: seq<Outcome>)
    requires Inv(g) && g.streak == StreakOf(h)
    ensures (forall n :: 0 <= n <= |es| ==> AgreesAfter(g, es, h, n)) <==> NothingBreaks(g, es, h)
    decreases |es|
  {
    assert h + [] == h;
    assert AgreesAfter(g, es, h, 0);
    if es != [] {
      var g1, later, h1 := Step(g, es[0]), es[1..], h + OutcomeOf(g, es[0]);
      StepAgreesIff(g, es[0], h);
      StepKeepsInv(g, es[0]);
      forall n: nat | n < |es| ensures AgreesAfter(g, es, h, n + 1) <==> AgreesAfter(g1, later, h1, n) {
        AgreesLater(g, es, h, n);
      }
      assert h1 + [] == h1;
      assert AgreesAfter(g1, later, h1, 0) <==> g1.streak == StreakOf(h1);
      AllShift(g, es, h, g1, later, h1);
      if g1.streak == StreakOf(h1) {
        RunAgreesIff(g1, later, h1);
      }
    }
  }

  lemma AllShift(g: Game, es: seq<Event>, h: seq<Outcome>, g1: Game, later: seq<Event>, h1: seq<Outcome>)
    requires |es| == |later| + 1 && AgreesAfter(g, es, h, 0)
    requires forall n: nat :: n < |es| ==> (AgreesAfter(g, es, h, n + 1) <==> AgreesAfter(g1, later, h1, n))
    ensures (forall n :: 0 <= n <= |es| ==> AgreesAfter(g, es, h, n))
       <==> (forall n :: 0 <= n <= |later| ==> AgreesAfter(g1, later, h1, n))
  {
    if forall n :: 0 <= n <= |later| ==> AgreesAfter(g1, later, h1, n) {
      forall n | 0 <= n <= |es| ensures AgreesAfter(g, es, h, n) {
        if n > 0 {
          assert AgreesAfter(g1, later, h1, n - 1);
        }
      }
    }
    if forall n :: 0 <= n <= |es| ==> AgreesAfter(g, es, h, n) {
      forall n | 0 <= n <= |later| ensures AgreesAfter(g1, later, h1, n) {
        assert AgreesAfter(g, es, h, n + 1);
      }
    }
  }

  /** Every outcome is saved in the same step, with the streak it leads to. */
  lemma OutcomesAreSaved(g: Game, ev: Event)
    requires Inv(g) && OutcomeOf(g, ev) != []
    ensures Step(g, ev).saved == Some(Snapshot(Step(g, ev).streak, if ev.Tick? then ev.env.now else ev.msg.now))
  {
    match ev
    case Tick(e) => assert TickGame(g, e) == DoTimeUp(g, e);
    case Say(m) => assert HandleMessage(g, m) == TakeNormal(g, m);
    case Kill =>
  }

  /** Which ticks save: all of a running game but those that find it out of rounds or without the
      question of a normal round. What is saved is the streak after the tick, and the time. */
  lemma TickSaves(g: Game, e: TickEnv)
    requires !g.terminating && g.phase != End
    ensures var h := TickGame(g, e);
      h.saved == if g.phase == AskQuestion
                    && (g.round >= g.cfg.numQuestions
                        || ((e.disableInsane || g.round % 10 != 0)
                            && !(1 <= g.round <= |g.cfg.cache| && g.cfg.cache[g.round - 1].id != 0)))
                 then g.saved else Some(Snapshot(h.streak, e.now))
  {
    match g.phase
    case AskQuestion =>
      if IsInsaneRound(g, e.disableInsane) {
        assert TickGame(g, e) == DoInsaneRound(g, e);
      } else {
        assert TickGame(g, e) == DoNormalRound(g, e);
      }
    case FirstHint => assert TickGame(g, e) == DoFirstHint(g, e);
    case SecondHint => assert TickGame(g, e) == DoSecondHint(g, e);
    case TimeUp => assert TickGame(g, e) == DoTimeUp(g, e);
    case AnswerCorrect => assert TickGame(g, e) == DoAnswerCorrect(g, e);
    case End =>
  }

  /** Which messages save: answers, and those that take the last insane one. */
  lemma MessageSaves(g: Game, m: Message)
    requires Inv(g)
    ensures var h := HandleMessage(g, m);
      h.saved == if NormalHit(g, m) || (InsaneHit(g, m) && g.insane.keys == {m.key})
                 then Some(Snapshot(h.streak, m.now)) else g.saved
  {
    if InsaneHit(g, m) {
      TakeInsaneEffect(g, m);
      assert HandleMessage(g, m) == TakeInsane(g, m);
      assert g.insane.keys - {m.key} == {} <==> g.insane.keys == {m.key};
    } else if NormalHit(g, m) {
      assert HandleMessage(g, m) == TakeNormal(g, m);
    }
  }

  // ----- runs in which they differ ----------------------------------------------------------------

  /** A game of twenty questions from a list of fifty, as a start command begins it. */
  function TwentyQuestions(): Game {
    NewGame(Config(21, TRIV_INTERVAL, false, seq(50, _ => Question(1, "x"))), Streak(0, 1), map[])
  }

  /** A tick while insane rounds are switched off. */
  const PlainTick := Tick(TickEnv(0, true, [], false))

  function AnswerBy(author: u64): Event { Say(Message(0, author, false, "", true, true, true, false)) }

  /** Player 7 answers `n` questions in a row. */
  function Wins(n: nat): seq<Event> {
    if n == 0 then [] else [PlainTick, AnswerBy(7), PlainTick] + Wins(n - 1)
  }

  predicate Playing(g: Game, round: nat) {
    g.cfg == TwentyQuestions().cfg && !g.terminating && g.round == round
  }

  lemma AskNormal(g: Game, round: nat)
    requires Playing(g, round) && g.phase == AskQuestion && 1 <= round <= 20
    ensures var h := Step(g, PlainTick);
      Playing(h, round) && h.phase == FirstHint && h.answer == "x" && h.streak == g.streak
  {
    assert g.cfg.cache[round - 1] == Question(1, "x");
    assert Step(g, PlainTick) == DoNormalRound(g, PlainTick.env);
  }

  lemma WinRound(g: Game, round: nat)
    requires Playing(g, round) && g.phase == AskQuestion && 1 <= round <= 20
    ensures var h := Run(g, [PlainTick, AnswerBy(7), PlainTick]);
      Playing(h, round + 1) && h.phase == AskQuestion && h.streak.last == 7
  {
    AskNormal(g, round);
    var g1 := Step(g, PlainTick);
    var g2 := Step(g1, AnswerBy(7));
    assert g2 == TakeNormal(g1, AnswerBy(7).msg);
    assert Step(g2, PlainTick) == DoAnswerCorrect(g2, PlainTick.env);
    RunThree(g, PlainTick, AnswerBy(7), PlainTick);
  }

  lemma {:induction false} WinRounds(g: Game, round: nat, n: nat)
    requires Playing(g, round) && g.phase == AskQuestion && 1 <= round && round + n <= 21
    requires n > 0 || g.streak.last == 7
    ensures var h := Run(g, Wins(n));
      Playing(h, round + n) && h.phase == AskQuestion && h.streak.last == 7
    ensures forall ev :: ev in Wins(n) ==> Steady(ev, true)
    decreases n
  {
    if n > 0 {
      var first := [PlainTick, AnswerBy(7), PlainTick];
      WinRound(g, round);
      WinRounds(Run(g, first), round + 1, n - 1);
      RunAppend(g, first, Wins(n - 1));
    }
  }

  /** A question that is asked and not answered, up to its time-up. */
  lemma HintsRunOut(g: Game, round: nat)
    requires Playing(g, round) && g.phase == AskQuestion && 1 <= round <= 20
    ensures var h := Run(g, [PlainTick, PlainTick, PlainTick]);
      Playing(h, round) && h.phase == TimeUp && h.answer == "x" && h.streak == g.streak
  {
    AskNormal(g, round);
    var g1 := Step(g, PlainTick);
    assert Step(g1, PlainTick) == DoFirstHint(g1, PlainTick.env);
    RunThree(g, PlainTick, PlainTick, PlainTick);
  }

  function NineWins(): seq<Event> { Wins(9) + [PlainTick, PlainTick, PlainTick] }

  /** The tenth question is open, and its time is up. */
  lemma TenthRunsOut()
    ensures var g := Run(TwentyQuestions(), NineWins());
      Playing(g, 10) && g.phase == TimeUp && g.answer == "x" && g.streak.last == 7
    ensures forall ev :: ev in NineWins() ==> Steady(ev, true)
  {
    WinRounds(TwentyQuestions(), 1, 9);
    HintsRunOut(Run(TwentyQuestions(), Wins(9)), 10);
    RunAppend(TwentyQuestions(), Wins(9), [PlainTick, PlainTick, PlainTick]);
  }

  lemma NewGameTracks()
    ensures Tracks(TwentyQuestions(), true, [])
  {
    var g := TwentyQuestions();
    NewGameOk(g.cfg, g.streak, g.scores);
  }

  /** Player 7 has answered nine questions when the tenth times out; insane rounds have been switched
      on since it was asked, so he keeps a streak that the history has broken. */
  lemma SwitchedOnTooLate() returns (es: seq<Event>, e: TickEnv)
    ensures var g, h := Run(TwentyQuestions(), es), History(TwentyQuestions(), es);
      && g.streak == StreakOf(h) && OutcomeOf(g, Tick(e)) == [Missed]
      && TickGame(g, e).streak != StreakOf(h + [Missed])
  {
    es, e := NineWins(), TickEnv(0, false, [], false);
    TenthRunsOut();
    NewGameTracks();
    RunTracks(TwentyQuestions(), es, true, []);
    var h := History(TwentyQuestions(), es);
    assert [] + h == h;
    MissMovesStreak(Run(TwentyQuestions(), es), e, h);
  }

  /** Player 0 answers the first question of all and is taken for the leader he is not. */
  lemma NobodyAnswers()
    ensures var es, m := [PlainTick], AnswerBy(0).msg;
      var g, h := Run(TwentyQuestions(), es), History(TwentyQuestions(), es);
      && NormalHit(g, m) && g.streak == StreakOf(h)
      && HandleMessage(g, m).streak != StreakOf(h + [Correct(m.author)])
  {
    var g := Step(TwentyQuestions(), PlainTick);
    AskNormal(TwentyQuestions(), 1);
    assert [PlainTick][1..] == [] && Run(TwentyQuestions(), [PlainTick]) == g;
    assert History(TwentyQuestions(), [PlainTick]) == [] + History(g, []);
    CorrectMovesStreak(g, AnswerBy(0).msg, []);
  }
}
