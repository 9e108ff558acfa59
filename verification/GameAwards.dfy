/** What a run of a game asks, who answers it, and the points that are credited for it. */
module GameAwards {
  import opened Common
  import opened Engine
  import opened GameInvariant

  /** What an onlooker sees: a question put to the channel, or an accepted answer to a normal one. */
  datatype Fact =
    | Asked(round: u32, normal: bool)
    | Answered(round: u32, author: u64, worth: u32, credited: bool)

  predicate AsksInsane(g: Game, ev: Event) {
    && ev.Tick? && g.phase == AskQuestion && !g.terminating && g.round < g.cfg.numQuestions
    && IsInsaneRound(g, ev.env.disableInsane)
    && FetchInsane(ev.env.attempts, 0).Some? && !ev.env.stop
  }

  predicate AsksNormal(g: Game, ev: Event) {
    && ev.Tick? && g.phase == AskQuestion && !g.terminating && g.round < g.cfg.numQuestions
    && !IsInsaneRound(g, ev.env.disableInsane)
    && CacheAt(g).id != 0
  }

  function FactsOf(g: Game, ev: Event): seq<Fact> {
    if AsksInsane(g, ev) then [Asked(g.round, false)]
    else if AsksNormal(g, ev) then [Asked(g.round, true)]
    else if ev.Say? && NormalHit(g, ev.msg) then [Answered(g.round, ev.msg.author, g.score, ev.msg.canScore)]
    else []
  }

  function Trace(g: Game, es: seq<Event>): seq<Fact>
    decreases |es|
  {
    if es == [] then [] else FactsOf(g, es[0]) + Trace(Step(g, es[0]), es[1..])
  }

  // ----- order of questions and answers -------------------------------------------------------

  /** No question below this round will be asked any more. */
  function AskFloor(g: Game): nat {
    match g.phase
    case AskQuestion => g.round
    case End => TWO32
    case _ => g.round + 1
  }

  /** No answer below this round will be accepted any more. */
  function AnswerFloor(g: Game): nat {
    if Open(g) then g.round else AskFloor(g)
  }

  lemma TickFloors(g: Game, e: TickEnv)
    requires Inv(g)
    ensures var h := TickGame(g, e);
      && AskFloor(g) <= AskFloor(h) && AnswerFloor(g) <= AnswerFloor(h)
      && (AsksInsane(g, Tick(e)) || AsksNormal(g, Tick(e)) ==> g.round < AskFloor(h))
      && (Open(h) ==> (Open(g) && g.round == h.round) || (AsksNormal(g, Tick(e)) && g.round == h.round))
  {
    if g.phase != End && !g.terminating {
      match g.phase
      case AskQuestion => AskFloors(g, e);
      case FirstHint => assert TickGame(g, e) == DoFirstHint(g, e);
      case SecondHint => assert TickGame(g, e) == DoSecondHint(g, e);
      case TimeUp => assert TickGame(g, e) == DoTimeUp(g, e);
      case AnswerCorrect => assert TickGame(g, e) == DoAnswerCorrect(g, e);
    }
  }

  lemma AskFloors(g: Game, e: TickEnv)
    requires Inv(g) && g.phase == AskQuestion && !g.terminating
    ensures var h := TickGame(g, e);
      && g.round <= AskFloor(h) && g.round <= AnswerFloor(h)
      && (AsksInsane(g, Tick(e)) || AsksNormal(g, Tick(e)) ==> g.round < AskFloor(h))
      && (Open(h) ==> AsksNormal(g, Tick(e)) && g.round == h.round)
  {
    if IsInsaneRound(g, e.disableInsane) {
      assert TickGame(g, e) == DoInsaneRound(g, e);
    } else {
      assert TickGame(g, e) == DoNormalRound(g, e);
    }
  }

  lemma MessageFloors(g: Game, m: Message)
    requires Inv(g)
    ensures var h := HandleMessage(g, m);
      && AskFloor(g) <= AskFloor(h) && AnswerFloor(g) <= AnswerFloor(h)
      && (NormalHit(g, m) ==> Open(g) && g.round < AnswerFloor(h))
      && (Open(h) ==> Open(g) && g.round == h.round)
  {
    if InsaneHit(g, m) {
      TakeInsaneEffect(g, m);
      assert TakeInsane(g, m).answer == g.answer;
    } else if NormalHit(g, m) {
      assert HandleMessage(g, m) == TakeNormal(g, m);
    }
  }

  lemma StepFloors(g: Game, ev: Event)
    requires Inv(g)
    ensures var h := Step(g, ev);
      && AskFloor(g) <= AskFloor(h) && AnswerFloor(g) <= AnswerFloor(h)
      && (forall f :: f in FactsOf(g, ev) && f.Asked? ==>
            f.round == g.round && AskFloor(g) <= g.round < AskFloor(h) && g.round < g.cfg.numQuestions)
      && (forall f :: f in FactsOf(g, ev) && f.Answered? ==>
            f.round == g.round && Open(g) && AnswerFloor(g) <= g.round < AnswerFloor(h))
      && (Open(h) ==> (Open(g) && g.round == h.round) || Asked(h.round, true) in FactsOf(g, ev))
  {
    match ev
    case Tick(e) => TickFloors(g, e);
    case Say(m) => MessageFloors(g, m);
    case Kill =>
  }

  lemma {:induction false} TraceFloors(g: Game, es: seq<Event>)
    requires Inv(g)
    ensures forall f :: f in Trace(g, es) && f.Asked? ==> AskFloor(g) <= f.round < g.cfg.numQuestions
    ensures forall f :: f in Trace(g, es) && f.Answered? ==> AnswerFloor(g) <= f.round
    decreases |es|
  {
    if es != [] {
      StepFloors(g, es[0]);
      StepKeepsInv(g, es[0]);
      StepSameGame(g, es[0]);
      TraceFloors(Step(g, es[0]), es[1..]);
    }
  }

  /** The facts of one kind come in strictly increasing rounds. */
  predicate Rising(t: seq<Fact>) {
    && (forall i, j :: 0 <= i < j < |t| && t[i].Asked? && t[j].Asked? ==> t[i].round < t[j].round)
    && (forall i, j :: 0 <= i < j < |t| && t[i].Answered? && t[j].Answered? ==> t[i].round < t[j].round)
  }

  lemma RisingInFront(fs: seq<Fact>, rest: seq<Fact>)
    requires |fs| <= 1 && Rising(rest)
    requires forall f, r :: f in fs && r in rest && f.Asked? == r.Asked? ==> f.round < r.round
    ensures Rising(fs + rest)
  {
    var t := fs + rest;
    forall i, j | 0 <= i < j < |t| && t[i].Asked? == t[j].Asked? ensures t[i].round < t[j].round {
      assert t[j] == rest[j - |fs|];
      if i < |fs| {
        assert t[i] in fs && rest[j - |fs|] in rest;
      }
    }
  }

  /** Questions are asked in strictly increasing rounds, and each is answered at most once. */
  lemma {:induction false} RoundsRise(g: Game, es: seq<Event>)
    requires Inv(g)
    ensures Rising(Trace(g, es))
    decreases |es|
  {
    if es != [] {
      var h := Step(g, es[0]);
      var fs := FactsOf(g, es[0]);
      StepFloors(g, es[0]);
      StepKeepsInv(g, es[0]);
      RoundsRise(h, es[1..]);
      TraceFloors(h, es[1..]);
      RisingInFront(fs, Trace(h, es[1..]));
    }
  }

  /** Fact number `j` answers a question asked earlier in the trace. */
  ghost predicate WasAsked(t: seq<Fact>, j: nat)
    requires j < |t|
  {
    exists i :: 0 <= i < j && t[i] == Asked(t[j].round, true)
  }

  lemma AskedBefore(fs: seq<Fact>, rest: seq<Fact>, j: nat)
    requires |fs| <= j < |fs| + |rest|
    ensures WasAsked(rest, j - |fs|) ==> WasAsked(fs + rest, j)
  {
    if WasAsked(rest, j - |fs|) {
      var i :| 0 <= i < j - |fs| && rest[i] == Asked(rest[j - |fs|].round, true);
      assert (fs + rest)[|fs| + i] == Asked((fs + rest)[j].round, true);
    }
  }

  lemma AskedHere(fs: seq<Fact>, rest: seq<Fact>, j: nat)
    requires |fs| <= j < |fs| + |rest|
    ensures Asked(rest[j - |fs|].round, true) in fs ==> WasAsked(fs + rest, j)
  {
    if Asked(rest[j - |fs|].round, true) in fs {
      var i :| 0 <= i < |fs| && fs[i] == Asked(rest[j - |fs|].round, true);
      assert (fs + rest)[i] == Asked((fs + rest)[j].round, true);
    }
  }

  /** What a trace says of an answer, seen from one event before: `open` and `round` belong to the
      state there, `open'` and `round'` to the next one. */
  lemma CarryBack(fs: seq<Fact>, rest: seq<Fact>, j: nat, open: bool, round: u32, open': bool, round': u32)
    requires |fs| <= j < |fs| + |rest|
    requires WasAsked(rest, j - |fs|) || (open' && rest[j - |fs|].round == round')
    requires open' ==> (open && round == round') || Asked(round', true) in fs
    ensures WasAsked(fs + rest, j) || (open && (fs + rest)[j].round == round)
  {
    AskedBefore(fs, rest, j);
    AskedHere(fs, rest, j);
  }

  lemma OpenCarries(g: Game, ev: Event)
    requires Inv(g)
    ensures var h := Step(g, ev);
      Open(h) ==> (Open(g) && g.round == h.round) || Asked(h.round, true) in FactsOf(g, ev)
    ensures forall f :: f in FactsOf(g, ev) && f.Answered? ==> f.round == g.round && Open(g)
  {
    StepFloors(g, ev);
  }

  /** Fact number `j` has its question earlier in the trace, or that was open before. */
  ghost predicate HasQuestion(t: seq<Fact>, j: nat, open: bool, round: u32)
    requires j < |t|
  {
    WasAsked(t, j) || (open && t[j].round == round)
  }

  lemma FirstFact(g: Game, ev: Event, rest: seq<Fact>, j: nat)
    requires Inv(g) && j < |FactsOf(g, ev)| && FactsOf(g, ev)[j].Answered?
    ensures HasQuestion(FactsOf(g, ev) + rest, j, Open(g), g.round)
  {
    OpenCarries(g, ev);
    assert FactsOf(g, ev)[j] in FactsOf(g, ev);
  }

  lemma LaterFact(g: Game, ev: Event, h: Game, rest: seq<Fact>, j: nat)
    requires Inv(g) && h == Step(g, ev) && |FactsOf(g, ev)| <= j < |FactsOf(g, ev)| + |rest|
    requires HasQuestion(rest, j - |FactsOf(g, ev)|, Open(h), h.round)
    ensures HasQuestion(FactsOf(g, ev) + rest, j, Open(g), g.round)
  {
    OpenCarries(g, ev);
    CarryBack(FactsOf(g, ev), rest, j, Open(g), g.round, Open(h), h.round);
  }

  lemma {:induction false} AnswersFollow(g: Game, es: seq<Event>, j: nat)
    requires Inv(g) && j < |Trace(g, es)| && Trace(g, es)[j].Answered?
    ensures HasQuestion(Trace(g, es), j, Open(g), g.round)
    decreases |es|, 1
  {
    assert Trace(g, es) == FactsOf(g, es[0]) + Trace(Step(g, es[0]), es[1..]);
    AnswersFollowEvent(g, es[0], Step(g, es[0]), es[1..], j);
  }

  lemma {:induction false} AnswersFollowEvent(g: Game, ev: Event, h: Game, later: seq<Event>, j: nat)
    requires Inv(g) && h == Step(g, ev)
    requires var t := FactsOf(g, ev) + Trace(h, later); j < |t| && t[j].Answered?
    ensures HasQuestion(FactsOf(g, ev) + Trace(h, later), j, Open(g), g.round)
    decreases |later|, 2
  {
    var fs := FactsOf(g, ev);
    if j < |fs| {
      FirstFact(g, ev, Trace(h, later), j);
    } else {
      StepKeepsInv(g, ev);
      AnswersFollow(h, later, j - |fs|);
      LaterFact(g, ev, h, Trace(h, later), j);
    }
  }

  lemma AnswersFollowQuestions(g: Game, es: seq<Event>, j: nat)
    requires Inv(g)
    requires j < |Trace(g, es)| && Trace(g, es)[j].Answered?
    ensures WasAsked(Trace(g, es), j) || (Open(g) && Trace(g, es)[j].round == g.round)
  {
    AnswersFollow(g, es, j);
  }

  // ----- the open answer ------------------------------------------------------------------------

  /** The answer that is waited for is that of the round's question in the list, and that question is
      not malformed. */
  predicate RightAnswer(g: Game) {
    Open(g) ==>
      && 1 <= g.round <= |g.cfg.cache|
      && g.cfg.cache[g.round - 1].id != 0 && g.answer == g.cfg.cache[g.round - 1].answer
  }

  lemma TickKeepsAnswer(g: Game, e: TickEnv)
    requires Inv(g) && RightAnswer(g) && g.phase != End && !g.terminating
    ensures RightAnswer(TickGame(g, e))
  {
    match g.phase
    case AskQuestion =>
      AskFloors(g, e);
      if AsksNormal(g, Tick(e)) {
        AskedAnswer(g, e);
      }
    case FirstHint => assert TickGame(g, e) == DoFirstHint(g, e);
    case SecondHint => assert TickGame(g, e) == DoSecondHint(g, e);
    case TimeUp => assert TickGame(g, e) == DoTimeUp(g, e);
    case AnswerCorrect => assert TickGame(g, e) == DoAnswerCorrect(g, e);
  }

  lemma StepKeepsAnswer(g: Game, ev: Event)
    requires Inv(g) && RightAnswer(g)
    ensures RightAnswer(Step(g, ev))
  {
    StepSameGame(g, ev);
    match ev
    case Tick(e) =>
      if g.phase != End && !g.terminating {
        TickKeepsAnswer(g, e);
      }
    case Say(m) => MessageFloors(g, m); MessageKeepsAnswer(g, m);
    case Kill =>
  }

  lemma MessageKeepsAnswer(g: Game, m: Message)
    requires Inv(g)
    ensures var h := HandleMessage(g, m); Open(h) ==> h.answer == g.answer
  {
    if InsaneHit(g, m) {
      TakeInsaneEffect(g, m);
    } else if NormalHit(g, m) {
      TakeNormalEffect(g, m);
    }
  }

  lemma AskedAnswer(g: Game, e: TickEnv)
    requires Inv(g) && g.phase == AskQuestion && !g.terminating && AsksNormal(g, Tick(e))
    ensures RightAnswer(TickGame(g, e))
  {
    assert TickGame(g, e) == DoNormalRound(g, e);
  }

  /** In every reachable state the open answer is that of `cache[round - 1]`. */
  lemma {:induction false} OpenAnswerIsCached(g: Game, es: seq<Event>)
    requires Inv(g) && RightAnswer(g)
    ensures RightAnswer(Run(g, es))
    decreases |es|
  {
    if es != [] {
      StepKeepsAnswer(g, es[0]);
      StepKeepsInv(g, es[0]);
      OpenAnswerIsCached(Step(g, es[0]), es[1..]);
    }
  }

  // ----- points -------------------------------------------------------------------------------

  /** In every reachable state an answer is worth what the phase table says. */
  lemma AnswerIsWorth(g: Game, es: seq<Event>, m: Message)
    requires Inv(g) && NormalHit(Run(g, es), m)
    ensures var h := Run(g, es);
      InPlay(h.phase) && h.score == PhasePoints(h.phase, h.cfg.interval, h.cfg.hintless)
  {
    RunKeepsInv(g, es);
  }

  function MaxPoints(cfg: Config): nat {
    if cfg.hintless then 6 else if cfg.interval == TRIV_INTERVAL then 4 else 8
  }

  function Awarded(f: Fact): nat { if f.Answered? && f.credited then f.worth else 0 }

  function TotalAwarded(t: seq<Fact>): nat {
    if t == [] then 0 else Awarded(t[0]) + TotalAwarded(t[1..])
  }

  function RoundsLeft(g: Game): nat {
    if AnswerFloor(g) < g.cfg.numQuestions then g.cfg.numQuestions - AnswerFloor(g) else 0
  }

  lemma TotalInFront(fs: seq<Fact>, rest: seq<Fact>)
    requires |fs| <= 1
    ensures TotalAwarded(fs + rest) == TotalAwarded(fs) + TotalAwarded(rest)
  {
    if fs == [] {
      assert fs + rest == rest;
    } else {
      assert (fs + rest)[1..] == rest && fs[1..] == [];
    }
  }

  /** Points are paid for with a round. */
  lemma StepAwards(g: Game, ev: Event)
    requires Inv(g)
    ensures var h, paid := Step(g, ev), TotalAwarded(FactsOf(g, ev));
      && RoundsLeft(h) <= RoundsLeft(g)
      && (paid > 0 ==> paid <= MaxPoints(g.cfg) && RoundsLeft(h) < RoundsLeft(g))
  {
    StepFloors(g, ev);
    StepSameGame(g, ev);
    var fs := FactsOf(g, ev);
    if fs != [] {
      assert fs[0] in fs && fs[1..] == [];
    }
  }

  lemma PaidFor(max: nat, left: nat, paid: nat, left': nat, rest: nat)
    requires left' <= left && rest <= max * left'
    requires paid > 0 ==> paid <= max && left' < left
    ensures paid + rest <= max * left
  {
    var used := left - left';
    assert max * left == max * left' + max * used;
    assert used > 0 ==> max * used >= max;
  }

  lemma {:induction false} AwardsBounded(g: Game, es: seq<Event>)
    requires Inv(g)
    ensures TotalAwarded(Trace(g, es)) <= MaxPoints(g.cfg) * RoundsLeft(g)
    decreases |es|
  {
    if es != [] {
      var h, later := Step(g, es[0]), es[1..];
      var fs, rest := FactsOf(g, es[0]), Trace(h, later);
      StepAwards(g, es[0]);
      StepKeepsInv(g, es[0]);
      StepSameGame(g, es[0]);
      AwardsBounded(h, later);
      TotalInFront(fs, rest);
      PaidFor(MaxPoints(g.cfg), RoundsLeft(g), TotalAwarded(fs), RoundsLeft(h), TotalAwarded(rest));
    }
  }

  /** A game of N - 1 questions credits at most its best hint's points for each of them. */
  lemma GameAwardsBounded(cfg: Config, streak: Streak, scores: map<u64, u64>, es: seq<Event>)
    requires cfg.numQuestions >= 1
    ensures TotalAwarded(Trace(NewGame(cfg, streak, scores), es)) <= MaxPoints(cfg) * (cfg.numQuestions - 1)
                                                                 <= 8 * (cfg.numQuestions - 1)
  {
    var g, left := NewGame(cfg, streak, scores), cfg.numQuestions - 1;
    NewGameOk(cfg, streak, scores);
    AwardsBounded(g, es);
    assert RoundsLeft(g) == left;
    assert MaxPoints(cfg) * left <= 8 * left;
  }

  // ----- the score table ----------------------------------------------------------------------

  /** What an event credits to one player. */
  function CreditTo(g: Game, ev: Event, uid: u64): nat {
    if ev.Say? && ev.msg.author == uid && ev.msg.canScore then
      (if InsaneHit(g, ev.msg) then 1 else if NormalHit(g, ev.msg) then g.score else 0)
    else 0
  }

  function CreditSum(g: Game, es: seq<Event>, uid: u64): nat
    decreases |es|
  {
    if es == [] then 0 else CreditTo(g, es[0], uid) + CreditSum(Step(g, es[0]), es[1..], uid)
  }

  /** What a table says of a player; nothing is nought. */
  function Count(table: map<u64, nat>, uid: u64): nat { if uid in table then table[uid] else 0 }

  lemma CreditOne(g: Game, uid: u64, addition: u64, who: u64)
    ensures GetScore(AddScore(g, who, addition).scores, uid)
         == Wrap64(GetScore(g.scores, uid) + if who == uid then addition else 0)
  {
  }

  lemma StepScores(g: Game, ev: Event, uid: u64)
    ensures GetScore(Step(g, ev).scores, uid) == Wrap64(GetScore(g.scores, uid) + CreditTo(g, ev, uid))
  {
    match ev
    case Tick(e) => TickScores(g, e);
    case Say(m) =>
      CreditOne(g, uid, if InsaneHit(g, m) then 1 else g.score, m.author);
      MessageScores(g, m);
    case Kill =>
  }

  lemma MessageScores(g: Game, m: Message)
    ensures HandleMessage(g, m).scores
         == if !m.canScore then g.scores
            else if InsaneHit(g, m) then AddScore(g, m.author, 1).scores
            else if NormalHit(g, m) then AddScore(g, m.author, g.score).scores
            else g.scores
  {
    if InsaneHit(g, m) {
      assert HandleMessage(g, m) == TakeInsane(g, m);
    } else if NormalHit(g, m) {
      assert HandleMessage(g, m) == TakeNormal(g, m);
    }
  }

  lemma TickScores(g: Game, e: TickEnv)
    ensures TickGame(g, e).scores == g.scores
  {
  }

  lemma ScoresStep(g: Game, ev: Event, uid: u64, n: nat)
    requires GetScore(g.scores, uid) == Wrap64(n)
    ensures GetScore(Step(g, ev).scores, uid) == Wrap64(n + CreditTo(g, ev, uid))
  {
    StepScores(g, ev, uid);
    Wrap64Twice(n, CreditTo(g, ev, uid));
  }

  /** `n` is what the player's score would be without a limit, and `m` what it comes to. */
  lemma {:induction false} ScoresGrow(g: Game, es: seq<Event>, uid: u64, n: nat, m: nat)
    requires GetScore(g.scores, uid) == Wrap64(n) && m == n + CreditSum(g, es, uid)
    ensures GetScore(Run(g, es).scores, uid) == Wrap64(m)
    decreases |es|
  {
    if es != [] {
      ScoresStep(g, es[0], uid, n);
      ScoresGrow(Step(g, es[0]), es[1..], uid, n + CreditTo(g, es[0], uid), m);
    }
  }

  /** Every player's cached score is what it was plus all he was credited, and nobody else's points,
      modulo 2^64. */
  lemma ScoresAddUp(g: Game, es: seq<Event>, uid: u64)
    ensures Count(Run(g, es).scores, uid) == (Count(g.scores, uid) + CreditSum(g, es, uid)) % TWO64
  {
    var n := GetScore(g.scores, uid);
    ScoresGrow(g, es, uid, n, n + CreditSum(g, es, uid));
    Wrap64IsMod(n + CreditSum(g, es, uid));
  }
}
