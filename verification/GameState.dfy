/** The game object itself: its methods update the fields in place, as in state.cpp, and each is
    proved to compute the step function of `Engine` of the same name. */
module GameState {
  import opened Common
  import E = Engine

  class GameState {
    const cfg: E.Config
    var gamestate: E.Phase
    var terminating: bool
    var round: u32
    var score: u32
    var answer: string
    var streak: u32
    var lastToAnswer: u64
    var insane: set<string>
    var insaneLeft: u32
    var insaneNum: u32
    var insaneRoundStats: map<u64, u32>
    var scores: map<u64, u64>
    var saved: Option<E.Snapshot>

    function View(): E.Game
      reads this
    {
      E.Game(cfg, gamestate, terminating, round, score, answer, E.Streak(lastToAnswer, streak),
             E.InsaneState(insane, insaneLeft, insaneNum, insaneRoundStats), scores, saved)
    }

    constructor (cfg: E.Config, currStreak: u32, lastAnswered: u64, dayScores: map<u64, u64>)
      ensures View() == E.NewGame(cfg, E.Streak(lastAnswered, currStreak), dayScores)
    {
      this.cfg := cfg;
      terminating := false;
      round := 1;
      score := 0;
      gamestate := E.AskQuestion;
      streak := currStreak;
      insaneNum, insaneLeft := 0, 0;
      lastToAnswer := lastAnswered;
      insane := {};
      insaneRoundStats := map[];
      scores := dayScores;
      answer := "";
      saved := None;
    }

    method StopGame()
      modifies this
      ensures View() == E.StopGame(old(View()))
    {
      if gamestate != E.End {
        gamestate := E.End;
        terminating := false;
      }
    }

    method LogQuestionIndex(now: int, stop: bool) returns (shouldStop: bool)
      modifies `saved
      ensures saved == Some(E.Snapshot(E.Streak(lastToAnswer, streak), now))
      ensures shouldStop == stop
    {
      saved := Some(E.Snapshot(E.Streak(lastToAnswer, streak), now));
      shouldStop := stop;
    }

    /** The save and the stop check that end most handlers. */
    method Log(now: int, stop: bool)
      modifies this
      ensures View() == E.Logged(old(View()), now, stop)
    {
      var shouldStop := LogQuestionIndex(now, stop);
      if shouldStop {
        StopGame();
      }
    }

    method AddScore(uid: u64, addition: u64)
      modifies `scores
      ensures View() == E.AddScore(old(View()), uid, addition)
    {
      var oldScore := if uid in scores then scores[uid] else 0;
      scores := scores[uid := Add64(oldScore, addition)];
    }

    method AddInsaneStats(uid: u64)
      modifies `insaneRoundStats
      ensures View() == E.AddInsaneStats(old(View()), uid)
    {
      if uid in insaneRoundStats {
        insaneRoundStats := insaneRoundStats[uid := Inc32(insaneRoundStats[uid])];
      } else {
        insaneRoundStats := insaneRoundStats[uid := 1];
      }
    }

    predicate IsInsaneRound(disableInsane: bool)
      reads this
    {
      E.IsInsaneRound(View(), disableInsane)
    }

    /** Up to five fetches; `tries` is 5 or more exactly when none of them brought an answer list. */
    method FetchInsaneRound(attempts: seq<E.AnswerList>) returns (answers: E.AnswerList, tries: nat)
      ensures tries >= 5 <==> E.FetchInsane(attempts, 0).None?
      ensures tries < 5 ==> E.FetchInsane(attempts, 0) == Some(answers)
    {
      tries := 0;
      answers := [];
      while true
        invariant tries < 5 && E.FetchInsane(attempts, tries) == E.FetchInsane(attempts, 0)
        decreases 5 - tries
      {
        answers := E.Attempt(attempts, tries);
        if |answers| >= 2 {
          tries := 0;
          break;
        }
        tries := tries + 1;
        if tries >= 5 {
          break;
        }
      }
    }

    /** The answer set of the round: all entries but the first, which is the question. */
    method BuildAnswers(answers: E.AnswerList)
      requires |answers| >= 1
      modifies `insane
      ensures insane == E.AnswerKeys(answers)
      ensures forall k :: k in insane <==> exists n :: 1 <= n < |answers| && answers[n] == k
    {
      insane := {};
      for n := 1 to |answers|
        invariant insane == Elems(answers[1..n])
        invariant forall k :: k in insane <==> exists i :: 1 <= i < n && answers[i] == k
      {
        assert answers[1..n + 1] == answers[1..n] + [answers[n]];
        ElemsAppend(answers[1..n], answers[n]);
        insane := insane + {answers[n]};
      }
      assert answers[1..|answers|] == answers[1..];
    }

    method DoInsaneRound(e: E.TickEnv)
      modifies this
      ensures View() == E.DoInsaneRound(old(View()), e)
    {
      if round >= cfg.numQuestions {
        gamestate := E.End;
        score := 0;
        return;
      }
      var answers, tries := FetchInsaneRound(e.attempts);
      var shouldStop := LogQuestionIndex(e.now, e.stop);
      if shouldStop || tries >= 5 {
        StopGame();
        return;
      }
      OpenInsane(answers);
    }

    /** The answers of a fetched round, its counters and its phase. */
    method OpenInsane(answers: E.AnswerList)
      requires |answers| >= 1
      modifies this
      ensures var n := |E.AnswerKeys(answers)| % TWO32;
        View() == old(View()).(insane := E.InsaneState(E.AnswerKeys(answers), n, n, old(insaneRoundStats)),
                               phase := E.FirstHint)
    {
      BuildAnswers(answers);
      insaneLeft := |insane| % TWO32;
      insaneNum := |insane| % TWO32;
      gamestate := E.FirstHint;
    }

    /** `question_cache[round - 1]` must exist when a question is due. */
    method DoNormalRound(e: E.TickEnv)
      requires round < cfg.numQuestions ==> 1 <= round <= |cfg.cache|
      modifies this
      ensures View() == E.DoNormalRound(old(View()), e)
    {
      if round >= cfg.numQuestions {
        gamestate := E.End;
        score := 0;
        return;
      }
      var question := cfg.cache[round - 1];
      answer := question.answer;
      if question.id == 0 {
        gamestate := E.End;
        score := 0;
        answer := "";
        return;
      }
      score := if cfg.hintless then 6 else if cfg.interval == E.TRIV_INTERVAL then 4 else 8;
      if cfg.hintless {
        gamestate := E.TimeUp;
      } else {
        gamestate := E.FirstHint;
      }
      Log(e.now, e.stop);
    }

    method DoFirstHint(e: E.TickEnv)
      modifies this
      ensures View() == E.DoFirstHint(old(View()), e)
    {
      gamestate := E.SecondHint;
      score := if cfg.interval == E.TRIV_INTERVAL then 2 else 4;
      Log(e.now, e.stop);
    }

    method DoSecondHint(e: E.TickEnv)
      modifies this
      ensures View() == E.DoSecondHint(old(View()), e)
    {
      gamestate := E.TimeUp;
      score := if cfg.interval == E.TRIV_INTERVAL then 1 else 2;
      Log(e.now, e.stop);
    }

    method CloseQuestion(isInsane: bool)
      modifies this
      ensures View() == E.CloseQuestion(old(View()), isInsane)
    {
      if isInsane {
        insaneRoundStats := map[];
      }
      if answer != "" {
        answer := "";
        if !isInsane {
          lastToAnswer := 0;
          streak := 1;
        }
      }
    }

    method DoTimeUp(e: E.TickEnv)
      modifies this
      ensures View() == E.DoTimeUp(old(View()), e)
    {
      var isInsane := IsInsaneRound(e.disableInsane);
      CloseQuestion(isInsane);
      gamestate := if round > cfg.numQuestions then E.End else E.AskQuestion;
      round := Inc32(round);
      Log(e.now, e.stop);
    }

    method DoAnswerCorrect(e: E.TickEnv)
      modifies this
      ensures View() == E.DoAnswerCorrect(old(View()), e)
    {
      round := Inc32(round);
      answer := "";
      gamestate := E.AskQuestion;
      Log(e.now, e.stop);
    }

    method Tick(e: E.TickEnv)
      requires !E.CacheFault(View(), E.Tick(e))
      modifies this
      ensures View() == E.TickGame(old(View()), e)
    {
      match gamestate
      case AskQuestion =>
        if !terminating {
          var isInsane := IsInsaneRound(e.disableInsane);
          if isInsane {
            DoInsaneRound(e);
          } else {
            DoNormalRound(e);
          }
        }
      case FirstHint =>
        if !terminating {
          DoFirstHint(e);
        }
      case SecondHint =>
        if !terminating {
          DoSecondHint(e);
        }
      case TimeUp =>
        if !terminating {
          DoTimeUp(e);
        }
      case AnswerCorrect =>
        if !terminating {
          DoAnswerCorrect(e);
        }
      case End =>
        terminating := true;
    }

    /** The end of an insane round: the next question, or the end of the game. */
    method FinishInsane()
      modifies this
      ensures View() == E.FinishInsane(old(View()))
    {
      if round <= Sub32(cfg.numQuestions, 1) {
        round := Inc32(round);
        gamestate := E.AnswerCorrect;
      } else {
        gamestate := E.End;
      }
      insaneRoundStats := map[];
    }

    method TakeInsane(m: E.Message)
      requires E.InsaneHit(View(), m)
      modifies this
      ensures View() == E.TakeInsane(old(View()), m)
    {
      insane := insane - {m.key};
      insaneLeft := Sub32(insaneLeft, 1);
      var done := insaneLeft < 1;
      if m.canScore {
        AddScore(m.author, 1);
      }
      AddInsaneStats(m.author);
      if done {
        FinishInsane();
        Log(m.now, m.stop);
      }
    }

    method TakeNormal(m: E.Message)
      requires E.NormalHit(View(), m)
      modifies this
      ensures View() == E.TakeNormal(old(View()), m)
    {
      answer := "";
      gamestate := E.AnswerCorrect;
      if m.canScore {
        AddScore(m.author, score);
      }
      UpdateStreak(m.author);
      Log(m.now, m.stop);
    }

    /** Whose streak it is after an answer: the old holder's goes on, any other ends. */
    method UpdateStreak(author: u64)
      modifies `streak, `lastToAnswer
      ensures View() == old(View()).(streak := E.Streak(author,
                          if old(lastToAnswer) == author then Inc32(old(streak)) else 1))
    {
      if lastToAnswer == author {
        streak := Inc32(streak);
      } else if streak > 1 && lastToAnswer != 0 && lastToAnswer != author {
        streak := 1;
      } else {
        streak := 1;
      }
      lastToAnswer := author;
    }

    method HandleMessage(m: E.Message)
      modifies this
      ensures View() == E.HandleMessage(old(View()), m)
    {
      if terminating || m.banned {
        return;
      }
      if gamestate == E.AskQuestion || gamestate == E.FirstHint || gamestate == E.SecondHint || gamestate == E.TimeUp {
        var isInsane := IsInsaneRound(m.disableInsane);
        if isInsane {
          if m.key in insane {
            TakeInsane(m);
          }
        } else if answer != "" && m.accepted {
          TakeNormal(m);
        }
      }
    }
  }
}
