# TriviaBot: a verified model

TriviaBot runs quiz games in Discord channels. This project models the parts of it that carry
logic, in Dafny, and proves what they keep, over every input and every run.

**The game** (`Engine`, `GameState`, `GameInvariant`, `GameTermination`, `GameAwards`, `GameInsane`,
`GameEndings`, `Streaks`). A game is a state machine: a question is asked, two hints follow, then time
is up or somebody has answered. Timer ticks and chat messages drive it in any order. `Engine` gives the state
as a value and each handler as a function from state to state; the class `GameState.GameState` does
the same by updating its fields, as the source does, and every method is proved to compute the
function of its name. All counters have their machine width and wrap. Whatever comes from outside is
an input of the event that reads it: the guild setting for insane rounds (which may change between any
two events), the fetched insane answers, the dashboard's stop flag, the verdict of the scoring
lease and that of the answer matcher. A run is any sequence of ticks, messages and stop commands.

**The server** (`Server`, `TriviaServer`, `AdmissionControl`, `StartRules`, `ServerRules`,
`StreakCarry`, `ServerTermination`). The table of games with start commands, timer sweeps, messages and stops, each
one atomic step. The class
`TriviaServer.TriviaServer` walks over its maps in key order and erases and inserts as the source
does. On top of it: how many games a guild can have, streaks that are carried from game to game, and
that every game leaves the table.

**The scoring lease** (`ScoreLease`, with the games in `ServerScores`), **the connection pool**
(`ConnectionPool`) and **the background queue** (`BackgroundQueue`), the last one as a state machine
whose worker can be interrupted by submitters at every move.

**Answers and numbers** (`Levenstein`, `Roman`, `NumberHint`): the edit distance against edit scripts,
the Roman numeral against the subtractive reading rule, the greedy decomposition of a number into
named values.

**Codecs and text** (`Base64`, `UrlCodec`, `PathCheck`, `Strtoul`, `Chunked`, `ChunkedGrammar`,
`ChunkedHeaders`, `HttpStream`, `ReplaceString`): the
base64 encoder with its wrapping register against the groups of section 4 of RFC 4648,
percent-encoding (section 2.1 of RFC 3986), the check of request paths, chunked transfer coding
(section 4.1 of RFC 7230) over streams that take and give as little as they like, with a grammar of
what its reader accepts, and search and replace.

Some promises do not hold of the code. The code is kept as it is, and the exact condition is proved:

- `question_cache[round - 1]` stays in range in every run if and only if the list covers all rounds,
  or holds a malformed question that no run can pass over and that ends the game before
  (`GameTermination.CacheSafety`). The start command only asks for 50 entries, and accepts a game of
  60 questions with them that leaves its list in some run (`StartRules.ShortListIsAccepted`).
- A question that times out breaks a streak unless insane rounds have been switched on meanwhile
  (`Streaks.MissMovesStreak`, with a run in `Streaks.SwitchedOnTooLate`), and author 0 would be
  taken for the nobody that number 0 stands for (`Streaks.CorrectMovesStreak`, `Streaks.NobodyAnswers`).
  Over whole runs these are the only two ways to disagree with the history (`Streaks.RunAgreesIff`).
- A start from the dashboard is to replace the game of its channel, but a premium guild's own game is
  counted against it. `AdmissionControl.StartsIff` says exactly which starts succeed, and
  `AdmissionControl.ReplacementIsRefused` has an instance.
- What the chunked writer sends is readable if and only if its loop gets to a call of the provider
  that says `done` (`Chunked.ReadableIff`). The loop looks only at the last operation of each call, so
  it is an empty write at the end of a call that cuts the body short, and no error is reported
  (`Chunked.EmptyWriteStops`); one among other operations does no harm (`Chunked.EmptyWriteAmongOthers`).
- The chunked reader accepts well-formed bodies (chunks behind any lines that `strtoul` reads a size
  from, a last chunk, all line ends in place, no trailers), and also chunks followed by one more whose
  data has some other line behind it where its line end should be, and nothing else; no input is both
  (`ChunkedGrammar.AcceptsIff`, with an instance in `ChunkedGrammar.CutShortIsTaken`). Its headers are
  those of RFC 7230 and more (`ChunkedHeaders.HeaderIff`, `ChunkedHeaders.BeyondStandardIff`).
- `ReplaceString` leaves its loop if and only if there is something to search for
  (`ReplaceString.LoopLeavesIff`). Its comment and its header call it case sensitive. It is so in all
  texts if and only if the search text has no letters (`ReplaceString.CaseSensitiveIff`), and in one
  text, for all replacements, if and only if every match there is exact (`ReplaceString.ExactIff`);
  `ReplaceString.CaseIsIgnored` has an instance, and one in which the replacement hides it.
- The pool is documented to give the first available connection. If one is free it does so, going round
  from the one whose turn it is, if and only if that one is free, or the next is busy or the only free
  one, or there is no next before the end (`ConnectionPool.FirstAvailableIff`, with an instance in
  `ConnectionPool.NextIsPassedOver`). An idle pool hands out connection 0 twice in a row at each wrap
  (`ConnectionPool.IdleRotation`).
- A first hint leaves nothing over, for every number, if and only if the table names the number one
  (`NumberHint.NothingLeftIff`).

Three remarks on the game. Rounds do not advance by one: an insane round that is fully answered counts
twice, so what is proved is a strict increase. Answers of an insane round that has timed out stay in
the answer set and can still be found until the next insane round is fetched; the counters agree
there too. In Spanish games accents may be left out of an answer, but the edit distance counts each
as a change, so `mexico` is taken for `méxico` and `mexicos` is not (`Levenstein.AccentLeftOut`).

## Model

| member | source | states |
|---|---|---|
| GameInvariant.StepKeepsInv | modules/trivia/state.cpp:226-474 | every event keeps the invariant: rounds in range and never wrapping, answer counters agreeing, no open question while asking, the open question worth what its phase says, the saved streak current |
| GameInvariant.RunKeepsInv | modules/trivia/state.cpp:399-474 | the invariant holds after any run of ticks, messages and stops |
| GameInvariant.NewGameOk | modules/trivia/state.cpp:75-115 | a new game satisfies the invariant |
| GameInvariant.TakeInsaneEffect | modules/trivia/state.cpp:244-277 | a found insane answer takes one key and one from the counter without underflow; the round moves on, or the game ends, exactly with the last key, and the round number cannot overflow |
| GameInvariant.TakeNormalEffect | modules/trivia/state.cpp:303-393 | an accepted answer closes the question, leads to the next phase or, if the game is stopped, the end, and leaves round, points and insane board alone |
| GameInvariant.EndIsFinal | modules/trivia/trivia.cpp:521-528 | an ended game stays ended and is only ever marked for removal; one that is marked does not change any more, although stopping assigns `terminating = false` |
| GameInvariant.StepSameGame | modules/trivia/state.cpp:226-474 | no event changes the number of questions, the pace, the mode or the questions |
| GameTermination.TickLowersRank | modules/trivia/state.cpp:403-454 | every tick of a game that is not terminating lowers the bound on the ticks it has left |
| GameTermination.MessageKeepsRank | modules/trivia/state.cpp:226-397 | no message ever raises that bound |
| GameTermination.EveryGameEnds | modules/trivia/state.cpp:399-474 | from any state as many ticks as its bound set `terminating`, whatever messages, stops and setting changes come between |
| GameTermination.TicksInAll | modules/trivia/state.cpp:477-774 | the bound in figures: from asking round r of N, 4(N - r) + 2 ticks, and without hints two for each question but four for each tenth, which may be insane |
| GameTermination.BoundIsReached | modules/trivia/state.cpp:526-533 | the bound is exact with and without hints, if all questions can be asked: with one tick less and no answers the game is not terminating |
| GameTermination.LongCacheIsSafe | modules/trivia/state.cpp:530-537 | with N - 1 cached questions no run reads outside the cache |
| GameTermination.BlockedIsSafe | modules/trivia/state.cpp:526-537 | a malformed question that no run can pass over keeps every run inside the cache; only tenth rounds, and those behind them, can be passed over |
| GameTermination.CacheSafety | modules/trivia/cmd_start.cpp:222-234 | whenever a question is due: no run reads outside the cache if and only if it has N - 1 entries, no round is left, or such a question lies ahead |
| GameEndings.MessageCountsIff | modules/trivia/state.cpp:226-301 | a message changes the game if and only if its author is not banned, a question can be answered, and it holds an open answer |
| GameEndings.FetchesFiveTimes | modules/trivia/state.cpp:487-501 | a fetch gives up if and only if five attempts bring fewer than two entries, and else takes the first good one |
| GameEndings.TickEndsIff | modules/trivia/state.cpp:403-454 | a tick ends a running game if and only if it is stopped, out of rounds, or without a question |
| GameEndings.EndsWithNothing | modules/trivia/state.cpp:480-540 | a game that ends out of rounds or without a question has no points and no answer open |
| GameEndings.MessageEndsIff | modules/trivia/state.cpp:250-276 | a message ends a running game if and only if it counts, and it is the answer of a stopped game, or the last insane one of a game that is stopped or out of rounds |
| GameEndings.TickAdvances | modules/trivia/state.cpp:416-440 | otherwise a tick leads to the next phase and round, skipping the hints in hintless games; a normal round opens the answer of its entry in the list, hints keep it open and make it worth less, and time-up and correct answers close it |
| GameEndings.RunEndsIff | modules/trivia/state.cpp:226-454 | the conditions of one event, lifted to runs: the game has ended if and only if some event met them in the state it found |
| GameEndings.RunRemovesIff | modules/trivia/state.cpp:791-802 | likewise, the game is marked for removal if and only if it was killed, or ticked after its end |
| GameEndings.OnlyHeededMatter | modules/trivia/state.cpp:226-301 | over any run the messages that do not count can be left out without a change, and each of those that are left changes the game |
| GameAwards.RoundsRise | modules/trivia/state.cpp:477-537 | in every run the rounds of asked questions strictly increase, and so do those of accepted answers, so each question is answered at most once |
| GameAwards.AnswersFollowQuestions | modules/trivia/state.cpp:291-306 | each accepted answer belongs to a normal question asked earlier in the run, or open at its start |
| GameAwards.OpenAnswerIsCached | modules/trivia/state.cpp:526-560 | in every reachable state the open answer is that of `question_cache[round - 1]`, and that question is not malformed |
| GameAwards.AnswerIsWorth | modules/trivia/state.cpp:303-323 | in every reachable state an answer is worth 6 without hints, else 4, 2, 1 by phase, and 8, 4, 2 in quickfire |
| GameAwards.AwardsBounded | modules/trivia/state.cpp:640-646 | the points a run credits for normal questions are at most the best hint's points for each round left |
| GameAwards.GameAwardsBounded | modules/trivia/state.cpp:303-323 | a game of N - 1 questions credits at most 6, 4 or 8 (by mode) for each of them, so at most 8(N - 1) |
| GameAwards.ScoresAddUp | modules/trivia/state.cpp:117-136 | after any run each player's cached score is what it was plus all he was credited, modulo 2^64, and nothing of anybody else's |
| GameInsane.CountersAgree | modules/trivia/state.cpp:508-519 | in every reachable state `insane_left` is the size of the answer set and at most `insane_num` |
| GameInsane.BoardIsFetched | modules/trivia/state.cpp:487-519 | an insane round puts up the first good list of at most five fetches: exactly the entries behind the question are answers, and both counters show how many different ones there are |
| GameInsane.BoardIsClearedIff | modules/trivia/state.cpp:138-151 | the statistics are emptied exactly when the board is shown, at the time-up of an insane round or with its last answer |
| GameInsane.FindsDrainTheRound | modules/trivia/state.cpp:244-261 | between two fetches no key is found twice, the open keys are exactly those not found, and the counter has dropped by the number of finds |
| GameInsane.LastKeyEndsRound | modules/trivia/state.cpp:250-258 | a message in an insane round changes the phase if and only if it takes the only key left |
| GameInsane.StatsCountFinds | modules/trivia/state.cpp:138-151 | until the board is cleared each player's count grows by exactly the answers he found |
| GameState.GameState.constructor | modules/trivia/state.cpp:75-115 | a new object is the new game of the model |
| GameState.GameState.StopGame | modules/trivia/trivia.cpp:521-528 | stopping ends the game and assigns `terminating = false`, unless it has ended |
| GameState.GameState.LogQuestionIndex | modules/trivia/webrequest.cpp:632-665 | saves the current streak and its holder, changes nothing else and hands on the stop flag |
| GameState.GameState.AddScore | modules/trivia/state.cpp:132-136 | adds to one player's score, with 64-bit wrap-around |
| GameState.GameState.AddInsaneStats | modules/trivia/state.cpp:143-151 | adds one to one player's insane statistics |
| GameState.GameState.FetchInsaneRound | modules/trivia/state.cpp:487-501 | gives the first of at most five fetches with two entries or more, and says so when there is none |
| GameState.GameState.BuildAnswers | modules/trivia/state.cpp:508-516 | a text is in the answer set if and only if it is one of the entries behind the first |
| GameState.GameState.DoInsaneRound | modules/trivia/state.cpp:477-523 | the whole new state when an insane round is due |
| GameState.GameState.DoNormalRound | modules/trivia/state.cpp:526-651 | the whole new state when a normal question is due |
| GameState.GameState.DoFirstHint | modules/trivia/state.cpp:654-669 | the whole new state after the first hint |
| GameState.GameState.DoSecondHint | modules/trivia/state.cpp:694-709 | the whole new state after the second hint |
| GameState.GameState.CloseQuestion | modules/trivia/state.cpp:730-761 | clears the question; an insane round loses its statistics, an open normal one the streak |
| GameState.GameState.DoTimeUp | modules/trivia/state.cpp:722-774 | the whole new state when time is up |
| GameState.GameState.DoAnswerCorrect | modules/trivia/state.cpp:777-788 | the whole new state after a question that was answered |
| GameState.GameState.Tick | modules/trivia/state.cpp:403-454 | a tick computes the step function of the model, unless it reads outside the question cache |
| GameState.GameState.TakeInsane | modules/trivia/state.cpp:244-277 | the whole new state after a found insane answer |
| GameState.GameState.TakeNormal | modules/trivia/state.cpp:303-393 | the whole new state after a correct answer |
| GameState.GameState.HandleMessage | modules/trivia/state.cpp:226-397 | a message computes the step function of the model |
| Streaks.RunOfIsMaximal | modules/trivia/state.cpp:334-362 | the trailing run of an author is the longest end of the history that is all his |
| Streaks.CorrectMovesStreak | modules/trivia/state.cpp:334-382 | an answer moves the streak as the history says if and only if its author is not 0 or the outcome before it was an answer |
| Streaks.MissMovesStreak | modules/trivia/state.cpp:748-760 | a timed-out question does so if and only if the round is not an insane one by then, or there was no streak |
| Streaks.SwitchedOnTooLate | modules/trivia/state.cpp:748-760 | a run of a new game with a full list in which the streak survives a missed question |
| Streaks.NobodyAnswers | modules/trivia/state.cpp:334-362 | a run of a new game in which author 0 is taken for the last to answer |
| Streaks.RunAgreesIff | modules/trivia/state.cpp:334-382 | over every run streak and holder agree with the history after each beginning if and only if no answer of author 0 comes when there is nobody to follow, and no open question times out in an insane round with a streak to lose |
| Streaks.RunTracks | modules/trivia/state.cpp:334-382 | with the setting fixed and non-zero authors, streak and holder are the trailing same-author run of the outcome history after every run |
| Streaks.OutcomesAreSaved | modules/trivia/webrequest.cpp:642-649 | every outcome is saved in the same step with the streak it leads to |
| Streaks.TickSaves | modules/trivia/webrequest.cpp:632-665 | every tick of a running game saves the streak it leads to and the time, but those that find it out of rounds or without a normal question |
| Streaks.MessageSaves | modules/trivia/webrequest.cpp:632-665 | the messages that save are the answers and those that take the last insane one |
| StreakCarry.StreaksCarryOver | modules/trivia/cmd_start.cpp:253-271 | in every run of the server all games and saved snapshots show the trailing run of their channel's history, carried over within 600 seconds and begun afresh after that |
| StartRules.StartedGame | modules/trivia/cmd_start.cpp:187-288 | what a successful start puts in its channel: the questions asked for or the guild's limit for that kind of game, pace, list and scores, and the streak of a snapshot if and only if that is less than 600 seconds old |
| StartRules.RefusedStart | modules/trivia/cmd_start.cpp:125-220 | a refused start changes no game and no streak, and only a dashboard start may have removed one game |
| StartRules.StartedCacheSafety | modules/trivia/cmd_start.cpp:231-234 | a started game never reads outside its cache if and only if its list is long enough or a malformed question ends it before; up to 50 questions it never does |
| StartRules.ShortListIsAccepted | modules/trivia/cmd_start.cpp:231-234 | an accepted start with 50 well-formed entries whose game reads outside its cache in some run |
| AdmissionControl.AdmittedHasRoom | modules/trivia/cmd_start.cpp:125-169 | after a successful admission check a free guild runs nothing elsewhere, and a premium guild has at most one game |
| AdmissionControl.StartsIff | modules/trivia/cmd_start.cpp:125-240 | exactly which commands start a game, in numbers of the guild's games: free guilds with no other running game or from the dashboard, premium guilds with one game at most, counted from the dashboard up to the game it stops; and the limits on channel, questions, list and cooldown |
| AdmissionControl.OtherChannels | modules/trivia/cmd_start.cpp:125-163 | in other channels a start removes exactly the first of the guild's other running games, exactly if it is permitted and comes from the dashboard, started or not; all else stays |
| AdmissionControl.ReplacementIsRefused | modules/trivia/cmd_start.cpp:147-184 | an instance: the dashboard's start in a channel with a game is refused although the guild would keep its limit |
| AdmissionControl.StartKeepsCompliance | modules/trivia/cmd_start.cpp:125-288 | a start command keeps the limits, replacing and erasing dashboard starts included |
| AdmissionControl.AdmissionHolds | modules/trivia/cmd_start.cpp:125-184 | over every run a free guild has at most one game that has not ended, and a premium guild at most two games |
| ServerTermination.GameLeaves | modules/trivia/trivia.cpp:481-514 | a game is out of the table after as many due sweeps as ticks it can take, whatever else happens but a successful start in its channel |
| ServerTermination.StartedGameLeaves | modules/trivia/cmd_start.cpp:187-220 | no started game outlives 802 due sweeps, refused starts in its channel included |
| TriviaServer.TriviaServer.AdmitFree | modules/trivia/cmd_start.cpp:125-146 | verdict and table of the admission walk without premium |
| TriviaServer.TriviaServer.AdmitPremium | modules/trivia/cmd_start.cpp:147-169 | verdict and table of the premium walk, which counts up to the game it erases |
| TriviaServer.TriviaServer.StartGame | modules/trivia/cmd_start.cpp:125-288 | the whole new table of games and of streaks after a start command |
| TriviaServer.TriviaServer.Tick | modules/trivia/trivia.cpp:481-508 | a sweep ticks exactly the due games and drops exactly those that are then terminating |
| TriviaServer.TriviaServer.Chat | modules/trivia/trivia.cpp:612-619 | a message reaches the game of its channel only |
| TriviaServer.TriviaServer.Stop | modules/trivia/cmd_stop.cpp:49-55 | the stop command marks the game of its channel as terminating |
| ServerRules.SweepRule | modules/trivia/trivia.cpp:481-508 | channel by channel: a due game is ticked, and dropped if and only if it had ended or was marked before; its snapshot is replaced by what it saves; all other games and snapshots stay |
| ServerRules.ChatRule | modules/trivia/trivia.cpp:612-619 | channel by channel: a message changes its own game and snapshot only |
| ServerRules.StopRule | modules/trivia/cmd_stop.cpp:49-55 | channel by channel: a stop marks its own game and does nothing else |
| ScoreLease.ScoreLocks.CanScoreOnGuild | modules/trivia/state.cpp:48-65 | the row after the upsert, whose second assignment sees the first, and the verdict |
| ScoreLease.TableIsLastGrant | modules/trivia/state.cpp:50-57 | the table remembers exactly each user's last granted call, so refused calls never extend a lease |
| ScoreLease.GrantedIff | modules/trivia/state.cpp:50-64 | a call is granted if and only if there is no lease, it is for the same guild, or it is sixty seconds old |
| ScoreLease.GrantsAreApart | modules/trivia/state.cpp:48-65 | two granted calls of a user for different guilds are at least sixty seconds apart |
| ServerScores.CreditedIsGranted | modules/trivia/state.cpp:263-323 | in every run of the server the credits are exactly the calls that the lock table grants |
| ServerScores.CreditsAreApart | modules/trivia/state.cpp:263-323 | in every run of the server two credits of a player in games of different guilds are at least sixty seconds apart |
| ServerScores.OnlyCreditsScore | modules/trivia/state.cpp:263-323 | a player's score in a running game changes only by a message of his own that is an answer and is credited |
| ConnectionPool.ConnectionPool.Pick | src/database.cpp:210-229 | the pick is the first free probe, or the last after n + 1 tries; indices stay in range |
| ConnectionPool.EveryConnectionIsProbed | src/database.cpp:218-225 | all connections are among the first n + 1 probes, and which skip reaches which |
| ConnectionPool.ProbeIs | src/database.cpp:213-225 | all probes in closed form |
| ConnectionPool.AllBusyPick | src/database.cpp:218-225 | with all connections busy the query waits, after n + 1 skips, for the one behind the next, or for connection 0 (or 1) past the end |
| ConnectionPool.FreeConnectionIsFound | src/database.cpp:210-229 | the picked connection is free if and only if some connection is |
| ConnectionPool.NextOnlyIfAllOthersBusy | src/database.cpp:213-225 | the connection behind the first is picked if and only if all others are busy |
| ConnectionPool.FirstAvailableIff | include/sporks/database.h:121-125 | if any is free, the pick is the first available one in ring order if and only if the first is free, the next is busy or the only free one, or the first is the last of the pool |
| ConnectionPool.NextIsPassedOver | include/sporks/database.h:121-125 | an instance in which the first available one is passed over |
| ConnectionPool.IdleRotation | src/database.cpp:213-217 | which connection an idle pool hands out: a period of n + 1, with connection 0 twice |
| BackgroundQueue.InOrder | src/database.cpp:126-148 | in every interleaving executed and pending queries are the submitted ones, each once and in order |
| BackgroundQueue.AllGetIn | src/database.cpp:199-202 | what is submitted while the worker does not hold the lock gets into the queue, all of it and in order |
| BackgroundQueue.LockedOut | src/database.cpp:126-135 | a submission waits if and only if the worker holds the lock |
| BackgroundQueue.ExecutedIsPrefix | include/sporks/database.h:128-140 | what has been executed is a beginning of what has been submitted |
| BackgroundQueue.EverythingIsExecuted | src/database.cpp:126-148 | in every interleaving all that is pending is executed, in order, once the worker has made a bounded number of moves and one more for each submission since; with none, nothing else is |
| BackgroundQueue.BackgroundQueries.MoveAll | src/database.cpp:128-135 | the shared queue ends up behind the worker's copy |
| BackgroundQueue.BackgroundQueries.ExecuteAll | src/database.cpp:140-146 | the copy is executed from its head and counted |
| BackgroundQueue.BackgroundQueries.Turn | src/database.cpp:127-147 | one turn executes what was waiting behind all that was executed before |
| BackgroundQueue.BackgroundQueries.BackgroundQuery | src/database.cpp:199-202 | a submission goes to the end of the queue |
| Levenstein.Levenstein | modules/trivia/levenstein.cpp:35-75 | the table's corner is the greedy recursion, which takes only the diagonal on equal symbols |
| Levenstein.DistanceIsMinimal | modules/trivia/levenstein.cpp:61-74 | that value is the minimum cost over all scripts of insertions, removals and replacements |
| Levenstein.Symmetric | modules/trivia/levenstein.cpp:35-75 | the distance is symmetric |
| Levenstein.Triangle | modules/trivia/levenstein.cpp:35-75 | the distance obeys the triangle inequality |
| Levenstein.ZeroMeansEqual | modules/trivia/levenstein.cpp:35-75 | the distance is zero if and only if the texts are equal |
| Levenstein.LengthBound | modules/trivia/levenstein.cpp:46-46 | the distance lies between the difference and the maximum of the lengths, so it fits the table's type |
| Levenstein.NearIff | modules/trivia/state.cpp:298-301 | a distance below two means equal, one symbol changed, or one added on either side, and nothing else does |
| Levenstein.NearAndNotShorter | modules/trivia/state.cpp:300-300 | a near message that is not shorter is the answer with at most one symbol changed or added |
| Levenstein.AcceptedIff | modules/trivia/state.cpp:291-301 | exactly which messages answer a question: in Spanish games but for accents, and misspellings by one symbol, accents included, only of long answers that are no numbers |
| Levenstein.FoldedEqual | modules/trivia/wlower.cpp:36-58 | the direct comparison takes texts for equal if and only if they are, or in Spanish games differ in nothing but a and á, e and é, o and ó, u, ú and ü |
| Levenstein.AccentAndAddition | modules/trivia/levenstein.cpp:35-41 | a message that leaves out an accent and adds a symbol is refused |
| Levenstein.AccentLeftOut | modules/trivia/state.cpp:298-300 | an instance: one accent left out is accepted, with a symbol added it is not |
| Roman.DecToRoman | modules/trivia/numerics.cpp:36-46 | the two loops compute the token-by-token numeral |
| Roman.NumeralIsStandard | modules/trivia/numerics.cpp:38-46 | for every number: n / 1000 times M, then the standard spellings of the hundreds, tens and units |
| Roman.NumeralReadsBack | modules/trivia/numerics.cpp:36-46 | the numeral of every number reads back as that number by the subtractive rule |
| Roman.NumeralsDiffer | modules/trivia/numerics.cpp:36-46 | distinct numbers have distinct numerals |
| Roman.OnlyThousandsRepeat | modules/trivia/numerics.cpp:38-39 | only M stands more than three times in a row |
| NumberHint.GetNearestNumberVal | modules/trivia/numerics.cpp:182-191 | the largest key that does not exceed the number, or 0 if there is none |
| NumberHint.FirstHintParts | modules/trivia/numerics.cpp:208-219 | each part is the largest key that fits into the remainder; parts and leftover add up to the number; nothing in the table fits the leftover |
| NumberHint.PartsNeverGrow | modules/trivia/numerics.cpp:214-217 | the parts never grow |
| NumberHint.PartsAreUnique | modules/trivia/numerics.cpp:214-217 | table and number determine the parts |
| NumberHint.NothingLeftIff | modules/trivia/numerics.cpp:218-223 | nothing is ever left over if and only if the table holds 1 |
| Base64.Base64Encode | modules/trivia/httplib.cpp:91-117 | the encoder computes the group-by-group encoding, for texts of any length |
| Base64.EncodeByte | modules/trivia/httplib.cpp:101-108 | after each byte the register holds the unwritten bits in its low `valb + 6`, whatever it has lost on top |
| Base64.PushByte | modules/trivia/httplib.cpp:102-102 | shifting a byte into the wrapping register keeps the bits that still matter |
| Base64.EncodedLength | modules/trivia/httplib.cpp:112-114 | four symbols for every three bytes begun |
| Base64.LookupIs | modules/trivia/httplib.cpp:92-93 | the alphabet of RFC 4648 in its order |
| Base64.RoundTrip | modules/trivia/httplib.cpp:91-117 | decoding the encoding gives the bytes back |
| Base64.EncodingsDiffer | modules/trivia/httplib.cpp:91-117 | encoding is injective |
| UrlCodec.FromHexToI | modules/trivia/httplib.cpp:30-45 | the value of the hex digits at a place, or failure if one is missing |
| UrlCodec.EncodeQueryParam | modules/trivia/httplib.cpp:166-185 | the encoder computes the byte-by-byte escape |
| UrlCodec.EncodeAppend | modules/trivia/httplib.cpp:166-185 | bytes are encoded one by one |
| UrlCodec.EncodeOne | modules/trivia/httplib.cpp:171-181 | letters, digits and nine marks stay, and every other byte becomes a percent sign and two upper-case digits |
| UrlCodec.DecodeUrl | modules/trivia/httplib.cpp:219-254 | the decoder computes the piece-by-piece decoding, with all its fall-backs |
| UrlCodec.DecodeEscape | modules/trivia/httplib.cpp:236-245 | a percent sign and two digits, in either case, are one byte |
| UrlCodec.DecodeUnicode | modules/trivia/httplib.cpp:225-232 | %u and four digits are the UTF-8 bytes of the code point |
| UrlCodec.DecodePlain | modules/trivia/httplib.cpp:232-250 | whatever else stands there is taken as it is, incomplete escapes included, and a plus sign as a space if that is asked for |
| UrlCodec.RoundTrip | modules/trivia/httplib.cpp:166-254 | decoding an encoded text gives it back for both values of the plus flag |
| UrlCodec.NoUnicodeEscape | modules/trivia/httplib.cpp:225-235 | the decoder never enters its %u branch on encoder output |
| UrlCodec.DecodeUnicodeEscape | modules/trivia/httplib.cpp:225-232 | a %u escape decodes to the UTF-8 bytes of its code point |
| UrlCodec.Utf8ReadsBack | modules/trivia/httplib.cpp:57-87 | these bytes read back as the code point, in the shortest form and with UTF-8's lead and continuation bytes; exactly the surrogates are dropped |
| PathCheck.IsValidPath | modules/trivia/httplib.cpp:129-164 | true if and only if following the components never leaves the root; `level` is the depth, and no component is empty |
| PathCheck.SplitIsComponents | modules/trivia/httplib.cpp:134-161 | however a path is split into stretches without slashes and runs of slashes, the components are the stretches, in order |
| PathCheck.VerdictOnSplit | modules/trivia/httplib.cpp:129-164 | every path can be so split, and for every splitting the verdict is true if and only if no beginning of it goes up more often than down |
| PathCheck.InsideIffNeverBelow | modules/trivia/httplib.cpp:148-155 | a walk stays inside if and only if no beginning of it goes up more often than down |
| PathCheck.PrefixStaysInside | modules/trivia/httplib.cpp:138-162 | every beginning of a walk that stays inside stays inside too |
| PathCheck.ComponentsAreClean | modules/trivia/httplib.cpp:139-146 | components are not empty and hold no slash |
| Strtoul.ReadsNumberIff | modules/trivia/httplib.cpp:1457-1460 | a text is read as a number if and only if it is white space, a sign, `0x` and digits, of which only the digits must be there, and as their value, wrapped if negative and at most the maximum |
| Strtoul.SameNumeral | modules/trivia/httplib.cpp:1457-1457 | it is so in one way only |
| Chunked.ReadHeader | modules/trivia/httplib.cpp:1457-1460 | the header line of a chunk reads back as the chunk's size |
| Chunked.RoundTrip | modules/trivia/httplib.cpp:1444-1482 | non-empty writes and `done`, however they are grouped into calls, arrive as one body, and nothing behind them is consumed |
| Chunked.ReadableIff | modules/trivia/httplib.cpp:1733-1742 | what a provider sends is readable if and only if the loop gets to a call with a `done`: no call before it is refused or ends with an empty write, and the server is not shutting down |
| Chunked.ExecutedUpTo | modules/trivia/httplib.cpp:1733-1746 | which calls are made, and the verdict: up to the first that is refused or whose last operation is no write of data |
| Chunked.ReadsUpToDone | modules/trivia/httplib.cpp:1675-1746 | then the reader delivers what was written before the first `done` and leaves all behind it |
| Chunked.EmptyWriteStops | modules/trivia/httplib.cpp:1675-1742 | an instance: an empty write in a call of its own ends the loop with success and without the last chunk |
| Chunked.EmptyWriteAmongOthers | modules/trivia/httplib.cpp:1675-1742 | an instance: an empty write that another operation of its call follows does no harm |
| ChunkedGrammar.AcceptsExactly | modules/trivia/httplib.cpp:1444-1482 | for every byte string the reader delivers a body with success, and leaves a rest, if and only if the grammar spells the string with this body and rest |
| ChunkedGrammar.OneSpelling | modules/trivia/httplib.cpp:1444-1482 | the grammar is unambiguous |
| ChunkedGrammar.AcceptsIff | modules/trivia/httplib.cpp:1468-1482 | the reader accepts exactly the well-formed bodies and those cut short by a wrong line end, and no input is both |
| ChunkedGrammar.WellFormedIff | modules/trivia/httplib.cpp:1675-1746 | what the writer's loop sends begins with a well-formed body if and only if it gets to a call with a `done` |
| ChunkedGrammar.BadLineEnd | modules/trivia/httplib.cpp:1465-1470 | with a wrong line end behind the data the reader succeeds if and only if anything stands there |
| ChunkedHeaders.HeaderIff | modules/trivia/httplib.cpp:1457-1463 | a line is a header if and only if it consists of such parts and the value is less than 2^64 - 1 |
| ChunkedHeaders.BeyondStandardIff | modules/trivia/httplib.cpp:1457-1463 | a header is one of RFC 7230 (digits, extensions behind a semicolon, CRLF) if and only if it has no white space, sign or `0x` before the digits and ends as such a header does |
| ChunkedHeaders.StandardIsRead | modules/trivia/httplib.cpp:1444-1482 | every body of RFC 7230 without trailers, leading zeros and extensions included, is well-formed and is read |
| ChunkedHeaders.SentIsStandard | modules/trivia/httplib.cpp:1675-1746 | what the writer's loop sends when it gets to a `done` is a body of RFC 7230, one chunk for each write that is not empty, with what is sent after that behind it |
| ChunkedHeaders.LenientHeaders | modules/trivia/httplib.cpp:1457-1463 | instances beyond RFC 7230: a space, a plus sign, `0x`, a bare line feed, in any combination |
| ChunkedGrammar.CutShortIsTaken | modules/trivia/httplib.cpp:1468-1470 | an instance: data longer than announced is accepted without a last chunk |
| HttpStream.StreamLineReader.Append | modules/trivia/httplib.cpp:365-376 | the two buffers together are one string that grows by the byte; the inner assertion holds |
| HttpStream.StreamLineReader.CString | modules/trivia/httplib.cpp:317-331 | C string functions see that string up to its first NUL |
| HttpStream.StreamLineReader.GetLine | modules/trivia/httplib.cpp:338-362 | reads exactly the first line, line feed included, or what there is; fails on an empty stream |
| HttpStream.ReadContentWithLength | modules/trivia/httplib.cpp:1392-1412 | hands on exactly what it takes from the stream, and no more than was asked for; it succeeds with all of it, and fails only if the stream ends or reports an error, or the receiver or the progress callback refuses |
| HttpStream.ReadContentChunked | modules/trivia/httplib.cpp:1444-1482 | verdict, body and consumed bytes depend on the data alone and are those of the specification; when the stream fails or the receiver refuses it cannot succeed wrongly, and what has been handed on is a beginning of the body |
| HttpStream.FromIToHex | modules/trivia/httplib.cpp:47-55 | the hexadecimal digits of a number |
| HttpStream.WriteData | modules/trivia/httplib.cpp:1582-1590 | all bytes go out, in order, under any short writes, or a beginning of them if the stream fails |
| HttpStream.ChunkedSink.Write | modules/trivia/httplib.cpp:1675-1699 | a write sends one chunk, or nothing if it is empty |
| HttpStream.ChunkedSink.Done | modules/trivia/httplib.cpp:1701-1729 | `done` sends the last chunk |
| HttpStream.Provide | modules/trivia/httplib.cpp:1734-1741 | one call of the provider: any writes and `done`s, the flag left by the last of them, and what the provider returns |
| HttpStream.WriteContentChunked | modules/trivia/httplib.cpp:1733-1746 | the loop sends what the specification says and gives its verdict, with providers that cancel, a server that shuts down and streams that fail |
| HttpStream.Transfer | modules/trivia/httplib.cpp:1444-1746 | a whole transfer between reliable streams delivers the joined writes, in any grouping into calls, and leaves what follows |
| ReplaceString.ReplaceString | src/stringops.cpp:29-44 | the loop computes the left-to-right replacement that never rescans what it inserted; the shadow stays the lowercase of the text |
| ReplaceString.ReplacedIsWoven | src/stringops.cpp:36-42 | text and result are the same stretches, woven with the matches and with copies of the replacement |
| ReplaceString.MatchesMatch | src/stringops.cpp:32-36 | every match is the search text but for case |
| ReplaceString.FirstMatchIff | src/stringops.cpp:32-36 | each match is the leftmost place where the search text stands in any case, and there is none exactly when it stands nowhere |
| ReplaceString.StretchesHoldNoMatch | src/stringops.cpp:36-36 | no stretch holds a match |
| ReplaceString.LoopLeavesIff | src/stringops.cpp:36-42 | the loop leaves if and only if the search text is not empty |
| ReplaceString.ExactIff | src/stringops.cpp:26-36 | in a text the result is that of an exact search, for all replacements, if and only if every match is the search text itself |
| ReplaceString.CaseSensitiveIff | src/stringops.cpp:26-36 | the search is case sensitive in all texts if and only if the search text has no letters |
| ReplaceString.CaseIsIgnored | src/stringops.cpp:26-36 | an instance in which case is ignored, and one in which the replacement hides it |

## Left out

- Discord and D++ calls, embeds, webhooks, logging, language strings, caching of users, coins, teams and achievements: output only.
- MySQL itself: query results are inputs of the events that read them; the scoring upsert is one atomic update.
- Preparing a question: trimming and number conversion of the answer and the two hint texts happen before the answer enters the model; the question's own id matters only when it is 0.
- The lazy building of the question cache: the model's cache is the list as fetched, one entry for each entry of the shuffle list.
- Regular expressions, locale, UTF-8 conversion and removal of punctuation: the game takes the matcher's verdict as an input, and `Levenstein` works on lowercased code points, with byte lengths beside them.
- `next_tick` and the clock of the sweep: any set of games may be due; exceptions inside a tick and resuming games after a restart are not part of the model.
- States mutex: each command, message, stop and sweep is one atomic step, although the start command releases the lock between its check and its insertion.
- The checks on author, moderator, whitelist and banned channels before a start: one input.
- `GameState` objects inside the table: the server keeps games as values, so sharing of game objects is not captured.
- GameState.GameState.DoNormalRound: requires the question cache to cover the round, because the code's read outside it is undefined; `GameTermination.CacheSafety` says when it is covered.
- GameState.GameState.Tick: excludes just the ticks that read outside the cache.
- ReplaceString.ReplaceString: requires a search text, because the code does not stop without one; `ReplaceString.LoopLeavesIff` covers both cases.
- Chunked.RoundTrip: excludes a single write of 2^64 - 1 bytes, whose size the reader takes for an error; so do `Chunked.ReadableIff` and `Chunked.ReadsUpToDone`.
- HttpStream.WriteContentChunked: takes the calls that the loop gets to make as a list, behind which the server is shutting down; a provider that goes on for ever is not part of the model.
- HttpStream.ReadContentChunked: when the stream reports an error or the receiver refuses data the verdict may be failure where the specification has success; decompression is left out.
- HttpStream.StreamLineReader.Append: the fixed buffer has two bytes at least; a smaller one would read a byte that was never set.
- A write that reports zero bytes: streams take at least one byte of each write, or the writer's loop would not end.
- Insane answer lists of more than 2^32 entries: their size would not fit the counters.
- Code points above 0xFFFF: four hex digits do not reach them.
- The multipart parser, header and range parsing, sockets and TLS, and the English number reader `conv_num`: foreign or not part of this model.
- The text of a first hint: only the numbers it names are modelled.
