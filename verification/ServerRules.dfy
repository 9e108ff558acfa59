/** What the other operations of the server do to the table of games and to the saved streaks, one
    channel at a time. */
module ServerRules {
  import opened Common
  import opened Engine
  import opened Server

  /** The same game, whatever it has saved last. */
  predicate SameGame(g: Game, h: Game) { g.(saved := None) == h.(saved := None) }

  /** The channel's game has become `h` through one event. What it has
      saved in that event is the channel's snapshot, and without that the snapshot stays. */
  predicate Became(s: Server, t: Server, c: u64, h: Game) {
    && c in s.games && c in t.games && t.games[c].guild == s.games[c].guild && SameGame(t.games[c].game, h)
    && SnapshotIs(s, t, c, h)
  }

  predicate SnapshotIs(s: Server, t: Server, c: u64, h: Game) {
    if h.saved.Some? then c in t.streaks && t.streaks[c] == h.saved.value else SameSnapshot(s, t, c)
  }

  predicate SameSnapshot(s: Server, t: Server, c: u64) {
    (c in t.streaks <==> c in s.streaks) && (c in s.streaks ==> t.streaks[c] == s.streaks[c])
  }

  predicate Untouched(s: Server, t: Server, c: u64) {
    && (c in t.games <==> c in s.games) && (c in s.games ==> t.games[c] == s.games[c])
    && SameSnapshot(s, t, c)
  }

  /** The game of a channel as an event finds it, with nothing saved yet. */
  function Current(s: Server, c: u64): Game
    requires c in s.games
  {
    s.games[c].game.(saved := None)
  }

  /** A sweep ticks the games that are due and leaves all others alone. It drops a due game exactly if
      that had ended or was marked for removal before. */
  lemma SweepRule(s: Server, due: map<u64, TickEnv>, c: u64)
    ensures var t := Serve(s, Sweep(due));
      && (c !in due || c !in s.games ==> Untouched(s, t, c))
      && (c in due && c in s.games ==>
            var g := Current(s, c);
            if g.phase == End || g.terminating then c !in t.games && SameSnapshot(s, t, c)
            else Became(s, t, c, TickGame(g, due[c])))
  {
    if c in due && c in s.games {
      var g := Current(s, c);
      assert Ticked(s, due)[c] == TickGame(g, due[c]);
      TickMarks(g, due[c]);
    }
  }

  /** A tick marks exactly the games that have ended, and these save nothing. */
  lemma TickMarks(g: Game, e: TickEnv)
    ensures TickGame(g, e).terminating <==> g.terminating || g.phase == End
    ensures g.terminating || g.phase == End ==> TickGame(g, e).saved == g.saved
  {
    if g.phase != End && !g.terminating {
      match g.phase
      case AskQuestion =>
        if IsInsaneRound(g, e.disableInsane) {
          assert TickGame(g, e) == DoInsaneRound(g, e);
        } else {
          assert TickGame(g, e) == DoNormalRound(g, e);
        }
      case FirstHint => assert TickGame(g, e) == DoFirstHint(g, e);
      case SecondHint => assert TickGame(g, e) == DoSecondHint(g, e);
      case TimeUp => assert TickGame(g, e) == DoTimeUp(g, e);
      case AnswerCorrect => assert TickGame(g, e) == DoAnswerCorrect(g, e);
    }
  }

  /** A message reaches the game of its channel and nothing else. */
  lemma ChatRule(s: Server, d: u64, m: Message, c: u64)
    ensures var t := Serve(s, Chat(d, m));
      if c == d && c in s.games then Became(s, t, c, HandleMessage(Current(s, c), m)) else Untouched(s, t, c)
  {
  }

  /** The stop command marks the game of its channel, and does nothing else. */
  lemma StopRule(s: Server, d: u64, c: u64)
    ensures var t := Serve(s, Stop(d));
      if c == d && c in s.games then Became(s, t, c, Current(s, c).(terminating := true)) else Untouched(s, t, c)
  {
  }
}
