/** The queue of background queries and the thread that executes them (database.cpp). */
module BackgroundQueue {
  import opened Common

  /** Where the worker stands: about to look at the shared queue, moving queries into its copy with
      the lock held, at the head of its copy, or in the middle of a query it has not popped yet. */
  datatype Worker = Waiting | Moving | AtHead | Running

  datatype Queue<Q> = Queue(worker: Worker, shared: seq<Q>, copy: seq<Q>, executed: seq<Q>)

  datatype Event<Q> = Submit(query: Q) | Work

  /** What the worker does next, one move at a time. */
  function WorkerStep<Q>(s: Queue<Q>): Queue<Q> {
    match s.worker
    case Waiting => s.(worker := Moving)
    case Moving =>
      if s.shared != [] then s.(copy := s.copy + [s.shared[0]], shared := s.shared[1..])
      else if s.copy == [] then s.(worker := Waiting)
      else s.(worker := AtHead)
    case AtHead =>
      if s.copy == [] then s.(worker := Waiting)
      else s.(worker := Running, executed := s.executed + [s.copy[0]])
    case Running => if s.copy == [] then s else s.(worker := AtHead, copy := s.copy[1..])
  }

  /** A submission waits while the worker holds the lock. */
  predicate Enabled<Q>(s: Queue<Q>, ev: Event<Q>) {
    ev.Submit? ==> s.worker != Moving
  }

  function Step<Q>(s: Queue<Q>, ev: Event<Q>): Queue<Q> {
    match ev
    case Submit(q) => if Enabled(s, ev) then s.(shared := s.shared + [q]) else s
    case Work => WorkerStep(s)
  }

  function Run<Q>(s: Queue<Q>, es: seq<Event<Q>>): Queue<Q>
    decreases |es|
  {
    if es == [] then s else Run(Step(s, es[0]), es[1..])
  }

  /** The queries that got into the queue in a run, in the order of submission. */
  function Submitted<Q>(s: Queue<Q>, es: seq<Event<Q>>): seq<Q>
    decreases |es|
  {
    if es == [] then []
    else (if es[0].Submit? && Enabled(s, es[0]) then [es[0].query] else []) + Submitted(Step(s, es[0]), es[1..])
  }

  /** The worker's copy without a query that is already running. */
  function Pending<Q>(s: Queue<Q>): seq<Q> {
    (if s.worker == Running && s.copy != [] then s.copy[1..] else s.copy) + s.shared
  }

  predicate Ok<Q>(s: Queue<Q>) {
    && (s.worker == Waiting ==> s.copy == [])
    && (s.worker == Running ==> s.copy != [])
  }

  function Start<Q>(): Queue<Q> { Queue(Waiting, [], [], []) }

  lemma WorkerKeepsOrder<Q>(s: Queue<Q>)
    requires Ok(s)
    ensures var t := WorkerStep(s); Ok(t) && t.executed + Pending(t) == s.executed + Pending(s)
  {
    var t := WorkerStep(s);
    match s.worker
    case Waiting =>
    case Moving =>
      if s.shared != [] {
        ConcatAssoc(s.copy, [s.shared[0]], s.shared[1..]);
        assert s.shared == [s.shared[0]] + s.shared[1..];
      }
    case AtHead =>
      if s.copy != [] {
        assert Pending(s) == [s.copy[0]] + Pending(t);
        ConcatAssoc(s.executed, [s.copy[0]], Pending(t));
      }
    case Running =>
  }

  lemma StepKeepsOrder<Q>(s: Queue<Q>, ev: Event<Q>)
    requires Ok(s)
    ensures var t := Step(s, ev);
      Ok(t) && t.executed + Pending(t)
            == s.executed + Pending(s) + if ev.Submit? && Enabled(s, ev) then [ev.query] else []
  {
    if ev.Work? || !Enabled(s, ev) {
      WorkerKeepsOrder(s);
      assert s.executed + Pending(s) + [] == s.executed + Pending(s);
    } else {
      var t := Step(s, ev);
      assert Pending(t) == Pending(s) + [ev.query];
      ConcatAssoc(s.executed, Pending(s), [ev.query]);
    }
  }

  /** In every interleaving of submitters and worker the executed and the pending queries are the
      submitted ones, each once and in order. */
  lemma {:induction false} InOrder<Q>(s: Queue<Q>, es: seq<Event<Q>>)
    requires Ok(s)
    ensures Ok(Run(s, es))
    ensures Run(s, es).executed + Pending(Run(s, es)) == s.executed + Pending(s) + Submitted(s, es)
    decreases |es|
  {
    if es == [] {
      assert s.executed + Pending(s) + [] == s.executed + Pending(s);
    } else {
      var t := Step(s, es[0]);
      var here := if es[0].Submit? && Enabled(s, es[0]) then [es[0].query] else [];
      StepKeepsOrder(s, es[0]);
      InOrder(t, es[1..]);
      ConcatAssoc(s.executed + Pending(s), here, Submitted(t, es[1..]));
    }
  }

  lemma ExecutedIsPrefix<Q>(es: seq<Event<Q>>)
    ensures Run(Start(), es).executed <= Submitted(Start(), es)
  {
    InOrder(Start<Q>(), es);
    var t := Run(Start<Q>(), es);
    assert Start<Q>().executed + Pending(Start<Q>()) + Submitted(Start(), es) == Submitted(Start(), es);
    assert t.executed <= t.executed + Pending(t);
  }

  /** The queries of all submissions of a run. */
  function Queries<Q>(es: seq<Event<Q>>): seq<Q> {
    if es == [] then [] else (if es[0].Submit? then [es[0].query] else []) + Queries(es[1..])
  }

  /** No submission comes while the worker holds the lock. */
  predicate NoneWaits<Q>(s: Queue<Q>, es: seq<Event<Q>>)
    decreases |es|
  {
    es == [] || ((es[0].Submit? ==> s.worker != Moving) && NoneWaits(Step(s, es[0]), es[1..]))
  }

  /** Then all of them get in. */
  lemma {:induction false} AllGetIn<Q>(s: Queue<Q>, es: seq<Event<Q>>)
    requires NoneWaits(s, es)
    ensures Submitted(s, es) == Queries(es)
    decreases |es|
  {
    if es != [] {
      AllGetIn(Step(s, es[0]), es[1..]);
    }
  }

  /** One that comes while it does changes nothing yet. */
  lemma LockedOut<Q>(s: Queue<Q>, q: Q)
    ensures Step(s, Submit(q)) == s <==> s.worker == Moving
  {
    var longer := s.shared + [q];
    assert |longer| > |s.shared|;
  }

  // ----- nothing waits for ever ---------------------------------------------------------------

  function Moves<Q>(es: seq<Event<Q>>): nat {
    if es == [] then 0 else (if es[0].Work? then 1 else 0) + Moves(es[1..])
  }

  function Submissions<Q>(es: seq<Event<Q>>): nat {
    if es == [] then 0 else (if es[0].Submit? then 1 else 0) + Submissions(es[1..])
  }

  /** The moves the worker makes until `m` queries have been executed in all, if nobody submits. */
  function MovesUntil<Q>(s: Queue<Q>, m: nat): nat
    requires Ok(s)
  {
    var n, c := |s.shared|, |s.copy|;
    if m <= |s.executed| then 0
    else
      var p := m - |s.executed|;
      match s.worker
      case Waiting => n + 2 * p + 1
      case Moving => n + 2 * p
      case AtHead => if p <= c then 2 * p - 1 else n + 2 * p + 2
      case Running => if p < c then 2 * p else n + 2 * p + 3
  }

  /** A move of the worker brings that nearer, and a submission puts it off by one move at most. */
  lemma StepAdvances<Q>(s: Queue<Q>, ev: Event<Q>, m: nat)
    requires Ok(s) && m <= |s.executed| + |Pending(s)|
    ensures var t := Step(s, ev);
      && Ok(t)
      && (ev.Work? && MovesUntil(s, m) > 0 ==> MovesUntil(t, m) < MovesUntil(s, m))
      && (ev.Submit? ==> MovesUntil(t, m) <= MovesUntil(s, m) + 1)
  {
  }

  lemma {:induction false} ExecutedGrows<Q>(s: Queue<Q>, es: seq<Event<Q>>)
    ensures s.executed <= Run(s, es).executed
    decreases |es|
  {
    if es != [] {
      ExecutedGrows(Step(s, es[0]), es[1..]);
    }
  }

  lemma {:induction false} ExecutedInTime<Q>(s: Queue<Q>, es: seq<Event<Q>>, m: nat)
    requires Ok(s) && m <= |s.executed| + |Pending(s)|
    requires Moves(es) >= MovesUntil(s, m) + Submissions(es)
    ensures (s.executed + Pending(s))[..m] <= Run(s, es).executed
    decreases |es|
  {
    if m <= |s.executed| {
      assert (s.executed + Pending(s))[..m] == s.executed[..m];
      ExecutedGrows(s, es);
    } else {
      var t := Step(s, es[0]);
      StepKeepsOrder(s, es[0]);
      StepAdvances(s, es[0], m);
      assert (t.executed + Pending(t))[..m] == (s.executed + Pending(s))[..m];
      ExecutedInTime(t, es[1..], m);
    }
  }

  /** Whatever the submitters do, all that is pending is executed, in order, once the worker has made
      as many moves as it takes and one more for each submission. */
  lemma EverythingIsExecuted<Q>(s: Queue<Q>, es: seq<Event<Q>>)
    requires Ok(s) && Moves(es) >= MovesUntil(s, |s.executed| + |Pending(s)|) + Submissions(es)
    ensures s.executed + Pending(s) <= Run(s, es).executed
    ensures Submitted(s, es) == [] ==> Run(s, es).executed == s.executed + Pending(s)
  {
    var all, t := s.executed + Pending(s), Run(s, es);
    assert all[..|all|] == all;
    ExecutedInTime(s, es, |all|);
    InOrder(s, es);
    if Submitted(s, es) == [] {
      assert all + [] == all;
      assert |t.executed + Pending(t)| == |all|;
    }
  }

  // ----- the code -----------------------------------------------------------------------------

  class BackgroundQueries<Q> {
    var shared: seq<Q>
    var copy: seq<Q>
    var executed: seq<Q>
    var processed: nat

    constructor ()
      ensures shared == copy == executed == [] && processed == 0
    {
      shared, copy, executed, processed := [], [], [], 0;
    }

    method BackgroundQuery(q: Q)
      modifies `shared
      ensures shared == old(shared) + [q]
    {
      shared := shared + [q];
    }

    /** With the lock held: the shared queue moves into the worker's copy. */
    method MoveAll()
      modifies `shared, `copy
      ensures shared == [] && copy == old(copy) + old(shared)
    {
      while shared != []
        invariant copy + shared == old(copy) + old(shared)
        decreases |shared|
      {
        ghost var was := copy + shared;
        copy := copy + [shared[0]];
        shared := shared[1..];
        assert copy + shared == was;
      }
      assert copy + [] == copy;
    }

    /** Executes the copy from its head. */
    method ExecuteAll()
      modifies `copy, `executed, `processed
      ensures copy == [] && executed == old(executed) + old(copy) && processed == old(processed) + |old(copy)|
    {
      while copy != []
        invariant executed + copy == old(executed) + old(copy)
        invariant processed + |copy| == old(processed) + |old(copy)|
        decreases |copy|
      {
        ghost var was := executed + copy;
        processed := processed + 1;
        executed := executed + [copy[0]];
        copy := copy[1..];
        assert executed + copy == was;
      }
      assert executed + [] == executed;
    }

    /** One turn of the worker that nobody interrupts: what was waiting is executed behind all that
        was executed before. */
    method Turn()
      requires copy == []
      modifies this
      ensures shared == copy == [] && executed == old(executed) + old(shared)
      ensures processed == old(processed) + |old(shared)|
    {
      MoveAll();
      if copy == [] {
        assert old(executed) + [] == old(executed);
        return;
      }
      ExecuteAll();
    }
  }
}
