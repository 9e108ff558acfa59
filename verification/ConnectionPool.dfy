/** How a foreground query picks its database connection (database.cpp, query). */
module ConnectionPool {
  import opened Common

  // ----- the probes as a sequence -------------------------------------------------------------

  /** `curr_index` after `k` skips of a query that finds it at `start`, in a pool of `n`. */
  function IndexAfter(n: nat, start: nat, k: nat): (i: nat)
    requires n >= 1 && start <= n
    ensures i <= n && (k > 0 ==> i < n)
  {
    if k == 0 then if start >= n then 0 else start + 1
    else if IndexAfter(n, start, k - 1) + 1 >= n then 0
    else IndexAfter(n, start, k - 1) + 1
  }

  /** The connection that is looked at after `k` skips. */
  function ProbeAt(n: nat, start: nat, k: nat): (c: nat)
    requires n >= 1 && start <= n
    ensures c < n
  {
    if k > 0 then IndexAfter(n, start, k) else if start >= n then 0 else start
  }

  /** Connection `c` is the first probe that is free or, after all the tries, the next one. */
  predicate Picked(start: nat, busy: seq<bool>, c: nat, tries: nat)
    requires |busy| >= 1 && start <= |busy|
  {
    var n := |busy|;
    && tries <= n + 1 && c == ProbeAt(n, start, tries)
    && (forall k :: 0 <= k < tries ==> busy[ProbeAt(n, start, k)])
    && (tries <= n ==> !busy[c])
  }

  class ConnectionPool {
    const size: nat
    var currIndex: nat
    var processed: nat

    predicate Valid()
      reads this
    {
      size >= 1 && currIndex <= size
    }

    constructor (n: nat)
      requires n >= 1
      ensures Valid() && size == n && currIndex == 0 && processed == 0
    {
      size := n;
      currIndex, processed := 0, 0;
    }

    /** Picks a connection while the busy flags stand still. */
    method Pick(busy: seq<bool>) returns (c: nat, tries: nat)
      requires Valid() && |busy| == size
      modifies this
      ensures Valid() && processed == old(processed) + 1
      ensures Picked(old(currIndex), busy, c, tries)
      ensures currIndex == IndexAfter(size, old(currIndex), tries)
    {
      c, tries := 0, 0;
      if currIndex >= size {
        currIndex, c := 0, 0;
      } else {
        c := currIndex;
        currIndex := currIndex + 1;
      }
      while tries < size + 1 && busy[c]
        invariant Valid() && processed == old(processed) && tries <= size + 1
        invariant c == ProbeAt(size, old(currIndex), tries) && currIndex == IndexAfter(size, old(currIndex), tries)
        invariant forall k :: 0 <= k < tries ==> busy[ProbeAt(size, old(currIndex), k)]
        decreases size + 1 - tries
      {
        currIndex := currIndex + 1;
        c := currIndex;
        if currIndex >= size {
          currIndex := 0;
          c := 0;
        }
        tries := tries + 1;
      }
      processed := processed + 1;
    }
  }

  // ----- no connection is missed --------------------------------------------------------------

  /** From a place on, the index climbs by one as long as it stays in the pool. */
  lemma {:induction false} Climbs(n: nat, start: nat, k: nat, j: nat)
    requires n >= 1 && start <= n
    requires IndexAfter(n, start, k) + j < n
    ensures IndexAfter(n, start, k + j) == IndexAfter(n, start, k) + j
    decreases j
  {
    if j > 0 {
      Climbs(n, start, k, j - 1);
    }
  }

  /** The number of skips after which connection `d` is looked at. */
  function SkipsTo(n: nat, start: nat, d: nat): nat
    requires start <= n && d < n
  {
    if start == n then d
    else if start == n - 1 then d + 1
    else if d >= start + 2 then d - start - 1
    else n - start - 1 + d
  }

  /** Every connection is among the first n + 1 probes, although the first skip leaves one out. */
  lemma EveryConnectionIsProbed(n: nat, start: nat, d: nat)
    requires start <= n && d < n
    ensures SkipsTo(n, start, d) <= n && ProbeAt(n, start, SkipsTo(n, start, d)) == d
  {
    if start == n {
      Climbs(n, start, 0, d);
    } else if start == n - 1 {
      assert IndexAfter(n, start, 1) == 0;
      Climbs(n, start, 1, d);
    } else if d >= start + 2 {
      Climbs(n, start, 0, d - start - 1);
    } else {
      Climbs(n, start, 0, n - start - 2);
      assert IndexAfter(n, start, n - start - 1) == 0;
      Climbs(n, start, n - start - 1, d);
    }
  }

  /** The pick is free exactly when some connection is. */
  lemma FreeConnectionIsFound(start: nat, busy: seq<bool>, c: nat, tries: nat)
    requires |busy| >= 1 && start <= |busy| && Picked(start, busy, c, tries)
    ensures !busy[c] <==> exists d :: 0 <= d < |busy| && !busy[d]
  {
    if d :| 0 <= d < |busy| && !busy[d] {
      EveryConnectionIsProbed(|busy|, start, d);
      assert tries <= SkipsTo(|busy|, start, d);
    }
  }

  // ----- the first one available --------------------------------------------------------------

  /** All probes in closed form. */
  lemma ProbeIs(n: nat, start: nat, k: nat)
    requires n >= 1 && start <= n && k <= n
    ensures ProbeAt(n, start, k)
         == if start == n then if k < n then k else 0
            else if k == 0 then start
            else if start == n - 1 then k - 1
            else if start + 1 + k < n then start + 1 + k
            else k - (n - start - 1)
  {
    if start == n {
      Climbs(n, start, 0, if k < n then k else n - 1);
    } else if start == n - 1 {
      if k > 0 {
        assert IndexAfter(n, start, 1) == 0;
        Climbs(n, start, 1, k - 1);
      }
    } else if start + 1 + k < n {
      Climbs(n, start, 0, k);
    } else {
      Climbs(n, start, 0, n - start - 2);
      assert IndexAfter(n, start, n - start - 1) == 0;
      Climbs(n, start, n - start - 1, k - (n - start - 1));
    }
  }

  /** With all of them busy the query waits for the connection that comes after n + 1 skips: the second
      next one, going round, and after the end of the pool the first, or from beyond it the second. */
  lemma AllBusyPick(start: nat, busy: seq<bool>, c: nat, tries: nat)
    requires |busy| >= 1 && start <= |busy| && Picked(start, busy, c, tries)
    requires forall d :: 0 <= d < |busy| ==> busy[d]
    ensures tries == |busy| + 1
    ensures c == if start == |busy| then if |busy| > 1 then 1 else 0
                 else if start + 2 < |busy| then start + 2 else 0
  {
    var n := |busy|;
    ProbeIs(n, start, n);
    assert IndexAfter(n, start, n) == ProbeAt(n, start, n);
  }

  /** How far ahead of the first probe a connection is, going round the pool. */
  function Ahead(n: nat, start: nat, d: nat): nat
    requires start <= n && d < n
  {
    var first := if start == n then 0 else start;
    if d >= first then d - first else d + n - first
  }

  /** What the header file promises: the first free connection from the one whose turn it is. */
  predicate FirstAvailable(start: nat, busy: seq<bool>, c: nat)
    requires start <= |busy|
  {
    var n := |busy|;
    c < n && !busy[c] && forall d :: 0 <= d < n && !busy[d] ==> Ahead(n, start, c) <= Ahead(n, start, d)
  }

  /** Where the first free probe comes in the order of probes. */
  lemma PickedComesFirst(start: nat, busy: seq<bool>, c: nat, tries: nat)
    requires |busy| >= 1 && start <= |busy| && Picked(start, busy, c, tries) && !busy[c]
    ensures tries == 0 || tries == SkipsTo(|busy|, start, c)
    ensures forall d :: 0 <= d < |busy| && !busy[d] ==> tries <= SkipsTo(|busy|, start, d)
  {
    var n := |busy|;
    forall d | 0 <= d < n && !busy[d] ensures tries <= SkipsTo(n, start, d) {
      EveryConnectionIsProbed(n, start, d);
    }
    assert tries <= SkipsTo(n, start, c);
    EveryConnectionIsProbed(n, start, c);
    ProbeIs(n, start, tries);
  }

  predicate OthersBusy(busy: seq<bool>, c: nat) {
    forall d :: 0 <= d < |busy| && d != c ==> busy[d]
  }

  /** The connection behind the first one is looked at last of all, so it is picked only when every
      other one is busy. */
  lemma NextOnlyIfAllOthersBusy(start: nat, busy: seq<bool>, c: nat, tries: nat)
    requires |busy| >= 1 && start + 1 < |busy| && Picked(start, busy, c, tries) && !busy[c]
    ensures c == start + 1 <==> OthersBusy(busy, start + 1)
  {
    var n := |busy|;
    PickedComesFirst(start, busy, c, tries);
    if c == start + 1 {
      ProbeIs(n, start, 0);
      forall d | 0 <= d < n && d != start + 1 ensures busy[d] {
        assert SkipsTo(n, start, d) < SkipsTo(n, start, start + 1);
      }
    }
  }

  /** If any connection is free, the pick is the first one available except where the one whose turn
      it is is busy, the next is free, and so is a third: then the next is passed over. */
  lemma FirstAvailableIff(start: nat, busy: seq<bool>, c: nat, tries: nat)
    requires |busy| >= 1 && start <= |busy| && Picked(start, busy, c, tries)
    requires exists d :: 0 <= d < |busy| && !busy[d]
    ensures FirstAvailable(start, busy, c)
       <==> start + 1 >= |busy| || !busy[start] || busy[start + 1] || OthersBusy(busy, start + 1)
  {
    var n := |busy|;
    FreeConnectionIsFound(start, busy, c, tries);
    PickedComesFirst(start, busy, c, tries);
    ProbeIs(n, start, 0);
    ProbeIs(n, start, tries);
    if start + 1 < n && busy[start] && !busy[start + 1] && !OthersBusy(busy, start + 1) {
      NextOnlyIfAllOthersBusy(start, busy, c, tries);
      assert Ahead(n, start, start + 1) == 1;
    } else {
      forall d | 0 <= d < n && !busy[d] ensures Ahead(n, start, c) <= Ahead(n, start, d) {
        assert tries <= SkipsTo(n, start, d);
      }
    }
  }

  /** An instance: of two free connections behind a busy one the second is picked. */
  lemma NextIsPassedOver(c: nat, tries: nat)
    requires Picked(0, [true, false, false], c, tries)
    ensures c == 2 && !FirstAvailable(0, [true, false, false], c)
  {
    var busy := [true, false, false];
    assert !busy[1] && !busy[2];
    FirstAvailableIff(0, busy, c, tries);
    ProbeIs(3, 0, 0);
    ProbeIs(3, 0, 1);
  }

  // ----- the rotation -------------------------------------------------------------------------

  /** `curr_index` after `j` queries that found their first connection free. */
  function IdleIndex(n: nat, j: nat): (i: nat)
    requires n >= 1
    ensures i <= n
  {
    if j == 0 then 0 else IndexAfter(n, IdleIndex(n, j - 1), 0)
  }

  lemma {:induction false} IdleIndexIsCyclic(n: nat, j: nat)
    requires n >= 1
    ensures IdleIndex(n, j) == j % (n + 1)
  {
    if j > 0 {
      IdleIndexIsCyclic(n, j - 1);
      NextMod(j - 1, n + 1);
    }
  }

  lemma NextMod(j: nat, m: nat)
    requires m > 1
    ensures (j + 1) % m == if j % m == m - 1 then 0 else j % m + 1
  {
    var q := j / m;
    assert j == m * q + j % m;
    if j % m == m - 1 {
      assert j + 1 == m * (q + 1);
      Quotient(j + 1, m, q + 1, 0);
    } else {
      Quotient(j + 1, m, q, j % m + 1);
    }
  }

  /** With no connection busy, n + 1 queries in a row use connection 0 twice and the others once:
      after connection n - 1 the wrap hands out 0 without moving on. */
  lemma IdleRotation(n: nat, j: nat)
    requires n >= 1
    ensures ProbeAt(n, IdleIndex(n, j), 0) == var r := j % (n + 1); if r == n then 0 else r
  {
    IdleIndexIsCyclic(n, j);
  }
}
