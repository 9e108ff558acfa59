/** The scoring lock of a player: one guild at a time, for sixty seconds (state.cpp,
    can_score_on_guild). */
module ScoreLease {
  import opened Common

  const LEASE := 60

  datatype Lock = Lock(guild: u64, updated: int)

  type Locks = map<u64, Lock>

  /** The row after the upsert. Assignments are made from left to right, so the second condition
      sees the guild that the first has left. */
  function Upsert(locks: Locks, user: u64, guild: u64, now: int): Locks {
    if user !in locks then locks[user := Lock(guild, now)]
    else
      var row := locks[user];
      var newGuild := if row.guild == guild || row.updated <= now - LEASE then guild else row.guild;
      var newUpdated := if newGuild == guild || row.updated <= now - LEASE then now else row.updated;
      locks[user := Lock(newGuild, newUpdated)]
  }

  class ScoreLocks {
    var locks: Locks

    constructor ()
      ensures locks == map[]
    {
      locks := map[];
    }

    method CanScoreOnGuild(user: u64, guild: u64, now: int) returns (ok: bool)
      modifies this
      ensures locks == Upsert(old(locks), user, guild, now)
      ensures ok == Succeeds(old(locks), Call(user, guild, now))
    {
      if user in locks {
        var row := locks[user];
        if row.guild == guild || row.updated <= now - LEASE {
          row := row.(guild := guild);
        }
        if row.guild == guild || row.updated <= now - LEASE {
          row := row.(updated := now);
        }
        locks := locks[user := row];
      } else {
        locks := locks[user := Lock(guild, now)];
      }
      ok := user in locks && locks[user].guild == guild;
    }
  }

  datatype Call = Call(user: u64, guild: u64, now: int)

  /** The guild that the row names after the call is the caller's. */
  predicate Succeeds(locks: Locks, c: Call) {
    Upsert(locks, c.user, c.guild, c.now)[c.user].guild == c.guild
  }

  function After(locks: Locks, cs: seq<Call>): Locks {
    if cs == [] then locks
    else
      var c := cs[|cs| - 1];
      Upsert(After(locks, cs[..|cs| - 1]), c.user, c.guild, c.now)
  }

  /** Call number `i` of a run is granted. */
  predicate Granted(locks: Locks, cs: seq<Call>, i: nat)
    requires i < |cs|
  {
    Succeeds(After(locks, cs[..i]), cs[i])
  }

  predicate Ordered(cs: seq<Call>) {
    forall i, j :: 0 <= i < j < |cs| ==> cs[i].now <= cs[j].now
  }

  /** The last call that the user was granted before call number `n`. */
  function LastGrant(locks: Locks, cs: seq<Call>, n: nat, user: u64): (g: Option<nat>)
    requires n <= |cs|
    ensures g.Some? ==> g.value < n
  {
    if n == 0 then None
    else if cs[n - 1].user == user && Granted(locks, cs, n - 1) then Some(n - 1)
    else LastGrant(locks, cs, n - 1, user)
  }

  lemma {:induction false} LastGrantSpec(locks: Locks, cs: seq<Call>, n: nat, user: u64)
    requires n <= |cs|
    ensures var g := LastGrant(locks, cs, n, user);
      && (g.Some? ==> cs[g.value].user == user && Granted(locks, cs, g.value))
      && (forall k: nat :: k < n && (g.Some? ==> g.value < k) && cs[k].user == user ==> !Granted(locks, cs, k))
  {
    if n > 0 {
      LastGrantSpec(locks, cs, n - 1, user);
    }
  }

  /** The row of a user before call number `n`, as the calls granted to him have left it. */
  function Row(locks: Locks, cs: seq<Call>, n: nat, user: u64): Option<Lock>
    requires n <= |cs|
  {
    var g := LastGrant(locks, cs, n, user);
    if g.Some? then Some(Lock(cs[g.value].guild, cs[g.value].now))
    else if user in locks then Some(locks[user])
    else None
  }

  /** The table remembers exactly the last call each user was granted; refused calls leave no trace,
      so they never extend a lease. */
  lemma {:induction false} TableIsLastGrant(locks: Locks, cs: seq<Call>, n: nat, user: u64)
    requires n <= |cs|
    ensures var t, row := After(locks, cs[..n]), Row(locks, cs, n, user);
      (user in t <==> row.Some?) && (row.Some? ==> t[user] == row.value)
  {
    if n > 0 {
      assert cs[..n][..n - 1] == cs[..n - 1];
      TableIsLastGrant(locks, cs, n - 1, user);
    }
  }

  /** A call is granted exactly when the user has no lease, holds it for the same guild, or was last
      granted a call sixty seconds ago or more. */
  lemma GrantedIff(locks: Locks, cs: seq<Call>, n: nat)
    requires n < |cs|
    ensures var row := Row(locks, cs, n, cs[n].user);
      Granted(locks, cs, n) <==> row.None? || row.value.guild == cs[n].guild || cs[n].now - row.value.updated >= 60
  {
    TableIsLastGrant(locks, cs, n, cs[n].user);
  }

  /** Two calls that a user is granted for different guilds are at least sixty seconds apart. */
  lemma {:induction false} GrantsAreApart(locks: Locks, cs: seq<Call>, i: nat, j: nat)
    requires Ordered(cs) && i < j < |cs|
    requires cs[i].user == cs[j].user && cs[i].guild != cs[j].guild
    requires Granted(locks, cs, i) && Granted(locks, cs, j)
    ensures cs[j].now - cs[i].now >= 60
    decreases j
  {
    GrantedIff(locks, cs, j);
    LastGrantSpec(locks, cs, j, cs[j].user);
    var g := LastGrant(locks, cs, j, cs[j].user).value;
    if cs[g].guild == cs[j].guild {
      GrantsAreApart(locks, cs, i, g);
    }
  }
}
