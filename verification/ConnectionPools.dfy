/** The pool as the source keeps it: vectors and counters changed in place, one table of servers. */
module ConnectionPools {
  import opened Wrappers
  import opened PoolModel
  import opened PoolStatistics
  import Runs = PoolRuns

  type Url = Runs.Url

  class ServerPool {
    var available: seq<PooledConnection>
    var inUse: seq<PooledConnection>
    var totalCreated: nat
    var totalAcquired: nat
    var totalReleased: nat
    ghost var swept: nat
    ghost var dropped: nat
    ghost var closed: nat

    ghost function View(): Server
      reads this
    {
      Server(available, inUse, totalCreated, totalAcquired, totalReleased, swept, dropped, closed)
    }

    constructor ()
      ensures View() == EMPTY_SERVER
    {
      available, inUse := [], [];
      totalCreated, totalAcquired, totalReleased := 0, 0, 0;
      swept, dropped, closed := 0, 0, 0;
    }

    method GetAvailable() returns (conn: Option<PooledConnection>)
      modifies this`available
      ensures conn == (if old(available) == [] then None else Some(old(available)[|old(available)| - 1]))
      ensures available == if old(available) == [] then [] else old(available)[..|old(available)| - 1]
    {
      if available == [] {
        return None;
      }
      var n := |available| - 1;
      conn := Some(available[n]);
      available := available[..n];
    }

    method RemoveInUse(id: Id) returns (conn: Option<PooledConnection>)
      modifies this`inUse
      ensures
        match Position(old(inUse), id)
        case None => conn == None && inUse == old(inUse)
        case Some(p) => conn == Some(old(inUse)[p]) && inUse == Without(old(inUse), p)
    {
      var p := FindPosition(inUse, id);
      if p.None? {
        return None;
      }
      conn := Some(inUse[p.value]);
      inUse := inUse[..p.value] + inUse[p.value + 1..];
    }

    method Cleanup(idleTimeout: Time, now: Time, healthy: set<Id>) returns (removed: nat)
      modifies this
      ensures View() == PoolModel.Cleanup(old(View()), idleTimeout, now, healthy)
      ensures removed == |old(available)| - |available|
    {
      var initialCount := |available|;
      available := Retain(available, idleTimeout, now, healthy);
      removed := initialCount - |available|;
      swept := swept + removed;
    }

    method Drain() returns (conns: seq<PooledConnection>)
      modifies this
      ensures conns == old(available) + old(inUse)
      ensures View() == old(View()).(available := [], inUse := [], totalCreated := 0)
    {
      conns := available + inUse;
      available, inUse := [], [];
      totalCreated := 0;
    }

    /** Lends `conn`, just taken off the free list. */
    method TakeUp(conn: PooledConnection, now: Time)
      modifies this
      ensures View() == Lend(old(View()), conn, now)
    {
      inUse := inUse + [conn.(inUse := true, lastUsed := now)];
      totalAcquired := totalAcquired + 1;
    }

    method Uncount()
      modifies this`totalCreated
      ensures totalCreated == SaturatingPred(old(totalCreated))
    {
      totalCreated := if totalCreated == 0 then 0 else totalCreated - 1;
    }

    // The bodies of the pool's critical sections, once the server has been found.

    method Look(max: nat, healthy: set<Id>, now: Time) returns (l: Lookup)
      modifies this
      ensures View() == GetExisting(old(View()), max, healthy, now).0
      ensures l == GetExisting(old(View()), max, healthy, now).1
    {
      var conn := GetAvailable();
      if conn.Some? {
        if conn.value.id in healthy {
          TakeUp(conn.value, now);
          return Hit(conn.value.id);
        }
        Uncount();
      }
      l := if |available| + |inUse| < max then MayCreate else MustWait;
    }

    method LookAgain(healthy: set<Id>, now: Time) returns (hit: Option<Id>)
      modifies this
      ensures View() == Poll(old(View()), healthy, now).0
      ensures hit == Poll(old(View()), healthy, now).1
    {
      var conn := GetAvailable();
      if conn.None? {
        return None;
      }
      if conn.value.id in healthy {
        TakeUp(conn.value, now);
        return Some(conn.value.id);
      }
      dropped := dropped + 1;
      return None;
    }

    method AddNew(id: Id, now: Time)
      modifies this
      ensures View() == InsertNew(old(View()), id, now)
    {
      inUse := inUse + [PooledConnection(id, now, now, true)];
      totalCreated := totalCreated + 1;
      totalAcquired := totalAcquired + 1;
    }

    method TakeBack(id: Id, max: nat, healthy: set<Id>, now: Time)
      modifies this
      ensures View() == Release(old(View()), id, max, healthy, now)
    {
      var removed := RemoveInUse(id);
      if removed.None? {
        return;
      }
      var conn := removed.value.(inUse := false, lastUsed := now);
      if conn.id in healthy && |available| + |inUse| <= max {
        available := available + [conn];
      } else {
        Uncount();
      }
      totalReleased := totalReleased + 1;
    }

    method Discard(id: Id)
      modifies this
      ensures View() == Close(old(View()), id)
    {
      var removed := RemoveInUse(id);
      if removed.Some? {
        Uncount();
        closed := closed + 1;
        return;
      }
      var p := FindPosition(available, id);
      if p.Some? {
        available := available[..p.value] + available[p.value + 1..];
        Uncount();
      }
    }
  }

  lemma RetainedStep(cs: seq<PooledConnection>, i: nat, idleTimeout: Time, now: Time, healthy: set<Id>)
    requires i < |cs|
    ensures Retained(cs[i..], idleTimeout, now, healthy)
         == (if cs[i].ShouldEvict(idleTimeout, now, healthy) then [] else [cs[i]])
            + Retained(cs[i + 1..], idleTimeout, now, healthy)
  {
    assert cs[i..][0] == cs[i] && cs[i..][1..] == cs[i + 1..];
  }

  /** One pass, keeping the connections that need not go. */
  method Retain(cs: seq<PooledConnection>, idleTimeout: Time, now: Time, healthy: set<Id>)
    returns (kept: seq<PooledConnection>)
    ensures kept == Retained(cs, idleTimeout, now, healthy)
  {
    kept := [];
    var i := 0;
    while i < |cs|
      invariant 0 <= i <= |cs|
      invariant kept + Retained(cs[i..], idleTimeout, now, healthy) == Retained(cs, idleTimeout, now, healthy)
    {
      RetainedStep(cs, i, idleTimeout, now, healthy);
      if !cs[i].ShouldEvict(idleTimeout, now, healthy) {
        kept := kept + [cs[i]];
      }
      i := i + 1;
    }
  }

  method FindPosition(cs: seq<PooledConnection>, id: Id) returns (p: Option<nat>)
    ensures p == Position(cs, id)
  {
    var i := 0;
    while i < |cs|
      invariant 0 <= i <= |cs|
      invariant Position(cs, id) == Shift(Position(cs[i..], id), i)
    {
      assert cs[i..][0] == cs[i] && cs[i..][1..] == cs[i + 1..];
      if cs[i].id == id {
        return Some(i);
      }
      i := i + 1;
    }
    return None;
  }

  function Shift(p: Option<nat>, i: nat): Option<nat> {
    match p
    case None => None
    case Some(n) => Some(n + i)
  }

  /** `t` where the work is done, `s` where it is still to do. */
  ghost function Partly(s: map<Url, Server>, t: map<Url, Server>, rest: set<Url>): map<Url, Server>
    requires s.Keys == t.Keys
  {
    map u | u in s :: if u in rest then s[u] else t[u]
  }

  lemma PartlyStep(s: map<Url, Server>, t: map<Url, Server>, rest: set<Url>, u: Url)
    requires s.Keys == t.Keys && u in rest && rest <= s.Keys
    ensures Partly(s, t, rest)[u := t[u]] == Partly(s, t, rest - {u}) && Partly(s, t, rest)[u] == s[u]
    ensures Partly(s, t, {}) == t
  {
  }

  lemma PartlyNone(s: map<Url, Server>, t: map<Url, Server>)
    requires s.Keys == t.Keys
    ensures Partly(s, t, {}) == t
  {
  }

  datatype CleanupStats = CleanupStats(connectionsRemoved: nat, serversCleaned: nat)

  ghost function Cleaned(s: map<Url, Server>, idleTimeout: Time, now: Time, healthy: set<Id>): map<Url, Server> {
    map u | u in s :: Cleanup(s[u], idleTimeout, now, healthy)
  }

  lemma OneCleaned(s: map<Url, Server>, idleTimeout: Time, now: Time, healthy: set<Id>, rest: set<Url>, u: Url,
                   removed: nat, servers: nat)
    requires u in rest && rest <= s.Keys
    requires Lost(s, Partly(s, Cleaned(s, idleTimeout, now, healthy), rest), removed, servers)
    ensures
      var t := Cleaned(s, idleTimeout, now, healthy);
      var before, after, n := Partly(s, t, rest), Partly(s, t, rest - {u}), |s[u].available| - |t[u].available|;
      && before[u] == s[u] && before[u := t[u]] == after
      && Lost(s, after, removed + n, if n > 0 then servers + 1 else servers)
  {
    var t := Cleaned(s, idleTimeout, now, healthy);
    PartlyStep(s, t, rest, u);
    LostOne(s, Partly(s, t, rest), u, t[u], removed, servers);
  }

  class ConnectionPool {
    const maxConnections: nat
    const idleTimeout: Time
    var pools: map<Url, ServerPool>

    ghost predicate Valid()
      reads this
    {
      forall u, v :: u in pools && v in pools && u != v ==> pools[u] != pools[v]
    }

    ghost function Contents(): map<Url, Server>
      reads this, pools.Values
    {
      map u | u in pools :: pools[u].View()
    }

    constructor (maxConnections: nat, idleTimeout: Time)
      ensures Valid() && Contents() == map[]
      ensures this.maxConnections == maxConnections && this.idleTimeout == idleTimeout
    {
      this.maxConnections := maxConnections;
      this.idleTimeout := idleTimeout;
      pools := map[];
    }

    /** The first critical section of `get_with_config`. */
    method GetExistingConnection(u: Url, healthy: set<Id>, now: Time) returns (l: Lookup)
      requires Valid()
      modifies pools.Values
      ensures Valid() && pools == old(pools)
      ensures u !in pools ==> Contents() == old(Contents()) && l == MayCreate
      ensures u in pools ==>
                && Contents() == old(Contents())[u := GetExisting(old(Contents())[u], maxConnections, healthy, now).0]
                && l == GetExisting(old(Contents())[u], maxConnections, healthy, now).1
    {
      if u !in pools {
        return MayCreate;
      }
      l := pools[u].Look(maxConnections, healthy, now);
    }

    /** The second one, after a successful connect. */
    method InsertConnection(u: Url, id: Id, now: Time)
      requires Valid()
      modifies this, pools.Values
      ensures Valid() && fresh(pools.Values - old(pools.Values))
      ensures Contents() == old(Contents())[u :=
        InsertNew(if u in old(pools) then old(Contents())[u] else EMPTY_SERVER, id, now)]
    {
      if u !in pools {
        var empty := new ServerPool();
        pools := pools[u := empty];
      }
      pools[u].AddNew(id, now);
    }

    /** One look of the waiting loop. */
    method PollConnection(u: Url, healthy: set<Id>, now: Time) returns (hit: Option<Id>)
      requires Valid()
      modifies pools.Values
      ensures Valid() && pools == old(pools)
      ensures u !in pools ==> Contents() == old(Contents()) && hit == None
      ensures u in pools ==>
                && Contents() == old(Contents())[u := Poll(old(Contents())[u], healthy, now).0]
                && hit == Poll(old(Contents())[u], healthy, now).1
    {
      if u !in pools {
        return None;
      }
      hit := pools[u].LookAgain(healthy, now);
    }

    method ReleaseConnection(u: Url, id: Id, healthy: set<Id>, now: Time)
      requires Valid()
      modifies pools.Values
      ensures Valid() && pools == old(pools)
      ensures Contents() == if u in pools
        then old(Contents())[u := Release(old(Contents())[u], id, maxConnections, healthy, now)]
        else old(Contents())
    {
      if u in pools {
        pools[u].TakeBack(id, maxConnections, healthy, now);
      }
    }

    method CloseConnection(u: Url, id: Id)
      requires Valid()
      modifies pools.Values
      ensures Valid() && pools == old(pools)
      ensures Contents() == if u in pools then old(Contents())[u := Close(old(Contents())[u], id)] else old(Contents())
    {
      if u in pools {
        pools[u].Discard(id);
      }
    }

    method CleanupOne(u: Url, now: Time, healthy: set<Id>) returns (removed: nat)
      requires Valid() && u in pools
      modifies pools.Values
      ensures pools == old(pools)
      ensures Contents() == old(Contents())[u := Cleanup(old(Contents())[u], idleTimeout, now, healthy)]
      ensures removed == |old(Contents())[u].available| - |Contents()[u].available|
    {
      removed := pools[u].Cleanup(idleTimeout, now, healthy);
    }

    /** What was removed is what is missing afterwards; `serversCleaned` counts the servers it hit. */
    method CleanupAll(now: Time, healthy: set<Id>) returns (stats: CleanupStats)
      requires Valid()
      modifies pools.Values
      ensures Valid() && pools == old(pools)
      ensures Contents() == Cleaned(old(Contents()), idleTimeout, now, healthy)
      ensures Lost(old(Contents()), Contents(), stats.connectionsRemoved, stats.serversCleaned)
    {
      var removed: nat, servers: nat := 0, 0;
      var rest := pools.Keys;
      ghost var s := Contents();
      ghost var t := Cleaned(s, idleTimeout, now, healthy);
      assert Partly(s, t, rest) == s;
      LostNothing(s);
      while rest != {}
        invariant rest <= s.Keys && pools == old(pools)
        invariant Contents() == Partly(s, t, rest)
        invariant Lost(s, Partly(s, t, rest), removed, servers)
      {
        var u :| u in rest;
        OneCleaned(s, idleTimeout, now, healthy, rest, u, removed, servers);
        var n := CleanupOne(u, now, healthy);
        if n > 0 {
          removed := removed + n;
          servers := servers + 1;
        }
        rest := rest - {u};
      }
      PartlyNone(s, t);
      stats := CleanupStats(removed, servers);
    }

    method Stats() returns (stats: PoolStats)
      requires Valid()
      ensures stats == StatsOf(Contents())
    {
      var available: nat, inUse: nat, created: nat := 0, 0, 0;
      var rest := pools.Keys;
      ghost var s := Contents();
      assert rest == s.Keys;
      CountedEnds(s, 0, 0, 0);
      while rest != {}
        invariant rest <= s.Keys
        invariant Counted(s, rest, available, inUse, created)
      {
        var u :| u in rest;
        CountedOne(s, rest, u, available, inUse, created);
        assert s[u] == pools[u].View();
        available := available + |pools[u].available|;
        inUse := inUse + |pools[u].inUse|;
        created := created + pools[u].totalCreated;
        rest := rest - {u};
      }
      CountedEnds(s, available, inUse, created);
      stats := PoolStats(|pools|, available + inUse, available, inUse, created);
    }

    method DrainOne(u: Url) returns (conns: seq<PooledConnection>)
      requires Valid() && u in pools
      modifies pools.Values
      ensures pools == old(pools)
      ensures conns == old(pools[u].available) + old(pools[u].inUse)
      ensures forall v :: v in pools && v != u ==> pools[v].View() == old(pools[v].View())
    {
      conns := pools[u].Drain();
    }

    /** The servers are emptied and forgotten in one critical section; `clients` are the connections that are
        closed afterwards, every one of them. */
    method CloseAll() returns (clients: seq<PooledConnection>)
      requires Valid()
      modifies this, pools.Values
      ensures Valid() && Contents() == map[]
      ensures |clients| == Sum(old(Contents())).available + Sum(old(Contents())).inUse
      ensures (set c | c in clients) == Everyone(old(Contents()))
    {
      clients := [];
      var rest := pools.Keys;
      ghost var s := Contents();
      assert rest == s.Keys;
      CollectedEnds(s, []);
      while rest != {}
        invariant rest <= s.Keys && pools == old(pools)
        invariant forall u :: u in rest ==> pools[u].View() == s[u]
        invariant Collected(s, rest, clients)
      {
        var u :| u in rest;
        CollectedOne(s, rest, u, clients);
        assert pools[u].View() == s[u];
        var drained := DrainOne(u);
        clients := clients + drained;
        rest := rest - {u};
      }
      CollectedEnds(s, clients);
      pools := map[];
    }
  }

  datatype ConfigError = NoMinimum | NoMaximum | MinimumAboveMaximum

  datatype PoolConfig = PoolConfig(minConnections: nat, maxConnections: nat, idleTimeout: Time) {
    /** What is wrong with it, the first thing checked first. */
    function Validate(): (e: Option<ConfigError>)
      ensures e.None? <==> 0 < minConnections <= maxConnections
      ensures e == Some(NoMinimum) <==> minConnections == 0
      ensures e == Some(NoMaximum) <==> minConnections > 0 && maxConnections == 0
    {
      if minConnections == 0 then Some(NoMinimum)
      else if maxConnections == 0 then Some(NoMaximum)
      else if minConnections > maxConnections then Some(MinimumAboveMaximum)
      else None
    }
  }

  /** A pool is made for a valid configuration only. */
  method NewPool(config: PoolConfig) returns (r: Result<ConnectionPool, ConfigError>)
    ensures r.Ok? <==> 0 < config.minConnections <= config.maxConnections
    ensures r.Ok? ==>
              && fresh(r.value) && r.value.Valid() && r.value.Contents() == map[]
              && r.value.maxConnections == config.maxConnections && r.value.idleTimeout == config.idleTimeout
    ensures r.Err? ==> config.Validate() == Some(r.error)
  {
    var e := config.Validate();
    if e.Some? {
      return Err(e.value);
    }
    var pool := new ConnectionPool(config.maxConnections, config.idleTimeout);
    r := Ok(pool);
  }
}
