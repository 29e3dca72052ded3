/**
 What each critical section of src/pool.rs leaves, field by field: which connection is lent and when, what a
 cleanup spares, what each counter says, and what that means for whole runs.
 */
module PoolSections {
  import opened Wrappers
  import opened PoolModel
  import opened PoolRuns

  function Last(cs: seq<PooledConnection>): PooledConnection
    requires cs != []
  {
    cs[|cs| - 1]
  }

  /** The same connection, in use since `now`. */
  function InUseSince(c: PooledConnection, now: Time): PooledConnection {
    PooledConnection(c.id, now, c.createdAt, true)
  }

  // ---------------------------------------------------------------- lending

  /** The last of the free list goes to the end of the ones in use. */
  ghost predicate LastIsLent(sv: Server, sv': Server, now: Time)
    requires sv.available != []
  {
    && sv.available == sv'.available + [Last(sv.available)]
    && sv'.inUse == sv.inUse + [InUseSince(Last(sv.available), now)]
    && sv'.totalCreated == sv.totalCreated
    && sv'.totalAcquired == sv.totalAcquired + 1
    && sv'.totalReleased == sv.totalReleased
  }

  /** The last of the free list is gone, and `uncounted` were taken off the created ones. */
  ghost predicate LastIsDropped(sv: Server, sv': Server, uncounted: nat)
    requires sv.available != []
  {
    && sv.available == sv'.available + [Last(sv.available)]
    && sv'.inUse == sv.inUse
    && sv'.totalCreated == sv.totalCreated - uncounted
    && sv'.totalAcquired == sv.totalAcquired
    && sv'.totalReleased == sv.totalReleased
  }

  /** A look of the waiting loop lends if and only if the last free connection is healthy, and then that one;
      an unhealthy one there is dropped without being taken off the created ones. */
  lemma LookLendsExactlyWhen(sv: Server, healthy: set<Id>, now: Time)
    ensures
      var (sv', hit) := Poll(sv, healthy, now);
      && (hit.Some? <==> sv.available != [] && Last(sv.available).id in healthy)
      && (hit.Some? ==> hit.value == Last(sv.available).id && LastIsLent(sv, sv', now))
      && (hit.None? && sv.available != [] ==> LastIsDropped(sv, sv', 0))
      && (sv.available == [] ==> sv' == sv)
  {
  }

  /** So does the first look, which takes an unhealthy one off the created ones, and otherwise says whether
      there is room for one more. */
  lemma FirstLookLendsExactlyWhen(sv: Server, max: nat, healthy: set<Id>, now: Time)
    requires sv.WellFormed()
    ensures
      var (sv', l) := GetExisting(sv, max, healthy, now);
      && (l.Hit? <==> sv.available != [] && Last(sv.available).id in healthy)
      && (l.Hit? ==> l.id == Last(sv.available).id && LastIsLent(sv, sv', now))
      && (!l.Hit? && sv.available != [] ==> LastIsDropped(sv, sv', 1))
      && (sv.available == [] ==> sv' == sv)
      && (!l.Hit? ==> (l.MayCreate? <==> |sv'.available| + |sv'.inUse| < max))
  {
  }

  /** A healthy connection never leaves the free list by a look without being lent. */
  lemma HealthyLeavesOnlyLent(sv: Server, max: nat, healthy: set<Id>, now: Time, c: PooledConnection)
    requires sv.WellFormed() && c in sv.available && c.id in healthy
    ensures c !in Poll(sv, healthy, now).0.available ==> Poll(sv, healthy, now).1 == Some(c.id)
    ensures c !in GetExisting(sv, max, healthy, now).0.available ==> GetExisting(sv, max, healthy, now).1 == Hit(c.id)
  {
    LookLendsExactlyWhen(sv, healthy, now);
    FirstLookLendsExactlyWhen(sv, max, healthy, now);
    if sv.available != [] {
      assert sv.available == sv.available[..|sv.available| - 1] + [Last(sv.available)];
    }
  }

  /** A new connection is the last in use, made and used now. */
  lemma InsertedConnection(sv: Server, id: Id, now: Time)
    ensures
      var sv' := InsertNew(sv, id, now);
      && sv'.available == sv.available
      && sv'.inUse == sv.inUse + [PooledConnection(id, now, now, true)]
      && sv'.totalCreated == sv.totalCreated + 1
      && sv'.totalAcquired == sv.totalAcquired + 1
      && sv'.totalReleased == sv.totalReleased
  {
  }

  // ---------------------------------------------------------------- giving back

  /** `cs'` is `cs` without the one connection `c`, the rest in order. */
  ghost predicate TakenOut(cs: seq<PooledConnection>, cs': seq<PooledConnection>, c: PooledConnection) {
    exists p :: 0 <= p < |cs| && cs[p] == c && cs' == cs[..p] + cs[p + 1..]
  }

  lemma {:induction false} OnlyPosition(cs: seq<PooledConnection>, c: PooledConnection)
    requires c in cs && NoRepeats(cs)
    ensures Position(cs, c.id).Some? && cs[Position(cs, c.id).value] == c
  {
    PositionIsMembership(cs, c.id);
    assert c.id in IdsOf(cs);
    var p := Position(cs, c.id).value;
    var q :| 0 <= q < |cs| && cs[q] == c;
    assert cs[p].id == cs[q].id;
  }

  lemma NoRepeatsInLists(sv: Server)
    requires sv.WellFormed()
    ensures NoRepeats(sv.available) && NoRepeats(sv.inUse) && sv.Free() !! sv.Taken()
  {
    IdsOfAppend(sv.available, sv.inUse);
  }

  /** A connection in use that is released goes to the end of the free list, stamped, if it is healthy and the
      others are at most the maximum; otherwise it is gone and taken off the created ones. */
  lemma ReleasedConnection(sv: Server, c: PooledConnection, max: nat, healthy: set<Id>, now: Time)
    requires sv.WellFormed() && c in sv.inUse
    ensures
      var sv', kept := Release(sv, c.id, max, healthy, now), c.id in healthy && |sv.available| + |sv.inUse| - 1 <= max;
      && TakenOut(sv.inUse, sv'.inUse, c)
      && sv'.available == (if kept then sv.available + [PooledConnection(c.id, now, c.createdAt, false)]
                           else sv.available)
      && sv'.totalCreated == (if kept then sv.totalCreated else sv.totalCreated - 1)
      && sv'.totalAcquired == sv.totalAcquired
      && sv'.totalReleased == sv.totalReleased + 1
  {
    NoRepeatsInLists(sv);
    OnlyPosition(sv.inUse, c);
  }

  /** Releasing anything else changes nothing. */
  lemma ReleasedStranger(sv: Server, id: Id, max: nat, healthy: set<Id>, now: Time)
    requires forall c :: c in sv.inUse ==> c.id != id
    ensures Release(sv, id, max, healthy, now) == sv
  {
  }

  /** A closed connection is taken out of its list and off the created ones; one not there changes nothing. */
  lemma ClosedConnection(sv: Server, id: Id, c: PooledConnection)
    requires sv.WellFormed()
    ensures
      var sv' := Close(sv, id);
      && sv'.totalAcquired == sv.totalAcquired && sv'.totalReleased == sv.totalReleased
      && (c in sv.inUse && c.id == id ==>
            TakenOut(sv.inUse, sv'.inUse, c) && sv'.available == sv.available
            && sv'.totalCreated == sv.totalCreated - 1)
      && (c in sv.available && c.id == id ==>
            TakenOut(sv.available, sv'.available, c) && sv'.inUse == sv.inUse
            && sv'.totalCreated == sv.totalCreated - 1)
      && (id !in sv.Free() + sv.Taken() ==> sv' == sv)
  {
    NoRepeatsInLists(sv);
    PositionIsMembership(sv.inUse, id);
    PositionIsMembership(sv.available, id);
    if c in sv.inUse && c.id == id {
      OnlyPosition(sv.inUse, c);
    }
    if c in sv.available && c.id == id {
      assert id in sv.Free();
      OnlyPosition(sv.available, c);
    }
  }

  // ---------------------------------------------------------------- cleaning up

  /** A cleanup spares exactly what is in use, or healthy and used within the timeout. */
  predicate Spared(c: PooledConnection, idleTimeout: Time, now: Time, healthy: set<Id>) {
    c.inUse || (c.id in healthy && now <= c.lastUsed + idleTimeout)
  }

  lemma {:induction false} SparedStay(cs: seq<PooledConnection>, idleTimeout: Time, now: Time, healthy: set<Id>,
                                      c: PooledConnection)
    ensures c in Retained(cs, idleTimeout, now, healthy) <==> c in cs && Spared(c, idleTimeout, now, healthy)
  {
    if cs != [] {
      SparedStay(cs[1..], idleTimeout, now, healthy, c);
      assert c in cs <==> c == cs[0] || c in cs[1..];
    }
  }

  /** In order, and as often as they occur. */
  lemma {:induction false} SparedInOrder(a: seq<PooledConnection>, b: seq<PooledConnection>, idleTimeout: Time,
                                         now: Time, healthy: set<Id>, c: PooledConnection)
    ensures Retained(a + b, idleTimeout, now, healthy)
         == Retained(a, idleTimeout, now, healthy) + Retained(b, idleTimeout, now, healthy)
    ensures Retained([c], idleTimeout, now, healthy) == if Spared(c, idleTimeout, now, healthy) then [c] else []
  {
    assert [c][1..] == [];
    if a == [] {
      assert a + b == b;
    } else {
      SparedInOrder(a[1..], b, idleTimeout, now, healthy, c);
      assert (a + b)[1..] == a[1..] + b;
    }
  }

  lemma CleanedServer(sv: Server, idleTimeout: Time, now: Time, healthy: set<Id>, c: PooledConnection)
    ensures
      var sv' := Cleanup(sv, idleTimeout, now, healthy);
      && (c in sv'.available <==> c in sv.available && Spared(c, idleTimeout, now, healthy))
      && sv'.inUse == sv.inUse
      && sv'.totalCreated == sv.totalCreated
      && sv'.totalAcquired == sv.totalAcquired
      && sv'.totalReleased == sv.totalReleased
  {
    SparedStay(sv.available, idleTimeout, now, healthy, c);
  }

  /** A connection kept at its release is swept by a later cleanup exactly when it is no longer healthy or has
      been idle for longer than the timeout since. */
  lemma ReleasedUntilIdle(sv: Server, c: PooledConnection, max: nat, healthy: set<Id>, at: Time,
                          idleTimeout: Time, later: Time, healthyThen: set<Id>)
    requires sv.WellFormed() && c in sv.inUse && c.id in Release(sv, c.id, max, healthy, at).Free()
    ensures c.id in Cleanup(Release(sv, c.id, max, healthy, at), idleTimeout, later, healthyThen).Free()
            <==> c.id in healthyThen && later <= at + idleTimeout
  {
    var sv' := Release(sv, c.id, max, healthy, at);
    var sv'' := Cleanup(sv', idleTimeout, later, healthyThen);
    ReleasedConnection(sv, c, max, healthy, at);
    NoRepeatsInLists(sv);
    assert c.id in sv.Taken();
    var back := PooledConnection(c.id, at, c.createdAt, false);
    assert back in sv'.available;
    SparedStay(sv'.available, idleTimeout, later, healthyThen, back);
    if c.id in sv''.Free() {
      var d :| d in sv''.available && d.id == c.id;
      SparedStay(sv'.available, idleTimeout, later, healthyThen, d);
      assert d in sv.available ==> d.id in sv.Free();
    }
  }

  // ---------------------------------------------------------------- steps and runs

  /** A handle that a step of looking grants is for a connection that was free and healthy at that step. */
  ghost predicate GrantsHealthy(w: World, a: Step)
    requires Enabled(w, a)
  {
    var w' := Next(w, a);
    (a.Get? || a.Look?) && a.c in w'.calls && w'.calls[a.c].Holding?
    ==> w'.calls[a.c].id in a.healthy && w'.calls[a.c].id in FreeAt(w, w'.calls[a.c].url)
  }

  lemma StepGrantsHealthy(w: World, a: Step)
    requires Ledger(w) && Enabled(w, a)
    ensures GrantsHealthy(w, a)
  {
    if a.Get? && a.url in w.pools {
      assert Sound(w, a.url);
      FirstLookLendsExactlyWhen(w.pools[a.url], w.max, a.healthy, a.at);
      GetExistingMoves(w.pools[a.url], w.max, a.healthy, a.at);
    } else if a.Look? && w.calls[a.c].url in w.pools {
      assert Sound(w, w.calls[a.c].url);
      LookLendsExactlyWhen(w.pools[w.calls[a.c].url], a.healthy, a.at);
      PollMoves(w.pools[w.calls[a.c].url], a.healthy, a.at);
    }
  }

  ghost predicate AllGrantsHealthy(w: World, steps: seq<Step>)
    requires IsRun(w, steps)
    decreases |steps|
  {
    steps == [] || (GrantsHealthy(w, steps[0]) && AllGrantsHealthy(Next(w, steps[0]), steps[1..]))
  }

  /** In every run, every handle granted without connecting is for a connection free and healthy just then. */
  lemma {:induction false} RunGrantsHealthy(w: World, steps: seq<Step>)
    requires Ledger(w) && IsRun(w, steps)
    ensures AllGrantsHealthy(w, steps)
    decreases |steps|
  {
    if steps != [] {
      StepGrantsHealthy(w, steps[0]);
      StepKeepsLedger(w, steps[0]);
      RunGrantsHealthy(Next(w, steps[0]), steps[1..]);
    }
  }

  /** A waiting caller is served if and only if its look finds a healthy connection last in the free list. */
  lemma WaiterServedExactlyWhen(w: World, a: Step)
    requires a.Look? && Enabled(w, a)
    ensures
      var u, w' := w.calls[a.c].url, Next(w, a);
      && a.c in w'.calls
      && (w'.calls[a.c].Holding? <==>
            u in w.pools && w.pools[u].available != [] && Last(w.pools[u].available).id in a.healthy)
      && (!w'.calls[a.c].Holding? ==> w'.calls[a.c] == w.calls[a.c])
  {
  }

  /** A connect that fails and a caller that gives up leave the pools alone. */
  lemma LeavingChangesNoPool(w: World, a: Step)
    requires (a.ConnectFailed? || a.GiveUp?) && Enabled(w, a)
    ensures Next(w, a).pools == w.pools && Next(w, a).calls == w.calls - {a.c}
  {
  }

  /** A connect that succeeds adds its connection, in use, and grants it. */
  lemma ConnectingAdds(w: World, a: Step)
    requires Ledger(w) && a.Connected? && Enabled(w, a)
    ensures
      var u, w' := w.calls[a.c].url, Next(w, a);
      && TakenAt(w', u) == TakenAt(w, u) + {a.id} && FreeAt(w', u) == FreeAt(w, u)
      && TotalAt(w', u) == TotalAt(w, u) + 1
      && a.c in w'.calls && w'.calls[a.c].Holding? && w'.calls[a.c].id == a.id
  {
    var u := w.calls[a.c].url;
    assert Sound(w, u) && Within(w, u);
    FirstConnection(a.id, a.at);
    if u in w.pools {
      InsertNewMoves(w.pools[u], a.id, a.at);
    }
  }

  /** A sweep spares at every server exactly what it should, and touches nothing in use. */
  lemma SweepSpares(w: World, a: Step, u: Url, c: PooledConnection)
    requires a.Sweep? && u in w.pools
    ensures
      var w' := Next(w, a);
      && u in w'.pools && w'.calls == w.calls
      && (c in w'.pools[u].available <==>
            c in w.pools[u].available && Spared(c, w.idleTimeout, a.at, a.healthy))
      && w'.pools[u].inUse == w.pools[u].inUse
  {
    CleanedServer(w.pools[u], w.idleTimeout, a.at, a.healthy, c);
  }

  /** After `close_all` nothing is left anywhere, though handles and waiting callers are. */
  lemma CloseAllForgets(w: World, u: Url)
    ensures
      var w' := Next(w, CloseAll);
      FreeAt(w', u) == {} && TakenAt(w', u) == {} && TotalAt(w', u) == 0 && w'.calls == w.calls
  {
  }
}
