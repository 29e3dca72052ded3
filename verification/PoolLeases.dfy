/**
 Who holds which connection. A handle is live from the call that returned it until it is released,
 closed or dropped. Explicit `release` consumes the handle, and the drop that follows releases again; a clone
 is live by itself and releases by itself.
 */
module PoolLeases {
  import opened PoolModel
  import opened PoolRuns
  import opened Wrappers

  ghost predicate Holds(w: World, c: CallId, u: Url, id: Id) {
    c in w.calls && w.calls[c].Holding? && w.calls[c].url == u && w.calls[c].id == id
  }

  ghost predicate HasClosed(w: World, c: CallId, u: Url, id: Id) {
    c in w.calls && w.calls[c] == Closed(u, id)
  }

  /** What a live handle holds is not on offer. */
  ghost predicate Unoffered(w: World, c: CallId) {
    c in w.calls && w.calls[c].Holding? ==> w.calls[c].id !in FreeAt(w, w.calls[c].url)
  }

  /** Two live handles hold different connections, unless both come from one by cloning. */
  ghost predicate Separate(w: World, c: CallId, d: CallId) {
    && c in w.calls && w.calls[c].Holding?
    && d in w.calls && w.calls[d].Holding?
    && w.calls[c].url == w.calls[d].url && w.calls[c].id == w.calls[d].id
    ==> w.calls[c].lease == w.calls[d].lease
  }

  ghost predicate Exclusive(w: World) {
    && (forall c :: Unoffered(w, c))
    && (forall c, d :: Separate(w, c, d))
  }

  ghost predicate Leased(w: World, u: Url, id: Id) {
    id in TakenAt(w, u) ==> exists c :: Holds(w, c, u, id)
  }

  ghost predicate Retired(w: World, c: CallId) {
    && (c in w.calls && w.calls[c].Holding? ==> w.calls[c].id in w.used && w.calls[c].lease < w.leases)
    && (c in w.calls && w.calls[c].Closed? ==>
          && w.calls[c].id in w.used
          && w.calls[c].id !in FreeAt(w, w.calls[c].url)
          && w.calls[c].id !in TakenAt(w, w.calls[c].url))
  }

  /** Exclusive, every connection in use has its handle, and what was closed does not come back. */
  ghost predicate Leases(w: World) {
    && Exclusive(w)
    && (forall u, id :: Leased(w, u, id))
    && (forall c :: Retired(w, c))
  }

  // ---------------------------------------------------------------- kinds of change

  /** Connections leave free lists, calls move without a handle. */
  ghost predicate Quiet(w: World, w': World) {
    && w.used <= w'.used && w.leases <= w'.leases
    && (forall u :: FreeAt(w', u) <= FreeAt(w, u) && TakenAt(w', u) <= TakenAt(w, u))
    && (forall c :: c in w'.calls && (w'.calls[c].Holding? || w'.calls[c].Closed?)
          ==> c in w.calls && w.calls[c] == w'.calls[c])
    && (forall u, id, c :: Holds(w, c, u, id) && id in TakenAt(w', u) ==> Holds(w', c, u, id))
  }

  lemma QuietKeepsLeases(w: World, w': World)
    requires Leases(w) && Quiet(w, w')
    ensures Leases(w')
  {
    forall c
      ensures Unoffered(w', c) && Retired(w', c)
    {
      assert Unoffered(w, c) && Retired(w, c);
      if c in w'.calls && (w'.calls[c].Holding? || w'.calls[c].Closed?) {
        var u := w'.calls[c].url;
        assert FreeAt(w', u) <= FreeAt(w, u) && TakenAt(w', u) <= TakenAt(w, u);
      }
    }
    forall c, d
      ensures Separate(w', c, d)
    {
      assert Separate(w, c, d);
    }
    forall u, id
      ensures Leased(w', u, id)
    {
      assert Leased(w, u, id);
      assert TakenAt(w', u) <= TakenAt(w, u);
      if id in TakenAt(w', u) {
        var c :| Holds(w, c, u, id);
        assert Holds(w', c, u, id);
      }
    }
  }

  /** Call `c` comes to hold `id`, which nobody held and which is in use now. */
  ghost predicate Grants(w: World, w': World, c: CallId, u: Url, id: Id) {
    && (c in w.calls ==> w.calls[c].Connecting? || w.calls[c].Waiting?)
    && w'.calls == w.calls[c := Holding(u, id, w.leases)] && w'.leases == w.leases + 1
    && w.used <= w'.used && id in w'.used
    && (forall v :: v != u ==> FreeAt(w', v) == FreeAt(w, v) && TakenAt(w', v) == TakenAt(w, v))
    && FreeAt(w', u) == FreeAt(w, u) - {id}
    && TakenAt(w', u) == TakenAt(w, u) + {id}
  }

  lemma GrantKeepsLeases(w: World, w': World, c: CallId, u: Url, id: Id)
    requires Leases(w) && Grants(w, w', c, u, id)
    requires forall d :: !Holds(w, d, u, id) && !HasClosed(w, d, u, id)
    ensures Leases(w')
  {
    forall d
      ensures Unoffered(w', d) && Retired(w', d)
    {
      assert Unoffered(w, d) && Retired(w, d) && !Holds(w, d, u, id) && !HasClosed(w, d, u, id);
      if d != c && d in w.calls && (w.calls[d].Holding? || w.calls[d].Closed?) {
        var v := w.calls[d].url;
        assert v != u ==> FreeAt(w', v) == FreeAt(w, v) && TakenAt(w', v) == TakenAt(w, v);
      }
    }
    forall d, e
      ensures Separate(w', d, e)
    {
      assert Separate(w, d, e) && !Holds(w, d, u, id) && !Holds(w, e, u, id);
    }
    forall v, i
      ensures Leased(w', v, i)
    {
      assert Leased(w, v, i);
      assert v != u ==> TakenAt(w', v) == TakenAt(w, v);
      if v == u && i == id {
        assert Holds(w', c, u, id);
      } else if i in TakenAt(w', v) {
        var d :| Holds(w, d, v, i);
        assert Holds(w', d, v, i);
      }
    }
  }

  /** Nobody holds what is on offer, nor anything never used. */
  lemma NobodyHolds(w: World, u: Url, id: Id)
    requires Leases(w) && (id in FreeAt(w, u) || id !in w.used)
    ensures forall d :: !Holds(w, d, u, id) && !HasClosed(w, d, u, id)
  {
    forall d
      ensures !Holds(w, d, u, id) && !HasClosed(w, d, u, id)
    {
      assert Unoffered(w, d) && Retired(w, d);
    }
  }

  /** `release` was called for `id`, and `c` no longer holds it. */
  ghost predicate GivesBack(w: World, w': World, c: CallId, u: Url, id: Id) {
    && w'.used == w.used && w'.leases == w.leases
    && (forall v :: v != u ==> FreeAt(w', v) == FreeAt(w, v) && TakenAt(w', v) == TakenAt(w, v))
    && FreeAt(w', u) <= FreeAt(w, u) + {id}
    && (id !in TakenAt(w, u) ==> FreeAt(w', u) == FreeAt(w, u))
    && TakenAt(w', u) == TakenAt(w, u) - {id}
    && (forall d :: d != c ==> (d in w'.calls <==> d in w.calls) && (d in w.calls ==> w'.calls[d] == w.calls[d]))
    && (c in w'.calls ==> w'.calls[c].Released?)
  }

  /** If nobody else holds `id`, or `id` does not come back on offer, the leases stay. */
  lemma GiveBackKeepsLeases(w: World, w': World, c: CallId, u: Url, id: Id)
    requires Leases(w) && GivesBack(w, w', c, u, id)
    requires c in w.calls && (w.calls[c].Holding? || w.calls[c].Released? || w.calls[c].Closed?)
    requires w.calls[c].url == u && w.calls[c].id == id
    requires (forall d :: d != c ==> !Holds(w, d, u, id)) || FreeAt(w', u) <= FreeAt(w, u)
    ensures Leases(w')
  {
    forall d
      ensures Unoffered(w', d) && Retired(w', d)
    {
      assert Unoffered(w, d) && Retired(w, d);
      assert d != c ==> !Holds(w, d, u, id) || FreeAt(w', u) <= FreeAt(w, u);
      if d != c && d in w.calls && (w.calls[d].Holding? || w.calls[d].Closed?) {
        var v := w.calls[d].url;
        assert v != u ==> FreeAt(w', v) == FreeAt(w, v) && TakenAt(w', v) == TakenAt(w, v);
      }
    }
    forall d, e
      ensures Separate(w', d, e)
    {
      assert Separate(w, d, e);
    }
    forall v, i
      ensures Leased(w', v, i)
    {
      assert Leased(w, v, i);
      assert v != u ==> TakenAt(w', v) == TakenAt(w, v);
      if i in TakenAt(w', v) {
        var d :| Holds(w, d, v, i);
        assert d != c || !(v == u && i == id);
        assert Holds(w', d, v, i);
      }
    }
  }

  // ---------------------------------------------------------------- steps

  /** An explicit release and a drop both release the connection. */
  predicate Releases(a: Step) {
    a.ReleaseHandle? || a.Drop?
  }

  /** The one hazard: a release that puts the connection back on offer while another handle holds it, be that
      a clone or, when this handle was released before, the handle of the next caller. */
  ghost predicate Harmless(w: World, a: Step)
    requires Releases(a) && Enabled(w, a)
  {
    var p := w.calls[a.c];
    p.id in TakenAt(w, p.url) && Keeps(w.pools[p.url], p.id, w.max, a.healthy)
    ==> forall d :: d != a.c ==> !Holds(w, d, p.url, p.id)
  }

  lemma LendingKeepsLeases(w: World, c: CallId, u: Url, sv: Server, id: Id)
    requires Ledger(w) && Leases(w) && u in w.pools && Lends(w.pools[u], sv, id)
    requires c in w.calls ==> w.calls[c].Connecting? || w.calls[c].Waiting?
    ensures Leases(Grant(SetPool(w, u, sv), c, u, id))
  {
    assert Within(w, u);
    NobodyHolds(w, u, id);
    GrantKeepsLeases(w, Grant(SetPool(w, u, sv), c, u, id), c, u, id);
  }

  lemma MissKeepsLeases(w: World, w': World, u: Url, sv: Server)
    requires Leases(w) && u in w.pools && Shrinks(w.pools[u], sv)
    requires w' == SetPool(w, u, sv).(calls := w'.calls)
    requires forall c :: c in w'.calls && (w'.calls[c].Holding? || w'.calls[c].Closed?)
               ==> c in w.calls && w.calls[c] == w'.calls[c]
    requires forall c :: c in w.calls && w.calls[c].Holding? ==> c in w'.calls && w'.calls[c] == w.calls[c]
    ensures Leases(w')
  {
    QuietKeepsLeases(w, w');
  }

  lemma GetKeepsLeases(w: World, a: Step)
    requires Ledger(w) && Leases(w) && a.Get? && Enabled(w, a)
    ensures Leases(Next(w, a))
  {
    var u, w' := a.url, Next(w, a);
    if u in w.pools {
      assert Sound(w, u);
      GetExistingMoves(w.pools[u], w.max, a.healthy, a.at);
      var (sv, l) := GetExisting(w.pools[u], w.max, a.healthy, a.at);
      if l.Hit? {
        LendingKeepsLeases(w, a.c, u, sv, l.id);
      } else {
        MissKeepsLeases(w, w', u, sv);
      }
    } else {
      QuietKeepsLeases(w, w');
    }
  }

  lemma LookKeepsLeases(w: World, a: Step)
    requires Ledger(w) && Leases(w) && a.Look? && Enabled(w, a)
    ensures Leases(Next(w, a))
  {
    var u, w' := w.calls[a.c].url, Next(w, a);
    if u in w.pools {
      assert Sound(w, u);
      PollMoves(w.pools[u], a.healthy, a.at);
      var (sv, hit) := Poll(w.pools[u], a.healthy, a.at);
      if hit.Some? {
        LendingKeepsLeases(w, a.c, u, sv, hit.value);
      } else {
        MissKeepsLeases(w, w', u, sv);
      }
    }
  }

  lemma ConnectedKeepsLeases(w: World, a: Step)
    requires Ledger(w) && Leases(w) && a.Connected? && Enabled(w, a)
    ensures Leases(Next(w, a))
  {
    var u := w.calls[a.c].url;
    assert Sound(w, u) && Within(w, u);
    FirstConnection(a.id, a.at);
    if u in w.pools {
      InsertNewMoves(w.pools[u], a.id, a.at);
    }
    NobodyHolds(w, u, a.id);
    GrantKeepsLeases(w, Next(w, a), a.c, u, a.id);
  }

  /** What a call of `release` puts back on offer. */
  function Returned(w: World, u: Url, id: Id, healthy: set<Id>): set<Id> {
    if id in TakenAt(w, u) && Keeps(w.pools[u], id, w.max, healthy) then {id} else {}
  }

  lemma ReleaseGivesBack(w: World, w': World, c: CallId, u: Url, id: Id, healthy: set<Id>, at: Time)
    requires Sound(w, u)
    requires w' == PoolRelease(w, u, id, healthy, at).(calls := w'.calls)
    requires w'.calls == w.calls - {c} || w'.calls == w.calls[c := Released(u, id)]
    ensures GivesBack(w, w', c, u, id)
    ensures FreeAt(w', u) == FreeAt(w, u) + Returned(w, u, id, healthy)
  {
    if u in w.pools {
      ReleaseMoves(w.pools[u], id, w.max, healthy, at);
    }
  }

  lemma StepGivesBack(w: World, a: Step)
    requires Ledger(w) && Leases(w) && Releases(a) && Enabled(w, a)
    ensures
      var p, w' := w.calls[a.c], Next(w, a);
      && GivesBack(w, w', a.c, p.url, p.id)
      && FreeAt(w', p.url) == FreeAt(w, p.url) + Returned(w, p.url, p.id, a.healthy)
  {
    var p := w.calls[a.c];
    assert Sound(w, p.url) && Retired(w, a.c);
    ReleaseGivesBack(w, Next(w, a), a.c, p.url, p.id, a.healthy, a.at);
  }

  lemma HarmlessReleaseKeepsLeases(w: World, a: Step)
    requires Ledger(w) && Leases(w) && Releases(a) && Enabled(w, a) && Harmless(w, a)
    ensures Leases(Next(w, a))
  {
    StepGivesBack(w, a);
    GiveBackKeepsLeases(w, Next(w, a), a.c, w.calls[a.c].url, w.calls[a.c].id);
  }

  /** A release keeps handles exclusive exactly when it is harmless: otherwise a connection that a live
      handle holds goes back on offer. */
  lemma ReleaseIsExclusiveExactlyWhenHarmless(w: World, a: Step)
    requires Ledger(w) && Leases(w) && Releases(a) && Enabled(w, a)
    ensures Exclusive(Next(w, a)) <==> Harmless(w, a)
  {
    if Harmless(w, a) {
      HarmlessReleaseKeepsLeases(w, a);
    } else {
      var p, w' := w.calls[a.c], Next(w, a);
      StepGivesBack(w, a);
      var d :| d != a.c && Holds(w, d, p.url, p.id);
      assert Holds(w', d, p.url, p.id);
      assert !Unoffered(w', d);
    }
  }

  /** For a handle released before, the hazard is that the connection is in use again and would be kept. */
  lemma StaleReleaseIsHarmlessExactlyWhen(w: World, a: Step)
    requires Ledger(w) && Leases(w) && a.Drop? && Enabled(w, a) && w.calls[a.c].Released?
    ensures
      var p := w.calls[a.c];
      Harmless(w, a) <==> p.id !in TakenAt(w, p.url) || !Keeps(w.pools[p.url], p.id, w.max, a.healthy)
  {
    assert Leased(w, w.calls[a.c].url, w.calls[a.c].id);
  }

  lemma CloneKeepsLeases(w: World, a: Step)
    requires Leases(w) && a.Clone? && Enabled(w, a)
    ensures Leases(Next(w, a))
  {
    var w' := Next(w, a);
    assert Unoffered(w, a.c) && Retired(w, a.c);
    forall d
      ensures Unoffered(w', d) && Retired(w', d)
    {
      assert Unoffered(w, d) && Retired(w, d);
    }
    forall d, e
      ensures Separate(w', d, e)
    {
      var d', e' := if d == a.copy then a.c else d, if e == a.copy then a.c else e;
      assert Separate(w, d', e');
    }
    forall u, id
      ensures Leased(w', u, id)
    {
      assert Leased(w, u, id);
      if id in TakenAt(w', u) {
        var d :| Holds(w, d, u, id);
        assert Holds(w', d, u, id);
      }
    }
  }

  lemma CloseKeepsLeases(w: World, a: Step)
    requires Ledger(w) && Leases(w) && a.CloseHandle? && Enabled(w, a)
    ensures Leases(Next(w, a))
  {
    var w', u, id := Next(w, a), w.calls[a.c].url, w.calls[a.c].id;
    assert Sound(w, u) && Unoffered(w, a.c) && Retired(w, a.c);
    var mid := w'.(calls := w.calls - {a.c});
    CloseGivesBack(w, mid, a.c, u, id);
    GiveBackKeepsLeases(w, mid, a.c, u, id);
    ClosedAfterwards(mid, w', a.c, u, id);
  }

  lemma CloseGivesBack(w: World, w': World, c: CallId, u: Url, id: Id)
    requires Sound(w, u) && id !in FreeAt(w, u)
    requires w' == PoolClose(w, u, id).(calls := w.calls - {c})
    ensures GivesBack(w, w', c, u, id)
    ensures id !in FreeAt(w', u) && id !in TakenAt(w', u)
  {
    if u in w.pools {
      CloseMoves(w.pools[u], id);
      assert FreeAt(w', u) == FreeAt(w, u) - {id} == FreeAt(w, u);
    } else {
      assert TakenAt(w', u) == TakenAt(w, u) - {id};
    }
  }

  lemma ClosedAfterwards(w: World, w': World, c: CallId, u: Url, id: Id)
    requires Leases(w) && c !in w.calls && w' == w.(calls := w.calls[c := Closed(u, id)])
    requires id in w.used && id !in FreeAt(w, u) && id !in TakenAt(w, u)
    ensures Leases(w')
  {
    forall d
      ensures Unoffered(w', d) && Retired(w', d)
    {
      assert Unoffered(w, d) && Retired(w, d);
    }
    forall d, e
      ensures Separate(w', d, e)
    {
      assert Separate(w, d, e);
    }
    forall v, i
      ensures Leased(w', v, i)
    {
      assert Leased(w, v, i);
      if i in TakenAt(w, v) {
        var d :| Holds(w, d, v, i);
        assert Holds(w', d, v, i);
      }
    }
  }

  lemma SweepIsQuiet(w: World, a: Step)
    requires Ledger(w) && a.Sweep?
    ensures Quiet(w, Next(w, a))
  {
    forall u
      ensures FreeAt(Next(w, a), u) <= FreeAt(w, u) && TakenAt(Next(w, a), u) <= TakenAt(w, u)
    {
      assert Sound(w, u);
      SweptPool(w, a, u);
    }
  }

  lemma StepKeepsLeases(w: World, a: Step)
    requires Ledger(w) && Leases(w) && Enabled(w, a) && (Releases(a) ==> Harmless(w, a))
    ensures Leases(Next(w, a))
  {
    match a
    case Get(_, _, _, _) => GetKeepsLeases(w, a);
    case Connected(_, _, _) => ConnectedKeepsLeases(w, a);
    case ConnectFailed(_) => QuietKeepsLeases(w, Next(w, a));
    case Look(_, _, _) => LookKeepsLeases(w, a);
    case GiveUp(_) => QuietKeepsLeases(w, Next(w, a));
    case Clone(_, _) => CloneKeepsLeases(w, a);
    case ReleaseHandle(_, _, _) => HarmlessReleaseKeepsLeases(w, a);
    case CloseHandle(_) => CloseKeepsLeases(w, a);
    case Drop(_, _, _) => HarmlessReleaseKeepsLeases(w, a);
    case Sweep(_, _) =>
      SweepIsQuiet(w, a);
      QuietKeepsLeases(w, Next(w, a));
    case CloseAll => QuietKeepsLeases(w, Next(w, a));
  }

  // ---------------------------------------------------------------- runs

  ghost predicate AllReleasesHarmless(w: World, steps: seq<Step>)
    requires IsRun(w, steps)
    decreases |steps|
  {
    steps == [] || (&& (Releases(steps[0]) ==> Harmless(w, steps[0]))
                    && AllReleasesHarmless(Next(w, steps[0]), steps[1..]))
  }

  lemma {:induction false} RunKeepsLeases(w: World, steps: seq<Step>)
    requires Ledger(w) && Leases(w) && IsRun(w, steps) && AllReleasesHarmless(w, steps)
    ensures Ledger(After(w, steps)) && Leases(After(w, steps))
    decreases |steps|
  {
    if steps != [] {
      StepKeepsLedger(w, steps[0]);
      StepKeepsLeases(w, steps[0]);
      RunKeepsLeases(Next(w, steps[0]), steps[1..]);
    }
  }

  /** Exclusive now and after every step. */
  ghost predicate AlwaysExclusive(w: World, steps: seq<Step>)
    requires IsRun(w, steps)
    decreases |steps|
  {
    Exclusive(w) && (steps == [] || AlwaysExclusive(Next(w, steps[0]), steps[1..]))
  }

  lemma {:induction false} ExclusiveThroughout(w: World, steps: seq<Step>)
    requires Ledger(w) && Leases(w) && IsRun(w, steps)
    ensures AlwaysExclusive(w, steps) <==> AllReleasesHarmless(w, steps)
    decreases |steps|
  {
    if steps != [] {
      var a := steps[0];
      StepKeepsLedger(w, a);
      if Releases(a) && !Harmless(w, a) {
        ReleaseIsExclusiveExactlyWhenHarmless(w, a);
        assert !AlwaysExclusive(Next(w, a), steps[1..]);
      } else {
        StepKeepsLeases(w, a);
        ExclusiveThroughout(Next(w, a), steps[1..]);
      }
    }
  }

  /** A run is exclusive all the way if and only if every release in it is harmless. */
  lemma RunIsExclusiveExactlyWhen(max: nat, idleTimeout: Time, steps: seq<Step>)
    requires IsRun(Initial(max, idleTimeout), steps)
    ensures AlwaysExclusive(Initial(max, idleTimeout), steps) <==> AllReleasesHarmless(Initial(max, idleTimeout), steps)
  {
    var w := Initial(max, idleTimeout);
    EmptyLedger(w);
    assert Leases(w);
    ExclusiveThroughout(w, steps);
  }

  /** No handle was released before its drop, and no two share a lease. */
  ghost predicate OneHandleEach(w: World) {
    && (forall c :: c in w.calls ==> !w.calls[c].Released?)
    && (forall c, d :: c in w.calls && d in w.calls && w.calls[c].Holding? && w.calls[d].Holding? && c != d
          ==> w.calls[c].lease != w.calls[d].lease)
  }

  lemma OnlyHandleIsHarmless(w: World, a: Step)
    requires Ledger(w) && Leases(w) && OneHandleEach(w) && a.Drop? && Enabled(w, a)
    ensures Harmless(w, a)
  {
    var p := w.calls[a.c];
    assert Retired(w, a.c);
    forall d | d != a.c && p.Holding?
      ensures !Holds(w, d, p.url, p.id)
    {
      assert Separate(w, a.c, d);
    }
  }

  lemma OneHandleEachStays(w: World, a: Step)
    requires Ledger(w) && Leases(w) && OneHandleEach(w) && Enabled(w, a) && !a.ReleaseHandle? && !a.Clone?
    ensures OneHandleEach(Next(w, a))
  {
    forall c | c in w.calls && w.calls[c].Holding?
      ensures w.calls[c].lease < w.leases
    {
      assert Retired(w, c);
    }
  }

  lemma {:induction false} UnsharedHandlesAreHarmless(w: World, steps: seq<Step>)
    requires Ledger(w) && Leases(w) && IsRun(w, steps) && OneHandleEach(w)
    requires forall i :: 0 <= i < |steps| ==> !steps[i].ReleaseHandle? && !steps[i].Clone?
    ensures AllReleasesHarmless(w, steps) && OneHandleEach(After(w, steps))
    decreases |steps|
  {
    if steps != [] {
      var a := steps[0];
      assert !a.ReleaseHandle? && !a.Clone?;
      if a.Drop? {
        OnlyHandleIsHarmless(w, a);
      }
      StepKeepsLedger(w, a);
      StepKeepsLeases(w, a);
      OneHandleEachStays(w, a);
      UnsharedHandlesAreHarmless(Next(w, a), steps[1..]);
    }
  }

  /** Handles that are never cloned and only dropped or closed are exclusive in every interleaving, across
      `close_all` too: no connection has two live holders, and none that is held is on offer. */
  lemma DroppedOrClosedHandlesAreExclusive(max: nat, idleTimeout: Time, steps: seq<Step>)
    requires IsRun(Initial(max, idleTimeout), steps)
    requires forall i :: 0 <= i < |steps| ==> !steps[i].ReleaseHandle? && !steps[i].Clone?
    ensures Exclusive(After(Initial(max, idleTimeout), steps)) && OneHandleEach(After(Initial(max, idleTimeout), steps))
  {
    var w := Initial(max, idleTimeout);
    EmptyLedger(w);
    assert Leases(w);
    UnsharedHandlesAreHarmless(w, steps);
    RunKeepsLeases(w, steps);
  }

  // ---------------------------------------------------------------- the double release

  lemma PrependStep(w: World, a: Step, steps: seq<Step>)
    requires Enabled(w, a) && IsRun(Next(w, a), steps)
    ensures IsRun(w, [a] + steps) && After(w, [a] + steps) == After(Next(w, a), steps)
  {
    assert ([a] + steps)[1..] == steps;
  }

  lemma PrependTwo(w: World, a: Step, b: Step, steps: seq<Step>) returns (more: seq<Step>)
    requires Enabled(w, a) && Enabled(Next(w, a), b) && IsRun(Next(Next(w, a), b), steps)
    ensures IsRun(w, more) && After(w, more) == After(Next(Next(w, a), b), steps)
  {
    PrependStep(Next(w, a), b, steps);
    PrependStep(w, a, [b] + steps);
    more := [a] + ([b] + steps);
  }

  /** The pool of `u` holds connection 0 alone, lent or free. */
  ghost predicate Alone(w: World, u: Url, lent: bool) {
    && u in w.pools && w.max >= 1
    && (if lent then w.pools[u].available == [] && |w.pools[u].inUse| == 1 && w.pools[u].inUse[0].id == 0
        else w.pools[u].inUse == [] && |w.pools[u].available| == 1 && w.pools[u].available[0].id == 0)
  }

  lemma ReleaseAlone(w: World, u: Url)
    requires Alone(w, u, true)
    ensures Alone(PoolRelease(w, u, 0, {0}, 0), u, false)
  {
    assert Position(w.pools[u].inUse, 0) == Some(0);
  }

  lemma GetAlone(w: World, c: CallId, u: Url)
    requires Alone(w, u, false) && c !in w.calls
    ensures Alone(Next(w, Get(c, u, {0}, 0)), u, true)
    ensures Next(w, Get(c, u, {0}, 0)).calls == w.calls[c := Holding(u, 0, w.leases)]
    ensures Next(w, Get(c, u, {0}, 0)).leases == w.leases + 1
  {
  }

  /** A connection is made and its handle kept by call 0. */
  lemma FirstHandle(max: nat, idleTimeout: Time, u: Url) returns (a: Step, b: Step, w: World)
    requires max >= 1
    ensures Enabled(Initial(max, idleTimeout), a) && Enabled(Next(Initial(max, idleTimeout), a), b)
    ensures w == Next(Next(Initial(max, idleTimeout), a), b)
    ensures Alone(w, u, true) && w.calls == map[0 := Holding(u, 0, 0)] && w.leases == 1
  {
    a, b := Get(0, u, {}, 0), Connected(0, 0, 0);
    w := Next(Next(Initial(max, idleTimeout), a), b);
  }

  /** Call 0 drops its handle while call 1 has one for the same connection, and call 2 comes in. */
  lemma DropThenGet(w: World, u: Url) returns (d: Step, e: Step)
    requires Alone(w, u, true) && w.calls.Keys == {0, 1} && Holds(w, 1, u, 0) && w.calls[1].lease < w.leases
    requires w.calls[0] == Released(u, 0) || Holds(w, 0, u, 0)
    ensures Enabled(w, d) && Enabled(Next(w, d), e)
    ensures
      var w' := Next(Next(w, d), e);
      Holds(w', 1, u, 0) && Holds(w', 2, u, 0) && !Separate(w', 1, 2)
  {
    d, e := Drop(0, {0}, 0), Get(2, u, {0}, 0);
    ReleaseAlone(w, u);
    GetAlone(Next(w, d), 2, u);
  }

  /** `release` lets another caller have the connection; the drop then takes it from that caller and
      puts it back on offer; the next caller shares it. */
  lemma ReleasedThenDropped(max: nat, idleTimeout: Time, u: Url) returns (steps: seq<Step>)
    requires max >= 1
    ensures IsRun(Initial(max, idleTimeout), steps)
    ensures
      var w := After(Initial(max, idleTimeout), steps);
      Holds(w, 1, u, 0) && Holds(w, 2, u, 0) && !Separate(w, 1, 2)
  {
    var a, b, w := FirstHandle(max, idleTimeout, u);
    var c, d := ReleaseHandle(0, {0}, 0), Get(1, u, {0}, 0);
    ReleaseAlone(w, u);
    GetAlone(Next(w, c), 1, u);
    var w' := Next(Next(w, c), d);
    assert w'.calls == map[0 := Released(u, 0), 1 := Holding(u, 0, 1)];
    var e, f := DropThenGet(w', u);
    var last := PrependTwo(w', e, f, []);
    var more := PrependTwo(w, c, d, last);
    steps := PrependTwo(Initial(max, idleTimeout), a, b, more);
  }

  /** Without any explicit release: a handle is cloned, one of the two is dropped, and the next caller shares
      the connection with the other. */
  lemma ClonedThenDropped(max: nat, idleTimeout: Time, u: Url) returns (steps: seq<Step>)
    requires max >= 1
    ensures IsRun(Initial(max, idleTimeout), steps)
    ensures
      var w := After(Initial(max, idleTimeout), steps);
      Holds(w, 1, u, 0) && Holds(w, 2, u, 0) && !Separate(w, 1, 2)
  {
    var a, b, w := FirstHandle(max, idleTimeout, u);
    var c := Clone(0, 1);
    var w' := Next(w, c);
    assert w'.calls == map[0 := Holding(u, 0, 0), 1 := Holding(u, 0, 0)];
    var d, e := DropThenGet(w', u);
    var last := PrependTwo(w', d, e, []);
    PrependStep(w, c, last);
    steps := PrependTwo(Initial(max, idleTimeout), a, b, [c] + last);
  }
}
