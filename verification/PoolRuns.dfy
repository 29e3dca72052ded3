/**
 The connection pool of src/pool.rs under concurrency: every critical section is one step, a connect
 in progress is part of the state, and any number of calls interleave.

 A call of `get_with_config` keeps its identity from the first look to the last use of its handle.
 A handle goes away by `Drop`, which releases; explicit `release` and `close` act first and the drop
 of the same handle, which releases again, comes later. A clone of a handle is a handle too, and its
 drop releases as well.
 */
module PoolRuns {
  import opened Wrappers
  import opened PoolModel

  datatype Url = Url(address: string)

  type CallId = nat

  datatype Phase =
    | Connecting(url: Url)                   // was told it may create, the connect is under way
    | Waiting(url: Url)                      // in the waiting loop
    | Holding(url: Url, id: Id, lease: nat)  // has a handle; its clones have the same lease
    | Released(url: Url, id: Id)             // the handle was released and is still to be dropped
    | Closed(url: Url, id: Id)               // the handle was closed and is still to be dropped

  datatype World = World(max: nat, idleTimeout: Time, pools: map<Url, Server>,
                         calls: map<CallId, Phase>, used: set<Id>, leases: nat)

  datatype Step =
    | Get(c: CallId, url: Url, healthy: set<Id>, at: Time)
    | Connected(c: CallId, id: Id, at: Time)
    | ConnectFailed(c: CallId)
    | Look(c: CallId, healthy: set<Id>, at: Time)
    | GiveUp(c: CallId)
    | Clone(c: CallId, copy: CallId)
    | ReleaseHandle(c: CallId, healthy: set<Id>, at: Time)
    | CloseHandle(c: CallId)
    | Drop(c: CallId, healthy: set<Id>, at: Time)
    | Sweep(healthy: set<Id>, at: Time)
    | CloseAll

  predicate Enabled(w: World, a: Step) {
    match a
    case Get(c, _, _, _) => c !in w.calls
    case Connected(c, id, _) => c in w.calls && w.calls[c].Connecting? && id !in w.used
    case ConnectFailed(c) => c in w.calls && w.calls[c].Connecting?
    case Look(c, _, _) => c in w.calls && w.calls[c].Waiting?
    case GiveUp(c) => c in w.calls && w.calls[c].Waiting?
    case Clone(c, copy) => c in w.calls && w.calls[c].Holding? && copy !in w.calls
    case ReleaseHandle(c, _, _) => c in w.calls && w.calls[c].Holding?
    case CloseHandle(c) => c in w.calls && w.calls[c].Holding?
    case Drop(c, _, _) => c in w.calls && (w.calls[c].Holding? || w.calls[c].Released? || w.calls[c].Closed?)
    case Sweep(_, _) => true
    case CloseAll => true
  }

  function Enter(w: World, c: CallId, p: Phase): World {
    w.(calls := w.calls[c := p])
  }

  function Leave(w: World, c: CallId): World {
    w.(calls := w.calls - {c})
  }

  /** Call `c` gets a handle under a lease of its own. */
  function Grant(w: World, c: CallId, u: Url, id: Id): World {
    Enter(w, c, Holding(u, id, w.leases)).(leases := w.leases + 1)
  }

  function SetPool(w: World, u: Url, sv: Server): World {
    w.(pools := w.pools[u := sv])
  }

  /** `release` of the pool, whoever calls it. */
  function PoolRelease(w: World, u: Url, id: Id, healthy: set<Id>, at: Time): World {
    if u in w.pools then SetPool(w, u, Release(w.pools[u], id, w.max, healthy, at)) else w
  }

  function PoolClose(w: World, u: Url, id: Id): World {
    if u in w.pools then SetPool(w, u, Close(w.pools[u], id)) else w
  }

  function Next(w: World, a: Step): World
    requires Enabled(w, a)
  {
    match a
    case Get(c, u, healthy, at) =>
      if u in w.pools then
        var (sv, l) := GetExisting(w.pools[u], w.max, healthy, at);
        match l {
          case Hit(id) => Grant(SetPool(w, u, sv), c, u, id)
          case MayCreate => Enter(SetPool(w, u, sv), c, Connecting(u))
          case MustWait => Enter(SetPool(w, u, sv), c, Waiting(u))
        }
      else Enter(w, c, Connecting(u))
    case Connected(c, id, at) =>
      var u := w.calls[c].url;
      var sv := if u in w.pools then w.pools[u] else EMPTY_SERVER;
      Grant(SetPool(w, u, InsertNew(sv, id, at)).(used := w.used + {id}), c, u, id)
    case ConnectFailed(c) => Leave(w, c)
    case Look(c, healthy, at) =>
      var u := w.calls[c].url;
      if u in w.pools then
        var (sv, hit) := Poll(w.pools[u], healthy, at);
        if hit.Some? then Grant(SetPool(w, u, sv), c, u, hit.value) else SetPool(w, u, sv)
      else w
    case GiveUp(c) => Leave(w, c)
    case Clone(c, copy) => Enter(w, copy, w.calls[c])
    case ReleaseHandle(c, healthy, at) =>
      var Holding(u, id, _) := w.calls[c];
      Enter(PoolRelease(w, u, id, healthy, at), c, Released(u, id))
    case CloseHandle(c) =>
      var Holding(u, id, _) := w.calls[c];
      Enter(PoolClose(w, u, id), c, Closed(u, id))
    case Drop(c, healthy, at) =>
      Leave(PoolRelease(w, w.calls[c].url, w.calls[c].id, healthy, at), c)
    case Sweep(healthy, at) =>
      w.(pools := map u | u in w.pools :: Cleanup(w.pools[u], w.idleTimeout, at, healthy))
    case CloseAll => w.(pools := map[])
  }

  function Initial(max: nat, idleTimeout: Time): World {
    World(max, idleTimeout, map[], map[], {}, 0)
  }

  predicate IsRun(w: World, steps: seq<Step>)
    decreases |steps|
  {
    steps == [] || (Enabled(w, steps[0]) && IsRun(Next(w, steps[0]), steps[1..]))
  }

  function After(w: World, steps: seq<Step>): World
    requires IsRun(w, steps)
    decreases |steps|
  {
    if steps == [] then w else After(Next(w, steps[0]), steps[1..])
  }

  // ---------------------------------------------------------------- the ledger

  function FreeAt(w: World, u: Url): set<Id> {
    if u in w.pools then w.pools[u].Free() else {}
  }

  function TakenAt(w: World, u: Url): set<Id> {
    if u in w.pools then w.pools[u].Taken() else {}
  }

  function TotalAt(w: World, u: Url): nat {
    if u in w.pools then w.pools[u].Total() else 0
  }

  ghost predicate Sound(w: World, u: Url) {
    u in w.pools ==> w.pools[u].WellFormed()
  }

  ghost predicate Within(w: World, u: Url) {
    FreeAt(w, u) + TakenAt(w, u) <= w.used
  }

  ghost predicate Apart(w: World, u: Url, v: Url) {
    u != v ==> (FreeAt(w, u) + TakenAt(w, u)) !! (FreeAt(w, v) + TakenAt(w, v))
  }

  ghost predicate AllSound(w: World) {
    forall u :: Sound(w, u)
  }

  /** No identifier occurs in two pools, and all of them have been used. */
  ghost predicate AllApart(w: World) {
    && (forall u :: Within(w, u))
    && (forall u, v :: Apart(w, u, v))
  }

  ghost predicate Ledger(w: World) {
    AllSound(w) && AllApart(w)
  }

  ghost predicate Same(w: World, w': World, u: Url) {
    (u in w.pools <==> u in w'.pools) && (u in w.pools ==> w'.pools[u] == w.pools[u])
  }

  /** Only the pool of `u` changed, and it has no connection it had not before, but perhaps a fresh one. */
  ghost predicate Evolves(w: World, w': World, u: Url) {
    && w.used <= w'.used
    && (forall v :: v != u ==> Same(w, w', v))
    && FreeAt(w', u) + TakenAt(w', u) <= FreeAt(w, u) + TakenAt(w, u) + (w'.used - w.used)
  }

  lemma EvolvedApart(w: World, w': World, u: Url, x: Url, y: Url)
    requires Evolves(w, w', u) && Apart(w, x, y) && Within(w, x) && Within(w, y)
    ensures Apart(w', x, y)
  {
    assert x != u ==> Same(w, w', x);
    assert y != u ==> Same(w, w', y);
  }

  lemma EvolvingKeepsApart(w: World, w': World, u: Url)
    requires AllApart(w) && Evolves(w, w', u)
    ensures AllApart(w')
  {
    assert Within(w, u);
    forall v
      ensures Within(w', v)
    {
      assert Within(w, v);
      assert v != u ==> Same(w, w', v);
    }
    forall x, y
      ensures Apart(w', x, y)
    {
      assert Apart(w, x, y) && Within(w, x) && Within(w, y);
      EvolvedApart(w, w', u, x, y);
    }
  }

  lemma EvolvingKeepsSound(w: World, w': World, u: Url)
    requires AllSound(w) && Evolves(w, w', u) && Sound(w', u)
    ensures AllSound(w')
  {
    forall v
      ensures Sound(w', v)
    {
      if v != u {
        assert Same(w, w', v) && Sound(w, v);
      }
    }
  }

  lemma SetPoolKeepsLedger(w: World, w': World, u: Url, sv: Server)
    requires Ledger(w) && u in w.pools && w'.pools == w.pools[u := sv] && w'.used == w.used
    requires sv.WellFormed() && sv.Free() + sv.Taken() <= FreeAt(w, u) + TakenAt(w, u)
    ensures Ledger(w')
  {
    EvolvingKeepsApart(w, w', u);
    EvolvingKeepsSound(w, w', u);
  }

  lemma GetKeepsLedger(w: World, a: Step)
    requires Ledger(w) && a.Get? && Enabled(w, a)
    ensures Ledger(Next(w, a))
  {
    var u := a.url;
    assert Sound(w, u);
    if u in w.pools {
      GetExistingMoves(w.pools[u], w.max, a.healthy, a.at);
      SetPoolKeepsLedger(w, Next(w, a), u, GetExisting(w.pools[u], w.max, a.healthy, a.at).0);
    } else {
      CallsDoNotMatter(w, Next(w, a).calls);
    }
  }

  lemma LookKeepsLedger(w: World, a: Step)
    requires Ledger(w) && a.Look? && Enabled(w, a)
    ensures Ledger(Next(w, a))
  {
    var u := w.calls[a.c].url;
    assert Sound(w, u);
    if u in w.pools {
      PollMoves(w.pools[u], a.healthy, a.at);
      SetPoolKeepsLedger(w, Next(w, a), u, Poll(w.pools[u], a.healthy, a.at).0);
    }
  }

  lemma FirstConnection(id: Id, at: Time)
    ensures
      var sv := InsertNew(EMPTY_SERVER, id, at);
      sv.WellFormed() && sv.Free() == {} && sv.Taken() == {id} && sv.Total() == 1
  {
    var sv := InsertNew(EMPTY_SERVER, id, at);
    var conn := PooledConnection(id, at, at, true);
    assert sv.inUse == [conn];
    assert sv.available + sv.inUse == [conn];
  }

  lemma ConnectedKeepsLedger(w: World, a: Step)
    requires Ledger(w) && a.Connected? && Enabled(w, a)
    ensures Ledger(Next(w, a))
  {
    var u, w' := w.calls[a.c].url, Next(w, a);
    assert Sound(w, u) && Within(w, u);
    if u in w.pools {
      InsertNewMoves(w.pools[u], a.id, a.at);
    } else {
      FirstConnection(a.id, a.at);
    }
    EvolvingKeepsApart(w, w', u);
    EvolvingKeepsSound(w, w', u);
  }

  lemma ReleasingKeepsLedger(w: World, u: Url, id: Id, healthy: set<Id>, at: Time, calls: map<CallId, Phase>)
    requires Ledger(w)
    ensures Ledger(PoolRelease(w, u, id, healthy, at).(calls := calls))
  {
    assert Sound(w, u);
    if u in w.pools {
      ReleaseMoves(w.pools[u], id, w.max, healthy, at);
      SetPoolKeepsLedger(w, PoolRelease(w, u, id, healthy, at).(calls := calls), u,
                         Release(w.pools[u], id, w.max, healthy, at));
    } else {
      CallsDoNotMatter(w, calls);
    }
  }

  lemma ClosingKeepsLedger(w: World, u: Url, id: Id, calls: map<CallId, Phase>)
    requires Ledger(w)
    ensures Ledger(PoolClose(w, u, id).(calls := calls))
  {
    assert Sound(w, u);
    if u in w.pools {
      CloseMoves(w.pools[u], id);
      SetPoolKeepsLedger(w, PoolClose(w, u, id).(calls := calls), u, Close(w.pools[u], id));
    } else {
      CallsDoNotMatter(w, calls);
    }
  }

  lemma SweptPool(w: World, a: Step, u: Url)
    requires a.Sweep? && Sound(w, u)
    ensures Sound(Next(w, a), u)
    ensures FreeAt(Next(w, a), u) <= FreeAt(w, u) && TakenAt(Next(w, a), u) == TakenAt(w, u)
    ensures TotalAt(Next(w, a), u) <= TotalAt(w, u)
  {
    if u in w.pools {
      CleanupMoves(w.pools[u], w.idleTimeout, a.at, a.healthy);
    }
  }

  lemma ShrinkingKeepsApart(w: World, w': World)
    requires AllApart(w) && w'.used == w.used
    requires forall u :: FreeAt(w', u) + TakenAt(w', u) <= FreeAt(w, u) + TakenAt(w, u)
    ensures AllApart(w')
  {
    forall u
      ensures Within(w', u)
    {
      assert Within(w, u);
    }
    forall u, v
      ensures Apart(w', u, v)
    {
      assert Apart(w, u, v);
      assert FreeAt(w', u) + TakenAt(w', u) <= FreeAt(w, u) + TakenAt(w, u);
      assert FreeAt(w', v) + TakenAt(w', v) <= FreeAt(w, v) + TakenAt(w, v);
    }
  }

  lemma SweepKeepsLedger(w: World, a: Step)
    requires Ledger(w) && a.Sweep?
    ensures Ledger(Next(w, a))
  {
    forall u
      ensures Sound(Next(w, a), u)
      ensures FreeAt(Next(w, a), u) + TakenAt(Next(w, a), u) <= FreeAt(w, u) + TakenAt(w, u)
    {
      assert Sound(w, u);
      SweptPool(w, a, u);
    }
    ShrinkingKeepsApart(w, Next(w, a));
  }

  lemma CallsDoNotMatter(w: World, calls: map<CallId, Phase>)
    requires Ledger(w)
    ensures Ledger(w.(calls := calls))
  {
    var w' := w.(calls := calls);
    forall u
      ensures Sound(w', u)
    {
      assert Sound(w, u);
    }
    ShrinkingKeepsApart(w, w');
  }

  lemma EmptyLedger(w: World)
    requires w.pools == map[]
    ensures Ledger(w)
  {
  }

  lemma StepKeepsLedger(w: World, a: Step)
    requires Ledger(w) && Enabled(w, a)
    ensures Ledger(Next(w, a))
  {
    match a
    case Get(_, _, _, _) => GetKeepsLedger(w, a);
    case Connected(_, _, _) => ConnectedKeepsLedger(w, a);
    case ConnectFailed(c) => CallsDoNotMatter(w, w.calls - {c});
    case Look(_, _, _) => LookKeepsLedger(w, a);
    case GiveUp(c) => CallsDoNotMatter(w, w.calls - {c});
    case Clone(_, _) => CallsDoNotMatter(w, Next(w, a).calls);
    case ReleaseHandle(c, healthy, at) =>
      ReleasingKeepsLedger(w, w.calls[c].url, w.calls[c].id, healthy, at, Next(w, a).calls);
    case CloseHandle(c) => ClosingKeepsLedger(w, w.calls[c].url, w.calls[c].id, Next(w, a).calls);
    case Drop(c, healthy, at) =>
      ReleasingKeepsLedger(w, w.calls[c].url, w.calls[c].id, healthy, at, Next(w, a).calls);
    case Sweep(_, _) => SweepKeepsLedger(w, a);
    case CloseAll => EmptyLedger(Next(w, a));
  }

  /** In every reachable state: flags match lists, identifiers are distinct, acquired = released +
      in use + closed while in use, and created = connections there + swept + dropped while waiting,
      so that no subtraction was ever clamped. */
  lemma {:induction false} LedgerBalances(w: World, steps: seq<Step>)
    requires Ledger(w) && IsRun(w, steps)
    ensures Ledger(After(w, steps)) && After(w, steps).max == w.max
    decreases |steps|
  {
    if steps != [] {
      StepKeepsLedger(w, steps[0]);
      LedgerBalances(Next(w, steps[0]), steps[1..]);
    }
  }
}
