/**
 Callers that were told to wait. They watch the free list only: room for a new connection, made while they
 wait, does not reach them.
 */
module PoolWaiting {
  import opened PoolModel
  import opened PoolRuns
  import opened PoolLeases

  /** No step of anyone takes a waiting caller to connecting. */
  lemma WaitersNeverConnect(w: World, a: Step, c: CallId)
    requires Enabled(w, a) && c in w.calls && w.calls[c].Waiting?
    ensures
      var w' := Next(w, a);
      c in w'.calls ==> w'.calls[c] == w.calls[c] || (w'.calls[c].Holding? && w'.calls[c].url == w.calls[c].url)
  {
  }

  /** As long as call `c` lasts, at some point of the run it is connecting. */
  predicate ConnectsDuring(w: World, steps: seq<Step>, c: CallId)
    requires IsRun(w, steps)
    decreases |steps|
  {
    && c in w.calls
    && (w.calls[c].Connecting? || (steps != [] && ConnectsDuring(Next(w, steps[0]), steps[1..], c)))
  }

  lemma {:induction false} NeverConnectsLater(w: World, steps: seq<Step>, c: CallId)
    requires IsRun(w, steps) && (c in w.calls ==> !w.calls[c].Connecting?)
    ensures !ConnectsDuring(w, steps, c)
    decreases |steps|
  {
    if steps != [] && c in w.calls {
      NeverConnectsLater(Next(w, steps[0]), steps[1..], c);
    }
  }

  /** What the first look must find: nothing yet for this server; or no free connection that is healthy where it
      looks, and room once an unhealthy one there is thrown away. */
  predicate MayConnect(w: World, u: Url, healthy: set<Id>) {
    u in w.pools ==>
      var free, total := w.pools[u].available, w.pools[u].Total();
      if free == [] then total < w.max else free[|free| - 1].id !in healthy && total - 1 < w.max
  }

  /** A call ever connects exactly when its first look finds that; what happens afterwards makes no difference. */
  lemma CallConnectsExactlyWhen(w: World, a: Step, steps: seq<Step>)
    requires a.Get? && Enabled(w, a) && IsRun(Next(w, a), steps)
    ensures ConnectsDuring(Next(w, a), steps, a.c) <==> MayConnect(w, a.url, a.healthy)
  {
    if !MayConnect(w, a.url, a.healthy) {
      NeverConnectsLater(Next(w, a), steps, a.c);
    }
  }

  /** Nothing is there for `u`, a caller waits, and looking will not help it, though any newcomer may connect. */
  ghost predicate Stranded(w: World, c: CallId, u: Url) {
    && c in w.calls && w.calls[c] == Waiting(u)
    && TotalAt(w, u) == 0 && w.max >= 1
    && (forall healthy, at :: Next(w, Look(c, healthy, at)) == w)
    && (forall d, healthy, at :: d !in w.calls ==> Next(w, Get(d, u, healthy, at)).calls[d] == Connecting(u))
  }

  lemma EmptyPoolStrands(w: World, c: CallId, u: Url)
    requires c in w.calls && w.calls[c] == Waiting(u) && w.max >= 1 && u in w.pools
    requires w.pools[u].available == [] && w.pools[u].inUse == []
    ensures Stranded(w, c, u)
  {
    forall healthy, at
      ensures Next(w, Look(c, healthy, at)) == w
    {
      assert w.pools[u := w.pools[u]] == w.pools;
    }
  }

  /** One connection allowed and lent out, a second caller told to wait, the first one closed: the second waits
      on an empty pool until it times out. */
  lemma WaitsOnEmptyPool(idleTimeout: Time, u: Url) returns (steps: seq<Step>)
    ensures IsRun(Initial(1, idleTimeout), steps)
    ensures Stranded(After(Initial(1, idleTimeout), steps), 1, u)
  {
    var a, b, c, d := Get(0, u, {}, 0), Connected(0, 0, 0), Get(1, u, {}, 0), CloseHandle(0);
    var w0 := Initial(1, idleTimeout);
    var w1 := Next(w0, a);
    var w2 := Next(w1, b);
    assert Alone(w2, u, true) && w2.calls == map[0 := Holding(u, 0, 0)];
    var w3 := Next(w2, c);
    assert w3.calls == map[0 := Holding(u, 0, 0), 1 := Waiting(u)] && Alone(w3, u, true);
    var w4 := Next(w3, d);
    assert w4.pools[u].available == [] && w4.pools[u].inUse == [];
    EmptyPoolStrands(w4, 1, u);
    var more := PrependTwo(w2, c, d, []);
    steps := PrependTwo(w0, a, b, more);
  }
}
