/**
 How large a pool can get. The semaphore of `ServerPool` is never acquired, so what limits a pool is the
 check made before connecting, and connects that overlap can pass it together.
 */
module PoolSize {
  import opened Collections
  import opened PoolModel
  import opened PoolRuns

  function ConnectingTo(w: World, u: Url): set<CallId> {
    set c | c in w.calls && w.calls[c] == Connecting(u)
  }

  /** Along the whole run, no more than `k` connects to `u` are under way together. */
  ghost predicate AtMostConnecting(w: World, steps: seq<Step>, u: Url, k: nat)
    requires IsRun(w, steps)
    decreases |steps|
  {
    && |ConnectingTo(w, u)| <= k
    && (steps == [] || AtMostConnecting(Next(w, steps[0]), steps[1..], u, k))
  }

  ghost predicate Bounded(w: World, u: Url, k: nat) {
    TotalAt(w, u) + |ConnectingTo(w, u)| <= w.max + k - 1
  }

  /** Whatever a step does to the pool of `u`, the total grows only with a finished connect. */
  lemma TotalGrowsOnlyByConnecting(w: World, a: Step, u: Url)
    requires Ledger(w) && Enabled(w, a)
    ensures TotalAt(Next(w, a), u)
         <= TotalAt(w, u) + if a.Connected? && w.calls[a.c].url == u then 1 else 0
    ensures a.Get? && a.url == u && Next(w, a).calls[a.c].Connecting? && u in w.pools
            ==> TotalAt(Next(w, a), u) < w.max
    ensures a.Get? && u !in w.pools ==> TotalAt(Next(w, a), u) == 0
  {
    assert Sound(w, u);
    match a
    case Get(_, v, healthy, at) =>
      if u == v && u in w.pools {
        GetExistingMoves(w.pools[u], w.max, healthy, at);
      }
    case Connected(c, id, at) =>
      if u == w.calls[c].url && u in w.pools {
        assert Within(w, u);
        InsertNewMoves(w.pools[u], id, at);
      } else {
        FirstConnection(id, at);
      }
    case Look(c, healthy, at) =>
      if u == w.calls[c].url && u in w.pools {
        PollMoves(w.pools[u], healthy, at);
      }
    case ReleaseHandle(c, healthy, at) => ReleaseTotal(w, w.calls[c].url, w.calls[c].id, healthy, at, u);
    case Drop(c, healthy, at) => ReleaseTotal(w, w.calls[c].url, w.calls[c].id, healthy, at, u);
    case CloseHandle(c) =>
      if u == w.calls[c].url && u in w.pools {
        CloseMoves(w.pools[u], w.calls[c].id);
      }
    case Sweep(_, _) => SweptPool(w, a, u);
    case _ =>
  }

  lemma ReleaseTotal(w: World, v: Url, id: Id, healthy: set<Id>, at: Time, u: Url)
    requires Sound(w, u)
    ensures TotalAt(PoolRelease(w, v, id, healthy, at), u) <= TotalAt(w, u)
  {
    if u == v && u in w.pools {
      ReleaseMoves(w.pools[u], id, w.max, healthy, at);
    }
  }

  lemma ConnectingChanges(w: World, a: Step, u: Url)
    requires Enabled(w, a)
    ensures
      if a.Connected? && w.calls[a.c].url == u then
        |ConnectingTo(Next(w, a), u)| == |ConnectingTo(w, u)| - 1
      else if a.Get? && Next(w, a).calls[a.c] == Connecting(u) then true
      else |ConnectingTo(Next(w, a), u)| <= |ConnectingTo(w, u)|
  {
    var before, after := ConnectingTo(w, u), ConnectingTo(Next(w, a), u);
    if a.Connected? && w.calls[a.c].url == u {
      assert a.c in before && after == before - {a.c};
    } else if a.Get? && Next(w, a).calls[a.c] == Connecting(u) {
    } else {
      assert after <= before;
      SubsetSize(after, before);
    }
  }

  lemma StepStaysBounded(w: World, a: Step, u: Url, k: nat)
    requires Ledger(w) && Enabled(w, a) && w.max >= 1 && k >= 1
    requires Bounded(w, u, k) && |ConnectingTo(Next(w, a), u)| <= k
    ensures Bounded(Next(w, a), u, k)
  {
    TotalGrowsOnlyByConnecting(w, a, u);
    ConnectingChanges(w, a, u);
  }

  lemma {:induction false} RunStaysBounded(w: World, steps: seq<Step>, u: Url, k: nat)
    requires Ledger(w) && IsRun(w, steps) && w.max >= 1 && k >= 1
    requires Bounded(w, u, k) && AtMostConnecting(w, steps, u, k)
    ensures Bounded(After(w, steps), u, k) && After(w, steps).max == w.max
    decreases |steps|
  {
    if steps != [] {
      StepKeepsLedger(w, steps[0]);
      StepStaysBounded(w, steps[0], u, k);
      RunStaysBounded(Next(w, steps[0]), steps[1..], u, k);
    }
  }

  /** With at most `k` connects to one address under way together, the connections to it, counting
      those under way, never exceed `max + k - 1`, in any interleaving. */
  lemma PoolSizeIsBounded(max: nat, idleTimeout: Time, steps: seq<Step>, u: Url, k: nat)
    requires max >= 1 && k >= 1 && IsRun(Initial(max, idleTimeout), steps)
    requires AtMostConnecting(Initial(max, idleTimeout), steps, u, k)
    ensures
      var w := After(Initial(max, idleTimeout), steps);
      TotalAt(w, u) + |ConnectingTo(w, u)| <= max + k - 1
  {
    var w := Initial(max, idleTimeout);
    EmptyLedger(w);
    assert ConnectingTo(w, u) == {};
    RunStaysBounded(w, steps, u, k);
  }

  /** So connects that never overlap never exceed the maximum. */
  lemma SequentialConnectsRespectMax(max: nat, idleTimeout: Time, steps: seq<Step>, u: Url)
    requires max >= 1 && IsRun(Initial(max, idleTimeout), steps)
    requires AtMostConnecting(Initial(max, idleTimeout), steps, u, 1)
    ensures TotalAt(After(Initial(max, idleTimeout), steps), u) <= max
  {
    PoolSizeIsBounded(max, idleTimeout, steps, u, 1);
  }

  // ---------------------------------------------------------------- what releases undo

  function ReleaseEach(sv: Server, ids: seq<Id>, max: nat, healthy: set<Id>, now: Time): Server
    decreases |ids|
  {
    if ids == [] then sv else ReleaseEach(Release(sv, ids[0], max, healthy, now), ids[1..], max, healthy, now)
  }

  /** Releasing healthy connections brings an overshoot down to one above the maximum and no further. */
  lemma {:induction false} ReleasesLeaveOneTooMany(sv: Server, ids: seq<Id>, max: nat, healthy: set<Id>, now: Time)
    requires sv.WellFormed()
    requires forall i :: 0 <= i < |ids| ==> ids[i] in sv.Taken() && ids[i] in healthy
    requires forall i, j :: 0 <= i < j < |ids| ==> ids[i] != ids[j]
    ensures
      var sv' := ReleaseEach(sv, ids, max, healthy, now);
      && sv'.WellFormed()
      && sv'.Total() == if sv.Total() <= max + 1 then sv.Total()
                        else if sv.Total() - |ids| <= max + 1 then max + 1
                        else sv.Total() - |ids|
    decreases |ids|
  {
    if ids != [] {
      var rest := ids[1..];
      ReleaseMoves(sv, ids[0], max, healthy, now);
      assert forall i :: 0 <= i < |rest| ==> rest[i] == ids[i + 1];
      assert ids[0] in healthy;
      ReleasesLeaveOneTooMany(Release(sv, ids[0], max, healthy, now), rest, max, healthy, now);
    }
  }

  // ---------------------------------------------------------------- the bound is reached

  /** Everything to `u` is in use or being connected; `m` is above every call and identifier so far. */
  ghost predicate Busy(w: World, u: Url, total: nat, connecting: nat, m: nat) {
    && Ledger(w)
    && TotalAt(w, u) == total && (u in w.pools ==> w.pools[u].available == [])
    && |ConnectingTo(w, u)| == connecting
    && (forall c :: c in w.calls ==> c < m)
    && (forall id :: id in w.used ==> id < m)
  }

  lemma StartOne(w: World, u: Url, total: nat, connecting: nat, m: nat)
    requires Busy(w, u, total, connecting, m) && total < w.max
    ensures Enabled(w, Get(m, u, {}, 0))
    ensures Busy(Next(w, Get(m, u, {}, 0)), u, total, connecting + 1, m + 1)
    ensures Next(w, Get(m, u, {}, 0)).max == w.max
  {
    var a := Get(m, u, {}, 0);
    var w' := Next(w, a);
    StepKeepsLedger(w, a);
    assert w'.calls == w.calls[m := Connecting(u)];
    assert ConnectingTo(w', u) == ConnectingTo(w, u) + {m};
  }

  lemma FinishOne(w: World, u: Url, total: nat, connecting: nat, m: nat) returns (a: Step)
    requires Busy(w, u, total, connecting, m) && connecting > 0
    ensures Enabled(w, a)
    ensures Busy(Next(w, a), u, total + 1, connecting - 1, m + 1)
    ensures Next(w, a).max == w.max
  {
    assert ConnectingTo(w, u) != {};
    var c :| c in ConnectingTo(w, u);
    a := Connected(c, m, 0);
    var w' := Next(w, a);
    StepKeepsLedger(w, a);
    assert ConnectingTo(w', u) == ConnectingTo(w, u) - {c};
    assert Sound(w, u) && Within(w, u);
    FirstConnection(m, 0);
    if u in w.pools {
      InsertNewMoves(w.pools[u], m, 0);
    }
  }

  lemma RunCons(w: World, a: Step, steps: seq<Step>, u: Url, k: nat)
    requires Enabled(w, a) && IsRun(Next(w, a), steps)
    requires |ConnectingTo(w, u)| <= k && AtMostConnecting(Next(w, a), steps, u, k)
    ensures IsRun(w, [a] + steps) && AtMostConnecting(w, [a] + steps, u, k)
    ensures After(w, [a] + steps) == After(Next(w, a), steps)
  {
    assert ([a] + steps)[1..] == steps;
  }

  lemma {:induction false} FinishAll(w: World, u: Url, total: nat, connecting: nat, m: nat, k: nat)
    returns (steps: seq<Step>)
    requires Busy(w, u, total, connecting, m) && connecting <= k
    ensures IsRun(w, steps) && AtMostConnecting(w, steps, u, k)
    ensures TotalAt(After(w, steps), u) == total + connecting
    decreases connecting
  {
    if connecting == 0 {
      steps := [];
    } else {
      var a := FinishOne(w, u, total, connecting, m);
      var rest := FinishAll(Next(w, a), u, total + 1, connecting - 1, m + 1, k);
      RunCons(w, a, rest, u, k);
      steps := [a] + rest;
    }
  }

  lemma {:induction false} StartAll(w: World, u: Url, total: nat, connecting: nat, m: nat, k: nat)
    returns (steps: seq<Step>)
    requires Busy(w, u, total, connecting, m) && connecting <= k && total + 1 == w.max
    ensures IsRun(w, steps) && AtMostConnecting(w, steps, u, k)
    ensures TotalAt(After(w, steps), u) == total + k
    decreases k - connecting
  {
    if connecting == k {
      steps := FinishAll(w, u, total, connecting, m, k);
    } else {
      StartOne(w, u, total, connecting, m);
      var a := Get(m, u, {}, 0);
      var rest := StartAll(Next(w, a), u, total, connecting + 1, m + 1, k);
      RunCons(w, a, rest, u, k);
      steps := [a] + rest;
    }
  }

  lemma {:induction false} FillUp(w: World, u: Url, total: nat, m: nat, k: nat) returns (steps: seq<Step>)
    requires Busy(w, u, total, 0, m) && k >= 1 && total < w.max
    ensures IsRun(w, steps) && AtMostConnecting(w, steps, u, k)
    ensures TotalAt(After(w, steps), u) == w.max + k - 1
    decreases w.max - total
  {
    if total + 1 == w.max {
      steps := StartAll(w, u, total, 0, m, k);
    } else {
      StartOne(w, u, total, 0, m);
      var a := Get(m, u, {}, 0);
      var b := FinishOne(Next(w, a), u, total, 1, m + 1);
      var rest := FillUp(Next(Next(w, a), b), u, total + 1, m + 2, k);
      RunCons(Next(w, a), b, rest, u, k);
      RunCons(w, a, [b] + rest, u, k);
      steps := [a] + ([b] + rest);
    }
  }

  /** The bound is exact: for every maximum and every number of overlapping connects some run of plain
      gets and successful connects reaches it. */
  lemma PoolSizeBoundIsReached(max: nat, idleTimeout: Time, u: Url, k: nat) returns (steps: seq<Step>)
    requires max >= 1 && k >= 1
    ensures IsRun(Initial(max, idleTimeout), steps)
    ensures AtMostConnecting(Initial(max, idleTimeout), steps, u, k)
    ensures TotalAt(After(Initial(max, idleTimeout), steps), u) == max + k - 1
  {
    var w := Initial(max, idleTimeout);
    EmptyLedger(w);
    assert ConnectingTo(w, u) == {};
    steps := FillUp(w, u, 0, 0, k);
  }
}
