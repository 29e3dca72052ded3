/**
 What each critical section of src/pool.rs does to the connections kept for one server.

 Whether a connection is healthy is up to the network: `healthy` is the set of identifiers that
 answer yes at that moment.
 */
module PoolModel {
  import opened Wrappers

  type Id = nat

  type Time = nat

  datatype PooledConnection = PooledConnection(id: Id, lastUsed: Time, createdAt: Time, inUse: bool) {
    predicate IsIdle(timeout: Time, now: Time) {
      !inUse && now > lastUsed + timeout
    }

    predicate ShouldEvict(maxAge: Time, now: Time, healthy: set<Id>) {
      !inUse && (IsIdle(maxAge, now) || id !in healthy)
    }
  }

  /** The last three counters are not in the source: they say where connections went that its own
      counters do not follow. */
  datatype Server = Server(available: seq<PooledConnection>, inUse: seq<PooledConnection>,
                           totalCreated: nat, totalAcquired: nat, totalReleased: nat,
                           swept: nat,    // thrown away by a cleanup
                           dropped: nat,  // found unhealthy by the waiting loop
                           closed: nat)   // closed while in use
  {
    function Total(): nat {
      |available| + |inUse|
    }

    function Free(): set<Id> {
      IdsOf(available)
    }

    function Taken(): set<Id> {
      IdsOf(inUse)
    }

    /** No counter was ever clamped at zero: every connection created or acquired is accounted for. */
    ghost predicate Balanced() {
      && totalCreated == Total() + swept + dropped
      && totalAcquired == totalReleased + |inUse| + closed
    }

    /** Flags agree with the list a connection sits in, no identifier occurs twice, the books balance. */
    ghost predicate WellFormed() {
      && Balanced()
      && (forall i :: 0 <= i < |available| ==> !available[i].inUse)
      && (forall i :: 0 <= i < |inUse| ==> inUse[i].inUse)
      && NoRepeats(available + inUse)
    }
  }

  function IdsOf(cs: seq<PooledConnection>): set<Id> {
    set c | c in cs :: c.id
  }

  ghost predicate NoRepeats(cs: seq<PooledConnection>) {
    forall i, j :: 0 <= i < j < |cs| ==> cs[i].id != cs[j].id
  }

  const EMPTY_SERVER: Server := Server([], [], 0, 0, 0, 0, 0, 0)

  function SaturatingPred(n: nat): nat {
    if n == 0 then 0 else n - 1
  }

  /** The place of the first connection with this identifier. */
  function Position(cs: seq<PooledConnection>, id: Id): (p: Option<nat>)
    ensures p.Some? ==> p.value < |cs| && cs[p.value].id == id
    ensures p.Some? ==> forall i :: 0 <= i < p.value ==> cs[i].id != id
    ensures p.None? ==> forall i :: 0 <= i < |cs| ==> cs[i].id != id
  {
    if cs == [] then None
    else if cs[0].id == id then Some(0)
    else
      match Position(cs[1..], id)
      case None => None
      case Some(p) => Some(p + 1)
  }

  function Without(cs: seq<PooledConnection>, p: nat): seq<PooledConnection>
    requires p < |cs|
  {
    cs[..p] + cs[p + 1..]
  }

  /** How the first critical section of `get_with_config` ends. */
  datatype Lookup = Hit(id: Id) | MayCreate | MustWait

  function Lend(sv: Server, conn: PooledConnection, now: Time): Server {
    sv.(inUse := sv.inUse + [conn.(inUse := true, lastUsed := now)], totalAcquired := sv.totalAcquired + 1)
  }

  function GetExisting(sv: Server, max: nat, healthy: set<Id>, now: Time): (Server, Lookup) {
    if sv.available == [] then
      (sv, if sv.Total() < max then MayCreate else MustWait)
    else
      var n := |sv.available| - 1;
      var conn, rest := sv.available[n], sv.(available := sv.available[..n]);
      if conn.id in healthy then (Lend(rest, conn, now), Hit(conn.id))
      else
        var fewer := rest.(totalCreated := SaturatingPred(rest.totalCreated));
        (fewer, if fewer.Total() < max then MayCreate else MustWait)
  }

  /** The second critical section, after a successful connect. */
  function InsertNew(sv: Server, id: Id, now: Time): Server {
    sv.(inUse := sv.inUse + [PooledConnection(id, now, now, true)],
        totalCreated := sv.totalCreated + 1,
        totalAcquired := sv.totalAcquired + 1)
  }

  /** One look of the waiting loop. */
  function Poll(sv: Server, healthy: set<Id>, now: Time): (Server, Option<Id>) {
    if sv.available == [] then (sv, None)
    else
      var n := |sv.available| - 1;
      var conn, rest := sv.available[n], sv.(available := sv.available[..n]);
      if conn.id in healthy then (Lend(rest, conn, now), Some(conn.id))
      else (rest.(dropped := sv.dropped + 1), None)
  }

  /** A returned connection is kept if it is healthy and the others do not exceed the maximum. */
  predicate Keeps(sv: Server, id: Id, max: nat, healthy: set<Id>) {
    id in healthy && sv.Total() <= max + 1
  }

  function Release(sv: Server, id: Id, max: nat, healthy: set<Id>, now: Time): Server {
    match Position(sv.inUse, id)
    case None => sv
    case Some(p) =>
      var conn := sv.inUse[p].(inUse := false, lastUsed := now);
      var rest := sv.(inUse := Without(sv.inUse, p), totalReleased := sv.totalReleased + 1);
      if conn.id in healthy && rest.Total() <= max then rest.(available := rest.available + [conn])
      else rest.(totalCreated := SaturatingPred(rest.totalCreated))
  }

  function Close(sv: Server, id: Id): Server {
    match Position(sv.inUse, id)
    case Some(p) =>
      sv.(inUse := Without(sv.inUse, p), totalCreated := SaturatingPred(sv.totalCreated), closed := sv.closed + 1)
    case None =>
      match Position(sv.available, id)
      case Some(p) =>
        sv.(available := Without(sv.available, p), totalCreated := SaturatingPred(sv.totalCreated))
      case None => sv
  }

  function Retained(cs: seq<PooledConnection>, idleTimeout: Time, now: Time, healthy: set<Id>)
    : (kept: seq<PooledConnection>)
    ensures |kept| <= |cs|
  {
    if cs == [] then []
    else
      (if cs[0].ShouldEvict(idleTimeout, now, healthy) then [] else [cs[0]])
      + Retained(cs[1..], idleTimeout, now, healthy)
  }

  function Cleanup(sv: Server, idleTimeout: Time, now: Time, healthy: set<Id>): Server {
    var kept := Retained(sv.available, idleTimeout, now, healthy);
    sv.(available := kept, swept := sv.swept + (|sv.available| - |kept|))
  }

  // ---------------------------------------------------------------- what each section moves

  lemma IdsOfAppend(a: seq<PooledConnection>, b: seq<PooledConnection>)
    ensures IdsOf(a + b) == IdsOf(a) + IdsOf(b)
    ensures NoRepeats(a + b) <==> NoRepeats(a) && NoRepeats(b) && IdsOf(a) !! IdsOf(b)
  {
    var ab := a + b;
    forall c | c in a + b
      ensures c.id in IdsOf(a) + IdsOf(b)
    {
      assert c in a || c in b;
    }
    assert forall c :: c in a || c in b ==> c in ab;
    if NoRepeats(ab) {
      forall i, j | 0 <= i < j < |a|
        ensures a[i].id != a[j].id
      {
        assert ab[i].id != ab[j].id;
      }
      forall i, j | 0 <= i < j < |b|
        ensures b[i].id != b[j].id
      {
        assert ab[|a| + i].id != ab[|a| + j].id;
      }
      forall i, j | 0 <= i < |a| && 0 <= j < |b|
        ensures a[i].id != b[j].id
      {
        assert ab[i].id != ab[|a| + j].id;
      }
    }
    if NoRepeats(a) && NoRepeats(b) && IdsOf(a) !! IdsOf(b) {
      forall i, j | 0 <= i < j < |ab|
        ensures ab[i].id != ab[j].id
      {
        if i < |a| <= j {
          assert a[i].id in IdsOf(a) && b[j - |a|].id in IdsOf(b);
        } else if |a| <= i {
          assert b[i - |a|].id != b[j - |a|].id;
        }
      }
    }
  }

  lemma IdsOfSnoc(cs: seq<PooledConnection>, conn: PooledConnection)
    ensures IdsOf(cs + [conn]) == IdsOf(cs) + {conn.id}
    ensures NoRepeats(cs + [conn]) <==> NoRepeats(cs) && conn.id !in IdsOf(cs)
  {
    IdsOfAppend(cs, [conn]);
    assert IdsOf([conn]) == {conn.id};
  }

  lemma IdsOfLast(cs: seq<PooledConnection>)
    requires cs != [] && NoRepeats(cs)
    ensures
      var n := |cs| - 1;
      && cs[n].id in IdsOf(cs)
      && IdsOf(cs[..n]) == IdsOf(cs) - {cs[n].id} && NoRepeats(cs[..n])
  {
    var n := |cs| - 1;
    assert cs == cs[..n] + [cs[n]];
    IdsOfSnoc(cs[..n], cs[n]);
  }

  lemma IdsOfWithout(cs: seq<PooledConnection>, p: nat)
    requires p < |cs| && NoRepeats(cs)
    ensures cs[p].id in IdsOf(cs)
    ensures IdsOf(Without(cs, p)) == IdsOf(cs) - {cs[p].id} && NoRepeats(Without(cs, p))
  {
    var a, c, b := cs[..p], cs[p], cs[p + 1..];
    assert cs == (a + [c]) + b;
    IdsOfAppend(a + [c], b);
    IdsOfSnoc(a, c);
    IdsOfAppend(a, b);
    assert IdsOf(cs) == IdsOf(a) + {c.id} + IdsOf(b);
  }

  lemma {:induction false} PositionIsMembership(cs: seq<PooledConnection>, id: Id)
    ensures Position(cs, id).Some? <==> id in IdsOf(cs)
  {
    if cs != [] {
      PositionIsMembership(cs[1..], id);
      assert cs == [cs[0]] + cs[1..];
      IdsOfAppend([cs[0]], cs[1..]);
      assert IdsOf([cs[0]]) == {cs[0].id};
    }
  }

  lemma {:induction false} RetainedIds(cs: seq<PooledConnection>, idleTimeout: Time, now: Time, healthy: set<Id>)
    ensures IdsOf(Retained(cs, idleTimeout, now, healthy)) <= IdsOf(cs)
    ensures NoRepeats(cs) ==> NoRepeats(Retained(cs, idleTimeout, now, healthy))
  {
    if cs != [] {
      var rest := Retained(cs[1..], idleTimeout, now, healthy);
      RetainedIds(cs[1..], idleTimeout, now, healthy);
      assert cs == [cs[0]] + cs[1..];
      IdsOfAppend([cs[0]], cs[1..]);
      IdsOfAppend([cs[0]], rest);
    }
  }

  /** Cleanup keeps exactly the connections that need not go. */
  lemma {:induction false} RetainedMembers(cs: seq<PooledConnection>, idleTimeout: Time, now: Time,
                                           healthy: set<Id>, c: PooledConnection)
    ensures c in Retained(cs, idleTimeout, now, healthy) <==> c in cs && !c.ShouldEvict(idleTimeout, now, healthy)
  {
    if cs != [] {
      RetainedMembers(cs[1..], idleTimeout, now, healthy, c);
      assert c in cs <==> c == cs[0] || c in cs[1..];
    }
  }

  /** `id` goes from the free list to the one in use. */
  ghost predicate Lends(sv: Server, sv': Server, id: Id) {
    && id in sv.Free()
    && sv'.Free() == sv.Free() - {id}
    && sv'.Taken() == sv.Taken() + {id}
    && sv'.Total() == sv.Total()
  }

  /** A connection may be thrown off the free list. */
  ghost predicate Shrinks(sv: Server, sv': Server) {
    && sv'.Free() <= sv.Free()
    && sv'.Taken() == sv.Taken()
    && sv'.Total() <= sv.Total()
  }

  lemma LendMoves(sv: Server, now: Time)
    requires sv.WellFormed() && sv.available != []
    ensures
      var n := |sv.available| - 1;
      var sv' := Lend(sv.(available := sv.available[..n]), sv.available[n], now);
      sv'.WellFormed() && Lends(sv, sv', sv.available[n].id)
  {
    var n := |sv.available| - 1;
    var lent := sv.available[n].(inUse := true, lastUsed := now);
    IdsOfAppend(sv.available, sv.inUse);
    IdsOfLast(sv.available);
    IdsOfSnoc(sv.inUse, lent);
    IdsOfAppend(sv.available[..n], sv.inUse + [lent]);
  }

  lemma ThrowMoves(sv: Server)
    requires sv.WellFormed() && sv.available != []
    ensures
      var rest := sv.available[..|sv.available| - 1];
      var uncounted := sv.(available := rest, totalCreated := SaturatingPred(sv.totalCreated));
      var dropped := sv.(available := rest, dropped := sv.dropped + 1);
      && uncounted.WellFormed() && Shrinks(sv, uncounted)
      && dropped.WellFormed() && Shrinks(sv, dropped)
  {
    IdsOfAppend(sv.available, sv.inUse);
    IdsOfLast(sv.available);
    IdsOfAppend(sv.available[..|sv.available| - 1], sv.inUse);
  }

  lemma GetExistingMoves(sv: Server, max: nat, healthy: set<Id>, now: Time)
    requires sv.WellFormed()
    ensures
      var (sv', l) := GetExisting(sv, max, healthy, now);
      && sv'.WellFormed()
      && (l.Hit? ==> Lends(sv, sv', l.id))
      && (!l.Hit? ==> (l.MayCreate? <==> sv'.Total() < max))
      && (!l.Hit? ==> Shrinks(sv, sv'))
  {
    if sv.available != [] {
      LendMoves(sv, now);
      ThrowMoves(sv);
    }
  }

  lemma PollMoves(sv: Server, healthy: set<Id>, now: Time)
    requires sv.WellFormed()
    ensures
      var (sv', hit) := Poll(sv, healthy, now);
      && sv'.WellFormed()
      && (hit.Some? ==> Lends(sv, sv', hit.value))
      && (hit.None? ==> Shrinks(sv, sv'))
  {
    if sv.available != [] {
      LendMoves(sv, now);
      ThrowMoves(sv);
    }
  }

  lemma InsertNewMoves(sv: Server, id: Id, now: Time)
    requires sv.WellFormed() && id !in sv.Free() && id !in sv.Taken()
    ensures
      var sv' := InsertNew(sv, id, now);
      && sv'.WellFormed()
      && sv'.Free() == sv.Free() && sv'.Taken() == sv.Taken() + {id}
      && sv'.Total() == sv.Total() + 1
  {
    IdsOfAppend(sv.available, sv.inUse);
    IdsOfSnoc(sv.inUse, PooledConnection(id, now, now, true));
    IdsOfAppend(sv.available, InsertNew(sv, id, now).inUse);
  }

  lemma ReleaseMoves(sv: Server, id: Id, max: nat, healthy: set<Id>, now: Time)
    requires sv.WellFormed()
    ensures
      var sv' := Release(sv, id, max, healthy, now);
      && sv'.WellFormed()
      && (id !in sv.Taken() ==> sv' == sv)
      && (id in sv.Taken() ==>
            && sv'.Taken() == sv.Taken() - {id}
            && sv'.totalReleased == sv.totalReleased + 1
            && sv'.Free() == (if Keeps(sv, id, max, healthy) then sv.Free() + {id} else sv.Free())
            && sv'.Total() == (if Keeps(sv, id, max, healthy) then sv.Total() else sv.Total() - 1))
  {
    PositionIsMembership(sv.inUse, id);
    match Position(sv.inUse, id)
    case None =>
    case Some(p) =>
      var rest, conn := Without(sv.inUse, p), sv.inUse[p].(inUse := false, lastUsed := now);
      IdsOfAppend(sv.available, sv.inUse);
      IdsOfWithout(sv.inUse, p);
      IdsOfSnoc(sv.available, conn);
      IdsOfAppend(sv.available, rest);
      IdsOfAppend(sv.available + [conn], rest);
  }

  lemma CloseMoves(sv: Server, id: Id)
    requires sv.WellFormed()
    ensures
      var sv' := Close(sv, id);
      && sv'.WellFormed()
      && sv'.Free() == sv.Free() - {id} && sv'.Taken() == sv.Taken() - {id}
      && sv'.Total() == if id in sv.Free() + sv.Taken() then sv.Total() - 1 else sv.Total()
  {
    PositionIsMembership(sv.inUse, id);
    PositionIsMembership(sv.available, id);
    IdsOfAppend(sv.available, sv.inUse);
    IdsOfAppend(Close(sv, id).available, Close(sv, id).inUse);
    match Position(sv.inUse, id)
    case Some(p) => IdsOfWithout(sv.inUse, p);
    case None =>
      match Position(sv.available, id) {
        case Some(p) => IdsOfWithout(sv.available, p);
        case None =>
      }
  }

  lemma CleanupMoves(sv: Server, idleTimeout: Time, now: Time, healthy: set<Id>)
    requires sv.WellFormed()
    ensures
      var sv' := Cleanup(sv, idleTimeout, now, healthy);
      && sv'.WellFormed()
      && Shrinks(sv, sv')
  {
    var sv' := Cleanup(sv, idleTimeout, now, healthy);
    IdsOfAppend(sv.available, sv.inUse);
    RetainedIds(sv.available, idleTimeout, now, healthy);
    IdsOfAppend(sv'.available, sv'.inUse);
    forall i | 0 <= i < |sv'.available|
      ensures sv'.available[i] in sv.available
    {
      RetainedMembers(sv.available, idleTimeout, now, healthy, sv'.available[i]);
    }
  }
}
