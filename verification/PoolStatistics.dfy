/** What `stats` and `cleanup` of src/pool.rs report, summed over all servers. */
module PoolStatistics {
  import opened PoolModel
  import opened PoolRuns

  datatype PoolStats = PoolStats(serverCount: nat, totalConnections: nat, availableConnections: nat,
                                 inUseConnections: nat, totalCreated: nat)

  /** What one loop over the servers adds up. */
  datatype Tally = Tally(available: nat, inUse: nat, created: nat, untold: nat) {
    function Plus(t: Tally): Tally {
      Tally(available + t.available, inUse + t.inUse, created + t.created, untold + t.untold)
    }
  }

  const NOTHING: Tally := Tally(0, 0, 0, 0)

  /** `untold`: connections that went away without the created counter being told. */
  function TallyOf(sv: Server): Tally {
    Tally(|sv.available|, |sv.inUse|, sv.totalCreated, sv.swept + sv.dropped)
  }

  ghost function Sum(s: map<Url, Server>): Tally {
    if s == map[] then NOTHING
    else
      var u :| u in s;
      TallyOf(s[u]).Plus(Sum(s - {u}))
  }

  lemma PlusSwaps(a: Tally, b: Tally, c: Tally)
    ensures a.Plus(b.Plus(c)) == b.Plus(a.Plus(c))
  {
  }

  lemma {:induction false} SumRemove(s: map<Url, Server>, u: Url)
    requires u in s
    ensures Sum(s) == TallyOf(s[u]).Plus(Sum(s - {u}))
    decreases s
  {
    var v :| v in s && Sum(s) == TallyOf(s[v]).Plus(Sum(s - {v}));
    if u != v {
      assert (s - {v}).Keys < s.Keys && (s - {u}).Keys < s.Keys;
      SumRemove(s - {v}, u);
      SumRemove(s - {u}, v);
      var rest := s - {u} - {v};
      assert rest == s - {v} - {u};
      PlusSwaps(TallyOf(s[u]), TallyOf(s[v]), Sum(rest));
    }
  }

  lemma SumOnce(s: map<Url, Server>, u: Url, sv: Server)
    requires u in s
    ensures Sum(s[u := sv]).Plus(TallyOf(s[u])) == Sum(s).Plus(TallyOf(sv))
  {
    SumRemove(s, u);
    SumRemove(s[u := sv], u);
    assert s[u := sv] - {u} == s - {u};
  }

  ghost function StatsOf(s: map<Url, Server>): PoolStats {
    var t := Sum(s);
    PoolStats(|s.Keys|, t.available + t.inUse, t.available, t.inUse, t.created)
  }

  lemma NoServersNoNumbers()
    ensures StatsOf(map[]) == PoolStats(0, 0, 0, 0, 0)
  {
  }

  /** The numbers reported are sums over the servers: with one more server, its own are added. */
  lemma StatsAddUp(s: map<Url, Server>, u: Url, sv: Server)
    requires u !in s
    ensures StatsOf(s[u := sv])
         == PoolStats(StatsOf(s).serverCount + 1,
                      StatsOf(s).totalConnections + |sv.available| + |sv.inUse|,
                      StatsOf(s).availableConnections + |sv.available|,
                      StatsOf(s).inUseConnections + |sv.inUse|,
                      StatsOf(s).totalCreated + sv.totalCreated)
  {
    var more := s[u := sv];
    assert more - {u} == s && more.Keys == s.Keys + {u} && more[u] == sv;
    SumRemove(more, u);
    assert Sum(more) == TallyOf(sv).Plus(Sum(s));
  }

  /** Every server's books balance, and so do the sums; nothing is untold only if it is so everywhere. */
  lemma {:induction false} SumBalances(s: map<Url, Server>)
    requires forall u :: u in s ==> s[u].Balanced()
    ensures Sum(s).created == Sum(s).available + Sum(s).inUse + Sum(s).untold
    ensures Sum(s).untold == 0 <==> forall u :: u in s ==> s[u].swept == 0 && s[u].dropped == 0
    decreases s
  {
    if s != map[] {
      var u :| u in s;
      SumRemove(s, u);
      var rest := s - {u};
      assert rest.Keys < s.Keys;
      SumBalances(rest);
      assert s[u].Balanced();
      assert forall v :: v in s ==> v == u || (v in rest && rest[v] == s[v]);
    }
  }

  // The servers a loop has still to visit.

  ghost function Part(s: map<Url, Server>, rest: set<Url>): map<Url, Server> {
    map u | u in s && u in rest :: s[u]
  }

  ghost predicate Counted(s: map<Url, Server>, rest: set<Url>, available: nat, inUse: nat, created: nat) {
    var left, all := Sum(Part(s, rest)), Sum(s);
    && available + left.available == all.available
    && inUse + left.inUse == all.inUse
    && created + left.created == all.created
  }

  lemma CountedOne(s: map<Url, Server>, rest: set<Url>, u: Url, available: nat, inUse: nat, created: nat)
    requires u in rest && rest <= s.Keys && Counted(s, rest, available, inUse, created)
    ensures Counted(s, rest - {u}, available + |s[u].available|, inUse + |s[u].inUse|, created + s[u].totalCreated)
  {
    SumRemove(Part(s, rest), u);
    assert Part(s, rest) - {u} == Part(s, rest - {u});
  }

  lemma CountedEnds(s: map<Url, Server>, available: nat, inUse: nat, created: nat)
    ensures Counted(s, s.Keys, 0, 0, 0)
    ensures Counted(s, {}, available, inUse, created)
            ==> StatsOf(s) == PoolStats(|s.Keys|, available + inUse, available, inUse, created)
  {
    assert Part(s, s.Keys) == s && Part(s, {}) == map[];
  }

  ghost function Everyone(s: map<Url, Server>): set<PooledConnection> {
    set u, c | u in s && c in s[u].available + s[u].inUse :: c
  }

  /** `clients` are the connections of the servers visited: each of them, and as many as there are. */
  ghost predicate Collected(s: map<Url, Server>, rest: set<Url>, clients: seq<PooledConnection>) {
    var left, all := Sum(Part(s, rest)), Sum(s);
    && |clients| + left.available + left.inUse == all.available + all.inUse
    && (set c | c in clients) + Everyone(Part(s, rest)) == Everyone(s)
  }

  lemma EveryoneElse(s: map<Url, Server>, u: Url)
    requires u in s
    ensures Everyone(s) == (set c | c in s[u].available + s[u].inUse) + Everyone(s - {u})
  {
    forall c | c in Everyone(s)
      ensures c in (set d | d in s[u].available + s[u].inUse) + Everyone(s - {u})
    {
      var v :| v in s && c in s[v].available + s[v].inUse;
      assert v != u ==> v in s - {u} && (s - {u})[v] == s[v];
    }
    forall c | c in Everyone(s - {u})
      ensures c in Everyone(s)
    {
      var v :| v in s - {u} && c in (s - {u})[v].available + (s - {u})[v].inUse;
      assert v in s && c in s[v].available + s[v].inUse;
    }
  }

  lemma CollectedOne(s: map<Url, Server>, rest: set<Url>, u: Url, clients: seq<PooledConnection>)
    requires u in rest && rest <= s.Keys && Collected(s, rest, clients)
    ensures Collected(s, rest - {u}, clients + (s[u].available + s[u].inUse))
  {
    var part, more := Part(s, rest), s[u].available + s[u].inUse;
    SumRemove(part, u);
    EveryoneElse(part, u);
    assert part - {u} == Part(s, rest - {u});
    assert (set c | c in clients + more) == (set c | c in clients) + (set c | c in more);
  }

  lemma CollectedEnds(s: map<Url, Server>, clients: seq<PooledConnection>)
    ensures Collected(s, s.Keys, [])
    ensures Collected(s, {}, clients)
            ==> |clients| == Sum(s).available + Sum(s).inUse && (set c | c in clients) == Everyone(s)
  {
    assert Part(s, s.Keys) == s && Part(s, {}) == map[];
  }

  /** Servers with fewer free connections in `t` than in `s`. */
  ghost function Losers(s: map<Url, Server>, t: map<Url, Server>): set<Url> {
    set u | u in s && u in t && |t[u].available| < |s[u].available|
  }

  /** Between `s` and `t`, `removed` free connections went, from `servers` servers. */
  ghost predicate Lost(s: map<Url, Server>, t: map<Url, Server>, removed: nat, servers: nat) {
    && removed + Sum(t).available == Sum(s).available
    && servers == |Losers(s, t)|
  }

  lemma LostNothing(s: map<Url, Server>)
    ensures Lost(s, s, 0, 0)
  {
    assert Losers(s, s) == {};
  }

  lemma LostOne(s: map<Url, Server>, t: map<Url, Server>, u: Url, sv: Server, removed: nat, servers: nat)
    requires u in s && u in t && t[u] == s[u] && |sv.available| <= |s[u].available|
    requires Lost(s, t, removed, servers)
    ensures
      var n := |s[u].available| - |sv.available|;
      Lost(s, t[u := sv], removed + n, if n > 0 then servers + 1 else servers)
  {
    SumOnce(t, u, sv);
    var n := |s[u].available| - |sv.available|;
    assert Losers(s, t[u := sv]) == if n > 0 then Losers(s, t) + {u} else Losers(s, t);
  }

  /** In every reachable state `total_created` of the pool's statistics is at least the number of
      connections there; it is that number exactly when no cleanup and no waiting caller has thrown a
      connection away since the servers were last forgotten. */
  lemma CreatedIsAnUpperBound(max: nat, idleTimeout: Time, steps: seq<Step>)
    requires IsRun(Initial(max, idleTimeout), steps)
    ensures
      var s := After(Initial(max, idleTimeout), steps).pools;
      && StatsOf(s).totalCreated == StatsOf(s).totalConnections + Sum(s).untold
      && (StatsOf(s).totalCreated == StatsOf(s).totalConnections
          <==> forall u :: u in s ==> s[u].swept == 0 && s[u].dropped == 0)
  {
    EmptyLedger(Initial(max, idleTimeout));
    LedgerBalances(Initial(max, idleTimeout), steps);
    var w := After(Initial(max, idleTimeout), steps);
    var s := w.pools;
    forall u | u in s
      ensures s[u].Balanced()
    {
      assert Sound(w, u);
    }
    SumBalances(s);
  }
}
