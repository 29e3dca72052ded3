/** The latency window and its percentiles (src/metrics.rs). */
module Metrics {
  import opened Arithmetic

  const WINDOW: nat := 1000

  /** The last samples of a history, at most a window of them. */
  function Window(history: seq<nat>): seq<nat> {
    if |history| <= WINDOW then history else history[|history| - WINDOW..]
  }

  ghost predicate IsSorted(s: seq<nat>) {
    forall i, j :: 0 <= i <= j < |s| ==> s[i] <= s[j]
  }

  function Insert(x: nat, s: seq<nat>): (r: seq<nat>)
    ensures |r| == |s| + 1
  {
    if s == [] || x <= s[0] then [x] + s else [s[0]] + Insert(x, s[1..])
  }

  function Sort(s: seq<nat>): (r: seq<nat>)
    ensures |r| == |s|
  {
    if s == [] then [] else Insert(s[0], Sort(s[1..]))
  }

  lemma {:induction false} InsertAdds(x: nat, s: seq<nat>)
    ensures multiset(Insert(x, s)) == multiset(s) + multiset{x}
  {
    if s != [] && x > s[0] {
      InsertAdds(x, s[1..]);
      assert s == [s[0]] + s[1..];
    }
  }

  lemma SortedCons(x: nat, s: seq<nat>)
    requires IsSorted(s) && forall y :: y in multiset(s) ==> x <= y
    ensures IsSorted([x] + s)
  {
    forall i | 0 <= i < |s|
      ensures x <= s[i]
    {
      assert s[i] in multiset(s);
    }
  }

  lemma {:induction false} InsertSorts(x: nat, s: seq<nat>)
    requires IsSorted(s)
    ensures IsSorted(Insert(x, s)) && multiset(Insert(x, s)) == multiset(s) + multiset{x}
  {
    InsertAdds(x, s);
    if s != [] && x > s[0] {
      InsertSorts(x, s[1..]);
      SortedCons(s[0], Insert(x, s[1..]));
    }
  }

  lemma {:induction false} SortSorts(s: seq<nat>)
    ensures IsSorted(Sort(s)) && multiset(Sort(s)) == multiset(s)
  {
    if s != [] {
      SortSorts(s[1..]);
      InsertSorts(s[0], Sort(s[1..]));
      assert s == [s[0]] + s[1..];
    }
  }

  lemma WithoutHead(s: seq<nat>)
    requires s != []
    ensures multiset(s[1..]) == multiset(s) - multiset{s[0]}
    ensures IsSorted(s) ==> IsSorted(s[1..])
  {
    assert s == [s[0]] + s[1..];
  }

  lemma SameHead(a: seq<nat>, b: seq<nat>)
    requires a != [] && b != [] && IsSorted(a) && IsSorted(b) && multiset(a) == multiset(b)
    ensures a[0] == b[0]
  {
    assert a[0] in multiset(b) && b[0] in multiset(a);
    assert a[0] in b && b[0] in a;
  }

  lemma SameLength(a: seq<nat>, b: seq<nat>)
    requires multiset(a) == multiset(b)
    ensures |a| == |b|
  {
    assert |multiset(a)| == |a| && |multiset(b)| == |b|;
  }

  lemma {:induction false} SortedIsUnique(a: seq<nat>, b: seq<nat>)
    requires IsSorted(a) && IsSorted(b) && multiset(a) == multiset(b)
    ensures a == b
    decreases |a|
  {
    SameLength(a, b);
    if a != [] {
      var c, d := a[1..], b[1..];
      SameHead(a, b);
      WithoutHead(a);
      WithoutHead(b);
      SortedIsUnique(c, d);
      assert a == [a[0]] + c && b == [b[0]] + d;
    }
  }

  datatype LatencyPercentiles = LatencyPercentiles(p50: nat, p95: nat, p99: nat, p999: nat)

  // The indexes into the sorted window. The last follows a formula of its own.

  function Index(n: nat, percent: nat): nat {
    n * percent / 100
  }

  function Index999(n: nat): nat {
    (if n == 0 then 0 else n - 1) * 999 / 1000
  }

  lemma IndexesInRange(n: nat)
    requires n > 0
    ensures Index(n, 50) <= Index(n, 95) <= Index(n, 99) < n && Index999(n) < n
  {
  }

  function Percentiles(window: seq<nat>): LatencyPercentiles {
    if window == [] then LatencyPercentiles(0, 0, 0, 0)
    else
      IndexesInRange(|window|);
      var sorted := Sort(window);
      var n := |sorted|;
      LatencyPercentiles(sorted[Index(n, 50)], sorted[Index(n, 95)], sorted[Index(n, 99)], sorted[Index999(n)])
  }

  class MetricsCollector {
    var latencies: seq<nat>
    /** Every sample since creation or the last reset. */
    ghost var history: seq<nat>

    ghost predicate Valid()
      reads this
    {
      latencies == Window(history)
    }

    constructor ()
      ensures Valid() && history == []
    {
      latencies := [];
      history := [];
    }

    method RecordLatency(micros: nat)
      requires Valid()
      modifies this
      ensures Valid() && history == old(history) + [micros]
    {
      latencies := latencies + [micros];
      if |latencies| > WINDOW {
        latencies := latencies[1..];
      }
      history := history + [micros];
    }

    method Reset()
      modifies this
      ensures Valid() && history == []
    {
      latencies := [];
      history := [];
    }

    method LatencyPercentilesNow() returns (p: LatencyPercentiles)
      requires Valid()
      ensures p == Percentiles(Window(history))
    {
      if latencies == [] {
        return LatencyPercentiles(0, 0, 0, 0);
      }
      var sorted := Sort(latencies);
      var n := |sorted|;
      IndexesInRange(n);
      p := LatencyPercentiles(sorted[n * 50 / 100], sorted[n * 95 / 100], sorted[n * 99 / 100],
                              sorted[(n - 1) * 999 / 1000]);
    }
  }

  // ---------------------------------------------------------------- what the numbers mean

  /** Order of arrival does not matter. */
  lemma PercentilesDependOnTheSamples(a: seq<nat>, b: seq<nat>)
    requires multiset(a) == multiset(b)
    ensures Percentiles(a) == Percentiles(b)
  {
    SortSorts(a);
    SortSorts(b);
    SortedIsUnique(Sort(a), Sort(b));
    assert |multiset(a)| == |a| && |multiset(b)| == |b|;
  }

  function CountBelow(s: seq<nat>, x: nat): nat {
    if s == [] then 0 else (if s[0] < x then 1 else 0) + CountBelow(s[1..], x)
  }

  lemma {:induction false} CountBelowAppend(a: seq<nat>, b: seq<nat>, x: nat)
    ensures CountBelow(a + b, x) == CountBelow(a, x) + CountBelow(b, x)
  {
    if a == [] {
      assert a + b == b;
    } else {
      CountBelowAppend(a[1..], b, x);
      assert (a + b)[1..] == a[1..] + b;
    }
  }

  lemma WithoutOne(s: seq<nat>, p: nat, x: nat)
    requires p < |s|
    ensures multiset(s[..p] + s[p + 1..]) == multiset(s) - multiset{s[p]}
    ensures CountBelow(s, x) == (if s[p] < x then 1 else 0) + CountBelow(s[..p] + s[p + 1..], x)
  {
    var before, one, after := s[..p], [s[p]], s[p + 1..];
    assert s == before + (one + after);
    CountBelowAppend(before, one + after, x);
    CountBelowAppend(one, after, x);
    CountBelowAppend(before, after, x);
    assert CountBelow(one, x) == (if s[p] < x then 1 else 0) + CountBelow([], x);
  }

  lemma {:induction false} CountBelowIsABag(a: seq<nat>, b: seq<nat>, x: nat)
    requires multiset(a) == multiset(b)
    ensures CountBelow(a, x) == CountBelow(b, x)
    decreases |a|
  {
    SameLength(a, b);
    if a != [] {
      assert a[0] in multiset(b);
      var p :| 0 <= p < |b| && b[p] == a[0];
      WithoutOne(b, p, x);
      WithoutHead(a);
      CountBelowIsABag(a[1..], b[..p] + b[p + 1..], x);
    }
  }

  lemma {:induction false} CountBelowSorted(s: seq<nat>, k: nat, x: nat)
    requires IsSorted(s) && k < |s|
    ensures x <= s[k] ==> CountBelow(s, x) <= k
    ensures x > s[k] ==> CountBelow(s, x) >= k + 1
    decreases |s|
  {
    var rest := s[1..];
    if k > 0 {
      CountBelowSorted(rest, k - 1, x);
    } else if x <= s[0] {
      NoneBelow(s, x);
    }
  }

  lemma {:induction false} NoneBelow(s: seq<nat>, x: nat)
    requires forall i :: 0 <= i < |s| ==> x <= s[i]
    ensures CountBelow(s, x) == 0
  {
    if s != [] {
      NoneBelow(s[1..], x);
    }
  }

  /** At most `k` samples are below `x`, and more than `k` at or below it. */
  ghost predicate AtRank(window: seq<nat>, x: nat, k: int) {
    CountBelow(window, x) <= k < CountBelow(window, x + 1)
  }

  lemma RankIn(window: seq<nat>, sorted: seq<nat>, k: nat, x: nat)
    requires multiset(window) == multiset(sorted) && IsSorted(sorted) && k < |sorted|
    ensures x <= sorted[k] ==> CountBelow(window, x) <= k
    ensures x > sorted[k] ==> CountBelow(window, x) >= k + 1
  {
    CountBelowIsABag(window, sorted, x);
    CountBelowSorted(sorted, k, x);
  }

  /** The sample at place `k` of the sorted window is the one with at most `k` samples below it and more
      than `k` at or below it: no sort is mentioned. */
  lemma PlaceIsRank(window: seq<nat>, k: nat, x: nat)
    requires k < |window|
    ensures x == Sort(window)[k] <==> AtRank(window, x, k)
  {
    SortSorts(window);
    RankIn(window, Sort(window), k, x);
    RankIn(window, Sort(window), k, x + 1);
  }

  /** The window is the end of the history, a thousand samples of it at most. */
  lemma WindowIsTheEnd(history: seq<nat>)
    ensures
      var window := Window(history);
      && |window| == (if |history| < 1000 then |history| else 1000)
      && history == history[..|history| - |window|] + window
  {
  }

  lemma AtPlace(window: seq<nat>, k: nat)
    requires k < |window|
    ensures AtRank(window, Sort(window)[k], k)
  {
    var x := Sort(window)[k];
    PlaceIsRank(window, k, x);
  }

  /** Each percentile by the samples below it, zeros when there are none. */
  lemma PercentilesByRank(window: seq<nat>)
    ensures window == [] ==> Percentiles(window) == LatencyPercentiles(0, 0, 0, 0)
    ensures window != [] ==>
              && AtRank(window, Percentiles(window).p50, |window| * 50 / 100)
              && AtRank(window, Percentiles(window).p95, |window| * 95 / 100)
              && AtRank(window, Percentiles(window).p99, |window| * 99 / 100)
              && AtRank(window, Percentiles(window).p999, (|window| - 1) * 999 / 1000)
  {
    if window != [] {
      var n := |window|;
      IndexesInRange(n);
      AtPlace(window, Index(n, 50));
      AtPlace(window, Index(n, 95));
      AtPlace(window, Index(n, 99));
      AtPlace(window, Index999(n));
    }
  }

  /** Where the last index stands to the one before. */
  lemma LastIndexes(n: nat)
    requires n > 0
    ensures n == 1 || n > 100 ==> Index(n, 99) <= Index999(n)
    ensures 2 <= n <= 100 ==> Index(n, 99) == n - 1 && Index999(n) == n - 2
  {
  }

  lemma OrderedAt(sorted: seq<nat>, n: nat)
    requires IsSorted(sorted) && 0 < n == |sorted|
    ensures Index(n, 50) <= Index(n, 95) <= Index(n, 99) < n && Index999(n) < n
    ensures sorted[Index(n, 50)] <= sorted[Index(n, 95)] <= sorted[Index(n, 99)]
    ensures sorted[Index(n, 99)] <= sorted[Index999(n)] <==> n == 1 || n > 100 || sorted[n - 1] == sorted[n - 2]
  {
    IndexesInRange(n);
    LastIndexes(n);
  }

  /** The first three are always in order; the fourth is, exactly when the window holds one sample or
      more than a hundred, or its two largest samples are equal. */
  lemma PercentilesAreOrdered(window: seq<nat>)
    requires window != []
    ensures
      var p, s, n := Percentiles(window), Sort(window), |window|;
      && p.p50 <= p.p95 <= p.p99
      && (p.p99 <= p.p999 <==> n == 1 || n > 100 || s[n - 1] == s[n - 2])
  {
    SortSorts(window);
    OrderedAt(Sort(window), |window|);
  }
}
