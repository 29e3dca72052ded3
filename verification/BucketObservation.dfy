/**
 Whether looking at a token bucket changes it: when `status` calls and refused requests
 leave a run as it was, and how long the blocking `acquire` waits.
 */
module BucketObservation {
  import opened Arithmetic
  import opened Collections
  import opened TokenBuckets
  import opened Wrappers

  /** The rates at which tokens and nanoseconds convert without rounding. */
  predicate Exact(rate: nat) {
    rate == 0 || NANOS % rate == 0 || rate % NANOS == 0
  }

  lemma DueIsPaidExactly(b: Bucket, now: Time)
    requires Exact(b.rate) && b.rate >= 1
    ensures b.Paid(b.Due(now)) * b.rate == b.Due(now) * NANOS
  {
    var due, rate, e := b.Due(now), b.rate, b.Elapsed(now);
    if NANOS % rate == 0 {
      var q := NANOS / rate;
      assert NANOS == q * rate;
      assert due * NANOS == (due * q) * rate;
      MulAdd(due * q, 1, rate);
      DivUnique(due * NANOS, rate, due * q);
    } else {
      var k := rate / NANOS;
      assert rate == k * NANOS;
      assert e * rate == (e * k) * NANOS;
      MulAdd(e * k, 1, NANOS);
      DivUnique(e * rate, NANOS, e * k);
      assert due * NANOS == e * rate;
      MulAdd(e, 1, rate);
      DivUnique(due * NANOS, rate, e);
    }
  }

  /** An earlier refill is absorbed by a later one, at the capacity too. */
  lemma RefillsCompose(b: Bucket, t1: Time, t2: Time)
    requires b.Valid() && Exact(b.rate) && t1 <= t2
    ensures Refill(Refill(b, t1), t2) == Refill(b, t2)
  {
    if b.rate >= 1 && b.Due(t1) > 0 {
      var b1 := Refill(b, t1);
      RefillAdds(b, t1);
      RefillAdds(b, t2);
      RefillAdds(b1, t2);
      MulMono(b.Elapsed(t1), b.Elapsed(t2), b.rate);
      DivMono(b.Elapsed(t1) * b.rate, b.Elapsed(t2) * b.rate, NANOS);
      assert b.Due(t1) <= b.Due(t2);
      if b.tokens + b.Due(t1) <= b.capacity {
        RefillsComposeUncapped(b, t1, t2);
      } else {
        DivUnique(0, b.rate, 0);
      }
    }
  }

  lemma RefillsComposeUncapped(b: Bucket, t1: Time, t2: Time)
    requires b.Valid() && Exact(b.rate) && b.rate >= 1 && b.lastRefill < t1 <= t2
    requires b.tokens + b.Due(t1) <= b.capacity && b.Due(t1) <= b.Due(t2)
    ensures Refill(Refill(b, t1), t2) == Refill(b, t2)
  {
    var b1 := Refill(b, t1);
    RefillAdds(b, t1);
    RefillAdds(b, t2);
    RefillAdds(b1, t2);
    var due, paid := b.Due(t1), b.Paid(b.Due(t1));
    DueIsPaidExactly(b, t1);
    PaidWithinElapsed(b, t1, due);
    assert b1.Elapsed(t2) == b.Elapsed(t2) - paid;
    MulAdd(b1.Elapsed(t2), paid, b.rate);
    DivShift(b.Elapsed(t2) * b.rate, NANOS, due);
    assert b1.Due(t2) == b.Due(t2) - due;
    assert b1.Added(t2) == b.Added(t2) - due;
    MulAdd(b1.Added(t2), due, NANOS);
    DivShift(b.Added(t2) * NANOS, b.rate, paid);
  }

  // ---------------------------------------------------------------- runs

  /** `status`, or a request that is refused here. */
  predicate OnlyLooks(b: Bucket, e: Event) {
    e.Status? || Step(b, e).1.Refused?
  }

  predicate Removable(b: Bucket, es: seq<Event>, keep: seq<bool>)
    decreases |es|
  {
    && |es| == |keep|
    && (es == [] || (
          && (keep[0] || OnlyLooks(b, es[0]))
          && Removable(Step(b, es[0]).0, es[1..], keep[1..])))
  }

  ghost predicate Alike(b: Bucket, b': Bucket, now: Time) {
    && b.Valid() && b'.Valid()
    && b.rate == b'.rate && b.capacity == b'.capacity
    && Refill(b, now) == Refill(b', now)
  }

  lemma AlikeLater(b: Bucket, b': Bucket, now: Time, later: Time)
    requires Alike(b, b', now) && Exact(b.rate) && now <= later
    ensures Alike(b, b', later)
  {
    RefillsCompose(b, now, later);
    RefillsCompose(b', now, later);
  }

  lemma AlikeStep(b: Bucket, b': Bucket, e: Event)
    requires Alike(b, b', e.at) && Exact(b.rate)
    ensures Alike(Step(b, e).0, Step(b', e).0, e.at)
    ensures Step(b, e).1 == Step(b', e).1
  {
    RefillAdds(b, e.at);
    RefillAdds(b', e.at);
    RefillAdds(Refill(b, e.at), e.at);
  }

  lemma LookingStep(b: Bucket, e: Event)
    requires b.Valid() && Exact(b.rate) && OnlyLooks(b, e)
    ensures Alike(Step(b, e).0, b, e.at)
  {
    RefillAdds(b, e.at);
    RefillAdds(Refill(b, e.at), e.at);
    RefillsCompose(b, e.at, e.at);
  }

  lemma {:induction false} LookingIsInvisible(b: Bucket, b': Bucket, es: seq<Event>, keep: seq<bool>,
                                              now: Time, end: Time)
    requires Alike(b, b', now) && Exact(b.rate)
    requires Timed(es, now, end) && Removable(b, es, keep)
    ensures Outcomes(b', Kept(es, keep)) == Kept(Outcomes(b, es), keep)
    decreases |es|
  {
    if es != [] {
      var e := es[0];
      AlikeLater(b, b', now, e.at);
      var b1 := Step(b, e).0;
      assert Outcomes(b, es)[1..] == Outcomes(b1, es[1..]);
      if keep[0] {
        AlikeStep(b, b', e);
        LookingIsInvisible(b1, Step(b', e).0, es[1..], keep[1..], e.at, end);
        assert Kept(es, keep)[1..] == Kept(es[1..], keep[1..]);
      } else {
        LookingStep(b, e);
        LookingIsInvisible(b1, b', es[1..], keep[1..], e.at, end);
      }
    }
  }

  /** Taking out any `status` calls and refused requests changes no other outcome, in any run. */
  ghost predicate ObservationFree(rate: nat) {
    forall capacity: nat, t0: Time, end: Time, es: seq<Event>, keep: seq<bool> ::
      Timed(es, t0, end) && Removable(Full(capacity, rate, t0), es, keep)
      ==> Outcomes(Full(capacity, rate, t0), Kept(es, keep)) == Kept(Outcomes(Full(capacity, rate, t0), es), keep)
  }

  lemma RefillBy(b: Bucket, now: Time, due: nat, paid: nat)
    requires b.Valid() && b.rate >= 1 && b.lastRefill <= now
    requires due * NANOS <= (now - b.lastRefill) * b.rate < (due + 1) * NANOS
    requires b.tokens + due <= b.capacity
    requires paid * b.rate <= due * NANOS < (paid + 1) * b.rate
    ensures Refill(b, now) == b.(tokens := b.tokens + due, lastRefill := b.lastRefill + paid)
  {
    DivUnique((now - b.lastRefill) * b.rate, NANOS, due);
    RefillAdds(b, now);
    DivUnique(due * NANOS, b.rate, paid);
  }

  lemma {:induction false} OutcomesSnoc(b: Bucket, es: seq<Event>, e: Event)
    ensures Outcomes(b, es + [e]) == Outcomes(b, es) + [Step(Final(b, es), e).1]
    decreases |es|
  {
    if es == [] {
      assert es + [e] == [e] && [e][1..] == [];
    } else {
      assert (es + [e])[1..] == es[1..] + [e];
      OutcomesSnoc(Step(b, es[0]).0, es[1..], e);
    }
  }

  lemma FinalCons(b: Bucket, e: Event, es: seq<Event>)
    ensures Final(b, [e] + es) == Final(Step(b, e).0, es)
  {
    assert ([e] + es)[1..] == es;
  }

  lemma DrainedAtOnce(capacity: nat, rate: nat)
    requires capacity > 0
    ensures Step(Full(capacity, rate, 0), Try(capacity, 0)) == (Bucket(0, 0, capacity, rate), Granted)
  {
    DivUnique(0, NANOS, 0);
  }

  /** A rate below 10^9 that does not divide it, seen at the end of a second ... */
  lemma SlowRateUnobserved(rate: nat, u: nat, r: nat)
    requires NANOS == u * rate + r && 0 < r < rate < NANOS
    ensures
      var drained, full := Bucket(0, 0, rate + 1, rate), Bucket(rate, NANOS, rate + 1, rate);
      Final(drained, [Status(NANOS)]) == full && Refill(full, NANOS + u).tokens == rate
  {
    var drained, full := Bucket(0, 0, rate + 1, rate), Bucket(rate, NANOS, rate + 1, rate);
    RefillBy(drained, NANOS, rate, NANOS);
    RefillBy(full, NANOS, 0, 0);
    FinalCons(drained, Status(NANOS), []);
    RefillBy(full, NANOS + u, 0, 0);
  }

  /** ... and with one look before: the clock is a nanosecond behind, and that buys a token. */
  lemma SlowRateObserved(rate: nat, u: nat, r: nat)
    requires NANOS == u * rate + r && 0 < r < rate < NANOS && u < NANOS
    ensures
      var drained, early := Bucket(0, 0, rate + 1, rate), Bucket(rate, NANOS - 1, rate + 1, rate);
      Final(drained, [Status(u + 1), Status(NANOS)]) == early && Refill(early, NANOS + u).tokens == rate + 1
  {
    var drained, early := Bucket(0, 0, rate + 1, rate), Bucket(rate, NANOS - 1, rate + 1, rate);
    var looked := Bucket(1, u, rate + 1, rate);
    MulAdd(u, 1, rate);
    RefillBy(drained, u + 1, 1, u);
    RefillBy(looked, u + 1, 0, 0);
    FinalCons(drained, Status(u + 1), [Status(NANOS)]);
    LookedCatchesUp(rate, u, r);
    RefillBy(early, NANOS, 0, 0);
    FinalCons(looked, Status(NANOS), []);
    RefillBy(early, NANOS + u, 1, u);
    assert [Status(u + 1)] + [Status(NANOS)] == [Status(u + 1), Status(NANOS)];
    assert [Status(NANOS)] + [] == [Status(NANOS)];
  }

  lemma LookedCatchesUp(rate: nat, u: nat, r: nat)
    requires NANOS == u * rate + r && 0 < r < rate < NANOS && u < NANOS
    ensures Refill(Bucket(1, u, rate + 1, rate), NANOS) == Bucket(rate, NANOS - 1, rate + 1, rate)
  {
    MulAdd(NANOS - u, u, rate);
    MulAdd(NANOS - u - 1, 1, rate);
    RefillBy(Bucket(1, u, rate + 1, rate), NANOS, rate - 1, NANOS - u - 1);
  }

  /** Keep everything but the second. */
  function AllButSecond(n: nat): seq<bool> {
    seq(n, i => i != 1)
  }

  lemma {:induction false} KeptAll<T>(xs: seq<T>, keep: seq<bool>)
    requires |xs| == |keep| && forall i :: 0 <= i < |keep| ==> keep[i]
    ensures Kept(xs, keep) == xs
  {
    if xs != [] {
      KeptAll(xs[1..], keep[1..]);
    }
  }

  lemma {:induction false} RemovableNone(b: Bucket, es: seq<Event>, keep: seq<bool>)
    requires |es| == |keep| && forall i :: 0 <= i < |keep| ==> keep[i]
    ensures Removable(b, es, keep)
    decreases |es|
  {
    if es != [] {
      RemovableNone(Step(b, es[0]).0, es[1..], keep[1..]);
    }
  }

  lemma StatusReports(b: Bucket, b': Bucket, at: Time)
    requires Refill(b, at).tokens != Refill(b', at).tokens
    ensures Step(b, Status(at)).1 != Step(b', Status(at)).1
  {
  }

  /** A run whose last `status` answers differently when one before is left out. */
  lemma LookShows(rate: nat, capacity: nat, first: Event, look: Time, rest: seq<Event>, end: Time,
                  unseen: Bucket, seen: Bucket)
    requires Timed([first, Status(look)] + rest + [Status(end)], 0, end)
    requires Final(Full(capacity, rate, 0), [first] + rest) == unseen
    requires Final(Full(capacity, rate, 0), [first, Status(look)] + rest) == seen
    requires Refill(unseen, end).tokens != Refill(seen, end).tokens
    ensures !ObservationFree(rate)
  {
    var last := Status(end);
    StatusReports(unseen, seen, end);
    var b := Full(capacity, rate, 0);
    var es, kept := [first, Status(look)] + rest, [first] + rest;
    var run, keep := es + [last], AllButSecond(|es| + 1);
    var os := Outcomes(b, run);
    OutcomesSnoc(b, es, last);
    OutcomesSnoc(b, kept, last);
    assert keep[0] && keep[1..][0] == keep[1] == false && keep[1..][1..] == keep[2..];
    assert run[1..][0] == run[1] == Status(look) && run[1..][1..] == run[2..] == rest + [last];
    assert os[1..][1..] == os[2..];
    RemovableNone(Step(Step(b, first).0, Status(look)).0, rest + [last], keep[2..]);
    assert Removable(Step(b, first).0, run[1..], keep[1..]);
    assert Removable(b, run, keep);
    KeptAll(rest + [last], keep[2..]);
    KeptAll(os[2..], keep[2..]);
    assert Kept(run[1..], keep[1..]) == rest + [last];
    assert Kept(run, keep) == kept + [last];
    assert Kept(os[1..], keep[1..]) == os[2..];
    assert Kept(os, keep) == [os[0]] + os[2..];
    var n := |kept|;
    assert Kept(os, keep)[n] == os[n + 1] == Step(Final(b, es), last).1;
    assert Outcomes(b, kept + [last])[n] == Step(Final(b, kept), last).1;
  }

  lemma TimedFour(e: Event, t1: Time, t2: Time, t3: Time)
    requires e.at <= t1 <= t2 <= t3
    ensures Timed([e, Status(t1)] + [Status(t2)] + [Status(t3)], 0, t3)
  {
    var e1, e2, e3 := Status(t1), Status(t2), Status(t3);
    TimedCons(e3, [], t2, t3);
    TimedCons(e2, [e3] + [], t1, t3);
    TimedCons(e1, [e2] + ([e3] + []), e.at, t3);
    TimedCons(e, [e1] + ([e2] + ([e3] + [])), 0, t3);
    assert [e] + ([e1] + ([e2] + ([e3] + []))) == [e, e1] + [e2] + [e3];
  }

  lemma SlowRateShows(rate: nat, u: nat, r: nat)
    requires NANOS == u * rate + r && 0 < r < rate < NANOS && u < NANOS
    ensures !ObservationFree(rate)
  {
    SlowRateUnobserved(rate, u, r);
    SlowRateObserved(rate, u, r);
    TimedFour(Try(rate + 1, 0), u + 1, NANOS, NANOS + u);
    assert [Status(u + 1)] + [Status(NANOS)] == [Status(u + 1), Status(NANOS)];
    DrainedLookShows(rate + 1, rate, u + 1, [Status(NANOS)], NANOS + u,
                     Bucket(rate, NANOS, rate + 1, rate), Bucket(rate, NANOS - 1, rate + 1, rate));
  }

  lemma DrainedFirst(capacity: nat, rate: nat, es: seq<Event>)
    requires capacity > 0
    ensures Final(Full(capacity, rate, 0), [Try(capacity, 0)] + es) == Final(Bucket(0, 0, capacity, rate), es)
  {
    DrainedAtOnce(capacity, rate);
    FinalCons(Full(capacity, rate, 0), Try(capacity, 0), es);
  }

  /** Drain the bucket at time 0, go on with `rest`, and ask for the status at `end`. */
  lemma DrainedLookShows(capacity: nat, rate: nat, look: Time, rest: seq<Event>, end: Time,
                         unseen: Bucket, seen: Bucket)
    requires capacity > 0
    requires Timed([Try(capacity, 0), Status(look)] + rest + [Status(end)], 0, end)
    requires Final(Bucket(0, 0, capacity, rate), rest) == unseen
    requires Final(Bucket(0, 0, capacity, rate), [Status(look)] + rest) == seen
    requires Refill(unseen, end).tokens != Refill(seen, end).tokens
    ensures !ObservationFree(rate)
  {
    var first := Try(capacity, 0);
    DrainedFirst(capacity, rate, rest);
    DrainedFirst(capacity, rate, [Status(look)] + rest);
    assert [first] + ([Status(look)] + rest) == [first, Status(look)] + rest;
    LookShows(rate, capacity, first, look, rest, end, unseen, seen);
  }

  lemma TimedCons(e: Event, es: seq<Event>, start: Time, end: Time)
    requires start <= e.at && Timed(es, e.at, end)
    ensures Timed([e] + es, start, end)
  {
    assert ([e] + es)[1..] == es;
  }

  /** A rate above 10^9 that is no multiple of it: the tokens of the first nanosecond cost no time. */
  lemma FastRateShows(rate: nat)
    requires rate > NANOS && rate % NANOS != 0
    ensures !ObservationFree(rate)
  {
    var a := rate / NANOS;
    var capacity := rate + a;
    var drained, twice := Bucket(0, 0, capacity, rate), Bucket(2 * a, 0, capacity, rate);
    var look, last := Status(1), Status(NANOS);
    RefillBy(drained, NANOS, rate, NANOS);
    RefillBy(drained, 1, a, 0);
    RefillBy(Bucket(a, 0, capacity, rate), 1, a, 0);
    FinalCons(drained, look, []);
    DivUnique(NANOS * rate, NANOS, rate);
    RefillAdds(twice, NANOS);
    TimedCons(last, [], 1, NANOS);
    TimedCons(look, [last] + [], 0, NANOS);
    TimedCons(Try(capacity, 0), [look] + ([last] + []), 0, NANOS);
    assert [Try(capacity, 0)] + ([look] + ([last] + [])) == [Try(capacity, 0), look] + [] + [last];
    DrainedLookShows(capacity, rate, 1, [], NANOS, drained, twice);
  }

  /** Looking at a bucket is free exactly when its rate is exact. */
  lemma ObservationIsFreeExactlyWhen(rate: nat)
    ensures ObservationFree(rate) <==> Exact(rate)
  {
    if Exact(rate) {
      forall capacity: nat, t0: Time, end: Time, es: seq<Event>, keep: seq<bool>
        | Timed(es, t0, end) && Removable(Full(capacity, rate, t0), es, keep)
        ensures Outcomes(Full(capacity, rate, t0), Kept(es, keep)) == Kept(Outcomes(Full(capacity, rate, t0), es), keep)
      {
        var b := Full(capacity, rate, t0);
        LookingIsInvisible(b, b, es, keep, t0, end);
      }
    } else if rate < NANOS {
      var u := NANOS / rate;
      assert NANOS == u * rate + NANOS % rate;
      MulMono(1, rate, u);
      SlowRateShows(rate, u, NANOS % rate);
    } else {
      DivUnique(NANOS, NANOS, 1);
      FastRateShows(rate);
    }
  }

  // ---------------------------------------------------------------- the blocking acquire

  /** `acquire`: ask, and while refused sleep for as long as the answer says; `late[i]` is how much
      longer the i-th sleep takes. `None`: still refused when the sleeps run out. */
  function Acquire(b: Bucket, amount: nat, at: Time, late: seq<Time>): (Bucket, Option<Time>)
    decreases |late|
  {
    var (b', o) := Step(b, Try(amount, at));
    match o
    case Refused(retryAfter) =>
      if late == [] then (b', None) else Acquire(b', amount, at + retryAfter + late[0], late[1..])
    case _ => (b', Some(at))
  }

  /** A refill has made `amount` available exactly when that fits and the time since the last one covers
      what is missing. */
  ghost predicate Covers(b: Bucket, amount: nat, later: Time) {
    amount <= b.capacity && (amount - b.tokens) * NANOS <= b.Elapsed(later) * b.rate
  }

  lemma AvailableExactlyWhen(b: Bucket, amount: nat, later: Time)
    requires b.Valid()
    ensures amount <= Refill(b, later).tokens <==> Covers(b, amount, later)
  {
    RefillAdds(b, later);
    DivAtLeast(b.Elapsed(later) * b.rate, NANOS, amount - b.tokens);
    MulMono(0, b.Elapsed(later), b.rate);
    if amount <= b.tokens {
      MulMono(amount - b.tokens, 0, NANOS);
    }
  }

  /** A wait to the nearest nanosecond is short by less than one. */
  lemma NearestCovers(needed: nat, rate: nat, elapsed: nat)
    requires rate >= 1 && elapsed > Nearest(needed * NANOS, rate)
    ensures needed * NANOS <= elapsed * rate
  {
    var wait := Nearest(needed * NANOS, rate);
    NearestIsNear(needed * NANOS, rate);
    MulAdd(wait, 1, rate);
    MulMono(wait + 1, elapsed, rate);
  }

  lemma MissingMono(amount: nat, capacity: nat, tokens: nat)
    requires amount <= capacity
    ensures (amount - tokens) * NANOS <= (capacity - tokens) * NANOS
  {
    MulMono(amount - tokens, capacity - tokens, NANOS);
  }

  /** Anything that fits is there once more time than `UntilFull` has passed since the last refill. */
  lemma WaitedLonger(b: Bucket, amount: nat, now: Time, later: Time)
    requires b.Valid() && b.rate >= 1 && amount <= b.capacity
    requires Refill(b, now).Elapsed(later) > UntilFull(b, now)
    ensures Covers(Refill(b, now), amount, later)
  {
    RefillAdds(b, now);
    var b1 := Refill(b, now);
    var needed := b1.capacity - b1.tokens;
    MissingMono(amount, b1.capacity, b1.tokens);
    if needed > 0 {
      NearestCovers(needed, b1.rate, b1.Elapsed(later));
    } else {
      MulMono(0, b1.Elapsed(later), b1.rate);
    }
  }

  /** Sleeping for `UntilFull` fills the bucket exactly when the time since its last refill covers what is
      missing; a nanosecond more always does. */
  lemma WaitingFills(b: Bucket, now: Time, later: Time)
    requires b.Valid() && b.rate >= 1 && b.lastRefill <= now && later >= now + UntilFull(b, now)
    ensures
      var b1 := Refill(b, now);
      && (Refill(b1, later).tokens == b.capacity
          <==> (b.capacity - b1.tokens) * NANOS <= b1.Elapsed(later) * b.rate)
      && (later > now + UntilFull(b, now) ==> Refill(b1, later).tokens == b.capacity)
  {
    RefillAdds(b, now);
    var b1 := Refill(b, now);
    RefillAdds(b1, later);
    AvailableExactlyWhen(b1, b.capacity, later);
    if later > now + UntilFull(b, now) {
      WaitedLonger(b, b.capacity, now, later);
    }
  }

  /** A refused request leaves the bucket twice refilled. */
  lemma RefusedStep(b: Bucket, amount: nat, at: Time)
    requires amount > Refill(b, at).tokens
    ensures Step(b, Try(amount, at)) == (Refill(Refill(b, at), at), Refused(UntilFull(Refill(b, at), at)))
  {
  }

  /** The time at which the sleep after a refusal ends. */
  function Awake(b: Bucket, at: Time, late: Time): Time {
    at + UntilFull(Refill(b, at), at) + late
  }

  function AfterRefusal(b: Bucket, at: Time): Bucket {
    Refill(Refill(b, at), at)
  }

  lemma AfterRefusalIs(b: Bucket, at: Time)
    requires b.Valid()
    ensures
      var b2 := AfterRefusal(b, at);
      && b2.Valid() && b2.capacity == b.capacity && b2.rate == b.rate
      && (b.lastRefill <= at ==> b2.lastRefill <= at)
      && Refill(b, at).tokens <= b2.tokens
  {
    RefillAdds(b, at);
    RefillAdds(Refill(b, at), at);
  }

  lemma AcquireUnfolds(b: Bucket, amount: nat, at: Time, late: seq<Time>)
    requires b.Valid() && amount > 0
    ensures amount <= Refill(b, at).tokens ==> Acquire(b, amount, at, late).1 == Some(at)
    ensures amount > Refill(b, at).tokens ==>
              Acquire(b, amount, at, late).1
              == if late == [] then None
                 else Acquire(AfterRefusal(b, at), amount, Awake(b, at, late[0]), late[1..]).1
  {
    if amount > Refill(b, at).tokens {
      RefusedStep(b, amount, at);
    }
  }

  /** More than the capacity, or more than is there at rate zero, is never granted. */
  lemma {:induction false} NeverAcquired(b: Bucket, amount: nat, at: Time, late: seq<Time>)
    requires b.Valid() && amount > 0
    requires amount > b.capacity || (b.rate == 0 && amount > b.tokens)
    ensures Acquire(b, amount, at, late).1 == None
    decreases |late|
  {
    RefillAdds(b, at);
    AcquireUnfolds(b, amount, at, late);
    AfterRefusalIs(b, at);
    if late != [] {
      NeverAcquired(AfterRefusal(b, at), amount, Awake(b, at, late[0]), late[1..]);
    }
  }

  /** A sleep that is the least bit late is enough, whatever the rate and whatever came before. */
  lemma {:induction false} LateSleepSuffices(b: Bucket, amount: nat, at: Time, late: seq<Time>, i: nat)
    requires b.Valid() && b.lastRefill <= at && 0 < amount <= b.capacity && b.rate >= 1
    requires i < |late| && late[i] >= 1
    ensures Acquire(b, amount, at, late).1.Some?
    decreases |late|
  {
    AcquireUnfolds(b, amount, at, late);
    AfterRefusalIs(b, at);
    var b2, later := AfterRefusal(b, at), Awake(b, at, late[0]);
    if amount > Refill(b, at).tokens {
      if i == 0 {
        RefillAdds(b, at);
        WaitedLonger(Refill(b, at), amount, at, later);
        AvailableExactlyWhen(b2, amount, later);
        AcquireUnfolds(b2, amount, later, late[1..]);
      } else {
        LateSleepSuffices(b2, amount, later, late[1..], i - 1);
      }
    }
  }

  /** What a wait that falls short leaves behind, below two tokens a nanosecond: all but one token, and time
      not yet paid for. */
  lemma ShortByOne(needed: nat, rate: nat, elapsed: nat)
    requires 1 <= rate < 2 * NANOS && needed >= 1
    requires Nearest(needed * NANOS, rate) <= elapsed && elapsed * rate < needed * NANOS
    ensures elapsed * rate / NANOS == needed - 1
    ensures (needed - 1) * NANOS / rate < elapsed
  {
    NearestIsNear(needed * NANOS, rate);
    MulMono(Nearest(needed * NANOS, rate), elapsed, rate);
    MulAdd(needed - 1, 1, NANOS);
    assert (needed - 1) * NANOS < elapsed * rate;
    DivUnique(elapsed * rate, NANOS, needed - 1);
    DivAtLeast((needed - 1) * NANOS, rate, elapsed);
  }

  lemma ShortRefill(b: Bucket, amount: nat, later: Time)
    requires b.Valid() && 1 <= b.rate < 2 * NANOS && amount <= b.capacity
    requires b.Elapsed(later) >= Nearest((b.capacity - b.tokens) * NANOS, b.rate)
    requires !Covers(b, amount, later)
    ensures Refill(b, later).tokens == b.capacity - 1 && Refill(b, later).lastRefill < later
  {
    var needed, e := b.capacity - b.tokens, b.Elapsed(later);
    MissingMono(amount, b.capacity, b.tokens);
    MulMono(0, e, b.rate);
    ShortByOne(needed, b.rate, e);
    RefillAdds(b, later);
    assert b.Added(later) == needed - 1;
  }

  /** After a wait that fell short the second one suffices, even when it is exact. */
  lemma SecondSleepSuffices(b: Bucket, amount: nat, at: Time, late: Time)
    requires b.Valid() && b.lastRefill <= at && 1 <= b.rate < 2 * NANOS && 0 < amount <= b.capacity
    requires b.Elapsed(at) >= Nearest((b.capacity - b.tokens) * NANOS, b.rate)
    requires !Covers(b, amount, at)
    ensures Covers(AfterRefusal(b, at), amount, Awake(b, at, late))
  {
    ShortRefill(b, amount, at);
    var b1, b2, later := Refill(b, at), AfterRefusal(b, at), Awake(b, at, late);
    RefillAdds(b, at);
    AfterRefusalIs(b, at);
    if b2.tokens == b2.capacity {
      MissingMono(amount, b2.capacity, b2.tokens);
      MulMono(0, b2.Elapsed(later), b2.rate);
    } else {
      RefillAdds(b1, at);
      assert b1.Added(at) == 0;
      if b1.rate >= 1 {
        DivUnique(0, b1.rate, 0);
      }
      assert b2.lastRefill < at;
      WaitedLonger(b1, amount, at, later);
    }
  }

  // From two tokens a nanosecond on a wait can fall short by more than one token.

  /** What is missing is less than half a nanosecond's worth, and no time is unpaid. */
  ghost predicate Stalled(b: Bucket, at: Time) {
    b.rate >= 1 && b.lastRefill == at && b.tokens <= b.capacity && Nearest((b.capacity - b.tokens) * NANOS, b.rate) == 0
  }

  lemma NothingElapsed(b: Bucket, at: Time)
    requires b.Valid() && b.lastRefill >= at
    ensures Refill(b, at) == b && AfterRefusal(b, at) == b
  {
    assert b.Due(at) == 0;
  }

  /** The first sleep that is not exact, and by how much. */
  function FirstLate(late: seq<Time>): Option<Time> {
    if late == [] then None else if late[0] > 0 then Some(late[0]) else FirstLate(late[1..])
  }

  function After(at: Time, late: Option<Time>): Option<Time> {
    match late
    case None => None
    case Some(d) => Some(at + d)
  }

  /** A stalled caller waits for nothing, over and over, until a sleep is late. */
  lemma {:induction false} StalledWaits(b: Bucket, amount: nat, at: Time, late: seq<Time>)
    requires Stalled(b, at) && b.tokens < amount <= b.capacity
    ensures Acquire(b, amount, at, late).1 == After(at, FirstLate(late))
    decreases |late|
  {
    NothingElapsed(b, at);
    AcquireUnfolds(b, amount, at, late);
    if late != [] {
      var later := Awake(b, at, late[0]);
      assert UntilFull(b, at) == 0 && later == at + late[0];
      if late[0] == 0 {
        StalledWaits(b, amount, at, late[1..]);
      } else {
        WaitedLonger(b, amount, at, later);
        AvailableExactlyWhen(b, amount, later);
        AcquireUnfolds(b, amount, later, late[1..]);
      }
    }
  }

  /** A refill at the end of a wait that fell short is not capped. */
  lemma ShortIsUncapped(b: Bucket, amount: nat, at: Time)
    requires b.Valid() && amount <= b.capacity && !Covers(b, amount, at)
    ensures !Spills(b, at) && Refill(b, at).tokens < amount
  {
    AvailableExactlyWhen(b, amount, at);
    RefillAdds(b, at);
  }

  /** One nanosecond stays unpaid when a part of a token was due. */
  lemma NanosecondUnpaid(b: Bucket, at: Time)
    requires b.Valid() && b.rate >= 2 * NANOS && b.Elapsed(at) * b.rate % NANOS != 0 && !Spills(b, at)
    ensures Refill(b, at).Elapsed(at) == 1 && b.rate % NANOS != 0
  {
    assert b.Elapsed(at) > 0;
    FastDue(b, at);
    UncappedRefill(b, at);
    BetweenMultiples(Refill(b, at).Elapsed(at), b.rate);
    if b.rate % NANOS == 0 {
      WholeMultiple(b.Elapsed(at), b.rate);
    }
  }

  /** Then the next sleep suffices, even when it is exact. */
  lemma UnpaidNanosecondSuffices(b: Bucket, amount: nat, at: Time, late: Time)
    requires b.Valid() && b.lastRefill <= at && b.rate >= 2 * NANOS && amount <= b.capacity && !Covers(b, amount, at)
    requires b.Elapsed(at) * b.rate % NANOS != 0
    ensures Covers(AfterRefusal(b, at), amount, Awake(b, at, late))
  {
    ShortIsUncapped(b, amount, at);
    NanosecondUnpaid(b, at);
    var b1, b2, later := Refill(b, at), AfterRefusal(b, at), Awake(b, at, late);
    RefillAdds(b, at);
    AfterRefusalIs(b, at);
    if Spills(b1, at) {
      SpillingRefill(b1, at);
      MissingMono(amount, b2.capacity, b2.tokens);
      MulMono(0, b2.Elapsed(later), b2.rate);
    } else {
      NanosecondUnpaid(b1, at);
      WaitedLonger(b1, amount, at, later);
    }
  }

  /** What is missing when exactly whole tokens came of a wait to the nearest nanosecond. */
  lemma LittleMissing(needed: nat, rate: nat, wait: nat, due: nat)
    requires rate >= 1 && wait == Nearest(needed * NANOS, rate) && due <= needed && due * NANOS == wait * rate
    ensures Nearest((needed - due) * NANOS, rate) == 0
  {
    NearestIsNear(needed * NANOS, rate);
    MulAdd(needed - due, due, NANOS);
    var left := (needed - due) * NANOS;
    assert 0 <= left && 2 * left <= rate;
    DivUnique(left, rate, 0);
  }

  /** When whole tokens were due, everything is paid. */
  lemma WholeTokensPaid(b: Bucket, at: Time)
    requires b.Valid() && b.lastRefill <= at && b.rate >= 1 && !Spills(b, at) && b.Elapsed(at) * b.rate % NANOS == 0
    ensures
      var b' := AfterRefusal(b, at);
      b' == b.(tokens := b'.tokens, lastRefill := at) && (b'.tokens - b.tokens) * NANOS == b.Elapsed(at) * b.rate
  {
    var e, d := b.Elapsed(at), b.Due(at);
    assert d * NANOS == e * b.rate;
    DivUnique(e * b.rate, b.rate, e);
    RefillAdds(b, at);
    if e > 0 {
      MulMono(1, e, b.rate);
      DivAtLeast(e * b.rate, NANOS, 1);
      NothingElapsed(Refill(b, at), at);
    } else {
      NothingElapsed(b, at);
    }
  }

  /** And the caller is stalled. */
  lemma WholeTokensStall(b: Bucket, amount: nat, at: Time)
    requires b.Valid() && b.lastRefill <= at && b.rate >= 1 && amount <= b.capacity && !Covers(b, amount, at)
    requires b.Elapsed(at) == Nearest((b.capacity - b.tokens) * NANOS, b.rate)
    requires b.Elapsed(at) * b.rate % NANOS == 0
    ensures Stalled(AfterRefusal(b, at), at) && AfterRefusal(b, at).tokens < amount
  {
    ShortIsUncapped(b, amount, at);
    WholeTokensPaid(b, at);
    AfterRefusalIs(b, at);
    var b' := AfterRefusal(b, at);
    MissingIs(b, b', amount, at);
    LittleMissing(b.capacity - b.tokens, b.rate, b.Elapsed(at), b'.tokens - b.tokens);
  }

  /** `amount` was missing before as much as it is now, and the time that brought the difference. */
  lemma MissingIs(b: Bucket, b': Bucket, amount: nat, at: Time)
    requires b.Valid() && amount <= b.capacity && !Covers(b, amount, at)
    requires b.tokens <= b'.tokens && (b'.tokens - b.tokens) * NANOS == b.Elapsed(at) * b.rate
    ensures b'.tokens < amount
  {
    MulMono(amount - b.tokens, b'.tokens - b.tokens, NANOS);
  }

  lemma FastSecondSleep(b: Bucket, amount: nat, at: Time, late: seq<Time>)
    requires b.Valid() && b.lastRefill <= at && b.rate >= 2 * NANOS && 0 < amount <= b.capacity
    requires b.Elapsed(at) == Nearest((b.capacity - b.tokens) * NANOS, b.rate) && !Covers(b, amount, at)
    ensures Acquire(b, amount, at, late).1
         == if b.Elapsed(at) * b.rate % NANOS == 0 then After(at, FirstLate(late))
            else if late == [] then None
            else Some(Awake(b, at, late[0]))
  {
    AvailableExactlyWhen(b, amount, at);
    AcquireUnfolds(b, amount, at, late);
    if b.Elapsed(at) * b.rate % NANOS == 0 {
      StalledRetry(b, amount, at, late);
    } else if late != [] {
      var b', later := AfterRefusal(b, at), Awake(b, at, late[0]);
      UnpaidNanosecondSuffices(b, amount, at, late[0]);
      AfterRefusalIs(b, at);
      AvailableExactlyWhen(b', amount, later);
      AcquireUnfolds(b', amount, later, late[1..]);
    }
  }

  /** The try that ends a wait with whole tokens goes as one from the stalled bucket. */
  lemma StalledRetry(b: Bucket, amount: nat, at: Time, late: seq<Time>)
    requires b.Valid() && b.lastRefill <= at && b.rate >= 1 && 0 < amount <= b.capacity
    requires b.Elapsed(at) == Nearest((b.capacity - b.tokens) * NANOS, b.rate) && !Covers(b, amount, at)
    requires b.Elapsed(at) * b.rate % NANOS == 0
    ensures Acquire(b, amount, at, late).1 == After(at, FirstLate(late))
  {
    WholeTokensStall(b, amount, at);
    AvailableExactlyWhen(b, amount, at);
    RetryAlike(b, amount, at, late);
    StalledWaits(AfterRefusal(b, at), amount, at, late);
  }

  lemma RetryAlike(b: Bucket, amount: nat, at: Time, late: seq<Time>)
    requires b.Valid() && amount > 0 && Refill(b, at).tokens < amount
    requires AfterRefusal(b, at).lastRefill >= at && AfterRefusal(b, at).tokens < amount
    ensures Acquire(b, amount, at, late).1 == Acquire(AfterRefusal(b, at), amount, at, late).1
  {
    var b' := AfterRefusal(b, at);
    AfterRefusalIs(b, at);
    NothingElapsed(b', at);
    SameWait(b, at);
    AcquireUnfolds(b, amount, at, late);
    AcquireUnfolds(b', amount, at, late);
  }

  /** After a refusal that leaves nothing unpaid the wait is that of the bucket it leaves. */
  lemma SameWait(b: Bucket, at: Time)
    requires b.Valid() && AfterRefusal(b, at).lastRefill >= at
    ensures UntilFull(Refill(b, at), at) == UntilFull(Refill(AfterRefusal(b, at), at), at)
  {
    AfterRefusalIs(b, at);
    NothingElapsed(AfterRefusal(b, at), at);
  }

  /** A sole caller gets its tokens at once; or never, when they do not fit or the rate is zero; or when the
      first sleep ends, if that covers what is missing (a nanosecond late is enough); or when the second one
      ends, below two tokens a nanosecond and when the wait brought a part of a token; or else when the first
      late sleep ends, if there is one. */
  lemma AcquireReturnsExactlyWhen(b: Bucket, amount: nat, at: Time, late: seq<Time>)
    requires b.Valid() && b.lastRefill <= at && amount > 0
    ensures
      var result, b2 := Acquire(b, amount, at, late).1, AfterRefusal(b, at);
      if amount <= Refill(b, at).tokens then result == Some(at)
      else if late == [] || amount > b.capacity || b.rate == 0 then result == None
      else
        var later, wait := Awake(b, at, late[0]), UntilFull(Refill(b, at), at);
        && (late[0] >= 1 ==> Covers(b2, amount, later))
        && result == if Covers(b2, amount, later) then Some(later)
                     else if b.rate >= 2 * NANOS && wait * b.rate % NANOS == 0 then After(later, FirstLate(late[1..]))
                     else if |late| == 1 then None
                     else Some(Awake(b2, later, late[1]))
  {
    AcquireUnfolds(b, amount, at, late);
    RefillAdds(b, at);
    AfterRefusalIs(b, at);
    if amount > Refill(b, at).tokens {
      if amount > b.capacity || b.rate == 0 {
        NeverAcquired(b, amount, at, late) by {
          assert b.rate == 0 ==> b.Due(at) == 0;
        }
      } else if late != [] {
        FirstSleep(b, amount, at, late);
      }
    }
  }

  lemma SecondSleep(b: Bucket, amount: nat, at: Time, late: seq<Time>)
    requires b.Valid() && b.lastRefill <= at && 1 <= b.rate < 2 * NANOS && 0 < amount <= b.capacity
    requires b.Elapsed(at) >= Nearest((b.capacity - b.tokens) * NANOS, b.rate)
    requires !Covers(b, amount, at)
    ensures Acquire(b, amount, at, late).1 == if late == [] then None else Some(Awake(b, at, late[0]))
  {
    AvailableExactlyWhen(b, amount, at);
    AcquireUnfolds(b, amount, at, late);
    if late != [] {
      var b', later := AfterRefusal(b, at), Awake(b, at, late[0]);
      SecondSleepSuffices(b, amount, at, late[0]);
      AfterRefusalIs(b, at);
      AvailableExactlyWhen(b', amount, later);
      AcquireUnfolds(b', amount, later, late[1..]);
    }
  }

  lemma SleptLongEnough(b: Bucket, at: Time, late: Time)
    requires b.Valid() && b.lastRefill <= at && b.rate >= 1
    ensures
      var b2, later := AfterRefusal(b, at), Awake(b, at, late);
      && b2.Elapsed(later) >= Nearest((b2.capacity - b2.tokens) * NANOS, b2.rate)
      && (late >= 1 ==> b2.Elapsed(later) > UntilFull(Refill(b, at), at))
  {
    AfterRefusalIs(b, at);
    if AfterRefusal(b, at).tokens == b.capacity {
      NearestIsNear(0, b.rate);
      DivUnique(0, b.rate, 0);
    }
  }

  /** A first sleep that does not suffice was exact, and no time is unpaid before it. */
  lemma ShortSleepIsExact(b: Bucket, amount: nat, at: Time, late: Time)
    requires b.Valid() && b.lastRefill <= at && b.rate >= 1 && amount <= b.capacity
    ensures
      var b2, later, wait := AfterRefusal(b, at), Awake(b, at, late), UntilFull(Refill(b, at), at);
      !Covers(b2, amount, later)
      ==> late == 0 && b2.Elapsed(later) == wait == Nearest((b2.capacity - b2.tokens) * NANOS, b2.rate)
  {
    var b2, later := AfterRefusal(b, at), Awake(b, at, late);
    RefillAdds(b, at);
    AfterRefusalIs(b, at);
    SleptLongEnough(b, at, late);
    if b2.Elapsed(later) > UntilFull(Refill(b, at), at) {
      WaitedLonger(Refill(b, at), amount, at, later);
    }
    NearestIsNear(0, b.rate);
    DivUnique(0, b.rate, 0);
  }

  lemma FirstSleep(b: Bucket, amount: nat, at: Time, late: seq<Time>)
    requires b.Valid() && b.lastRefill <= at && Refill(b, at).tokens < amount <= b.capacity && b.rate >= 1
    requires late != []
    ensures
      var result, b2, later := Acquire(b, amount, at, late).1, AfterRefusal(b, at), Awake(b, at, late[0]);
      var wait := UntilFull(Refill(b, at), at);
      && (late[0] >= 1 ==> Covers(b2, amount, later))
      && result == if Covers(b2, amount, later) then Some(later)
                   else if b.rate >= 2 * NANOS && wait * b.rate % NANOS == 0 then After(later, FirstLate(late[1..]))
                   else if |late| == 1 then None
                   else Some(Awake(b2, later, late[1]))
  {
    var b2, later := AfterRefusal(b, at), Awake(b, at, late[0]);
    RefillAdds(b, at);
    AfterRefusalIs(b, at);
    AcquireUnfolds(b, amount, at, late);
    AvailableExactlyWhen(b2, amount, later);
    AcquireUnfolds(b2, amount, later, late[1..]);
    ShortSleepIsExact(b, amount, at, late[0]);
    if !Covers(b2, amount, later) {
      if b.rate < 2 * NANOS {
        SecondSleep(b2, amount, later, late[1..]);
      } else {
        FastSecondSleep(b2, amount, later, late[1..]);
      }
    }
  }

  ghost predicate AllExact(late: seq<Time>) {
    forall i :: 0 <= i < |late| ==> late[i] == 0
  }

  lemma {:induction false} ExactIsNeverLate(late: seq<Time>)
    requires AllExact(late)
    ensures FirstLate(late) == None
  {
    if late != [] {
      ExactIsNeverLate(late[1..]);
    }
  }

  /** What must hold of the first wait when every sleep is exact. */
  ghost predicate WaitHelps(b: Bucket, amount: nat, at: Time) {
    var wait := UntilFull(Refill(b, at), at);
    && amount <= b.capacity && b.rate >= 1
    && (|| Covers(AfterRefusal(b, at), amount, at + wait)
        || b.rate < 2 * NANOS
        || wait * b.rate % NANOS != 0)
  }

  /** With exact sleeps `acquire` ever returns exactly when the tokens are there, or they fit, the rate is
      positive, and: the first sleep covers what is missing, or the rate is below two tokens a nanosecond, or
      the wait brings a part of a token. Two sleeps are then enough. */
  lemma ExactSleepsReturnExactlyWhen(b: Bucket, amount: nat, at: Time, late: seq<Time>)
    requires b.Valid() && b.lastRefill <= at && amount > 0 && AllExact(late)
    ensures Acquire(b, amount, at, late).1.Some? ==> amount <= Refill(b, at).tokens || WaitHelps(b, amount, at)
    ensures |late| >= 2 && (amount <= Refill(b, at).tokens || WaitHelps(b, amount, at))
            ==> Acquire(b, amount, at, late).1.Some?
  {
    AcquireReturnsExactlyWhen(b, amount, at, late);
    if late != [] {
      ExactIsNeverLate(late[1..]);
    }
  }

  /** Nothing asked for is had at once, the bucket unseen. */
  lemma NothingIsAcquiredAtOnce(b: Bucket, at: Time, late: seq<Time>)
    ensures Acquire(b, 0, at, late) == (b, Some(at))
  {
  }

  /** The waiting form takes what it was asked for once it returns, and nothing before or otherwise: it is a run
      of requests, each refused but the last. */
  lemma {:induction false} AcquireIsARun(b: Bucket, amount: nat, at: Time, late: seq<Time>) returns (es: seq<Event>)
    requires amount > 0
    ensures es != [] && es[0] == Try(amount, at)
    ensures forall i :: 0 <= i < |es| ==> es[i].Try? && es[i].amount == amount
    ensures
      var (b', result) := Acquire(b, amount, at, late);
      && Final(b, es) == b'
      && TotalGranted(b, es) == (if result.Some? then amount else 0)
      && (result.Some? ==> es[|es| - 1].at == result.value)
      && (result.None? ==> |es| == |late| + 1)
    decreases |late|
  {
    var (b', o) := Step(b, Try(amount, at));
    es := [Try(amount, at)];
    assert es[1..] == [];
    if o.Refused? && late != [] {
      var more := AcquireIsARun(b', amount, at + o.retryAfter + late[0], late[1..]);
      es := [Try(amount, at)] + more;
      assert es[1..] == more;
    }
  }

  /** Three tokens a second, none there: an exact sleep of the time until full brings none. */
  lemma ExactSleepFallsShort(b: Bucket)
    requires b == Bucket(0, 0, 1, 3)
    ensures UntilFull(b, 0) == 333_333_333 && Refill(b, 333_333_333) == b
  {
  }

  /** Three tokens a nanosecond: the time until full is none at all, and exact sleeps never end. */
  lemma ExactSleepsStarve(b: Bucket, late: seq<Time>)
    requires b == Bucket(0, 0, 1, 3 * NANOS) && AllExact(late)
    ensures Acquire(b, 1, 0, late).1 == None
  {
    assert Stalled(b, 0);
    StalledWaits(b, 1, 0, late);
    ExactIsNeverLate(late);
  }
}
