/**
 The token bucket of src/ratelimit.rs, with exact integers in place of the source's floating point:
 `elapsed * rate / 10^9` tokens are due, and `added * 10^9 / rate` nanoseconds pay for `added` tokens.
 */
module TokenBuckets {
  import opened Arithmetic

  /** Nanoseconds. */
  type Time = nat

  const NANOS: nat := 1_000_000_000

  datatype Bucket = Bucket(tokens: nat, lastRefill: Time, capacity: nat, rate: nat) {
    ghost predicate Valid() {
      tokens <= capacity
    }

    function Elapsed(now: Time): nat {
      if now <= lastRefill then 0 else now - lastRefill
    }

    /** Tokens earned since the last refill, the capacity left aside. */
    function Due(now: Time): nat {
      Elapsed(now) * rate / NANOS
    }

    /** Tokens a refill adds. */
    function Added(now: Time): nat {
      if tokens + Due(now) <= capacity then Due(now)
      else if tokens <= capacity then capacity - tokens
      else 0
    }

    /** Time paid for `added` tokens. */
    function Paid(added: nat): nat {
      if rate == 0 then 0 else added * NANOS / rate
    }
  }

  function Full(capacity: nat, rate: nat, now: Time): Bucket {
    Bucket(capacity, now, capacity, rate)
  }

  /** What a refill at `now` leaves: tokens up to the capacity, and the clock moved on by what they cost. */
  function Refill(b: Bucket, now: Time): Bucket {
    if b.Due(now) == 0 then b
    else b.(tokens := Min(b.tokens + b.Due(now), b.capacity),
            lastRefill := b.lastRefill + Min(b.Paid(b.Added(now)), b.Elapsed(now)))
  }

  function Consume(b: Bucket, amount: nat, now: Time): (Bucket, bool) {
    var b' := Refill(b, now);
    if b'.tokens < amount then (b', false) else (b'.(tokens := b'.tokens - amount), true)
  }

  /** Time until the bucket is full, to the nearest nanosecond; a minute when nothing is ever added. */
  function UntilFull(b: Bucket, now: Time): Time {
    var b' := Refill(b, now);
    if b'.tokens >= b'.capacity then 0
    else if b'.rate == 0 then 60 * NANOS
    else Nearest((b'.capacity - b'.tokens) * NANOS, b'.rate)
  }

  // ---------------------------------------------------------------- one refill

  lemma PaidWithinElapsed(b: Bucket, now: Time, added: nat)
    requires added <= b.Due(now)
    ensures b.Paid(added) <= b.Elapsed(now)
  {
    if b.rate > 0 {
      var e := b.Elapsed(now);
      DivAtLeast(e * b.rate, NANOS, added);
      assert added * NANOS <= e * b.rate;
      DivMono(added * NANOS, e * b.rate, b.rate);
      DivUnique(e * b.rate, b.rate, e);
    }
  }

  /** The refill in plain terms; the cap on the time paid never bites. */
  lemma RefillAdds(b: Bucket, now: Time)
    requires b.Valid()
    ensures
      var b' := Refill(b, now);
      && b'.Valid()
      && b'.tokens == b.tokens + b.Added(now)
      && b'.lastRefill == b.lastRefill + b.Paid(b.Added(now))
      && (b.lastRefill <= now ==> b'.lastRefill <= now)
      && b'.capacity == b.capacity && b'.rate == b.rate
  {
    PaidWithinElapsed(b, now, b.Added(now));
    if b.rate > 0 {
      DivUnique(0, b.rate, 0);
    }
  }

  // ---------------------------------------------------------------- the closed form

  /** Nanosecond-tokens that a refill hands out without charging for them: the rounding of the time paid. */
  function Rounding(b: Bucket, now: Time): nat {
    if b.rate == 0 then 0 else b.Added(now) * NANOS % b.rate
  }

  /** All tokens since `t0` are accounted for: rate times the time paid, plus the rounding so far,
      is what the tokens still here and the tokens granted cost beyond the first `capacity`. */
  ghost predicate Accounts(b: Bucket, t0: Time, granted: nat, rounding: nat) {
    && b.Valid()
    && t0 <= b.lastRefill
    && b.rate * (b.lastRefill - t0) + rounding == (b.tokens + granted - b.capacity) * NANOS
  }

  /** `earlier` and `paid` nanoseconds of earlier and new refills; `k` tokens before, `added` more now. */
  lemma AccountsAdd(rate: nat, earlier: nat, paid: nat, rounding: nat, rest: nat, k: int, added: nat)
    requires rate * earlier + rounding == k * NANOS && added * NANOS == paid * rate + rest
    ensures rate * (earlier + paid) + (rounding + rest) == (k + added) * NANOS
  {
    MulAdd(earlier, paid, rate);
    MulAdd(k, added, NANOS);
  }

  /** Time not yet paid for, over `NANOS`, against all the time. */
  lemma DueInAccounts(rate: nat, earlier: nat, all: nat, rounding: nat, k: int)
    requires earlier <= all && rate * earlier + rounding == k * NANOS
    ensures (all - earlier) * rate / NANOS == (rate * all + rounding) / NANOS - k
  {
    MulAdd(all - earlier, earlier, rate);
    DivShift(rate * all + rounding, NANOS, k);
  }

  lemma RoundingRest(b: Bucket, now: Time)
    requires b.rate >= 1
    ensures b.Added(now) * NANOS == b.Paid(b.Added(now)) * b.rate + Rounding(b, now)
  {
  }

  lemma RefillKeepsAccounts(b: Bucket, t0: Time, granted: nat, rounding: nat, now: Time)
    requires Accounts(b, t0, granted, rounding) && b.rate >= 1 && b.lastRefill <= now
    ensures Accounts(Refill(b, now), t0, granted, rounding + Rounding(b, now))
    ensures Refill(b, now).tokens
         == Min(b.capacity, b.capacity + (b.rate * (now - t0) + rounding) / NANOS - granted)
  {
    var k, earlier, added := b.tokens + granted - b.capacity, b.lastRefill - t0, b.Added(now);
    RefillAdds(b, now);
    RoundingRest(b, now);
    AccountsAdd(b.rate, earlier, b.Paid(added), rounding, Rounding(b, now), k, added);
    DueInAccounts(b.rate, earlier, now - t0, rounding, k);
    assert b.Due(now) == (now - t0 - earlier) * b.rate / NANOS;
  }

  /** Calls on one bucket, as made through the limiter: `try_acquire` with an amount, and `status`. */
  datatype Event =
    | Try(amount: nat, at: Time)
    | Status(at: Time)

  datatype Outcome =
    | Granted
    | Refused(retryAfter: Time)
    | Reported(remaining: nat, resetsIn: Time)

  function Step(b: Bucket, e: Event): (Bucket, Outcome) {
    match e
    case Try(amount, at) =>
      if amount == 0 then (b, Granted)
      else
        var (b', ok) := Consume(b, amount, at);
        if ok then (b', Granted) else (Refill(b', at), Refused(UntilFull(b', at)))
    case Status(at) =>
      var b' := Refill(b, at);
      (Refill(b', at), Reported(b'.tokens, UntilFull(b', at)))
  }

  function Final(b: Bucket, es: seq<Event>): Bucket
    decreases |es|
  {
    if es == [] then b else Final(Step(b, es[0]).0, es[1..])
  }

  function Outcomes(b: Bucket, es: seq<Event>): (os: seq<Outcome>)
    ensures |os| == |es|
    decreases |es|
  {
    if es == [] then []
    else
      var (b', o) := Step(b, es[0]);
      [o] + Outcomes(b', es[1..])
  }

  /** Tokens handed out over a run. */
  function TotalGranted(b: Bucket, es: seq<Event>): nat
    decreases |es|
  {
    if es == [] then 0
    else
      var (b', o) := Step(b, es[0]);
      (if es[0].Try? && o.Granted? then es[0].amount else 0) + TotalGranted(b', es[1..])
  }

  /** The clock readings of the refills a call makes. */
  function Refills(b: Bucket, e: Event): seq<Bucket> {
    match e
    case Try(amount, at) =>
      if amount == 0 then []
      else if Consume(b, amount, at).1 then [b]
      else [b, Refill(b, at)]
    case Status(at) => [b, Refill(b, at)]
  }

  function RoundingOf(bs: seq<Bucket>, at: Time): nat {
    if bs == [] then 0 else Rounding(bs[0], at) + RoundingOf(bs[1..], at)
  }

  function AddingOf(bs: seq<Bucket>, at: Time): nat {
    if bs == [] then 0 else (if bs[0].Added(at) > 0 then 1 else 0) + AddingOf(bs[1..], at)
  }

  function TotalRounding(b: Bucket, es: seq<Event>): nat
    decreases |es|
  {
    if es == [] then 0 else RoundingOf(Refills(b, es[0]), es[0].at) + TotalRounding(Step(b, es[0]).0, es[1..])
  }

  /** How many refills of a run added tokens. */
  function TotalAdding(b: Bucket, es: seq<Event>): nat
    decreases |es|
  {
    if es == [] then 0 else AddingOf(Refills(b, es[0]), es[0].at) + TotalAdding(Step(b, es[0]).0, es[1..])
  }

  /** Clock readings in order, none before `start` or after `end`. */
  ghost predicate Timed(es: seq<Event>, start: Time, end: Time)
    decreases |es|
  {
    if es == [] then start <= end else start <= es[0].at && Timed(es[1..], es[0].at, end)
  }

  lemma {:induction false} TimedEnds(es: seq<Event>, start: Time, end: Time)
    requires Timed(es, start, end)
    ensures start <= end
    decreases |es|
  {
    if es != [] {
      TimedEnds(es[1..], es[0].at, end);
    }
  }

  lemma StepKeepsAccounts(b: Bucket, t0: Time, granted: nat, rounding: nat, e: Event)
    requires Accounts(b, t0, granted, rounding) && b.rate >= 1 && b.lastRefill <= e.at
    ensures
      var (b', o) := Step(b, e);
      && Accounts(b', t0, granted + (if e.Try? && o.Granted? then e.amount else 0),
                  rounding + RoundingOf(Refills(b, e), e.at))
      && b'.rate == b.rate && b'.capacity == b.capacity && b'.lastRefill <= e.at
  {
    var b1 := Refill(b, e.at);
    RefillAdds(b, e.at);
    RefillKeepsAccounts(b, t0, granted, rounding, e.at);
    RefillAdds(b1, e.at);
    RefillKeepsAccounts(b1, t0, granted, rounding + Rounding(b, e.at), e.at);
    assert RoundingOf([b], e.at) == Rounding(b, e.at) + RoundingOf([], e.at);
    assert [b, b1][1..] == [b1];
    assert RoundingOf([b1], e.at) == Rounding(b1, e.at) + RoundingOf([], e.at);
  }

  lemma {:induction false} RunKeepsAccounts(b: Bucket, t0: Time, granted: nat, rounding: nat,
                                            es: seq<Event>, now: Time, end: Time)
    requires Accounts(b, t0, granted, rounding) && b.rate >= 1 && b.lastRefill <= now && Timed(es, now, end)
    ensures Accounts(Final(b, es), t0, granted + TotalGranted(b, es), rounding + TotalRounding(b, es))
    ensures Final(b, es).rate == b.rate && Final(b, es).capacity == b.capacity && Final(b, es).lastRefill <= end
    decreases |es|
  {
    if es != [] {
      var e := es[0];
      var (b', o) := Step(b, e);
      StepKeepsAccounts(b, t0, granted, rounding, e);
      RunKeepsAccounts(b', t0, granted + (if e.Try? && o.Granted? then e.amount else 0),
                       rounding + RoundingOf(Refills(b, e), e.at), es[1..], e.at, end);
    }
  }

  lemma RoundingIsSmall(b: Bucket, now: Time)
    requires b.rate >= 1
    ensures Rounding(b, now) <= if b.Added(now) > 0 then b.rate - 1 else 0
    ensures NANOS % b.rate == 0 ==> Rounding(b, now) == 0
  {
    var added := b.Added(now);
    if added == 0 {
      DivUnique(0, b.rate, 0);
    }
    if NANOS % b.rate == 0 {
      var q := NANOS / b.rate;
      assert NANOS == q * b.rate;
      assert added * NANOS == (added * q) * b.rate;
      DivUnique(added * NANOS, b.rate, added * q) by {
        assert (added * q + 1) * b.rate == (added * q) * b.rate + b.rate;
      }
    }
  }

  lemma {:induction false} RefillsRoundLittle(bs: seq<Bucket>, at: Time, rate: nat)
    requires rate >= 1 && forall b :: b in bs ==> b.rate == rate
    ensures RoundingOf(bs, at) <= AddingOf(bs, at) * (rate - 1)
    ensures NANOS % rate == 0 ==> RoundingOf(bs, at) == 0
    decreases |bs|
  {
    if bs != [] {
      RoundingIsSmall(bs[0], at);
      RefillsRoundLittle(bs[1..], at, rate);
      var x := if bs[0].Added(at) > 0 then 1 else 0;
      MulAdd(x, AddingOf(bs[1..], at), rate - 1);
    }
  }

  lemma {:induction false} RunRoundsLittle(b: Bucket, es: seq<Event>)
    requires b.rate >= 1
    ensures TotalRounding(b, es) <= TotalAdding(b, es) * (b.rate - 1)
    ensures NANOS % b.rate == 0 ==> TotalRounding(b, es) == 0
    decreases |es|
  {
    if es != [] {
      var b' := Step(b, es[0]).0;
      assert b'.rate == b.rate;
      RefillsRoundLittle(Refills(b, es[0]), es[0].at, b.rate);
      RunRoundsLittle(b', es[1..]);
      MulAdd(AddingOf(Refills(b, es[0]), es[0].at), TotalAdding(b', es[1..]), b.rate - 1);
    }
  }

  /** Tokens that would be there at `t` if every grant since `t0` came out of one uncapped account. */
  function Ideal(capacity: nat, rate: nat, t0: Time, t: Time, granted: nat, rounding: nat): int
    requires t0 <= t
  {
    capacity + (rate * (t - t0) + rounding) / NANOS - granted
  }

  /** The stepwise bucket against its closed form: exact up to the rounding, which is zero when the
      rate divides 10^9 and less than `rate` for each refill that adds tokens. */
  lemma BucketRefinesClosedForm(capacity: nat, rate: nat, t0: Time, es: seq<Event>, t: Time)
    requires rate >= 1 && Timed(es, t0, t)
    ensures t0 <= t
    ensures
      var b := Full(capacity, rate, t0);
      var granted, rounding := TotalGranted(b, es), TotalRounding(b, es);
      && Refill(Final(b, es), t).tokens == Min(capacity, Ideal(capacity, rate, t0, t, granted, rounding))
      && rounding <= TotalAdding(b, es) * (rate - 1)
      && (NANOS % rate == 0 ==> rounding == 0)
  {
    var b := Full(capacity, rate, t0);
    TimedEnds(es, t0, t);
    RunKeepsAccounts(b, t0, 0, 0, es, t0, t);
    RunRoundsLittle(b, es);
    RefillKeepsAccounts(Final(b, es), t0, TotalGranted(b, es), TotalRounding(b, es), t);
  }

  /** Whatever the calls, grants since creation or reset are bounded, and a request is granted exactly
      when the closed form covers it. */
  lemma GrantsAreBounded(capacity: nat, rate: nat, t0: Time, es: seq<Event>, t: Time, amount: nat)
    requires rate >= 1 && Timed(es, t0, t) && amount > 0
    ensures t0 <= t
    ensures
      var b := Full(capacity, rate, t0);
      var granted, n := TotalGranted(b, es), TotalAdding(b, es);
      && granted <= capacity + (rate * (t - t0) + n * (rate - 1)) / NANOS
      && (NANOS % rate == 0 ==> granted <= capacity + rate * (t - t0) / NANOS)
      && (Step(Final(b, es), Try(amount, t)).1.Granted? <==>
          amount <= capacity && amount <= Ideal(capacity, rate, t0, t, granted, TotalRounding(b, es)))
  {
    BucketRefinesClosedForm(capacity, rate, t0, es, t);
    var b := Full(capacity, rate, t0);
    DivMono(rate * (t - t0) + TotalRounding(b, es), rate * (t - t0) + TotalAdding(b, es) * (rate - 1), NANOS);
  }

  // ---------------------------------------------------------------- in plain numbers

  /** A refill adds every whole token that was earned and fits, and charges for each the time it takes, rounded
      down; nothing else changes, and nothing at all at rate zero or when the clock has not moved on. */
  lemma RefillInPlainNumbers(b: Bucket, now: Time)
    requires b.Valid()
    ensures
      var b' := Refill(b, now);
      var elapsed := if now > b.lastRefill then now - b.lastRefill else 0;
      var added, paid := b'.tokens - b.tokens, b'.lastRefill - b.lastRefill;
      && b'.capacity == b.capacity && b'.rate == b.rate
      && 0 <= added && b'.tokens <= b.capacity && 0 <= paid <= elapsed
      && added * 1_000_000_000 <= elapsed * b.rate
      && (b'.tokens < b.capacity ==> elapsed * b.rate < (added + 1) * 1_000_000_000)
      && (b.rate > 0 ==> paid * b.rate <= added * 1_000_000_000 < (paid + 1) * b.rate)
      && (b.rate == 0 || elapsed == 0 ==> b' == b)
  {
    RefillAdds(b, now);
    PaidWithinElapsed(b, now, b.Added(now));
    WholeTokens(b.Elapsed(now) * b.rate, b.Added(now));
    if b.rate > 0 {
      Charged(b.Added(now), b.rate);
    }
  }

  lemma WholeTokens(x: nat, added: nat)
    ensures added <= x / NANOS ==> added * NANOS <= x
    ensures added == x / NANOS ==> x < (added + 1) * NANOS
  {
    DivAtLeast(x, NANOS, added);
    DivAtLeast(x, NANOS, added + 1);
  }

  lemma Charged(added: nat, rate: nat)
    requires rate > 0
    ensures
      var paid := added * NANOS / rate;
      paid * rate <= added * NANOS < (paid + 1) * rate
  {
    var paid := added * NANOS / rate;
    DivAtLeast(added * NANOS, rate, paid);
    DivAtLeast(added * NANOS, rate, paid + 1);
  }

  /** The wait is the time in which the missing tokens are earned, to half a nanosecond either way: none when
      full, a minute at rate zero. */
  lemma WaitInPlainNumbers(b: Bucket, now: Time)
    requires b.Valid()
    ensures
      var wait, missing := UntilFull(b, now), b.capacity - Refill(b, now).tokens;
      && (missing == 0 ==> wait == 0)
      && (missing > 0 && b.rate == 0 ==> wait == 60_000_000_000)
      && (b.rate > 0 ==> 2 * missing * 1_000_000_000 - b.rate <= 2 * wait * b.rate
                         <= 2 * missing * 1_000_000_000 + b.rate)
      && (b.rate > 0 && wait > 0 ==> (wait - 1) * b.rate < missing * 1_000_000_000)
  {
    RefillAdds(b, now);
    var missing := b.capacity - Refill(b, now).tokens;
    if b.rate > 0 {
      NearestIsNear(missing * NANOS, b.rate);
      if missing == 0 {
        DivUnique(0, b.rate, 0);
      }
      var wait := UntilFull(b, now);
      HalfEitherWay(wait, missing, b.rate);
    }
  }

  lemma HalfEitherWay(wait: nat, missing: nat, rate: nat)
    requires rate > 0 && 2 * (missing * NANOS) - rate <= 2 * (wait * rate) <= 2 * (missing * NANOS) + rate
    ensures 2 * missing * NANOS - rate <= 2 * wait * rate <= 2 * missing * NANOS + rate
    ensures (wait - 1) * rate < missing * NANOS
  {
    MulAdd(wait - 1, 1, rate);
    assert 2 * missing * NANOS == 2 * (missing * NANOS) && 2 * wait * rate == 2 * (wait * rate);
  }

  /** `status` reports what a request at that instant can take, and the time until full. */
  lemma StatusReportsWhatCanBeTaken(b: Bucket, at: Time)
    requires b.Valid()
    ensures
      var o := Step(b, Status(at)).1;
      && o.Reported? && o.resetsIn == UntilFull(Refill(b, at), at)
      && forall amount: nat | amount > 0 :: Step(b, Try(amount, at)).1.Granted? <==> amount <= o.remaining
  {
  }

  /** A request takes all of its amount, or nothing and says how long until full; zero is granted unseen. */
  lemma TryTakesAllOrNothing(b: Bucket, amount: nat, at: Time)
    requires b.Valid()
    ensures amount == 0 ==> Step(b, Try(amount, at)) == (b, Granted)
    ensures amount > 0 ==>
              var b1, (b', o) := Refill(b, at), Step(b, Try(amount, at));
              && (o.Granted? <==> amount <= b1.tokens)
              && (o.Granted? ==> b' == b1.(tokens := b1.tokens - amount))
              && (!o.Granted? ==> o == Refused(UntilFull(b1, at)) && b' == Refill(b1, at))
  {
  }

  // ---------------------------------------------------------------- bursts

  function Ones(k: nat, at: Time): (es: seq<Event>)
    ensures |es| == k
  {
    if k == 0 then [] else [Try(1, at)] + Ones(k - 1, at)
  }

  /** At a rate that divides 10^9, requests of one token at one instant: as many are granted as tokens are
      there and due, whatever the capacity, because time spent full stays unpaid. */
  lemma {:induction false} BurstAtAnInstant(b: Bucket, k: nat, t: Time)
    requires b.Valid() && b.capacity >= 1 && b.rate >= 1 && NANOS % b.rate == 0
    ensures TotalGranted(b, Ones(k, t)) == Min(k, b.tokens + b.Due(t))
    decreases k
  {
    if k > 0 {
      var es := Ones(k, t);
      assert es[1..] == Ones(k - 1, t);
      RefillAdds(b, t);
      var b1 := Refill(b, t);
      DueAfterRefill(b, t);
      if b1.tokens >= 1 {
        var b2 := b1.(tokens := b1.tokens - 1);
        assert b2.Due(t) == b1.Due(t);
        BurstAtAnInstant(b2, k - 1, t);
      } else {
        RefillAdds(b1, t);
        DueAfterRefill(b1, t);
        BurstAtAnInstant(Refill(b1, t), k - 1, t);
      }
    }
  }

  lemma DueAfterRefill(b: Bucket, t: Time)
    requires b.Valid() && b.rate >= 1 && NANOS % b.rate == 0
    ensures Refill(b, t).tokens + Refill(b, t).Due(t) == b.tokens + b.Due(t)
  {
    RefillAdds(b, t);
    RoundingIsSmall(b, t);
    var added := b.Added(t);
    var paid := b.Paid(added);
    PaidWithinElapsed(b, t, added);
    assert paid * b.rate == added * NANOS;
    var b' := Refill(b, t);
    assert b'.Elapsed(t) == b.Elapsed(t) - paid;
    assert b'.Elapsed(t) * b.rate == b.Elapsed(t) * b.rate - added * NANOS;
    DivShift(b.Elapsed(t) * b.rate, NANOS, added);
  }

  // What one instant can give at any rate, and to any requests.

  ghost predicate AtInstant(es: seq<Event>, t: Time) {
    forall i :: 0 <= i < |es| ==> es[i].at == t
  }

  lemma {:induction false} AtInstantIsTimed(es: seq<Event>, t: Time)
    requires AtInstant(es, t)
    ensures Timed(es, t, t)
    decreases |es|
  {
    if es != [] {
      AtInstantIsTimed(es[1..], t);
    }
  }

  lemma NothingDueStep(b: Bucket, e: Event)
    requires b.Valid() && b.Due(e.at) == 0
    ensures
      var (b', o) := Step(b, e);
      && b'.lastRefill == b.lastRefill && b'.capacity == b.capacity && b'.rate == b.rate
      && b'.tokens + (if e.Try? && o.Granted? then e.amount else 0) == b.tokens
  {
  }

  /** With nothing due, no more is granted than is there. */
  lemma {:induction false} NothingDue(b: Bucket, es: seq<Event>, t: Time)
    requires b.Valid() && AtInstant(es, t) && b.Due(t) == 0
    ensures TotalGranted(b, es) <= b.tokens
    decreases |es|
  {
    if es != [] {
      NothingDueStep(b, es[0]);
      var b' := Step(b, es[0]).0;
      assert b'.Due(t) == b.Due(t);
      NothingDue(b', es[1..], t);
    }
  }

  lemma GrantsInAccounts(rate: nat, moved: nat, elapsed: nat, rounding: nat, before: nat, after: nat, granted: nat)
    requires moved <= elapsed && rate * moved + rounding == (after + granted - before) * NANOS
    ensures granted <= before + (rate * elapsed + rounding) / NANOS
  {
    MulMono(moved, elapsed, rate);
    DivAtLeast(rate * elapsed + rounding, NANOS, after + granted - before);
  }

  lemma NeverNegative(rate: nat, elapsed: nat, rounding: nat)
    ensures (rate * elapsed + rounding) / NANOS >= 0
  {
    MulMono(0, rate, elapsed);
  }

  /** For every rate and any calls at one instant: what is granted was there, or is paid for by the time
      not yet paid, or comes from the rounding of the refills. */
  lemma InstantGrantsAreBounded(b: Bucket, es: seq<Event>, t: Time)
    requires b.Valid() && AtInstant(es, t)
    ensures TotalGranted(b, es) <= b.tokens + (b.rate * b.Elapsed(t) + TotalRounding(b, es)) / NANOS
  {
    var granted, rounding := TotalGranted(b, es), TotalRounding(b, es);
    if b.Due(t) == 0 {
      NothingDue(b, es, t);
      NeverNegative(b.rate, b.Elapsed(t), rounding);
    } else {
      DuePositive(b, t);
      AtInstantIsTimed(es, t);
      RunKeepsAccounts(b, b.lastRefill, b.capacity - b.tokens, 0, es, t, t);
      var end := Final(b, es);
      GrantsInAccounts(b.rate, end.lastRefill - b.lastRefill, b.Elapsed(t), rounding, b.tokens, end.tokens, granted);
    }
  }

  lemma DuePositive(b: Bucket, t: Time)
    requires b.Due(t) > 0
    ensures b.rate >= 1 && b.lastRefill < t
  {
  }

  predicate Spills(b: Bucket, t: Time) {
    b.tokens + b.Due(t) > b.capacity
  }

  /** The bucket after refills at `t` until nothing more is due, or until there is more than it holds. */
  function Settled(b: Bucket, t: Time): (b': Bucket)
    requires b.Valid()
    ensures b'.Valid() && b'.capacity == b.capacity && (Spills(b', t) || b'.Due(t) == 0)
    decreases b.capacity - b.tokens
  {
    if Spills(b, t) || b.Due(t) == 0 then b
    else
      RefillAdds(b, t);
      Settled(Refill(b, t), t)
  }

  lemma {:induction false} TakingShifts(b: Bucket, amount: nat, t: Time)
    requires b.Valid() && amount <= b.tokens && !Spills(Settled(b, t), t)
    ensures
      var s := Settled(b, t);
      amount <= s.tokens && Settled(b.(tokens := b.tokens - amount), t) == s.(tokens := s.tokens - amount)
    decreases b.capacity - b.tokens
  {
    var taken := b.(tokens := b.tokens - amount);
    assert taken.Due(t) == b.Due(t);
    if b.Due(t) > 0 {
      RefillAdds(b, t);
      RefillAdds(taken, t);
      assert taken.Added(t) == b.Added(t) == b.Due(t);
      var b' := Refill(b, t);
      assert Refill(taken, t) == b'.(tokens := b'.tokens - amount);
      TakingShifts(b', amount, t);
    }
  }

  lemma SettledOnce(b: Bucket, t: Time)
    requires b.Valid()
    ensures Refill(b, t).Valid() && Refill(b, t).capacity == b.capacity
    ensures if Spills(b, t) then Settled(b, t) == b else Settled(Refill(b, t), t) == Settled(b, t)
  {
    RefillAdds(b, t);
  }

  function GrantedBy(b: Bucket, e: Event): nat {
    if e.Try? && e.amount <= Refill(b, e.at).tokens then e.amount else 0
  }

  function BucketAfter(b: Bucket, e: Event): Bucket {
    var b1, granted := Refill(b, e.at), GrantedBy(b, e);
    if granted > 0 then b1.(tokens := b1.tokens - granted)
    else if e.Try? && e.amount == 0 then b
    else Refill(b1, e.at)
  }

  /** A call, the waiting time aside. */
  lemma StepState(b: Bucket, e: Event)
    ensures (if e.Try? && Step(b, e).1.Granted? then e.amount else 0) == GrantedBy(b, e)
    ensures Step(b, e).0 == BucketAfter(b, e)
  {
  }

  lemma SettledRefills(b: Bucket, t: Time)
    requires b.Valid() && !Spills(Settled(b, t), t)
    ensures Refill(b, t).Valid() && Settled(Refill(b, t), t) == Settled(b, t)
    ensures Refill(Refill(b, t), t).Valid() && Settled(Refill(Refill(b, t), t), t) == Settled(b, t)
  {
    SettledOnce(b, t);
    SettledOnce(Refill(b, t), t);
  }

  lemma SettledTaken(b: Bucket, amount: nat, t: Time)
    requires b.Valid() && !Spills(Settled(b, t), t) && amount <= Refill(b, t).tokens
    ensures
      var b1, s := Refill(b, t), Settled(b, t);
      amount <= s.tokens && Settled(b1.(tokens := b1.tokens - amount), t) == s.(tokens := s.tokens - amount)
  {
    SettledRefills(b, t);
    TakingShifts(Refill(b, t), amount, t);
  }

  lemma SettledStep(b: Bucket, e: Event)
    requires b.Valid() && !Spills(Settled(b, e.at), e.at)
    ensures
      var s, granted, b' := Settled(b, e.at), GrantedBy(b, e), BucketAfter(b, e);
      b'.Valid() && granted <= s.tokens && Settled(b', e.at) == s.(tokens := s.tokens - granted)
  {
    var granted, b' := GrantedBy(b, e), BucketAfter(b, e);
    if granted > 0 {
      SettledTaken(b, granted, e.at);
    } else if b' != b {
      SettledRefills(b, e.at);
      assert b' == Refill(Refill(b, e.at), e.at);
    }
  }

  lemma {:induction false} SettledBoundsGrants(b: Bucket, es: seq<Event>, t: Time)
    requires b.Valid() && AtInstant(es, t) && !Spills(Settled(b, t), t)
    ensures TotalGranted(b, es) <= Settled(b, t).tokens
    decreases |es|
  {
    if es != [] {
      assert es[0].at == t;
      SettledStep(b, es[0]);
      StepState(b, es[0]);
      var b' := Step(b, es[0]).0;
      SettledBoundsGrants(b', es[1..], t);
    }
  }

  /** A spilling bucket is full after a refill and still has a token due. */
  lemma SpillingRefill(b: Bucket, t: Time)
    requires b.Valid() && Spills(b, t)
    ensures Refill(b, t).tokens == b.capacity && Refill(b, t).Due(t) >= 1
  {
    RefillAdds(b, t);
    if b.rate >= 1 {
      var added, e := b.Added(t), b.Elapsed(t);
      var paid := b.Paid(added);
      assert paid * b.rate <= added * NANOS;
      DivAtLeast(e * b.rate, NANOS, added + 1);
      MulAdd(added, 1, NANOS);
      PaidWithinElapsed(b, t, added);
      MulAdd(e - paid, paid, b.rate);
      DivAtLeast((e - paid) * b.rate, NANOS, 1);
      assert Refill(b, t).Elapsed(t) == e - paid;
    }
  }

  /** More than the capacity at once: everything, then one. */
  lemma OneTooMany(b: Bucket, t: Time)
    requires b.Valid() && b.capacity >= 1 && Spills(b, t)
    ensures TotalGranted(b, [Try(b.capacity, t), Try(1, t)]) == b.capacity + 1
  {
    SpillingRefill(b, t);
    RefillAdds(b, t);
    var es := [Try(b.capacity, t), Try(1, t)];
    var empty := Refill(b, t).(tokens := 0);
    assert Step(b, es[0]) == (empty, Granted);
    assert empty.Due(t) == Refill(b, t).Due(t);
    RefillAdds(empty, t);
    var rest := es[1..];
    assert rest == [Try(1, t)] && rest[1..] == [];
    assert Step(empty, rest[0]).1 == Granted;
    assert TotalGranted(empty, rest) == 1 + TotalGranted(Step(empty, rest[0]).0, rest[1..]);
  }

  lemma StillSpills(b: Bucket, t: Time)
    requires b.Valid() && Spills(Settled(b, t), t)
    ensures Refill(b, t).Valid() && Refill(b, t).capacity == b.capacity && Spills(Settled(Refill(b, t), t), t)
    ensures b.tokens <= Refill(b, t).tokens && (!Spills(b, t) ==> b.tokens < Refill(b, t).tokens)
  {
    SettledOnce(b, t);
    RefillAdds(b, t);
    if Spills(b, t) {
      SpillingRefill(b, t);
      SettledOnce(Refill(b, t), t);
    }
  }

  lemma LookRefillsTwice(b: Bucket, t: Time)
    ensures Step(b, Status(t)).0 == Refill(Refill(b, t), t)
  {
  }

  lemma {:induction false} SpillBreaksBurst(b: Bucket, t: Time) returns (es: seq<Event>)
    requires b.Valid() && b.capacity >= 1 && Spills(Settled(b, t), t)
    ensures AtInstant(es, t) && TotalGranted(b, es) > b.capacity
    decreases b.capacity - b.tokens
  {
    if Spills(b, t) {
      OneTooMany(b, t);
      es := [Try(b.capacity, t), Try(1, t)];
    } else {
      StillSpills(b, t);
      StillSpills(Refill(b, t), t);
      LookRefillsTwice(b, t);
      var look := Status(t);
      var rest := SpillBreaksBurst(Step(b, look).0, t);
      es := [look] + rest;
      assert es[1..] == rest;
    }
  }

  /** What a refill leaves of `elapsed`, in nanosecond-tokens: what it could not use and what it did not charge. */
  lemma Leftover(elapsed: nat, rate: nat)
    requires rate > 0
    ensures
      var due := elapsed * rate / NANOS;
      (elapsed - due * NANOS / rate) * rate == elapsed * rate % NANOS + due * NANOS % rate
  {
    var due := elapsed * rate / NANOS;
    var paid := due * NANOS / rate;
    assert elapsed * rate == due * NANOS + elapsed * rate % NANOS;
    assert due * NANOS == paid * rate + due * NANOS % rate;
    MulAdd(elapsed - paid, paid, rate);
  }

  /** A refill that nothing caps. */
  lemma UncappedRefill(b: Bucket, t: Time)
    requires b.Valid() && b.rate > 0 && b.Due(t) > 0 && !Spills(b, t)
    ensures
      var b1, d := Refill(b, t), b.Due(t);
      && b1.Valid() && b1.tokens == b.tokens + d && b1.capacity == b.capacity && b1.rate == b.rate
      && Settled(b, t) == Settled(b1, t)
      && b1.Elapsed(t) * b.rate == b.Elapsed(t) * b.rate % NANOS + d * NANOS % b.rate
  {
    RefillAdds(b, t);
    PaidWithinElapsed(b, t, b.Due(t));
    Leftover(b.Elapsed(t), b.rate);
  }

  lemma DueIs(b: Bucket, t: Time, q: nat)
    requires q * NANOS <= b.Elapsed(t) * b.rate < (q + 1) * NANOS
    ensures b.Due(t) == q
  {
    DivUnique(b.Elapsed(t) * b.rate, NANOS, q);
  }

  /** Up to one token a nanosecond, one refill can leave one more token due. */
  predicate OneMore(b: Bucket, t: Time)
    requires b.rate > 0
  {
    b.Elapsed(t) * b.rate % NANOS + b.Due(t) * NANOS % b.rate >= NANOS
  }

  lemma RemainderRoom(rate: nat)
    requires 0 < rate <= NANOS
    ensures NANOS % rate <= NANOS - rate
  {
    var q := NANOS / rate;
    assert NANOS == q * rate + NANOS % rate;
    DivAtLeast(NANOS, rate, 1);
    MulMono(1, q, rate);
  }

  /** After that one nothing is due. */
  lemma OneMoreIsAll(b: Bucket, t: Time)
    requires b.Valid() && 0 < b.rate <= NANOS && b.Due(t) == 1 && !Spills(b, t)
    requires b.Elapsed(t) * b.rate < NANOS + b.rate - 1
    ensures !Spills(Settled(b, t), t)
  {
    UncappedRefill(b, t);
    RemainderRoom(b.rate);
    var x := b.Elapsed(t) * b.rate;
    DivUnique(x, NANOS, 1);
    assert x % NANOS == x - NANOS;
    DueIs(Refill(b, t), t, 0);
  }

  lemma SlowSpills(b: Bucket, t: Time)
    requires b.Valid() && 0 < b.rate <= NANOS
    ensures Spills(Settled(b, t), t)
            <==> b.tokens + b.Due(t) + (if OneMore(b, t) then 1 else 0) > b.capacity
  {
    if b.Due(t) == 0 {
      DivUnique(0, b.rate, 0);
    } else if !Spills(b, t) {
      UncappedRefill(b, t);
      var b1 := Refill(b, t);
      if OneMore(b, t) {
        DueIs(b1, t, 1);
        if !Spills(b1, t) {
          OneMoreIsAll(b1, t);
        }
      } else {
        DueIs(b1, t, 0);
      }
    }
  }

  lemma WholeMultiple(elapsed: nat, rate: nat)
    requires rate % NANOS == 0
    ensures elapsed * rate % NANOS == 0
  {
    var k := rate / NANOS;
    assert rate == k * NANOS;
    assert elapsed * rate == (elapsed * k) * NANOS;
    DivUnique(elapsed * rate, NANOS, elapsed * k) by {
      MulAdd(elapsed * k, 1, NANOS);
    }
  }

  lemma BetweenMultiples(n: int, rate: nat)
    requires 0 < n * rate < 2 * rate
    ensures n == 1
  {
    MulMono(2, n, rate);
    MulMono(n, 0, rate);
  }

  lemma FastDue(b: Bucket, t: Time)
    requires b.rate > NANOS && b.Elapsed(t) > 0
    ensures b.Due(t) > 0
  {
    MulMono(1, b.Elapsed(t), b.rate);
    DivAtLeast(b.Elapsed(t) * b.rate, NANOS, 1);
  }

  /** Above a token a nanosecond, a part of a token due keeps a nanosecond unpaid, and that buys without end. */
  lemma {:induction false} FastNeverSettles(b: Bucket, t: Time)
    requires b.Valid() && b.rate > NANOS && b.Elapsed(t) * b.rate % NANOS != 0
    ensures Spills(Settled(b, t), t)
    decreases b.capacity - b.tokens
  {
    var e := b.Elapsed(t);
    assert e > 0;
    FastDue(b, t);
    if !Spills(b, t) {
      UncappedRefill(b, t);
      var b1 := Refill(b, t);
      BetweenMultiples(b1.Elapsed(t), b.rate);
      if b.rate % NANOS == 0 {
        WholeMultiple(e, b.rate);
      }
      FastNeverSettles(b1, t);
    }
  }

  lemma FastSpills(b: Bucket, t: Time)
    requires b.Valid() && b.rate > NANOS
    ensures Spills(Settled(b, t), t) <==> Spills(b, t) || b.Elapsed(t) * b.rate % NANOS != 0
  {
    if b.Elapsed(t) * b.rate % NANOS != 0 {
      FastNeverSettles(b, t);
    } else if b.Due(t) > 0 && !Spills(b, t) {
      UncappedRefill(b, t);
      var b1 := Refill(b, t);
      MulMono(1, b1.Elapsed(t), b.rate);
      assert b1.Elapsed(t) == 0;
    }
  }

  /** Whether one instant can give more than the burst size, from the bucket's numbers. */
  predicate Overruns(b: Bucket, t: Time) {
    if b.rate == 0 then false
    else if b.rate <= NANOS then b.tokens + b.Due(t) + (if OneMore(b, t) then 1 else 0) > b.capacity
    else Spills(b, t) || b.Elapsed(t) * b.rate % NANOS != 0
  }

  lemma OverrunsIsSpilling(b: Bucket, t: Time)
    requires b.Valid()
    ensures Overruns(b, t) <==> Spills(Settled(b, t), t)
  {
    if b.rate == 0 {
      assert b.Due(t) == 0;
    } else if b.rate <= NANOS {
      SlowSpills(b, t);
    } else {
      FastSpills(b, t);
    }
  }

  /** At the rates that convert without rounding, the tokens there and due decide alone. */
  lemma ExactRatesDoNotRound(b: Bucket, t: Time)
    requires b.Valid() && b.rate > 0 && (NANOS % b.rate == 0 || b.rate % NANOS == 0)
    ensures Overruns(b, t) <==> Spills(b, t)
  {
    if b.rate <= NANOS && NANOS % b.rate == 0 {
      var q, d := NANOS / b.rate, b.Due(t);
      assert NANOS == q * b.rate;
      assert d * NANOS == (d * q) * b.rate;
      DivUnique(d * NANOS, b.rate, d * q) by {
        MulAdd(d * q, 1, b.rate);
      }
    } else if b.rate % NANOS == 0 {
      WholeMultiple(b.Elapsed(t), b.rate);
      if b.rate <= NANOS {
        DivAtLeast(b.rate, NANOS, 1);
      }
    } else {
      DivUnique(NANOS, b.rate, 0);
    }
  }

  /** At every rate, the burst size bounds what one instant can give, whatever is asked, exactly when the bucket
      does not overrun. */
  lemma BurstSizeHoldsExactlyWhen(b: Bucket, t: Time)
    requires b.Valid() && b.capacity >= 1
    ensures (forall es :: AtInstant(es, t) ==> TotalGranted(b, es) <= b.capacity) <==> !Overruns(b, t)
    ensures Spills(b, t) ==> Overruns(b, t)
    ensures b.rate > 0 && (NANOS % b.rate == 0 || b.rate % NANOS == 0) ==> (Overruns(b, t) <==> Spills(b, t))
  {
    OverrunsIsSpilling(b, t);
    if b.rate > 0 && (NANOS % b.rate == 0 || b.rate % NANOS == 0) {
      ExactRatesDoNotRound(b, t);
    }
    if Overruns(b, t) {
      var es := SpillBreaksBurst(b, t);
    } else {
      forall es | AtInstant(es, t)
        ensures TotalGranted(b, es) <= b.capacity
      {
        SettledBoundsGrants(b, es, t);
      }
    }
  }

  /** One token a second, burst size one, ten idle seconds: eleven requests pass at once. */
  lemma IdleTimeIsBanked()
    ensures TotalGranted(Full(1, 1, 0), Ones(11, 10 * NANOS)) == 11
  {
    BurstAtAnInstant(Full(1, 1, 0), 11, 10 * NANOS);
  }

  lemma TwoCalls(b: Bucket, first: Event, second: Event)
    ensures Final(b, [first]) == Step(b, first).0
    ensures TotalGranted(b, [first, second]) == GrantedBy(b, first) + GrantedBy(Step(b, first).0, second)
  {
    StepState(b, first);
    StepState(Step(b, first).0, second);
    assert [first][1..] == [] && [first, second][1..] == [second] && [second][1..] == [];
    assert TotalGranted(Step(b, first).0, [second]) == GrantedBy(Step(b, first).0, second) + 0;
  }

  lemma ByteRefill()
    ensures Refill(Bucket(1023, 0, 1024, 1_048_576), 1907) == Bucket(1024, 953, 1024, 1_048_576)
    ensures Bucket(0, 953, 1024, 1_048_576).Due(1907) == 1
  {
  }

  /** The default limit on bytes, one byte taken and 1907 ns later: just the capacity is there and due, but
      each refill pays 953 ns for a token worth 953.67, and that buys one more. */
  lemma RoundingSpills(b: Bucket, t: Time)
    requires b == Final(Full(1024, 1_048_576, 0), [Try(1, 0)]) && t == 1907
    ensures b == Bucket(1023, 0, 1024, 1_048_576) && b.tokens + b.Due(t) == b.capacity
    ensures TotalGranted(b, [Try(1024, t), Try(1, t)]) == 1025
  {
    TwoCalls(Full(1024, 1_048_576, 0), Try(1, 0), Try(1, 0));
    StepState(Full(1024, 1_048_576, 0), Try(1, 0));
    ByteRefill();
    TwoCalls(b, Try(1024, t), Try(1, t));
    StepState(b, Try(1024, t));
  }
}
