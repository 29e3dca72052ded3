/** The in-place token bucket and the limiter that owns three of them (src/ratelimit.rs). */
module RateLimiting {
  import Arithmetic
  import opened Wrappers
  import B = TokenBuckets
  import O = BucketObservation

  type Time = B.Time

  class TokenBucket {
    var tokens: nat
    var lastRefill: Time
    const capacity: nat
    const refillRate: nat

    ghost function View(): B.Bucket
      reads this
    {
      B.Bucket(tokens, lastRefill, capacity, refillRate)
    }

    constructor (capacity: nat, refillRate: nat, now: Time)
      ensures View() == B.Full(capacity, refillRate, now)
    {
      tokens := capacity;
      lastRefill := now;
      this.capacity := capacity;
      this.refillRate := refillRate;
    }

    method Refill(now: Time)
      modifies this
      ensures View() == B.Refill(old(View()), now)
    {
      ghost var b := View();
      var elapsed := if now <= lastRefill then 0 else now - lastRefill;
      assert elapsed == b.Elapsed(now);
      if elapsed == 0 {
        return;
      }
      var due := elapsed * refillRate / B.NANOS;
      assert due == b.Due(now);
      if due > 0 {
        var newTokens := Arithmetic.Min(tokens + due, capacity);
        var added := if newTokens <= tokens then 0 else newTokens - tokens;
        assert added == b.Added(now);
        var paid := added * B.NANOS / refillRate;
        assert paid == b.Paid(added);
        tokens := newTokens;
        lastRefill := lastRefill + Arithmetic.Min(paid, elapsed);
      }
    }

    method TryConsume(amount: nat, now: Time) returns (ok: bool)
      modifies this
      ensures (View(), ok) == B.Consume(old(View()), amount, now)
    {
      Refill(now);
      var current := tokens;
      if current < amount {
        return false;
      }
      tokens := current - amount;
      ok := true;
    }

    method Available(now: Time) returns (n: nat)
      modifies this
      ensures View() == B.Refill(old(View()), now) && n == View().tokens
    {
      Refill(now);
      n := tokens;
    }

    method TimeUntilFull(now: Time) returns (wait: Time)
      modifies this
      ensures View() == B.Refill(old(View()), now) && wait == B.UntilFull(old(View()), now)
    {
      var available := Available(now);
      if available >= capacity {
        return 0;
      }
      if refillRate == 0 {
        return 60 * B.NANOS;
      }
      var needed := capacity - available;
      wait := Arithmetic.Nearest(needed * B.NANOS, refillRate);
    }

    method Reset(now: Time)
      modifies this
      ensures View() == B.Full(capacity, refillRate, now)
    {
      tokens := capacity;
      lastRefill := now;
    }
  }

  datatype RateLimitType = MessageLimit | ByteLimit | OperationLimit

  datatype RateLimitConfig = RateLimitConfig(
    messagesPerSecond: nat, bytesPerSecond: nat, operationsPerSecond: nat, burstSize: nat)
  {
    function Limit(kind: RateLimitType): nat {
      match kind
      case MessageLimit => messagesPerSecond
      case ByteLimit => bytesPerSecond
      case OperationLimit => operationsPerSecond
    }

    /** The burst size, but room for a kilobyte of bytes and one of anything else. */
    function Capacity(kind: RateLimitType): (n: nat)
      ensures n >= 1 && n >= burstSize && (kind == ByteLimit ==> n >= 1024)
      ensures n == burstSize || n == 1 || (kind == ByteLimit && n == 1024)
    {
      var least := if kind == ByteLimit then 1024 else 1;
      if burstSize >= least then burstSize else least
    }
  }

  class RateLimiter {
    const config: RateLimitConfig
    const buckets: map<RateLimitType, TokenBucket>

    /** Every kind has a bucket of its own, set up from the configuration. */
    ghost predicate Valid()
      reads buckets.Values
    {
      && (forall kind: RateLimitType :: kind in buckets)
      && (forall a, b: RateLimitType :: a != b ==> buckets[a] != buckets[b])
      && (forall kind: RateLimitType ::
            && buckets[kind].capacity == config.Capacity(kind)
            && buckets[kind].refillRate == config.Limit(kind))
    }

    ghost function State(kind: RateLimitType): B.Bucket
      requires Valid()
      reads buckets.Values
    {
      buckets[kind].View()
    }

    constructor (config: RateLimitConfig, now: Time)
      ensures Valid() && this.config == config && fresh(buckets.Values)
      ensures forall kind :: State(kind) == B.Full(config.Capacity(kind), config.Limit(kind), now)
      ensures State(MessageLimit).rate == config.messagesPerSecond
      ensures State(ByteLimit).rate == config.bytesPerSecond
      ensures State(OperationLimit).rate == config.operationsPerSecond
    {
      var m := new TokenBucket(config.Capacity(MessageLimit), config.Limit(MessageLimit), now);
      var b := new TokenBucket(config.Capacity(ByteLimit), config.Limit(ByteLimit), now);
      var o := new TokenBucket(config.Capacity(OperationLimit), config.Limit(OperationLimit), now);
      this.config := config;
      buckets := map[MessageLimit := m, ByteLimit := b, OperationLimit := o];
      new;
      forall kind: RateLimitType
        ensures kind in buckets
      {
        match kind
        case MessageLimit =>
        case ByteLimit =>
        case OperationLimit =>
      }
    }

    /** One critical section: only the bucket of this kind takes the step. */
    method TryAcquire(kind: RateLimitType, amount: nat, now: Time) returns (outcome: B.Outcome)
      requires Valid()
      modifies buckets.Values
      ensures Valid()
      ensures (State(kind), outcome) == B.Step(old(State(kind)), B.Try(amount, now))
      ensures forall other :: other != kind ==> State(other) == old(State(other))
    {
      if amount == 0 {
        return B.Granted;
      }
      var bucket := buckets[kind];
      var ok := bucket.TryConsume(amount, now);
      if ok {
        outcome := B.Granted;
      } else {
        var wait := bucket.TimeUntilFull(now);
        outcome := B.Refused(wait);
      }
    }

    /** The waiting form; `late` is how much longer than asked each sleep takes. */
    method Acquire(kind: RateLimitType, amount: nat, now: Time, late: seq<Time>) returns (granted: Option<Time>)
      requires Valid()
      modifies buckets.Values
      ensures Valid()
      ensures (State(kind), granted) == O.Acquire(old(State(kind)), amount, now, late)
      ensures forall other :: other != kind ==> State(other) == old(State(other))
    {
      var at, i := now, 0;
      while true
        invariant 0 <= i <= |late| && Valid()
        invariant O.Acquire(State(kind), amount, at, late[i..]) == O.Acquire(old(State(kind)), amount, now, late)
        invariant forall other :: other != kind ==> State(other) == old(State(other))
        decreases |late| - i
      {
        var outcome := TryAcquire(kind, amount, at);
        match outcome {
          case Refused(retryAfter) =>
            if i == |late| {
              return None;
            }
            assert late[i..][1..] == late[i + 1..];
            at := at + retryAfter + late[i];
            i := i + 1;
          case _ =>
            return Some(at);
        }
      }
    }

    method Status(kind: RateLimitType, now: Time) returns (outcome: B.Outcome)
      requires Valid()
      modifies buckets.Values
      ensures Valid()
      ensures (State(kind), outcome) == B.Step(old(State(kind)), B.Status(now))
      ensures forall other :: other != kind ==> State(other) == old(State(other))
    {
      var bucket := buckets[kind];
      var remaining := bucket.Available(now);
      var wait := bucket.TimeUntilFull(now);
      outcome := B.Reported(remaining, wait);
    }

    method ResetType(kind: RateLimitType, now: Time)
      requires Valid()
      modifies buckets.Values
      ensures Valid() && State(kind) == B.Full(config.Capacity(kind), config.Limit(kind), now)
      ensures forall other :: other != kind ==> State(other) == old(State(other))
    {
      buckets[kind].Reset(now);
    }

    method Reset(now: Time)
      requires Valid()
      modifies buckets.Values
      ensures Valid()
      ensures forall kind :: State(kind) == B.Full(config.Capacity(kind), config.Limit(kind), now)
    {
      var rest := buckets.Keys;
      while rest != {}
        invariant rest <= buckets.Keys && Valid()
        invariant forall kind :: kind !in rest ==> State(kind) == B.Full(config.Capacity(kind), config.Limit(kind), now)
      {
        var kind :| kind in rest;
        ResetType(kind, now);
        rest := rest - {kind};
      }
    }
  }
}
