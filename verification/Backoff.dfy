/**
 Reconnection delays (src/reconnect.rs). The multiplier is the fraction `num / den`; a delay is cut to
 whole milliseconds before it is multiplied and again after.
 */
module Backoff {
  import opened Arithmetic
  import opened Wrappers

  /** Nanoseconds. */
  type Duration = nat

  const MILLI: nat := 1_000_000

  datatype ReconnectConfig = ReconnectConfig(enabled: bool, maxAttempts: nat, initialDelay: Duration,
                                             maxDelay: Duration, num: nat, den: nat)
  {
    ghost predicate Valid() {
      den > 0
    }

    function InitialMillis(): nat {
      initialDelay / MILLI
    }

    function MaxMillis(): nat {
      maxDelay / MILLI
    }
  }

  datatype Error = ReconnectTimeout

  /** The next delay in milliseconds. */
  function Grow(cfg: ReconnectConfig, millis: nat): nat
    requires cfg.Valid()
  {
    Min(millis * cfg.num / cfg.den, cfg.MaxMillis())
  }

  /** The delay in milliseconds after `n` attempts. */
  function MillisAfter(cfg: ReconnectConfig, n: nat): nat
    requires cfg.Valid()
  {
    if n == 0 then cfg.InitialMillis() else Grow(cfg, MillisAfter(cfg, n - 1))
  }

  /** The delay after `n` attempts; only the first can have a part below the millisecond. */
  function DelayAfter(cfg: ReconnectConfig, n: nat): Duration
    requires cfg.Valid()
  {
    if n == 0 then cfg.initialDelay else MillisAfter(cfg, n) * MILLI
  }

  lemma InMillis(cfg: ReconnectConfig, n: nat)
    requires cfg.Valid()
    ensures DelayAfter(cfg, n) / MILLI == MillisAfter(cfg, n)
    ensures DelayAfter(cfg, n + 1) == Grow(cfg, MillisAfter(cfg, n)) * MILLI
  {
    DivUnique(MillisAfter(cfg, n) * MILLI, MILLI, MillisAfter(cfg, n));
  }

  /** The fields that decide what comes next. */
  datatype Progress = Progress(attempt: nat, currentDelay: Duration)

  function Fresh(cfg: ReconnectConfig): Progress {
    Progress(0, cfg.initialDelay)
  }

  function Recorded(cfg: ReconnectConfig, p: Progress): Progress
    requires cfg.Valid()
  {
    Progress(p.attempt + 1, Grow(cfg, p.currentDelay / MILLI) * MILLI)
  }

  /** How long the next wait is, or that there is none. */
  function Waited(cfg: ReconnectConfig, p: Progress): Result<Duration, Error> {
    if !cfg.enabled || (cfg.maxAttempts > 0 && p.attempt >= cfg.maxAttempts) then Err(ReconnectTimeout)
    else Ok(p.currentDelay)
  }

  class ReconnectState {
    const config: ReconnectConfig
    var attempt: nat
    var lastAttempt: Option<nat>
    var currentDelay: Duration

    ghost function View(): Progress
      reads this
    {
      Progress(attempt, currentDelay)
    }

    /** The state is the one reached by `attempt` recorded attempts. */
    ghost predicate Valid()
      reads this
    {
      config.Valid() && currentDelay == DelayAfter(config, attempt)
    }

    constructor (config: ReconnectConfig)
      requires config.Valid()
      ensures Valid() && this.config == config && View() == Fresh(config) && lastAttempt == None
    {
      this.config := config;
      attempt := 0;
      lastAttempt := None;
      currentDelay := config.initialDelay;
    }

    predicate ShouldReconnect()
      reads this
    {
      config.enabled && !(config.maxAttempts > 0 && attempt >= config.maxAttempts)
    }

    method RecordAttempt(now: nat)
      requires Valid()
      modifies this
      ensures Valid() && View() == Recorded(config, old(View())) && lastAttempt == Some(now)
    {
      InMillis(config, attempt);
      attempt := attempt + 1;
      lastAttempt := Some(now);
      var grown := currentDelay / MILLI * config.num / config.den;
      currentDelay := (if grown <= config.maxDelay / MILLI then grown else config.maxDelay / MILLI) * MILLI;
    }

    method Reset()
      requires Valid()
      modifies this
      ensures Valid() && View() == Fresh(config) && lastAttempt == None
    {
      attempt := 0;
      lastAttempt := None;
      currentDelay := config.initialDelay;
    }

    /** Refused exactly when reconnecting is off or the limit, if there is one, has been used up;
        otherwise the caller wakes after the delay that belongs to this many attempts. */
    method WaitForNextAttempt(now: nat) returns (wake: Result<nat, Error>)
      requires Valid()
      ensures wake.Err? <==> !config.enabled || 0 < config.maxAttempts <= attempt
      ensures wake.Ok? ==> wake.value == now + DelayAfter(config, attempt)
      ensures wake == match Waited(config, View())
                      case Ok(delay) => Ok(now + delay)
                      case Err(e) => Err(e)
    {
      if !ShouldReconnect() {
        return Err(ReconnectTimeout);
      }
      wake := Ok(now + currentDelay);
    }
  }

  // ---------------------------------------------------------------- runs

  datatype Call = Wait | Record | Reset

  /** The state after a run of calls; waiting changes nothing. */
  function After(cfg: ReconnectConfig, calls: seq<Call>): Progress
    requires cfg.Valid()
  {
    if calls == [] then Fresh(cfg)
    else
      var p, last := After(cfg, calls[..|calls| - 1]), calls[|calls| - 1];
      match last
      case Wait => p
      case Record => Recorded(cfg, p)
      case Reset => Fresh(cfg)
  }

  function RecordsSinceReset(calls: seq<Call>): nat {
    if calls == [] || calls[|calls| - 1].Reset? then 0
    else RecordsSinceReset(calls[..|calls| - 1]) + if calls[|calls| - 1].Record? then 1 else 0
  }

  /** In any run of waits, records and resets, a wait is let through exactly when fewer attempts than the
      limit were recorded since the last reset, and takes the delay of that many attempts; without a limit
      none is refused. */
  lemma {:induction false} WaitCountsRecords(cfg: ReconnectConfig, calls: seq<Call>)
    requires cfg.Valid()
    ensures
      var n := RecordsSinceReset(calls);
      && After(cfg, calls) == Progress(n, DelayAfter(cfg, n))
      && Waited(cfg, After(cfg, calls))
         == if cfg.enabled && (cfg.maxAttempts == 0 || n < cfg.maxAttempts) then Ok(DelayAfter(cfg, n))
            else Err(ReconnectTimeout)
    decreases |calls|
  {
    if calls != [] {
      var before := calls[..|calls| - 1];
      WaitCountsRecords(cfg, before);
      InMillis(cfg, RecordsSinceReset(before));
    }
  }

  /** Wait, then record an attempt, over and over until a wait is refused, at most `rounds` times. */
  function Loop(cfg: ReconnectConfig, p: Progress, rounds: nat): seq<Result<Duration, Error>>
    requires cfg.Valid()
    decreases rounds
  {
    if rounds == 0 then []
    else if Waited(cfg, p).Err? then [Waited(cfg, p)]
    else [Waited(cfg, p)] + Loop(cfg, Recorded(cfg, p), rounds - 1)
  }

  /** Attempts a loop makes when `n` have been recorded before. */
  function Allowed(cfg: ReconnectConfig, n: nat, rounds: nat): nat {
    if !cfg.enabled then 0
    else if cfg.maxAttempts == 0 then rounds
    else if cfg.maxAttempts <= n then 0
    else Min(rounds, cfg.maxAttempts - n)
  }

  /** The first `allowed` waits take the delays of `n`, `n + 1`, ... attempts; one more, if any, is refused. */
  ghost predicate EndsExactly(cfg: ReconnectConfig, waits: seq<Result<Duration, Error>>, n: nat,
                              allowed: nat, rounds: nat)
    requires cfg.Valid()
  {
    && allowed <= rounds && |waits| == Min(rounds, allowed + 1)
    && (forall i :: 0 <= i < allowed ==> waits[i] == Ok(DelayAfter(cfg, n + i)))
    && (allowed < rounds ==> waits[allowed] == Err(ReconnectTimeout))
  }

  lemma OneMoreWait(cfg: ReconnectConfig, waits: seq<Result<Duration, Error>>, n: nat, allowed: nat, rounds: nat)
    requires cfg.Valid() && EndsExactly(cfg, waits, n + 1, allowed, rounds)
    ensures EndsExactly(cfg, [Ok(DelayAfter(cfg, n))] + waits, n, allowed + 1, rounds + 1)
  {
    var all := [Ok(DelayAfter(cfg, n))] + waits;
    forall i | 0 <= i < allowed + 1
      ensures all[i] == Ok(DelayAfter(cfg, n + i))
    {
      if i > 0 {
        assert all[i] == waits[i - 1];
        assert waits[i - 1] == Ok(DelayAfter(cfg, (n + 1) + (i - 1)));
      }
    }
  }

  lemma {:induction false} LoopFrom(cfg: ReconnectConfig, n: nat, rounds: nat)
    requires cfg.Valid()
    ensures EndsExactly(cfg, Loop(cfg, Progress(n, DelayAfter(cfg, n)), rounds), n, Allowed(cfg, n, rounds), rounds)
    decreases rounds
  {
    var p := Progress(n, DelayAfter(cfg, n));
    if rounds > 0 && Waited(cfg, p).Ok? {
      var p' := Progress(n + 1, DelayAfter(cfg, n + 1));
      InMillis(cfg, n);
      assert Recorded(cfg, p) == p' && Waited(cfg, p) == Ok(DelayAfter(cfg, n));
      LoopFrom(cfg, n + 1, rounds - 1);
      OneMoreWait(cfg, Loop(cfg, p', rounds - 1), n, Allowed(cfg, n + 1, rounds - 1), rounds - 1);
      assert Allowed(cfg, n, rounds) == Allowed(cfg, n + 1, rounds - 1) + 1;
    }
  }

  /** From a fresh or reset state the loop is let through exactly `maxAttempts` times and then refused; the
      waits are the delays of 0, 1, 2, ... attempts. Without a limit it is never refused, and never let
      through when reconnecting is off. */
  lemma AttemptsEndExactly(cfg: ReconnectConfig, calls: seq<Call>, rounds: nat)
    requires cfg.Valid() && (calls == [] || calls[|calls| - 1].Reset?)
    ensures
      var waits := Loop(cfg, After(cfg, calls), rounds);
      var allowed := if !cfg.enabled then 0 else if cfg.maxAttempts == 0 then rounds else Min(rounds, cfg.maxAttempts);
      EndsExactly(cfg, waits, 0, allowed, rounds)
  {
    LoopFrom(cfg, 0, rounds);
  }

  /** The delay after one more attempt, without division: the whole milliseconds of the last one, multiplied,
      cut to whole milliseconds and capped by those of the maximum. */
  lemma NextDelay(cfg: ReconnectConfig, n: nat)
    requires cfg.Valid()
    ensures
      var millis, next := DelayAfter(cfg, n) / 1_000_000, DelayAfter(cfg, n + 1);
      exists k: nat ::
        && next == k * 1_000_000 <= cfg.maxDelay
        && k * cfg.den <= millis * cfg.num
        && (next + 1_000_000 <= cfg.maxDelay ==> millis * cfg.num < (k + 1) * cfg.den)
  {
    InMillis(cfg, n);
    var millis := MillisAfter(cfg, n);
    var k := Grow(cfg, millis);
    DivAtLeast(millis * cfg.num, cfg.den, k);
    DivAtLeast(millis * cfg.num, cfg.den, k + 1);
    assert DelayAfter(cfg, n + 1) == k * 1_000_000;
  }

  function Pow(b: nat, n: nat): nat {
    if n == 0 then 1 else b * Pow(b, n - 1)
  }

  lemma GrowExact(cfg: ReconnectConfig, millis: nat)
    requires cfg.Valid() && cfg.den == 1
    ensures Grow(cfg, millis) == Min(millis * cfg.num, cfg.MaxMillis())
  {
    DivUnique(millis * cfg.num, 1, millis * cfg.num);
  }

  /** Capping before multiplying makes no difference once the result is capped too. */
  lemma CapOnce(x: nat, m: nat, max: nat)
    requires m >= 1
    ensures Min(Min(max, x) * m, max) == Min(max, x * m)
  {
    MulMono(max, x, m);
    MulMono(1, m, max);
  }

  /** With a whole multiplier the delay is the exponential, capped; before the first attempt it is the
      initial delay, capped or not. */
  lemma {:induction false} WholeMultiplierClosedForm(cfg: ReconnectConfig, n: nat)
    requires cfg.Valid() && cfg.den == 1 && cfg.num >= 1
    requires n == 0 ==> cfg.InitialMillis() <= cfg.MaxMillis()
    ensures MillisAfter(cfg, n) == Min(cfg.MaxMillis(), cfg.InitialMillis() * Pow(cfg.num, n))
    decreases n
  {
    if n > 0 {
      var initial, max, m, p := cfg.InitialMillis(), cfg.MaxMillis(), cfg.num, Pow(cfg.num, n - 1);
      GrowExact(cfg, MillisAfter(cfg, n - 1));
      MulRegroup(initial, m, p);
      if n > 1 {
        WholeMultiplierClosedForm(cfg, n - 1);
        CapOnce(initial * p, m, max);
      }
    }
  }

  lemma MulRegroup(a: int, b: int, c: int)
    ensures a * (b * c) == (a * c) * b == (a * b) * c
  {
  }

  lemma EnvelopeStep(before: nat, after: nat, initial: nat, num: nat, den: nat, a: nat, b: nat)
    requires den > 0 && before * b <= initial * a && after <= before * num / den
    ensures after * (den * b) <= initial * (num * a)
  {
    DivAtLeast(before * num, den, after);
    MulMono(after * den, before * num, b);
    MulMono(before * b, initial * a, num);
    MulRegroup(after, den, b);
    MulRegroup(before, num, b);
    MulRegroup(initial, num, a);
    MulRegroup(before, b, num);
  }

  /** The capped exponential bounds the delay from above for every multiplier. */
  lemma {:induction false} NeverAboveEnvelope(cfg: ReconnectConfig, n: nat)
    requires cfg.Valid()
    ensures MillisAfter(cfg, n) * Pow(cfg.den, n) <= cfg.InitialMillis() * Pow(cfg.num, n)
    ensures n > 0 ==> MillisAfter(cfg, n) <= cfg.MaxMillis()
    decreases n
  {
    if n > 0 {
      NeverAboveEnvelope(cfg, n - 1);
      EnvelopeStep(MillisAfter(cfg, n - 1), MillisAfter(cfg, n), cfg.InitialMillis(), cfg.num, cfg.den,
                   Pow(cfg.num, n - 1), Pow(cfg.den, n - 1));
    }
  }

  /** Whether multiplying by `num / den` gains one. */
  lemma Gains(millis: nat, num: nat, den: nat)
    requires 0 < den <= num
    ensures millis * (num - den) >= den ==> millis * num / den >= millis + 1
    ensures millis * (num - den) < den ==> millis * num / den == millis
  {
    MulAdd(num - den, den, millis);
    MulAdd(millis, 1, den);
    if millis * (num - den) >= den {
      DivAtLeast(millis * num, den, millis + 1);
    } else {
      MulMono(0, num - den, millis);
      DivUnique(millis * num, den, millis);
    }
  }

  /** A delay that the multiplier lifts by a whole millisecond grows until it is capped ... */
  lemma GrowsByOne(cfg: ReconnectConfig, millis: nat)
    requires cfg.Valid() && cfg.num >= cfg.den && millis <= cfg.MaxMillis()
    requires millis * (cfg.num - cfg.den) >= cfg.den
    ensures Grow(cfg, millis) >= Min(millis + 1, cfg.MaxMillis())
  {
    Gains(millis, cfg.num, cfg.den);
  }

  /** ... and one that it does not lift by that much stays where it is. */
  lemma StaysPut(cfg: ReconnectConfig, millis: nat)
    requires cfg.Valid() && cfg.num >= cfg.den && millis <= cfg.MaxMillis()
    requires millis * (cfg.num - cfg.den) < cfg.den
    ensures Grow(cfg, millis) == millis
  {
    Gains(millis, cfg.num, cfg.den);
  }

  lemma NeverShrinks(cfg: ReconnectConfig, millis: nat)
    requires cfg.Valid() && cfg.num >= cfg.den && millis <= cfg.MaxMillis()
    ensures millis <= Grow(cfg, millis) <= cfg.MaxMillis()
  {
    if millis * (cfg.num - cfg.den) >= cfg.den {
      GrowsByOne(cfg, millis);
    } else {
      StaysPut(cfg, millis);
    }
  }

  /** What makes the backoff back off: one multiplication of the initial delay gains a millisecond. */
  predicate LiftsOff(cfg: ReconnectConfig)
    requires cfg.num >= cfg.den
  {
    cfg.InitialMillis() * (cfg.num - cfg.den) >= cfg.den
  }

  /** After `n` attempts the delay has risen by at least `n` milliseconds or reached the maximum. */
  lemma {:induction false} RisesToMax(cfg: ReconnectConfig, n: nat)
    requires cfg.Valid() && cfg.num >= cfg.den && cfg.InitialMillis() <= cfg.MaxMillis() && LiftsOff(cfg)
    ensures Min(cfg.InitialMillis() + n, cfg.MaxMillis()) <= MillisAfter(cfg, n) <= cfg.MaxMillis()
    ensures MillisAfter(cfg, n) < cfg.MaxMillis() ==> MillisAfter(cfg, n) < MillisAfter(cfg, n + 1)
    ensures MillisAfter(cfg, n) == cfg.MaxMillis() ==> MillisAfter(cfg, n + 1) == cfg.MaxMillis()
    ensures MillisAfter(cfg, n) < cfg.MaxMillis() ==> DelayAfter(cfg, n) < DelayAfter(cfg, n + 1)
    decreases n
  {
    if n > 0 {
      RisesToMax(cfg, n - 1);
    }
    var d := MillisAfter(cfg, n);
    if n > 0 {
      NeverShrinks(cfg, MillisAfter(cfg, n - 1));
    }
    assert cfg.InitialMillis() <= d;
    MulMono(cfg.InitialMillis(), d, cfg.num - cfg.den);
    GrowsByOne(cfg, d);
    NeverShrinks(cfg, d);
  }

  /** Without that gain the first attempt cuts the delay to whole milliseconds and no later one changes it. */
  lemma {:induction false} NeverLeavesStart(cfg: ReconnectConfig, n: nat)
    requires cfg.Valid() && cfg.num >= cfg.den && cfg.InitialMillis() <= cfg.MaxMillis() && !LiftsOff(cfg)
    ensures MillisAfter(cfg, n) == cfg.InitialMillis()
    ensures DelayAfter(cfg, n) == if n == 0 then cfg.initialDelay else cfg.InitialMillis() * MILLI
    decreases n
  {
    if n > 0 {
      NeverLeavesStart(cfg, n - 1);
      StaysPut(cfg, cfg.InitialMillis());
    }
  }

  ghost predicate ReachesMax(cfg: ReconnectConfig)
    requires cfg.Valid()
  {
    exists n: nat :: MillisAfter(cfg, n) == cfg.MaxMillis()
  }

  /** The maximum is ever reached exactly when the delay starts there or lifts off; then it takes at most
      `max - initial` attempts. A multiplier above one is not enough. */
  lemma MaximumReachedExactlyWhen(cfg: ReconnectConfig)
    requires cfg.Valid() && cfg.num >= cfg.den && cfg.InitialMillis() <= cfg.MaxMillis()
    ensures ReachesMax(cfg) <==> cfg.InitialMillis() == cfg.MaxMillis() || LiftsOff(cfg)
    ensures LiftsOff(cfg) ==> MillisAfter(cfg, cfg.MaxMillis() - cfg.InitialMillis()) == cfg.MaxMillis()
  {
    var n: nat := cfg.MaxMillis() - cfg.InitialMillis();
    if LiftsOff(cfg) {
      RisesToMax(cfg, n);
      assert MillisAfter(cfg, n) == cfg.MaxMillis();
    } else {
      NeverLeavesStart(cfg, n);
      assert n == 0 ==> MillisAfter(cfg, n) == cfg.MaxMillis();
      if ReachesMax(cfg) {
        var k: nat :| MillisAfter(cfg, k) == cfg.MaxMillis();
        NeverLeavesStart(cfg, k);
      }
    }
  }

  /** A delay that starts above the maximum is cut to it by the first attempt and stays there. */
  lemma {:induction false} StartAboveMaxIsCut(cfg: ReconnectConfig, n: nat)
    requires cfg.Valid() && cfg.num >= cfg.den && cfg.InitialMillis() > cfg.MaxMillis() && n > 0
    ensures MillisAfter(cfg, n) == cfg.MaxMillis()
    decreases n
  {
    var before := MillisAfter(cfg, n - 1);
    if n > 1 {
      StartAboveMaxIsCut(cfg, n - 1);
    }
    MulMono(cfg.den, cfg.num, before);
    DivAtLeast(before * cfg.num, cfg.den, before);
  }

  lemma GrowMono(cfg: ReconnectConfig, a: nat, b: nat)
    requires cfg.Valid() && a <= b
    ensures Grow(cfg, a) <= Grow(cfg, b)
  {
    MulMono(a, b, cfg.num);
    DivMono(a * cfg.num, b * cfg.num, cfg.den);
  }

  lemma {:induction false} StepsStayMonotone(cfg: ReconnectConfig, n: nat)
    requires cfg.Valid() && MillisAfter(cfg, 0) <= MillisAfter(cfg, 1)
    ensures MillisAfter(cfg, n) <= MillisAfter(cfg, n + 1)
    decreases n
  {
    if n > 0 {
      StepsStayMonotone(cfg, n - 1);
      GrowMono(cfg, MillisAfter(cfg, n - 1), MillisAfter(cfg, n));
    }
  }

  ghost predicate NeverShorter(cfg: ReconnectConfig)
    requires cfg.Valid()
  {
    forall n: nat :: DelayAfter(cfg, n) <= DelayAfter(cfg, n + 1)
  }

  /** For every multiplier: if the second delay is not shorter than the first, no delay is shorter than the one
      before. */
  lemma FirstStepDecides(cfg: ReconnectConfig)
    requires cfg.Valid()
    ensures NeverShorter(cfg) <==> cfg.initialDelay <= Grow(cfg, cfg.InitialMillis()) * MILLI
  {
    var start: nat := 0;
    assert MillisAfter(cfg, start + 1) == Grow(cfg, MillisAfter(cfg, start));
    assert DelayAfter(cfg, start + 1) == Grow(cfg, cfg.InitialMillis()) * MILLI;
    if cfg.initialDelay <= Grow(cfg, cfg.InitialMillis()) * MILLI {
      assert MillisAfter(cfg, start) <= MillisAfter(cfg, start + 1);
      forall n: nat
        ensures DelayAfter(cfg, n) <= DelayAfter(cfg, n + 1)
      {
        StepsStayMonotone(cfg, n);
      }
    } else {
      assert DelayAfter(cfg, start) > DelayAfter(cfg, start + 1);
    }
  }

  /** With a multiplier of at least one no delay is shorter than the one before, exactly when the initial delay
      is within the maximum and either is whole milliseconds or gains one at first. */
  lemma DelaysNeverShrinkExactlyWhen(cfg: ReconnectConfig)
    requires cfg.Valid() && cfg.num >= cfg.den
    ensures NeverShorter(cfg)
            <==> cfg.InitialMillis() <= cfg.MaxMillis()
                 && (cfg.initialDelay % MILLI == 0 || (LiftsOff(cfg) && cfg.InitialMillis() < cfg.MaxMillis()))
  {
    FirstStepDecides(cfg);
    var first := cfg.InitialMillis();
    if first <= cfg.MaxMillis() {
      NeverShrinks(cfg, first);
      if LiftsOff(cfg) {
        GrowsByOne(cfg, first);
      } else {
        StaysPut(cfg, first);
      }
    }
  }

  /** In whole milliseconds no delay is ever shorter than the one before, the maximum respected. */
  lemma {:induction false} DelaysNeverShrink(cfg: ReconnectConfig, n: nat)
    requires cfg.Valid() && cfg.num >= cfg.den && cfg.InitialMillis() <= cfg.MaxMillis()
    ensures MillisAfter(cfg, n) <= MillisAfter(cfg, n + 1) <= cfg.MaxMillis()
    ensures n > 0 ==> DelayAfter(cfg, n) <= DelayAfter(cfg, n + 1) <= cfg.MaxMillis() * MILLI
    decreases n
  {
    if n > 0 {
      DelaysNeverShrink(cfg, n - 1);
    }
    NeverShrinks(cfg, MillisAfter(cfg, n));
  }

  /** One and a half milliseconds and a multiplier of 1.2: the second delay is the shorter. Half a millisecond,
      doubled: there is no second delay to speak of. */
  lemma FirstDelayMayBeLonger(cfg: ReconnectConfig, tiny: ReconnectConfig)
    requires cfg == ReconnectConfig(true, 0, 1_500_000, 10_000 * MILLI, 6, 5)
    requires tiny == ReconnectConfig(true, 0, 500_000, 10_000 * MILLI, 2, 1)
    ensures DelayAfter(cfg, 0) == 1_500_000 && DelayAfter(cfg, 1) == 1_000_000
    ensures DelayAfter(tiny, 0) == 500_000 && DelayAfter(tiny, 1) == 0
  {
    assert MillisAfter(cfg, 1) == Grow(cfg, MillisAfter(cfg, 0));
    assert MillisAfter(tiny, 1) == Grow(tiny, MillisAfter(tiny, 0));
  }
}
