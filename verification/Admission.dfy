/**
 The connection counter of `GlobalRateLimiter` (src/ratelimit.rs) under any number of threads.

 A call to `add_connection` is three atomic steps at most: bump the counter and read the old value,
 decide on that value, and on refusal take the bump back. Each call, with the connection it may
 admit, has an identity of its own.
 */
module Admission {
  import opened Collections

  type CallId = nat

  datatype Phase =
    | Bumped(seen: int)  // after fetch_add, before the decision is acted on
    | Live               // admitted, not yet removed

  /** `count` is an integer here so that an underflow would show. */
  datatype State = State(count: int, max: nat, calls: map<CallId, Phase>)

  datatype Step =
    | FetchAdd(c: CallId)
    | Admit(c: CallId)
    | Undo(c: CallId)
    | Remove(c: CallId)

  ghost predicate Enabled(s: State, a: Step) {
    match a
    case FetchAdd(c) => c !in s.calls
    case Admit(c) => c in s.calls && s.calls[c].Bumped? && s.calls[c].seen + 1 <= s.max
    case Undo(c) => c in s.calls && s.calls[c].Bumped? && s.calls[c].seen + 1 > s.max
    case Remove(c) => c in s.calls && s.calls[c].Live?
  }

  function Next(s: State, a: Step): State {
    match a
    case FetchAdd(c) => s.(count := s.count + 1, calls := s.calls[c := Bumped(s.count)])
    case Admit(c) => s.(calls := s.calls[c := Live])
    case Undo(c) => s.(count := s.count - 1, calls := s.calls - {c})
    case Remove(c) => s.(count := s.count - 1, calls := s.calls - {c})
  }

  function Initial(max: nat): State {
    State(0, max, map[])
  }

  function LiveCalls(s: State): set<CallId> {
    set c | c in s.calls && s.calls[c].Live?
  }

  function InFlight(s: State): set<CallId> {
    set c | c in s.calls && s.calls[c].Bumped?
  }

  /** Calls that are admitted or will be: their view of the counter was below the limit. */
  function Winners(s: State): set<CallId> {
    set c | c in s.calls && (s.calls[c].Live? || s.calls[c].seen < s.max)
  }

  ghost predicate Invariant(s: State) {
    && s.count == |s.calls.Keys|
    && |Winners(s)| <= s.max
  }

  ghost predicate IsRun(s: State, steps: seq<Step>)
    decreases |steps|
  {
    steps == [] || (Enabled(s, steps[0]) && IsRun(Next(s, steps[0]), steps[1..]))
  }

  function After(s: State, steps: seq<Step>): State
    decreases |steps|
  {
    if steps == [] then s else After(Next(s, steps[0]), steps[1..])
  }

  lemma BumpKeepsInvariant(s: State, c: CallId)
    requires Invariant(s) && Enabled(s, FetchAdd(c))
    ensures Invariant(Next(s, FetchAdd(c)))
  {
    var t := Next(s, FetchAdd(c));
    SubsetSize(Winners(s), s.calls.Keys);
    assert t.calls.Keys == s.calls.Keys + {c};
    assert Winners(t) == if s.count < s.max then Winners(s) + {c} else Winners(s);
  }

  lemma DropKeepsInvariant(s: State, c: CallId)
    requires Invariant(s) && c in s.calls
    ensures Invariant(s.(count := s.count - 1, calls := s.calls - {c}))
  {
    var t := s.(count := s.count - 1, calls := s.calls - {c});
    assert t.calls.Keys == s.calls.Keys - {c};
    SubsetSize(Winners(t), Winners(s));
  }

  lemma StepKeepsInvariant(s: State, a: Step)
    requires Invariant(s) && Enabled(s, a)
    ensures Invariant(Next(s, a))
  {
    match a
    case FetchAdd(c) => BumpKeepsInvariant(s, c);
    case Admit(c) =>
      assert Next(s, a).calls.Keys == s.calls.Keys;
      assert Winners(Next(s, a)) == Winners(s);
    case Undo(c) => DropKeepsInvariant(s, c);
    case Remove(c) => DropKeepsInvariant(s, c);
  }

  lemma {:induction false} RunKeepsInvariant(s: State, steps: seq<Step>)
    requires Invariant(s) && IsRun(s, steps)
    ensures Invariant(After(s, steps)) && After(s, steps).max == s.max
    decreases |steps|
  {
    if steps != [] {
      StepKeepsInvariant(s, steps[0]);
      RunKeepsInvariant(Next(s, steps[0]), steps[1..]);
    }
  }

  /** In every interleaving: never more than `max` admitted, the counter is what is admitted plus what
      is mid-call (so it never goes below zero), and it is exact when nobody is mid-call. */
  lemma AdmissionIsSafe(max: nat, steps: seq<Step>)
    requires IsRun(Initial(max), steps)
    ensures
      var s := After(Initial(max), steps);
      && |LiveCalls(s)| <= max
      && s.count == |LiveCalls(s)| + |InFlight(s)|
      && (InFlight(s) == {} ==> s.count == |LiveCalls(s)|)
  {
    var init := Initial(max);
    assert Winners(init) == {};
    RunKeepsInvariant(init, steps);
    var s := After(init, steps);
    SubsetSize(LiveCalls(s), Winners(s));
    assert s.calls.Keys == LiveCalls(s) + InFlight(s);
    assert LiveCalls(s) * InFlight(s) == {};
  }

  /** What a call will be told is settled when it bumps the counter: it is turned away exactly when
      admitted and mid-call connections together already fill the limit. */
  lemma RefusedExactlyWhenFull(max: nat, steps: seq<Step>, c: CallId)
    requires IsRun(Initial(max), steps) && Enabled(After(Initial(max), steps), FetchAdd(c))
    ensures
      var s := After(Initial(max), steps);
      var t := Next(s, FetchAdd(c));
      && (Enabled(t, Undo(c)) <==> |LiveCalls(s)| + |InFlight(s)| >= max)
      && (Enabled(t, Admit(c)) <==> |LiveCalls(s)| + |InFlight(s)| < max)
  {
    AdmissionIsSafe(max, steps);
    RunKeepsMax(Initial(max), steps);
  }

  lemma {:induction false} RunKeepsMax(s: State, steps: seq<Step>)
    ensures After(s, steps).max == s.max
    decreases |steps|
  {
    if steps != [] {
      RunKeepsMax(Next(s, steps[0]), steps[1..]);
    }
  }

  /** So a call can be turned away while nothing at all is admitted: another refused call has not yet
      taken its bump back. */
  lemma RefusedThoughEmpty()
    ensures
      var steps := [FetchAdd(0), Admit(0), FetchAdd(1), Remove(0), FetchAdd(2)];
      var s := After(Initial(1), steps);
      IsRun(Initial(1), steps) && LiveCalls(s) == {} && Enabled(s, Undo(2))
  {
    var s0 := Initial(1);
    var s1 := Next(s0, FetchAdd(0));
    var s2 := Next(s1, Admit(0));
    var s3 := Next(s2, FetchAdd(1));
    var s4 := Next(s3, Remove(0));
    var s5 := Next(s4, FetchAdd(2));
    var steps := [FetchAdd(0), Admit(0), FetchAdd(1), Remove(0), FetchAdd(2)];
    assert s5.calls == map[1 := Bumped(1), 2 := Bumped(1)];
    UnfoldRun(s4, FetchAdd(2), []);
    UnfoldRun(s3, Remove(0), [FetchAdd(2)]);
    UnfoldRun(s2, FetchAdd(1), [Remove(0)] + [FetchAdd(2)]);
    UnfoldRun(s1, Admit(0), [FetchAdd(1), Remove(0), FetchAdd(2)]);
    UnfoldRun(s0, FetchAdd(0), [Admit(0), FetchAdd(1), Remove(0), FetchAdd(2)]);
    assert [FetchAdd(0)] + [Admit(0), FetchAdd(1), Remove(0), FetchAdd(2)] == steps;
    assert [Admit(0)] + [FetchAdd(1), Remove(0), FetchAdd(2)] == [Admit(0), FetchAdd(1), Remove(0), FetchAdd(2)];
    assert [FetchAdd(1)] + ([Remove(0)] + [FetchAdd(2)]) == [FetchAdd(1), Remove(0), FetchAdd(2)];
    assert [FetchAdd(2)] + [] == [FetchAdd(2)];
  }

  lemma UnfoldRun(s: State, a: Step, steps: seq<Step>)
    ensures IsRun(s, [a] + steps) <==> Enabled(s, a) && IsRun(Next(s, a), steps)
    ensures After(s, [a] + steps) == After(Next(s, a), steps)
  {
    assert ([a] + steps)[1..] == steps;
  }
}
