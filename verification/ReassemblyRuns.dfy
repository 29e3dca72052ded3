/**
 Whole runs of a reassembler shared by any number of connections: which calls leave no trace,
 where every byte goes, and what one connection sees of a run.
 */
module ReassemblyRuns {
  import opened Collections
  import opened Frames
  import opened Wrappers
  import opened Reassembly

  /** The calls of the public interface, each with the clock reading it used. */
  datatype Event =
    | Ingest(c: ConnectionId, frame: Frame, at: Time)
    | Abort(c: ConnectionId, at: Time)
    | CleanupAllExpired(at: Time)

  datatype Outcome =
    | Answered(answer: Answer)
    | Aborted(existed: bool)
    | Cleaned

  function Step(s: Store, timeout: Time, e: Event): (Store, Outcome) {
    match e
    case Ingest(c, f, at) =>
      var (s', answer) := Reassembly.Ingest(s, c, f, timeout, at);
      (s', Answered(answer))
    case Abort(c, _) => (Put(s, c, None), Aborted(c in s))
    case CleanupAllExpired(at) => (CleanupAll(s, timeout, at), Cleaned)
  }

  function Final(s: Store, timeout: Time, es: seq<Event>): Store
    decreases |es|
  {
    if es == [] then s else Final(Step(s, timeout, es[0]).0, timeout, es[1..])
  }

  function Outcomes(s: Store, timeout: Time, es: seq<Event>): (os: seq<Outcome>)
    ensures |os| == |es|
    decreases |es|
  {
    if es == [] then []
    else
      var (s', outcome) := Step(s, timeout, es[0]);
      [outcome] + Outcomes(s', timeout, es[1..])
  }

  ghost predicate Monotone(es: seq<Event>) {
    forall i, j :: 0 <= i <= j < |es| ==> es[i].at <= es[j].at
  }

  lemma MonotoneTail(es: seq<Event>)
    requires Monotone(es) && es != []
    ensures Monotone(es[1..]) && (es[1..] != [] ==> es[0].at <= es[1..][0].at)
  {
    var rest := es[1..];
    assert forall i, j :: 0 <= i <= j < |rest| ==> rest[i] == es[i + 1] && rest[j] == es[j + 1];
  }

  // ---------------------------------------------------------------- calls that leave no trace

  /** An expired partial and an absent one cannot be told apart from time `now` on. */
  ghost predicate Alike(s: Store, s': Store, timeout: Time, now: Time) {
    forall c :: Live(Get(s, c), timeout, now) == Live(Get(s', c), timeout, now)
  }

  lemma AlikeLater(s: Store, s': Store, timeout: Time, now: Time, later: Time)
    requires Alike(s, s', timeout, now) && now <= later
    ensures Alike(s, s', timeout, later)
  {
    forall c
      ensures Live(Get(s, c), timeout, later) == Live(Get(s', c), timeout, later)
    {
      assert Live(Get(s, c), timeout, later) == Live(Live(Get(s, c), timeout, now), timeout, later);
      assert Live(Get(s', c), timeout, later) == Live(Live(Get(s', c), timeout, now), timeout, later);
    }
  }

  /** Eager cleanup, a rejected frame and a control frame change no live partial. */
  predicate LeavesNoTrace(s: Store, timeout: Time, e: Event) {
    match e
    case Ingest(_, f, _) => IsControl(f.opcode) || Step(s, timeout, e).1.answer.Err?
    case Abort(_, _) => false
    case CleanupAllExpired(_) => true
  }

  lemma TracelessStep(s: Store, timeout: Time, e: Event)
    requires LeavesNoTrace(s, timeout, e)
    ensures Alike(s, Step(s, timeout, e).0, timeout, e.at)
  {
    var s' := Step(s, timeout, e).0;
    forall c
      ensures Live(Get(s, c), timeout, e.at) == Live(Get(s', c), timeout, e.at)
    {
      if e.Ingest? && e.c == c {
        PutPut(s, c, IngestSlot(Get(s, c), e.frame, timeout, e.at).0, None);
      }
    }
  }

  /** An abort that finds a partial already overdue. */
  predicate AbortsOverdue(s: Store, timeout: Time, e: Event) {
    e.Abort? && e.c in s && s[e.c].Expired(timeout, e.at)
  }

  lemma AlikeStep(s: Store, s': Store, timeout: Time, e: Event)
    requires Alike(s, s', timeout, e.at)
    ensures Alike(Step(s, timeout, e).0, Step(s', timeout, e).0, timeout, e.at)
    ensures !e.Abort? ==> Step(s, timeout, e).1 == Step(s', timeout, e).1
    ensures Step(s, timeout, e).1 == Step(s', timeout, e).1
            <==> AbortsOverdue(s, timeout, e) == AbortsOverdue(s', timeout, e)
  {
    var t, t' := Step(s, timeout, e).0, Step(s', timeout, e).0;
    forall c
      ensures Live(Get(t, c), timeout, e.at) == Live(Get(t', c), timeout, e.at)
    {
      assert Live(Get(s, c), timeout, e.at) == Live(Get(s', c), timeout, e.at);
      if !e.CleanupAllExpired? {
        assert Live(Get(s, e.c), timeout, e.at) == Live(Get(s', e.c), timeout, e.at);
      }
    }
    if !e.CleanupAllExpired? {
      assert Live(Get(s, e.c), timeout, e.at) == Live(Get(s', e.c), timeout, e.at);
    }
  }

  /** Every event left out leaves no trace at the point of the full run where it happens. */
  predicate Removable(s: Store, timeout: Time, es: seq<Event>, keep: seq<bool>)
    decreases |es|
  {
    && |es| == |keep|
    && (es == [] || (
          && (keep[0] || LeavesNoTrace(s, timeout, es[0]))
          && Removable(Step(s, timeout, es[0]).0, timeout, es[1..], keep[1..])))
  }

  /** For each call of a run, whether it aborts an overdue partial. */
  function OverdueAborts(s: Store, timeout: Time, es: seq<Event>): (os: seq<bool>)
    ensures |os| == |es|
    decreases |es|
  {
    if es == [] then []
    else [AbortsOverdue(s, timeout, es[0])] + OverdueAborts(Step(s, timeout, es[0]).0, timeout, es[1..])
  }

  /** Every frame got the same answer, and every abort too, unless exactly one of the two met an overdue
      partial; `x` and `y` say which aborts did. */
  ghost predicate SameAnswers(a: seq<Outcome>, b: seq<Outcome>, x: seq<bool>, y: seq<bool>) {
    && |a| == |b| == |x| == |y|
    && (forall i :: 0 <= i < |a| ==> (a[i] == b[i] <==> x[i] == y[i]))
    && (forall i :: 0 <= i < |a| ==> a[i] == b[i] || (a[i].Aborted? && b[i].Aborted?))
  }

  lemma SameAnswersCons(o: Outcome, o': Outcome, p: bool, q: bool,
                        a: seq<Outcome>, b: seq<Outcome>, x: seq<bool>, y: seq<bool>)
    requires SameAnswers(a, b, x, y)
    requires (o == o' <==> p == q) && (o == o' || (o.Aborted? && o'.Aborted?))
    ensures SameAnswers([o] + a, [o'] + b, [p] + x, [q] + y)
  {
  }

  lemma {:induction false} Simulation(s: Store, s': Store, timeout: Time, es: seq<Event>, keep: seq<bool>, now: Time)
    requires Monotone(es) && (es != [] ==> now <= es[0].at)
    requires Alike(s, s', timeout, now) && Removable(s, timeout, es, keep)
    ensures SameAnswers(Kept(Outcomes(s, timeout, es), keep), Outcomes(s', timeout, Kept(es, keep)),
                        Kept(OverdueAborts(s, timeout, es), keep), OverdueAborts(s', timeout, Kept(es, keep)))
    ensures
      var end := if es == [] then now else es[|es| - 1].at;
      Alike(Final(s, timeout, es), Final(s', timeout, Kept(es, keep)), timeout, end)
    decreases |es|
  {
    if es != [] {
      var e, rest := es[0], es[1..];
      var (t, o) := Step(s, timeout, e);
      AlikeLater(s, s', timeout, now, e.at);
      MonotoneTail(es);
      assert Outcomes(s, timeout, es)[1..] == Outcomes(t, timeout, rest);
      assert OverdueAborts(s, timeout, es)[1..] == OverdueAborts(t, timeout, rest);
      if keep[0] {
        AlikeStep(s, s', timeout, e);
        var (t', o') := Step(s', timeout, e);
        Simulation(t, t', timeout, rest, keep[1..], e.at);
        var kept := Kept(rest, keep[1..]);
        assert Kept(es, keep) == [e] + kept && Kept(es, keep)[1..] == kept;
        SameAnswersCons(o, o', AbortsOverdue(s, timeout, e), AbortsOverdue(s', timeout, e),
                        Kept(Outcomes(t, timeout, rest), keep[1..]), Outcomes(t', timeout, kept),
                        Kept(OverdueAborts(t, timeout, rest), keep[1..]), OverdueAborts(t', timeout, kept));
      } else {
        TracelessStep(s, timeout, e);
        AlikeTransitive(t, s, s', timeout, e.at);
        Simulation(t, s', timeout, rest, keep[1..], e.at);
      }
    }
  }

  lemma AlikeTransitive(t: Store, s: Store, s': Store, timeout: Time, now: Time)
    requires Alike(s, t, timeout, now) && Alike(s, s', timeout, now)
    ensures Alike(t, s', timeout, now)
  {
    forall c
      ensures Live(Get(t, c), timeout, now) == Live(Get(s', c), timeout, now)
    {
      assert Live(Get(s, c), timeout, now) == Live(Get(t, c), timeout, now);
      assert Live(Get(s, c), timeout, now) == Live(Get(s', c), timeout, now);
    }
  }

  /** Any choice of eager cleanups, rejected frames and control frames can be taken out of any run without
      changing what any other frame is answered; an abort's report changes exactly when a partial was overdue
      at that moment in one of the runs and not in the other. */
  lemma TracelessCallsAreInvisible(s: Store, timeout: Time, es: seq<Event>, keep: seq<bool>)
    requires Monotone(es) && Removable(s, timeout, es, keep)
    ensures SameAnswers(Kept(Outcomes(s, timeout, es), keep), Outcomes(s, timeout, Kept(es, keep)),
                        Kept(OverdueAborts(s, timeout, es), keep), OverdueAborts(s, timeout, Kept(es, keep)))
  {
    Simulation(s, s, timeout, es, keep, 0);
  }

  // Eager cleanup: two runs that differ only in their cleanup calls.

  function WithoutCleanups(es: seq<Event>): seq<Event> {
    if es == [] then []
    else (if es[0].CleanupAllExpired? then [] else [es[0]]) + WithoutCleanups(es[1..])
  }

  /** The answers to the frames of a run, in order. */
  function Answers(s: Store, timeout: Time, es: seq<Event>): seq<Answer>
    decreases |es|
  {
    if es == [] then []
    else
      var (s', o) := Step(s, timeout, es[0]);
      (if o.Answered? then [o.answer] else []) + Answers(s', timeout, es[1..])
  }

  lemma {:induction false} CleanupSimulation(s: Store, s': Store, timeout: Time, es: seq<Event>, now: Time)
    requires Monotone(es) && (es != [] ==> now <= es[0].at)
    requires Alike(s, s', timeout, now)
    ensures Answers(s, timeout, es) == Answers(s', timeout, WithoutCleanups(es))
    decreases |es|
  {
    if es != [] {
      var e, rest := es[0], es[1..];
      AlikeLater(s, s', timeout, now, e.at);
      MonotoneTail(es);
      var t := Step(s, timeout, e).0;
      if e.CleanupAllExpired? {
        TracelessStep(s, timeout, e);
        AlikeTransitive(t, s, s', timeout, e.at);
        CleanupSimulation(t, s', timeout, rest, e.at);
        assert WithoutCleanups(es) == WithoutCleanups(rest);
      } else {
        AlikeStep(s, s', timeout, e);
        CleanupSimulation(t, Step(s', timeout, e).0, timeout, rest, e.at);
        assert WithoutCleanups(es) == [e] + WithoutCleanups(rest);
        AnswersCons(s', timeout, e, WithoutCleanups(rest));
      }
      assert [e] + rest == es;
      AnswersCons(s, timeout, e, rest);
    }
  }

  lemma EagerCleanupIsInvisible(s: Store, timeout: Time, es: seq<Event>, es': seq<Event>)
    requires Monotone(es) && Monotone(es') && WithoutCleanups(es) == WithoutCleanups(es')
    ensures Answers(s, timeout, es) == Answers(s, timeout, es')
  {
    CleanupSimulation(s, s, timeout, es, 0);
    CleanupSimulation(s, s, timeout, es', 0);
  }

  // Rejected frames: the run that never received them.

  predicate IsRejected(s: Store, timeout: Time, e: Event) {
    e.Ingest? && Step(s, timeout, e).1.answer.Err?
  }

  function WithoutRejected(s: Store, timeout: Time, es: seq<Event>): seq<Event>
    decreases |es|
  {
    if es == [] then []
    else
      (if IsRejected(s, timeout, es[0]) then [] else [es[0]])
      + WithoutRejected(Step(s, timeout, es[0]).0, timeout, es[1..])
  }

  function Accepted(answers: seq<Answer>): seq<Answer> {
    if answers == [] then []
    else (if answers[0].Ok? then [answers[0]] else []) + Accepted(answers[1..])
  }

  lemma {:induction false} RejectedSimulation(s: Store, s': Store, timeout: Time, es: seq<Event>, now: Time)
    requires Monotone(es) && (es != [] ==> now <= es[0].at)
    requires Alike(s, s', timeout, now)
    ensures Answers(s', timeout, WithoutRejected(s, timeout, es)) == Accepted(Answers(s, timeout, es))
    decreases |es|
  {
    if es != [] {
      var e, rest := es[0], es[1..];
      AlikeLater(s, s', timeout, now, e.at);
      MonotoneTail(es);
      var (t, o) := Step(s, timeout, e);
      AnswersCons(s, timeout, e, rest);
      WithoutRejectedCons(s, timeout, e, rest);
      if IsRejected(s, timeout, e) {
        TracelessStep(s, timeout, e);
        AlikeTransitive(t, s, s', timeout, e.at);
        RejectedSimulation(t, s', timeout, rest, e.at);
      } else {
        AlikeStep(s, s', timeout, e);
        RejectedSimulation(t, Step(s', timeout, e).0, timeout, rest, e.at);
        AnswersCons(s', timeout, e, WithoutRejected(t, timeout, rest));
      }
      assert [e] + rest == es;
    }
  }

  lemma WithoutRejectedCons(s: Store, timeout: Time, e: Event, es: seq<Event>)
    ensures
      var more := WithoutRejected(Step(s, timeout, e).0, timeout, es);
      WithoutRejected(s, timeout, [e] + es) == if IsRejected(s, timeout, e) then more else [e] + more
  {
    assert ([e] + es)[1..] == es;
  }

  lemma AnswersCons(s: Store, timeout: Time, e: Event, es: seq<Event>)
    ensures
      var (t, o) := Step(s, timeout, e);
      && Answers(s, timeout, [e] + es) == (if o.Answered? then [o.answer] else []) + Answers(t, timeout, es)
      && Accepted(Answers(s, timeout, [e] + es))
         == (if o.Answered? && o.answer.Ok? then [o.answer] else []) + Accepted(Answers(t, timeout, es))
      && (o.Answered? <==> e.Ingest?)
  {
    var (t, o) := Step(s, timeout, e);
    assert ([e] + es)[1..] == es;
    if o.Answered? {
      assert Answers(s, timeout, [e] + es)[1..] == Answers(t, timeout, es);
    } else {
      assert Answers(s, timeout, [e] + es) == Answers(t, timeout, es);
    }
  }

  /** A run without its rejected frames rejects nothing and answers the other frames as before. */
  lemma RejectedFramesAreInvisible(s: Store, timeout: Time, es: seq<Event>)
    requires Monotone(es)
    ensures Answers(s, timeout, WithoutRejected(s, timeout, es)) == Accepted(Answers(s, timeout, es))
  {
    RejectedSimulation(s, s, timeout, es, 0);
  }

  /** A cleanup changes what an abort reports: it sees whether an expired partial was swept before. */
  lemma AbortSeesCleanup()
    ensures
      var f := NewFrame(false, OPCODE_TEXT, []);
      && Outcomes(map[], 5, [Ingest(1, f, 0), Abort(1, 6)])[1] == Aborted(true)
      && Outcomes(map[], 5, [Ingest(1, f, 0), CleanupAllExpired(6), Abort(1, 6)])[2] == Aborted(false)
  {
    var f := NewFrame(false, OPCODE_TEXT, []);
    var s: Store := map[];
    var s1 := Step(s, 5, Ingest(1, f, 0)).0;
    assert s1 == map[1 := Begin(OPCODE_TEXT, [], 0)];
    var s2 := Step(s1, 5, CleanupAllExpired(6)).0;
    assert 1 !in s2;
    var es := [Ingest(1, f, 0), Abort(1, 6)];
    assert Outcomes(s1, 5, es[1..])[0] == Aborted(true);
    var es' := [Ingest(1, f, 0), CleanupAllExpired(6), Abort(1, 6)];
    assert es'[1..][1..] == [Abort(1, 6)];
    assert Outcomes(s2, 5, [Abort(1, 6)])[0] == Aborted(false);
    assert Outcomes(s1, 5, es'[1..])[1] == Aborted(false);
  }

  // ---------------------------------------------------------------- where the bytes go

  function SlotSize(slot: Slot): nat {
    if slot.Some? then slot.value.totalSize else 0
  }

  lemma HeldPut(s: Store, c: ConnectionId, slot: Slot)
    ensures Held(Put(s, c, slot)) == Held(s) - SlotSize(Get(s, c)) + SlotSize(slot)
  {
    var t := Put(s, c, slot);
    if c in s {
      HeldRemove(s, c);
    } else {
      assert s - {c} == s;
    }
    if slot.Some? {
      HeldRemove(t, c);
      assert t - {c} == s - {c};
    }
  }

  /** The partials that a cleanup at `now` throws away. */
  function Overdue(s: Store, timeout: Time, now: Time): Store {
    map c | c in s && s[c].Expired(timeout, now) :: s[c]
  }

  lemma {:induction false} HeldSplitsAtCleanup(s: Store, timeout: Time, now: Time)
    ensures Held(s) == Held(CleanupAll(s, timeout, now)) + Held(Overdue(s, timeout, now))
    decreases s
  {
    if s == map[] {
      assert CleanupAll(s, timeout, now) == map[] && Overdue(s, timeout, now) == map[];
    } else {
      var c :| c in s;
      HeldRemove(s, c);
      assert (s - {c}).Keys < s.Keys;
      HeldSplitsAtCleanup(s - {c}, timeout, now);
      if s[c].Expired(timeout, now) {
        HeldRemove(Overdue(s, timeout, now), c);
        assert Overdue(s, timeout, now) - {c} == Overdue(s - {c}, timeout, now);
        assert CleanupAll(s, timeout, now) == CleanupAll(s - {c}, timeout, now);
      } else {
        HeldRemove(CleanupAll(s, timeout, now), c);
        assert CleanupAll(s, timeout, now) - {c} == CleanupAll(s - {c}, timeout, now);
        assert Overdue(s, timeout, now) == Overdue(s - {c}, timeout, now);
      }
    }
  }

  /** Bytes of a data frame that was accepted. */
  function BytesIn(s: Store, timeout: Time, e: Event): nat {
    if e.Ingest? && !IsControl(e.frame.opcode) && Step(s, timeout, e).1.answer.Ok? then |e.frame.payload| else 0
  }

  /** Bytes of a data message handed back. */
  function BytesOut(s: Store, timeout: Time, e: Event): nat {
    if e.Ingest? && !IsControl(e.frame.opcode) then
      match Step(s, timeout, e).1.answer
      case Ok(Some(m)) => |m.payload|
      case _ => 0
    else 0
  }

  /** Bytes of partials given up: expired ones met by a data frame or a cleanup, and aborted ones. */
  ghost function BytesDropped(s: Store, timeout: Time, e: Event): nat {
    match e
    case Ingest(c, f, at) =>
      if !IsControl(f.opcode) && Live(Get(s, c), timeout, at).None? then SlotSize(Get(s, c)) else 0
    case Abort(c, _) => SlotSize(Get(s, c))
    case CleanupAllExpired(at) => Held(Overdue(s, timeout, at))
  }

  function TotalIn(s: Store, timeout: Time, es: seq<Event>): nat
    decreases |es|
  {
    if es == [] then 0 else BytesIn(s, timeout, es[0]) + TotalIn(Step(s, timeout, es[0]).0, timeout, es[1..])
  }

  function TotalOut(s: Store, timeout: Time, es: seq<Event>): nat
    decreases |es|
  {
    if es == [] then 0 else BytesOut(s, timeout, es[0]) + TotalOut(Step(s, timeout, es[0]).0, timeout, es[1..])
  }

  ghost function TotalDropped(s: Store, timeout: Time, es: seq<Event>): nat
    decreases |es|
  {
    if es == [] then 0
    else BytesDropped(s, timeout, es[0]) + TotalDropped(Step(s, timeout, es[0]).0, timeout, es[1..])
  }

  /** One frame against one slot. */
  lemma FrameConserves(slot: Slot, f: Frame, timeout: Time, at: Time)
    requires slot.Some? ==> slot.value.Consistent()
    ensures
      var (slot', answer) := IngestSlot(slot, f, timeout, at);
      var data := !IsControl(f.opcode);
      && (slot'.Some? ==> slot'.value.Consistent())
      && SlotSize(slot) + (if data && answer.Ok? then |f.payload| else 0)
         == (if data && answer.Ok? && answer.value.Some? then |answer.value.value.payload| else 0)
            + SlotSize(slot') + (if data && Live(slot, timeout, at).None? then SlotSize(slot) else 0)
  {
    if slot.Some? {
      JoinSnoc(slot.value.fragments, f.payload);
    }
    JoinSnoc([], f.payload);
    assert Join([] + [f.payload]) == Join([f.payload]);
  }

  lemma StepConserves(s: Store, timeout: Time, e: Event)
    requires Consistent(s)
    ensures Consistent(Step(s, timeout, e).0)
    ensures Held(s) + BytesIn(s, timeout, e)
         == BytesOut(s, timeout, e) + Held(Step(s, timeout, e).0) + BytesDropped(s, timeout, e)
  {
    match e
    case Ingest(c, f, at) =>
      HeldPut(s, c, IngestSlot(Get(s, c), f, timeout, at).0);
      FrameConserves(Get(s, c), f, timeout, at);
    case Abort(c, _) =>
      HeldPut(s, c, None);
    case CleanupAllExpired(at) =>
      HeldSplitsAtCleanup(s, timeout, at);
  }

  lemma AlikeSizes(s: Store, s': Store, timeout: Time, now: Time)
    requires Alike(s, s', timeout, now)
    ensures Held(s) - Held(Overdue(s, timeout, now)) == Held(s') - Held(Overdue(s', timeout, now))
  {
    var t, t' := CleanupAll(s, timeout, now), CleanupAll(s', timeout, now);
    forall c
      ensures Get(t, c) == Get(t', c)
    {
      assert Live(Get(s, c), timeout, now) == Live(Get(s', c), timeout, now);
    }
    SameSlots(t, t');
    HeldSplitsAtCleanup(s, timeout, now);
    HeldSplitsAtCleanup(s', timeout, now);
  }

  /** What such calls change in the size reported at any later time is the bytes overdue by then. */
  lemma SizesDifferByOverdue(s: Store, timeout: Time, es: seq<Event>, keep: seq<bool>, now: Time)
    requires Monotone(es) && Removable(s, timeout, es, keep) && (es != [] ==> es[|es| - 1].at <= now)
    ensures
      var t, t' := Final(s, timeout, es), Final(s, timeout, Kept(es, keep));
      Held(t) - Held(Overdue(t, timeout, now)) == Held(t') - Held(Overdue(t', timeout, now))
  {
    Simulation(s, s, timeout, es, keep, 0);
    var t, t' := Final(s, timeout, es), Final(s, timeout, Kept(es, keep));
    AlikeLater(t, t', timeout, if es == [] then 0 else es[|es| - 1].at, now);
    AlikeSizes(t, t', timeout, now);
  }

  /** A byte held past the timeout counts until it is swept. */
  lemma SizeSeesCleanup(s: Store)
    requires s == map[1 := Begin(OPCODE_TEXT, [0], 0)]
    ensures Held(s) == 1 && Held(CleanupAll(s, 5, 6)) == 0
  {
    HeldRemove(s, 1);
    assert s - {1} == map[] && CleanupAll(s, 5, 6) == map[];
  }

  /** Over every run, bytes accepted = bytes delivered + bytes held + bytes given up,
      and the cached sizes stay right throughout. */
  lemma {:induction false} BytesAreConserved(s: Store, timeout: Time, es: seq<Event>)
    requires Consistent(s)
    ensures Consistent(Final(s, timeout, es))
    ensures Held(s) + TotalIn(s, timeout, es)
         == TotalOut(s, timeout, es) + Held(Final(s, timeout, es)) + TotalDropped(s, timeout, es)
    decreases |es|
  {
    if es != [] {
      StepConserves(s, timeout, es[0]);
      BytesAreConserved(Step(s, timeout, es[0]).0, timeout, es[1..]);
    }
  }

  // ---------------------------------------------------------------- what one connection sees

  datatype SlotEvent =
    | Arrive(frame: Frame, at: Time)
    | Discard(at: Time)
    | Sweep(at: Time)

  function SlotStep(slot: Slot, timeout: Time, e: SlotEvent): Slot {
    match e
    case Arrive(f, at) => IngestSlot(slot, f, timeout, at).0
    case Discard(_) => None
    case Sweep(at) => Live(slot, timeout, at)
  }

  function SlotFinal(slot: Slot, timeout: Time, es: seq<SlotEvent>): Slot
    decreases |es|
  {
    if es == [] then slot else SlotFinal(SlotStep(slot, timeout, es[0]), timeout, es[1..])
  }

  function SlotAnswers(slot: Slot, timeout: Time, es: seq<SlotEvent>): seq<Answer>
    decreases |es|
  {
    if es == [] then []
    else
      (if es[0].Arrive? then [IngestSlot(slot, es[0].frame, timeout, es[0].at).1] else [])
      + SlotAnswers(SlotStep(slot, timeout, es[0]), timeout, es[1..])
  }

  /** The part of an event that concerns connection `c`. */
  function View(e: Event, c: ConnectionId): seq<SlotEvent> {
    match e
    case Ingest(d, f, at) => if c == d then [Arrive(f, at)] else []
    case Abort(d, at) => if c == d then [Discard(at)] else []
    case CleanupAllExpired(at) => [Sweep(at)]
  }

  function Project(es: seq<Event>, c: ConnectionId): seq<SlotEvent> {
    if es == [] then [] else View(es[0], c) + Project(es[1..], c)
  }

  /** The answers that frames of connection `c` get in a merged run. */
  function AnswersTo(s: Store, timeout: Time, es: seq<Event>, c: ConnectionId): seq<Answer>
    decreases |es|
  {
    if es == [] then []
    else
      var (s', o) := Step(s, timeout, es[0]);
      (if es[0].Ingest? && es[0].c == c then [o.answer] else []) + AnswersTo(s', timeout, es[1..], c)
  }

  /** A merged run looks to each connection like a run of its own. */
  lemma {:induction false} MergedRunProjects(s: Store, timeout: Time, es: seq<Event>, c: ConnectionId)
    ensures AnswersTo(s, timeout, es, c) == SlotAnswers(Get(s, c), timeout, Project(es, c))
    ensures Get(Final(s, timeout, es), c) == SlotFinal(Get(s, c), timeout, Project(es, c))
    decreases |es|
  {
    if es != [] {
      var e := es[0];
      var s' := Step(s, timeout, e).0;
      MergedRunProjects(s', timeout, es[1..], c);
      if !e.CleanupAllExpired? && e.c != c {
        assert Get(s', c) == Get(s, c);
        assert Project(es, c) == Project(es[1..], c);
      } else {
        assert View(e, c) == [View(e, c)[0]];
        assert Get(s', c) == SlotStep(Get(s, c), timeout, View(e, c)[0]);
        assert Project(es, c)[1..] == Project(es[1..], c);
      }
    }
  }

  // ---------------------------------------------------------------- cleanups only take away

  /** `s` is `s'` without some partials overdue at `now`. */
  ghost predicate Thinner(s: Store, s': Store, timeout: Time, now: Time) {
    forall c :: Get(s, c) == Get(s', c) || (Get(s, c) == None && Live(Get(s', c), timeout, now) == None)
  }

  lemma ThinnerStep(s: Store, s': Store, timeout: Time, e: Event, now: Time)
    requires Thinner(s, s', timeout, now) && now <= e.at
    ensures Thinner(Step(s, timeout, e).0, if e.CleanupAllExpired? then s' else Step(s', timeout, e).0, timeout, e.at)
    ensures e.Ingest? ==> Step(s, timeout, e).1 == Step(s', timeout, e).1
  {
    var t, t' := Step(s, timeout, e).0, if e.CleanupAllExpired? then s' else Step(s', timeout, e).0;
    forall c
      ensures Get(t, c) == Get(t', c) || (Get(t, c) == None && Live(Get(t', c), timeout, e.at) == None)
    {
      assert Get(s, c) == Get(s', c) || (Get(s, c) == None && Live(Get(s', c), timeout, now) == None);
    }
    if e.Ingest? {
      assert Get(s, e.c) == Get(s', e.c) || (Get(s, e.c) == None && Live(Get(s', e.c), timeout, now) == None);
    }
  }

  /** With cleanups anywhere each connection is answered as without them, and no more is held at the end. */
  lemma {:induction false} CleanupsThin(s: Store, s': Store, timeout: Time, es: seq<Event>, now: Time, c: ConnectionId)
    requires Monotone(es) && (es != [] ==> now <= es[0].at) && Thinner(s, s', timeout, now)
    ensures AnswersTo(s, timeout, es, c) == AnswersTo(s', timeout, WithoutCleanups(es), c)
    ensures Final(s, timeout, es).Keys <= Final(s', timeout, WithoutCleanups(es)).Keys
    decreases |es|
  {
    if es == [] {
      forall d | d in s
        ensures d in s'
      {
        assert Get(s, d) == Get(s', d);
      }
    } else {
      var e, rest := es[0], es[1..];
      MonotoneTail(es);
      ThinnerStep(s, s', timeout, e, now);
      var t := Step(s, timeout, e).0;
      if e.CleanupAllExpired? {
        CleanupsThin(t, s', timeout, rest, e.at, c);
        assert WithoutCleanups(es) == WithoutCleanups(rest);
      } else {
        CleanupsThin(t, Step(s', timeout, e).0, timeout, rest, e.at, c);
        assert WithoutCleanups(es) == [e] + WithoutCleanups(rest);
        assert WithoutCleanups(es)[1..] == WithoutCleanups(rest);
      }
    }
  }
}
