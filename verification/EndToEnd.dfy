/**
 Splitting and reassembling undo each other: for one message, and for any number of connections
 whose frames arrive in any order that keeps each connection's own.
 */
module EndToEnd {
  import opened Frames
  import opened Wrappers
  import opened Fragmentation
  import opened Reassembly
  import opened FragmentGrammar
  import Runs = ReassemblyRuns

  predicate IsDataMessage(m: Message) {
    m.msgType.Text? || m.msgType.Binary?
  }

  /** `fs` is message `m` cut to `max`, all of it arriving within the timeout. */
  ghost predicate Carries(fs: seq<TimedFrame>, m: Message, max: nat, timeout: Time)
    requires max > 0
  {
    && FramesIn(fs) == Split(m, max)
    && fs != []
    && forall i :: 0 <= i < |fs| ==> fs[i].at <= fs[0].at + timeout
  }

  /** What a cut message reads as on the other side, when it is read as a data message. */
  function ReadBack(m: Message): Message {
    Message(if m.msgType.Text? then Text else Binary, m.payload)
  }

  lemma CutMessageIsABlock(fs: seq<TimedFrame>, m: Message, max: nat, timeout: Time)
    requires max > 0 && Carries(fs, m, max, timeout)
    requires IsDataMessage(m) || |m.payload| > max
    ensures IsBlock(fs, timeout) && Finished(fs)
    ensures MessageOf(fs) == ReadBack(m)
  {
    SplitIsWellCut(m, max);
    var frames := Split(m, max);
    assert |frames| == |fs| && forall i :: 0 <= i < |fs| ==> fs[i].frame == frames[i];
    assert PiecesOf(fs) == Pieces(frames);
    forall i | 0 <= i < |fs|
      ensures fs[i].frame.fin == (i == |fs| - 1)
    {
      assert frames[i] == NewFrame(i == |frames| - 1, frames[i].opcode, frames[i].payload);
    }
  }

  // ---------------------------------------------------------------- one message

  /** The messages handed back by a run, control messages included. */
  function Received(slot: Slot, timeout: Time, fs: seq<TimedFrame>): seq<Message>
    decreases |fs|
  {
    if fs == [] then []
    else
      var (slot', answer) := IngestSlot(slot, fs[0].frame, timeout, fs[0].at);
      (match answer
       case Ok(Some(m)) => [m]
       case _ => [])
      + Received(slot', timeout, fs[1..])
  }

  lemma {:induction false} ReceivedIsDelivered(slot: Slot, timeout: Time, fs: seq<TimedFrame>)
    requires forall i :: 0 <= i < |fs| ==> !IsControl(fs[i].frame.opcode)
    ensures Received(slot, timeout, fs) == Delivered(slot, timeout, fs)
    decreases |fs|
  {
    if fs != [] {
      ReceivedIsDelivered(IngestSlot(slot, fs[0].frame, timeout, fs[0].at).0, timeout, fs[1..]);
    }
  }

  /** The messages that survive the trip: text and binary of any size, control messages in one frame. */
  predicate Survives(m: Message, max: nat) {
    IsDataMessage(m) || (!m.msgType.Continuation? && |m.payload| <= max)
  }

  /** Reassembling what was split gives the message back exactly when `Survives` says so;
      an oversized one of another type comes back as binary, a small continuation is refused. */
  lemma RoundTripExactlyWhen(fs: seq<TimedFrame>, m: Message, max: nat, timeout: Time)
    requires max > 0 && Carries(fs, m, max, timeout)
    ensures NoError(None, timeout, fs) && Received(None, timeout, fs) == [m] <==> Survives(m, max)
    ensures Run(None, timeout, fs) == None
    ensures |m.payload| > max
            ==> NoError(None, timeout, fs) && Received(None, timeout, fs) == [ReadBack(m)]
    ensures |m.payload| <= max && m.msgType.Continuation?
            ==> Answers(None, timeout, fs) == [Err(ContinuationWithoutStart)]
  {
    var frames := Split(m, max);
    SplitIsWellCut(m, max);
    assert |fs| == |frames| && forall i :: 0 <= i < |fs| ==> fs[i].frame == frames[i];
    if IsDataMessage(m) || |m.payload| > max {
      CutMessageIsABlock(fs, m, max, timeout);
      assert Concat([fs]) == fs + Concat([]) == fs;
      ParseIsAccepted(None, timeout, [fs], fs);
      assert MessagesOf([fs]) == [MessageOf(fs)] + MessagesOf([]);
      ReceivedIsDelivered(None, timeout, fs);
      assert Received(None, timeout, fs) == [ReadBack(m)];
      assert [ReadBack(m)][0] == m <==> IsDataMessage(m);
    } else {
      assert fs == [fs[0]] && fs[1..] == [];
      NoErrorCons(None, timeout, fs);
    }
  }

  // ---------------------------------------------------------------- many connections

  /** `fs` is the messages `ms` one after another, each cut to `max` and not outliving the timeout. */
  ghost predicate Sends(fs: seq<TimedFrame>, ms: seq<Message>, max: nat, timeout: Time)
    requires max > 0
    decreases |ms|
  {
    if ms == [] then fs == []
    else
      var n := |Split(ms[0], max)|;
      && n <= |fs|
      && Carries(fs[..n], ms[0], max, timeout)
      && Sends(fs[n..], ms[1..], max, timeout)
  }

  lemma DataMessageIsABlock(b: Block, m: Message, max: nat, timeout: Time)
    requires max > 0 && Carries(b, m, max, timeout) && IsDataMessage(m)
    ensures IsBlock(b, timeout) && Finished(b) && MessageOf(b) == m
  {
    CutMessageIsABlock(b, m, max, timeout);
    assert ReadBack(m) == m;
  }

  lemma FirstOfSent(fs: seq<TimedFrame>, ms: seq<Message>, max: nat, timeout: Time)
    returns (b: Block, more: seq<TimedFrame>)
    requires max > 0 && ms != [] && Sends(fs, ms, max, timeout) && IsDataMessage(ms[0])
    ensures fs == b + more && Sends(more, ms[1..], max, timeout)
    ensures IsBlock(b, timeout) && Finished(b) && MessageOf(b) == ms[0]
  {
    var n := |Split(ms[0], max)|;
    DataMessageIsABlock(fs[..n], ms[0], max, timeout);
    b, more := CutAt(fs, n);
  }

  lemma CutAt(fs: seq<TimedFrame>, n: nat) returns (a: seq<TimedFrame>, b: seq<TimedFrame>)
    requires n <= |fs|
    ensures a == fs[..n] && b == fs[n..] && fs == a + b
  {
    a, b := fs[..n], fs[n..];
  }

  /** `bs` parses `fs` into finished groups that carry `ms`. */
  ghost predicate ParsesTo(bs: seq<Block>, fs: seq<TimedFrame>, ms: seq<Message>, timeout: Time) {
    && IsParse(bs, fs, timeout)
    && (forall b :: b in bs ==> Finished(b))
    && MessagesOf(bs) == ms
    && HeldAfter(bs) == None
  }

  lemma {:induction false} SentMessagesParse(fs: seq<TimedFrame>, ms: seq<Message>, max: nat, timeout: Time)
    returns (bs: seq<Block>)
    requires max > 0 && Sends(fs, ms, max, timeout)
    requires forall m :: m in ms ==> IsDataMessage(m)
    ensures ParsesTo(bs, fs, ms, timeout)
    decreases |ms|
  {
    if ms == [] {
      bs := [];
    } else {
      var b, more := FirstOfSent(fs, ms, max, timeout);
      var rest := SentMessagesParse(more, ms[1..], max, timeout);
      FinishedCons(b, rest, more, ms, timeout);
      bs := [b] + rest;
    }
  }

  lemma FinishedCons(b: Block, rest: seq<Block>, fs: seq<TimedFrame>, ms: seq<Message>, timeout: Time)
    requires ms != [] && IsBlock(b, timeout) && Finished(b) && MessageOf(b) == ms[0]
    requires ParsesTo(rest, fs, ms[1..], timeout)
    ensures ParsesTo([b] + rest, b + fs, ms, timeout)
  {
    ParseCons(b, rest, fs, timeout);
    assert ([b] + rest)[1..] == rest;
    assert ms == [ms[0]] + ms[1..];
  }

  predicate IsOk(o: Runs.Outcome) {
    o.Answered? && o.answer.Ok?
  }

  ghost predicate OnlyFrames(es: seq<Runs.Event>) {
    forall i :: 0 <= i < |es| ==> es[i].Ingest?
  }

  /** The frames of one connection in a merged run. */
  function FramesOf(es: seq<Runs.Event>, c: ConnectionId): seq<TimedFrame> {
    if es == [] then []
    else (if es[0].Ingest? && es[0].c == c then [TimedFrame(es[0].frame, es[0].at)] else []) + FramesOf(es[1..], c)
  }

  /** The data messages among the answers to a run of frames. */
  function DataMessages(fs: seq<TimedFrame>, answers: seq<Answer>): seq<Message>
    requires |fs| == |answers|
  {
    if fs == [] then []
    else
      (if IsControl(fs[0].frame.opcode) then [] else
       match answers[0]
       case Ok(Some(m)) => [m]
       case _ => [])
      + DataMessages(fs[1..], answers[1..])
  }

  lemma {:induction false} DeliveredAreDataMessages(slot: Slot, timeout: Time, fs: seq<TimedFrame>)
    ensures Delivered(slot, timeout, fs) == DataMessages(fs, Answers(slot, timeout, fs))
    decreases |fs|
  {
    if fs != [] {
      var (slot', answer) := IngestSlot(slot, fs[0].frame, timeout, fs[0].at);
      DeliveredAreDataMessages(slot', timeout, fs[1..]);
      assert Answers(slot, timeout, fs)[1..] == Answers(slot', timeout, fs[1..]);
    }
  }

  // A run of frames is a run of slot events, and the frames of a connection are its part of a merged run.

  function Arrivals(fs: seq<TimedFrame>): seq<Runs.SlotEvent> {
    if fs == [] then [] else [Runs.Arrive(fs[0].frame, fs[0].at)] + Arrivals(fs[1..])
  }

  lemma {:induction false} ArrivalsRun(slot: Slot, timeout: Time, fs: seq<TimedFrame>)
    ensures Runs.SlotAnswers(slot, timeout, Arrivals(fs)) == Answers(slot, timeout, fs)
    ensures Runs.SlotFinal(slot, timeout, Arrivals(fs)) == Run(slot, timeout, fs)
    decreases |fs|
  {
    if fs != [] {
      ArrivalsRun(IngestSlot(slot, fs[0].frame, timeout, fs[0].at).0, timeout, fs[1..]);
      assert Arrivals(fs)[1..] == Arrivals(fs[1..]);
    }
  }

  lemma {:induction false} FramesAreProjected(es: seq<Runs.Event>, c: ConnectionId)
    requires OnlyFrames(es)
    ensures Runs.Project(es, c) == Arrivals(FramesOf(es, c))
  {
    if es != [] {
      var rest, fs := es[1..], FramesOf(es, c);
      assert forall i :: 0 <= i < |rest| ==> rest[i] == es[i + 1];
      FramesAreProjected(rest, c);
      if es[0].c == c {
        assert fs[1..] == FramesOf(rest, c);
      } else {
        assert fs == FramesOf(rest, c);
      }
    }
  }

  /** A merged run answers, and holds for, each connection what a run of its frames alone would. */
  lemma MergedFramesProject(s: Store, timeout: Time, es: seq<Runs.Event>, c: ConnectionId)
    requires OnlyFrames(es)
    ensures Runs.AnswersTo(s, timeout, es, c) == Answers(Get(s, c), timeout, FramesOf(es, c))
    ensures Get(Runs.Final(s, timeout, es), c) == Run(Get(s, c), timeout, FramesOf(es, c))
    ensures MessagesTo(s, timeout, es, c) == Delivered(Get(s, c), timeout, FramesOf(es, c))
  {
    Runs.MergedRunProjects(s, timeout, es, c);
    FramesAreProjected(es, c);
    ArrivalsRun(Get(s, c), timeout, FramesOf(es, c));
    DeliveredAreDataMessages(Get(s, c), timeout, FramesOf(es, c));
  }

  /** The data messages that a merged run hands back for one connection. */
  function MessagesTo(s: Store, timeout: Time, es: seq<Runs.Event>, c: ConnectionId): seq<Message> {
    AnswersMatchFrames(s, timeout, es, c);
    DataMessages(FramesOf(es, c), Runs.AnswersTo(s, timeout, es, c))
  }

  lemma {:induction false} AnswersMatchFrames(s: Store, timeout: Time, es: seq<Runs.Event>, c: ConnectionId)
    ensures |FramesOf(es, c)| == |Runs.AnswersTo(s, timeout, es, c)|
    decreases |es|
  {
    if es != [] {
      AnswersMatchFrames(Runs.Step(s, timeout, es[0]).0, timeout, es[1..], c);
    }
  }

  /** If a connection's frames all got Ok, each of them did where it stands in the merged run. */
  lemma {:induction false} AnswersInPlace(s: Store, timeout: Time, es: seq<Runs.Event>, c: ConnectionId)
    requires forall a :: a in Runs.AnswersTo(s, timeout, es, c) ==> a.Ok?
    ensures forall i :: 0 <= i < |es| && es[i].Ingest? && es[i].c == c ==> IsOk(Runs.Outcomes(s, timeout, es)[i])
    decreases |es|
  {
    if es != [] {
      var rest := es[1..];
      var (s', o) := Runs.Step(s, timeout, es[0]);
      assert forall i :: 0 <= i < |rest| ==> rest[i] == es[i + 1];
      assert es[0].Ingest? && es[0].c == c ==> o.answer in Runs.AnswersTo(s, timeout, es, c);
      AnswersInPlace(s', timeout, rest, c);
      forall i | 0 < i < |es| && es[i].Ingest? && es[i].c == c
        ensures IsOk(Runs.Outcomes(s, timeout, es)[i])
      {
        assert Runs.Outcomes(s, timeout, es)[i] == Runs.Outcomes(s', timeout, rest)[i - 1];
        assert rest[i - 1] == es[i];
      }
    }
  }

  lemma {:induction false} ControlInPlace(s: Store, timeout: Time, es: seq<Runs.Event>)
    ensures forall i :: 0 <= i < |es| && es[i].Ingest? && IsControl(es[i].frame.opcode)
              ==> Runs.Outcomes(s, timeout, es)[i] == Runs.Answered(Reply(WholeMessage(es[i].frame)))
    decreases |es|
  {
    if es != [] {
      var s', rest := Runs.Step(s, timeout, es[0]).0, es[1..];
      ControlInPlace(s', timeout, rest);
      forall i | 0 < i < |es| && es[i].Ingest? && IsControl(es[i].frame.opcode)
        ensures Runs.Outcomes(s, timeout, es)[i] == Runs.Answered(Reply(WholeMessage(es[i].frame)))
      {
        assert rest[i - 1] == es[i] && Runs.Outcomes(s, timeout, es)[i] == Runs.Outcomes(s', timeout, rest)[i - 1];
      }
    }
  }

  /** Any number of connections, each sending its own messages cut to its own frame size, merged in
      any order, control frames anywhere: nothing is refused, every connection gets its messages
      back in order, every control frame is answered with itself, and nothing is left over. */
  lemma InterleavedRoundTrip(es: seq<Runs.Event>, timeout: Time, sent: ConnectionId -> seq<Message>,
                             size: ConnectionId -> nat)
    requires OnlyFrames(es)
    requires forall c :: size(c) > 0
    requires forall c, m :: m in sent(c) ==> IsDataMessage(m)
    requires forall c :: Sends(DataOf(FramesOf(es, c)), sent(c), size(c), timeout)
    ensures forall i :: 0 <= i < |es| ==> IsOk(Runs.Outcomes(map[], timeout, es)[i])
    ensures forall c :: MessagesTo(map[], timeout, es, c) == sent(c)
    ensures forall i :: 0 <= i < |es| && IsControl(es[i].frame.opcode)
              ==> Runs.Outcomes(map[], timeout, es)[i] == Runs.Answered(Reply(WholeMessage(es[i].frame)))
    ensures Runs.Final(map[], timeout, es) == map[]
  {
    var empty: Store := map[];
    ControlInPlace(empty, timeout, es);
    forall c
      ensures MessagesTo(empty, timeout, es, c) == sent(c)
      ensures Get(Runs.Final(empty, timeout, es), c) == None
      ensures forall i :: 0 <= i < |es| && es[i].c == c ==> IsOk(Runs.Outcomes(empty, timeout, es)[i])
    {
      ConnectionRoundTrip(es, timeout, c, sent(c), size(c));
    }
    forall i | 0 <= i < |es|
      ensures IsOk(Runs.Outcomes(empty, timeout, es)[i])
    {
      var c := es[i].c;
      ConnectionRoundTrip(es, timeout, c, sent(c), size(c));
    }
    assert forall c :: c !in Runs.Final(empty, timeout, es) by {
      forall c
        ensures c !in Runs.Final(empty, timeout, es)
      {
        assert Get(Runs.Final(empty, timeout, es), c) == None;
      }
    }
  }

  lemma ConnectionRoundTrip(es: seq<Runs.Event>, timeout: Time, c: ConnectionId, ms: seq<Message>, max: nat)
    requires OnlyFrames(es) && max > 0
    requires forall m :: m in ms ==> IsDataMessage(m)
    requires Sends(DataOf(FramesOf(es, c)), ms, max, timeout)
    ensures MessagesTo(map[], timeout, es, c) == ms
    ensures Get(Runs.Final(map[], timeout, es), c) == None
    ensures forall i :: 0 <= i < |es| && es[i].c == c ==> IsOk(Runs.Outcomes(map[], timeout, es)[i])
  {
    var fs := FramesOf(es, c);
    var empty: Store := map[];
    var bs := SentMessagesParse(DataOf(fs), ms, max, timeout);
    ParsedRunIsAccepted(timeout, bs, fs);
    MergedFramesProject(empty, timeout, es, c);
    AnswersInPlace(empty, timeout, es, c);
  }

  // ---------------------------------------------------------------- with cleanups anywhere

  lemma {:induction false} CleanupsCarryNoFrames(es: seq<Runs.Event>, c: ConnectionId)
    requires forall i :: 0 <= i < |es| ==> !es[i].Abort?
    ensures FramesOf(Runs.WithoutCleanups(es), c) == FramesOf(es, c) && OnlyFrames(Runs.WithoutCleanups(es))
  {
    if es != [] {
      var rest := es[1..];
      assert forall i :: 0 <= i < |rest| ==> rest[i] == es[i + 1];
      CleanupsCarryNoFrames(rest, c);
      if es[0].Ingest? {
        assert Runs.WithoutCleanups(es)[1..] == Runs.WithoutCleanups(rest);
      } else {
        assert Runs.WithoutCleanups(es) == Runs.WithoutCleanups(rest);
      }
    }
  }

  lemma CleanedConnection(es: seq<Runs.Event>, timeout: Time, c: ConnectionId, ms: seq<Message>, max: nat)
    requires Runs.Monotone(es) && max > 0 && forall i :: 0 <= i < |es| ==> !es[i].Abort?
    requires forall m :: m in ms ==> IsDataMessage(m)
    requires Sends(DataOf(FramesOf(es, c)), ms, max, timeout)
    ensures MessagesTo(map[], timeout, es, c) == ms
    ensures Get(Runs.Final(map[], timeout, es), c) == None
    ensures forall i :: 0 <= i < |es| && es[i].Ingest? && es[i].c == c ==> IsOk(Runs.Outcomes(map[], timeout, es)[i])
  {
    var empty: Store, kept := map[], Runs.WithoutCleanups(es);
    CleanupsCarryNoFrames(es, c);
    Runs.CleanupsThin(empty, empty, timeout, es, 0, c);
    ConnectionRoundTrip(kept, timeout, c, ms, max);
    MergedFramesProject(empty, timeout, kept, c);
    var bs := SentMessagesParse(DataOf(FramesOf(es, c)), ms, max, timeout);
    ParsedRunIsAccepted(timeout, bs, FramesOf(es, c));
    AnswersInPlace(empty, timeout, es, c);
  }

  /** The same round trip with `cleanup_all_expired` called anywhere in between. */
  lemma CleanedRoundTrip(es: seq<Runs.Event>, timeout: Time, sent: ConnectionId -> seq<Message>,
                         size: ConnectionId -> nat)
    requires Runs.Monotone(es) && forall i :: 0 <= i < |es| ==> !es[i].Abort?
    requires forall c :: size(c) > 0
    requires forall c, m :: m in sent(c) ==> IsDataMessage(m)
    requires forall c :: Sends(DataOf(FramesOf(es, c)), sent(c), size(c), timeout)
    ensures forall i :: 0 <= i < |es| && es[i].Ingest? ==> IsOk(Runs.Outcomes(map[], timeout, es)[i])
    ensures forall c :: MessagesTo(map[], timeout, es, c) == sent(c)
    ensures forall i :: 0 <= i < |es| && es[i].Ingest? && IsControl(es[i].frame.opcode)
              ==> Runs.Outcomes(map[], timeout, es)[i] == Runs.Answered(Reply(WholeMessage(es[i].frame)))
    ensures Runs.Final(map[], timeout, es) == map[]
  {
    var empty: Store := map[];
    ControlInPlace(empty, timeout, es);
    forall c
      ensures MessagesTo(empty, timeout, es, c) == sent(c)
      ensures c !in Runs.Final(empty, timeout, es)
    {
      CleanedConnection(es, timeout, c, sent(c), size(c));
    }
    forall i | 0 <= i < |es| && es[i].Ingest?
      ensures IsOk(Runs.Outcomes(empty, timeout, es)[i])
    {
      var c := es[i].c;
      CleanedConnection(es, timeout, c, sent(c), size(c));
    }
  }
}
