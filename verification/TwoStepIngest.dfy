/**
 `ingest_frame` of src/fragmentation.rs as it locks: the overdue partial is dropped in one critical section,
 the frame handled in a second, and calls for other connections may run in between.
 */
module TwoStepIngest {
  import opened Frames
  import opened Wrappers
  import opened Reassembly
  import opened FragmentGrammar
  import opened EndToEnd
  import Runs = ReassemblyRuns

  datatype Half =
    | Clean(c: ConnectionId, at: Time)
    | Handle(c: ConnectionId, frame: Frame, at: Time)
    | Control(c: ConnectionId, frame: Frame)  // answered without the lock

  function Step(s: Store, timeout: Time, h: Half): (Store, Option<Answer>) {
    match h
    case Clean(c, at) => (Put(s, c, Live(Get(s, c), timeout, at)), None)
    case Handle(c, f, at) =>
      var (slot, answer) := DataStep(Get(s, c), f, at);
      (Put(s, c, slot), Some(answer))
    case Control(_, f) => (s, Some(Reply(WholeMessage(f))))
  }

  function Final(s: Store, timeout: Time, hs: seq<Half>): Store
    decreases |hs|
  {
    if hs == [] then s else Final(Step(s, timeout, hs[0]).0, timeout, hs[1..])
  }

  function AnswersTo(s: Store, timeout: Time, hs: seq<Half>, c: ConnectionId): seq<Answer>
    decreases |hs|
  {
    if hs == [] then []
    else
      var (s', answer) := Step(s, timeout, hs[0]);
      (if hs[0].c == c && answer.Some? then [answer.value] else []) + AnswersTo(s', timeout, hs[1..], c)
  }

  /** What the threads serving `c` do in a merged run. */
  function Of(hs: seq<Half>, c: ConnectionId): seq<Half> {
    if hs == [] then [] else (if hs[0].c == c then [hs[0]] else []) + Of(hs[1..], c)
  }

  /** One thread taking the frames one after another. */
  function Halves(c: ConnectionId, fs: seq<TimedFrame>): seq<Half> {
    if fs == [] then []
    else
      var f := fs[0];
      (if IsControl(f.frame.opcode) then [Control(c, f.frame)] else [Clean(c, f.at), Handle(c, f.frame, f.at)])
      + Halves(c, fs[1..])
  }

  lemma OthersDoNotTouch(s: Store, timeout: Time, h: Half, c: ConnectionId)
    requires h.c != c
    ensures Get(Step(s, timeout, h).0, c) == Get(s, c)
  {
  }

  /** Between calls for `c`: what happens until the next of its halves concerns others. */
  lemma {:induction false} BetweenCalls(s: Store, timeout: Time, hs: seq<Half>, c: ConnectionId, fs: seq<TimedFrame>)
    requires Of(hs, c) == Halves(c, fs)
    ensures AnswersTo(s, timeout, hs, c) == Answers(Get(s, c), timeout, fs)
    ensures Get(Final(s, timeout, hs), c) == Run(Get(s, c), timeout, fs)
    decreases |hs|
  {
    if hs != [] {
      var h, rest, s' := hs[0], hs[1..], Step(s, timeout, hs[0]).0;
      if h.c != c {
        OthersDoNotTouch(s, timeout, h, c);
        assert Of(hs, c) == Of(rest, c);
        BetweenCalls(s', timeout, rest, c, fs);
      } else {
        assert Of(hs, c)[0] == h && Of(hs, c)[1..] == Of(rest, c);
        var f := fs[0];
        if IsControl(f.frame.opcode) {
          assert Halves(c, fs)[1..] == Halves(c, fs[1..]);
          BetweenCalls(s', timeout, rest, c, fs[1..]);
        } else {
          assert Halves(c, fs)[1..] == [Handle(c, f.frame, f.at)] + Halves(c, fs[1..]);
          assert Get(s', c) == Live(Get(s, c), timeout, f.at);
          MidCall(s', timeout, rest, c, f, fs[1..]);
        }
      }
    } else {
      assert fs == [];
    }
  }

  /** Between the two halves of a call for `c`. */
  lemma {:induction false} MidCall(s: Store, timeout: Time, hs: seq<Half>, c: ConnectionId, f: TimedFrame,
                                   fs: seq<TimedFrame>)
    requires Of(hs, c) == [Handle(c, f.frame, f.at)] + Halves(c, fs)
    ensures
      var (slot, answer) := DataStep(Get(s, c), f.frame, f.at);
      && AnswersTo(s, timeout, hs, c) == [answer] + Answers(slot, timeout, fs)
      && Get(Final(s, timeout, hs), c) == Run(slot, timeout, fs)
    decreases |hs|
  {
    assert hs != [];
    var h, rest, s' := hs[0], hs[1..], Step(s, timeout, hs[0]).0;
    if h.c != c {
      OthersDoNotTouch(s, timeout, h, c);
      assert Of(hs, c) == Of(rest, c);
      MidCall(s', timeout, rest, c, f, fs);
    } else {
      assert Of(hs, c)[0] == h && Of(hs, c)[1..] == Of(rest, c);
      BetweenCalls(s', timeout, rest, c, fs);
    }
  }

  /** However the halves interleave, as long as each connection's calls follow one another, every connection
      is answered as by atomic calls in any order that keeps its own, and the table ends the same. */
  lemma HalvesActAtomically(s: Store, timeout: Time, hs: seq<Half>, es: seq<Runs.Event>)
    requires OnlyFrames(es) && forall c :: Of(hs, c) == Halves(c, FramesOf(es, c))
    ensures forall c :: AnswersTo(s, timeout, hs, c) == Runs.AnswersTo(s, timeout, es, c)
    ensures Final(s, timeout, hs) == Runs.Final(s, timeout, es)
  {
    var t, t' := Final(s, timeout, hs), Runs.Final(s, timeout, es);
    forall c
      ensures AnswersTo(s, timeout, hs, c) == Runs.AnswersTo(s, timeout, es, c)
      ensures Get(t, c) == Get(t', c)
    {
      BetweenCalls(s, timeout, hs, c, FramesOf(es, c));
      MergedFramesProject(s, timeout, es, c);
    }
    SameSlots(t, t');
  }
}
