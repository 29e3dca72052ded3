/**
 Which frame sequences one connection accepts: exactly those of section 5.4 of RFC 6455,
 where a message left unfinished past the timeout counts as never started.
 */
module FragmentGrammar {
  import opened Frames
  import opened Wrappers
  import opened Reassembly

  datatype TimedFrame = TimedFrame(frame: Frame, at: Time)

  function Run(slot: Slot, timeout: Time, fs: seq<TimedFrame>): Slot
    decreases |fs|
  {
    if fs == [] then slot
    else Run(IngestSlot(slot, fs[0].frame, timeout, fs[0].at).0, timeout, fs[1..])
  }

  function Answers(slot: Slot, timeout: Time, fs: seq<TimedFrame>): (answers: seq<Answer>)
    ensures |answers| == |fs|
    decreases |fs|
  {
    if fs == [] then []
    else
      var (slot', answer) := IngestSlot(slot, fs[0].frame, timeout, fs[0].at);
      [answer] + Answers(slot', timeout, fs[1..])
  }

  ghost predicate NoError(slot: Slot, timeout: Time, fs: seq<TimedFrame>) {
    forall i :: 0 <= i < |fs| ==> Answers(slot, timeout, fs)[i].Ok?
  }

  /** The data frames of a run. */
  function DataOf(fs: seq<TimedFrame>): seq<TimedFrame> {
    if fs == [] then []
    else (if IsControl(fs[0].frame.opcode) then [] else [fs[0]]) + DataOf(fs[1..])
  }

  /** The messages handed back in answer to data frames. */
  function Delivered(slot: Slot, timeout: Time, fs: seq<TimedFrame>): seq<Message>
    decreases |fs|
  {
    if fs == [] then []
    else
      var (slot', answer) := IngestSlot(slot, fs[0].frame, timeout, fs[0].at);
      (if IsControl(fs[0].frame.opcode) then [] else
       match answer
       case Ok(Some(m)) => [m]
       case _ => [])
      + Delivered(slot', timeout, fs[1..])
  }

  // ---------------------------------------------------------------- the grammar

  type Block = seq<TimedFrame>

  /** Text or binary first, then continuations, only the last of them possibly final. */
  ghost predicate IsPlainBlock(b: Block) {
    && b != []
    && IsStart(b[0].frame.opcode)
    && (forall i :: 0 < i < |b| ==> b[i].frame.opcode == OPCODE_CONTINUATION)
    && (forall i :: 0 <= i < |b| - 1 ==> !b[i].frame.fin)
  }

  /** All of it within the timeout of the first frame. */
  ghost predicate IsBlock(b: Block, timeout: Time) {
    && IsPlainBlock(b)
    && (forall i :: 0 <= i < |b| ==> b[i].at <= b[0].at + timeout)
  }

  predicate Finished(b: Block)
    requires b != []
  {
    b[|b| - 1].frame.fin
  }

  function Concat(bs: seq<Block>): seq<TimedFrame> {
    if bs == [] then [] else bs[0] + Concat(bs[1..])
  }

  /** Blocks in order; one that is followed before it is finished was overdue by then. */
  ghost predicate IsParse(bs: seq<Block>, fs: seq<TimedFrame>, timeout: Time) {
    && Concat(bs) == fs
    && (forall i :: 0 <= i < |bs| ==> IsBlock(bs[i], timeout))
    && (forall i :: 0 <= i < |bs| - 1 ==> Finished(bs[i]) || bs[i + 1][0].at > bs[i][0].at + timeout)
  }

  function FramesIn(fs: seq<TimedFrame>): seq<Frame> {
    seq(|fs|, i requires 0 <= i < |fs| => fs[i].frame)
  }

  function PiecesOf(b: Block): seq<Bytes> {
    Pieces(FramesIn(b))
  }

  /** The message a block carries, however it was cut. */
  function MessageOf(b: Block): Message
    requires b != []
  {
    Message(if b[0].frame.opcode == OPCODE_TEXT then Text else Binary, Join(PiecesOf(b)))
  }

  function MessagesOf(bs: seq<Block>): seq<Message>
    requires forall i :: 0 <= i < |bs| ==> bs[i] != []
  {
    if bs == [] then []
    else (if Finished(bs[0]) then [MessageOf(bs[0])] else []) + MessagesOf(bs[1..])
  }

  /** What is held after unfinished frames `b`. */
  function Holding(b: Block): Slot {
    if b == [] then None
    else Some(Partial(b[0].frame.opcode, PiecesOf(b), b[0].at, |Join(PiecesOf(b))|))
  }

  function HoldingUnlessFinished(b: Block): Slot
    requires b != []
  {
    if Finished(b) then None else Holding(b)
  }

  function HeldAfter(bs: seq<Block>): Slot
    requires forall i :: 0 <= i < |bs| ==> bs[i] != []
  {
    if bs == [] then None else HoldingUnlessFinished(bs[|bs| - 1])
  }

  // ---------------------------------------------------------------- control frames step aside

  lemma {:induction false} ControlFramesStepAside(slot: Slot, timeout: Time, fs: seq<TimedFrame>)
    ensures NoError(slot, timeout, fs) <==> NoError(slot, timeout, DataOf(fs))
    ensures Delivered(slot, timeout, fs) == Delivered(slot, timeout, DataOf(fs))
    ensures Run(slot, timeout, fs) == Run(slot, timeout, DataOf(fs))
    ensures forall i :: 0 <= i < |fs| && IsControl(fs[i].frame.opcode)
              ==> Answers(slot, timeout, fs)[i] == Reply(WholeMessage(fs[i].frame))
    decreases |fs|
  {
    if fs != [] {
      var f := fs[0];
      var (slot', answer) := IngestSlot(slot, f.frame, timeout, f.at);
      ControlFramesStepAside(slot', timeout, fs[1..]);
      NoErrorCons(slot, timeout, fs);
      if !IsControl(f.frame.opcode) {
        var ds := DataOf(fs);
        assert ds[0] == f && ds[1..] == DataOf(fs[1..]);
        NoErrorCons(slot, timeout, ds);
      } else {
        assert DataOf(fs) == DataOf(fs[1..]);
      }
      forall i | 0 <= i < |fs| && IsControl(fs[i].frame.opcode)
        ensures Answers(slot, timeout, fs)[i] == Reply(WholeMessage(fs[i].frame))
      {
        if i > 0 {
          assert fs[1..][i - 1] == fs[i];
          assert Answers(slot, timeout, fs)[i] == Answers(slot', timeout, fs[1..])[i - 1];
        }
      }
    }
  }

  lemma NoErrorCons(slot: Slot, timeout: Time, fs: seq<TimedFrame>)
    requires fs != []
    ensures
      var (slot', answer) := IngestSlot(slot, fs[0].frame, timeout, fs[0].at);
      NoError(slot, timeout, fs) <==> answer.Ok? && NoError(slot', timeout, fs[1..])
  {
    var (slot', answer) := IngestSlot(slot, fs[0].frame, timeout, fs[0].at);
    var all, rest := Answers(slot, timeout, fs), Answers(slot', timeout, fs[1..]);
    assert all == [answer] + rest;
    if NoError(slot, timeout, fs) {
      assert all[0].Ok?;
      forall i | 0 <= i < |rest|
        ensures rest[i].Ok?
      {
        assert all[i + 1] == rest[i];
      }
    }
  }

  // ---------------------------------------------------------------- the grammar is accepted

  lemma PiecesSnoc(b: Block, f: TimedFrame)
    ensures PiecesOf(b + [f]) == PiecesOf(b) + [f.frame.payload]
    ensures Join(PiecesOf(b + [f])) == Join(PiecesOf(b)) + f.frame.payload
  {
    assert PiecesOf(b + [f]) == PiecesOf(b) + [f.frame.payload];
    JoinSnoc(PiecesOf(b), f.frame.payload);
  }

  /** A continuation frame on top of an unfinished block. */
  lemma ContinuedBlock(timeout: Time, pre: Block, f: TimedFrame)
    requires pre != [] && !Finished(pre) && IsBlock(pre + [f], timeout)
    ensures IngestSlot(Holding(pre), f.frame, timeout, f.at)
         == if f.frame.fin then (None, Ok(Some(MessageOf(pre + [f])))) else (Holding(pre + [f]), Ok(None))
  {
    assert (pre + [f])[|pre|] == f;
    PiecesSnoc(pre, f);
  }

  /** The first of what is left of a block extends it, and is all that is left when it is final. */
  lemma NextOfBlock(timeout: Time, pre: Block, rest: Block)
    requires rest != [] && IsBlock(pre + rest, timeout)
    ensures pre + rest == (pre + [rest[0]]) + rest[1..] && IsBlock(pre + [rest[0]], timeout)
    ensures rest[0].frame.fin ==> rest == [rest[0]]
  {
    var b, n := pre + rest, |pre|;
    assert pre + [rest[0]] == b[..n + 1];
    assert b[n] == rest[0];
  }

  /** The rest of a block, then whatever follows it. */
  lemma {:induction false} RestOfBlockIsAccepted(timeout: Time, pre: Block, rest: Block, more: seq<TimedFrame>)
    requires pre != [] && !Finished(pre) && IsBlock(pre + rest, timeout)
    ensures
      var b := pre + rest;
      var end := HoldingUnlessFinished(b);
      && (NoError(Holding(pre), timeout, rest + more) <==> NoError(end, timeout, more))
      && Delivered(Holding(pre), timeout, rest + more)
         == (if Finished(b) then [MessageOf(b)] else []) + Delivered(end, timeout, more)
      && Run(Holding(pre), timeout, rest + more) == Run(end, timeout, more)
    decreases |rest|
  {
    if rest == [] {
      assert pre + rest == pre && rest + more == more;
    } else {
      var f := rest[0];
      var fs := rest + more;
      assert fs[0] == f && fs[1..] == rest[1..] + more;
      NextOfBlock(timeout, pre, rest);
      NoErrorCons(Holding(pre), timeout, fs);
      ContinuedBlock(timeout, pre, f);
      if f.frame.fin {
        assert rest[1..] + more == more;
      } else {
        RestOfBlockIsAccepted(timeout, pre + [f], rest[1..], more);
      }
    }
  }

  lemma BlockIsAccepted(slot: Slot, timeout: Time, b: Block, more: seq<TimedFrame>)
    requires IsBlock(b, timeout) && Live(slot, timeout, b[0].at) == None
    ensures
      var end := HoldingUnlessFinished(b);
      && (NoError(slot, timeout, b + more) <==> NoError(end, timeout, more))
      && Delivered(slot, timeout, b + more)
         == (if Finished(b) then [MessageOf(b)] else []) + Delivered(end, timeout, more)
      && Run(slot, timeout, b + more) == Run(end, timeout, more)
  {
    var f := b[0];
    var fs := b + more;
    assert fs[0] == f && fs[1..] == b[1..] + more;
    NoErrorCons(slot, timeout, fs);
    PiecesSnoc([], f);
    assert [] + [f] == [f];
    assert Join([f.frame.payload]) == f.frame.payload;
    if f.frame.fin {
      assert b == [f];
      assert b[1..] + more == more;
      assert PiecesOf(b) == [f.frame.payload];
    } else {
      assert PiecesOf([f]) == [f.frame.payload];
      assert [f] + b[1..] == b;
      RestOfBlockIsAccepted(timeout, [f], b[1..], more);
    }
  }

  lemma {:induction false} ParseIsAccepted(slot: Slot, timeout: Time, bs: seq<Block>, fs: seq<TimedFrame>)
    requires IsParse(bs, fs, timeout)
    requires bs == [] ==> slot == None
    requires bs != [] ==> Live(slot, timeout, bs[0][0].at) == None
    ensures NoError(slot, timeout, fs)
    ensures Delivered(slot, timeout, fs) == MessagesOf(bs)
    ensures Run(slot, timeout, fs) == HeldAfter(bs)
    decreases |bs|
  {
    if bs != [] {
      var b, rest := bs[0], bs[1..];
      BlockIsAccepted(slot, timeout, b, Concat(rest));
      var end := HoldingUnlessFinished(b);
      if rest == [] {
        assert b + Concat(rest) == b;
        assert NoError(end, timeout, []);
      } else {
        assert forall i :: 0 <= i < |rest| ==> rest[i] == bs[i + 1];
        ParseIsAccepted(end, timeout, rest, Concat(rest));
      }
    }
  }

  // ---------------------------------------------------------------- nothing else is accepted

  /** An accepted data frame continues the block in progress or starts a new one. */
  lemma AcceptedFrameFits(timeout: Time, pre: Block, f: TimedFrame)
    requires !IsControl(f.frame.opcode)
    requires pre != [] ==> IsBlock(pre, timeout) && !Finished(pre)
    requires IngestSlot(Holding(pre), f.frame, timeout, f.at).1.Ok?
    ensures
      var b := if pre != [] && f.at <= pre[0].at + timeout then pre + [f] else [f];
      IsBlock(b, timeout) && IngestSlot(Holding(pre), f.frame, timeout, f.at).0 == HoldingUnlessFinished(b)
  {
    PiecesSnoc(pre, f);
    assert PiecesOf([f]) == [f.frame.payload];
    assert Join([f.frame.payload]) == f.frame.payload + Join([]);
  }

  /** Splits an accepted run into blocks; `pre` is the unfinished block it starts in. */
  lemma {:induction false} AcceptedRunParses(timeout: Time, pre: Block, fs: seq<TimedFrame>) returns (bs: seq<Block>)
    requires forall i :: 0 <= i < |fs| ==> !IsControl(fs[i].frame.opcode)
    requires pre != [] ==> IsBlock(pre, timeout) && !Finished(pre)
    requires NoError(Holding(pre), timeout, fs)
    ensures IsParse(bs, pre + fs, timeout)
    ensures pre != [] ==> bs != [] && bs[0][0] == pre[0]
    ensures pre == [] && fs != [] ==> bs != [] && bs[0][0] == fs[0]
    decreases |fs|, 0
  {
    if fs == [] {
      bs := if pre == [] then [] else [pre];
      assert pre + fs == pre;
      assert pre != [] ==> Concat([pre]) == pre + Concat([]) == pre;
    } else {
      var f := fs[0];
      NoErrorCons(Holding(pre), timeout, fs);
      AcceptedFrameFits(timeout, pre, f);
      if pre != [] && f.at <= pre[0].at + timeout {
        assert pre + fs == (pre + [f]) + fs[1..];
        bs := FinishBlock(timeout, pre + [f], fs[1..]);
      } else {
        assert fs == [f] + fs[1..];
        bs := FinishBlock(timeout, [f], fs[1..]);
        if pre != [] {
          ParseCons(pre, bs, fs, timeout);
          bs := [pre] + bs;
        } else {
          assert pre + fs == fs;
        }
      }
    }
  }

  lemma {:induction false} FinishBlock(timeout: Time, b: Block, fs: seq<TimedFrame>) returns (bs: seq<Block>)
    requires forall i :: 0 <= i < |fs| ==> !IsControl(fs[i].frame.opcode)
    requires IsBlock(b, timeout)
    requires NoError(HoldingUnlessFinished(b), timeout, fs)
    ensures IsParse(bs, b + fs, timeout)
    ensures bs != [] && bs[0][0] == b[0]
    decreases |fs|, 1
  {
    if Finished(b) {
      assert Holding([]) == None;
      bs := AcceptedRunParses(timeout, [], fs);
      assert [] + fs == fs;
      ParseCons(b, bs, fs, timeout);
      bs := [b] + bs;
    } else {
      bs := AcceptedRunParses(timeout, b, fs);
    }
  }

  lemma ParseCons(b: Block, bs: seq<Block>, fs: seq<TimedFrame>, timeout: Time)
    requires IsBlock(b, timeout) && IsParse(bs, fs, timeout)
    requires bs != [] && !Finished(b) ==> bs[0][0].at > b[0].at + timeout
    ensures IsParse([b] + bs, b + fs, timeout)
  {
    var all := [b] + bs;
    assert all[1..] == bs;
    forall i | 0 <= i < |all| - 1
      ensures Finished(all[i]) || all[i + 1][0].at > all[i][0].at + timeout
    {
      if i > 0 {
        assert all[i] == bs[i - 1] && all[i + 1] == bs[i];
      }
    }
  }

  // ---------------------------------------------------------------- main results

  lemma DataOfIsData(fs: seq<TimedFrame>)
    ensures forall i :: 0 <= i < |DataOf(fs)| ==> !IsControl(DataOf(fs)[i].frame.opcode)
  {
  }

  lemma ParsedRunIsAccepted(timeout: Time, bs: seq<Block>, fs: seq<TimedFrame>)
    requires IsParse(bs, DataOf(fs), timeout)
    ensures NoError(None, timeout, fs)
    ensures Delivered(None, timeout, fs) == MessagesOf(bs) && Run(None, timeout, fs) == HeldAfter(bs)
  {
    ControlFramesStepAside(None, timeout, fs);
    ParseIsAccepted(None, timeout, bs, DataOf(fs));
  }

  /** No frame of a run is refused if and only if its data frames parse; and then the parse says
      which messages come out and what is still held. */
  lemma AcceptanceIsTheGrammar(timeout: Time, fs: seq<TimedFrame>)
    ensures NoError(None, timeout, fs) <==> exists bs :: IsParse(bs, DataOf(fs), timeout)
    ensures forall bs :: IsParse(bs, DataOf(fs), timeout)
              ==> Delivered(None, timeout, fs) == MessagesOf(bs) && Run(None, timeout, fs) == HeldAfter(bs)
  {
    var ds := DataOf(fs);
    ControlFramesStepAside(None, timeout, fs);
    if NoError(None, timeout, fs) {
      DataOfIsData(fs);
      assert Holding([]) == None;
      var bs := AcceptedRunParses(timeout, [], ds);
      assert [] + ds == ds;
    }
    forall bs | IsParse(bs, ds, timeout)
      ensures NoError(None, timeout, fs)
      ensures Delivered(None, timeout, fs) == MessagesOf(bs) && Run(None, timeout, fs) == HeldAfter(bs)
    {
      ParsedRunIsAccepted(timeout, bs, fs);
    }
  }

  /** The grammar of section 5.4 of RFC 6455 as it stands: whole groups, the last one perhaps unfinished.
      The clock does not come into it. */
  ghost predicate IsPlainParse(bs: seq<Block>, fs: seq<TimedFrame>) {
    && Concat(bs) == fs
    && (forall i :: 0 <= i < |bs| ==> IsPlainBlock(bs[i]))
    && (forall i :: 0 <= i < |bs| - 1 ==> Finished(bs[i]))
  }

  /** No data frame of the run finds a partial message overdue. */
  predicate NeverOverdue(slot: Slot, timeout: Time, fs: seq<TimedFrame>)
    decreases |fs|
  {
    fs == [] || (&& (IsControl(fs[0].frame.opcode) || Live(slot, timeout, fs[0].at) == slot)
                 && NeverOverdue(IngestSlot(slot, fs[0].frame, timeout, fs[0].at).0, timeout, fs[1..]))
  }

  ghost predicate NoneAfter(fs: seq<TimedFrame>, end: Time) {
    forall f :: f in fs ==> f.at <= end
  }

  /** When nothing is overdue, a timeout that has not even passed by the end of the run makes no difference. */
  lemma {:induction false} TimeoutDoesNotMatter(slot: Slot, timeout: Time, end: Time, fs: seq<TimedFrame>)
    requires NeverOverdue(slot, timeout, fs) && NoneAfter(fs, end)
    ensures Answers(slot, timeout, fs) == Answers(slot, end, fs)
    ensures Delivered(slot, timeout, fs) == Delivered(slot, end, fs)
    ensures Run(slot, timeout, fs) == Run(slot, end, fs)
    decreases |fs|
  {
    if fs != [] {
      var f := fs[0];
      assert f in fs && Live(slot, end, f.at) == slot;
      TimeoutDoesNotMatter(IngestSlot(slot, f.frame, timeout, f.at).0, timeout, end, fs[1..]);
    }
  }

  lemma {:induction false} InConcat(bs: seq<Block>, i: nat, k: nat)
    requires i < |bs| && k < |bs[i]|
    ensures bs[i][k] in Concat(bs)
    decreases |bs|
  {
    if i > 0 {
      InConcat(bs[1..], i - 1, k);
    } else {
      assert Concat(bs)[k] == bs[i][k];
    }
  }

  lemma PlainParseIsParse(bs: seq<Block>, fs: seq<TimedFrame>, end: Time)
    requires NoneAfter(fs, end)
    ensures IsPlainParse(bs, fs) <==> IsParse(bs, fs, end)
  {
    if Concat(bs) == fs {
      forall i, k | 0 <= i < |bs| && 0 <= k < |bs[i]|
        ensures bs[i][k].at <= end
      {
        InConcat(bs, i, k);
      }
      if IsParse(bs, fs, end) {
        forall i | 0 <= i < |bs| - 1
          ensures Finished(bs[i])
        {
          assert IsBlock(bs[i + 1], end) && bs[i + 1][0].at <= end;
        }
      }
      if IsPlainParse(bs, fs) {
        forall i | 0 <= i < |bs|
          ensures IsBlock(bs[i], end)
        {
          assert IsPlainBlock(bs[i]);
        }
      }
    }
  }

  lemma DataOfTimes(fs: seq<TimedFrame>)
    ensures forall f :: f in DataOf(fs) ==> f in fs
  {
  }

  lemma {:induction false} LastReading(fs: seq<TimedFrame>) returns (end: Time)
    ensures NoneAfter(fs, end)
  {
    if fs == [] {
      end := 0;
    } else {
      end := LastReading(fs[1..]);
      end := if fs[0].at > end then fs[0].at else end;
    }
  }

  /** In a run where no partial message is ever found overdue, acceptance is the plain grammar. */
  lemma PromptAcceptanceIsThePlainGrammar(timeout: Time, fs: seq<TimedFrame>)
    requires NeverOverdue(None, timeout, fs)
    ensures NoError(None, timeout, fs) <==> exists bs :: IsPlainParse(bs, DataOf(fs))
    ensures forall bs :: IsPlainParse(bs, DataOf(fs))
              ==> Delivered(None, timeout, fs) == MessagesOf(bs) && Run(None, timeout, fs) == HeldAfter(bs)
  {
    var ds := DataOf(fs);
    var end := LastReading(fs);
    DataOfTimes(fs);
    TimeoutDoesNotMatter(None, timeout, end, fs);
    AcceptanceIsTheGrammar(end, fs);
    forall bs
      ensures IsPlainParse(bs, ds) <==> IsParse(bs, ds, end)
    {
      PlainParseIsParse(bs, ds, end);
    }
  }
}
