/** Cutting a message into frames (`Fragmenter` of src/fragmentation.rs). */
module Fragmentation {
  import opened Arithmetic
  import opened Frames

  function OpcodeOf(t: MessageType): Byte {
    match t
    case Text => OPCODE_TEXT
    case Binary => OPCODE_BINARY
    case Ping => OPCODE_PING
    case Pong => OPCODE_PONG
    case Close => OPCODE_CLOSE
    case Continuation => OPCODE_CONTINUATION
  }

  /** The opcode of the first of several frames: anything but text goes out as binary. */
  function StartOpcodeOf(t: MessageType): Byte {
    if t.Text? then OPCODE_TEXT else OPCODE_BINARY
  }

  /** The continuation frames that carry `p`, full ones first. */
  function Tail(p: Bytes, max: nat): (frames: seq<Frame>)
    requires max > 0
    decreases |p|
  {
    if |p| <= max then [NewFrame(true, OPCODE_CONTINUATION, p)]
    else [NewFrame(false, OPCODE_CONTINUATION, p[..max])] + Tail(p[max..], max)
  }

  /** The frames of a message, cut from the front. */
  function Split(m: Message, max: nat): seq<Frame>
    requires max > 0
  {
    if |m.payload| <= max then [NewFrame(true, OpcodeOf(m.msgType), m.payload)]
    else [NewFrame(false, StartOpcodeOf(m.msgType), m.payload[..max])] + Tail(m.payload[max..], max)
  }

  /** What a receiver relies on: nothing here says how the cut is computed. */
  ghost predicate WellCut(frames: seq<Frame>, m: Message, max: nat) {
    && frames != []
    && Join(Pieces(frames)) == m.payload
    && (forall i :: 0 <= i < |frames| ==> |frames[i].payload| <= max)
    && (forall i :: 0 <= i < |frames| - 1 ==> |frames[i].payload| == max)
    && (|frames| > 1 ==> frames[|frames| - 1].payload != [])
    && (forall i :: 0 <= i < |frames| ==> frames[i] == NewFrame(i == |frames| - 1, frames[i].opcode, frames[i].payload))
    && frames[0].opcode == (if |frames| == 1 then OpcodeOf(m.msgType) else StartOpcodeOf(m.msgType))
    && (forall i :: 0 < i < |frames| ==> frames[i].opcode == OPCODE_CONTINUATION)
  }

  /** `frames` continues a message with `p`, the last frame final and not empty. */
  ghost predicate WellCutTail(frames: seq<Frame>, p: Bytes, max: nat) {
    && frames != []
    && Join(Pieces(frames)) == p
    && (forall i :: 0 <= i < |frames| ==> |frames[i].payload| <= max)
    && (forall i :: 0 <= i < |frames| - 1 ==> |frames[i].payload| == max)
    && frames[|frames| - 1].payload != []
    && (forall i :: 0 <= i < |frames| ==>
          frames[i] == NewFrame(i == |frames| - 1, OPCODE_CONTINUATION, frames[i].payload))
  }

  lemma {:induction false} TailIsWellCut(p: Bytes, max: nat)
    requires 0 < max && p != []
    ensures WellCutTail(Tail(p, max), p, max)
    ensures |Tail(p, max)| == CeilDiv(|p|, max)
    decreases |p|
  {
    if |p| <= max {
      PiecesCons(Tail(p, max)[0], []);
    } else {
      TailIsWellCut(p[max..], max);
      PiecesCons(Tail(p, max)[0], Tail(p[max..], max));
      assert p == p[..max] + p[max..];
    }
  }

  lemma {:induction false} WellCutTailIsTail(frames: seq<Frame>, p: Bytes, max: nat)
    requires 0 < max && WellCutTail(frames, p, max)
    ensures frames == Tail(p, max)
    decreases |frames|
  {
    var rest := frames[1..];
    assert frames == [frames[0]] + rest;
    PiecesCons(frames[0], rest);
    if rest == [] {
      assert p == frames[0].payload;
    } else {
      NonEmptyJoin(rest);
      assert p[max..] == Join(Pieces(rest)) && p[..max] == frames[0].payload;
      WellCutTailIsTail(rest, p[max..], max);
    }
  }

  lemma NonEmptyJoin(frames: seq<Frame>)
    requires frames != [] && frames[|frames| - 1].payload != []
    ensures Join(Pieces(frames)) != []
  {
    var n := |frames| - 1;
    assert Pieces(frames) == Pieces(frames[..n]) + [frames[n].payload];
    JoinSnoc(Pieces(frames[..n]), frames[n].payload);
  }

  /** `Split` is the only way to satisfy `WellCut`. */
  lemma SplitIsTheWellCut(m: Message, max: nat, frames: seq<Frame>)
    requires max > 0
    ensures WellCut(frames, m, max) <==> frames == Split(m, max)
  {
    SplitIsWellCut(m, max);
    if WellCut(frames, m, max) {
      var rest := frames[1..];
      assert frames == [frames[0]] + rest;
      PiecesCons(frames[0], rest);
      if rest == [] {
        assert m.payload == frames[0].payload;
      } else {
        NonEmptyJoin(rest);
        assert m.payload[max..] == Join(Pieces(rest)) && m.payload[..max] == frames[0].payload;
        WellCutTailIsTail(rest, m.payload[max..], max);
      }
    }
  }

  lemma SplitIsWellCut(m: Message, max: nat)
    requires max > 0
    ensures WellCut(Split(m, max), m, max)
    ensures |Split(m, max)| == if |m.payload| <= max then 1 else CeilDiv(|m.payload|, max)
  {
    var frames := Split(m, max);
    if |m.payload| <= max {
      PiecesCons(frames[0], []);
    } else {
      var rest := m.payload[max..];
      TailIsWellCut(rest, max);
      PiecesCons(frames[0], Tail(rest, max));
      assert m.payload == m.payload[..max] + rest;
    }
  }

  /** The constructor insists on 125 bytes at least; any positive size does for what follows. */
  datatype Fragmenter = Fragmenter(maxFrameSize: nat) {

    function CalculateFrameCount(messageSize: nat): (n: nat)
      requires maxFrameSize > 0
    {
      if messageSize <= maxFrameSize then 1 else CeilDiv(messageSize, maxFrameSize)
    }

    method SplitMessage(message: Message) returns (frames: seq<Frame>)
      requires maxFrameSize > 0
      ensures frames == Split(message, maxFrameSize)
      ensures WellCut(frames, message, maxFrameSize)
      ensures |frames| == CalculateFrameCount(|message.payload|)
    {
      var payload := message.payload;
      if |payload| <= maxFrameSize {
        SplitIsWellCut(message, maxFrameSize);
        return [NewFrame(true, OpcodeOf(message.msgType), payload)];
      }
      frames := [];
      var chunkCount := CeilDiv(|payload|, maxFrameSize);
      var i, rest := 0, payload;
      while rest != []
        invariant i + CeilDiv(|rest|, maxFrameSize) == chunkCount
        invariant i == 0 ==> rest == payload
        invariant frames + Remaining(i == 0, rest, message.msgType, maxFrameSize) == Split(message, maxFrameSize)
        decreases |rest|
      {
        var size := if |rest| <= maxFrameSize then |rest| else maxFrameSize;
        var opcode :=
          if i != 0 then OPCODE_CONTINUATION
          else match message.msgType
            case Text => OPCODE_TEXT
            case Binary => OPCODE_BINARY
            case _ => OPCODE_BINARY;
        var frame := NewFrame(i == chunkCount - 1, opcode, rest[..size]);
        RemainingStep(i == 0, rest, message.msgType, maxFrameSize);
        Reassociate(frames, frame, Remaining(false, rest[size..], message.msgType, maxFrameSize));
        frames := frames + [frame];
        i, rest := i + 1, rest[size..];
      }
      assert frames + [] == frames;
      SplitIsWellCut(message, maxFrameSize);
    }
  }

  /** The frames still to be pushed when `rest` is what is left of the payload. */
  function Remaining(first: bool, rest: Bytes, t: MessageType, max: nat): seq<Frame>
    requires max > 0
  {
    if first then Split(Message(t, rest), max)
    else if rest == [] then []
    else Tail(rest, max)
  }

  lemma RemainingStep(first: bool, rest: Bytes, t: MessageType, max: nat)
    requires max > 0 && rest != []
    requires first ==> |rest| > max
    ensures
      var size := if |rest| <= max then |rest| else max;
      var opcode := if first then StartOpcodeOf(t) else OPCODE_CONTINUATION;
      && CeilDiv(|rest|, max) == 1 + CeilDiv(|rest| - size, max)
      && Remaining(first, rest, t, max)
         == [NewFrame(CeilDiv(|rest|, max) == 1, opcode, rest[..size])] + Remaining(false, rest[size..], t, max)
  {
    if |rest| <= max {
      assert rest[..|rest|] == rest;
    } else {
    }
  }

  lemma Reassociate<T>(a: seq<T>, x: T, b: seq<T>)
    ensures a + ([x] + b) == (a + [x]) + b
  {
  }
}
