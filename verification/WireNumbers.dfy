/**
 What goes over the wire and what comes off it, in the numbers of section 5.2 of RFC 6455 and field by
 field, without the names that `Frames` gives them.
 */
module WireNumbers {
  import opened Arithmetic
  import opened Frames
  import opened Fragmentation
  import opened Reassembly
  import opened Wrappers

  // ---------------------------------------------------------------- incoming frames

  /** A partial is held and not overdue. */
  predicate Held(slot: Slot, timeout: Time, now: Time) {
    slot.Some? && now <= slot.value.receivedAt + timeout
  }

  /** 8, 9 and 10 are closes, pings and pongs, whatever is held and whatever the FIN bit. */
  lemma ControlNumbers(slot: Slot, f: Frame, timeout: Time, now: Time)
    requires f.opcode == 8 || f.opcode == 9 || f.opcode == 10
    ensures
      var msgType := if f.opcode == 8 then Close else if f.opcode == 9 then Ping else Pong;
      IngestSlot(slot, f, timeout, now) == (slot, Ok(Some(Message(msgType, f.payload))))
  {
  }

  /** 1 and 2 are text and binary: refused while a message is held, whole with FIN, begun without. */
  lemma StartNumbers(slot: Slot, f: Frame, timeout: Time, now: Time)
    requires f.opcode == 1 || f.opcode == 2
    ensures
      IngestSlot(slot, f, timeout, now)
      == if Held(slot, timeout, now) then (slot, Err(StartBeforeCompleted))
         else if f.fin then (None, Ok(Some(Message(if f.opcode == 1 then Text else Binary, f.payload))))
         else (Some(Partial(f.opcode, [f.payload], now, |f.payload|)), Ok(None))
  {
  }

  /** 0 continues what is held, or is refused. */
  lemma ContinuationNumber(slot: Slot, f: Frame, timeout: Time, now: Time)
    requires f.opcode == 0
    ensures !Held(slot, timeout, now)
            ==> IngestSlot(slot, f, timeout, now) == (None, Err(ContinuationWithoutStart))
    ensures Held(slot, timeout, now) ==>
              var p := slot.value;
              IngestSlot(slot, f, timeout, now)
              == if f.fin then
                   (None, Ok(Some(Message(if p.opcode == 1 then Text else Binary, Join(p.fragments) + f.payload))))
                 else
                   (Some(Partial(p.opcode, p.fragments + [f.payload], p.receivedAt, p.totalSize + |f.payload|)),
                    Ok(None))
  {
    if Held(slot, timeout, now) {
      JoinSnoc(slot.value.fragments, f.payload);
    }
  }

  /** Every other number is refused as unknown; what is held and not overdue stays. */
  lemma UnknownNumbers(slot: Slot, f: Frame, timeout: Time, now: Time)
    requires f.opcode !in {0, 1, 2, 8, 9, 10}
    ensures IngestSlot(slot, f, timeout, now)
         == (if Held(slot, timeout, now) then slot else None, Err(UnknownOpcode(f.opcode)))
  {
  }

  // ---------------------------------------------------------------- outgoing frames

  /** The bytes from `start` on, as many as fit. */
  function Piece(p: Bytes, max: nat, start: nat): Bytes
    requires start <= |p|
  {
    p[start..Min(start + max, |p|)]
  }

  lemma PieceOfRest(p: Bytes, max: nat, start: nat)
    requires max <= start <= |p|
    ensures Piece(p, max, start) == Piece(p[max..], max, start - max)
  {
  }

  lemma {:induction false} TailAt(p: Bytes, max: nat, i: nat, start: nat)
    requires 0 < max && i < |Tail(p, max)| && start == i * max
    ensures start <= |p| && Tail(p, max)[i].payload == Piece(p, max, start)
    decreases |p|
  {
    if i > 0 {
      MulAdd(i - 1, 1, max);
      TailAt(p[max..], max, i - 1, start - max);
      PieceOfRest(p, max, start);
      assert Tail(p, max)[i] == Tail(p[max..], max)[i - 1];
    }
  }

  lemma FrameAt(m: Message, max: nat, i: nat, start: nat)
    requires 0 < max && i < |Split(m, max)| && start == i * max
    ensures start <= |m.payload| && Split(m, max)[i].payload == Piece(m.payload, max, start)
  {
    if i > 0 {
      var rest := m.payload[max..];
      assert Split(m, max)[i] == Tail(rest, max)[i - 1];
      MulAdd(i - 1, 1, max);
      TailAt(rest, max, i - 1, start - max);
      PieceOfRest(m.payload, max, start);
    }
  }

  /** Frame `i` carries the bytes from `i * max` on, as many as fit. */
  lemma BytesOfFrame(m: Message, max: nat, i: nat)
    requires 0 < max && i < |Split(m, max)|
    ensures i * max <= |m.payload|
    ensures Split(m, max)[i].payload == m.payload[i * max..Min(i * max + max, |m.payload|)]
  {
    FrameAt(m, max, i, i * max);
  }

  /** The bits of each frame: the reserved ones clear, FIN on the last alone, and the opcodes 1, 2, 9, 10 and 8
      for a message in one frame, 1 or 2 and then 0 for one in several. */
  lemma BitsOfFrame(m: Message, max: nat, i: nat)
    requires 0 < max && i < |Split(m, max)|
    ensures
      var f, n := Split(m, max)[i], |Split(m, max)|;
      && !f.rsv1 && !f.rsv2 && !f.rsv3
      && (f.fin <==> i == n - 1)
      && (i > 0 ==> f.opcode == 0)
      && (i == 0 && n == 1 ==>
            match m.msgType
            case Text => f.opcode == 1
            case Binary => f.opcode == 2
            case Ping => f.opcode == 9
            case Pong => f.opcode == 10
            case Close => f.opcode == 8
            case Continuation => f.opcode == 0)
      && (i == 0 && n > 1 ==> f.opcode == if m.msgType.Text? then 1 else 2)
  {
    SplitIsWellCut(m, max);
    var frames := Split(m, max);
    assert frames[i] == NewFrame(i == |frames| - 1, frames[i].opcode, frames[i].payload);
  }
}
