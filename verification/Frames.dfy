/** Messages, frames and opcodes (src/message.rs and the constants of src/fragmentation.rs). */
module Frames {
  newtype Byte = n: int | 0 <= n < 256

  type Bytes = seq<Byte>

  // Opcodes of RFC 6455, section 5.2.
  const OPCODE_CONTINUATION: Byte := 0x0
  const OPCODE_TEXT: Byte := 0x1
  const OPCODE_BINARY: Byte := 0x2
  const OPCODE_CLOSE: Byte := 0x8
  const OPCODE_PING: Byte := 0x9
  const OPCODE_PONG: Byte := 0xA

  datatype MessageType = Text | Binary | Ping | Pong | Close | Continuation

  datatype Message = Message(msgType: MessageType, payload: Bytes)

  datatype Frame = Frame(fin: bool, rsv1: bool, rsv2: bool, rsv3: bool, opcode: Byte, payload: Bytes)

  /** A frame as the library builds it: the reserved bits are clear. */
  function NewFrame(fin: bool, opcode: Byte, payload: Bytes): Frame {
    Frame(fin, false, false, false, opcode, payload)
  }

  predicate IsControl(opcode: Byte) {
    opcode == OPCODE_CLOSE || opcode == OPCODE_PING || opcode == OPCODE_PONG
  }

  /** The opcodes that may start a message. */
  predicate IsStart(opcode: Byte) {
    opcode == OPCODE_TEXT || opcode == OPCODE_BINARY
  }

  /** The pieces, end to end. */
  function Join(pieces: seq<Bytes>): Bytes {
    if pieces == [] then [] else pieces[0] + Join(pieces[1..])
  }

  lemma JoinCons(x: Bytes, rest: seq<Bytes>)
    ensures Join([x] + rest) == x + Join(rest)
  {
    assert ([x] + rest)[1..] == rest;
  }

  lemma {:induction false} JoinAppend(a: seq<Bytes>, b: seq<Bytes>)
    ensures Join(a + b) == Join(a) + Join(b)
  {
    if a == [] {
      assert a + b == b;
    } else {
      var x, rest := a[0], a[1..];
      assert a == [x] + rest && a + b == [x] + (rest + b);
      JoinCons(x, rest);
      JoinCons(x, rest + b);
      JoinAppend(rest, b);
    }
  }

  lemma JoinSnoc(a: seq<Bytes>, x: Bytes)
    ensures Join(a + [x]) == Join(a) + x
  {
    JoinAppend(a, [x]);
    assert Join([x]) == x + Join([]);
  }

  /** The payloads of a run of frames, in order. */
  function Pieces(frames: seq<Frame>): seq<Bytes> {
    seq(|frames|, i requires 0 <= i < |frames| => frames[i].payload)
  }

  lemma PiecesCons(frame: Frame, rest: seq<Frame>)
    ensures Pieces([frame] + rest) == [frame.payload] + Pieces(rest)
    ensures Join(Pieces([frame] + rest)) == frame.payload + Join(Pieces(rest))
  {
    assert Pieces([frame] + rest) == [frame.payload] + Pieces(rest);
    assert ([frame.payload] + Pieces(rest))[1..] == Pieces(rest);
  }
}
