/**
 Collecting frames into messages (`PartialMessage` and `Reassembler` of src/fragmentation.rs).

 The specification looks at one connection at a time: its slot holds the partial message, if any.
 The class below works on the shared table and is proved to follow the slots.
 */
module Reassembly {
  import opened Frames
  import opened Wrappers

  type ConnectionId = nat

  /** Nanoseconds on the monotone clock. */
  type Time = nat

  datatype Error =
    | ContinuationWithoutStart
    | StartBeforeCompleted
    | UnknownOpcode(opcode: Byte)

  type Answer = Result<Option<Message>, Error>

  datatype Partial = Partial(opcode: Byte, fragments: seq<Bytes>, receivedAt: Time, totalSize: nat) {
    predicate Expired(timeout: Time, now: Time) {
      now > receivedAt + timeout
    }

    function Assembled(): Message {
      Message(if opcode == OPCODE_TEXT then Text else Binary, Join(fragments))
    }

    /** The cached size is the size of the fragments, and only a starting opcode is kept. */
    ghost predicate Consistent() {
      totalSize == |Join(fragments)| && IsStart(opcode)
    }
  }

  type Slot = Option<Partial>

  /** The slot once an expired partial has been thrown away. */
  function Live(slot: Slot, timeout: Time, now: Time): Slot {
    if slot.Some? && slot.value.Expired(timeout, now) then None else slot
  }

  function Extend(p: Partial, fragment: Bytes): Partial {
    Partial(p.opcode, p.fragments + [fragment], p.receivedAt, p.totalSize + |fragment|)
  }

  function Begin(opcode: Byte, fragment: Bytes, now: Time): Partial {
    Partial(opcode, [fragment], now, |fragment|)
  }

  /** One frame as a whole message; the caller has looked at the opcode. */
  function WholeMessage(f: Frame): Result<Message, Error> {
    if f.opcode == OPCODE_TEXT then Ok(Message(Text, f.payload))
    else if f.opcode == OPCODE_BINARY then Ok(Message(Binary, f.payload))
    else if f.opcode == OPCODE_CLOSE then Ok(Message(Close, f.payload))
    else if f.opcode == OPCODE_PING then Ok(Message(Ping, f.payload))
    else if f.opcode == OPCODE_PONG then Ok(Message(Pong, f.payload))
    else Err(UnknownOpcode(f.opcode))
  }

  function Reply(m: Result<Message, Error>): Answer {
    match m
    case Ok(message) => Ok(Some(message))
    case Err(error) => Err(error)
  }

  /** A data frame against a slot that holds nothing expired. */
  function DataStep(slot: Slot, f: Frame, now: Time): (Slot, Answer) {
    if f.opcode == OPCODE_CONTINUATION then
      match slot
      case None => (slot, Err(ContinuationWithoutStart))
      case Some(p) =>
        if f.fin then (None, Ok(Some(Extend(p, f.payload).Assembled())))
        else (Some(Extend(p, f.payload)), Ok(None))
    else if IsStart(f.opcode) then
      if slot.Some? then (slot, Err(StartBeforeCompleted))
      else if f.fin then (slot, Reply(WholeMessage(f)))
      else (Some(Begin(f.opcode, f.payload, now)), Ok(None))
    else (slot, Err(UnknownOpcode(f.opcode)))
  }

  function IngestSlot(slot: Slot, f: Frame, timeout: Time, now: Time): (Slot, Answer) {
    if IsControl(f.opcode) then (slot, Reply(WholeMessage(f)))
    else DataStep(Live(slot, timeout, now), f, now)
  }

  type Store = map<ConnectionId, Partial>

  function Get(s: Store, c: ConnectionId): Slot {
    if c in s then Some(s[c]) else None
  }

  function Put(s: Store, c: ConnectionId, slot: Slot): Store {
    match slot
    case Some(p) => s[c := p]
    case None => s - {c}
  }

  lemma SameSlots(s: Store, t: Store)
    requires forall c :: Get(s, c) == Get(t, c)
    ensures s == t
  {
    assert forall c :: (c in s <==> Get(s, c).Some?) && (c in t <==> Get(t, c).Some?);
  }

  lemma PutPut(s: Store, c: ConnectionId, a: Slot, b: Slot)
    ensures Get(Put(s, c, a), c) == a
    ensures Put(Put(s, c, a), c, b) == Put(s, c, b)
    ensures Put(s, c, Get(s, c)) == s
  {
  }

  /** Only connection `c` is touched. */
  function Ingest(s: Store, c: ConnectionId, f: Frame, timeout: Time, now: Time): (Store, Answer) {
    var (slot, answer) := IngestSlot(Get(s, c), f, timeout, now);
    (Put(s, c, slot), answer)
  }

  function CleanupAll(s: Store, timeout: Time, now: Time): Store {
    map c | c in s && !s[c].Expired(timeout, now) :: s[c]
  }

  ghost predicate Consistent(s: Store) {
    forall c :: c in s ==> s[c].Consistent()
  }

  /** The bytes held, summed over the cached sizes. */
  ghost function Held(s: Store): nat {
    if s == map[] then 0
    else
      var c :| c in s;
      s[c].totalSize + Held(s - {c})
  }

  lemma {:induction false} HeldRemove(s: Store, c: ConnectionId)
    requires c in s
    ensures Held(s) == s[c].totalSize + Held(s - {c})
    decreases s
  {
    var d :| d in s && Held(s) == s[d].totalSize + Held(s - {d});
    if c != d {
      assert (s - {d}).Keys < s.Keys && (s - {c}).Keys < s.Keys;
      HeldRemove(s - {d}, c);
      HeldRemove(s - {c}, d);
      assert s - {c} - {d} == s - {d} - {c};
    }
  }

  ghost function Restrict(s: Store, keys: set<ConnectionId>): Store {
    map c | c in s && c in keys :: s[c]
  }

  /** A message being collected, updated in place. */
  class PartialMessage {
    const opcode: Byte
    var fragments: seq<Bytes>
    const receivedAt: Time
    var totalSize: nat

    ghost function View(): Partial
      reads this
    {
      Partial(opcode, fragments, receivedAt, totalSize)
    }

    constructor (opcode: Byte, firstFragment: Bytes, now: Time)
      ensures View() == Begin(opcode, firstFragment, now)
    {
      this.opcode := opcode;
      fragments := [firstFragment];
      receivedAt := now;
      totalSize := |firstFragment|;
    }

    method AddFragment(fragment: Bytes)
      modifies this
      ensures View() == Extend(old(View()), fragment)
    {
      totalSize := totalSize + |fragment|;
      fragments := fragments + [fragment];
    }

    method IsExpired(timeout: Time, now: Time) returns (expired: bool)
      ensures expired == View().Expired(timeout, now)
    {
      expired := now > receivedAt + timeout;
    }

    method Assemble() returns (message: Message)
      ensures message == View().Assembled()
    {
      var msgType := if opcode == OPCODE_TEXT then Text else Binary;
      var payload: Bytes := [];
      for i := 0 to |fragments|
        invariant payload == Join(fragments[..i])
      {
        assert fragments[..i + 1] == fragments[..i] + [fragments[i]];
        JoinSnoc(fragments[..i], fragments[i]);
        payload := payload + fragments[i];
      }
      assert fragments[..|fragments|] == fragments;
      message := Message(msgType, payload);
    }
  }

  class Reassembler {
    var incomplete: map<ConnectionId, PartialMessage>
    const timeout: Time

    /** No two connections share a partial message. */
    ghost predicate Valid()
      reads this
    {
      forall c, d :: c in incomplete && d in incomplete && c != d ==> incomplete[c] != incomplete[d]
    }

    ghost function Contents(): Store
      reads this, incomplete.Values
    {
      map c | c in incomplete :: incomplete[c].View()
    }

    constructor (timeout: Time)
      ensures Valid() && Contents() == map[] && this.timeout == timeout
    {
      this.timeout := timeout;
      incomplete := map[];
    }

    method CleanupExpired(c: ConnectionId, now: Time)
      requires Valid()
      modifies this
      ensures Valid() && incomplete.Values <= old(incomplete.Values)
      ensures Contents() == Put(old(Contents()), c, Live(Get(old(Contents()), c), timeout, now))
    {
      if c in incomplete {
        var expired := incomplete[c].IsExpired(timeout, now);
        if expired {
          incomplete := incomplete - {c};
        }
      }
    }

    method IngestFrame(f: Frame, c: ConnectionId, now: Time) returns (answer: Answer)
      requires Valid()
      modifies this, incomplete.Values
      ensures Valid() && fresh(incomplete.Values - old(incomplete.Values))
      ensures Contents() == Ingest(old(Contents()), c, f, timeout, now).0
      ensures answer == Ingest(old(Contents()), c, f, timeout, now).1
    {
      if IsControl(f.opcode) {
        assert Put(Contents(), c, Get(Contents(), c)) == Contents();
        return Reply(WholeMessage(f));
      }
      ghost var s0 := Contents();
      CleanupExpired(c, now);
      ghost var s := Contents();
      PutPut(s0, c, Live(Get(s0, c), timeout, now), DataStep(Get(s, c), f, now).0);
      if f.opcode == OPCODE_CONTINUATION {
        answer := Continue(f, c, now);
      } else if f.opcode == OPCODE_TEXT || f.opcode == OPCODE_BINARY {
        answer := Start(f, c, now);
      } else {
        answer := Err(UnknownOpcode(f.opcode));
      }
    }

    /** The continuation branch of `IngestFrame`. */
    method Continue(f: Frame, c: ConnectionId, ghost now: Time) returns (answer: Answer)
      requires Valid() && f.opcode == OPCODE_CONTINUATION
      modifies this, incomplete.Values
      ensures Valid() && incomplete.Values <= old(incomplete.Values)
      ensures Contents() == Put(old(Contents()), c, DataStep(Get(old(Contents()), c), f, now).0)
      ensures answer == DataStep(Get(old(Contents()), c), f, now).1
    {
      if c !in incomplete {
        return Err(ContinuationWithoutStart);
      }
      ghost var s := Contents();
      var partial := incomplete[c];
      partial.AddFragment(f.payload);
      assert Contents() == s[c := Extend(s[c], f.payload)];
      if f.fin {
        incomplete := incomplete - {c};
        assert Contents() == s - {c};
        var message := partial.Assemble();
        answer := Ok(Some(message));
      } else {
        answer := Ok(None);
      }
    }

    /** The text and binary branch of `IngestFrame`. */
    method Start(f: Frame, c: ConnectionId, now: Time) returns (answer: Answer)
      requires Valid() && IsStart(f.opcode)
      modifies this
      ensures Valid() && fresh(incomplete.Values - old(incomplete.Values))
      ensures Contents() == Put(old(Contents()), c, DataStep(Get(old(Contents()), c), f, now).0)
      ensures answer == DataStep(Get(old(Contents()), c), f, now).1
    {
      if c in incomplete {
        assert Put(Contents(), c, Get(Contents(), c)) == Contents();
        return Err(StartBeforeCompleted);
      }
      if f.fin {
        answer := Reply(WholeMessage(f));
      } else {
        ghost var s := Contents();
        var partial := new PartialMessage(f.opcode, f.payload, now);
        incomplete := incomplete[c := partial];
        assert Contents() == s[c := Begin(f.opcode, f.payload, now)];
        answer := Ok(None);
      }
    }

    method Abort(c: ConnectionId) returns (aborted: bool)
      requires Valid()
      modifies this
      ensures Valid() && incomplete.Values <= old(incomplete.Values)
      ensures aborted == (c in old(Contents()))
      ensures Contents() == Put(old(Contents()), c, None)
    {
      aborted := c in incomplete;
      incomplete := incomplete - {c};
    }

    method CleanupAllExpired(now: Time)
      requires Valid()
      modifies this
      ensures Valid() && incomplete.Values <= old(incomplete.Values)
      ensures Contents() == CleanupAll(old(Contents()), timeout, now)
    {
      incomplete := map c | c in incomplete && !(now > incomplete[c].receivedAt + timeout) :: incomplete[c];
    }

    method InProgressSize() returns (size: nat)
      requires Valid()
      ensures size == Held(Contents())
    {
      size := 0;
      var rest := incomplete.Keys;
      ghost var s := Contents();
      assert Restrict(s, rest) == s;
      while rest != {}
        invariant rest <= incomplete.Keys
        invariant size + Held(Restrict(s, rest)) == Held(s)
      {
        var c :| c in rest;
        HeldRemove(Restrict(s, rest), c);
        assert Restrict(s, rest) - {c} == Restrict(s, rest - {c});
        size := size + incomplete[c].totalSize;
        rest := rest - {c};
      }
      assert Restrict(s, {}) == map[];
    }
  }
}
