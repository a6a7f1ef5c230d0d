/** The ring between the callback that receives messages from Linux and the COMMS task that handles them
    (ipc_rpmsg_echo.c): one writer, one reader, no lock, every interleaving of their steps. */
module RxRing {
  import opened Wrappers
  import opened Framing

  const SLOTS := 4

  /** MAX_MSG_SIZE - 1: the last byte of a slot is kept for a terminator. */
  const MAX_STORED := 255

  type Message = seq<bv8>
  type Index = i: nat | i < SLOTS

  function Stored(m: Message): Message { if |m| > MAX_STORED then m[..MAX_STORED] else m }

  /** Where the callback is: idle, or its slot written and gRxHead not yet moved. */
  datatype Writer = Idle | Written(next: Index)

  /** Where the COMMS task is: idle, or handling the slot at gRxTail. */
  datatype Reader = Waiting | Handling(message: Message)

  datatype Ring = Ring(slots: seq<Message>, head: Index, tail: Index, writer: Writer, reader: Reader) {
    predicate Valid() {
      && |slots| == SLOTS
      && (writer.Written? ==> writer.next == After(head) && writer.next != tail)
      && (reader.Handling? ==> head != tail && slots[tail] == reader.message)
    }

    /** How many messages are published and not yet released. */
    function Count(): nat { if head >= tail then head - tail else head + SLOTS - tail }

    /** The published messages, oldest first. */
    function Queue(): (q: seq<Message>)
      requires Valid()
      ensures |q| == Count() && |q| < SLOTS
    {
      seq(Count(), i requires 0 <= i < Count() => slots[Wrap(tail + i)])
    }
  }

  function After(i: Index): Index { (i + 1) % SLOTS }

  function Wrap(i: nat): Index
    requires i < 2 * SLOTS
  {
    if i < SLOTS then i else i - SLOTS
  }

  const EMPTY_RING := Ring([[], [], [], []], 0, 0, Idle, Waiting)

  /** The atomic steps. Receive tests for room and writes the slot, or drops the message; Publish moves the
      head. Take finds a message waiting and starts to handle it; Release moves the tail. */
  datatype Step = Receive(m: Message) | Publish | Take | Release

  predicate Enabled(r: Ring, s: Step) {
    match s
    case Receive(_) => r.writer.Idle?
    case Publish => r.writer.Written?
    case Take => r.reader.Waiting? && r.head != r.tail
    case Release => r.reader.Handling?
  }

  predicate Dropped(r: Ring, s: Step) { s.Receive? && After(r.head) == r.tail }

  function Next(r: Ring, s: Step): Ring
    requires r.Valid() && Enabled(r, s)
  {
    match s
    case Receive(m) =>
      if After(r.head) == r.tail then r
      else r.(slots := r.slots[r.head := Stored(m)], writer := Written(After(r.head)))
    case Publish => r.(head := r.writer.next, writer := Idle)
    case Take => r.(reader := Handling(r.slots[r.tail]))
    case Release => r.(tail := After(r.tail), reader := Waiting)
  }

  // ---------------------------------------------------------------- the queue it refines

  /** A queue of at most three messages; held is the message written but not yet published. */
  datatype Fifo = Fifo(queue: seq<Message>, held: Option<Message>)

  function Abstract(r: Ring): Fifo
    requires r.Valid()
  {
    Fifo(r.Queue(), if r.writer.Written? then Some(r.slots[r.head]) else None)
  }

  function FifoNext(f: Fifo, s: Step): Fifo {
    match s
    case Receive(m) => if |f.queue| == SLOTS - 1 then f else f.(held := Some(Stored(m)))
    case Publish => if f.held.Some? then Fifo(f.queue + [f.held.value], None) else f
    case Take => f
    case Release => if f.queue == [] then f else f.(queue := f.queue[1..])
  }

  lemma FullWhenThree(r: Ring)
    requires r.Valid()
    ensures After(r.head) == r.tail <==> r.Count() == SLOTS - 1
    ensures r.head == r.tail <==> r.Count() == 0
  {}

  lemma AfterIs(i: Index)
    ensures After(i) == if i == SLOTS - 1 then 0 else i + 1
  {}

  lemma ReceiveRefines(r: Ring, m: Message)
    requires r.Valid() && r.writer.Idle?
    ensures var r' := Next(r, Receive(m)); r'.Valid() && Abstract(r') == FifoNext(Abstract(r), Receive(m))
  {
    var r' := Next(r, Receive(m));
    FullWhenThree(r);
    AfterIs(r.head);
    hide After;
    if After(r.head) != r.tail {
      forall i | 0 <= i < r.Count()
        ensures r'.Queue()[i] == r.Queue()[i]
      {
        assert Wrap(r.tail + i) != r.head;
      }
      assert r'.Queue() == r.Queue();
    }
  }

  lemma PublishRefines(r: Ring)
    requires r.Valid() && r.writer.Written?
    ensures var r' := Next(r, Publish); r'.Valid() && Abstract(r') == FifoNext(Abstract(r), Publish)
  {
    var r' := Next(r, Publish);
    FullWhenThree(r);
    AfterIs(r.head);
    hide After;
    assert r'.Count() == r.Count() + 1 && Wrap(r.tail + r.Count()) == r.head;
    assert r'.Queue() == r.Queue() + [r.slots[r.head]];
  }

  lemma ReleaseRefines(r: Ring)
    requires r.Valid() && r.reader.Handling?
    ensures var r' := Next(r, Release); r'.Valid() && Abstract(r') == FifoNext(Abstract(r), Release)
  {
    var r' := Next(r, Release);
    FullWhenThree(r);
    AfterIs(r.tail);
    AfterIs(r.head);
    hide After;
    assert r'.Count() == r.Count() - 1;
    forall i | 0 <= i < r'.Count()
      ensures r'.Queue()[i] == r.Queue()[1..][i]
    {
      assert Wrap(r'.tail + i) == Wrap(r.tail + (i + 1));
    }
    assert r'.Queue() == r.Queue()[1..];
  }

  lemma TakeRefines(r: Ring)
    requires r.Valid() && Enabled(r, Take)
    ensures var r' := Next(r, Take);
            && r'.Valid() && Abstract(r') == Abstract(r)
            && r.Queue() != [] && r'.reader.message == r.Queue()[0]
  {
    FullWhenThree(r);
    assert Wrap(r.tail + 0) == r.tail;
    assert Next(r, Take).Queue() == r.Queue();
  }

  /** A step keeps the ring valid and is the same step of the queue. A message is dropped exactly when three
      are queued, and what is handled is the oldest. */
  lemma StepRefines(r: Ring, s: Step)
    requires r.Valid() && Enabled(r, s)
    ensures Next(r, s).Valid() && Abstract(Next(r, s)) == FifoNext(Abstract(r), s)
    ensures Dropped(r, s) <==> s.Receive? && |r.Queue()| == SLOTS - 1
    ensures s.Take? ==> |r.Queue()| > 0 && Next(r, s).reader.message == r.Queue()[0]
  {
    FullWhenThree(r);
    match s
    case Receive(m) => ReceiveRefines(r, m);
    case Publish => PublishRefines(r);
    case Take => TakeRefines(r);
    case Release => ReleaseRefines(r);
  }

  /** From Take to Release the slot being handled does not change, whatever the callback does. */
  lemma HandledSlotIsStable(r: Ring, s: Step)
    requires r.Valid() && Enabled(r, s) && r.reader.Handling? && !s.Release?
    ensures var r' := Next(r, s);
            r'.Valid() && r'.reader == r.reader && r'.tail == r.tail && r'.slots[r'.tail] == r.slots[r.tail]
  {}

  // ---------------------------------------------------------------- every interleaving

  /** A run from the empty ring: each step taken where it is enabled. */
  function Run(steps: seq<Step>): Option<Ring>
    ensures Run(steps).Some? ==> Run(steps).value.Valid()
  {
    if steps == [] then Some(EMPTY_RING) else
      var n := |steps| - 1;
      match Run(steps[..n])
      case None => None
      case Some(r) =>
        if !Enabled(r, steps[n]) then None
        else
          StepRefines(r, steps[n]);
          Some(Next(r, steps[n]))
  }

  /** The messages that got into the ring, in order of arrival, as stored. */
  function Taken(steps: seq<Step>): seq<Message> {
    if steps == [] then [] else
      var n := |steps| - 1;
      match Run(steps[..n])
      case None => []
      case Some(r) =>
        if steps[n].Receive? && !Dropped(r, steps[n]) then Taken(steps[..n]) + [Stored(steps[n].m)] else Taken(steps[..n])
  }

  /** The messages that were handled and released, in order. */
  function Handled(steps: seq<Step>): seq<Message> {
    if steps == [] then [] else
      var n := |steps| - 1;
      match Run(steps[..n])
      case None => []
      case Some(r) =>
        if steps[n].Release? && r.reader.Handling? then Handled(steps[..n]) + [r.reader.message] else Handled(steps[..n])
  }

  function Held(f: Fifo): seq<Message> { if f.held.Some? then [f.held.value] else [] }

  /** Everything taken in and not yet released. */
  function InRing(r: Ring): seq<Message>
    requires r.Valid()
  {
    Abstract(r).queue + Held(Abstract(r))
  }

  lemma HandledIsOldest(r: Ring)
    requires r.Valid() && r.reader.Handling?
    ensures r.Queue() != [] && r.Queue()[0] == r.reader.message
  {
    FullWhenThree(r);
    assert Wrap(r.tail + 0) == r.tail;
  }

  /** Nothing is lost, repeated or reordered inside: what was taken in is what has been handled, followed by
      what is still in the ring. */
  lemma {:induction false} OrderIsKept(steps: seq<Step>)
    requires Run(steps).Some?
    ensures Taken(steps) == Handled(steps) + InRing(Run(steps).value)
  {
    hide Next, Ring.Queue, InRing;
    if steps == [] {
      EmptyRing();
    } else {
      var n := |steps| - 1;
      var s := steps[n];
      OrderIsKept(steps[..n]);
      var r := Run(steps[..n]).value;
      StepRefines(r, s);
      StepKeepsOrder(r, s, Taken(steps[..n]), Handled(steps[..n]));
    }
  }

  lemma EmptyRing()
    ensures EMPTY_RING.Valid() && InRing(EMPTY_RING) == []
  {
    var q := EMPTY_RING.Queue();
    assert EMPTY_RING.Count() == 0 && q == [];
    assert Abstract(EMPTY_RING) == Fifo([], None);
  }

  /** What a step of the queue takes in and gives out. */
  lemma FifoKeepsOrder(f: Fifo, s: Step, m: Message)
    requires s.Receive? ==> f.held.None?
    requires s.Publish? ==> f.held.Some?
    requires s.Release? ==> f.queue != [] && m == f.queue[0]
    ensures var f' := FifoNext(f, s);
            (f.queue + Held(f)) + (if s.Receive? && |f.queue| != SLOTS - 1 then [Stored(s.m)] else [])
            == (if s.Release? then [m] else []) + (f'.queue + Held(f'))
  {
    hide Stored;
  }

  lemma StepKeepsOrder(r: Ring, s: Step, taken: seq<Message>, handled: seq<Message>)
    requires r.Valid() && Enabled(r, s) && taken == handled + InRing(r)
    ensures Next(r, s).Valid()
    ensures (if s.Receive? && !Dropped(r, s) then taken + [Stored(s.m)] else taken)
         == (if s.Release? then handled + [r.reader.message] else handled) + InRing(Next(r, s))
  {
    StepRefines(r, s);
    QueueOf(r);
    var m: Message := [];
    match s {
      case Receive(x) => WriterWasIdle(r, x);
      case Publish => WriterHeld(r);
      case Take =>
      case Release =>
        HandledIsOldest(r);
        m := r.reader.message;
    }
    hide Next, Abstract, FifoNext, Held, Ring.Queue, Stored;
    FifoKeepsOrder(Abstract(r), s, m);
    var before, after := InRing(r), InRing(Next(r, s));
    if s.Release? {
      assert before + [] == before;
      assert handled + [m] + after == handled + ([m] + after);
    } else {
      assert [] + after == after;
      assert before + [] == before;
    }
  }

  lemma QueueOf(r: Ring)
    requires r.Valid()
    ensures Abstract(r).queue == r.Queue()
  {}

  lemma WriterWasIdle(r: Ring, m: Message)
    requires r.Valid() && Enabled(r, Receive(m))
    ensures Abstract(r).held.None?
  {}

  lemma WriterHeld(r: Ring)
    requires r.Valid() && Enabled(r, Publish)
    ensures Abstract(r).held.Some?
  {}

  // ---------------------------------------------------------------- truncation

  /** A frame of the protocol gets through the ring exactly when it fits a slot: cut short, it is refused by
      its length. */
  lemma FrameSurvivesIff(kind: bv8, seqNo: bv16, payload: seq<bv8>, plen: bv16)
    requires |payload| == Nat(plen) <= MAX_PAYLOAD_SIZE
    ensures var f := Encode(kind, seqNo, payload, plen);
            && (Decode(Stored(f)).Message? <==> |f| <= 255)
            && (|f| <= 255 ==> Stored(f) == f) && (|f| > 255 ==> Stored(f) == f[..255])
  {
    hide Decode, Encode, Nat;
    var f := Encode(kind, seqNo, payload, plen);
    RoundTrip(kind, seqNo, payload, plen);
    if |f| > MAX_STORED {
      CutFrame(f);
    }
  }

  lemma CutFrame(f: seq<bv8>)
    requires Decode(f).Message? && |f| > MAX_STORED
    ensures !Decode(f[..MAX_STORED]).Message?
  {
    hide Nat;
    assert LengthsAgree(f);
    assert ClaimedLength(f[..MAX_STORED]) == ClaimedLength(f);
  }

  // ---------------------------------------------------------------- in place

  /** gRxRing, gRxHead and gRxTail, with one method for each atomic step. */
  class RingBuffer {
    const slots: array<Message>
    var head: Index
    var tail: Index
    ghost var writer: Writer
    ghost var reader: Reader

    ghost function Contents(): Ring
      reads this, slots
    {
      Ring(slots[..], head, tail, writer, reader)
    }

    constructor ()
      ensures fresh(slots) && Contents() == EMPTY_RING
    {
      slots := new Message[4][[], [], [], []];
      head, tail, writer, reader := 0, 0, Idle, Waiting;
    }

    /** linuxMsgCallback up to the write of the slot; published tells the head to move. */
    method Receive(m: Message) returns (next: Option<Index>)
      requires Contents().Valid() && Enabled(Contents(), Step.Receive(m))
      modifies slots, `writer
      ensures Contents() == Next(old(Contents()), Step.Receive(m))
      ensures next.None? <==> Dropped(old(Contents()), Step.Receive(m))
      ensures next.Some? ==> Contents().writer == Written(next.value)
    {
      var n := (head + 1) % SLOTS;
      if n == tail {
        return None;
      }
      var data := m;
      if |data| > MAX_STORED {
        data := data[..MAX_STORED];
      }
      slots[head] := data;
      writer := Written(n);
      return Some(n);
    }

    /** The assignment to gRxHead. */
    method Publish(next: Index)
      requires Contents().Valid() && Contents().writer == Written(next)
      modifies `head, `writer
      ensures Contents() == Next(old(Contents()), Step.Publish)
    {
      head := next;
      writer := Idle;
    }

    /** The test of the COMMS loop and the slot it hands on. */
    method Take() returns (m: Option<Message>)
      requires Contents().Valid() && Contents().reader.Waiting?
      modifies `reader
      ensures m.Some? <==> Enabled(old(Contents()), Step.Take)
      ensures m.Some? ==> Contents() == Next(old(Contents()), Step.Take) && Contents().reader == Handling(m.value)
      ensures m.None? ==> Contents() == old(Contents())
    {
      if tail == head {
        return None;
      }
      reader := Handling(slots[tail]);
      return Some(slots[tail]);
    }

    /** The assignment to gRxTail. */
    method Release()
      requires Contents().Valid() && Contents().reader.Handling?
      modifies `tail, `reader
      ensures Contents() == Next(old(Contents()), Step.Release)
    {
      tail := (tail + 1) % SLOTS;
      reader := Waiting;
    }
  }
}
