/** The M4F's own table of unacknowledged messages (ipc_rpmsg_echo.c): eight slots, numbers that HELLO starts
    again from 1 without clearing the slots. Times are milliseconds. */
module M4fPending {
  import opened Wrappers
  import opened Limits
  import opened SeqWindow

  const SLOTS := 8
  const MAX_PAYLOAD := 128

  /** pending_ack_t. session and nth tell which call of sendReliable filled the slot: the nth of its session;
      sends is how many copies have gone out. */
  datatype Slot = Slot(inUse: bool, number: Seq, retries: nat, sentAt: int, session: nat, nth: nat, sends: nat)

  /** sent counts the numbers given out in the present session. */
  datatype State = State(slots: seq<Slot>, mySeq: Seq, session: nat, sent: nat)

  function FreeSlot(s: seq<Slot>, i: nat := 0): (r: Option<nat>)
    requires i <= |s|
    ensures r.Some? ==> i <= r.value < |s| && !s[r.value].inUse
    ensures r.None? ==> forall k :: i <= k < |s| ==> s[k].inUse
    decreases |s| - i
  {
    if i == |s| then None else if !s[i].inUse then Some(i) else FreeSlot(s, i + 1)
  }

  /** The first slot that waits for an ACK of the number. */
  function Waiting(s: seq<Slot>, q: Seq, i: nat := 0): (r: Option<nat>)
    requires i <= |s|
    ensures r.Some? ==> i <= r.value < |s| && s[r.value].inUse && s[r.value].number == q
                        && forall k :: i <= k < r.value ==> !(s[k].inUse && s[k].number == q)
    ensures r.None? ==> forall k :: i <= k < |s| ==> !(s[k].inUse && s[k].number == q)
    decreases |s| - i
  {
    if i == |s| then None else if s[i].inUse && s[i].number == q then Some(i) else Waiting(s, q, i + 1)
  }

  /** sendReliable; known says whether Linux has been heard from, goes whether the transport took the message. */
  function Send(w: State, known: bool, now: int, payload: nat, goes: bool): (State, int) {
    if !known then (w, -1)
    else if payload > MAX_PAYLOAD then (w, -2)
    else
      match FreeSlot(w.slots)
      case None => (w, -1)
      case Some(i) =>
        var number := Next(w.mySeq);
        (w.(slots := w.slots[i := Slot(goes, number, 0, now, w.session, w.sent, 1)], mySeq := number, sent := w.sent + 1),
         if goes then 0 else -2)
  }

  function OnAck(w: State, q: Seq): State {
    match Waiting(w.slots, q)
    case None => w
    case Some(i) => w.(slots := w.slots[i := w.slots[i].(inUse := false)])
  }

  /** processEventRetries on one slot. */
  function Retried(s: Slot, now: int): Slot {
    if !s.inUse || now - s.sentAt < ACK_TIMEOUT then s
    else if s.retries >= MAX_RETRIES then s.(inUse := false)
    else s.(retries := s.retries + 1, sentAt := now, sends := s.sends + 1)
  }

  function Retry(w: State, now: int): State {
    w.(slots := seq(|w.slots|, i requires 0 <= i < |w.slots| => Retried(w.slots[i], now)))
  }

  /** MSG_HELLO: a new session, the slots left as they are. */
  function Hello(w: State): State { w.(mySeq := 0, session := w.session + 1, sent := 0) }

  datatype Event = DoSend(known: bool, now: int, payload: nat, goes: bool) | DoAck(q: Seq) | DoRetry(now: int) | DoHello

  function Step(w: State, e: Event): State {
    match e
    case DoSend(known, now, payload, goes) => Send(w, known, now, payload, goes).0
    case DoAck(q) => OnAck(w, q)
    case DoRetry(now) => Retry(w, now)
    case DoHello => Hello(w)
  }

  function Run(w: State, events: seq<Event>): State {
    if events == [] then w else Step(Run(w, events[..|events| - 1]), events[|events| - 1])
  }

  // ---------------------------------------------------------------- every run

  /** A waiting slot has its call's number and is at most at its fourth copy; no call waits in two slots. */
  ghost predicate Sound(w: State) {
    && |w.slots| == SLOTS
    && w.mySeq == (if w.sent == 0 then 0 else Nth(w.sent - 1))
    && (forall i :: 0 <= i < SLOTS && w.slots[i].inUse ==> SlotOk(w, w.slots[i]))
    && (forall i, j :: 0 <= i < j < SLOTS && w.slots[i].inUse && w.slots[j].inUse ==> !SameCall(w.slots[i], w.slots[j]))
  }

  predicate SlotOk(w: State, s: Slot) {
    && s.retries <= MAX_RETRIES && s.sends == s.retries + 1
    && s.number == Nth(s.nth) && s.session <= w.session && (s.session == w.session ==> s.nth < w.sent)
  }

  predicate SameCall(a: Slot, b: Slot) { a.session == b.session && a.nth == b.nth }

  lemma NextNumber(w: State)
    requires Sound(w)
    ensures Next(w.mySeq) == Nth(w.sent)
  {
    if w.sent > 0 {
      NthIsNext(w.sent - 1);
    }
  }

  lemma StepIsSound(w: State, e: Event)
    requires Sound(w)
    ensures Sound(Step(w, e))
  {
    hide Nth, Next;
    match e
    case DoSend(_, _, _, _) => NextNumber(w);
    case _ =>
  }

  /** Over every run each message goes out at most four times, and a waiting slot carries its own number. */
  lemma {:induction false} RunIsSound(w: State, events: seq<Event>)
    requires Sound(w)
    ensures Sound(Run(w, events))
  {
    hide Sound, Step;
    if events != [] {
      RunIsSound(w, events[..|events| - 1]);
      StepIsSound(Run(w, events[..|events| - 1]), events[|events| - 1]);
    }
  }

  // ---------------------------------------------------------------- which message an ACK answers

  /** Every waiting message is of the present session, with fewer than 65535 numbers given out since. */
  predicate Recent(w: State) {
    forall i :: 0 <= i < |w.slots| && w.slots[i].inUse ==>
      w.slots[i].session == w.session && w.sent <= w.slots[i].nth + LAST_SEQ
  }

  lemma NumbersDiffer(a: nat, b: nat)
    requires a < b < a + LAST_SEQ
    ensures Nth(a) != Nth(b)
  {
    assert a == LAST_SEQ * (a / LAST_SEQ) + a % LAST_SEQ;
    assert b == LAST_SEQ * (b / LAST_SEQ) + b % LAST_SEQ;
  }

  /** Among recent messages an ACK frees exactly the slot of the message that it answers. */
  lemma AckFreesItsMessage(w: State, i: nat)
    requires Sound(w) && Recent(w) && i < SLOTS && w.slots[i].inUse
    ensures OnAck(w, w.slots[i].number) == w.(slots := w.slots[i := w.slots[i].(inUse := false)])
  {
    hide Nth;
    var q := w.slots[i].number;
    var k := Waiting(w.slots, q).value;
    if k != i {
      var a, b := w.slots[k].nth, w.slots[i].nth;
      assert !SameCall(w.slots[k], w.slots[i]);
      if a < b { NumbersDiffer(a, b); } else { NumbersDiffer(b, a); }
    }
  }

  /** In every state the ACK of a waiting message frees its slot exactly if no slot before it waits under the same
      number. */
  lemma AckFreesIffFirst(w: State, i: nat)
    requires i < |w.slots| && w.slots[i].inUse
    ensures OnAck(w, w.slots[i].number) == w.(slots := w.slots[i := w.slots[i].(inUse := false)])
        <==> forall k :: 0 <= k < i ==> !(w.slots[k].inUse && w.slots[k].number == w.slots[i].number)
  {
    var q := w.slots[i].number;
    var k := Waiting(w.slots, q).value;
    if k < i {
      assert !OnAck(w, q).slots[k].inUse;
    }
  }

  /** After a HELLO a new message can share its number with one that still waits in a slot before its own; its ACK then
      frees the other. */
  lemma TwinsAfterHello(w: State, i: nat, now: int)
    requires Sound(w) && i < SLOTS && w.slots[i].inUse && w.slots[i].number == 1 && FreeSlot(w.slots).Some?
    ensures var w' := Send(Hello(w), true, now, 0, true).0;
            var j := FreeSlot(w.slots).value;
            && w'.slots[i].inUse && w'.slots[j].inUse && i != j && w'.slots[i].number == w'.slots[j].number == 1
            && w'.slots[j].session != w'.slots[i].session
            && OnAck(w', 1).slots[if i < j then j else i].inUse
  {
    NthIsNext(0);
    assert Next(0) == 1;
  }

  // ---------------------------------------------------------------- what each step does

  /** A call succeeds exactly if Linux has been heard from, the payload has at most 128 bytes, one of the eight slots is free
      and the transport takes the message. Then one free slot waits for the next number, sent once, now; the other
      slots are as they were. Refused before a slot is taken, nothing changes; if only the transport fails, the number is
      used up but nothing waits for it. */
  lemma SendOutcome(w: State, known: bool, now: int, payload: nat, goes: bool)
    requires Sound(w)
    ensures var (w', r) := Send(w, known, now, payload, goes);
            var free := exists i :: 0 <= i < 8 && !w.slots[i].inUse;
            && (r == 0 <==> known && payload <= 128 && free && goes)
            && (r == -1 <==> !known || (payload <= 128 && !free))
            && (r == -2 <==> known && (payload > 128 || (free && !goes)))
            && (!(known && payload <= 128 && free) ==> w' == w)
            && (known && payload <= 128 && free ==>
                  && w'.mySeq == (if w.mySeq == 65535 then 1 else w.mySeq + 1)
                  && w'.session == w.session && w'.sent == w.sent + 1
                  && exists i :: && 0 <= i < 8 && !w.slots[i].inUse
                                 && w'.slots == w.slots[i := Slot(goes, w'.mySeq, 0, now, w.session, w.sent, 1)])
  {}

  /** A pass of the retry loop leaves a slot alone that is free or has waited less than a second, frees one whose third
      retry has been in vain, and sends any other once more. */
  lemma RetryOutcome(w: State, now: int, i: nat)
    requires i < |w.slots|
    ensures var s, s' := w.slots[i], Retry(w, now).slots[i];
            && (!s.inUse || now < s.sentAt + 1000 ==> s' == s)
            && (s.inUse && now >= s.sentAt + 1000 && s.retries >= 3 ==> s' == s.(inUse := false))
            && (s.inUse && now >= s.sentAt + 1000 && s.retries < 3 ==>
                  s' == s.(retries := s.retries + 1, sends := s.sends + 1, sentAt := now))
    ensures |Retry(w, now).slots| == |w.slots| && Retry(w, now) == w.(slots := Retry(w, now).slots)
  {}

  /** So a message that nobody acknowledges goes out four times and is then given up: with passes at least a second
      apart, it waits with k + 1 copies sent after the k-th, and its slot is free after the fourth. */
  lemma FourPassesGiveUp(w: State, i: nat, t: int, a: int, b: int, c: int, d: int)
    requires i < |w.slots| && w.slots[i].inUse && w.slots[i].retries == 0 && w.slots[i].sends == 1 && w.slots[i].sentAt == t
    requires t + 1000 <= a && a + 1000 <= b && b + 1000 <= c && c + 1000 <= d
    ensures var s1 := Retry(w, a);
            var s2 := Retry(s1, b);
            var s3 := Retry(s2, c);
            && s1.slots[i].inUse && s1.slots[i].sends == 2
            && s2.slots[i].inUse && s2.slots[i].sends == 3
            && s3.slots[i].inUse && s3.slots[i].sends == 4
            && !Retry(s3, d).slots[i].inUse && Retry(s3, d).slots[i].sends == 4
  {}

  /** A HELLO starts the numbers again and a session of its own. */
  lemma HelloOutcome(w: State)
    ensures Hello(w) == w.(mySeq := 0, session := w.session + 1, sent := 0)
    ensures Next(Hello(w).mySeq) == 1
  {}

  // ---------------------------------------------------------------- in place

  class Table {
    const slots: array<Slot>
    var mySeq: Seq
    var session: nat
    var sent: nat

    function Contents(): State
      reads this, slots
    {
      State(slots[..], mySeq, session, sent)
    }

    constructor ()
      ensures fresh(slots) && Sound(Contents()) && forall i :: 0 <= i < SLOTS ==> !Contents().slots[i].inUse
    {
      slots := new Slot[8](_ => Slot(false, 0, 0, 0, 0, 0, 0));
      mySeq, session, sent := 0, 0, 0;
    }

    method SendReliable(known: bool, now: int, payload: nat, goes: bool) returns (r: int)
      modifies this, slots
      ensures (Contents(), r) == Send(old(Contents()), known, now, payload, goes)
    {
      if !known {
        return -1;
      }
      if payload > MAX_PAYLOAD {
        return -2;
      }
      var i := 0;
      while i < slots.Length && slots[i].inUse
        invariant 0 <= i <= slots.Length
        invariant FreeSlot(slots[..]) == FreeSlot(slots[..], i)
      {
        i := i + 1;
      }
      if i == slots.Length {
        return -1;
      }
      mySeq := (mySeq + 1) % 0x1_0000;
      if mySeq == 0 {
        mySeq := 1;
      }
      slots[i] := Slot(true, mySeq, 0, now, session, sent, 1);
      sent := sent + 1;
      if !goes {
        slots[i] := slots[i].(inUse := false);
        assert slots[..] == old(slots[..])[i := slots[i]];
        return -2;
      }
      assert slots[..] == old(slots[..])[i := slots[i]];
      return 0;
    }

    method OnAckMessage(q: Seq)
      modifies slots
      ensures Contents() == OnAck(old(Contents()), q)
    {
      for i := 0 to slots.Length
        invariant slots[..] == old(slots[..])
        invariant Waiting(slots[..], q) == Waiting(slots[..], q, i)
      {
        if slots[i].inUse && slots[i].number == q {
          slots[i] := slots[i].(inUse := false);
          return;
        }
      }
    }

    method ProcessEventRetries(now: int)
      modifies slots
      ensures Contents() == Retry(old(Contents()), now)
    {
      for i := 0 to slots.Length
        invariant forall k :: 0 <= k < i ==> slots[k] == Retried(old(slots[k]), now)
        invariant forall k :: i <= k < slots.Length ==> slots[k] == old(slots[k])
      {
        var s := slots[i];
        if !s.inUse || now - s.sentAt < ACK_TIMEOUT {
          continue;
        }
        if s.retries >= MAX_RETRIES {
          slots[i] := s.(inUse := false);
          continue;
        }
        slots[i] := s.(retries := s.retries + 1, sentAt := now, sends := s.sends + 1);
      }
      assert slots[..] == Retry(old(Contents()), now).slots;
    }

    method OnHello()
      modifies this
      ensures Contents() == Hello(old(Contents()))
    {
      mySeq := 0;
      session := session + 1;
      sent := 0;
    }
  }
}
