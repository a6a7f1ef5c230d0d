/** The duplicate window of reliable messages: the Go side (protocol.go) with its resync window, and the M4F side
    (ipc_rpmsg_echo.c), which has none. */
module SeqWindow {

  const WINDOW := 16
  const LAST_SEQ := 65535

  /** A sequence number on the wire; 0 is never sent by the M4F and stands for none received. */
  type Seq = s: nat | s <= LAST_SEQ

  /** The M4F's next sequence number: 1..65535, then 1 again. */
  function Next(s: Seq): Seq { if s == LAST_SEQ then 1 else s + 1 }

  // ---------------------------------------------------------------- the Go side

  /** isDuplicateSeq */
  predicate IsDuplicate(last: Seq, s: Seq) {
    !(last == 0 || s > last) && last - s <= WINDOW
  }

  datatype Event = Reset | Arrives(s: Seq)

  /** theirLastSeq after an event. */
  function Step(last: Seq, e: Event): Seq {
    match e
    case Reset => 0
    case Arrives(s) => if IsDuplicate(last, s) then last else s
  }

  function Run(last: Seq, events: seq<Event>): Seq {
    if events == [] then last else Step(Run(last, events[..|events| - 1]), events[|events| - 1])
  }

  predicate Accepted(last: Seq, events: seq<Event>, i: nat)
    requires i < |events|
  {
    events[i].Arrives? && !IsDuplicate(Run(last, events[..i]), events[i].s)
  }

  datatype Link = Disconnected | HelloSent | Connected | Dead

  class Receiver {
    var theirLastSeq: Seq
    var state: Link

    constructor ()
      ensures theirLastSeq == 0 && state == Disconnected
    {
      theirLastSeq := 0;
      state := Disconnected;
    }

    /** HELLO_ACK starts a session only when one was asked for. */
    method OnHelloAck()
      modifies this
      ensures state == if old(state).HelloSent? then Connected else old(state)
      ensures theirLastSeq == if old(state).HelloSent? then Step(old(theirLastSeq), Reset) else old(theirLastSeq)
    {
      if state.HelloSent? {
        state := Connected;
        theirLastSeq := 0;
      }
    }

    /** DATA, EVENT and the reporters: always acknowledged, handed on unless a duplicate; room says whether the
        channel takes it, and a message that finds none is gone although it was acknowledged. */
    method OnReliable(s: Seq, room: bool) returns (ack: Seq, deliver: bool)
      modifies this`theirLastSeq
      ensures ack == s && deliver == (!IsDuplicate(old(theirLastSeq), s) && room)
      ensures theirLastSeq == Step(old(theirLastSeq), Arrives(s))
    {
      var isDup;
      if theirLastSeq == 0 || s > theirLastSeq {
        isDup := false;
      } else {
        isDup := theirLastSeq - s <= WINDOW;
      }
      if !isDup {
        theirLastSeq := s;
      }
      return s, !isDup && room;
    }
  }

  /** A number is a duplicate exactly if one has been accepted since the last reset and it is that one or one of the sixteen
      below it. */
  lemma DuplicateIff(last: Seq, s: Seq)
    ensures IsDuplicate(last, s) <==> last != 0 && last - 16 <= s <= last
    ensures Step(last, Arrives(s)) == if last != 0 && last - 16 <= s <= last then last else s
    ensures !IsDuplicate(Step(last, Reset), s)
  {}

  // ---------------------------------------------------------------- accepted numbers climb

  /** Between events lo and hi the receiver was reset, or accepted a number more than a window below the last. */
  ghost predicate Restarted(last: Seq, events: seq<Event>, lo: nat, hi: nat)
    requires lo <= hi <= |events|
  {
    exists k :: lo <= k < hi && Restarts(last, events, k)
  }

  ghost predicate Restarts(last: Seq, events: seq<Event>, k: nat)
    requires k < |events|
  {
    || events[k].Reset?
    || (Accepted(last, events, k) && Run(last, events[..k]) > events[k].s + WINDOW)
  }

  /** Without a restart the last accepted number never falls, and every acceptance raises it. */
  lemma {:induction false} LastClimbs(last: Seq, events: seq<Event>, lo: nat, hi: nat)
    requires lo <= hi <= |events| && !Restarted(last, events, lo, hi)
    ensures Run(last, events[..lo]) <= Run(last, events[..hi])
    ensures forall k :: lo <= k < hi && Accepted(last, events, k) && events[k].s > 0 ==>
              Run(last, events[..lo]) < events[k].s <= Run(last, events[..hi])
  {
    if lo < hi {
      forall k | lo <= k < hi - 1 ensures !Restarts(last, events, k) {}
      LastClimbs(last, events, lo, hi - 1);
      assert !Restarts(last, events, hi - 1);
      assert events[..hi][..hi - 1] == events[..hi - 1];
    }
  }

  /** A number accepted twice: a reset or a jump back past the window lies in between. */
  lemma TwiceMeansRestart(last: Seq, events: seq<Event>, i: nat, j: nat)
    requires i < j < |events| && Accepted(last, events, i) && Accepted(last, events, j)
    requires events[i].s == events[j].s > 0
    ensures Restarted(last, events, i + 1, j + 1)
  {
    assert events[..i + 1][..i] == events[..i];
    if !Restarted(last, events, i + 1, j + 1) {
      LastClimbs(last, events, i + 1, j + 1);
    }
  }

  /** In general, accepted numbers strictly increase between restarts. */
  lemma AcceptedIncrease(last: Seq, events: seq<Event>, i: nat, j: nat)
    requires i < j < |events| && Accepted(last, events, i) && Accepted(last, events, j)
    requires events[j].s > 0 && !Restarted(last, events, i + 1, j + 1)
    ensures events[i].s < events[j].s
  {
    LastClimbs(last, events, i + 1, j + 1);
    assert events[..i + 1][..i] == events[..i];
  }

  // ---------------------------------------------------------------- an in-order stream

  /** The k-th number of a session, counting from 0. */
  function Nth(k: nat): Seq { 1 + k % LAST_SEQ }

  lemma NthIsNext(k: nat)
    ensures Nth(0) == 1 && Nth(k + 1) == Next(Nth(k))
  {
    if k % LAST_SEQ == LAST_SEQ - 1 {
      assert k + 1 == LAST_SEQ * (k / LAST_SEQ + 1);
    } else {
      assert (k + 1) / LAST_SEQ == k / LAST_SEQ && (k + 1) % LAST_SEQ == k % LAST_SEQ + 1;
    }
  }

  function Stream(n: nat): seq<Event> { seq(n, k requires k >= 0 => Arrives(Nth(k))) }

  /** Every message of a loss-free in-order stream is accepted, through any number of wraps. */
  lemma {:induction false} StreamIsAccepted(n: nat)
    ensures forall k :: 0 <= k < n ==> Accepted(0, Stream(n), k)
    ensures n > 0 ==> Run(0, Stream(n)) == Nth(n - 1)
  {
    if n > 0 {
      StreamIsAccepted(n - 1);
      var s := Stream(n);
      forall k | 0 <= k < n
        ensures Stream(n - 1) == s[..n - 1] && k < n - 1 ==> s[..k] == s[..n - 1][..k]
      {}
      assert s[..n - 1] == Stream(n - 1);
      if n > 1 {
        NthIsNext(n - 2);
      }
      forall k | 0 <= k < n
        ensures Accepted(0, s, k)
      {
        if k < n - 1 {
          assert s[..k] == Stream(n - 1)[..k];
          assert Accepted(0, Stream(n - 1), k);
        }
      }
    }
  }

  /** A retransmission of one of the last sixteen messages is refused exactly when no wrap lies in between. */
  lemma RetransmissionRefusedIff(k: nat, back: nat)
    requires back <= k && back <= WINDOW
    ensures IsDuplicate(Nth(k), Nth(k - back)) <==> Nth(k - back) <= Nth(k)
  {
    if Nth(k - back) <= Nth(k) {
      CloseNumbers(k, back);
    }
  }

  lemma CloseNumbers(k: nat, back: nat)
    requires back <= k && back <= WINDOW && Nth(k - back) <= Nth(k)
    ensures Nth(k) - Nth(k - back) <= back
  {
    Later(k - back, back);
  }

  lemma Later(j: nat, back: nat)
    requires back <= WINDOW
    ensures var r := j % LAST_SEQ + back;
            (j + back) % LAST_SEQ == if r < LAST_SEQ then r else r - LAST_SEQ
  {
    var q, r := j / LAST_SEQ, j % LAST_SEQ;
    assert j == LAST_SEQ * q + r;
    if r + back < LAST_SEQ {
      assert j + back == LAST_SEQ * q + (r + back);
    } else {
      assert j + back == LAST_SEQ * (q + 1) + (r + back - LAST_SEQ);
    }
  }

  /** A lower number within the window that arrives after a higher one was accepted is dropped, whether or not
      it was ever delivered: a first copy that comes late is lost, unless the receiver restarted in between. */
  lemma LateFirstCopyIsDropped(last: Seq, events: seq<Event>, i: nat, j: nat)
    requires i < j < |events| && Accepted(last, events, i) && events[j].Arrives?
    requires 0 < events[j].s < events[i].s && !Restarted(last, events, i + 1, j + 1)
    ensures !Accepted(last, events, j)
  {
    if Accepted(last, events, j) {
      AcceptedIncrease(last, events, i, j);
    }
  }

  // ---------------------------------------------------------------- the M4F side

  /** MSG_DATA in handleLinuxMessage: no window. */
  predicate M4fAccepts(last: Seq, s: Seq) { !(last != 0 && s <= last) }

  function M4fStep(last: Seq, e: Event): Seq {
    match e
    case Reset => 0
    case Arrives(s) => if M4fAccepts(last, s) then s else last
  }

  function M4fRun(last: Seq, events: seq<Event>): Seq {
    if events == [] then last else M4fStep(M4fRun(last, events[..|events| - 1]), events[|events| - 1])
  }

  /** After a HELLO the M4F accepts whatever comes first, and then exactly what lies above the last. */
  lemma M4fAcceptsAbove(last: Seq, s: Seq)
    ensures M4fAccepts(last, s) <==> last == 0 || last < s
    ensures M4fStep(last, Arrives(s)) == if last == 0 || last < s then s else last
    ensures M4fAccepts(M4fStep(last, Reset), s)
  {}

  /** What the M4F has accepted last after the first k messages of a loss-free in-order stream. */
  lemma {:induction false} M4fStreamLast(n: nat, k: nat)
    requires k <= n
    ensures M4fRun(0, Stream(n)[..k]) == if k < LAST_SEQ then k else LAST_SEQ
    decreases k
  {
    if k > 0 {
      M4fStreamLast(n, k - 1);
      assert Stream(n)[..k][..k - 1] == Stream(n)[..k - 1];
    }
  }

  /** Of a loss-free in-order stream the M4F accepts exactly the first 65535 messages; every later one it takes for a
      duplicate, until the next HELLO. */
  lemma M4fAcceptsIff(n: nat, k: nat)
    requires k < n
    ensures M4fAccepts(M4fRun(0, Stream(n)[..k]), Stream(n)[k].s) <==> k < 65535
    ensures Stream(n)[k] == Arrives(1 + k % 65535)
  {
    M4fStreamLast(n, k);
  }

  /** Whatever arrives after number 65535 has been accepted, in whatever order, is taken for a duplicate. */
  lemma {:induction false} NothingAfterTheLast(events: seq<Event>)
    requires forall i :: 0 <= i < |events| ==> events[i].Arrives?
    ensures M4fRun(LAST_SEQ, events) == LAST_SEQ
    ensures forall i :: 0 <= i < |events| ==> !M4fAccepts(M4fRun(LAST_SEQ, events[..i]), events[i].s)
  {
    if events != [] {
      var n := |events| - 1;
      NothingAfterTheLast(events[..n]);
      forall i | 0 <= i < n ensures events[..i] == events[..n][..i] {}
    }
  }
}
