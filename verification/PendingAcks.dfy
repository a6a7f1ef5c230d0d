/** The table of unacknowledged messages on the Go side (protocol.go): replies, retries, give-up and the
    caller's safety net, in any interleaving. Times are milliseconds. */
module PendingAcks {
  import opened Wrappers
  import opened Limits

  /** The period of retryLoop's ticker. */
  const TICK := 100

  /** pendingAck. id tells one call of sendReliableTyped from another; born is when it started, sends how many
      copies have gone out. */
  datatype Entry = Entry(id: nat, sentAt: int, retries: nat, born: int, sends: nat)

  type Table = map<nat, Entry>

  /** What was put into an entry's done channel. */
  datatype Result = Result(id: nat, ok: bool, at: int)

  datatype World = World(table: Table, results: seq<Result>, issued: nat, now: int, lastTick: int)

  datatype Event =
    | Send(s: nat, now: int)
    | Reply(s: nat, ok: bool, now: int)
    | Tick(now: int)
    | CallerTimesOut(s: nat, id: nat, now: int)
    | SendFails(s: nat, now: int)

  // ---------------------------------------------------------------- one tick

  predicate Expired(e: Entry, now: int) { now - e.sentAt >= ACK_TIMEOUT }

  predicate GivesUp(e: Entry, now: int) { Expired(e, now) && e.retries >= MAX_RETRIES }

  function Retried(e: Entry, now: int): Entry {
    if Expired(e, now) then e.(retries := e.retries + 1, sentAt := now, sends := e.sends + 1) else e
  }

  function Kept(t: Table, now: int): Table {
    map s | s in t && !GivesUp(t[s], now) :: Retried(t[s], now)
  }

  /** id belongs to an entry that is given up; todo are the keys not yet walked past. */
  ghost predicate IsGivenUp(t: Table, now: int, todo: set<nat>, id: nat) {
    exists s :: s in t && s !in todo && GivesUp(t[s], now) && t[s].id == id
  }

  /** One error for each entry given up so far, in whatever order the map is walked. */
  ghost predicate ResultsUpTo(t: Table, now: int, todo: set<nat>, rs: seq<Result>) {
    && (forall i :: 0 <= i < |rs| ==> !rs[i].ok && rs[i].at == now && IsGivenUp(t, now, todo, rs[i].id))
    && (forall s :: s in t && s !in todo && GivesUp(t[s], now) ==> exists i :: 0 <= i < |rs| && rs[i].id == t[s].id)
    && (forall i, j :: 0 <= i < j < |rs| ==> rs[i].id != rs[j].id)
  }

  /** The results a tick hands out. */
  ghost predicate GiveUpResults(t: Table, now: int, rs: seq<Result>) { ResultsUpTo(t, now, {}, rs) }

  // ---------------------------------------------------------------- all steps

  /** w' is what event e can make of w. */
  ghost predicate Next(w: World, e: Event, w': World) {
    match e
    case Send(s, now) =>
      w' == w.(table := w.table[s := Entry(w.issued, now, 0, now, 1)], issued := w.issued + 1, now := now)
    case Reply(s, ok, now) =>
      if s in w.table then
        w' == w.(table := w.table - {s}, results := w.results + [Result(w.table[s].id, ok, now)], now := now)
      else w' == w.(now := now)
    case Tick(now) =>
      exists rs :: GiveUpResults(w.table, now, rs)
        && w' == w.(table := Kept(w.table, now), results := w.results + rs, now := now, lastTick := now)
    case CallerTimesOut(s, _, now) => w' == w.(table := w.table - {s}, now := now)
    case SendFails(s, now) => w' == w.(table := w.table - {s}, now := now)
  }

  function TimeOf(e: Event): int { e.now }

  /** Time does not step back, and a tick is never more than its period late. */
  predicate Timely(w: World, e: Event) {
    w.now <= TimeOf(e) <= w.lastTick + TICK
  }

  /** A run: the worlds before, between and after the events. Nothing is asked of their times. */
  ghost predicate IsRun(ws: seq<World>, events: seq<Event>) {
    |ws| == |events| + 1 && forall i :: 0 <= i < |events| ==> Next(ws[i], events[i], ws[i + 1])
  }

  /** A run in which the ticker keeps its period. */
  ghost predicate IsTimelyRun(ws: seq<World>, events: seq<Event>) {
    IsRun(ws, events) && forall i :: 0 <= i < |events| ==> Timely(ws[i], events[i])
  }

  function Start(now: int): World { World(map[], [], 0, now, now) }

  // ---------------------------------------------------------------- what every run keeps

  /** What the retries of a live entry count: the copies after the first, each at least one timeout after the last. */
  predicate Counted(e: Entry) {
    && e.retries <= MAX_RETRIES && e.sends == e.retries + 1
    && e.born + ACK_TIMEOUT * e.retries <= e.sentAt
  }

  ghost predicate Sound(w: World) {
    && (forall s :: s in w.table ==> Counted(w.table[s]) && w.table[s].id < w.issued)
    && (forall s, t :: s in w.table && t in w.table && s != t ==> w.table[s].id != w.table[t].id)
    && (forall i :: 0 <= i < |w.results| ==> w.results[i].id < w.issued)
    && (forall i, j :: 0 <= i < j < |w.results| ==> w.results[i].id != w.results[j].id)
    && (forall i, s :: 0 <= i < |w.results| && s in w.table ==> w.results[i].id != w.table[s].id)
  }

  lemma CountedAfterTick(e: Entry, now: int)
    requires Counted(e) && !GivesUp(e, now)
    ensures Counted(Retried(e, now))
  {}

  lemma TickIsSound(w: World, now: int, rs: seq<Result>)
    requires Sound(w) && GiveUpResults(w.table, now, rs)
    ensures Sound(w.(table := Kept(w.table, now), results := w.results + rs, now := now, lastTick := now))
  {
    hide Counted, GivesUp;
    var t, all := Kept(w.table, now), w.results + rs;
    forall s | s in t
      ensures Counted(t[s]) && t[s].id == w.table[s].id
    {
      CountedAfterTick(w.table[s], now);
    }
    forall j | |w.results| <= j < |all|
      ensures IsGivenUp(w.table, now, {}, all[j].id)
    {
      assert all[j] == rs[j - |w.results|];
    }
    forall i, j | 0 <= i < j < |all|
      ensures all[i].id != all[j].id
    {
      if |w.results| <= i {
        assert rs[i - |w.results|].id != rs[j - |w.results|].id;
      } else if |w.results| <= j {
        assert IsGivenUp(w.table, now, {}, all[j].id);
        var s :| s in w.table && GivesUp(w.table[s], now) && w.table[s].id == all[j].id;
        assert w.results[i].id != w.table[s].id;
      }
    }
    forall i, s | 0 <= i < |all| && s in t
      ensures all[i].id != t[s].id
    {
      if |w.results| <= i {
        assert IsGivenUp(w.table, now, {}, all[i].id);
        var u :| u in w.table && GivesUp(w.table[u], now) && w.table[u].id == all[i].id;
        assert u !in t;
      }
    }
  }

  lemma RemovalIsSound(w: World, s: nat, now: int)
    requires Sound(w)
    ensures Sound(w.(now := now)) && Sound(w.(table := w.table - {s}, now := now))
  {
    hide Counted;
  }

  lemma ReplyIsSound(w: World, s: nat, ok: bool, now: int)
    requires Sound(w) && s in w.table
    ensures Sound(w.(table := w.table - {s}, results := w.results + [Result(w.table[s].id, ok, now)], now := now))
  {
    hide Counted;
  }

  lemma SendIsSound(w: World, s: nat, now: int)
    requires Sound(w)
    ensures Sound(w.(table := w.table[s := Entry(w.issued, now, 0, now, 1)], issued := w.issued + 1, now := now))
  {
    assert Counted(Entry(w.issued, now, 0, now, 1));
    hide Counted;
  }

  lemma StepIsSound(w: World, e: Event, w': World)
    requires Sound(w) && Next(w, e, w')
    ensures Sound(w')
  {
    hide Sound;
    match e
    case Tick(now) =>
      var rs: seq<Result> :| GiveUpResults(w.table, now, rs)
        && w' == w.(table := Kept(w.table, now), results := w.results + rs, now := now, lastTick := now);
      TickIsSound(w, now, rs);
    case Reply(s, ok, now) =>
      RemovalIsSound(w, s, now);
      if s in w.table {
        ReplyIsSound(w, s, ok, now);
      }
    case Send(s, now) => SendIsSound(w, s, now);
    case CallerTimesOut(s, _, now) => RemovalIsSound(w, s, now);
    case SendFails(s, now) => RemovalIsSound(w, s, now);
  }

  lemma {:induction false} RunIsSound(ws: seq<World>, events: seq<Event>, start: int, n: nat)
    requires IsRun(ws, events) && ws[0] == Start(start) && n <= |events|
    ensures Sound(ws[n])
  {
    hide Next, Sound;
    if n == 0 {
      StartIsSound(start);
    } else {
      RunIsSound(ws, events, start, n - 1);
      assert Next(ws[n - 1], events[n - 1], ws[n - 1 + 1]);
      StepIsSound(ws[n - 1], events[n - 1], ws[n]);
    }
  }

  lemma StartIsSound(start: int)
    ensures Sound(Start(start))
  {}

  // ---------------------------------------------------------------- what the ticker's period adds

  /** The age of a live entry, told by its retries. */
  predicate Young(e: Entry, now: int, lastTick: int) {
    && Counted(e)
    && e.sentAt <= e.born + (ACK_TIMEOUT + TICK) * e.retries
    && e.sentAt <= now
    && lastTick - e.sentAt < ACK_TIMEOUT
  }

  ghost predicate OnTime(w: World) {
    && w.lastTick <= w.now <= w.lastTick + TICK
    && forall s :: s in w.table ==> Young(w.table[s], w.now, w.lastTick)
  }

  lemma YoungAfterTick(e: Entry, w: World, now: int)
    requires Young(e, w.now, w.lastTick) && w.lastTick <= w.now <= now <= w.lastTick + TICK && !GivesUp(e, now)
    ensures Young(Retried(e, now), now, now)
  {}

  lemma StepIsOnTime(w: World, e: Event, w': World)
    requires OnTime(w) && Timely(w, e) && Next(w, e, w')
    ensures OnTime(w')
  {
    hide GivesUp, Retried, ResultsUpTo;
    if e.Tick? {
      forall s | s in w'.table
        ensures Young(w'.table[s], w'.now, w'.lastTick)
      {
        YoungAfterTick(w.table[s], w, e.now);
      }
    }
  }

  lemma {:induction false} RunIsOnTime(ws: seq<World>, events: seq<Event>, start: int, n: nat)
    requires IsTimelyRun(ws, events) && ws[0] == Start(start) && n <= |events|
    ensures OnTime(ws[n])
  {
    hide Next, Timely, OnTime;
    if n == 0 {
      StartIsOnTime(start);
    } else {
      RunIsOnTime(ws, events, start, n - 1);
      assert Timely(ws[n - 1], events[n - 1]) && Next(ws[n - 1], events[n - 1], ws[n - 1 + 1]);
      StepIsOnTime(ws[n - 1], events[n - 1], ws[n]);
    }
  }

  lemma StartIsOnTime(start: int)
    ensures OnTime(Start(start))
  {}

  // ---------------------------------------------------------------- the promises

  /** In every run, whatever the times of its events, each message is transmitted at most four times and gets at most
      one result. */
  lemma OneResultFourSends(ws: seq<World>, events: seq<Event>, start: int, n: nat)
    requires IsRun(ws, events) && ws[0] == Start(start) && n <= |events|
    ensures forall s :: s in ws[n].table ==> ws[n].table[s].sends <= 4
    ensures forall i, j :: 0 <= i < j < |ws[n].results| ==> ws[n].results[i].id != ws[n].results[j].id
    ensures forall i, s :: 0 <= i < |ws[n].results| && s in ws[n].table ==> ws[n].results[i].id != ws[n].table[s].id
  {
    RunIsSound(ws, events, start, n);
  }

  /** An entry that is still in the table is less than 4.4 s old, so the caller's safety net of 5 s never
      finds its own entry there. */
  lemma GivenUpInTime(ws: seq<World>, events: seq<Event>, start: int, n: nat, s: nat)
    requires IsTimelyRun(ws, events) && ws[0] == Start(start) && n <= |events| && s in ws[n].table
    ensures ws[n].now < ws[n].table[s].born + 4400
  {
    RunIsOnTime(ws, events, start, n);
  }

  /** The event is a new message under the number, an answer to it, or its withdrawal by its caller. */
  predicate Concerns(e: Event, s: nat) { !e.Tick? && e.s == s }

  /** The give-up of message id, between four full timeouts and 4.4 s after it was sent. */
  ghost predicate GivenUp(w: World, id: nat, born: int) {
    exists k :: 0 <= k < |w.results| && w.results[k].id == id && !w.results[k].ok
      && born + 4000 <= w.results[k].at < born + 4400
  }

  ghost predicate StillWaits(w: World, s: nat, id: nat, born: int) {
    s in w.table && w.table[s].id == id && w.table[s].born == born
  }

  lemma YoungOf(w: World, s: nat)
    requires OnTime(w) && s in w.table
    ensures Young(w.table[s], w.now, w.lastTick) && w.lastTick <= w.now <= w.lastTick + TICK
  {}

  lemma AgeAtGiveUp(e: Entry, was: int, lastTick: int, now: int)
    requires Young(e, was, lastTick) && now <= lastTick + TICK && GivesUp(e, now)
    ensures e.born + 4000 <= now < e.born + 4400
  {}

  lemma TickGivesUpOrKeeps(w: World, now: int, w': World, s: nat, id: nat, born: int)
    requires OnTime(w) && Timely(w, Tick(now)) && Next(w, Tick(now), w') && StillWaits(w, s, id, born)
    ensures StillWaits(w', s, id, born) || GivenUp(w', id, born)
  {
    hide OnTime, Young, GivesUp;
    var rs: seq<Result> :| GiveUpResults(w.table, now, rs)
      && w' == w.(table := Kept(w.table, now), results := w.results + rs, now := now, lastTick := now);
    YoungOf(w, s);
    if GivesUp(w.table[s], now) {
      AgeAtGiveUp(w.table[s], w.now, w.lastTick, now);
      var k: nat :| k < |rs| && rs[k].id == w.table[s].id;
      assert w'.results[|w.results| + k] == rs[k];
    }
  }

  lemma StepWaitsOrGivesUp(w: World, e: Event, w': World, s: nat, id: nat, born: int)
    requires OnTime(w) && Timely(w, e) && Next(w, e, w') && !Concerns(e, s)
    requires StillWaits(w, s, id, born) || GivenUp(w, id, born)
    ensures StillWaits(w', s, id, born) || GivenUp(w', id, born)
  {
    if GivenUp(w, id, born) {
      var k :| 0 <= k < |w.results| && w.results[k].id == id && !w.results[k].ok
        && born + 4000 <= w.results[k].at < born + 4400;
      assert w.results <= w'.results;
      assert w'.results[k] == w.results[k];
    } else if e.Tick? {
      TickGivesUpOrKeeps(w, e.now, w', s, id, born);
    }
  }

  lemma {:induction false} WaitsOrGivenUp(ws: seq<World>, events: seq<Event>, start: int, i: nat, n: nat, s: nat)
    requires IsTimelyRun(ws, events) && ws[0] == Start(start) && i < n <= |events|
    requires events[i].Send? && events[i].s == s && forall j :: i < j < n ==> !Concerns(events[j], s)
    ensures StillWaits(ws[n], s, ws[i].issued, events[i].now) || GivenUp(ws[n], ws[i].issued, events[i].now)
    decreases n
  {
    hide OnTime, Timely, GivenUp, Concerns;
    if i + 1 < n {
      WaitsOrGivenUp(ws, events, start, i, n - 1, s);
      RunIsOnTime(ws, events, start, n - 1);
      StepWaitsOrGivesUp(ws[n - 1], events[n - 1], ws[n], s, ws[i].issued, events[i].now);
    } else {
      assert Next(ws[i], events[i], ws[i + 1]);
    }
  }

  /** A message that nobody answers or withdraws gets its error: once 4.4 s have passed its caller has been handed
      exactly the give-up, four full timeouts or more after the message was sent. */
  lemma UnansweredIsGivenUp(ws: seq<World>, events: seq<Event>, start: int, i: nat, n: nat, s: nat)
    requires IsTimelyRun(ws, events) && ws[0] == Start(start) && i < n <= |events|
    requires events[i].Send? && events[i].s == s && forall j :: i < j < n ==> !Concerns(events[j], s)
    requires ws[n].now >= events[i].now + 4400
    ensures GivenUp(ws[n], ws[i].issued, events[i].now) && !StillWaits(ws[n], s, ws[i].issued, events[i].now)
  {
    hide Next, Timely, GivenUp, Concerns;
    WaitsOrGivenUp(ws, events, start, i, n, s);
    if StillWaits(ws[n], s, ws[i].issued, events[i].now) {
      GivenUpInTime(ws, events, start, n, s);
    }
  }

  /** In every run a message that is answered while it waits gets that answer and no other, and waits no more; one whose caller
      withdraws it waits no more and gets none. Messages under other numbers are not touched. */
  lemma AnswerIsHandedOver(ws: seq<World>, events: seq<Event>, start: int, n: nat)
    requires IsRun(ws, events) && ws[0] == Start(start) && n < |events| && !events[n].Tick?
    ensures var w, w', e := ws[n], ws[n + 1], events[n];
            && w'.now == e.now && w'.lastTick == w.lastTick
            && (forall s :: s != e.s ==> (s in w'.table <==> s in w.table) && (s in w.table ==> w'.table[s] == w.table[s]))
            && (e.Reply? && e.s in w.table ==>
                  w'.results == w.results + [Result(w.table[e.s].id, e.ok, e.now)] && e.s !in w'.table)
            && (e.Reply? && e.s !in w.table ==> w' == w.(now := e.now))
            && (e.CallerTimesOut? || e.SendFails? ==> e.s !in w'.table && w'.results == w.results)
            && (e.Send? ==> w'.results == w.results && e.s in w'.table && w'.issued == w.issued + 1
                            && w'.table[e.s] == Entry(w.issued, e.now, 0, e.now, 1))
  {
    assert Next(ws[n], events[n], ws[n + 1]);
  }

  /** At a tick every entry that has waited less than a second stays as it is, one whose third retry has been in vain goes
      with an error, and any other is sent once more. */
  lemma TickOutcome(ws: seq<World>, events: seq<Event>, start: int, n: nat, s: nat)
    requires IsRun(ws, events) && ws[0] == Start(start) && n < |events| && events[n].Tick? && s in ws[n].table
    ensures var e, now, w' := ws[n].table[s], events[n].now, ws[n + 1];
            && w'.now == now && w'.lastTick == now && w'.table.Keys <= ws[n].table.Keys
            && (now < e.sentAt + 1000 ==> s in w'.table && w'.table[s] == e)
            && (now >= e.sentAt + 1000 && e.retries < 3 ==>
                  s in w'.table && w'.table[s] == e.(retries := e.retries + 1, sends := e.sends + 1, sentAt := now))
            && (now >= e.sentAt + 1000 && e.retries >= 3 ==>
                  s !in w'.table && exists k :: 0 <= k < |w'.results| && w'.results[k] == Result(e.id, false, now))
  {
    var w, now, w' := ws[n], events[n].now, ws[n + 1];
    assert Next(ws[n], events[n], ws[n + 1]);
    var rs: seq<Result> :| GiveUpResults(w.table, now, rs)
      && w' == w.(table := Kept(w.table, now), results := w.results + rs, now := now, lastTick := now);
    if GivesUp(w.table[s], now) {
      var k: nat :| k < |rs| && rs[k].id == w.table[s].id;
      assert w'.results[|w.results| + k] == rs[k];
    }
  }

  /** A caller that times out, which is no earlier than 5 s after it began, removes nothing of its own. */
  lemma SafetyNetIsIdle(ws: seq<World>, events: seq<Event>, start: int, n: nat)
    requires IsTimelyRun(ws, events) && ws[0] == Start(start) && n < |events| && events[n].CallerTimesOut?
    requires var e := events[n]; e.s in ws[n].table ==> e.now >= ws[n].table[e.s].born + 5000
    ensures events[n].s !in ws[n].table
  {
    RunIsOnTime(ws, events, start, n);
    assert Timely(ws[n], events[n]);
  }

  /** Giving up takes at least four full timeouts, in every run. */
  lemma GiveUpTakesFour(ws: seq<World>, events: seq<Event>, start: int, n: nat, s: nat, now: int)
    requires IsRun(ws, events) && ws[0] == Start(start) && n <= |events| && s in ws[n].table
    requires GivesUp(ws[n].table[s], now)
    ensures now >= ws[n].table[s].born + 4000
  {
    RunIsSound(ws, events, start, n);
  }

  // ---------------------------------------------------------------- in place

  class Pending {
    var table: Table
    var issued: nat

    constructor ()
      ensures table == map[] && issued == 0
    {
      table := map[];
      issued := 0;
    }

    /** The first half of sendReliableTyped. */
    method Register(s: nat, now: int) returns (id: nat)
      modifies this
      ensures id == old(issued) && issued == id + 1
      ensures table == old(table)[s := Entry(id, now, 0, now, 1)]
    {
      id := issued;
      issued := issued + 1;
      table := table[s := Entry(id, now, 0, now, 1)];
    }

    /** MSG_ACK and MSG_ERROR. */
    method OnReply(s: nat, ok: bool, now: int) returns (r: Option<Result>)
      modifies `table
      ensures table == old(table) - {s}
      ensures r == if s in old(table) then Some(Result(old(table)[s].id, ok, now)) else None
    {
      if s in table {
        r := Some(Result(table[s].id, ok, now));
        table := table - {s};
      } else {
        assert table == table - {s};
        r := None;
      }
    }

    /** processRetries: the messages to send again, and the results of those given up. */
    method ProcessRetries(now: int) returns (again: set<nat>, results: seq<Result>)
      requires Distinct(table)
      modifies `table
      ensures table == Kept(old(table), now)
      ensures again == Resent(old(table), now)
      ensures GiveUpResults(old(table), now, results)
    {
      hide TableUpTo, AgainUpTo, ResultsUpTo;
      again, results := {}, [];
      ghost var was := table;
      var todo := table.Keys;
      NothingWalked(was, now);
      while todo != {}
        invariant todo <= was.Keys
        invariant TableUpTo(was, now, todo, table)
        invariant AgainUpTo(was, now, todo, again)
        invariant ResultsUpTo(was, now, todo, results)
        decreases |todo|
      {
        var s :| s in todo;
        Untouched(was, now, todo, table, s);
        var e := table[s];
        WalkTable(was, now, todo, table, s);
        WalkAgain(was, now, todo, again, s);
        WalkResults(was, now, todo, results, s);
        todo := todo - {s};
        if now - e.sentAt >= ACK_TIMEOUT {
          if e.retries >= MAX_RETRIES {
            table := table - {s};
            results := results + [Result(e.id, false, now)];
          } else {
            table := table[s := e.(retries := e.retries + 1, sentAt := now, sends := e.sends + 1)];
            again := again + {s};
          }
        }
      }
      AllWalked(was, now, table, again);
    }
  }

  // ---------------------------------------------------------------- walking the table

  ghost predicate Distinct(t: Table) {
    forall a, b :: a in t && b in t && a != b ==> t[a].id != t[b].id
  }

  predicate Resends(e: Entry, now: int) { Expired(e, now) && e.retries < MAX_RETRIES }

  function Resent(t: Table, now: int): set<nat> { set s | s in t && Resends(t[s], now) }

  ghost predicate TableUpTo(t: Table, now: int, todo: set<nat>, t': Table) {
    && (forall s :: s in todo && s in t ==> s in t' && t'[s] == t[s])
    && (forall s :: s in t && s !in todo ==> (s in t' <==> !GivesUp(t[s], now)) && (s in t' ==> t'[s] == Retried(t[s], now)))
    && t'.Keys <= t.Keys
  }

  ghost predicate AgainUpTo(t: Table, now: int, todo: set<nat>, again: set<nat>) {
    forall s :: s in again <==> s in t && s !in todo && Resends(t[s], now)
  }

  lemma NothingWalked(t: Table, now: int)
    ensures TableUpTo(t, now, t.Keys, t) && AgainUpTo(t, now, t.Keys, {}) && ResultsUpTo(t, now, t.Keys, [])
  {}

  lemma AllWalked(t: Table, now: int, t': Table, again: set<nat>)
    requires TableUpTo(t, now, {}, t') && AgainUpTo(t, now, {}, again)
    ensures t' == Kept(t, now) && again == Resent(t, now)
  {}

  lemma Untouched(t: Table, now: int, todo: set<nat>, t': Table, s: nat)
    requires TableUpTo(t, now, todo, t') && s in todo && s in t
    ensures s in t' && t'[s] == t[s]
  {}

  lemma WalkTable(t: Table, now: int, todo: set<nat>, t': Table, s: nat)
    requires TableUpTo(t, now, todo, t') && s in todo && s in t
    ensures GivesUp(t[s], now) ==> TableUpTo(t, now, todo - {s}, t' - {s})
    ensures Resends(t[s], now) ==> TableUpTo(t, now, todo - {s}, t'[s := Retried(t[s], now)])
    ensures !Expired(t[s], now) ==> TableUpTo(t, now, todo - {s}, t')
  {}

  lemma WalkAgain(t: Table, now: int, todo: set<nat>, again: set<nat>, s: nat)
    requires AgainUpTo(t, now, todo, again) && s in todo && s in t
    ensures AgainUpTo(t, now, todo - {s}, if Resends(t[s], now) then again + {s} else again)
  {}

  lemma WalkResults(t: Table, now: int, todo: set<nat>, rs: seq<Result>, s: nat)
    requires Distinct(t) && ResultsUpTo(t, now, todo, rs) && s in todo && s in t
    ensures ResultsUpTo(t, now, todo - {s}, if GivesUp(t[s], now) then rs + [Result(t[s].id, false, now)] else rs)
  {
    hide GivesUp;
    forall i | 0 <= i < |rs|
      ensures rs[i].id != t[s].id && IsGivenUp(t, now, todo - {s}, rs[i].id)
    {
      var u :| u in t && u !in todo && GivesUp(t[u], now) && t[u].id == rs[i].id;
      assert u !in todo - {s};
    }
    if GivesUp(t[s], now) {
      var more := rs + [Result(t[s].id, false, now)];
      assert more[|rs|].id == t[s].id;
      assert IsGivenUp(t, now, todo - {s}, t[s].id);
      forall u | u in t && u !in todo - {s} && GivesUp(t[u], now)
        ensures exists i :: 0 <= i < |more| && more[i].id == t[u].id
      {
        if u != s {
          var i :| 0 <= i < |rs| && rs[i].id == t[u].id;
          assert more[i].id == t[u].id;
        }
      }
    }
  }
}
