/** What the events themselves say, with no part of the roll-up in it: which readings count, and what they add up to.
    The energy accounting and the live day are stated against this. */
module SolarReadings {
  import opened Wrappers
  import opened Calendar
  import opened Maxima
  import opened SolarModel
  import opened SolarLog
  import opened SolarPass
  import opened SolarRuns
  import opened SolarTheorems
  import opened SolarCharts

  /** The readings that count: the first, and each that comes at least 60 s after the last one that counted. */
  function Taken(events: seq<Event>): (taken: seq<Event>)
    ensures forall i :: 0 <= i < |taken| ==> taken[i].Arrive?
  {
    if events == [] then [] else
      var n := |events| - 1;
      var before := Taken(events[..n]);
      if events[n].Arrive? && (before == [] || events[n].ts - before[|before| - 1].ts >= 60) then before + [events[n]]
      else before
  }

  /** The energy that those in lo..hi carried, and two minutes of pump time for each that carried any. */
  function Said(taken: seq<Event>, lo: int, hi: int): Amount
    requires forall i :: 0 <= i < |taken| ==> taken[i].Arrive?
  {
    if taken == [] then Amount(0, 0) else
      var n := |taken| - 1;
      var before, e := Said(taken[..n], lo, hi), taken[n];
      if lo <= e.ts < hi then Amount(before.energy + e.delta, before.pump + if e.delta > 0 then 2 else 0) else before
  }

  // ---------------------------------------------------------------- the log is the readings that count

  ghost predicate Records(log: seq<Reading>, taken: seq<Event>) {
    |log| == |taken| && forall i :: 0 <= i < |log| ==> taken[i].Arrive? && Records1(log[i], taken[i])
  }

  predicate Records1(r: Reading, e: Event)
    requires e.Arrive?
  {
    r.t == e.ts && r.inc.energy == e.delta && r.inc.pump == if e.delta > 0 then 2 else 0
  }

  lemma RefusedIfRecorded(c: Calendar, events: seq<Event>, ts: int, delta: int)
    requires c.Valid() && InOrder(events, c.origin)
    requires var w := Run(c, Start(c), events); w.now <= ts && Records(w.log, Taken(events))
    ensures var taken := Taken(events);
            Stored(c, Run(c, Start(c), events).s, ts, delta).None? <==> taken != [] && ts - taken[|taken| - 1].ts < 60
  {
    hide Run, Start, Taken, MaxOf, Rolled, Chained, Calendar.Valid;
    var w := Run(c, Start(c), events);
    RunIsRight(c, events);
    RightRaw(c, w);
    LastRaw(w.log, w.s.raw, w.lastPass - RAW_BUFFER_SECONDS);
  }

  lemma RightRaw(c: Calendar, w: World)
    requires WorldIsRight(c, w)
    ensures Chronological(w.log) && IsRawTable(w.s.raw, w.log, w.lastPass - RAW_BUFFER_SECONDS) && w.lastPass <= w.now
  {
    hide Chained, ZeroedRight, HourTable, DayTable, MonthTable, IsRawTable;
  }

  lemma {:induction false} RunTakes(c: Calendar, events: seq<Event>)
    requires c.Valid() && InOrder(events, c.origin)
    ensures Records(Run(c, Start(c), events).log, Taken(events))
  {
    hide Pass, Zeroing, Records1, Calendar.Valid;
    if events != [] {
      var n := |events| - 1;
      var w := Run(c, Start(c), events[..n]);
      RunTakes(c, events[..n]);
      NowOfRun(c, events[..n]);
      match events[n]
      case Roll(_) =>
      case Arrive(ts, delta) =>
        RefusedIfRecorded(c, events[..n], ts, delta);
        StoredIsReading(c, w.s, ts, delta);
    }
  }

  /** In every reachable state a reading is refused exactly if it comes less than 60 s after the last one that counted; else it
      is stored with its own delta and two minutes of pump time if that is positive. */
  lemma RefusedIff(c: Calendar, events: seq<Event>, ts: int, delta: int)
    requires c.Valid() && InOrder(events, c.origin) && Run(c, Start(c), events).now <= ts
    ensures var taken, r := Taken(events), Stored(c, Run(c, Start(c), events).s, ts, delta);
            && (r.None? <==> taken != [] && ts - taken[|taken| - 1].ts < 60)
            && (r.Some? ==> r.value.t == ts && r.value.inc == Amount(delta, if delta > 0 then 2 else 0))
  {
    hide Run, Start, Taken, MaxOf, Calendar.Valid;
    RunTakes(c, events);
    RefusedIfRecorded(c, events, ts, delta);
    StoredIsReading(c, Run(c, Start(c), events).s, ts, delta);
  }

  lemma StoredIsReading(c: Calendar, s: Tables, ts: int, delta: int)
    ensures var r := Stored(c, s, ts, delta); r.Some? ==> Records1(r.value, Arrive(ts, delta))
  {
    hide MaxOf;
  }

  lemma {:induction false} SaidIsRange(log: seq<Reading>, taken: seq<Event>, lo: int, hi: int, n: nat)
    requires Chronological(log) && Records(log, taken) && n <= |log|
    ensures var a, b := CountBefore(log, lo), CountBefore(log, hi);
            forall i :: 0 <= i < n ==> taken[..n][i].Arrive?
    ensures var a, b := CountBefore(log, lo), CountBefore(log, hi);
            Said(taken[..n], lo, hi) == IncRange(log, Min(a, n), Min(b, n))
  {
    hide CountBefore, Chronological;
    if n > 0 {
      SaidIsRange(log, taken, lo, hi, n - 1);
      assert taken[..n][..n - 1] == taken[..n - 1];
      assert Records1(log[n - 1], taken[n - 1]);
      var a, b := CountBefore(log, lo), CountBefore(log, hi);
      assert log[n - 1].t < lo <==> n - 1 < a;
      assert log[n - 1].t < hi <==> n - 1 < b;
    } else {
      assert taken[..0] == [];
    }
  }

  /** What the log reports of any stretch of time is what the readings said. */
  lemma ReportedIsSaid(log: seq<Reading>, taken: seq<Event>, lo: int, hi: int)
    requires Chronological(log) && Records(log, taken)
    ensures forall i :: 0 <= i < |taken| ==> taken[i].Arrive?
    ensures Reported(log, lo, hi) == Said(taken, lo, hi)
  {
    hide CountBefore, IncRange, Said, Records1;
    SaidIsRange(log, taken, lo, hi, |log|);
    assert taken[..|log|] == taken;
  }

  // ---------------------------------------------------------------- energy accounting

  /** Every row of every level, in every reachable state, accounts exactly for what the readings of its period said: the
      amount in the row plus what resets inside the period hid. Redelivered readings, silences of any length, pruning,
      failed passes and restarts are all covered. */
  lemma RowsAccount(c: Calendar, events: seq<Event>)
    requires c.Valid() && InOrder(events, c.origin) && NoNegativeDeltas(events)
    ensures var w, taken := Run(c, Start(c), events), Taken(events);
            && Chronological(w.log)
            && (forall h :: h in w.s.hourly ==>
                  Said(taken, h, h + 3600) == w.s.hourly[h].gained.Plus(LostAt(w.log, w.zeroed, h)))
            && (forall d :: d in w.s.daily ==>
                  && Said(taken, d, c.day.next(d)).energy
                     == w.s.daily[d].dayYield + Lost(w.log, w.zeroed, d, c.day.next(d)).energy
                  && Said(taken, c.month.start(d), c.day.next(d))
                     == w.s.daily[d].month.Plus(Lost(w.log, w.zeroed, c.month.start(d), c.day.next(d))))
            && (forall m :: m in w.s.monthly ==>
                  && Said(taken, m, c.month.next(m)).energy
                     == w.s.monthly[m].monthYield + Lost(w.log, w.zeroed, m, c.month.next(m)).energy
                  && Said(taken, c.year.start(m), c.month.next(m))
                     == w.s.monthly[m].year.Plus(Lost(w.log, w.zeroed, c.year.start(m), c.month.next(m))))
  {
    hide Run, Start, Taken, Said, Reported, Records, Lost, LostAt, Amount.Plus, InOrder, NoNegativeDeltas, Calendar.Valid;
    var w, taken := Run(c, Start(c), events), Taken(events);
    RunTakes(c, events);
    LogRowsAccount(c, events);
    forall lo, hi
      ensures Reported(w.log, lo, hi) == Said(taken, lo, hi)
    {
      ReportedIsSaid(w.log, taken, lo, hi);
    }
  }

  /** The roll-up never shows energy or pump time that no reading said: every row of every level holds at most what the
      readings of its period said, in every reachable state. */
  lemma NothingIsInvented(c: Calendar, events: seq<Event>)
    requires c.Valid() && InOrder(events, c.origin) && NoNegativeDeltas(events)
    ensures var w, taken := Run(c, Start(c), events), Taken(events);
            && (forall h :: h in w.s.hourly ==> AtMost(w.s.hourly[h].gained, Said(taken, h, h + 3600)))
            && (forall d :: d in w.s.daily ==>
                  && w.s.daily[d].dayYield <= Said(taken, d, c.day.next(d)).energy
                  && AtMost(w.s.daily[d].month, Said(taken, c.month.start(d), c.day.next(d))))
            && (forall m :: m in w.s.monthly ==>
                  && w.s.monthly[m].monthYield <= Said(taken, m, c.month.next(m)).energy
                  && AtMost(w.s.monthly[m].year, Said(taken, c.year.start(m), c.month.next(m))))
  {
    hide Run, Start, Taken, Said, Reported, Records, AtMost, InOrder, NoNegativeDeltas, Calendar.Valid;
    var w, taken := Run(c, Start(c), events), Taken(events);
    RunTakes(c, events);
    LogBoundsRows(c, events);
    forall lo, hi
      ensures Reported(w.log, lo, hi) == Said(taken, lo, hi)
    {
      ReportedIsSaid(w.log, taken, lo, hi);
    }
  }

  // ---------------------------------------------------------------- the live day

  /** The cumulative starts afresh with the r-th reading that counts: the first of all, the first of its day, or after a
      silence longer than the raw buffer. */
  predicate Afresh(c: Calendar, taken: seq<Event>, r: nat)
    requires r < |taken|
  {
    || r == 0
    || c.day.start(taken[r - 1].ts) != c.day.start(taken[r].ts)
    || taken[r - 1].ts + 7200 < taken[r].ts
  }

  /** From the r-th reading to the n-th, all of one day, with no gap at which the raw rows would have gone. */
  ghost predicate OneDay(c: Calendar, taken: seq<Event>, r: nat, n: nat)
    requires r < n <= |taken|
  {
    forall i :: r <= i < n ==> c.day.start(taken[i].ts) == c.day.start(taken[n - 1].ts)
  }

  lemma {:induction false} CumSince(c: Calendar, log: seq<Reading>, taken: seq<Event>, n: nat) returns (r: nat)
    requires Chained(c, log) && Records(log, taken) && 0 < n <= |log|
    ensures r < n && Afresh(c, taken, r) && OneDay(c, taken, r, n)
    ensures log[n - 1].cum == IncRange(log, r, n)
  {
    assert Records1(log[n - 1], taken[n - 1]);
    FirstOfHour(c, log, n - 1);
    if log[n - 1].reset {
      r := n - 1;
      assert IncRange(log, r, r) == ZERO;
      assert r > 0 ==> Records1(log[r - 1], taken[r - 1]);
    } else {
      assert Records1(log[n - 2], taken[n - 2]);
      r := CumSince(c, log, taken, n - 1);
    }
  }

  /** In every reachable state the newest raw row is the last reading that counted, and its cumulative is exactly what was
      said since the cumulative last started afresh: all of the local day, unless its readings lie more than two hours
      apart. */
  lemma LiveDayIsSaid(c: Calendar, events: seq<Event>)
    requires c.Valid() && InOrder(events, c.origin)
    ensures var w, taken := Run(c, Start(c), events), Taken(events);
            var live, n := LiveDay(c, w.s), |taken|;
            (live.Some? ==>
              && n > 0 && live.value.day == c.day.start(taken[n - 1].ts)
              && exists r: nat :: (&& r < n && Afresh(c, taken, r) && OneDay(c, taken, r, n)
                                   && live.value.amount == Said(taken, taken[r].ts, taken[n - 1].ts + 1)))
  {
    hide Run, Start, Taken, Said, MaxOf, Rolled, Chained, Records1, Reported, OneDay, Afresh, IncRange, Calendar.Valid;
    var w, taken := Run(c, Start(c), events), Taken(events);
    RunIsRight(c, events);
    RunTakes(c, events);
    RightRaw(c, w);
    EndsRight(c, w);
    LastRaw(w.log, w.s.raw, w.lastPass - RAW_BUFFER_SECONDS);
    if LiveDay(c, w.s).Some? {
      var n := |taken|;
      var r := CumSince(c, w.log, taken, n);
      TimesMatch(w.log, taken);
      RangeIsReported(w.log, r, n);
      ReportedIsSaid(w.log, taken, taken[r].ts, taken[n - 1].ts + 1);
    }
  }

  ghost predicate DaysWithoutGap(c: Calendar, taken: seq<Event>) {
    forall i :: 0 < i < |taken| ==>
      taken[i].ts <= taken[i - 1].ts + 7200 || c.day.start(taken[i - 1].ts) != c.day.start(taken[i].ts)
  }

  /** With no two readings of a day more than two hours apart, the live amount is all that the day's readings said. */
  lemma LiveDayIsWholeDay(c: Calendar, events: seq<Event>)
    requires c.Valid() && InOrder(events, c.origin)
    requires DaysWithoutGap(c, Taken(events))
    ensures var w, taken := Run(c, Start(c), events), Taken(events);
            var live := LiveDay(c, w.s);
            live.Some? ==> taken != [] && live.value.amount == Said(taken, live.value.day, taken[|taken| - 1].ts + 1)
  {
    hide Run, Start, Taken, Said, LiveDay, Rolled, Records, Afresh, OneDay, DaysWithoutGap, Calendar.Valid;
    var w, taken := Run(c, Start(c), events), Taken(events);
    LiveDayIsSaid(c, events);
    RunIsRight(c, events);
    RunTakes(c, events);
    EndsRight(c, w);
    var live, n := LiveDay(c, w.s), |taken|;
    if live.Some? {
      var r: nat :| r < n && Afresh(c, taken, r) && OneDay(c, taken, r, n)
                    && live.value.amount == Said(taken, taken[r].ts, taken[n - 1].ts + 1);
      WholeDay(c, w.log, taken, r);
    }
  }

  lemma WholeDay(c: Calendar, log: seq<Reading>, taken: seq<Event>, r: nat)
    requires c.Valid() && Chronological(log) && Records(log, taken) && DaysWithoutGap(c, taken)
    requires r < |taken| && Afresh(c, taken, r) && OneDay(c, taken, r, |taken|)
    ensures forall i :: 0 <= i < |taken| ==> taken[i].Arrive?
    ensures var last := taken[|taken| - 1].ts;
            Said(taken, taken[r].ts, last + 1) == Said(taken, c.day.start(last), last + 1)
  {
    hide Said, Reported, Records1, Calendar.Valid, Tiling.Valid;
    var n := |taken|;
    TimesMatch(log, taken);
    DayBeginsAt(c, log, r, c.day.start(taken[n - 1].ts), n);
    ReportedIsSaid(log, taken, taken[r].ts, taken[n - 1].ts + 1);
    ReportedIsSaid(log, taken, c.day.start(taken[n - 1].ts), taken[n - 1].ts + 1);
  }

  lemma DayBeginsAt(c: Calendar, log: seq<Reading>, r: nat, day: int, n: nat)
    requires c.Valid() && Chronological(log) && r < n == |log| && day == c.day.start(log[r].t)
    requires r == 0 || c.day.start(log[r - 1].t) != day
    ensures Reported(log, day, log[n - 1].t + 1) == Reported(log, log[r].t, log[n - 1].t + 1)
  {
    hide CountBefore, IncRange, Calendar.Valid, Tiling.Valid;
    c.Parts();
    c.day.StartOf(log[r].t);
    if r > 0 {
      var p := log[r - 1].t;
      c.day.Monotone(p, log[r].t);
      c.day.StartOf(p);
      c.day.NextIsFirst(c.day.start(p), day);
    }
    CountUnique(log, day, r);
    CountUnique(log, log[r].t, r);
  }

  lemma TimesMatch(log: seq<Reading>, taken: seq<Event>)
    requires Records(log, taken)
    ensures forall i :: 0 <= i < |log| ==> log[i].t == taken[i].ts
  {
    forall i | 0 <= i < |log| ensures log[i].t == taken[i].ts { assert Records1(log[i], taken[i]); }
  }

  lemma RangeIsReported(log: seq<Reading>, r: nat, n: nat)
    requires Chronological(log) && r < n <= |log|
    requires n == |log|
    ensures Reported(log, log[r].t, log[n - 1].t + 1) == IncRange(log, r, n)
  {
    CountUnique(log, log[r].t, r);
    CountUnique(log, log[n - 1].t + 1, n);
  }
}
