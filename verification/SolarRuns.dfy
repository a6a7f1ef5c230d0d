/** Whole runs of the roll-up: any interleaving of readings and passes, the clock never stepping back.

    RecordTelemetry is an Arrive followed by a Roll at the same second, or by nothing when the
    aggregation transaction fails; the pass at service start is a Roll on its own. */
module SolarRuns {
  import opened Calendar
  import opened Maxima
  import opened SolarModel
  import opened SolarLog
  import opened SolarRoll
  import opened SolarPass
  import opened SolarDays
  import opened SolarMonths

  datatype Event = Arrive(ts: int, delta: int) | Roll(ts: int)

  /** The tables, the readings accepted so far, the hours last measured against zero because the row before them had
      been pruned, the time of the last pass and the present. */
  datatype World = World(s: Tables, log: seq<Reading>, zeroed: set<int>, lastPass: int, now: int)

  function Start(c: Calendar): World { World(EMPTY, [], {}, c.origin, c.origin) }

  ghost function Step(c: Calendar, w: World, e: Event): World {
    match e
    case Arrive(ts, delta) =>
      var r := Stored(c, w.s, ts, delta);
      World(Record(c, w.s, ts, delta), if r.None? then w.log else w.log + [r.value], w.zeroed, w.lastPass, ts)
    case Roll(ts) => World(Pass(c, w.s, ts), w.log, Zeroing(c, w.log, w.zeroed, w.s, ts), ts, ts)
  }

  ghost function Run(c: Calendar, w: World, events: seq<Event>): World {
    if events == [] then w else Step(c, Run(c, w, events[..|events| - 1]), events[|events| - 1])
  }

  predicate InOrder(events: seq<Event>, start: int) {
    && (forall i :: 0 <= i < |events| ==> start <= events[i].ts)
    && (forall i, j :: 0 <= i < j < |events| ==> events[i].ts <= events[j].ts)
  }

  // ---------------------------------------------------------------- a pass and a reading

  lemma PruneIsRight(c: Calendar, log: seq<Reading>, z: set<int>, T: int, s: Tables, ts: int)
    requires c.Valid() && Chronological(log) && T <= ts
    requires IsRawTable(s.raw, log, T - RAW_BUFFER_SECONDS)
    requires s.hourly == HourTable(c, log, z, c.hourCut(T), c.hour.start(ts))
    requires s.daily == DayTable(c, log, z, c.dayCut(T), c.day.start(ts))
    requires s.monthly == MonthTable(c, log, z, c.month.start(c.origin), c.month.start(ts))
    ensures Rolled(c, log, z, ts, Prune(c, s, ts))
  {
    hide HourSpec, DaySpec, MonthSpec, Tiling.Valid;
    assert c.hourCut(T) <= c.hourCut(ts) && c.dayCut(T) <= c.dayCut(ts);
    PrunedHours(c, log, z, s.hourly, c.hourCut(T), c.hourCut(ts), c.hour.start(ts));
    PrunedDays(c, log, z, s.daily, c.dayCut(T), c.dayCut(ts), c.day.start(ts));
    PrunedRaw(s.raw, log, T - RAW_BUFFER_SECONDS, ts - RAW_BUFFER_SECONDS);
  }

  lemma PrunedRaw(raw: map<int, Amount>, log: seq<Reading>, cut: int, cut': int)
    requires IsRawTable(raw, log, cut) && cut <= cut'
    ensures IsRawTable(From(raw, cut'), log, cut')
  {}

  lemma PrunedHours(c: Calendar, log: seq<Reading>, z: set<int>, m: map<int, HourRow>, lo: int, lo': int, hi: int)
    requires Chronological(log) && m == HourTable(c, log, z, lo, hi) && lo <= lo'
    ensures From(m, lo') == HourTable(c, log, z, lo', hi)
  {
    hide HourSpec;
  }

  lemma PrunedDays(c: Calendar, log: seq<Reading>, z: set<int>, m: map<int, DayRow>, lo: int, lo': int, hi: int)
    requires Chronological(log) && m == DayTable(c, log, z, lo, hi) && lo <= lo'
    ensures From(m, lo') == DayTable(c, log, z, lo', hi)
  {
    hide DaySpec;
  }

  lemma NewcomersHaveReadings(c: Calendar, log: seq<Reading>, z: set<int>, z': set<int>, T: int, ts: int)
    requires Chronological(log) && KeysHaveReadings(c.hour, log, z) && ZeroedGrows(c, log, z, z', T, ts)
    ensures KeysHaveReadings(c.hour, log, z')
  {
    hide PeriodBefore, Edge;
    forall h | h in z'
      ensures HasReading(c.hour, log, h)
    {
      assert h in z || AfterPruned(c, log, T, h);
    }
  }

  /** A pass keeps the tables equal to what the accepted readings say, after silences of any length. */
  lemma PassIsRight(c: Calendar, log: seq<Reading>, z: set<int>, T: int, s: Tables, ts: int)
    requires c.Valid() && LogWithin(c, log, ts) && c.origin <= T <= ts && KeysHaveReadings(c.hour, log, z)
    requires Rolled(c, log, z, T, s)
    ensures var z' := Zeroing(c, log, z, s, ts);
            && Rolled(c, log, z', ts, Pass(c, s, ts))
            && KeysHaveReadings(c.hour, log, z') && ZeroedGrows(c, log, z, z', T, ts)
  {
    hide RollHours, RollDays, RollMonths, Prune, Zeroing, AfterPruned, KeysHaveReadings;
    hide IsRawTable, HourTable, DayTable, MonthTable, Edge, Calendar.Valid, Tiling.Valid;
    var z' := Zeroing(c, log, z, s, ts);
    RollHoursIsRight(c, log, z, T, s, ts);
    NewcomersHaveReadings(c, log, z, z', T, ts);
    var s1 := RollHours(c, s, ts);
    RollDaysIsRight(c, log, z, z', T, s1, ts);
    var s2 := RollDays(c, s1, ts);
    RollMonthsIsRight(c, log, z, z', T, s2, ts);
    PruneIsRight(c, log, z', T, RollMonths(c, s2, ts), ts);
  }

  lemma RowsOfExtension(c: Calendar, log: seq<Reading>, z: set<int>, r: Reading, t: int)
    requires c.Valid() && Chronological(log + [r]) && t <= r.t
    ensures Chronological(log)
    ensures forall h :: c.hour.Is(h) && h < c.hour.start(t) ==> HourSpec(c, log + [r], z, h) == HourSpec(c, log, z, h)
    ensures forall d :: c.day.Is(d) && d < c.day.start(t) ==> DaySpec(c, log + [r], z, d) == DaySpec(c, log, z, d)
    ensures forall m :: c.month.Is(m) && m < c.month.start(t) ==> MonthSpec(c, log + [r], z, m) == MonthSpec(c, log, z, m)
  {
    hide YieldSum, YieldAt, CumAt, Calendar.Valid, Tiling.Valid;
    c.Parts();
    CountOfExtension(log, r, r.t);
    c.hour.Monotone(t, r.t);
    NestedStart(c.hour, c.day, t);
    NestedStart(c.day, c.month, t);
    forall h | c.hour.Is(h) && h < c.hour.start(t)
      ensures HourSpec(c, log + [r], z, h) == HourSpec(c, log, z, h)
    {
      YieldOfExtension(c, log, z, r, h);
    }
    forall d | c.day.Is(d) && d < c.day.start(t)
      ensures DaySpec(c, log + [r], z, d) == DaySpec(c, log, z, d)
    {
      c.day.StartOf(t);
      c.day.NextIsFirst(d, c.day.start(t));
      SumOfExtension(c, log, z, r, d, c.day.next(d));
      SumOfExtension(c, log, z, r, c.month.start(d), c.day.next(d));
    }
    forall m | c.month.Is(m) && m < c.month.start(t)
      ensures MonthSpec(c, log + [r], z, m) == MonthSpec(c, log, z, m)
    {
      c.month.StartOf(t);
      c.month.NextIsFirst(m, c.month.start(t));
      SumOfExtension(c, log, z, r, m, c.month.next(m));
      SumOfExtension(c, log, z, r, c.year.start(m), c.month.next(m));
    }
  }

  lemma TilesOfExtension(tl: Tiling, log: seq<Reading>, r: Reading, lo: int, t: int)
    requires tl.Valid() && t <= r.t
    ensures Tiles(tl, log + [r], lo, tl.start(t)) == Tiles(tl, log, lo, tl.start(t))
    ensures forall b :: b in Tiles(tl, log, lo, tl.start(t)) ==> tl.Is(b)
  {
    hide Tiling.Valid;
    tl.Monotone(t, r.t);
    var whole := log + [r];
    assert forall i :: 0 <= i < |log| ==> whole[i] == log[i];
    forall b | b in Tiles(tl, log, lo, tl.start(t))
      ensures b in Tiles(tl, whole, lo, tl.start(t)) && tl.Is(b)
    {
      var i :| 0 <= i < |log| && tl.start(log[i].t) == b;
      assert whole[i] == log[i];
      tl.StartOf(log[i].t);
    }
    forall b | b in Tiles(tl, whole, lo, tl.start(t))
      ensures b in Tiles(tl, log, lo, tl.start(t))
    {
      var i :| 0 <= i < |whole| && tl.start(whole[i].t) == b;
      assert i < |log|;
    }
  }

  lemma HoursOfExtension(c: Calendar, log: seq<Reading>, z: set<int>, r: Reading, lo: int, T: int)
    requires c.Valid() && Chronological(log + [r]) && Chronological(log) && T <= r.t
    ensures HourTable(c, log + [r], z, lo, c.hour.start(T)) == HourTable(c, log, z, lo, c.hour.start(T))
  {
    hide HourSpec, DaySpec, MonthSpec, Calendar.Valid, Tiling.Valid;
    c.Parts();
    RowsOfExtension(c, log, z, r, T);
    TilesOfExtension(c.hour, log, r, lo, T);
  }

  lemma DaysOfExtension(c: Calendar, log: seq<Reading>, z: set<int>, r: Reading, lo: int, T: int)
    requires c.Valid() && Chronological(log + [r]) && Chronological(log) && T <= r.t
    ensures DayTable(c, log + [r], z, lo, c.day.start(T)) == DayTable(c, log, z, lo, c.day.start(T))
  {
    hide HourSpec, DaySpec, MonthSpec, Calendar.Valid, Tiling.Valid;
    c.Parts();
    RowsOfExtension(c, log, z, r, T);
    TilesOfExtension(c.day, log, r, lo, T);
  }

  lemma MonthsOfExtension(c: Calendar, log: seq<Reading>, z: set<int>, r: Reading, lo: int, T: int)
    requires c.Valid() && Chronological(log + [r]) && Chronological(log) && T <= r.t
    ensures MonthTable(c, log + [r], z, lo, c.month.start(T)) == MonthTable(c, log, z, lo, c.month.start(T))
  {
    hide HourSpec, DaySpec, MonthSpec, Calendar.Valid, Tiling.Valid;
    c.Parts();
    RowsOfExtension(c, log, z, r, T);
    TilesOfExtension(c.month, log, r, lo, T);
  }

  /** A reading that arrives after a pass leaves every closed row as it was. */
  lemma RecordIsRight(c: Calendar, log: seq<Reading>, z: set<int>, T: int, s: Tables, r: Reading)
    requires c.Valid() && Chronological(log + [r]) && T <= r.t
    requires Chronological(log) && Rolled(c, log, z, T, s)
    ensures Rolled(c, log + [r], z, T, s.(raw := s.raw[r.t := r.cum]))
  {
    hide HourTable, DayTable, MonthTable, IsRawTable, Calendar.Valid, Tiling.Valid;
    HoursOfExtension(c, log, z, r, c.hourCut(T), T);
    DaysOfExtension(c, log, z, r, c.dayCut(T), T);
    MonthsOfExtension(c, log, z, r, c.month.start(c.origin), T);
    RawOfExtension(log, r, s.raw, T - RAW_BUFFER_SECONDS);
  }

  lemma RawOfExtension(log: seq<Reading>, r: Reading, raw: map<int, Amount>, cut: int)
    requires Chronological(log + [r]) && IsRawTable(raw, log, cut) && cut <= r.t
    ensures IsRawTable(raw[r.t := r.cum], log + [r], cut)
  {
    var whole := log + [r];
    assert forall i :: 0 <= i < |log| ==> whole[i] == log[i];
    assert whole[|log|] == r;
    forall t | t in raw
      ensures exists i :: 0 <= i < |whole| && whole[i].t == t
    {
      var i :| 0 <= i < |log| && log[i].t == t;
      assert whole[i].t == t;
    }
  }

  // ---------------------------------------------------------------- whole runs

  /** How the stored cumulatives relate: each continues the one before it, or starts afresh on another
      local day or after a silence longer than the raw buffer. */
  ghost predicate Chained(c: Calendar, log: seq<Reading>) {
    forall i :: 0 <= i < |log| ==>
      if log[i].reset then
        && log[i].cum == log[i].inc
        && (i > 0 ==> c.day.start(log[i - 1].t) != c.day.start(log[i].t)
                      || log[i - 1].t + RAW_BUFFER_SECONDS < log[i].t)
      else
        && i > 0
        && log[i].cum == log[i - 1].cum.Plus(log[i].inc)
        && c.day.start(log[i - 1].t) == c.day.start(log[i].t)
  }

  /** An hour measured against zero is rolled up, and the cumulative starts afresh in it. */
  ghost predicate ZeroedRight(c: Calendar, log: seq<Reading>, z: set<int>, T: int) {
    forall h :: h in z ==>
      c.hour.Is(h) && h < c.hour.start(T) && HasReading(c.hour, log, h) && ResetIn(log, h, h + HOUR_SECONDS)
  }

  ghost predicate WorldIsRight(c: Calendar, w: World) {
    && LogWithin(c, w.log, w.now)
    && Chained(c, w.log)
    && c.origin <= w.lastPass <= w.now
    && Rolled(c, w.log, w.zeroed, w.lastPass, w.s)
    && ZeroedRight(c, w.log, w.zeroed, w.lastPass)
  }

  /** The first reading after a pruned row lies on another day than the last one before, so it starts afresh. */
  lemma ResetAfterPruned(c: Calendar, log: seq<Reading>, T: int, h: int)
    requires c.Valid() && Chronological(log) && Chained(c, log) && AfterPruned(c, log, T, h)
    ensures c.hour.Is(h) && HasReading(c.hour, log, h) && ResetIn(log, h, h + HOUR_SECONDS)
  {
    hide CountBefore, Calendar.Valid, Tiling.Valid;
    c.Parts();
    CutIsDay(c, T);
    var k :| 0 <= k < |log| && T - RAW_BUFFER_SECONDS <= log[k].t && c.hour.start(log[k].t) == h;
    var n, cut := CountBefore(log, h), c.hourCut(T);
    c.hour.StartOf(log[k].t);
    c.HourLength(h);
    c.hour.StartOf(log[n - 1].t);
    c.hour.NextIsFirst(c.hour.start(log[n - 1].t), cut);
    c.day.StartOf(log[n - 1].t);
    c.day.StartIsLast(cut, log[n].t);
    assert n <= k && h <= log[n].t <= log[k].t;
    assert c.day.start(log[n - 1].t) < cut <= c.day.start(log[n].t);
  }

  lemma ZeroedStaysRight(c: Calendar, log: seq<Reading>, z: set<int>, z': set<int>, T: int, ts: int)
    requires c.Valid() && Chronological(log) && Chained(c, log) && T <= ts
    requires ZeroedRight(c, log, z, T) && ZeroedGrows(c, log, z, z', T, ts)
    ensures ZeroedRight(c, log, z', ts)
  {
    hide Chained, Edge, AfterPruned, HasReading, ResetIn, Calendar.Valid, Tiling.Valid;
    c.Parts();
    c.hour.Monotone(T, ts);
    forall h | h in z'
      ensures c.hour.Is(h) && h < c.hour.start(ts) && HasReading(c.hour, log, h) && ResetIn(log, h, h + HOUR_SECONDS)
    {
      if h !in z {
        ResetAfterPruned(c, log, T, h);
      }
    }
  }

  lemma ZeroedOfExtension(c: Calendar, log: seq<Reading>, r: Reading, z: set<int>, T: int)
    requires ZeroedRight(c, log, z, T)
    ensures ZeroedRight(c, log + [r], z, T)
  {
    var whole := log + [r];
    assert forall i :: 0 <= i < |log| ==> whole[i] == log[i];
    forall h | h in z
      ensures HasReading(c.hour, whole, h) && ResetIn(whole, h, h + HOUR_SECONDS)
    {
      var i :| 0 <= i < |log| && c.hour.start(log[i].t) == h;
      assert whole[i] == log[i];
      var j :| 0 <= j < |log| && h <= log[j].t < h + HOUR_SECONDS && log[j].reset;
      assert whole[j] == log[j];
    }
  }

  lemma ZeroedHaveReadings(c: Calendar, log: seq<Reading>, z: set<int>, T: int)
    requires ZeroedRight(c, log, z, T)
    ensures KeysHaveReadings(c.hour, log, z)
  {
    hide HasReading, ResetIn;
  }

  /** With no silence too long, no hour is ever measured against zero for want of a row. */
  lemma NothingZeroed(c: Calendar, log: seq<Reading>, z': set<int>, T: int, ts: int)
    requires c.Valid() && Chronological(log) && NoLongSilence(c, log) && ZeroedGrows(c, log, {}, z', T, ts)
    ensures z' == {}
  {
    hide PeriodBefore, ReadingFrom, NoLongSilence, Edge, Calendar.Valid;
    forall h | h in z'
      ensures false
    {
      assert AfterPruned(c, log, T, h);
      PreviousHourKept(c, log, T, h);
    }
  }

  /** The raw row a new reading is compared with is the last accepted one, if it is still there. */
  lemma LastRaw(log: seq<Reading>, raw: map<int, Amount>, cut: int)
    requires Chronological(log) && IsRawTable(raw, log, cut)
    ensures var p := MaxOf(raw.Keys);
            && (p.None? ==> log == [] || log[|log| - 1].t < cut)
            && (p.Some? ==> log != [] && p.value == log[|log| - 1].t && raw[p.value] == log[|log| - 1].cum)
  {
    hide MaxOf;
    var p := MaxOf(raw.Keys);
    if log != [] {
      var last := log[|log| - 1];
      if cut <= last.t {
        assert last.t in raw.Keys;
      }
    }
    if p.Some? {
      var i :| 0 <= i < |log| && log[i].t == p.value;
      assert i == |log| - 1;
    }
  }

  lemma ArrivalExtendsLog(c: Calendar, w: World, ts: int, delta: int)
    requires WorldIsRight(c, w) && w.now <= ts
    ensures var r := Stored(c, w.s, ts, delta);
            r.Some? ==> r.value.t == ts && Chained(c, w.log + [r.value]) && Chronological(w.log + [r.value])
  {
    hide MaxOf, HourTable, DayTable, MonthTable;
    LastRaw(w.log, w.s.raw, w.lastPass - RAW_BUFFER_SECONDS);
    var r := Stored(c, w.s, ts, delta);
    if r.Some? {
      var last := |w.log| - 1;
      assert last >= 0 ==> w.log[last].t < ts;
      ChainedWith(c, w.log, r.value);
    }
  }

  lemma ChainedWith(c: Calendar, log: seq<Reading>, r: Reading)
    requires Chronological(log) && Chained(c, log)
    requires log != [] ==> log[|log| - 1].t < r.t
    requires var n := |log|;
             if r.reset then
               && r.cum == r.inc
               && (n > 0 ==> c.day.start(log[n - 1].t) != c.day.start(r.t)
                             || log[n - 1].t + RAW_BUFFER_SECONDS < r.t)
             else
               n > 0 && r.cum == log[n - 1].cum.Plus(r.inc) && c.day.start(log[n - 1].t) == c.day.start(r.t)
    ensures Chained(c, log + [r]) && Chronological(log + [r])
  {
    var whole := log + [r];
    assert forall i :: 0 <= i < |log| ==> whole[i] == log[i];
    assert whole[|log|] == r;
  }

  lemma StepIsRight(c: Calendar, w: World, e: Event)
    requires c.Valid() && WorldIsRight(c, w) && w.now <= e.ts
    ensures WorldIsRight(c, Step(c, w, e))
    ensures NoLongSilence(c, w.log) && w.zeroed == {} ==> Step(c, w, e).zeroed == {}
  {
    hide Rolled, Chained, Stored, Pass, Zeroing, ZeroedRight, ZeroedGrows, NoLongSilence, Calendar.Valid, Tiling.Valid;
    match e
    case Arrive(ts, delta) =>
      ArrivalExtendsLog(c, w, ts, delta);
      var r := Stored(c, w.s, ts, delta);
      if r.Some? {
        RecordIsRight(c, w.log, w.zeroed, w.lastPass, w.s, r.value);
        ZeroedOfExtension(c, w.log, r.value, w.zeroed, w.lastPass);
      }
    case Roll(ts) =>
      ZeroedHaveReadings(c, w.log, w.zeroed, w.lastPass);
      PassIsRight(c, w.log, w.zeroed, w.lastPass, w.s, ts);
      var z' := Zeroing(c, w.log, w.zeroed, w.s, ts);
      ZeroedStaysRight(c, w.log, w.zeroed, z', w.lastPass, ts);
      if NoLongSilence(c, w.log) && w.zeroed == {} {
        NothingZeroed(c, w.log, z', w.lastPass, ts);
      }
  }

  lemma LogGrows(c: Calendar, w: World, e: Event)
    ensures w.log <= Step(c, w, e).log
    ensures Step(c, w, e).now == e.ts
  {
    hide Pass, Stored;
  }

  lemma SilenceOfPrefix(c: Calendar, log: seq<Reading>, whole: seq<Reading>)
    requires log <= whole && NoLongSilence(c, whole)
    ensures NoLongSilence(c, log)
  {
    forall i | 0 < i < |log|
      ensures c.hourCut(log[i].t + 3 * HOUR_SECONDS) <= c.hour.start(log[i - 1].t)
    {
      assert log[i] == whole[i] && log[i - 1] == whole[i - 1];
    }
  }

  lemma StartIsRight(c: Calendar)
    requires c.Valid()
    ensures WorldIsRight(c, Start(c))
  {
    hide Calendar.Valid, Tiling.Valid;
  }

  /** Whatever the interleaving of readings, passes, failed passes and restarts, and however long the silences, the
      tables hold what the accepted readings say, as of the last pass. */
  lemma {:induction false} RunIsRight(c: Calendar, events: seq<Event>)
    requires c.Valid() && InOrder(events, c.origin)
    ensures WorldIsRight(c, Run(c, Start(c), events))
    ensures events != [] ==> Run(c, Start(c), events).now == events[|events| - 1].ts
  {
    hide WorldIsRight, Step, Start, Calendar.Valid;
    if events == [] {
      StartIsRight(c);
    } else {
      var n := |events| - 1;
      var w := Run(c, Start(c), events[..n]);
      LogGrows(c, w, events[n]);
      RunIsRight(c, events[..n]);
      StartsAtOrigin(c);
      StepIsRight(c, w, events[n]);
    }
  }

  /** With no silence too long, every hour of a run is measured against the cumulative before it. */
  lemma {:induction false} NothingZeroedInRun(c: Calendar, events: seq<Event>)
    requires c.Valid() && InOrder(events, c.origin) && NoLongSilence(c, Run(c, Start(c), events).log)
    ensures Run(c, Start(c), events).zeroed == {}
  {
    hide WorldIsRight, Step, NoLongSilence, Calendar.Valid;
    if events != [] {
      var n := |events| - 1;
      var w := Run(c, Start(c), events[..n]);
      LogGrows(c, w, events[n]);
      SilenceOfPrefix(c, w.log, Run(c, Start(c), events).log);
      NothingZeroedInRun(c, events[..n]);
      RunIsRight(c, events[..n]);
      StepIsRight(c, w, events[n]);
    }
  }

  lemma StartsAtOrigin(c: Calendar)
    ensures Start(c).now == c.origin
  {}
}
