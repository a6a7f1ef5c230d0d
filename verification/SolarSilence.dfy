/** What the condition on silences means, and exactly what a longer silence changes. */
module SolarSilence {
  import opened Calendar
  import opened PlainCalendar
  import opened Maxima
  import opened Queries
  import opened SolarModel
  import opened SolarLog
  import opened SolarRoll
  import opened SolarPass
  import opened SolarDays
  import opened SolarRuns
  import opened SolarTheorems

  /** Readings never further apart than the hourly retention less four hours meet the condition. */
  lemma ShortSilencesAreKept(c: Calendar, log: seq<Reading>, retention: int)
    requires c.Valid() && Chronological(log)
    requires forall t :: c.hourCut(t) <= t - retention
    requires forall i :: 0 < i < |log| ==> log[i].t - log[i - 1].t <= retention - 4 * HOUR_SECONDS
    ensures NoLongSilence(c, log)
  {
    hide Tiling.Valid;
    c.Parts();
    forall i | 0 < i < |log|
      ensures c.hourCut(log[i].t + 3 * HOUR_SECONDS) <= c.hour.start(log[i - 1].t)
    {
      var h := c.hour.start(log[i - 1].t);
      c.hour.StartOf(log[i - 1].t);
      c.HourLength(h);
      assert c.hourCut(log[i].t + 3 * HOUR_SECONDS) <= log[i].t + 3 * HOUR_SECONDS - retention;
    }
  }

  // ---------------------------------------------------------------- what a pruned row changes

  /** The cumulative before the hour would have taken nothing away from the hour. */
  ghost predicate NothingToTake(log: seq<Reading>, h: int)
    requires Chronological(log)
  {
    Smaller(CumAt(log, h), CumAt(log, h + HOUR_SECONDS)) == ZERO
  }

  lemma YieldAgainstZero(c: Calendar, log: seq<Reading>, z: set<int>, h: int)
    requires Chronological(log) && Chained(c, log) && NonNegative(log)
    ensures AtMost(YieldAt(c, log, {}, h), YieldAt(c, log, z, h))
    ensures YieldAt(c, log, {}, h) == YieldAt(c, log, z, h) <==> (c.hour.Is(h) && h in z ==> NothingToTake(log, h))
  {
    hide CumAt, Chained, NonNegative;
    CumNotNegative(c, log, h);
    CumNotNegative(c, log, h + HOUR_SECONDS);
  }

  lemma {:induction false} SumAgainstZero(c: Calendar, log: seq<Reading>, z: set<int>, lo: int, hi: int)
    requires Chronological(log) && Chained(c, log) && NonNegative(log)
    ensures AtMost(YieldSum(c, log, {}, lo, hi), YieldSum(c, log, z, lo, hi))
    decreases hi - lo
  {
    hide YieldAt, Chained, NonNegative;
    if lo < hi {
      SumAgainstZero(c, log, z, lo, hi - 1);
      YieldAgainstZero(c, log, z, hi - 1);
    }
  }

  /** Equal sums have equal parts: nothing another hour shows can make up for what one hour does not. */
  lemma PartsOfEqualSums(c: Calendar, log: seq<Reading>, z: set<int>, lo: int, hi: int, h: int)
    requires Chronological(log) && Chained(c, log) && NonNegative(log) && lo <= h < hi
    requires YieldSum(c, log, {}, lo, hi) == YieldSum(c, log, z, lo, hi)
    ensures YieldAt(c, log, {}, h) == YieldAt(c, log, z, h)
  {
    hide YieldAt, YieldSum, Chained, NonNegative;
    SumAgainstZero(c, log, z, lo, h);
    YieldAgainstZero(c, log, z, h);
    SumAgainstZero(c, log, z, h + 1, hi);
    SplitAround(c, log, {}, lo, hi, h);
    SplitAround(c, log, z, lo, hi, h);
  }

  lemma SplitAround(c: Calendar, log: seq<Reading>, z: set<int>, lo: int, hi: int, h: int)
    requires Chronological(log) && lo <= h < hi
    ensures YieldSum(c, log, z, lo, hi)
         == YieldSum(c, log, z, lo, h).Plus(YieldAt(c, log, z, h)).Plus(YieldSum(c, log, z, h + 1, hi))
  {
    hide YieldAt, Chronological;
    SumSplits(c, log, z, lo, h + 1, hi);
  }

  lemma {:induction false} EqualPartsEqualSums(c: Calendar, log: seq<Reading>, z: set<int>, lo: int, hi: int)
    requires Chronological(log) && forall h :: YieldAt(c, log, {}, h) == YieldAt(c, log, z, h)
    ensures YieldSum(c, log, {}, lo, hi) == YieldSum(c, log, z, lo, hi)
    decreases hi - lo
  {
    hide YieldAt, Chronological;
    if lo < hi {
      EqualPartsEqualSums(c, log, z, lo, hi - 1);
    }
  }

  // ---------------------------------------------------------------- every hour shows in some row

  /** Tables that hold the same rows show the same yield of an hour still kept by hours, */
  lemma ShownByHour(c: Calendar, log: seq<Reading>, z: set<int>, T: int, h: int)
    requires Chronological(log) && HasReading(c.hour, log, h) && c.hourCut(T) <= h < c.hour.start(T)
    requires HourTable(c, log, {}, c.hourCut(T), c.hour.start(T)) == HourTable(c, log, z, c.hourCut(T), c.hour.start(T))
    ensures YieldAt(c, log, {}, h) == YieldAt(c, log, z, h)
  {
    hide YieldAt, CumAt;
    var i :| 0 <= i < |log| && c.hour.start(log[i].t) == h;
    assert HourTable(c, log, {}, c.hourCut(T), c.hour.start(T))[h] == HourSpec(c, log, {}, h);
    assert HourTable(c, log, z, c.hourCut(T), c.hour.start(T))[h] == HourSpec(c, log, z, h);
  }

  /** of an hour still kept by days, */
  lemma ShownByDay(c: Calendar, log: seq<Reading>, z: set<int>, T: int, h: int)
    requires c.Valid() && Chronological(log) && Chained(c, log) && NonNegative(log)
    requires HasReading(c.hour, log, h) && h < c.hourCut(T) && c.dayCut(T) <= c.day.start(h)
    requires DayTable(c, log, {}, c.dayCut(T), c.day.start(T)) == DayTable(c, log, z, c.dayCut(T), c.day.start(T))
    ensures YieldAt(c, log, {}, h) == YieldAt(c, log, z, h)
  {
    hide YieldAt, YieldSum, Chained, NonNegative, Calendar.Valid, Tiling.Valid;
    c.Parts();
    CutIsDay(c, T);
    var i :| 0 <= i < |log| && c.hour.start(log[i].t) == h;
    NestedStart(c.hour, c.day, log[i].t);
    var d := c.day.start(h);
    c.day.StartOf(h);
    c.month.StartOf(d);
    c.day.StartIsLast(c.hourCut(T), T);
    assert d == c.day.start(log[i].t);
    assert DayTable(c, log, {}, c.dayCut(T), c.day.start(T))[d] == DaySpec(c, log, {}, d);
    assert DayTable(c, log, z, c.dayCut(T), c.day.start(T))[d] == DaySpec(c, log, z, d);
    PartsOfEqualSums(c, log, z, c.month.start(d), c.day.next(d), h);
  }

  /** and of any hour before. */
  lemma ShownByMonth(c: Calendar, log: seq<Reading>, z: set<int>, T: int, h: int)
    requires c.Valid() && LogWithin(c, log, T) && Chained(c, log) && NonNegative(log)
    requires HasReading(c.hour, log, h) && c.day.start(h) < c.dayCut(T)
    requires MonthTable(c, log, {}, c.month.start(c.origin), c.month.start(T))
          == MonthTable(c, log, z, c.month.start(c.origin), c.month.start(T))
    ensures YieldAt(c, log, {}, h) == YieldAt(c, log, z, h)
  {
    hide YieldAt, YieldSum, Chained, NonNegative, Calendar.Valid, Tiling.Valid;
    c.Parts();
    CutIsDay(c, T);
    var i :| 0 <= i < |log| && c.hour.start(log[i].t) == h;
    NestedStart(c.hour, c.day, log[i].t);
    NestedStart(c.day, c.month, log[i].t);
    NestedStart(c.day, c.month, h);
    c.day.StartOf(h);
    var m := c.month.start(h);
    c.month.StartOf(h);
    c.year.StartOf(m);
    c.month.StartIsLast(c.dayCut(T), T);
    c.month.Monotone(c.origin, log[i].t);
    assert m == c.month.start(log[i].t);
    assert MonthTable(c, log, {}, c.month.start(c.origin), c.month.start(T))[m] == MonthSpec(c, log, {}, m);
    assert MonthTable(c, log, z, c.month.start(c.origin), c.month.start(T))[m] == MonthSpec(c, log, z, m);
    PartsOfEqualSums(c, log, z, c.year.start(m), c.month.next(m), h);
  }

  lemma EqualTablesEqualParts(c: Calendar, log: seq<Reading>, z: set<int>, T: int, s: Tables, h: int)
    requires c.Valid() && LogWithin(c, log, T) && Chained(c, log) && NonNegative(log)
    requires Rolled(c, log, {}, T, s) && Rolled(c, log, z, T, s)
    requires HasReading(c.hour, log, h) && h < c.hour.start(T)
    ensures YieldAt(c, log, {}, h) == YieldAt(c, log, z, h)
  {
    hide YieldAt, HourTable, DayTable, MonthTable, HasReading, Chained, NonNegative, Calendar.Valid, Tiling.Valid;
    if c.hourCut(T) <= h {
      ShownByHour(c, log, z, T, h);
    } else if c.dayCut(T) <= c.day.start(h) {
      ShownByDay(c, log, z, T, h);
    } else {
      ShownByMonth(c, log, z, T, h);
    }
  }

  lemma EqualPartsEqualTables(c: Calendar, log: seq<Reading>, z: set<int>, T: int, s: Tables)
    requires Chronological(log) && Rolled(c, log, z, T, s)
    requires forall h :: YieldAt(c, log, {}, h) == YieldAt(c, log, z, h)
    ensures Rolled(c, log, {}, T, s)
  {
    hide YieldAt, HourSpec, DaySpec, MonthSpec, Tiles, IsRawTable, Chronological;
    EqualPartsEqualRows(c, log, z);
  }

  lemma EqualPartsEqualRows(c: Calendar, log: seq<Reading>, z: set<int>)
    requires Chronological(log) && forall h :: YieldAt(c, log, {}, h) == YieldAt(c, log, z, h)
    ensures forall h :: HourSpec(c, log, {}, h) == HourSpec(c, log, z, h)
    ensures forall d :: DaySpec(c, log, {}, d) == DaySpec(c, log, z, d)
    ensures forall m :: MonthSpec(c, log, {}, m) == MonthSpec(c, log, z, m)
  {
    hide YieldAt, YieldSum, CumAt, Chronological;
    forall h ensures HourSpec(c, log, {}, h) == HourSpec(c, log, z, h) {}
    forall d ensures DaySpec(c, log, {}, d) == DaySpec(c, log, z, d) {
      EqualPartsEqualSums(c, log, z, d, c.day.next(d));
      EqualPartsEqualSums(c, log, z, c.month.start(d), c.day.next(d));
    }
    forall m ensures MonthSpec(c, log, {}, m) == MonthSpec(c, log, z, m) {
      EqualPartsEqualSums(c, log, z, m, c.month.next(m));
      EqualPartsEqualSums(c, log, z, c.year.start(m), c.month.next(m));
    }
  }

  // ---------------------------------------------------------------- the exact condition

  /** For runs with silences of any length: the tables after a pass are the batch's exactly if, at each hour measured
      against zero because the row before it had been pruned, the pruned cumulative would have taken nothing away. */
  lemma BatchIffNothingToTake(c: Calendar, events: seq<Event>)
    requires c.Valid() && InOrder(events, c.origin) && NoNegativeDeltas(events) && EndsInPass(events)
    ensures var w := Run(c, Start(c), events);
            && Chronological(w.log)
            && (w.s == Batch(c, w.log, w.now) <==> forall h :: h in w.zeroed ==> NothingToTake(w.log, h))
  {
    hide WorldIsRight, Run, Start, Batch, Rolled, Chained, NonNegative, YieldAt, HasReading, ResetIn, NothingToTake;
    hide Calendar.Valid, Tiling.Valid;
    var w := Run(c, Start(c), events);
    RunIsRight(c, events);
    RunIsNonNegative(c, events);
    LastEventIsPass(c, events);
    EndsRight(c, w);
    BatchIsRight(c, w.log, w.now);
    if w.s == Batch(c, w.log, w.now) {
      forall h | h in w.zeroed
        ensures NothingToTake(w.log, h)
      {
        EqualTablesEqualParts(c, w.log, w.zeroed, w.now, w.s, h);
        YieldAgainstZero(c, w.log, w.zeroed, h);
      }
    } else if forall h :: h in w.zeroed ==> NothingToTake(w.log, h) {
      forall h
        ensures YieldAt(c, w.log, {}, h) == YieldAt(c, w.log, w.zeroed, h)
      {
        YieldAgainstZero(c, w.log, w.zeroed, h);
      }
      EqualPartsEqualTables(c, w.log, w.zeroed, w.now, w.s);
      RolledIsUnique(c, w.log, {}, w.now, w.s, Batch(c, w.log, w.now));
      assert false;
    }
  }

  // ---------------------------------------------------------------- a run that fails it

  /** Two telemetry messages with a silence between them, and a pass after the hour of the second. */
  function LongSilence(t0: int, d0: int, t1: int, d1: int): seq<Event> {
    [Arrive(t0, d0), Roll(t0), Arrive(t1, d1), Roll(t1), Roll(t1 + HOUR_SECONDS)]
  }

  lemma RunByStep(c: Calendar, w: World, events: seq<Event>, e: Event)
    ensures Run(c, w, events + [e]) == Step(c, Run(c, w, events), e)
  {
    hide Step;
    assert (events + [e])[..|events|] == events;
  }

  lemma FirstReading(c: Calendar, t0: int, d0: int)
    requires c.Valid() && c.origin <= t0
    ensures var w := Run(c, Start(c), [Arrive(t0, d0), Roll(t0)]);
            && WorldIsRight(c, w) && w.now == w.lastPass == t0
            && w.log == [Reading(t0, Increment(d0), Increment(d0), true)]
  {
    hide WorldIsRight, Pass, Zeroing, MaxOf, Calendar.Valid;
    var e := [Arrive(t0, d0), Roll(t0)];
    RunIsRight(c, e);
    assert MaxOf(EMPTY.raw.Keys).None?;
    RunByStep(c, Start(c), [], e[0]);
    RunByStep(c, Start(c), [e[0]], e[1]);
    assert [] + [e[0]] == [e[0]] && [e[0]] + [e[1]] == e;
  }

  lemma SecondReading(c: Calendar, t0: int, d0: int, t1: int, d1: int)
    requires c.Valid() && c.origin <= t0 && t0 < c.hourCut(t1)
    ensures var w := Run(c, Start(c), LongSilence(t0, d0, t1, d1)[..4]);
            && WorldIsRight(c, w) && w.now == w.lastPass == t1
            && w.log == [Reading(t0, Increment(d0), Increment(d0), true), Reading(t1, Increment(d1), Increment(d1), true)]
  {
    hide WorldIsRight, Pass, Zeroing, MaxOf, Rolled, Run, Chained, Calendar.Valid, Tiling.Valid;
    c.Parts();
    CutIsDay(c, t1);
    var e := LongSilence(t0, d0, t1, d1);
    var w := Run(c, Start(c), e[..2]);
    assert e[..2] == [Arrive(t0, d0), Roll(t0)];
    FirstReading(c, t0, d0);
    RightParts(c, w);
    LastRaw(w.log, w.s.raw, w.lastPass - RAW_BUFFER_SECONDS);
    c.day.StartOf(t0);
    c.day.StartIsLast(c.hourCut(t1), t1);
    Apart(c, t0, t1);
    assert e[..4] == e[..2] + [e[2]] + [e[3]];
    RunByStep(c, Start(c), e[..2], e[2]);
    RunByStep(c, Start(c), e[..2] + [e[2]], e[3]);
    StepIsRight(c, w, e[2]);
    StepIsRight(c, Step(c, w, e[2]), e[3]);
  }

  lemma Apart(c: Calendar, t0: int, t1: int)
    requires c.Valid() && t0 < c.hourCut(t1)
    ensures t0 + 3 * HOUR_SECONDS <= t1
  {
    hide Tiling.Valid, Nested;
  }

  lemma RightParts(c: Calendar, w: World)
    requires WorldIsRight(c, w)
    ensures Chronological(w.log) && IsRawTable(w.s.raw, w.log, w.lastPass - RAW_BUFFER_SECONDS)
    ensures w.s.hourly == HourTable(c, w.log, w.zeroed, c.hourCut(w.lastPass), c.hour.start(w.lastPass))
  {
    hide Chained, ZeroedRight, DayTable, MonthTable, IsRawTable;
  }

  /** Rows kept at t1, and hours visited after it, do not lie before the hour of t1. */
  lemma NothingBefore(c: Calendar, log: seq<Reading>, t1: int, keys: set<int>, hs: seq<int>)
    requires c.Valid() && Chronological(log) && |log| == 2 && log[0].t < c.hourCut(t1) && log[1].t == t1
    requires keys == Tiles(c.hour, log, c.hourCut(t1), c.hour.start(t1))
    requires forall k :: k in hs ==> ReadingFrom(c.hour, log, t1 - RAW_BUFFER_SECONDS, k) && c.hourCut(t1) <= k
    ensures forall k :: k in keys + Items(hs) ==> c.hour.start(t1) <= k
  {
    hide Tiling.Valid, Calendar.Valid;
    c.Parts();
    c.hour.StartOf(log[0].t);
    forall k | k in keys + Items(hs)
      ensures c.hour.start(t1) <= k
    {
      assert HasReading(c.hour, log, k) && c.hourCut(t1) <= k by {
        if k in hs {
          assert ReadingFrom(c.hour, log, t1 - RAW_BUFFER_SECONDS, k);
        }
      }
      var i :| 0 <= i < |log| && c.hour.start(log[i].t) == k;
      assert i == 1;
    }
  }

  /** The last pass finds no row before the hour of the second message. */
  lemma SecondHourIsZeroed(c: Calendar, w: World, t1: int)
    requires c.Valid() && WorldIsRight(c, w) && w.now == w.lastPass == t1
    requires |w.log| == 2 && w.log[0].t < c.hourCut(t1) && w.log[1].t == t1
    ensures c.hour.start(t1) in Zeroing(c, w.log, w.zeroed, w.s, t1 + HOUR_SECONDS)
  {
    hide WorldIsRight, HourSpec, BucketsToRoll, LastBucket, Edge, Calendar.Valid, Tiling.Valid;
    c.Parts();
    var h, ts := c.hour.start(t1), t1 + HOUR_SECONDS;
    RightParts(c, w);
    EndsRight(c, w);
    var hs := BucketsToRoll(w.s.raw.Keys, LastBucket(w.s.hourly.Keys), c.hour.start(ts), c.hour.start);
    HoursToRoll(c, w.log, w.zeroed, t1, w.s, ts);
    EdgeIsLast(c, w.log, t1);
    c.hour.StartOf(t1);
    c.HourLength(h);
    c.hour.NextOf(h);
    c.hour.StartIsLast(c.hour.next(h), ts);
    c.hour.StartOf(w.log[0].t);
    CutIsDay(c, t1);
    Apart(c, w.log[0].t, t1);
    c.hour.StartIsLast(c.hourCut(t1), t1);
    NothingBefore(c, w.log, t1, w.s.hourly.Keys, hs);
    assert w.log[1].t < c.hour.start(ts) && h in hs;
    assert EarlierReading(w.log, h);
  }

  /** For every such silence that outlasts the retention, with energy on both sides of it, the incremental
      tables are not the batch's. */
  lemma LongSilenceBreaks(c: Calendar, t0: int, d0: int, t1: int, d1: int)
    requires c.Valid() && c.origin <= t0 && t0 < c.hourCut(t1) && d0 > 0 && d1 > 0
    ensures var w := Run(c, Start(c), LongSilence(t0, d0, t1, d1)); w.s != Batch(c, w.log, w.now)
  {
    hide WorldIsRight, Pass, Run, Zeroing, Calendar.Valid, Tiling.Valid;
    c.Parts();
    var e := LongSilence(t0, d0, t1, d1);
    var before, w, h := Run(c, Start(c), e[..4]), Run(c, Start(c), e), c.hour.start(t1);
    assert e == e[..4] + [e[4]];
    RunByStep(c, Start(c), e[..4], e[4]);
    SecondReading(c, t0, d0, t1, d1);
    SecondHourIsZeroed(c, before, t1);
    Apart(c, t0, t1);
    BatchIffNothingToTake(c, e);
    c.hour.StartOf(t1);
    c.HourLength(h);
    CountUnique(w.log, h, 1);
    CountUnique(w.log, h + HOUR_SECONDS, 2);
    assert h in w.zeroed && !NothingToTake(w.log, h);
  }

  /** Such runs exist: two months of silence under the plain calendar. */
  lemma TwoMonthsOfSilence()
    ensures var c := Plain();
            var w := Run(c, Start(c), LongSilence(0, 5, 62 * DAY, 5));
            c.Valid() && w.s != Batch(c, w.log, w.now)
  {
    ValidCalendarsExist();
    LongSilenceBreaks(Plain(), 0, 5, 62 * DAY, 5);
  }
}
