/** The monthly level of a pass: month rows are taken from the last day row of the month, year columns
    run within the year. */
module SolarMonths {
  import opened Calendar
  import opened Queries
  import opened SolarModel
  import opened SolarLog
  import opened SolarRoll
  import opened SolarPass
  import opened SolarDays

  /** The month rows before b are right. */
  ghost predicate MonthRowsRight(c: Calendar, log: seq<Reading>, z: set<int>, m: map<int, MonthRow>, b: int)
    requires Chronological(log)
  {
    KeysHaveReadings(c.month, log, m.Keys) && forall k :: k in m && k < b ==> m[k] == MonthSpec(c, log, z, k)
  }

  lemma MonthRowOf(c: Calendar, log: seq<Reading>, z: set<int>, m: map<int, MonthRow>, b: int, k: int)
    requires Chronological(log) && MonthRowsRight(c, log, z, m, b) && k in m && k < b
    ensures m[k].year == YieldSum(c, log, z, c.year.start(k), c.month.next(k))
  {
    hide YieldSum;
  }

  lemma KeysOfMonthRows(c: Calendar, log: seq<Reading>, z: set<int>, m: map<int, MonthRow>, b: int)
    requires Chronological(log) && MonthRowsRight(c, log, z, m, b)
    ensures KeysHaveReadings(c.month, log, m.Keys)
  {
    hide MonthSpec;
  }

  /** The year column of the row before, or zero at the start of a year. */
  lemma PreviousYearColumn(c: Calendar, log: seq<Reading>, z: set<int>, m: map<int, MonthRow>, k: int)
    requires c.Valid() && Chronological(log) && MonthRowsRight(c, log, z, m, k) && c.month.Is(k)
    requires KeysHaveReadings(c.hour, log, z)
    requires var p := SameRunBefore(c.month, c.year, log, k); p.Some? ==> p.value in m
    ensures YieldSum(c, log, z, c.year.start(k), k)
         == match LastBefore(m.Keys, k)
            case None => ZERO
            case Some(p) => if c.year.start(p) == c.year.start(k) then m[p].year else ZERO
  {
    hide YieldSum, SameRunBefore, LastBefore, MonthRowsRight, MonthSpec, Tiling.Valid;
    c.Parts();
    assert KeysHaveReadings(c.month, log, m.Keys) by { KeysOfMonthRows(c, log, z, m, k); }
    RunRow(c.month, c.year, log, m.Keys, k);
    RunBefore(c, c.month, c.year, log, z, k);
    var p := SameRunBefore(c.month, c.year, log, k);
    if p.Some? {
      SameRunStart(c.month, c.year, log, k);
      MonthRowOf(c, log, z, m, k, p.value);
    }
  }

  /** A month that lies wholly inside lo..hi and has a reading. */
  ghost predicate CompleteMonth(c: Calendar, log: seq<Reading>, lo: int, hi: int, m: int) {
    c.month.Is(m) && lo <= m && c.month.next(m) <= hi && HasReading(c.month, log, m)
  }

  lemma DayTableKeys(c: Calendar, log: seq<Reading>, z: set<int>, lo: int, hi: int)
    requires Chronological(log)
    ensures KeysHaveReadings(c.day, log, DayTable(c, log, z, lo, hi).Keys)
  {
    hide DaySpec;
  }

  lemma LastReadingOfMonth(c: Calendar, log: seq<Reading>, m: int)
    requires c.Valid() && Chronological(log) && c.month.Is(m) && HasReading(c.month, log, m)
    ensures var n := CountBefore(log, c.month.next(m));
            n > 0 && m <= log[n - 1].t < c.month.next(m) && c.month.start(log[n - 1].t) == m
  {
    hide CountBefore, Calendar.Valid, Tiling.Valid;
    c.Parts();
    var i :| 0 <= i < |log| && c.month.start(log[i].t) == m;
    c.month.StartOf(log[i].t);
    var n := CountBefore(log, c.month.next(m));
    assert m <= log[i].t <= log[n - 1].t;
    c.month.InTile(m, log[n - 1].t);
  }

  /** The day of the last reading of a complete month. */
  lemma LastDayWithReading(c: Calendar, log: seq<Reading>, lo: int, hi: int, m: int)
    requires c.Valid() && Chronological(log) && CompleteMonth(c, log, lo, hi, m) && c.day.Is(hi)
    ensures var p := PeriodBefore(c.day, log, c.month.next(m));
            && p.Some? && c.day.Is(p.value) && p.value in Tiles(c.day, log, lo, hi)
            && m <= p.value && c.month.start(p.value) == m && c.day.next(p.value) <= c.month.next(m)
            && (forall i :: 0 <= i < |log| ==> !(c.day.next(p.value) <= log[i].t < c.month.next(m)))
  {
    hide CountBefore, HasReading, Calendar.Valid, Tiling.Valid;
    c.Parts();
    var nm := c.month.next(m);
    c.month.NextOf(m);
    LastReadingOfMonth(c, log, m);
    var q := log[CountBefore(log, nm) - 1].t;
    NestedStart(c.day, c.month, q);
    c.day.StartOf(q);
    c.day.NextIsFirst(c.day.start(q), nm);
  }

  lemma LastRowOfMonth(c: Calendar, log: seq<Reading>, z: set<int>, t: map<int, DayRow>, lo: int, hi: int, m: int)
    requires c.Valid() && Chronological(log) && CompleteMonth(c, log, lo, hi, m) && c.day.Is(hi)
    requires t == DayTable(c, log, z, lo, hi)
    ensures LastIn(t.Keys, m, c.month.next(m)) == PeriodBefore(c.day, log, c.month.next(m))
  {
    hide CountBefore, LastIn, DaySpec, PeriodBefore, Calendar.Valid, Tiling.Valid;
    c.Parts();
    c.month.NextOf(m);
    DayTableKeys(c, log, z, lo, hi);
    LastDayWithReading(c, log, lo, hi, m);
    KeysBefore(c.day, log, t.Keys, c.month.next(m));
    var p := PeriodBefore(c.day, log, c.month.next(m));
    c.day.NextOf(p.value);
    assert p.value in t.Keys;
    var r := LastIn(t.Keys, m, c.month.next(m));
    assert p.value <= r.value <= p.value;
  }

  /** The last day row of a complete month carries the yield of the whole month. */
  lemma LastDayOfMonth(c: Calendar, log: seq<Reading>, z: set<int>, t: map<int, DayRow>, lo: int, hi: int, m: int)
    requires c.Valid() && Chronological(log) && CompleteMonth(c, log, lo, hi, m)
    requires t == DayTable(c, log, z, lo, hi) && c.day.Is(hi) && KeysHaveReadings(c.hour, log, z)
    ensures var r := LastIn(t.Keys, m, c.month.next(m));
            r.Some? && t[r.value].month == YieldSum(c, log, z, m, c.month.next(m))
  {
    hide LastIn, YieldSum, PeriodBefore, CompleteMonth, CountBefore, Tiles, KeysHaveReadings, Nested, Calendar.Valid, Tiling.Valid;
    c.Parts();
    var nm := c.month.next(m);
    LastDayWithReading(c, log, lo, hi, m);
    LastRowOfMonth(c, log, z, t, lo, hi, m);
    var d := PeriodBefore(c.day, log, nm).value;
    c.day.NextOf(d);
    SumSplits(c, log, z, m, c.day.next(d), nm);
    CompleteMonthEnds(c, log, lo, hi, m);
    SumOfSilence(c, log, z, c.day.next(d), nm);
  }

  lemma CompleteMonthEnds(c: Calendar, log: seq<Reading>, lo: int, hi: int, m: int)
    requires c.Valid() && CompleteMonth(c, log, lo, hi, m)
    ensures c.hour.Is(c.month.next(m)) && c.month.Is(m)
  {
    hide Calendar.Valid, Tiling.Valid;
    c.Parts();
    c.month.NextOf(m);
  }

  lemma OneMonthIsRight(c: Calendar, log: seq<Reading>, z: set<int>, s: Tables, lo: int, hi: int, m: int)
    requires c.Valid() && Chronological(log) && MonthRowsRight(c, log, z, s.monthly, m)
    requires s.daily == DayTable(c, log, z, lo, hi) && c.day.Is(hi) && KeysHaveReadings(c.hour, log, z)
    requires CompleteMonth(c, log, lo, hi, m)
    requires var p := SameRunBefore(c.month, c.year, log, m); p.Some? ==> p.value in s.monthly
    ensures OneMonth(c, s, m) == s.(monthly := s.monthly[m := MonthSpec(c, log, z, m)])
  {
    hide YieldSum, SameRunBefore, LastBefore, LastIn, MonthRowsRight, DayTable, HasReading, KeysHaveReadings;
    hide Calendar.Valid, Tiling.Valid;
    c.Parts();
    LastDayOfMonth(c, log, z, s.daily, lo, hi, m);
    PreviousYearColumn(c, log, z, s.monthly, m);
    c.year.StartOf(m);
    c.month.NextOf(m);
    SumSplits(c, log, z, c.year.start(m), m, c.month.next(m));
  }

  // ---------------------------------------------------------------- the months of one pass

  ghost function AddMonths(c: Calendar, log: seq<Reading>, z: set<int>, t: map<int, MonthRow>, ms: seq<int>): map<int, MonthRow>
    requires Chronological(log)
  {
    t + map m | m in ms :: MonthSpec(c, log, z, m)
  }

  lemma AddLastMonth(c: Calendar, log: seq<Reading>, z: set<int>, t: map<int, MonthRow>, ms: seq<int>)
    requires Chronological(log) && ms != []
    ensures var n := |ms| - 1;
            AddMonths(c, log, z, t, ms) == AddMonths(c, log, z, t, ms[..n])[ms[n] := MonthSpec(c, log, z, ms[n])]
  {
    hide MonthSpec;
    var n := |ms| - 1;
    assert ms == ms[..n] + [ms[n]];
  }

  lemma AddedMonths(c: Calendar, log: seq<Reading>, z: set<int>, t: map<int, MonthRow>, ms: seq<int>)
    requires Chronological(log)
    ensures AddMonths(c, log, z, t, ms).Keys == t.Keys + Items(ms)
    ensures ms == [] ==> AddMonths(c, log, z, t, ms) == t
  {
    hide MonthSpec;
  }

  /** The rows that are not visited need no visit. */
  ghost predicate OtherMonthsRight(c: Calendar, log: seq<Reading>, z: set<int>, t: map<int, MonthRow>, ms: seq<int>)
    requires Chronological(log)
  {
    KeysHaveReadings(c.month, log, t.Keys) && forall m :: m in t && m !in ms ==> t[m] == MonthSpec(c, log, z, m)
  }

  /** When the months before ms[n] have been visited, every row before it is right. */
  lemma MonthsBeforeRight(c: Calendar, log: seq<Reading>, z: set<int>, t: map<int, MonthRow>, ms: seq<int>, n: nat)
    requires Chronological(log) && OtherMonthsRight(c, log, z, t, ms) && Ascending(ms) && n < |ms|
    requires forall m :: m in ms ==> HasReading(c.month, log, m)
    ensures MonthRowsRight(c, log, z, AddMonths(c, log, z, t, ms[..n]), ms[n])
  {
    hide MonthSpec, HasReading;
    var t' := AddMonths(c, log, z, t, ms[..n]);
    forall m | m in t' && m < ms[n]
      ensures t'[m] == MonthSpec(c, log, z, m)
    {
      if m in ms {
        var i :| 0 <= i < |ms| && ms[i] == m;
        assert i < n && ms[..n][i] == m;
      }
    }
    assert forall m :: m in ms[..n] ==> m in ms;
  }

  lemma {:induction false} MonthsAreRight(c: Calendar, log: seq<Reading>, z: set<int>, s: Tables, lo: int, hi: int,
                                          ms: seq<int>, n: nat)
    requires c.Valid() && Chronological(log) && OtherMonthsRight(c, log, z, s.monthly, ms) && n <= |ms|
    requires s.daily == DayTable(c, log, z, lo, hi) && c.day.Is(hi) && KeysHaveReadings(c.hour, log, z)
    requires Ascending(ms) && forall m :: m in ms ==> CompleteMonth(c, log, lo, hi, m)
    requires RunsCovered(c.month, c.year, log, s.monthly.Keys, ms)
    ensures Months(c, s, ms[..n]) == s.(monthly := AddMonths(c, log, z, s.monthly, ms[..n]))
  {
    hide SameRunBefore, OneMonth, MonthSpec, DayTable, MonthRowsRight, OtherMonthsRight, RunsCovered, HasReading;
    hide KeysHaveReadings, AddMonths, Ascending, Calendar.Valid, Tiling.Valid;
    AddedMonths(c, log, z, s.monthly, ms[..n]);
    if n > 0 {
      var m := ms[n - 1];
      c.Parts();
      MonthsAreRight(c, log, z, s, lo, hi, ms, n - 1);
      assert ms[..n][..n - 1] == ms[..n - 1];
      var before := s.(monthly := AddMonths(c, log, z, s.monthly, ms[..n - 1]));
      AddedMonths(c, log, z, s.monthly, ms[..n - 1]);
      RunCoveredBefore(c.month, c.year, log, s.monthly.Keys, ms, n - 1);
      assert m in ms && CompleteMonth(c, log, lo, hi, m);
      MonthsBeforeRight(c, log, z, s.monthly, ms, n - 1);
      OneMonthIsRight(c, log, z, before, lo, hi, m);
      AddLastMonth(c, log, z, s.monthly, ms[..n]);
    }
  }

  /** What aggregateMonthsUpTo visits: complete months with day rows, every month begun since T, and the month that
      an hour visited again belongs to. */
  ghost predicate MonthList(c: Calendar, log: seq<Reading>, T: int, ts: int, ms: seq<int>)
    requires Chronological(log)
  {
    && Ascending(ms)
    && (forall m :: m in ms ==> CompleteMonth(c, log, c.dayCut(T), c.day.start(ts), m) && m < c.month.start(ts))
    && (forall m :: m in Tiles(c.month, log, c.month.start(T), c.month.start(ts)) ==> m in ms)
    && (forall m :: m in Tiles(c.month, log, c.month.start(c.origin), c.month.start(T)) ==>
          Edge(c, log, T) < c.month.next(m) ==> m in ms)
  }

  /** The month of the edge still has its days, and is the last one in the table. */
  lemma MonthOfEdge(c: Calendar, log: seq<Reading>, T: int, ts: int, m: int) returns (k: int)
    requires c.Valid() && Chronological(log) && T <= ts
    requires m in Tiles(c.month, log, c.month.start(c.origin), c.month.start(T)) && Edge(c, log, T) < c.month.next(m)
    ensures k in Tiles(c.day, log, c.dayCut(T), c.day.start(ts)) && k < c.month.start(ts) && c.month.start(k) == m <= k
    ensures forall m' :: m' in Tiles(c.month, log, c.month.start(c.origin), c.month.start(T)) ==> m' <= m
  {
    hide Edge, Calendar.Valid, Tiling.Valid, Chronological;
    c.Parts();
    var i :| 0 <= i < |log| && c.month.start(log[i].t) == m;
    k := c.day.start(log[i].t);
    var e := Edge(c, log, T);
    TileBeforeEdge(c, log, T, c.month, i);
    c.day.StartOf(log[i].t);
    c.month.StartOf(log[i].t);
    NestedStart(c.day, c.month, log[i].t);
    c.month.InTile(m, e);
    c.month.Monotone(T, ts);
    NestedStart(c.day, c.month, ts);
    CutIsDay(c, T);
    EdgeIsLast(c, log, T);
    c.month.StartIsLast(c.dayCut(T), e);
    forall m' | m' in Tiles(c.month, log, c.month.start(c.origin), c.month.start(T))
      ensures m' <= m
    {
      var j :| 0 <= j < |log| && c.month.start(log[j].t) == m';
      TileBeforeEdge(c, log, T, c.month, j);
      c.month.StartOf(log[j].t);
      c.month.StartIsLast(m', e);
    }
  }

  lemma MonthOfEdgeIsListed(c: Calendar, log: seq<Reading>, z: set<int>, z': set<int>, T: int, s: Tables, ts: int, m: int)
    requires c.Valid() && Chronological(log) && T <= ts
    requires s.daily == DayTable(c, log, z', c.dayCut(T), c.day.start(ts))
    requires s.monthly == MonthTable(c, log, z, c.month.start(c.origin), c.month.start(T))
    requires m in Tiles(c.month, log, c.month.start(c.origin), c.month.start(T)) && Edge(c, log, T) < c.month.next(m)
    ensures m in BucketsToRoll(s.daily.Keys, LastBucket(s.monthly.Keys), c.month.start(ts), c.month.start)
  {
    hide DaySpec, MonthSpec, BucketsToRoll, LastBucket, Edge, Tiling.Valid, Calendar.Valid, Chronological;
    c.Parts();
    c.month.StartOf(ts);
    var k := MonthOfEdge(c, log, T, ts, m);
    LastBucketAtMost(s.monthly.Keys, m);
    RollList(c.month, s.daily.Keys, LastBucket(s.monthly.Keys), c.month.start(ts));
    assert k in s.daily.Keys;
  }

  lemma MonthsToRoll(c: Calendar, log: seq<Reading>, z: set<int>, z': set<int>, T: int, s: Tables, ts: int)
    requires c.Valid() && LogWithin(c, log, ts) && c.origin <= T <= ts
    requires s.daily == DayTable(c, log, z', c.dayCut(T), c.day.start(ts))
    requires s.monthly == MonthTable(c, log, z, c.month.start(c.origin), c.month.start(T))
    ensures MonthList(c, log, T, ts,
              BucketsToRoll(s.daily.Keys, LastBucket(s.monthly.Keys), c.month.start(ts), c.month.start))
  {
    hide DaySpec, MonthSpec, BucketsToRoll, LastBucket, Edge, Tiling.Valid, Calendar.Valid;
    c.Parts();
    c.month.StartOf(ts);
    var after := LastBucket(s.monthly.Keys);
    var ms := BucketsToRoll(s.daily.Keys, after, c.month.start(ts), c.month.start);
    RollList(c.month, s.daily.Keys, after, c.month.start(ts));
    LastBucketBelow(s.monthly.Keys, c.month.start(T));
    forall m | m in ms
      ensures CompleteMonth(c, log, c.dayCut(T), c.day.start(ts), m)
    {
      var k :| k in s.daily.Keys && after <= k < c.month.start(ts) && c.month.start(k) == m;
      ListedMonthIsComplete(c, log, T, ts, k);
    }
    forall m | m in Tiles(c.month, log, c.month.start(T), c.month.start(ts))
      ensures m in ms
    {
      var i :| 0 <= i < |log| && c.month.start(log[i].t) == m;
      NewMonthHasDay(c, log, T, ts, i);
      assert c.day.start(log[i].t) in s.daily.Keys;
    }
    forall m | m in Tiles(c.month, log, c.month.start(c.origin), c.month.start(T)) && Edge(c, log, T) < c.month.next(m)
      ensures m in ms
    {
      MonthOfEdgeIsListed(c, log, z, z', T, s, ts, m);
    }
  }

  lemma ListedMonthIsComplete(c: Calendar, log: seq<Reading>, T: int, ts: int, k: int)
    requires c.Valid() && T <= ts
    requires k in Tiles(c.day, log, c.dayCut(T), c.day.start(ts)) && k < c.month.start(ts)
    ensures CompleteMonth(c, log, c.dayCut(T), c.day.start(ts), c.month.start(k))
  {
    hide Calendar.Valid, Tiling.Valid;
    c.Parts();
    CutIsDay(c, T);
    var i :| 0 <= i < |log| && c.day.start(log[i].t) == k;
    NestedStart(c.day, c.month, log[i].t);
    NestedStart(c.day, c.month, ts);
    c.month.StartOf(k);
    c.month.StartOf(ts);
    c.month.NextIsFirst(c.month.start(k), c.month.start(ts));
    c.month.StartIsLast(c.dayCut(T), k);
  }

  lemma NewMonthHasDay(c: Calendar, log: seq<Reading>, T: int, ts: int, i: nat)
    requires c.Valid() && LogWithin(c, log, ts) && c.origin <= T <= ts && i < |log|
    requires c.month.start(T) <= c.month.start(log[i].t) < c.month.start(ts)
    ensures var d := c.day.start(log[i].t);
            && d in Tiles(c.day, log, c.dayCut(T), c.day.start(ts))
            && 0 <= d < c.month.start(ts) && c.month.start(T) <= d
            && c.month.start(d) == c.month.start(log[i].t)
  {
    var t := log[i].t;
    c.Parts();
    NestedStart(c.day, c.month, t);
    NestedStart(c.day, c.month, ts);
    c.month.StartOf(t);
    c.day.StartOf(t);
    c.month.StartOf(ts);
    c.month.NextIsFirst(c.month.start(t), c.month.start(ts));
    assert c.month.Is(c.dayCut(T)) && c.dayCut(T) <= c.hourCut(T) <= T;
    c.month.StartIsLast(c.dayCut(T), T);
    TimesAreNotNegative(c, t);
  }

  lemma MonthsCovered(c: Calendar, log: seq<Reading>, z: set<int>, T: int, t: map<int, MonthRow>, ts: int, ms: seq<int>)
    requires c.Valid() && LogWithin(c, log, ts) && c.origin <= T <= ts
    requires t == MonthTable(c, log, z, c.month.start(c.origin), c.month.start(T)) && MonthList(c, log, T, ts, ms)
    ensures RunsCovered(c.month, c.year, log, t.Keys, ms)
  {
    hide CountBefore, MonthSpec, Edge, Calendar.Valid, Tiling.Valid;
    c.Parts();
    forall m | m in ms
      ensures var p := SameRunBefore(c.month, c.year, log, m);
              p.Some? ==> p.value in t.Keys || p.value in ms
    {
      PeriodBeforeIsBefore(c.month, log, m);
      var p := SameRunBefore(c.month, c.year, log, m);
      if p.Some? {
        var n := CountBefore(log, m);
        c.month.Monotone(c.origin, log[n - 1].t);
        assert HasReading(c.month, log, p.value);
        if c.month.start(T) <= p.value {
          assert p.value in Tiles(c.month, log, c.month.start(T), c.month.start(ts));
        }
      }
    }
  }

  lemma ListedMonthIsKept(c: Calendar, log: seq<Reading>, T: int, ts: int, ms: seq<int>, m: int)
    requires c.Valid() && LogWithin(c, log, ts) && MonthList(c, log, T, ts, ms) && m in ms
    ensures m in Tiles(c.month, log, c.month.start(c.origin), c.month.start(ts))
  {
    hide Edge, Calendar.Valid, Tiling.Valid;
    c.Parts();
    assert CompleteMonth(c, log, c.dayCut(T), c.day.start(ts), m);
    var i :| 0 <= i < |log| && c.month.start(log[i].t) == m;
    c.month.Monotone(c.origin, log[i].t);
  }

  lemma NewMonthIsListed(c: Calendar, log: seq<Reading>, T: int, ts: int, ms: seq<int>, lo: int, m: int)
    requires Chronological(log) && MonthList(c, log, T, ts, ms)
    requires m in Tiles(c.month, log, lo, c.month.start(ts)) && c.month.start(T) <= m
    ensures m in ms
  {
    var i :| 0 <= i < |log| && c.month.start(log[i].t) == m;
    assert m in Tiles(c.month, log, c.month.start(T), c.month.start(ts));
  }

  lemma MonthsVisited(c: Calendar, log: seq<Reading>, T: int, ts: int, ms: seq<int>)
    requires c.Valid() && LogWithin(c, log, ts) && T <= ts && MonthList(c, log, T, ts, ms)
    ensures Tiles(c.month, log, c.month.start(c.origin), c.month.start(ts))
         == Tiles(c.month, log, c.month.start(c.origin), c.month.start(T)) + Items(ms)
  {
    hide MonthList, Calendar.Valid, Tiling.Valid;
    c.Parts();
    c.month.Monotone(T, ts);
    var lo := c.month.start(c.origin);
    var want := Tiles(c.month, log, lo, c.month.start(ts));
    forall m | m in ms
      ensures m in want
    {
      ListedMonthIsKept(c, log, T, ts, ms, m);
    }
    forall m | m in want && m !in Tiles(c.month, log, lo, c.month.start(T))
      ensures m in ms
    {
      NewMonthIsListed(c, log, T, ts, ms, lo, m);
    }
  }

  lemma SameMonth(c: Calendar, log: seq<Reading>, z: set<int>, z': set<int>, m: int)
    requires Chronological(log) && Agree(z, z', c.month.next(m))
    ensures MonthSpec(c, log, z, m) == MonthSpec(c, log, z', m)
  {
    hide YieldSum;
    SumsAgree(c, log, z, z', m, c.month.next(m));
    SumsAgree(c, log, z, z', c.year.start(m), c.month.next(m));
  }

  /** A month that is not visited lies before every hour that is. */
  lemma OtherMonthsStay(c: Calendar, log: seq<Reading>, z: set<int>, z': set<int>, T: int, t: map<int, MonthRow>, ts: int, ms: seq<int>)
    requires Chronological(log) && Agree(z, z', Edge(c, log, T)) && MonthList(c, log, T, ts, ms)
    requires t == MonthTable(c, log, z, c.month.start(c.origin), c.month.start(T))
    ensures OtherMonthsRight(c, log, z', t, ms)
  {
    hide MonthSpec, Edge, CompleteMonth;
    forall m | m in t && m !in ms
      ensures t[m] == MonthSpec(c, log, z', m)
    {
      assert c.month.next(m) <= Edge(c, log, T);
      SameMonth(c, log, z, z', m);
    }
  }

  lemma MonthTableGrows(c: Calendar, log: seq<Reading>, z: set<int>, T: int, t: map<int, MonthRow>, ts: int, ms: seq<int>)
    requires c.Valid() && LogWithin(c, log, ts) && T <= ts && MonthList(c, log, T, ts, ms)
    requires t.Keys == Tiles(c.month, log, c.month.start(c.origin), c.month.start(T))
    requires OtherMonthsRight(c, log, z, t, ms)
    ensures AddMonths(c, log, z, t, ms) == MonthTable(c, log, z, c.month.start(c.origin), c.month.start(ts))
  {
    hide MonthSpec, MonthList, Tiles, Calendar.Valid, Tiling.Valid;
    MonthsVisited(c, log, T, ts, ms);
  }

  /** The monthly level of a pass; a month whose last day was summed anew is taken anew. */
  lemma RollMonthsIsRight(c: Calendar, log: seq<Reading>, z: set<int>, z': set<int>, T: int, s: Tables, ts: int)
    requires c.Valid() && LogWithin(c, log, ts) && c.origin <= T <= ts
    requires KeysHaveReadings(c.hour, log, z') && Agree(z, z', Edge(c, log, T))
    requires s.daily == DayTable(c, log, z', c.dayCut(T), c.day.start(ts))
    requires s.monthly == MonthTable(c, log, z, c.month.start(c.origin), c.month.start(T))
    ensures RollMonths(c, s, ts) == s.(monthly := MonthTable(c, log, z', c.month.start(c.origin), c.month.start(ts)))
  {
    hide Calendar.Valid, Tiling.Valid, DayTable, MonthRowsRight, OtherMonthsRight, CompleteMonth, MonthSpec;
    hide BucketsToRoll, LastBucket, RunsCovered, Months, AddMonths, Edge, KeysHaveReadings, Tiles;
    c.Parts();
    var ms := BucketsToRoll(s.daily.Keys, LastBucket(s.monthly.Keys), c.month.start(ts), c.month.start);
    MonthsToRoll(c, log, z, z', T, s, ts);
    MonthsCovered(c, log, z, T, s.monthly, ts, ms);
    OtherMonthsStay(c, log, z, z', T, s.monthly, ts, ms);
    MonthTableGrows(c, log, z', T, s.monthly, ts, ms);
    c.day.StartOf(ts);
    MonthsAreRight(c, log, z', s, c.dayCut(T), c.day.start(ts), ms, |ms|);
    assert ms[..|ms|] == ms;
  }
}
