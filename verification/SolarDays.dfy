/** The daily level of a pass: day rows are sums of hour rows, month columns run within the month. */
module SolarDays {
  import opened Wrappers
  import opened Calendar
  import opened Queries
  import opened SolarModel
  import opened SolarLog
  import opened SolarRoll
  import opened SolarPass

  // ---------------------------------------------------------------- the running column

  /** The period before b, when it lies in the same coarse period as b. */
  ghost function SameRunBefore(tl: Tiling, coarse: Tiling, log: seq<Reading>, b: int): Option<int>
    requires Chronological(log)
  {
    var p := PeriodBefore(tl, log, b);
    if p.Some? && coarse.start(p.value) == coarse.start(b) then p else None
  }

  lemma NothingEarlierInRun(tl: Tiling, coarse: Tiling, log: seq<Reading>, b: int)
    requires tl.Valid() && coarse.Valid() && Nested(tl, coarse) && Chronological(log) && tl.Is(b)
    requires SameRunBefore(tl, coarse, log, b).None?
    ensures forall i :: 0 <= i < |log| ==> !(coarse.start(b) <= log[i].t < b)
  {
    hide CountBefore;
    coarse.StartOf(b);
    var n := CountBefore(log, b);
    if n > 0 && coarse.start(b) <= log[n - 1].t {
      coarse.InTile(coarse.start(b), log[n - 1].t);
      NestedStart(tl, coarse, log[n - 1].t);
    }
  }

  /** What ran up in the coarse period before b is what ran up through the period before b. */
  lemma RunBefore(c: Calendar, tl: Tiling, coarse: Tiling, log: seq<Reading>, z: set<int>, b: int)
    requires c.Valid() && tl.Valid() && coarse.Valid() && Nested(c.hour, tl) && Nested(tl, coarse)
    requires Chronological(log) && tl.Is(b) && KeysHaveReadings(c.hour, log, z)
    ensures var p := SameRunBefore(tl, coarse, log, b);
            (YieldSum(c, log, z, coarse.start(b), b)
             == if p.None? then ZERO else YieldSum(c, log, z, coarse.start(b), tl.next(p.value)))
  {
    hide CountBefore, YieldSum, Calendar.Valid;
    assert c.hour.Is(b);
    var n := CountBefore(log, b);
    var p := SameRunBefore(tl, coarse, log, b);
    if p.None? {
      NothingEarlierInRun(tl, coarse, log, b);
      SumOfSilence(c, log, z, coarse.start(b), b);
    } else {
      var q := log[n - 1].t;
      tl.StartOf(q);
      tl.NextIsFirst(p.value, b);
      tl.NextOf(p.value);
      coarse.StartOf(b);
      coarse.StartOf(p.value);
      SumSplits(c, log, z, coarse.start(b), tl.next(p.value), b);
      SumOfSilence(c, log, z, tl.next(p.value), b);
    }
  }

  /** LastBefore finds that period, or a row of another coarse period, or nothing. */
  lemma RunRow(tl: Tiling, coarse: Tiling, log: seq<Reading>, keys: set<int>, b: int)
    requires tl.Valid() && coarse.Valid() && Nested(tl, coarse) && Chronological(log) && tl.Is(b)
    requires KeysHaveReadings(tl, log, keys)
    requires var p := SameRunBefore(tl, coarse, log, b); p.Some? ==> p.value in keys
    ensures var r, p := LastBefore(keys, b), SameRunBefore(tl, coarse, log, b);
            && (p.Some? ==> r == p)
            && (p.None? && r.Some? ==> coarse.start(r.value) != coarse.start(b))
  {
    hide CountBefore, LastBefore;
    KeysBefore(tl, log, keys, b);
    PeriodBeforeIsBefore(tl, log, b);
    var r, p := LastBefore(keys, b), SameRunBefore(tl, coarse, log, b);
    if p.None? && r.Some? {
      NothingEarlierInRun(tl, coarse, log, b);
      var i :| 0 <= i < |log| && tl.start(log[i].t) == r.value;
      tl.StartOf(log[i].t);
      tl.NextIsFirst(r.value, b);
      NestedStart(tl, coarse, log[i].t);
      if coarse.start(r.value) == coarse.start(b) {
        coarse.StartOf(log[i].t);
      }
    }
  }

  ghost predicate RunsCovered(tl: Tiling, coarse: Tiling, log: seq<Reading>, keys: set<int>, bs: seq<int>)
    requires Chronological(log)
  {
    forall b :: b in bs ==>
      var p := SameRunBefore(tl, coarse, log, b);
      p.Some? ==> p.value in keys || p.value in bs
  }

  /** The row before the i-th listed period is in the table or earlier in the list. */
  lemma RunCoveredBefore(tl: Tiling, coarse: Tiling, log: seq<Reading>, keys: set<int>, bs: seq<int>, i: nat)
    requires tl.Valid() && Chronological(log) && i < |bs| && Ascending(bs) && RunsCovered(tl, coarse, log, keys, bs)
    ensures var p := SameRunBefore(tl, coarse, log, bs[i]); p.Some? ==> p.value in keys + Items(bs[..i])
  {
    hide PeriodBefore;
    var p := SameRunBefore(tl, coarse, log, bs[i]);
    PeriodBeforeIsBefore(tl, log, bs[i]);
    assert bs[i] in bs;
    if p.Some? && p.value !in keys {
      var j :| 0 <= j < |bs| && bs[j] == p.value;
      assert j < i && bs[..i][j] == p.value;
    }
  }

  // ---------------------------------------------------------------- one day

  /** SUM over the hour rows of a stretch that has none missing. */
  lemma {:induction false} GainedIsYield(c: Calendar, log: seq<Reading>, z: set<int>, m: map<int, HourRow>, lo: int, hi: int, a: int, b: int)
    requires c.Valid() && Chronological(log) && m == HourTable(c, log, z, lo, hi)
    requires lo <= a && b <= hi && c.hour.Is(hi) && KeysHaveReadings(c.hour, log, z)
    ensures Gained(m, a, b) == YieldSum(c, log, z, a, b)
    decreases b - a
  {
    hide YieldAt, CumAt, KeysHaveReadings, Calendar.Valid, Tiling.Valid;
    if a < b {
      GainedIsYield(c, log, z, m, lo, hi, a, b - 1);
      if b - 1 !in m {
        NoRowNoYield(c, log, z, lo, hi, b - 1);
      }
    }
  }

  lemma NoRowNoYield(c: Calendar, log: seq<Reading>, z: set<int>, lo: int, hi: int, t: int)
    requires c.Valid() && Chronological(log) && c.hour.Is(hi) && KeysHaveReadings(c.hour, log, z)
    requires lo <= t < hi && t !in Tiles(c.hour, log, lo, hi)
    ensures YieldAt(c, log, z, t) == ZERO
  {
    hide CumAt;
    if c.hour.Is(t) {
      c.hour.NextIsFirst(t, hi);
      c.HourLength(t);
      CumIsConstant(log, t, t + HOUR_SECONDS);
    }
  }

  /** The day rows before b are right. */
  ghost predicate DayRowsRight(c: Calendar, log: seq<Reading>, z: set<int>, m: map<int, DayRow>, b: int)
    requires Chronological(log)
  {
    KeysHaveReadings(c.day, log, m.Keys) && forall d :: d in m && d < b ==> m[d] == DaySpec(c, log, z, d)
  }

  lemma DayRowOf(c: Calendar, log: seq<Reading>, z: set<int>, m: map<int, DayRow>, b: int, d: int)
    requires Chronological(log) && DayRowsRight(c, log, z, m, b) && d in m && d < b
    ensures m[d].month == YieldSum(c, log, z, c.month.start(d), c.day.next(d))
  {
    hide YieldSum;
  }

  /** The month column of the row before, or zero at the start of a month. */
  lemma PreviousMonthColumn(c: Calendar, log: seq<Reading>, z: set<int>, m: map<int, DayRow>, d: int)
    requires c.Valid() && Chronological(log) && DayRowsRight(c, log, z, m, d) && c.day.Is(d)
    requires KeysHaveReadings(c.hour, log, z)
    requires var p := SameRunBefore(c.day, c.month, log, d); p.Some? ==> p.value in m
    ensures YieldSum(c, log, z, c.month.start(d), d)
         == match LastBefore(m.Keys, d)
            case None => ZERO
            case Some(p) => if c.month.start(p) == c.month.start(d) then m[p].month else ZERO
  {
    hide YieldSum, SameRunBefore, LastBefore, DayRowsRight, DaySpec, Tiling.Valid;
    c.Parts();
    assert KeysHaveReadings(c.day, log, m.Keys) by { KeysOfDayRows(c, log, z, m, d); }
    RunRow(c.day, c.month, log, m.Keys, d);
    RunBefore(c, c.day, c.month, log, z, d);
    var p := SameRunBefore(c.day, c.month, log, d);
    if p.Some? {
      SameRunStart(c.day, c.month, log, d);
      DayRowOf(c, log, z, m, d, p.value);
    }
  }

  lemma KeysOfDayRows(c: Calendar, log: seq<Reading>, z: set<int>, m: map<int, DayRow>, b: int)
    requires Chronological(log) && DayRowsRight(c, log, z, m, b)
    ensures KeysHaveReadings(c.day, log, m.Keys)
  {
    hide DaySpec;
  }

  lemma SameRunStart(tl: Tiling, coarse: Tiling, log: seq<Reading>, b: int)
    requires tl.Valid() && Chronological(log)
    ensures var p := SameRunBefore(tl, coarse, log, b);
            p.Some? ==> coarse.start(p.value) == coarse.start(b) && p.value < b
  {
    hide PeriodBefore;
    PeriodBeforeIsBefore(tl, log, b);
  }

  lemma OneDayIsRight(c: Calendar, log: seq<Reading>, z: set<int>, s: Tables, lo: int, hi: int, d: int)
    requires c.Valid() && Chronological(log) && DayRowsRight(c, log, z, s.daily, d)
    requires s.hourly == HourTable(c, log, z, lo, hi) && c.hour.Is(hi) && KeysHaveReadings(c.hour, log, z)
    requires c.day.Is(d) && lo <= d && c.day.next(d) <= hi
    requires exists h :: h in s.hourly && d <= h < c.day.next(d)
    requires var p := SameRunBefore(c.day, c.month, log, d); p.Some? ==> p.value in s.daily
    ensures OneDay(c, s, d) == s.(daily := s.daily[d := DaySpec(c, log, z, d)])
  {
    hide YieldSum, Gained, SameRunBefore, LastBefore, LastIn, DayRowsRight, HourTable, KeysHaveReadings;
    hide Calendar.Valid, Tiling.Valid;
    c.Parts();
    GainedIsYield(c, log, z, s.hourly, lo, hi, d, c.day.next(d));
    PreviousMonthColumn(c, log, z, s.daily, d);
    c.month.StartOf(d);
    c.day.NextOf(d);
    SumSplits(c, log, z, c.month.start(d), d, c.day.next(d));
  }

  // ---------------------------------------------------------------- the days of one pass

  ghost function AddDays(c: Calendar, log: seq<Reading>, z: set<int>, m: map<int, DayRow>, ds: seq<int>): map<int, DayRow>
    requires Chronological(log)
  {
    m + map d | d in ds :: DaySpec(c, log, z, d)
  }

  lemma AddLastDay(c: Calendar, log: seq<Reading>, z: set<int>, m: map<int, DayRow>, ds: seq<int>)
    requires Chronological(log) && ds != []
    ensures var n := |ds| - 1;
            AddDays(c, log, z, m, ds) == AddDays(c, log, z, m, ds[..n])[ds[n] := DaySpec(c, log, z, ds[n])]
  {
    hide DaySpec;
    var n := |ds| - 1;
    assert ds == ds[..n] + [ds[n]];
  }

  /** A day that lies wholly inside lo..hi and has a reading. */
  ghost predicate CompleteDay(c: Calendar, log: seq<Reading>, lo: int, hi: int, d: int) {
    c.day.Is(d) && lo <= d && c.day.next(d) <= hi && HasReading(c.day, log, d)
  }

  lemma CompleteDayHasHours(c: Calendar, log: seq<Reading>, z: set<int>, m: map<int, HourRow>, lo: int, hi: int, d: int)
    requires c.Valid() && Chronological(log) && CompleteDay(c, log, lo, hi, d)
    requires m == HourTable(c, log, z, lo, hi)
    ensures exists h :: h in m && d <= h < c.day.next(d)
  {
    hide HourSpec;
    var i :| 0 <= i < |log| && c.day.start(log[i].t) == d;
    NestedStart(c.hour, c.day, log[i].t);
    c.hour.StartOf(log[i].t);
    c.day.StartOf(log[i].t);
    assert c.hour.start(log[i].t) in m;
  }

  lemma AddedDays(c: Calendar, log: seq<Reading>, z: set<int>, m: map<int, DayRow>, ds: seq<int>)
    requires Chronological(log)
    ensures AddDays(c, log, z, m, ds).Keys == m.Keys + Items(ds)
    ensures ds == [] ==> AddDays(c, log, z, m, ds) == m
  {
    hide DaySpec;
  }

  /** The rows that are not visited need no visit. */
  ghost predicate OtherDaysRight(c: Calendar, log: seq<Reading>, z: set<int>, m: map<int, DayRow>, ds: seq<int>)
    requires Chronological(log)
  {
    KeysHaveReadings(c.day, log, m.Keys) && forall d :: d in m && d !in ds ==> m[d] == DaySpec(c, log, z, d)
  }

  /** When the days before ds[n] have been visited, every row before it is right. */
  lemma DaysBeforeRight(c: Calendar, log: seq<Reading>, z: set<int>, m: map<int, DayRow>, ds: seq<int>, n: nat)
    requires Chronological(log) && OtherDaysRight(c, log, z, m, ds) && Ascending(ds) && n < |ds|
    requires forall d :: d in ds ==> HasReading(c.day, log, d)
    ensures DayRowsRight(c, log, z, AddDays(c, log, z, m, ds[..n]), ds[n])
  {
    hide DaySpec, HasReading;
    var m' := AddDays(c, log, z, m, ds[..n]);
    forall d | d in m' && d < ds[n]
      ensures m'[d] == DaySpec(c, log, z, d)
    {
      if d in ds {
        var i :| 0 <= i < |ds| && ds[i] == d;
        assert i < n && ds[..n][i] == d;
      }
    }
    assert forall d :: d in ds[..n] ==> d in ds;
  }

  lemma {:induction false} DaysAreRight(c: Calendar, log: seq<Reading>, z: set<int>, s: Tables, lo: int, hi: int,
                                        ds: seq<int>, n: nat)
    requires c.Valid() && Chronological(log) && OtherDaysRight(c, log, z, s.daily, ds) && n <= |ds|
    requires s.hourly == HourTable(c, log, z, lo, hi) && c.hour.Is(hi) && KeysHaveReadings(c.hour, log, z)
    requires Ascending(ds) && forall d :: d in ds ==> CompleteDay(c, log, lo, hi, d)
    requires RunsCovered(c.day, c.month, log, s.daily.Keys, ds)
    ensures Days(c, s, ds[..n]) == s.(daily := AddDays(c, log, z, s.daily, ds[..n]))
  {
    hide SameRunBefore, OneDay, DaySpec, HourTable, DayRowsRight, OtherDaysRight, RunsCovered, HasReading;
    hide KeysHaveReadings, AddDays, Ascending, Calendar.Valid, Tiling.Valid;
    AddedDays(c, log, z, s.daily, ds[..n]);
    if n > 0 {
      var d := ds[n - 1];
      c.Parts();
      DaysAreRight(c, log, z, s, lo, hi, ds, n - 1);
      assert ds[..n][..n - 1] == ds[..n - 1];
      var before := s.(daily := AddDays(c, log, z, s.daily, ds[..n - 1]));
      AddedDays(c, log, z, s.daily, ds[..n - 1]);
      RunCoveredBefore(c.day, c.month, log, s.daily.Keys, ds, n - 1);
      assert d in ds && CompleteDay(c, log, lo, hi, d);
      CompleteDayHasHours(c, log, z, s.hourly, lo, hi, d);
      DaysBeforeRight(c, log, z, s.daily, ds, n - 1);
      OneDayIsRight(c, log, z, before, lo, hi, d);
      AddLastDay(c, log, z, s.daily, ds[..n]);
    }
  }

  /** What aggregateDaysUpTo visits: complete days with hour rows, every day begun since T, and the day that an
      hour visited again belongs to. */
  ghost predicate DayList(c: Calendar, log: seq<Reading>, T: int, ts: int, ds: seq<int>)
    requires Chronological(log)
  {
    && Ascending(ds)
    && (forall d :: d in ds ==> CompleteDay(c, log, c.hourCut(T), c.hour.start(ts), d) && d < c.day.start(ts))
    && (forall d :: d in Tiles(c.day, log, c.day.start(T), c.day.start(ts)) ==> d in ds)
    && (forall d :: d in Tiles(c.day, log, c.dayCut(T), c.day.start(T)) && Edge(c, log, T) < c.day.next(d) ==> d in ds)
  }

  /** Readings of a day or month rolled up before T belong to hours up to the edge. */
  lemma TileBeforeEdge(c: Calendar, log: seq<Reading>, T: int, tl: Tiling, i: nat)
    requires c.Valid() && Chronological(log) && i < |log| && (tl == c.day || tl == c.month)
    requires tl.start(log[i].t) < tl.start(T)
    ensures log[i].t < tl.start(T) <= c.hour.start(T)
    ensures tl.start(log[i].t) <= c.hour.start(log[i].t) <= Edge(c, log, T)
  {
    hide Edge, Calendar.Valid, Tiling.Valid, Chronological;
    c.Parts();
    NestedStart(c.hour, c.day, T);
    NestedStart(c.day, c.month, T);
    NestedStart(c.hour, c.day, log[i].t);
    NestedStart(c.day, c.month, log[i].t);
    tl.StartOf(T);
    tl.StartOf(log[i].t);
    tl.NextIsFirst(tl.start(log[i].t), tl.start(T));
    EdgeIsLast(c, log, T);
  }

  /** The day of the edge still has its hours, and is the last one in the table. */
  lemma DayOfEdge(c: Calendar, log: seq<Reading>, T: int, ts: int, d: int) returns (k: int)
    requires c.Valid() && Chronological(log) && T <= ts
    requires d in Tiles(c.day, log, c.dayCut(T), c.day.start(T)) && Edge(c, log, T) < c.day.next(d)
    ensures k in Tiles(c.hour, log, c.hourCut(T), c.hour.start(ts)) && k < c.day.start(ts) && c.day.start(k) == d <= k
    ensures forall d' :: d' in Tiles(c.day, log, c.dayCut(T), c.day.start(T)) ==> d' <= d
  {
    hide Edge, Calendar.Valid, Tiling.Valid, Chronological;
    c.Parts();
    var i :| 0 <= i < |log| && c.day.start(log[i].t) == d;
    k := c.hour.start(log[i].t);
    var e := Edge(c, log, T);
    TileBeforeEdge(c, log, T, c.day, i);
    c.hour.StartOf(log[i].t);
    c.day.StartOf(log[i].t);
    NestedStart(c.hour, c.day, log[i].t);
    c.day.InTile(d, e);
    c.day.Monotone(T, ts);
    NestedStart(c.hour, c.day, ts);
    CutIsDay(c, T);
    EdgeIsLast(c, log, T);
    c.day.StartIsLast(c.hourCut(T), e);
    forall d' | d' in Tiles(c.day, log, c.dayCut(T), c.day.start(T))
      ensures d' <= d
    {
      var j :| 0 <= j < |log| && c.day.start(log[j].t) == d';
      TileBeforeEdge(c, log, T, c.day, j);
      c.day.StartOf(log[j].t);
      c.day.StartIsLast(d', e);
    }
  }

  lemma CutIsDay(c: Calendar, T: int)
    requires c.Valid()
    ensures c.day.Is(c.hourCut(T)) && c.month.Is(c.dayCut(T)) && c.dayCut(T) <= c.hourCut(T) <= T
  {
    hide Tiling.Valid, Nested;
  }

  lemma DayOfEdgeIsListed(c: Calendar, log: seq<Reading>, z: set<int>, z': set<int>, T: int, s: Tables, ts: int, d: int)
    requires c.Valid() && Chronological(log) && T <= ts
    requires s.hourly == HourTable(c, log, z', c.hourCut(T), c.hour.start(ts))
    requires s.daily == DayTable(c, log, z, c.dayCut(T), c.day.start(T))
    requires d in Tiles(c.day, log, c.dayCut(T), c.day.start(T)) && Edge(c, log, T) < c.day.next(d)
    ensures d in BucketsToRoll(s.hourly.Keys, LastBucket(s.daily.Keys), c.day.start(ts), c.day.start)
  {
    hide HourSpec, DaySpec, BucketsToRoll, LastBucket, Edge, Tiling.Valid, Calendar.Valid, Chronological;
    c.Parts();
    c.day.StartOf(ts);
    var k := DayOfEdge(c, log, T, ts, d);
    LastBucketAtMost(s.daily.Keys, d);
    RollList(c.day, s.hourly.Keys, LastBucket(s.daily.Keys), c.day.start(ts));
    assert k in s.hourly.Keys;
  }

  lemma DaysToRoll(c: Calendar, log: seq<Reading>, z: set<int>, z': set<int>, T: int, s: Tables, ts: int)
    requires c.Valid() && LogWithin(c, log, ts) && c.origin <= T <= ts
    requires s.hourly == HourTable(c, log, z', c.hourCut(T), c.hour.start(ts))
    requires s.daily == DayTable(c, log, z, c.dayCut(T), c.day.start(T))
    ensures DayList(c, log, T, ts,
              BucketsToRoll(s.hourly.Keys, LastBucket(s.daily.Keys), c.day.start(ts), c.day.start))
  {
    hide HourSpec, DaySpec, BucketsToRoll, LastBucket, Edge, Tiling.Valid, Calendar.Valid;
    c.Parts();
    c.day.StartOf(ts);
    var after := LastBucket(s.daily.Keys);
    var ds := BucketsToRoll(s.hourly.Keys, after, c.day.start(ts), c.day.start);
    RollList(c.day, s.hourly.Keys, after, c.day.start(ts));
    LastBucketBelow(s.daily.Keys, c.day.start(T));
    forall d | d in ds
      ensures CompleteDay(c, log, c.hourCut(T), c.hour.start(ts), d)
    {
      var k :| k in s.hourly.Keys && after <= k < c.day.start(ts) && c.day.start(k) == d;
      ListedDayIsComplete(c, log, T, ts, k);
    }
    forall d | d in Tiles(c.day, log, c.day.start(T), c.day.start(ts))
      ensures d in ds
    {
      var i :| 0 <= i < |log| && c.day.start(log[i].t) == d;
      NewDayHasHour(c, log, T, ts, i);
      assert c.hour.start(log[i].t) in s.hourly.Keys;
    }
    forall d | d in Tiles(c.day, log, c.dayCut(T), c.day.start(T)) && Edge(c, log, T) < c.day.next(d)
      ensures d in ds
    {
      DayOfEdgeIsListed(c, log, z, z', T, s, ts, d);
    }
  }

  lemma LastBucketAtMost(keys: set<int>, k: int)
    requires k in keys && forall b :: b in keys ==> b <= k
    ensures LastBucket(keys) == k
  {}

  lemma ListedDayIsComplete(c: Calendar, log: seq<Reading>, T: int, ts: int, k: int)
    requires c.Valid() && T <= ts
    requires k in Tiles(c.hour, log, c.hourCut(T), c.hour.start(ts)) && k < c.day.start(ts)
    ensures CompleteDay(c, log, c.hourCut(T), c.hour.start(ts), c.day.start(k))
  {
    hide Calendar.Valid, Tiling.Valid;
    c.Parts();
    CutIsDay(c, T);
    var i :| 0 <= i < |log| && c.hour.start(log[i].t) == k;
    NestedStart(c.hour, c.day, log[i].t);
    NestedStart(c.hour, c.day, ts);
    c.day.StartOf(k);
    c.day.StartOf(ts);
    c.day.NextIsFirst(c.day.start(k), c.day.start(ts));
    c.day.StartIsLast(c.hourCut(T), k);
  }

  lemma NewDayHasHour(c: Calendar, log: seq<Reading>, T: int, ts: int, i: nat)
    requires c.Valid() && LogWithin(c, log, ts) && c.origin <= T <= ts && i < |log|
    requires c.day.start(T) <= c.day.start(log[i].t) < c.day.start(ts)
    ensures var h := c.hour.start(log[i].t);
            && h in Tiles(c.hour, log, c.hourCut(T), c.hour.start(ts))
            && 0 <= h < c.day.start(ts) && c.day.start(T) <= h
            && c.day.start(h) == c.day.start(log[i].t)
  {
    var t := log[i].t;
    c.Parts();
    NestedStart(c.hour, c.day, t);
    NestedStart(c.hour, c.day, ts);
    c.day.StartOf(t);
    c.hour.StartOf(t);
    c.day.StartOf(ts);
    c.day.NextIsFirst(c.day.start(t), c.day.start(ts));
    assert c.day.Is(c.hourCut(T)) && c.hourCut(T) <= T;
    c.day.StartIsLast(c.hourCut(T), T);
    TimesAreNotNegative(c, t);
  }

  lemma CutBelowMonth(c: Calendar, T: int, d: int)
    requires c.Valid() && c.hourCut(T) <= d
    ensures c.dayCut(T) <= c.month.start(d) <= d
  {
    assert c.month.Is(c.dayCut(T));
    c.month.StartIsLast(c.dayCut(T), d);
    c.month.StartOf(d);
  }

  lemma DaysCovered(c: Calendar, log: seq<Reading>, z: set<int>, T: int, m: map<int, DayRow>, ts: int, ds: seq<int>)
    requires c.Valid() && LogWithin(c, log, ts) && T <= ts
    requires m == DayTable(c, log, z, c.dayCut(T), c.day.start(T)) && DayList(c, log, T, ts, ds)
    ensures RunsCovered(c.day, c.month, log, m.Keys, ds)
  {
    hide CountBefore, DaySpec, Edge, Calendar.Valid, Tiling.Valid;
    c.Parts();
    forall d | d in ds
      ensures var p := SameRunBefore(c.day, c.month, log, d);
              p.Some? ==> p.value in m.Keys || p.value in ds
    {
      assert CompleteDay(c, log, c.hourCut(T), c.hour.start(ts), d);
      CutBelowMonth(c, T, d);
      PeriodBeforeIsBefore(c.day, log, d);
      var p := SameRunBefore(c.day, c.month, log, d);
      if p.Some? {
        c.month.StartOf(p.value);
        assert HasReading(c.day, log, p.value);
        if c.day.start(T) <= p.value {
          assert p.value in Tiles(c.day, log, c.day.start(T), c.day.start(ts));
        }
      }
    }
  }

  lemma ListedDayIsKept(c: Calendar, log: seq<Reading>, T: int, ts: int, ds: seq<int>, d: int)
    requires c.Valid() && Chronological(log) && DayList(c, log, T, ts, ds) && d in ds
    ensures d in Tiles(c.day, log, c.dayCut(T), c.day.start(ts))
  {
    hide Calendar.Valid, Tiling.Valid;
    assert CompleteDay(c, log, c.hourCut(T), c.hour.start(ts), d);
    CutBelowMonth(c, T, d);
    var i :| 0 <= i < |log| && c.day.start(log[i].t) == d;
  }

  lemma NewDayIsListed(c: Calendar, log: seq<Reading>, T: int, ts: int, ds: seq<int>, lo: int, d: int)
    requires Chronological(log) && DayList(c, log, T, ts, ds)
    requires d in Tiles(c.day, log, lo, c.day.start(ts)) && c.day.start(T) <= d
    ensures d in ds
  {
    var i :| 0 <= i < |log| && c.day.start(log[i].t) == d;
    assert d in Tiles(c.day, log, c.day.start(T), c.day.start(ts));
  }

  lemma DaysVisited(c: Calendar, log: seq<Reading>, T: int, ts: int, ds: seq<int>)
    requires c.Valid() && LogWithin(c, log, ts) && T <= ts && DayList(c, log, T, ts, ds)
    ensures Tiles(c.day, log, c.dayCut(T), c.day.start(ts))
         == Tiles(c.day, log, c.dayCut(T), c.day.start(T)) + Items(ds)
  {
    hide DayList, Calendar.Valid, Tiling.Valid;
    c.Parts();
    c.day.Monotone(T, ts);
    var want := Tiles(c.day, log, c.dayCut(T), c.day.start(ts));
    forall d | d in ds
      ensures d in want
    {
      ListedDayIsKept(c, log, T, ts, ds, d);
    }
    forall d | d in want && d !in Tiles(c.day, log, c.dayCut(T), c.day.start(T))
      ensures d in ds
    {
      NewDayIsListed(c, log, T, ts, ds, c.dayCut(T), d);
    }
  }

  lemma SameDay(c: Calendar, log: seq<Reading>, z: set<int>, z': set<int>, d: int)
    requires Chronological(log) && Agree(z, z', c.day.next(d))
    ensures DaySpec(c, log, z, d) == DaySpec(c, log, z', d)
  {
    hide YieldSum;
    SumsAgree(c, log, z, z', d, c.day.next(d));
    SumsAgree(c, log, z, z', c.month.start(d), c.day.next(d));
  }

  /** A day that is not visited lies before every hour that is. */
  lemma OtherDaysStay(c: Calendar, log: seq<Reading>, z: set<int>, z': set<int>, T: int, m: map<int, DayRow>, ts: int, ds: seq<int>)
    requires Chronological(log) && Agree(z, z', Edge(c, log, T))
    requires m == DayTable(c, log, z, c.dayCut(T), c.day.start(T)) && DayList(c, log, T, ts, ds)
    ensures OtherDaysRight(c, log, z', m, ds)
  {
    hide DaySpec, Edge, CompleteDay;
    forall d | d in m && d !in ds
      ensures m[d] == DaySpec(c, log, z', d)
    {
      assert c.day.next(d) <= Edge(c, log, T);
      SameDay(c, log, z, z', d);
    }
  }

  lemma DayTableGrows(c: Calendar, log: seq<Reading>, z: set<int>, T: int, m: map<int, DayRow>, ts: int, ds: seq<int>)
    requires c.Valid() && LogWithin(c, log, ts) && T <= ts && DayList(c, log, T, ts, ds)
    requires m.Keys == Tiles(c.day, log, c.dayCut(T), c.day.start(T)) && OtherDaysRight(c, log, z, m, ds)
    ensures AddDays(c, log, z, m, ds) == DayTable(c, log, z, c.dayCut(T), c.day.start(ts))
  {
    hide DaySpec, DayList, Tiles, Calendar.Valid, Tiling.Valid;
    DaysVisited(c, log, T, ts, ds);
  }

  /** The daily level of a pass; a day whose last hour was measured anew is summed anew. */
  lemma RollDaysIsRight(c: Calendar, log: seq<Reading>, z: set<int>, z': set<int>, T: int, s: Tables, ts: int)
    requires c.Valid() && LogWithin(c, log, ts) && c.origin <= T <= ts
    requires KeysHaveReadings(c.hour, log, z') && Agree(z, z', Edge(c, log, T))
    requires s.hourly == HourTable(c, log, z', c.hourCut(T), c.hour.start(ts))
    requires s.daily == DayTable(c, log, z, c.dayCut(T), c.day.start(T))
    ensures RollDays(c, s, ts) == s.(daily := DayTable(c, log, z', c.dayCut(T), c.day.start(ts)))
  {
    hide Calendar.Valid, Tiling.Valid, HourTable, DayRowsRight, OtherDaysRight, CompleteDay, DaySpec, Tiles;
    hide BucketsToRoll, LastBucket, RunsCovered, Days, AddDays, Edge, KeysHaveReadings;
    c.Parts();
    var ds := BucketsToRoll(s.hourly.Keys, LastBucket(s.daily.Keys), c.day.start(ts), c.day.start);
    DaysToRoll(c, log, z, z', T, s, ts);
    DaysCovered(c, log, z, T, s.daily, ts, ds);
    OtherDaysStay(c, log, z, z', T, s.daily, ts, ds);
    DayTableGrows(c, log, z', T, s.daily, ts, ds);
    c.hour.StartOf(ts);
    DaysAreRight(c, log, z', s, c.hourCut(T), c.hour.start(ts), ds, |ds|);
    assert ds[..|ds|] == ds;
  }
}
