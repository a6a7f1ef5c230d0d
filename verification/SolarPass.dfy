/** A whole pass leaves the tables as SolarLog says. */
module SolarPass {
  import opened Calendar
  import opened Maxima
  import opened Queries
  import opened SolarModel
  import opened SolarLog
  import opened SolarRoll

  /** The clock never steps back behind a reading, and nothing predates the origin. */
  ghost predicate LogWithin(c: Calendar, log: seq<Reading>, now: int) {
    Chronological(log) && forall i :: 0 <= i < |log| ==> c.origin <= log[i].t <= now
  }

  lemma TimesAreNotNegative(c: Calendar, t: int)
    requires c.Valid() && c.origin <= t
    ensures 0 <= c.month.start(c.origin) <= c.month.start(t) <= c.day.start(t) <= c.hour.start(t) <= t
  {
    c.Parts();
    c.month.Monotone(c.origin, t);
    NestedStart(c.day, c.month, t);
    NestedStart(c.hour, c.day, t);
    c.hour.StartOf(t);
  }

  lemma LastBucketBelow(keys: set<int>, bound: int)
    requires forall k :: k in keys ==> k < bound
    ensures LastBucket(keys) == 0 || LastBucket(keys) < bound
  {}

  lemma LastBucketCovers(keys: set<int>, k: int)
    requires k in keys
    ensures k <= LastBucket(keys)
  {}

  // ---------------------------------------------------------------- hours

  lemma HourOfRaw(c: Calendar, T: int, t: int)
    requires c.Valid() && T - RAW_BUFFER_SECONDS <= t
    ensures c.hourCut(T) <= c.hour.start(t)
    ensures c.hour.start(t) <= t < c.hour.start(t) + HOUR_SECONDS
  {
    c.hour.StartOf(t);
    c.HourLength(c.hour.start(t));
    assert c.hourCut(T) + 3 * HOUR_SECONDS <= T;
  }

  /** With no silence too long, the row of the hour before a raw hour has not been pruned. */
  lemma PreviousHourKept(c: Calendar, log: seq<Reading>, T: int, h: int)
    requires c.Valid() && Chronological(log) && NoLongSilence(c, log)
    requires ReadingFrom(c.hour, log, T - RAW_BUFFER_SECONDS, h)
    ensures var p := PeriodBefore(c.hour, log, h); p.Some? ==> c.hourCut(T) <= p.value
  {
    hide CountBefore;
    var k :| 0 <= k < |log| && T - RAW_BUFFER_SECONDS <= log[k].t && c.hour.start(log[k].t) == h;
    HourOfRaw(c, T, log[k].t);
    var n := CountBefore(log, h);
    if n > 0 {
      assert n <= k && h <= log[n].t <= log[k].t;
      assert c.hourCut(T) <= c.hourCut(log[n].t + 3 * HOUR_SECONDS);
    }
  }

  /** The last hour rolled up as of T, or the cut-off if no row is left: a pass visits no hour before it. */
  ghost function Edge(c: Calendar, log: seq<Reading>, T: int): int
    requires Chronological(log)
  {
    var p := PeriodBefore(c.hour, log, c.hour.start(T));
    if p.Some? && c.hourCut(T) <= p.value then p.value else c.hourCut(T)
  }

  lemma EdgeIsLast(c: Calendar, log: seq<Reading>, T: int)
    requires c.Valid() && Chronological(log)
    ensures c.hourCut(T) <= Edge(c, log, T)
    ensures forall i :: 0 <= i < |log| && log[i].t < c.hour.start(T) ==> c.hour.start(log[i].t) <= Edge(c, log, T)
  {
    hide CountBefore;
    var n := CountBefore(log, c.hour.start(T));
    forall i | 0 <= i < |log| && log[i].t < c.hour.start(T)
      ensures c.hour.start(log[i].t) <= Edge(c, log, T)
    {
      c.hour.Monotone(log[i].t, log[n - 1].t);
    }
  }

  /** What aggregateHoursUpTo visits: hours that still have raw readings, and every hour begun since T. */
  ghost predicate HourList(c: Calendar, log: seq<Reading>, T: int, ts: int, hs: seq<int>)
    requires Chronological(log)
  {
    && Ascending(hs)
    && (forall h :: h in hs ==> ReadingFrom(c.hour, log, T - RAW_BUFFER_SECONDS, h) && h < c.hour.start(ts))
    && (forall h :: h in hs ==> Edge(c, log, T) <= h)
    && (forall i :: 0 <= i < |log| && c.hour.start(T) <= log[i].t < c.hour.start(ts) ==>
          c.hour.start(log[i].t) in hs)
  }

  /** The hour before a visited one is in the table or visited too, unless its row has been pruned. */
  lemma PreviousHourFound(c: Calendar, log: seq<Reading>, z: set<int>, T: int, s: Tables, ts: int, hs: seq<int>, h: int)
    requires c.Valid() && LogWithin(c, log, ts) && T <= ts
    requires s.hourly == HourTable(c, log, z, c.hourCut(T), c.hour.start(T))
    requires HourList(c, log, T, ts, hs) && h in hs
    ensures var p := PeriodBefore(c.hour, log, h);
            p.Some? && c.hourCut(T) <= p.value ==> p.value in s.hourly.Keys || p.value in hs
  {
    hide CountBefore, HourSpec, Edge;
    var n := CountBefore(log, h);
    if n > 0 {
      var q := log[n - 1].t;
      c.hour.StartOf(q);
      if c.hour.start(T) <= c.hour.start(q) {
        assert c.hour.start(q) in hs;
      }
    }
  }

  lemma ListedHourIsRecent(c: Calendar, log: seq<Reading>, T: int, ts: int, hs: seq<int>, h: int)
    requires c.Valid() && Chronological(log) && HourList(c, log, T, ts, hs) && h in hs
    ensures h in Tiles(c.hour, log, c.hourCut(T), c.hour.start(ts)) && c.hour.Is(h)
  {
    hide Tiling.Valid, Edge;
    assert ReadingFrom(c.hour, log, T - RAW_BUFFER_SECONDS, h);
    var i :| 0 <= i < |log| && T - RAW_BUFFER_SECONDS <= log[i].t && c.hour.start(log[i].t) == h;
    HourOfRaw(c, T, log[i].t);
    c.Parts();
    c.hour.StartOf(log[i].t);
  }

  lemma RecentHourIsListed(c: Calendar, log: seq<Reading>, T: int, ts: int, hs: seq<int>, h: int)
    requires c.Valid() && Chronological(log) && HourList(c, log, T, ts, hs)
    requires h in Tiles(c.hour, log, c.hour.start(T), c.hour.start(ts))
    ensures h in hs
  {
    hide Edge;
    var i :| 0 <= i < |log| && c.hour.start(log[i].t) == h;
    c.hour.StartOf(log[i].t);
    c.hour.StartOf(ts);
    c.hour.NextIsFirst(h, c.hour.start(ts));
  }

  /** The set changes only at visited hours. */
  lemma UnvisitedAgree(c: Calendar, log: seq<Reading>, keys: set<int>, z: set<int>, hs: seq<int>, h: int)
    requires Chronological(log) && h !in hs
    ensures h in z <==> h in NowZeroed(keys, log, z, hs)
    ensures HourSpec(c, log, z, h) == HourSpec(c, log, NowZeroed(keys, log, z, hs), h)
  {
    hide LastBefore, EarlierReading, CumAt;
  }

  lemma HoursVisited(c: Calendar, log: seq<Reading>, T: int, ts: int, hs: seq<int>)
    requires c.Valid() && LogWithin(c, log, ts) && T <= ts && HourList(c, log, T, ts, hs)
    ensures Tiles(c.hour, log, c.hourCut(T), c.hour.start(ts))
         == Tiles(c.hour, log, c.hourCut(T), c.hour.start(T)) + Items(hs)
  {
    hide HourList, Calendar.Valid, Tiling.Valid;
    c.Parts();
    c.hour.Monotone(T, ts);
    var want := Tiles(c.hour, log, c.hourCut(T), c.hour.start(ts));
    forall h | h in hs
      ensures h in want
    {
      ListedHourIsRecent(c, log, T, ts, hs, h);
    }
    forall h | h in want && h !in Tiles(c.hour, log, c.hourCut(T), c.hour.start(T))
      ensures h in hs
    {
      RecentHourIsListed(c, log, T, ts, hs, h);
    }
  }

  lemma HourTableGrows(c: Calendar, log: seq<Reading>, z: set<int>, T: int, m: map<int, HourRow>, ts: int, hs: seq<int>)
    requires c.Valid() && LogWithin(c, log, ts) && T <= ts
    requires m == HourTable(c, log, z, c.hourCut(T), c.hour.start(T))
    requires HourList(c, log, T, ts, hs)
    ensures var z' := NowZeroed(m.Keys, log, z, hs);
            AddHours(c, log, z', m, hs) == HourTable(c, log, z', c.hourCut(T), c.hour.start(ts))
  {
    hide HourSpec, HourList, NowZeroed, Tiles, Calendar.Valid, Tiling.Valid;
    HoursVisited(c, log, T, ts, hs);
    var z' := NowZeroed(m.Keys, log, z, hs);
    forall h | h !in hs
      ensures HourSpec(c, log, z, h) == HourSpec(c, log, z', h)
    {
      UnvisitedAgree(c, log, m.Keys, z, hs, h);
    }
  }

  lemma HoursToRoll(c: Calendar, log: seq<Reading>, z: set<int>, T: int, s: Tables, ts: int)
    requires c.Valid() && LogWithin(c, log, ts) && c.origin <= T <= ts
    requires IsRawTable(s.raw, log, T - RAW_BUFFER_SECONDS)
    requires s.hourly == HourTable(c, log, z, c.hourCut(T), c.hour.start(T))
    ensures HourList(c, log, T, ts,
              BucketsToRoll(s.raw.Keys, LastBucket(s.hourly.Keys), c.hour.start(ts), c.hour.start))
  {
    hide HourSpec, BucketsToRoll, Edge, LastBucket;
    c.hour.StartOf(ts);
    var after := LastBucket(s.hourly.Keys);
    var hs := BucketsToRoll(s.raw.Keys, after, c.hour.start(ts), c.hour.start);
    RollList(c.hour, s.raw.Keys, after, c.hour.start(ts));
    LastBucketBelow(s.hourly.Keys, c.hour.start(T));
    TimesAreNotNegative(c, T);
    HourOfRaw(c, T, T);
    forall h | h in hs
      ensures ReadingFrom(c.hour, log, T - RAW_BUFFER_SECONDS, h) && Edge(c, log, T) <= h
    {
      var k :| k in s.raw.Keys && after <= k < c.hour.start(ts) && c.hour.start(k) == h;
      var i :| 0 <= i < |log| && log[i].t == k;
      NoHourBeforeEdge(c, log, z, T, s, k);
    }
    forall i | 0 <= i < |log| && c.hour.start(T) <= log[i].t < c.hour.start(ts)
      ensures c.hour.start(log[i].t) in hs
    {
      assert log[i].t in s.raw.Keys;
    }
  }

  lemma NoHourBeforeEdge(c: Calendar, log: seq<Reading>, z: set<int>, T: int, s: Tables, k: int)
    requires c.Valid() && Chronological(log) && T - RAW_BUFFER_SECONDS <= k
    requires s.hourly == HourTable(c, log, z, c.hourCut(T), c.hour.start(T))
    requires LastBucket(s.hourly.Keys) <= k
    ensures Edge(c, log, T) <= c.hour.start(k)
  {
    hide HourSpec, CountBefore, LastBucket, Chronological, Calendar.Valid, Tiling.Valid;
    c.Parts();
    HourOfRaw(c, T, k);
    var n := CountBefore(log, c.hour.start(T));
    if n > 0 && c.hourCut(T) <= c.hour.start(log[n - 1].t) {
      var p := c.hour.start(log[n - 1].t);
      c.hour.StartOf(log[n - 1].t);
      assert p in s.hourly.Keys;
      LastBucketCovers(s.hourly.Keys, p);
      c.hour.StartIsLast(p, k);
    }
  }

  lemma HourTableIsRight(c: Calendar, log: seq<Reading>, z: set<int>, lo: int, hi: int)
    requires Chronological(log)
    ensures HourCums(c, log, HourTable(c, log, z, lo, hi))
  {
    hide CumAt, YieldAt;
  }

  /** The hours measured against zero after the hour level of a pass. */
  ghost function Zeroing(c: Calendar, log: seq<Reading>, z: set<int>, s: Tables, ts: int): set<int> {
    NowZeroed(s.hourly.Keys, log, z,
              BucketsToRoll(s.raw.Keys, LastBucket(s.hourly.Keys), c.hour.start(ts), c.hour.start))
  }

  /** An hour with readings, the last one before it in an hour that the pass at T pruned. */
  ghost predicate AfterPruned(c: Calendar, log: seq<Reading>, T: int, h: int)
    requires Chronological(log)
  {
    && ReadingFrom(c.hour, log, T - RAW_BUFFER_SECONDS, h) && c.hourCut(T) <= h
    && PeriodBefore(c.hour, log, h).Some? && PeriodBefore(c.hour, log, h).value < c.hourCut(T)
  }

  /** What becomes of the set in one pass: nothing new before the edge, and every newcomer follows a pruned hour. */
  ghost predicate ZeroedGrows(c: Calendar, log: seq<Reading>, z: set<int>, z': set<int>, T: int, ts: int)
    requires Chronological(log)
  {
    && Agree(z, z', Edge(c, log, T))
    && (forall h :: h in z' ==> h in z || (AfterPruned(c, log, T, h) && h < c.hour.start(ts)))
  }

  lemma ZeroingGrows(c: Calendar, log: seq<Reading>, keys: set<int>, z: set<int>, T: int, ts: int, hs: seq<int>)
    requires c.Valid() && Chronological(log) && HourList(c, log, T, ts, hs)
    requires forall h :: h in NowZeroed(keys, log, z, hs) && h in hs ==>
               var p := PeriodBefore(c.hour, log, h); p.Some? && p.value < c.hourCut(T)
    ensures ZeroedGrows(c, log, z, NowZeroed(keys, log, z, hs), T, ts)
  {
    hide Edge, LastBefore, EarlierReading, PeriodBefore, Calendar.Valid;
    var z' := NowZeroed(keys, log, z, hs);
    forall h | h in z' && h !in z
      ensures AfterPruned(c, log, T, h)
    {
      assert h in hs;
      ListedHourIsRecent(c, log, T, ts, hs, h);
    }
  }

  /** The hour level of a pass, after silences of any length. */
  lemma RollHoursIsRight(c: Calendar, log: seq<Reading>, z: set<int>, T: int, s: Tables, ts: int)
    requires c.Valid() && LogWithin(c, log, ts) && c.origin <= T <= ts
    requires IsRawTable(s.raw, log, T - RAW_BUFFER_SECONDS)
    requires s.hourly == HourTable(c, log, z, c.hourCut(T), c.hour.start(T))
    ensures var z' := Zeroing(c, log, z, s, ts);
            && RollHours(c, s, ts) == s.(hourly := HourTable(c, log, z', c.hourCut(T), c.hour.start(ts)))
            && ZeroedGrows(c, log, z, z', T, ts)
  {
    hide Calendar.Valid, Tiling.Valid, HourTable, HourCums, Tiles, ZeroedGrows, NowZeroed, PeriodBefore;
    hide BucketsToRoll, LastBucket, IsRawTable, BasesRight, ReadingFrom, Hours, AddHours, HourList;
    var hs := BucketsToRoll(s.raw.Keys, LastBucket(s.hourly.Keys), c.hour.start(ts), c.hour.start);
    HoursToRoll(c, log, z, T, s, ts);
    BasesOfHours(c, log, z, T, s, ts, hs);
    ZeroingGrows(c, log, s.hourly.Keys, z, T, ts, hs);
    HourTableGrows(c, log, z, T, s.hourly, ts, hs);
    HourTableIsRight(c, log, z, c.hourCut(T), c.hour.start(T));
    ListIsRaw(c, log, T, ts, hs);
    HoursAreRight(c, log, Zeroing(c, log, z, s, ts), s, T - RAW_BUFFER_SECONDS, hs);
  }

  lemma ListIsRaw(c: Calendar, log: seq<Reading>, T: int, ts: int, hs: seq<int>)
    requires Chronological(log) && HourList(c, log, T, ts, hs)
    ensures Ascending(hs) && forall h :: h in hs ==> ReadingFrom(c.hour, log, T - RAW_BUFFER_SECONDS, h)
  {
    hide Edge, ReadingFrom;
  }

  lemma BasesOfHours(c: Calendar, log: seq<Reading>, z: set<int>, T: int, s: Tables, ts: int, hs: seq<int>)
    requires c.Valid() && LogWithin(c, log, ts) && T <= ts && HourList(c, log, T, ts, hs)
    requires s.hourly == HourTable(c, log, z, c.hourCut(T), c.hour.start(T))
    ensures BasesRight(c.hour, log, NowZeroed(s.hourly.Keys, log, z, hs), s.hourly.Keys, hs)
    ensures forall h :: h in NowZeroed(s.hourly.Keys, log, z, hs) && h in hs ==>
              var p := PeriodBefore(c.hour, log, h); p.Some? && p.value < c.hourCut(T)
  {
    hide HourSpec, HourList, PeriodBefore, NowZeroed, BasesRight, Calendar.Valid, Tiling.Valid;
    c.Parts();
    ListIsRaw(c, log, T, ts, hs);
    forall h | h in hs
      ensures c.hour.Is(h) && HasReading(c.hour, log, h) && c.hourCut(T) <= h
      ensures var p := PeriodBefore(c.hour, log, h);
              p.Some? && c.hourCut(T) <= p.value ==> p.value in s.hourly.Keys || p.value in hs
    {
      ListedHourIsRecent(c, log, T, ts, hs, h);
      PreviousHourFound(c, log, z, T, s, ts, hs, h);
    }
    BasesOfPass(c.hour, log, z, s.hourly.Keys, hs, c.hourCut(T));
  }
}
