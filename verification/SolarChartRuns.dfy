/** In every reachable state the charts add up. Nothing is asked of the readings here: silences of any
    length, failed passes and passes at start-up are all covered. */
module SolarChartRuns {
  import opened Wrappers
  import opened Calendar
  import opened Maxima
  import opened Queries
  import opened SolarModel
  import opened SolarLog
  import opened SolarMonths
  import opened SolarRoll
  import opened SolarPass
  import opened SolarRuns
  import opened SolarCharts
  import T = SolarTheorems

  // ---------------------------------------------------------------- the invariant

  ghost predicate Below(keys: set<int>, t: int) {
    forall k :: k in keys ==> k <= t
  }

  ghost predicate AllBelow(s: Tables, t: int) {
    Below(s.hourly.Keys, t) && Below(s.daily.Keys, t) && Below(s.monthly.Keys, t)
  }

  /** No period is rolled up beyond the newest raw row, nor beyond the present. */
  ghost predicate Behind(s: Tables, now: int) {
    && Below(s.raw.Keys, now)
    && AllBelow(s, now)
    && (MaxOf(s.raw.Keys).Some? ==> AllBelow(s, MaxOf(s.raw.Keys).value))
  }

  ghost predicate ChartsReady(c: Calendar, s: Tables, now: int) {
    && Behind(s, now)
    && Linked(c.day, c.month, DayLinks(s.daily))
    && Linked(c.month, c.year, MonthLinks(s.monthly))
  }

  // ---------------------------------------------------------------- rows written in order stay linked

  lemma RunningAgrees(rows: map<int, Link>, rows': map<int, Link>, lo: int, hi: int)
    requires forall k :: lo <= k < hi ==> (k in rows <==> k in rows') && (k in rows ==> rows[k] == rows'[k])
    ensures Running(rows, lo, hi) == Running(rows', lo, hi)
  {
    hide LastIn;
    var last := LastIn(rows.Keys, lo, hi);
    if last.Some? {
      LastInUnique(rows'.Keys, lo, hi, last.value);
    } else {
      assert forall k :: k in rows'.Keys ==> !(lo <= k < hi);
    }
  }

  /** Writing the newest row, or rewriting it, on top of the running amount before it. */
  lemma LinkedWithLast(tl: Tiling, coarse: Tiling, rows: map<int, Link>, b: int, own: int)
    requires tl.Valid() && tl.Is(b) && Linked(tl, coarse, rows) && Below(rows.Keys, b)
    ensures Linked(tl, coarse, rows[b := Link(own, Running(rows, coarse.start(b), b) + own)])
  {
    hide Tiling.Valid, Running;
    var rows' := rows[b := Link(own, Running(rows, coarse.start(b), b) + own)];
    forall k | k in rows'
      ensures tl.Is(k) && rows'[k].run == Running(rows', coarse.start(k), k) + rows'[k].own
    {
      RunningAgrees(rows, rows', coarse.start(k), k);
    }
  }

  /** Rows dropped below a coarse boundary do not break the links that remain. */
  lemma LinkedAfterPrune(tl: Tiling, coarse: Tiling, rows: map<int, Link>, cut: int)
    requires coarse.Valid() && coarse.Is(cut) && Linked(tl, coarse, rows)
    ensures Linked(tl, coarse, From(rows, cut))
  {
    hide Tiling.Valid, Running;
    var rows' := From(rows, cut);
    forall k | k in rows'
      ensures tl.Is(k) && rows'[k].run == Running(rows', coarse.start(k), k) + rows'[k].own
    {
      coarse.StartIsLast(cut, k);
      RunningAgrees(rows, rows', coarse.start(k), k);
    }
  }

  // ---------------------------------------------------------------- days

  /** The row a day is chained to, found among the days of its month. */
  lemma PreviousOfDay(c: Calendar, s: Tables, d: int)
    requires c.Valid() && c.day.Is(d)
    ensures var prev := match LastBefore(s.daily.Keys, d)
                        case None => ZERO
                        case Some(p) => if c.month.start(p) == c.month.start(d) then s.daily[p].month else ZERO;
            prev.energy == Running(DayLinks(s.daily), c.month.start(d), d)
  {
    hide LastIn, LastBefore, Tiling.Valid, Calendar.Valid;
    c.Parts();
    PreviousInPeriod(c.month, s.daily.Keys, d);
    assert DayLinks(s.daily).Keys == s.daily.Keys;
  }

  lemma PreviousOfMonth(c: Calendar, s: Tables, m: int)
    requires c.Valid() && c.month.Is(m)
    ensures var prev := match LastBefore(s.monthly.Keys, m)
                        case None => ZERO
                        case Some(p) => if c.year.start(p) == c.year.start(m) then s.monthly[p].year else ZERO;
            prev.energy == Running(MonthLinks(s.monthly), c.year.start(m), m)
  {
    hide LastIn, LastBefore, Tiling.Valid, Calendar.Valid;
    c.Parts();
    PreviousInPeriod(c.year, s.monthly.Keys, m);
    assert MonthLinks(s.monthly).Keys == s.monthly.Keys;
  }

  lemma PreviousInPeriod(coarse: Tiling, keys: set<int>, b: int)
    requires coarse.Valid()
    ensures var p := LastBefore(keys, b);
            LastIn(keys, coarse.start(b), b)
            == if p.Some? && coarse.start(p.value) == coarse.start(b) then p else None
  {
    hide LastIn, LastBefore, Tiling.Valid;
    var lo := coarse.start(b);
    coarse.StartOf(b);
    var p := LastBefore(keys, b);
    if p.Some? && coarse.start(p.value) == lo {
      coarse.StartOf(p.value);
      LastInUnique(keys, lo, b, p.value);
    } else {
      forall k | k in keys
        ensures !(lo <= k < b)
      {
        if lo <= k < b {
          assert k <= p.value;
          coarse.InTile(lo, p.value);
        }
      }
    }
  }

  lemma OneDayKeepsLinks(c: Calendar, s: Tables, d: int)
    requires c.Valid() && c.day.Is(d) && Below(s.daily.Keys, d) && Linked(c.day, c.month, DayLinks(s.daily))
    ensures Linked(c.day, c.month, DayLinks(OneDay(c, s, d).daily))
  {
    hide LastIn, LastBefore, Tiling.Valid, Calendar.Valid, Linked, Running;
    c.Parts();
    if LastIn(s.hourly.Keys, d, c.day.next(d)).Some? {
      var own := Gained(s.hourly, d, c.day.next(d)).energy;
      PreviousOfDay(c, s, d);
      LinkedWithLast(c.day, c.month, DayLinks(s.daily), d, own);
      assert DayLinks(OneDay(c, s, d).daily)
          == DayLinks(s.daily)[d := Link(own, Running(DayLinks(s.daily), c.month.start(d), d) + own)];
    }
  }

  lemma OneMonthKeepsLinks(c: Calendar, s: Tables, m: int)
    requires c.Valid() && c.month.Is(m) && Below(s.monthly.Keys, m)
    requires Linked(c.month, c.year, MonthLinks(s.monthly))
    ensures Linked(c.month, c.year, MonthLinks(OneMonth(c, s, m).monthly))
  {
    hide LastIn, LastBefore, Tiling.Valid, Calendar.Valid, Linked, Running;
    c.Parts();
    var last := LastIn(s.daily.Keys, m, c.month.next(m));
    if last.Some? {
      var own := s.daily[last.value].month.energy;
      PreviousOfMonth(c, s, m);
      LinkedWithLast(c.month, c.year, MonthLinks(s.monthly), m, own);
      assert MonthLinks(OneMonth(c, s, m).monthly)
          == MonthLinks(s.monthly)[m := Link(own, Running(MonthLinks(s.monthly), c.year.start(m), m) + own)];
    }
  }

  // ---------------------------------------------------------------- the steps of a pass

  lemma OneHourStaysBehind(c: Calendar, s: Tables, h: int, now: int)
    requires Behind(s, now)
    ensures Behind(OneHour(c, s, h), now) && OneHour(c, s, h) == s.(hourly := OneHour(c, s, h).hourly)
  {
    hide LastIn, LastBefore, MaxOf;
  }

  lemma OneDayStaysBehind(c: Calendar, s: Tables, d: int, now: int)
    requires Behind(s, now)
    ensures Behind(OneDay(c, s, d), now) && OneDay(c, s, d) == s.(daily := OneDay(c, s, d).daily)
    ensures OneDay(c, s, d).daily.Keys <= s.daily.Keys + {d}
  {
    hide LastIn, LastBefore, MaxOf, Gained;
    if LastIn(s.hourly.Keys, d, c.day.next(d)).Some? {
      assert OneDay(c, s, d).daily.Keys == s.daily.Keys + {d};
    }
  }

  lemma OneMonthStaysBehind(c: Calendar, s: Tables, m: int, now: int)
    requires Behind(s, now)
    ensures Behind(OneMonth(c, s, m), now) && OneMonth(c, s, m) == s.(monthly := OneMonth(c, s, m).monthly)
    ensures OneMonth(c, s, m).monthly.Keys <= s.monthly.Keys + {m}
  {
    hide LastIn, LastBefore, MaxOf;
    if LastIn(s.daily.Keys, m, c.month.next(m)).Some? {
      assert OneMonth(c, s, m).monthly.Keys == s.monthly.Keys + {m};
    }
  }

  lemma {:induction false} HoursKeepCharts(c: Calendar, s: Tables, hs: seq<int>, now: int)
    requires ChartsReady(c, s, now)
    ensures ChartsReady(c, Hours(c, s, hs), now)
  {
    hide Behind, Linked, OneHour;
    if hs != [] {
      var n := |hs| - 1;
      HoursKeepCharts(c, s, hs[..n], now);
      OneHourStaysBehind(c, Hours(c, s, hs[..n]), hs[n], now);
    }
  }

  ghost predicate ListOf(tl: Tiling, bs: seq<int>) {
    Ascending(bs) && forall i :: 0 <= i < |bs| ==> tl.Is(bs[i])
  }

  lemma {:induction false} DaysKeepCharts(c: Calendar, s: Tables, ds: seq<int>, now: int)
    requires c.Valid() && ChartsReady(c, s, now) && ListOf(c.day, ds)
    requires ds != [] ==> Below(s.daily.Keys, ds[0])
    ensures var s' := Days(c, s, ds);
            ChartsReady(c, s', now) && (ds != [] ==> Below(s'.daily.Keys, ds[|ds| - 1]))
  {
    hide Behind, Linked, OneDay, Calendar.Valid;
    if ds != [] {
      var n := |ds| - 1;
      DaysKeepCharts(c, s, ds[..n], now);
      var mid := Days(c, s, ds[..n]);
      assert Below(mid.daily.Keys, ds[n]);
      OneDayStaysBehind(c, mid, ds[n], now);
      OneDayKeepsLinks(c, mid, ds[n]);
    }
  }

  lemma {:induction false} MonthsKeepCharts(c: Calendar, s: Tables, ms: seq<int>, now: int)
    requires c.Valid() && ChartsReady(c, s, now) && ListOf(c.month, ms)
    requires ms != [] ==> Below(s.monthly.Keys, ms[0])
    ensures var s' := Months(c, s, ms);
            ChartsReady(c, s', now) && (ms != [] ==> Below(s'.monthly.Keys, ms[|ms| - 1]))
  {
    hide Behind, Linked, OneMonth, Calendar.Valid;
    if ms != [] {
      var n := |ms| - 1;
      MonthsKeepCharts(c, s, ms[..n], now);
      var mid := Months(c, s, ms[..n]);
      assert Below(mid.monthly.Keys, ms[n]);
      OneMonthStaysBehind(c, mid, ms[n], now);
      OneMonthKeepsLinks(c, mid, ms[n]);
    }
  }

  /** A pass lists periods from the last one rolled up, so it never goes back behind it. */
  lemma ListStartsAtLast(tl: Tiling, keys: set<int>, last: set<int>, boundary: int)
    requires tl.Valid() && tl.Is(boundary) && forall b :: b in last ==> tl.Is(b)
    ensures var bs := BucketsToRoll(keys, LastBucket(last), boundary, tl.start);
            ListOf(tl, bs) && (bs != [] ==> Below(last, bs[0]))
  {
    hide Tiling.Valid, BucketsToRoll, MaxOf;
    var after := LastBucket(last);
    var bs := BucketsToRoll(keys, after, boundary, tl.start);
    RollList(tl, keys, after, boundary);
    forall i | 0 <= i < |bs|
      ensures tl.Is(bs[i]) && Below(last, bs[i])
    {
      assert bs[i] in bs;
      var k :| k in keys && after <= k < boundary && tl.start(k) == bs[i];
      tl.StartOf(k);
      if last != {} {
        tl.StartIsLast(after, k);
      }
    }
  }

  // ---------------------------------------------------------------- a pass, a reading, a run

  lemma PruneStaysBehind(c: Calendar, s: Tables, ts: int)
    requires Behind(s, ts)
    ensures Behind(Prune(c, s, ts), ts)
  {
    hide MaxOf;
    var s' := Prune(c, s, ts);
    assert s'.raw.Keys <= s.raw.Keys && s'.hourly.Keys <= s.hourly.Keys && s'.daily.Keys <= s.daily.Keys;
    if MaxOf(s'.raw.Keys).Some? {
      SameNewest(s.raw, ts - RAW_BUFFER_SECONDS);
    }
  }

  lemma DayCutIsMonth(c: Calendar, ts: int)
    requires c.Valid()
    ensures c.month.Is(c.dayCut(ts))
  {
    hide Tiling.Valid, Nested;
  }

  lemma PruneKeepsCharts(c: Calendar, s: Tables, ts: int)
    requires c.Valid() && ChartsReady(c, s, ts)
    ensures ChartsReady(c, Prune(c, s, ts), ts)
  {
    hide Behind, Linked, Tiling.Valid, Calendar.Valid;
    c.Parts();
    DayCutIsMonth(c, ts);
    PruneStaysBehind(c, s, ts);
    var s' := Prune(c, s, ts);
    LinkedAfterPrune(c.day, c.month, DayLinks(s.daily), c.dayCut(ts));
    assert DayLinks(s'.daily) == From(DayLinks(s.daily), c.dayCut(ts));
  }

  lemma SameNewest(raw: map<int, Amount>, cut: int)
    requires MaxOf(From(raw, cut).Keys).Some?
    ensures MaxOf(raw.Keys) == MaxOf(From(raw, cut).Keys)
  {
    hide MaxOf;
    var t := MaxOf(From(raw, cut).Keys).value;
    assert t in raw.Keys;
    var u := MaxOf(raw.Keys).value;
    assert u in From(raw, cut).Keys;
  }

  lemma PassKeepsCharts(c: Calendar, s: Tables, ts: int)
    requires c.Valid() && ChartsReady(c, s, ts)
    ensures ChartsReady(c, Pass(c, s, ts), ts)
  {
    hide Tiling.Valid, Calendar.Valid, Behind, BucketsToRoll, LastBucket, Hours, Days, Months, Prune;
    c.Parts();
    c.day.StartOf(ts);
    c.month.StartOf(ts);
    HoursKeepCharts(c, s, BucketsToRoll(s.raw.Keys, LastBucket(s.hourly.Keys), c.hour.start(ts), c.hour.start), ts);
    var s1 := RollHours(c, s, ts);
    assert s1.daily.Keys == DayLinks(s1.daily).Keys;
    ListStartsAtLast(c.day, s1.hourly.Keys, s1.daily.Keys, c.day.start(ts));
    DaysKeepCharts(c, s1, BucketsToRoll(s1.hourly.Keys, LastBucket(s1.daily.Keys), c.day.start(ts), c.day.start), ts);
    var s2 := RollDays(c, s1, ts);
    assert s2.monthly.Keys == MonthLinks(s2.monthly).Keys;
    ListStartsAtLast(c.month, s2.daily.Keys, s2.monthly.Keys, c.month.start(ts));
    MonthsKeepCharts(c, s2, BucketsToRoll(s2.daily.Keys, LastBucket(s2.monthly.Keys), c.month.start(ts), c.month.start), ts);
    PruneKeepsCharts(c, RollMonths(c, s2, ts), ts);
  }

  lemma RecordKeepsCharts(c: Calendar, s: Tables, ts: int, delta: int)
    requires ChartsReady(c, s, ts)
    ensures ChartsReady(c, Record(c, s, ts, delta), ts)
  {
    hide MaxOf, Linked;
    var r := Stored(c, s, ts, delta);
    if r.Some? {
      assert r.value.t == ts;
      assert ts in s.raw[ts := r.value.cum].Keys;
    }
  }

  lemma NothingIsLinked(c: Calendar)
    ensures ChartsReady(c, EMPTY, c.origin)
  {
    hide MaxOf;
    assert MaxOf(EMPTY.raw.Keys).None?;
  }

  lemma {:induction false} RunKeepsCharts(c: Calendar, events: seq<Event>)
    requires c.Valid() && InOrder(events, c.origin)
    ensures var w := Run(c, Start(c), events); ChartsReady(c, w.s, w.now)
    ensures var w := Run(c, Start(c), events);
            w.now == if events == [] then c.origin else events[|events| - 1].ts
  {
    hide Calendar.Valid, Tiling.Valid, Linked, Pass, Record;
    if events == [] {
      NothingIsLinked(c);
    } else {
      var n := |events| - 1;
      RunKeepsCharts(c, events[..n]);
      var w := Run(c, Start(c), events[..n]);
      var ts := events[n].ts;
      assert n > 0 ==> events[n - 1].ts <= ts;
      assert ChartsReady(c, w.s, ts);
      match events[n]
      case Arrive(_, delta) => RecordKeepsCharts(c, w.s, ts, delta);
      case Roll(_) => PassKeepsCharts(c, w.s, ts);
    }
  }

  // ---------------------------------------------------------------- the charts

  /** What the bars of a month or a year add up to: the running amount before the live tile and the live
      bar, or the running amount at the end of the period. */
  lemma PeriodAddsUp(tl: Tiling, coarse: Tiling, rows: map<int, Link>, live: Option<Bar>, lo: int)
    requires tl.Valid() && coarse.Valid() && Nested(tl, coarse) && Linked(tl, coarse, rows) && coarse.Is(lo)
    requires live.Some? ==> tl.Is(live.value.bucket) && coarse.start(live.value.bucket) == lo
    requires live.Some? ==> Below(rows.Keys, live.value.bucket)
    ensures tl.Is(lo)
    ensures var end := coarse.next(lo);
            SumBars(Bars(tl, rows, live, lo, end))
            == if live.None? then Running(rows, lo, end)
               else Running(rows, lo, live.value.bucket) + live.value.energy
  {
    hide Tiling.Valid, Linked, LastIn, Bars;
    coarse.NextOf(lo);
    if live.Some? {
      coarse.StartOf(live.value.bucket);
    }
    BarsAddUp(tl, coarse, rows, live, lo, lo);
    assert LastIn(rows.Keys, lo, lo).None?;
  }

  lemma LiveIsLast(c: Calendar, s: Tables, now: int)
    requires c.Valid() && ChartsReady(c, s, now) && LiveDay(c, s).Some?
    ensures var day := LiveDay(c, s).value.day;
            c.day.Is(day) && Below(s.daily.Keys, day) && Below(s.monthly.Keys, c.month.start(day))
  {
    hide MaxOf, Tiling.Valid, Calendar.Valid;
    c.Parts();
    var t := MaxOf(s.raw.Keys).value;
    c.day.StartOf(t);
    NestedStart(c.day, c.month, t);
    forall d | d in s.daily.Keys ensures d <= c.day.start(t) {
      assert d in DayLinks(s.daily);
      c.day.StartIsLast(d, t);
    }
    forall m | m in s.monthly.Keys ensures m <= c.month.start(t) {
      assert m in MonthLinks(s.monthly);
      c.month.StartIsLast(m, t);
    }
  }

  lemma MonthChartAddsUp(c: Calendar, s: Tables, now: int, m: int)
    requires c.Valid() && ChartsReady(c, s, now) && c.month.Is(m)
    ensures MonthChart(c, s, m).total.energy == SumBars(MonthChart(c, s, m).bars)
  {
    hide Tiling.Valid, Calendar.Valid, Linked, Bars, LiveDay, LastIn, Behind;
    c.Parts();
    assert c.day.Is(m);
    var live := LiveDay(c, s);
    var rows := DayLinks(s.daily);
    assert rows.Keys == s.daily.Keys;
    if live.Some? && c.month.start(live.value.day) == m {
      LiveIsLast(c, s, now);
      PeriodAddsUp(c.day, c.month, rows, Some(Bar(live.value.day, live.value.amount.energy, 0)), m);
    } else {
      PeriodAddsUp(c.day, c.month, rows, None, m);
    }
  }

  lemma YearChartAddsUp(c: Calendar, s: Tables, now: int, y: int)
    requires c.Valid() && ChartsReady(c, s, now) && c.year.Is(y)
    ensures YearChart(c, s, y).total.energy == SumBars(YearChart(c, s, y).bars)
  {
    hide Tiling.Valid, Calendar.Valid, Linked, Bars, LiveDay, LastIn, Behind, LiveMonth;
    c.Parts();
    assert c.month.Is(y);
    var live := LiveDay(c, s);
    var rows := MonthLinks(s.monthly);
    assert rows.Keys == s.monthly.Keys;
    if live.Some? && c.year.start(live.value.day) == y {
      LiveIsLast(c, s, now);
      var m := c.month.start(live.value.day);
      c.month.StartOf(live.value.day);
      NestedStart(c.month, c.year, live.value.day);
      PeriodAddsUp(c.month, c.year, rows, Some(Bar(m, LiveMonth(c, s, live.value).energy, 0)), y);
    } else {
      PeriodAddsUp(c.month, c.year, rows, None, y);
    }
  }

  lemma {:induction false} TotalChartAddsUp(c: Calendar, s: Tables, first: int, last: int)
    requires c.Valid() && c.year.Is(first)
    ensures var chart := TotalChart(c, s, first, last);
            chart.total == Amount(SumBars(chart.bars), SumPump(chart.bars))
    decreases last - first
  {
    hide Tiling.Valid, Calendar.Valid, YearChart;
    c.Parts();
    c.year.NextOf(first);
    if first <= last {
      TotalChartAddsUp(c, s, c.year.next(first), last);
      var bars := YearBars(c, s, first, last);
      assert bars[1..] == YearBars(c, s, c.year.next(first), last);
    }
  }

  /** In every reachable state each month, year and all-time total is the sum of its bars, the all-time one
      in pump minutes too. */
  lemma ChartsAddUp(c: Calendar, events: seq<Event>)
    requires c.Valid() && InOrder(events, c.origin)
    ensures var s := Run(c, Start(c), events).s;
            && (forall m :: c.month.Is(m) ==>
                  MonthChart(c, s, m).total.energy == SumBars(MonthChart(c, s, m).bars))
            && (forall y :: c.year.Is(y) ==>
                  YearChart(c, s, y).total.energy == SumBars(YearChart(c, s, y).bars))
            && (forall y, last :: c.year.Is(y) ==>
                  var chart := TotalChart(c, s, y, last);
                  chart.total == Amount(SumBars(chart.bars), SumPump(chart.bars)))
  {
    hide Tiling.Valid, Calendar.Valid, MonthChart, YearChart, TotalChart, ChartsReady, Run, Start;
    var w := Run(c, Start(c), events);
    RunKeepsCharts(c, events);
    forall m | c.month.Is(m)
      ensures MonthChart(c, w.s, m).total.energy == SumBars(MonthChart(c, w.s, m).bars)
    {
      MonthChartAddsUp(c, w.s, w.now, m);
    }
    forall y | c.year.Is(y)
      ensures YearChart(c, w.s, y).total.energy == SumBars(YearChart(c, w.s, y).bars)
    {
      YearChartAddsUp(c, w.s, w.now, y);
    }
    forall y, last | c.year.Is(y)
      ensures var chart := TotalChart(c, w.s, y, last);
              chart.total == Amount(SumBars(chart.bars), SumPump(chart.bars))
    {
      TotalChartAddsUp(c, w.s, y, last);
    }
  }

  ghost function ShownFor(rows: map<int, Link>, live: Option<Bar>, b: int): Bar {
    if live.Some? && live.value.bucket == b then live.value else Bar(b, if b in rows then rows[b].own else 0, 0)
  }

  predicate InTime(bars: seq<Bar>) {
    forall i, j :: 0 <= i < j < |bars| ==> bars[i].bucket < bars[j].bucket
  }

  /** The bars are in order, none twice. */
  lemma {:induction false} BarsAscend(tl: Tiling, rows: map<int, Link>, live: Option<Bar>, b: int, end: int)
    requires tl.Valid() && tl.Is(b)
    ensures InTime(Bars(tl, rows, live, b, end))
    decreases end - b
  {
    hide Tiling.Valid;
    if b < end {
      tl.NextOf(b);
      BarsAscend(tl, rows, live, tl.next(b), end);
      var bars, rest := Bars(tl, rows, live, b, end), Bars(tl, rows, live, tl.next(b), end);
      assert bars[0].bucket == b;
      assert forall i :: 0 < i < |bars| ==> bars[i] == rest[i - 1];
    }
  }

  /** The bars are tiles of the period; the live tile shows the live amount even when its row has already been
      written, every other tile shows its row. */
  lemma {:induction false} BarsAreTheTiles(tl: Tiling, rows: map<int, Link>, live: Option<Bar>, b: int, end: int)
    requires tl.Valid() && tl.Is(b)
    ensures forall bar :: bar in Bars(tl, rows, live, b, end) ==> tl.Is(bar.bucket) && bar == ShownFor(rows, live, bar.bucket)
    decreases end - b
  {
    hide Tiling.Valid;
    if b < end {
      tl.NextOf(b);
      BarsAreTheTiles(tl, rows, live, tl.next(b), end);
    }
  }

  /** No tile of the period is without its bar. */
  lemma {:induction false} TileHasBar(tl: Tiling, rows: map<int, Link>, live: Option<Bar>, b: int, end: int, t: int)
    requires tl.Valid() && tl.Is(b) && tl.Is(t) && b <= t < end
    ensures ShownFor(rows, live, t) in Bars(tl, rows, live, b, end)
    decreases end - b
  {
    hide Tiling.Valid;
    tl.NextOf(b);
    if b < t {
      tl.NextIsFirst(b, t);
      TileHasBar(tl, rows, live, tl.next(b), end, t);
    }
  }

  // ---------------------------------------------------------------- what a chart shows

  /** The bar of each day of the month chart: the newest raw row's cumulative for its own day, else the day's row, else 0. */
  lemma DayBarIs(c: Calendar, s: Tables, m: int, d: int, e: int)
    requires c.Valid() && c.month.Is(m) && c.day.Is(d) && m <= d < c.month.next(m)
    ensures Bar(d, e, 0) in MonthChart(c, s, m).bars
        <==> e == match MaxOf(s.raw.Keys)
                  case Some(t) => if c.day.start(t) == d then s.raw[t].energy
                                  else if d in s.daily then s.daily[d].dayYield else 0
                  case None => if d in s.daily then s.daily[d].dayYield else 0
  {
    hide Tiling.Valid, Calendar.Valid, Bars, MonthRunning, MaxOf;
    c.Parts();
    var rows, live := DayLinks(s.daily), LiveDay(c, s);
    var shown := if live.Some? && c.month.start(live.value.day) == m
                 then Some(Bar(live.value.day, live.value.amount.energy, 0)) else None;
    BarsAreTheTiles(c.day, rows, shown, m, c.month.next(m));
    TileHasBar(c.day, rows, shown, m, c.month.next(m), d);
    c.month.InTile(m, d);
    if live.Some? {
      NestedStart(c.day, c.month, live.value.day);
    }
  }

  /** The totals: the running column of the last row that the live tile does not supersede, and the live amount. */
  lemma TotalsAre(c: Calendar, s: Tables, m: int, y: int)
    requires c.Valid() && c.month.Is(m) && c.year.Is(y)
    ensures MonthChart(c, s, m).total
         == match MaxOf(s.raw.Keys)
            case Some(t) =>
              if c.month.start(c.day.start(t)) == m then MonthRunning(s, m, c.day.start(t)).Plus(s.raw[t])
              else MonthRunning(s, m, c.month.next(m))
            case None => MonthRunning(s, m, c.month.next(m))
    ensures YearChart(c, s, y).total
         == match MaxOf(s.raw.Keys)
            case Some(t) =>
              var month := c.month.start(c.day.start(t));
              if c.year.start(c.day.start(t)) == y then YearRunning(s, y, month).Plus(MonthChart(c, s, month).total)
              else YearRunning(s, y, c.year.next(y))
            case None => YearRunning(s, y, c.year.next(y))
  {
    hide Tiling.Valid, Calendar.Valid, Bars, LastIn, MaxOf;
    c.Parts();
    if MaxOf(s.raw.Keys).Some? {
      var day := c.day.start(MaxOf(s.raw.Keys).value);
      c.month.StartOf(day);
    }
  }

  predicate IsNewest(keys: set<int>, lo: int, hi: int, b: int) {
    b in keys && lo <= b < hi && forall k :: k in keys && lo <= k < hi ==> k <= b
  }

  lemma NewestIs(keys: set<int>, lo: int, hi: int, b: int)
    requires IsNewest(keys, lo, hi, b)
    ensures LastIn(keys, lo, hi) == Some(b)
  {
    hide LastIn;
  }

  /** A running column is that of the newest day row, or month row, of the stretch; zero without one. */
  lemma ColumnsAre(s: Tables, lo: int, hi: int, b: int)
    ensures IsNewest(s.daily.Keys, lo, hi, b) ==> MonthRunning(s, lo, hi) == s.daily[b].month
    ensures IsNewest(s.monthly.Keys, lo, hi, b) ==> YearRunning(s, lo, hi) == s.monthly[b].year
    ensures (forall k :: k in s.daily.Keys ==> !(lo <= k < hi)) ==> MonthRunning(s, lo, hi) == Amount(0, 0)
    ensures (forall k :: k in s.monthly.Keys ==> !(lo <= k < hi)) ==> YearRunning(s, lo, hi) == Amount(0, 0)
  {
    hide LastIn, IsNewest;
    if IsNewest(s.daily.Keys, lo, hi, b) { NewestIs(s.daily.Keys, lo, hi, b); }
    if IsNewest(s.monthly.Keys, lo, hi, b) { NewestIs(s.monthly.Keys, lo, hi, b); }
  }

  // ---------------------------------------------------------------- across charts

  /** The bar that the year chart shows for month m. */
  lemma YearBarOfMonth(c: Calendar, s: Tables, m: int, bar: Bar)
    requires c.Valid() && c.month.Is(m) && bar.bucket == m
    ensures bar in YearChart(c, s, c.year.start(m)).bars
        <==> bar == if LiveIn(c, s, m) then Bar(m, MonthChart(c, s, m).total.energy, 0)
                    else Bar(m, if m in s.monthly then s.monthly[m].monthYield else 0, 0)
  {
    hide Tiling.Valid, Calendar.Valid, LiveDay, Bars, MonthRunning, YearRunning;
    c.Parts();
    var y, rows := c.year.start(m), MonthLinks(s.monthly);
    c.year.StartOf(m);
    assert c.month.Is(y);
    var live := LiveDay(c, s);
    var shown := if live.Some? && c.year.start(live.value.day) == y
                 then Some(Bar(c.month.start(live.value.day), LiveMonth(c, s, live.value).energy, 0)) else None;
    BarsAreTheTiles(c.month, rows, shown, y, c.year.next(y));
    TileHasBar(c.month, rows, shown, y, c.year.next(y), m);
    if live.Some? {
      NestedStart(c.month, c.year, live.value.day);
    }
  }

  /** The newest raw row lies in month m. */
  predicate LiveIn(c: Calendar, s: Tables, m: int) {
    LiveDay(c, s).Some? && c.month.start(LiveDay(c, s).value.day) == m
  }

  /** A closed month that is still kept by days: its row and its last day agree. */
  lemma ClosedMonthAgrees(c: Calendar, log: seq<Reading>, z: set<int>, T: int, s: Tables, m: int, now: int)
    requires c.Valid() && LogWithin(c, log, now) && c.month.Is(m) && c.dayCut(T) <= m < c.month.start(T)
    requires Rolled(c, log, z, T, s) && KeysHaveReadings(c.hour, log, z)
    ensures MonthRunning(s, m, c.month.next(m)).energy == if m in s.monthly then s.monthly[m].monthYield else 0
  {
    hide Tiling.Valid, Calendar.Valid, LastIn, YieldSum, HourTable, DaySpec, KeysHaveReadings, IsRawTable;
    c.Parts();
    c.month.StartOf(T);
    c.day.StartOf(T);
    c.month.NextIsFirst(m, c.month.start(T));
    c.day.StartIsLast(c.month.start(T), T);
    if HasReading(c.month, log, m) {
      var i :| 0 <= i < |log| && c.month.start(log[i].t) == m;
      c.month.Monotone(c.origin, log[i].t);
      LastDayOfMonth(c, log, z, s.daily, c.dayCut(T), c.day.start(T), m);
    } else {
      NoDaysOfMonth(c, log, z, s, T, m);
    }
  }

  lemma NoDaysOfMonth(c: Calendar, log: seq<Reading>, z: set<int>, s: Tables, T: int, m: int)
    requires c.Valid() && Chronological(log) && c.month.Is(m) && !HasReading(c.month, log, m)
    requires s.daily == DayTable(c, log, z, c.dayCut(T), c.day.start(T))
    ensures LastIn(s.daily.Keys, m, c.month.next(m)).None?
  {
    hide Tiling.Valid, Calendar.Valid, DaySpec, LastIn;
    c.Parts();
    forall d | d in s.daily.Keys
      ensures !(m <= d < c.month.next(m))
    {
      var i :| 0 <= i < |log| && c.day.start(log[i].t) == d;
      NestedStart(c.day, c.month, log[i].t);
      if m <= d < c.month.next(m) {
        c.month.InTile(m, d);
      }
    }
  }

  /** A month that is not closed has no row yet, and has days only if it is the month of the last pass. */
  lemma OpenMonthHasNoRow(c: Calendar, log: seq<Reading>, z: set<int>, T: int, s: Tables, m: int)
    requires Chronological(log) && Rolled(c, log, z, T, s) && c.month.start(T) <= m
    ensures m !in s.monthly
  {
    hide MonthSpec, IsRawTable, HourTable, DayTable;
  }

  /** Across charts: the year chart shows for a month that is still kept by days exactly the total that the month
      chart shows for it, unless that month is still open and no raw row of it is left. */
  lemma MonthBarIsMonthTotal(c: Calendar, events: seq<Event>, m: int)
    requires c.Valid() && InOrder(events, c.origin)
    requires c.month.Is(m) && c.dayCut(Run(c, Start(c), events).lastPass) <= m
    ensures var w := Run(c, Start(c), events);
            Bar(m, MonthChart(c, w.s, m).total.energy, 0) in YearChart(c, w.s, c.year.start(m)).bars
            <==> (LiveIn(c, w.s, m) || m < c.month.start(w.lastPass)
                  || MonthRunning(w.s, m, c.month.next(m)).energy == 0)
  {
    hide Tiling.Valid, Calendar.Valid, Run, Start, WorldIsRight, Rolled, MonthRunning, LiveDay, Bars, YearChart;
    var w := Run(c, Start(c), events);
    RunIsRight(c, events);
    T.EndsRight(c, w);
    ZeroedHaveReadings(c, w.log, w.zeroed, w.lastPass);
    YearBarOfMonth(c, w.s, m, Bar(m, MonthChart(c, w.s, m).total.energy, 0));
    c.Parts();
    if m < c.month.start(w.lastPass) {
      ClosedMonthAgrees(c, w.log, w.zeroed, w.lastPass, w.s, m, w.now);
    } else {
      OpenMonthHasNoRow(c, w.log, w.zeroed, w.lastPass, w.s, m);
    }
  }
}
