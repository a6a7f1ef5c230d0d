/** The roll-up as the Go code performs it: one node's rows of the four tables, updated in place.
    Each method is tied to the function of the same name in SolarModel or SolarCharts. */
module SolarStore {
  import opened Wrappers
  import opened Calendar
  import opened Maxima
  import opened Queries
  import opened SolarModel
  import opened SolarCharts

  /** distinctBuckets: each period once, in the order of its first row. */
  method DistinctBuckets(keys: set<int>, after: int, boundary: int, start: int -> int) returns (out: seq<int>)
    ensures out == BucketsToRoll(keys, after, boundary, start)
  {
    var rows := Sorted(set k | k in keys && after <= k < boundary);
    out := [];
    var seen: set<int> := {};
    var i := 0;
    while i < |rows|
      invariant 0 <= i <= |rows|
      invariant out == Distinct(rows[..i], boundary, start)
      invariant forall b :: b in seen <==> b in out
    {
      var b := start(rows[i]);
      assert rows[..i + 1][..i] == rows[..i];
      if b < boundary && b !in seen {
        seen := seen + {b};
        out := out + [b];
      }
      i := i + 1;
    }
    assert rows[..i] == rows;
  }

  lemma UnfoldBars(tl: Tiling, rows: map<int, Link>, live: Option<Bar>, b: int, end: int, bar: Bar, before: seq<Bar>)
    requires tl.Valid() && tl.Is(b) && b < end
    requires bar == if live.Some? && live.value.bucket == b then live.value
                    else Bar(b, if b in rows then rows[b].own else 0, 0)
    ensures b < tl.next(b) && tl.Is(tl.next(b))
    ensures before + Bars(tl, rows, live, b, end) == before + [bar] + Bars(tl, rows, live, tl.next(b), end)
  {
    hide Tiling.Valid;
    tl.NextOf(b);
  }

  lemma NoBarsLeft(tl: Tiling, rows: map<int, Link>, live: Option<Bar>, b: int, end: int, before: seq<Bar>)
    requires tl.Valid() && tl.Is(b) && end <= b
    ensures before + Bars(tl, rows, live, b, end) == before
  {}

  /** The bars of a chart, tile by tile. */
  method DrawBars(tl: Tiling, rows: map<int, Link>, live: Option<Bar>, first: int, end: int) returns (bars: seq<Bar>)
    requires tl.Valid() && tl.Is(first) && (live.Some? ==> live.value.pump == 0)
    ensures bars == Bars(tl, rows, live, first, end)
  {
    hide Tiling.Valid, Bars;
    bars := [];
    var b := first;
    while b < end
      invariant tl.Is(b)
      invariant Bars(tl, rows, live, first, end) == bars + Bars(tl, rows, live, b, end)
      decreases end - b
    {
      var energy := if b in rows then rows[b].own else 0;
      if live.Some? && live.value.bucket == b {
        energy := live.value.energy;
      }
      UnfoldBars(tl, rows, live, b, end, Bar(b, energy, 0), bars);
      bars := bars + [Bar(b, energy, 0)];
      b := tl.next(b);
    }
    NoBarsLeft(tl, rows, live, b, end, bars);
  }

  lemma UnfoldYears(c: Calendar, s: Tables, y: int, last: int, year: Amount, bars: seq<Bar>, total: Amount)
    requires c.Valid() && c.year.Is(y) && y <= last && year == YearChart(c, s, y).total
    ensures y < c.year.next(y) && c.year.Is(c.year.next(y))
    ensures bars + YearBars(c, s, y, last) == bars + [YearBar(y, year)] + YearBars(c, s, c.year.next(y), last)
    ensures total.Plus(YearTotals(c, s, y, last)) == total.Plus(year).Plus(YearTotals(c, s, c.year.next(y), last))
  {
    hide Tiling.Valid, YearChart, Calendar.Valid;
    c.Parts();
    c.year.NextOf(y);
  }

  lemma NoYearsLeft(c: Calendar, s: Tables, y: int, last: int, bars: seq<Bar>, total: Amount)
    requires c.Valid() && c.year.Is(y) && last < y
    ensures bars + YearBars(c, s, y, last) == bars && total.Plus(YearTotals(c, s, y, last)) == total
  {}

  /** The bars and the total of the all-time chart, year by year. */
  method AddYears(store: Store, first: int, last: int) returns (bars: seq<Bar>, total: Amount)
    requires store.c.Valid() && store.c.year.Is(first)
    ensures bars == YearBars(store.c, store.Contents(), first, last)
    ensures total == YearTotals(store.c, store.Contents(), first, last)
  {
    hide Tiling.Valid, Calendar.Valid, YearChart, YearBars, YearTotals, Store.Contents;
    var c, s := store.c, store.Contents();
    bars, total := [], ZERO;
    var y := first;
    while y <= last
      invariant c.year.Is(y)
      invariant YearBars(c, s, first, last) == bars + YearBars(c, s, y, last)
      invariant YearTotals(c, s, first, last) == total.Plus(YearTotals(c, s, y, last))
      decreases last - y
    {
      var year := store.YearSeries(y);
      UnfoldYears(c, s, y, last, year.total, bars, total);
      bars := bars + [Bar(y, year.total.energy, year.total.pump)];
      total := total.Plus(year.total);
      y := c.year.next(y);
    }
    NoYearsLeft(c, s, y, last, bars, total);
  }

  class Store {
    const c: Calendar
    var raw: map<int, Amount>
    var hourly: map<int, HourRow>
    var daily: map<int, DayRow>
    var monthly: map<int, MonthRow>

    function Contents(): Tables
      reads this
    {
      Tables(raw, hourly, daily, monthly)
    }

    constructor (c: Calendar)
      ensures this.c == c && Contents() == EMPTY
    {
      this.c := c;
      raw, hourly, daily, monthly := map[], map[], map[], map[];
    }

    // -------------------------------------------------------------- hours

    method AggregateOneHour(h: int)
      modifies `hourly
      ensures Contents() == OneHour(c, old(Contents()), h)
    {
      var last := LastIn(raw.Keys, h, c.hour.next(h));
      if last.None? {
        return;
      }
      var cur := raw[last.value];
      var prev := ZERO;
      var p := LastBefore(hourly.Keys, h);
      if p.Some? {
        prev := hourly[p.value].cum;
      }
      var energy, pump := cur.energy - prev.energy, cur.pump - prev.pump;
      if energy < 0 {
        energy := 0;
      }
      if pump < 0 {
        pump := 0;
      }
      hourly := hourly[h := HourRow(Amount(energy, pump), cur)];
    }

    method AggregateHoursUpTo(ts: int)
      modifies `hourly
      ensures Contents() == RollHours(c, old(Contents()), ts)
    {
      hide OneHour, BucketsToRoll;
      var last := LastBucket(hourly.Keys);
      var hours := DistinctBuckets(raw.Keys, last, c.hour.start(ts), c.hour.start);
      for i := 0 to |hours|
        invariant Contents() == Hours(c, old(Contents()), hours[..i])
      {
        AggregateOneHour(hours[i]);
        assert hours[..i + 1][..i] == hours[..i];
      }
      assert hours[..|hours|] == hours;
    }

    // -------------------------------------------------------------- days

    method AggregateOneDay(d: int)
      modifies `daily
      ensures Contents() == OneDay(c, old(Contents()), d)
    {
      if LastIn(hourly.Keys, d, c.day.next(d)).None? {
        return;
      }
      var total := Gained(hourly, d, c.day.next(d));
      var prev := ZERO;
      var p := LastBefore(daily.Keys, d);
      if p.Some? && c.month.start(p.value) == c.month.start(d) {
        prev := daily[p.value].month;
      }
      daily := daily[d := DayRow(total.energy, prev.Plus(total))];
    }

    method AggregateDaysUpTo(ts: int)
      modifies `daily
      ensures Contents() == RollDays(c, old(Contents()), ts)
    {
      hide OneDay, BucketsToRoll;
      var last := LastBucket(daily.Keys);
      var days := DistinctBuckets(hourly.Keys, last, c.day.start(ts), c.day.start);
      for i := 0 to |days|
        invariant Contents() == Days(c, old(Contents()), days[..i])
      {
        AggregateOneDay(days[i]);
        assert days[..i + 1][..i] == days[..i];
      }
      assert days[..|days|] == days;
    }

    // -------------------------------------------------------------- months

    method AggregateOneMonth(m: int)
      modifies `monthly
      ensures Contents() == OneMonth(c, old(Contents()), m)
    {
      var last := LastIn(daily.Keys, m, c.month.next(m));
      if last.None? {
        return;
      }
      var total := daily[last.value].month;
      var prev := ZERO;
      var p := LastBefore(monthly.Keys, m);
      if p.Some? && c.year.start(p.value) == c.year.start(m) {
        prev := monthly[p.value].year;
      }
      monthly := monthly[m := MonthRow(total.energy, prev.Plus(total))];
    }

    method AggregateMonthsUpTo(ts: int)
      modifies `monthly
      ensures Contents() == RollMonths(c, old(Contents()), ts)
    {
      hide OneMonth, BucketsToRoll;
      var last := LastBucket(monthly.Keys);
      var months := DistinctBuckets(daily.Keys, last, c.month.start(ts), c.month.start);
      for i := 0 to |months|
        invariant Contents() == Months(c, old(Contents()), months[..i])
      {
        AggregateOneMonth(months[i]);
        assert months[..i + 1][..i] == months[..i];
      }
      assert months[..|months|] == months;
    }

    // -------------------------------------------------------------- a pass, a reading

    method PruneSolar(ts: int)
      modifies `raw, `hourly, `daily
      ensures Contents() == Prune(c, old(Contents()), ts)
    {
      raw := From(raw, ts - RAW_BUFFER_SECONDS);
      hourly := From(hourly, c.hourCut(ts));
      daily := From(daily, c.dayCut(ts));
    }

    /** aggregateSolar; commits says whether its transaction goes through. */
    method AggregateSolar(ts: int, commits: bool)
      modifies this
      ensures Contents() == if commits then Pass(c, old(Contents()), ts) else old(Contents())
    {
      hide RollHours, RollDays, RollMonths, Prune;
      var before := Contents();
      AggregateHoursUpTo(ts);
      AggregateDaysUpTo(ts);
      AggregateMonthsUpTo(ts);
      PruneSolar(ts);
      if !commits {
        raw, hourly, daily, monthly := before.raw, before.hourly, before.daily, before.monthly;
      }
    }

    /** recordSolarHistory, on the delta the message carried. */
    method RecordSolarHistory(ts: int, delta: int) returns (accepted: bool)
      modifies `raw
      ensures accepted == Stored(c, old(Contents()), ts, delta).Some?
      ensures Contents() == Record(c, old(Contents()), ts, delta)
    {
      var pumpInc := 0;
      if delta > 0 {
        pumpInc := 2;
      }
      var prev := MaxOf(raw.Keys);
      if prev.Some? && ts - prev.value < MIN_INTERVAL_SECONDS {
        return false;
      }
      var energy, runtime := delta, pumpInc;
      if prev.Some? && c.day.start(prev.value) == c.day.start(ts) {
        energy := raw[prev.value].energy + delta;
        runtime := raw[prev.value].pump + pumpInc;
      }
      raw := raw[ts := Amount(energy, runtime)];
      return true;
    }

    // -------------------------------------------------------------- the charts

    method MonthSeries(m: int) returns (series: Series)
      requires c.Valid() && c.month.Is(m)
      ensures series == MonthChart(c, Contents(), m)
    {
      hide Tiling.Valid, LastIn, LiveDay, Calendar.Valid, Bars;
      c.Parts();
      assert c.day.Is(m);
      var s := Contents();
      var end := c.month.next(m);
      var live := LiveDay(c, s);
      if live.Some? && c.month.start(live.value.day) == m {
        var today := live.value;
        var bars := DrawBars(c.day, DayLinks(s.daily), Some(Bar(today.day, today.amount.energy, 0)), m, end);
        series := Series(m, bars, MonthRunning(s, m, today.day).Plus(today.amount));
      } else {
        var bars := DrawBars(c.day, DayLinks(s.daily), None, m, end);
        series := Series(m, bars, MonthRunning(s, m, end));
      }
    }

    method YearSeries(y: int) returns (series: Series)
      requires c.Valid() && c.year.Is(y)
      ensures series == YearChart(c, Contents(), y)
    {
      hide Tiling.Valid, LastIn, LiveDay, Calendar.Valid, Bars;
      c.Parts();
      assert c.month.Is(y);
      var s := Contents();
      var end := c.year.next(y);
      var live := LiveDay(c, s);
      if live.Some? && c.year.start(live.value.day) == y {
        var month := c.month.start(live.value.day);
        var current := LiveMonth(c, s, live.value);
        var bars := DrawBars(c.month, MonthLinks(s.monthly), Some(Bar(month, current.energy, 0)), y, end);
        series := Series(y, bars, YearRunning(s, y, month).Plus(current));
      } else {
        var bars := DrawBars(c.month, MonthLinks(s.monthly), None, y, end);
        series := Series(y, bars, YearRunning(s, y, end));
      }
    }

    method TotalSeries(first: int, last: int) returns (series: Series)
      requires c.Valid() && c.year.Is(first)
      ensures series == TotalChart(c, Contents(), first, last)
    {
      hide Tiling.Valid, Calendar.Valid, YearBars, YearTotals;
      var bars, total := AddYears(this, first, last);
      series := Series(first, bars, total);
    }
  }
}
