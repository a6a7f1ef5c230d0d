/** The month, year and all-time charts of the read side, and why each total is the sum of its bars. */
module SolarCharts {
  import opened Wrappers
  import opened Calendar
  import opened Maxima
  import opened Queries
  import opened SolarModel

  /** Only the bars of the all-time chart carry pump minutes. */
  datatype Bar = Bar(bucket: int, energy: int, pump: int)
  datatype Series = Series(bucket: int, bars: seq<Bar>, total: Amount)

  /** Today as the newest raw row tells it: the local day it belongs to, and its cumulative. */
  datatype Live = Live(day: int, amount: Amount)

  /** solarLiveDay */
  function LiveDay(c: Calendar, s: Tables): Option<Live> {
    match MaxOf(s.raw.Keys)
    case None => None
    case Some(t) => Some(Live(c.day.start(t), s.raw[t]))
  }

  /** The own amount of a row, and its running amount since the enclosing period began. */
  datatype Link = Link(own: int, run: int)

  function DayLinks(daily: map<int, DayRow>): map<int, Link> {
    map d | d in daily :: Link(daily[d].dayYield, daily[d].month.energy)
  }

  function MonthLinks(monthly: map<int, MonthRow>): map<int, Link> {
    map m | m in monthly :: Link(monthly[m].monthYield, monthly[m].year.energy)
  }

  /** One bar for each tile from b up to end: the live one if it is that tile's, else the row's, else 0. */
  function Bars(tl: Tiling, rows: map<int, Link>, live: Option<Bar>, b: int, end: int): (bars: seq<Bar>)
    requires tl.Valid() && tl.Is(b)
    ensures forall i :: 0 <= i < |bars| ==> b <= bars[i].bucket < end
    decreases end - b
  {
    tl.NextOf(b);
    if end <= b then [] else
      var bar := if live.Some? && live.value.bucket == b then live.value
                 else Bar(b, if b in rows then rows[b].own else 0, 0);
      [bar] + Bars(tl, rows, live, tl.next(b), end)
  }

  function SumBars(bars: seq<Bar>): int {
    if bars == [] then 0 else bars[0].energy + SumBars(bars[1..])
  }

  function SumPump(bars: seq<Bar>): int {
    if bars == [] then 0 else bars[0].pump + SumPump(bars[1..])
  }

  /** month_yield, month_pump of the last solar_daily row in lo..hi */
  function MonthRunning(s: Tables, lo: int, hi: int): Amount {
    match LastIn(s.daily.Keys, lo, hi) case None => ZERO case Some(d) => s.daily[d].month
  }

  /** year_yield, year_pump of the last solar_monthly row in lo..hi */
  function YearRunning(s: Tables, lo: int, hi: int): Amount {
    match LastIn(s.monthly.Keys, lo, hi) case None => ZERO case Some(m) => s.monthly[m].year
  }

  /** monthSeries */
  function MonthChart(c: Calendar, s: Tables, m: int): Series
    requires c.Valid() && c.month.Is(m)
  {
    var end := c.month.next(m);
    match LiveDay(c, s)
    case Some(live) =>
      if c.month.start(live.day) == m then
        Series(m, Bars(c.day, DayLinks(s.daily), Some(Bar(live.day, live.amount.energy, 0)), m, end),
               MonthRunning(s, m, live.day).Plus(live.amount))
      else
        Series(m, Bars(c.day, DayLinks(s.daily), None, m, end), MonthRunning(s, m, end))
    case None =>
      Series(m, Bars(c.day, DayLinks(s.daily), None, m, end), MonthRunning(s, m, end))
  }

  /** The live month: the complete days of the month of the live day, and the live day. */
  function LiveMonth(c: Calendar, s: Tables, live: Live): Amount {
    MonthRunning(s, c.month.start(live.day), live.day).Plus(live.amount)
  }

  /** yearSeries */
  function YearChart(c: Calendar, s: Tables, y: int): Series
    requires c.Valid() && c.year.Is(y)
  {
    var end := c.year.next(y);
    match LiveDay(c, s)
    case Some(live) =>
      if c.year.start(live.day) == y then
        var m := c.month.start(live.day);
        var amount := LiveMonth(c, s, live);
        Series(y, Bars(c.month, MonthLinks(s.monthly), Some(Bar(m, amount.energy, 0)), y, end),
               YearRunning(s, y, m).Plus(amount))
      else
        Series(y, Bars(c.month, MonthLinks(s.monthly), None, y, end), YearRunning(s, y, end))
    case None =>
      Series(y, Bars(c.month, MonthLinks(s.monthly), None, y, end), YearRunning(s, y, end))
  }

  function YearBar(y: int, total: Amount): Bar { Bar(y, total.energy, total.pump) }

  /** totalSeries, for the years that start in y..=last */
  function YearBars(c: Calendar, s: Tables, y: int, last: int): seq<Bar>
    requires c.Valid() && c.year.Is(y)
    decreases last - y
  {
    c.year.NextOf(y);
    if last < y then [] else
      [YearBar(y, YearChart(c, s, y).total)] + YearBars(c, s, c.year.next(y), last)
  }

  function YearTotals(c: Calendar, s: Tables, y: int, last: int): Amount
    requires c.Valid() && c.year.Is(y)
    decreases last - y
  {
    c.year.NextOf(y);
    if last < y then ZERO else YearChart(c, s, y).total.Plus(YearTotals(c, s, c.year.next(y), last))
  }

  function TotalChart(c: Calendar, s: Tables, first: int, last: int): Series
    requires c.Valid() && c.year.Is(first)
  {
    Series(first, YearBars(c, s, first, last), YearTotals(c, s, first, last))
  }

  // ---------------------------------------------------------------- rows that link up

  function Running(rows: map<int, Link>, lo: int, hi: int): int {
    match LastIn(rows.Keys, lo, hi) case None => 0 case Some(b) => rows[b].run
  }

  /** Each row carries on from the row before it in the same enclosing period. */
  ghost predicate Linked(tl: Tiling, coarse: Tiling, rows: map<int, Link>) {
    forall b :: b in rows ==> tl.Is(b) && rows[b].run == Running(rows, coarse.start(b), b) + rows[b].own
  }

  lemma LastInUnique(keys: set<int>, lo: int, hi: int, b: int)
    requires b in keys && lo <= b < hi && forall k :: k in keys && lo <= k < hi ==> k <= b
    ensures LastIn(keys, lo, hi) == Some(b)
  {}

  /** The running amount grows by the tile's own amount. */
  lemma RunningOverTile(tl: Tiling, coarse: Tiling, rows: map<int, Link>, lo: int, b: int)
    requires tl.Valid() && coarse.Valid() && Linked(tl, coarse, rows)
    requires tl.Is(b) && coarse.start(b) == lo && lo <= b
    ensures Running(rows, lo, tl.next(b)) == Running(rows, lo, b) + if b in rows then rows[b].own else 0
  {
    hide Tiling.Valid, LastIn;
    var next := tl.next(b);
    tl.NextOf(b);
    forall k | k in rows.Keys && lo <= k < next
      ensures k <= b
    {
      if b < k { tl.NextIsFirst(b, k); }
    }
    if b in rows {
      LastInUnique(rows.Keys, lo, next, b);
    } else {
      var last := LastIn(rows.Keys, lo, b);
      if last.Some? {
        LastInUnique(rows.Keys, lo, next, last.value);
      }
    }
  }

  /** Bars that start at b, with no row after the live tile, add up to the growth of the running amount,
      plus the live bar in place of its row. */
  lemma {:induction false} BarsAddUp(tl: Tiling, coarse: Tiling, rows: map<int, Link>, live: Option<Bar>,
                                     lo: int, b: int)
    requires tl.Valid() && coarse.Valid() && Nested(tl, coarse) && Linked(tl, coarse, rows)
    requires coarse.Is(lo) && tl.Is(b) && lo <= b <= coarse.next(lo)
    requires live.Some? ==> tl.Is(live.value.bucket) && lo <= live.value.bucket < coarse.next(lo)
    requires live.Some? ==> forall k :: k in rows ==> k <= live.value.bucket
    ensures var end := coarse.next(lo);
            Running(rows, lo, b) + SumBars(Bars(tl, rows, live, b, end))
            == if live.None? then Running(rows, lo, end)
               else if b <= live.value.bucket then Running(rows, lo, live.value.bucket) + live.value.energy
               else Running(rows, lo, b)
    decreases coarse.next(lo) - b
  {
    hide Tiling.Valid, Linked, Running;
    var end := coarse.next(lo);
    if b < end {
      coarse.InTile(lo, b);
      tl.NextOf(b);
      coarse.NextOf(lo);
      assert tl.Is(end);
      tl.NextIsFirst(b, end);
      RunningOverTile(tl, coarse, rows, lo, b);
      BarsAddUp(tl, coarse, rows, live, lo, tl.next(b));
      var bars := Bars(tl, rows, live, b, end);
      assert bars[1..] == Bars(tl, rows, live, tl.next(b), end);
      if live.Some? && b < live.value.bucket {
        tl.NextIsFirst(b, live.value.bucket);
      }
    }
  }
}
