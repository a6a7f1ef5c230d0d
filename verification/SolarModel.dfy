/** The solar roll-up of solaragg.go and the daily accumulator of store.go, for one node, on values.
    Energy is kept in the wire's unit, kWh * 10000; pump time in minutes. */
module SolarModel {
  import opened Wrappers
  import opened Calendar
  import opened Maxima
  import opened Queries

  /** What a cumulative column pair or an increment holds. */
  datatype Amount = Amount(energy: int, pump: int) {
    function Plus(a: Amount): Amount { Amount(energy + a.energy, pump + a.pump) }

    /** The difference to an earlier cumulative; a cumulative that fell counts as zero. */
    function Since(a: Amount): Amount {
      Amount(if energy < a.energy then 0 else energy - a.energy,
             if pump < a.pump then 0 else pump - a.pump)
    }
  }

  const ZERO := Amount(0, 0)

  datatype HourRow = HourRow(gained: Amount, cum: Amount)
  datatype DayRow = DayRow(dayYield: int, month: Amount)
  datatype MonthRow = MonthRow(monthYield: int, year: Amount)

  /** The four tables of one node, each keyed by its time column: solar_history (the cumulative
      columns), solar_hourly, solar_daily, solar_monthly. */
  datatype Tables = Tables(raw: map<int, Amount>, hourly: map<int, HourRow>,
                           daily: map<int, DayRow>, monthly: map<int, MonthRow>)

  const EMPTY := Tables(map[], map[], map[], map[])

  // ---------------------------------------------------------------- the queries

  /** MAX(bucket), with SQL NULL read as 0. */
  function LastBucket(keys: set<int>): int {
    match MaxOf(keys) case None => 0 case Some(m) => m
  }

  /** SUM(hour_yield), SUM(hour_pump) over lo <= bucket < hi. */
  function Gained(hourly: map<int, HourRow>, lo: int, hi: int): Amount
    decreases hi - lo
  {
    if hi <= lo then ZERO else
      var rest := Gained(hourly, lo, hi - 1);
      if hi - 1 in hourly then rest.Plus(hourly[hi - 1].gained) else rest
  }

  // ---------------------------------------------------------------- one bucket of each level

  /** aggregateOneHour */
  ghost function OneHour(c: Calendar, s: Tables, h: int): Tables {
    match LastIn(s.raw.Keys, h, c.hour.next(h))
    case None => s
    case Some(t) =>
      var cur := s.raw[t];
      var prev := match LastBefore(s.hourly.Keys, h) case None => ZERO case Some(p) => s.hourly[p].cum;
      s.(hourly := s.hourly[h := HourRow(cur.Since(prev), cur)])
  }

  /** aggregateOneDay */
  ghost function OneDay(c: Calendar, s: Tables, d: int): Tables {
    if LastIn(s.hourly.Keys, d, c.day.next(d)).None? then s else
      var total := Gained(s.hourly, d, c.day.next(d));
      var prev := match LastBefore(s.daily.Keys, d)
                  case None => ZERO
                  case Some(p) => if c.month.start(p) == c.month.start(d) then s.daily[p].month else ZERO;
      s.(daily := s.daily[d := DayRow(total.energy, prev.Plus(total))])
  }

  /** aggregateOneMonth */
  ghost function OneMonth(c: Calendar, s: Tables, m: int): Tables {
    match LastIn(s.daily.Keys, m, c.month.next(m))
    case None => s
    case Some(d) =>
      var total := s.daily[d].month;
      var prev := match LastBefore(s.monthly.Keys, m)
                  case None => ZERO
                  case Some(p) => if c.year.start(p) == c.year.start(m) then s.monthly[p].year else ZERO;
      s.(monthly := s.monthly[m := MonthRow(total.energy, prev.Plus(total))])
  }

  ghost function Hours(c: Calendar, s: Tables, hs: seq<int>): Tables {
    if hs == [] then s else OneHour(c, Hours(c, s, hs[..|hs| - 1]), hs[|hs| - 1])
  }

  ghost function Days(c: Calendar, s: Tables, ds: seq<int>): Tables {
    if ds == [] then s else OneDay(c, Days(c, s, ds[..|ds| - 1]), ds[|ds| - 1])
  }

  ghost function Months(c: Calendar, s: Tables, ms: seq<int>): Tables {
    if ms == [] then s else OneMonth(c, Months(c, s, ms[..|ms| - 1]), ms[|ms| - 1])
  }

  // ---------------------------------------------------------------- a whole pass

  ghost function RollHours(c: Calendar, s: Tables, ts: int): Tables {
    Hours(c, s, BucketsToRoll(s.raw.Keys, LastBucket(s.hourly.Keys), c.hour.start(ts), c.hour.start))
  }

  ghost function RollDays(c: Calendar, s: Tables, ts: int): Tables {
    Days(c, s, BucketsToRoll(s.hourly.Keys, LastBucket(s.daily.Keys), c.day.start(ts), c.day.start))
  }

  ghost function RollMonths(c: Calendar, s: Tables, ts: int): Tables {
    Months(c, s, BucketsToRoll(s.daily.Keys, LastBucket(s.monthly.Keys), c.month.start(ts), c.month.start))
  }

  function From<T>(m: map<int, T>, cut: int): map<int, T> {
    map k | k in m && cut <= k :: m[k]
  }

  /** pruneSolarRaw, then pruneSolarAggregates */
  function Prune(c: Calendar, s: Tables, ts: int): Tables {
    s.(raw := From(s.raw, ts - RAW_BUFFER_SECONDS),
       hourly := From(s.hourly, c.hourCut(ts)),
       daily := From(s.daily, c.dayCut(ts)))
  }

  /** aggregateSolar when its transaction commits. */
  ghost function Pass(c: Calendar, s: Tables, ts: int): Tables {
    Prune(c, RollMonths(c, RollDays(c, RollHours(c, s, ts), ts), ts), ts)
  }

  // ---------------------------------------------------------------- one reading

  const MIN_INTERVAL_SECONDS := 60

  /** A reading that recordSolarHistory stored: its increment, the cumulative it was stored with, and
      whether that cumulative was started afresh. */
  datatype Reading = Reading(t: int, inc: Amount, cum: Amount, reset: bool)

  function Increment(delta: int): Amount { Amount(delta, if delta > 0 then 2 else 0) }

  /** recordSolarHistory: None for a redelivered reading. */
  function Stored(c: Calendar, s: Tables, ts: int, delta: int): (r: Option<Reading>) {
    var inc := Increment(delta);
    match MaxOf(s.raw.Keys)
    case None => Some(Reading(ts, inc, inc, true))
    case Some(p) =>
      if ts - p < MIN_INTERVAL_SECONDS then None
      else if c.day.start(p) == c.day.start(ts) then Some(Reading(ts, inc, s.raw[p].Plus(inc), false))
      else Some(Reading(ts, inc, inc, true))
  }

  function Record(c: Calendar, s: Tables, ts: int, delta: int): Tables {
    match Stored(c, s, ts, delta)
    case None => s
    case Some(r) => s.(raw := s.raw[r.t := r.cum])
  }
}
