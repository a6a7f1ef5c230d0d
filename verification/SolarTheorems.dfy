/** What the roll-up promises, over every run. */
module SolarTheorems {
  import opened Calendar
  import opened Maxima
  import opened SolarModel
  import opened SolarLog
  import opened SolarRoll
  import opened SolarPass
  import opened SolarDays
  import opened SolarMonths
  import opened SolarRuns

  // ---------------------------------------------------------------- incremental equals batch

  /** The raw table if nothing had ever been pruned from it. */
  ghost function RawOf(log: seq<Reading>): map<int, Amount> {
    if log == [] then map[] else
      var last := log[|log| - 1];
      RawOf(log[..|log| - 1])[last.t := last.cum]
  }

  /** One pass over the whole unpruned history, starting from empty aggregate tables. */
  ghost function Batch(c: Calendar, log: seq<Reading>, ts: int): Tables {
    Pass(c, EMPTY.(raw := RawOf(log)), ts)
  }

  lemma {:induction false} RawOfIsRaw(log: seq<Reading>, cut: int)
    requires Chronological(log) && forall i :: 0 <= i < |log| ==> cut <= log[i].t
    ensures IsRawTable(RawOf(log), log, cut)
  {
    if log != [] {
      var n := |log| - 1;
      RawOfIsRaw(log[..n], cut);
      assert log == log[..n] + [log[n]];
      RawOfExtension(log[..n], log[n], RawOf(log[..n]), cut);
    }
  }

  lemma UnrolledIsRight(c: Calendar, log: seq<Reading>, now: int)
    requires c.Valid() && LogWithin(c, log, now)
    ensures Rolled(c, log, {}, c.origin, EMPTY.(raw := RawOf(log)))
  {
    hide HourSpec, DaySpec, MonthSpec, Calendar.Valid, Tiling.Valid;
    c.Parts();
    RawOfIsRaw(log, c.origin - RAW_BUFFER_SECONDS);
    NoTilesBefore(c.hour, log, c.hourCut(c.origin), c.origin);
    NoTilesBefore(c.day, log, c.dayCut(c.origin), c.origin);
    NoTilesBefore(c.month, log, c.month.start(c.origin), c.origin);
  }

  lemma NoTilesBefore(tl: Tiling, log: seq<Reading>, lo: int, t: int)
    requires tl.Valid() && forall i :: 0 <= i < |log| ==> t <= log[i].t
    ensures Tiles(tl, log, lo, tl.start(t)) == {}
  {
    hide Tiling.Valid;
    forall i | 0 <= i < |log|
      ensures tl.start(t) <= tl.start(log[i].t)
    {
      tl.Monotone(t, log[i].t);
    }
  }

  lemma SameRaw(a: map<int, Amount>, b: map<int, Amount>, log: seq<Reading>, cut: int)
    requires IsRawTable(a, log, cut) && IsRawTable(b, log, cut)
    ensures a == b
  {
    assert forall t :: t in a ==> t in b && a[t] == b[t];
    assert forall t :: t in b ==> t in a;
  }

  /** One pass over everything prunes no hour before it has measured the next one. */
  lemma NothingZeroedInBatch(c: Calendar, log: seq<Reading>, z': set<int>, ts: int)
    requires c.Valid() && LogWithin(c, log, ts) && ZeroedGrows(c, log, {}, z', c.origin, ts)
    ensures z' == {}
  {
    hide CountBefore, ReadingFrom, Edge, Calendar.Valid, Tiling.Valid;
    c.Parts();
    HourOfRaw(c, c.origin, c.origin);
    forall h | h in z'
      ensures false
    {
      assert AfterPruned(c, log, c.origin, h);
      c.hour.Monotone(c.origin, log[CountBefore(log, h) - 1].t);
    }
  }

  lemma BatchIsRight(c: Calendar, log: seq<Reading>, ts: int)
    requires c.Valid() && LogWithin(c, log, ts) && c.origin <= ts
    ensures Rolled(c, log, {}, ts, Batch(c, log, ts))
  {
    hide Pass, Zeroing, ZeroedGrows, Calendar.Valid, Rolled;
    var s := EMPTY.(raw := RawOf(log));
    UnrolledIsRight(c, log, ts);
    PassIsRight(c, log, {}, c.origin, s, ts);
    NothingZeroedInBatch(c, log, Zeroing(c, log, {}, s, ts), ts);
  }

  /** After any run that ends in a pass, every table is what one batch pass over the full unpruned
      history of accepted readings leaves: the incremental chain, the re-aggregation of the last
      period, the pruning, failed passes and restarts make no difference. */
  lemma IncrementalEqualsBatch(c: Calendar, events: seq<Event>)
    requires c.Valid() && InOrder(events, c.origin) && NoLongSilence(c, Run(c, Start(c), events).log)
    ensures var w := Run(c, Start(c), events);
            EndsInPass(events) ==> w.s == Batch(c, w.log, events[|events| - 1].ts)
  {
    hide WorldIsRight, Run, NoLongSilence, Pass, Start, Calendar.Valid, Rolled;
    if EndsInPass(events) {
      var w := Run(c, Start(c), events);
      var ts := events[|events| - 1].ts;
      RunIsRight(c, events);
      NothingZeroedInRun(c, events);
      LastEventIsPass(c, events);
      EndsRight(c, w);
      BatchIsRight(c, w.log, ts);
      RolledIsUnique(c, w.log, {}, ts, w.s, Batch(c, w.log, ts));
    }
  }

  predicate EndsInPass(events: seq<Event>) { events != [] && events[|events| - 1].Roll? }

  lemma EndsRight(c: Calendar, w: World)
    requires WorldIsRight(c, w)
    ensures LogWithin(c, w.log, w.now) && Rolled(c, w.log, w.zeroed, w.lastPass, w.s) && Chained(c, w.log)
    ensures c.origin <= w.lastPass <= w.now && ZeroedRight(c, w.log, w.zeroed, w.lastPass)
  {
    hide Rolled, Chained, ZeroedRight;
  }

  lemma LastEventIsPass(c: Calendar, events: seq<Event>)
    requires EndsInPass(events)
    ensures var w := Run(c, Start(c), events); w.lastPass == w.now == events[|events| - 1].ts
  {
    hide Pass, Zeroing;
  }

  /** The readings and the time of the last pass determine every row. */
  lemma RolledIsUnique(c: Calendar, log: seq<Reading>, z: set<int>, T: int, a: Tables, b: Tables)
    requires Chronological(log) && Rolled(c, log, z, T, a) && Rolled(c, log, z, T, b)
    ensures a == b
  {
    hide HourTable, DayTable, MonthTable;
    SameRaw(a.raw, b.raw, log, T - RAW_BUFFER_SECONDS);
  }

  // ---------------------------------------------------------------- exact energy accounting

  ghost function IncRange(log: seq<Reading>, a: nat, b: nat): Amount
    requires b <= |log|
    decreases b
  {
    if b <= a then ZERO else IncRange(log, a, b - 1).Plus(log[b - 1].inc)
  }

  /** What the accepted readings in lo..hi reported. */
  ghost function Reported(log: seq<Reading>, lo: int, hi: int): Amount
    requires Chronological(log)
  {
    IncRange(log, CountBefore(log, lo), CountBefore(log, hi))
  }

  function Min(a: int, b: int): int { if a < b then a else b }

  /** What a reset of the cumulative inside the hour hides: the smaller of what the hour is measured against and the
      cumulative it ends with; nothing if the row before it had been pruned. */
  ghost function LostAt(log: seq<Reading>, z: set<int>, h: int): Amount
    requires Chronological(log)
  {
    if ResetIn(log, h, h + HOUR_SECONDS) then
      Smaller(Base(log, z, h), CumAt(log, h + HOUR_SECONDS))
    else ZERO
  }

  ghost function Lost(log: seq<Reading>, z: set<int>, lo: int, hi: int): Amount
    requires Chronological(log)
    decreases hi - lo
  {
    if hi <= lo then ZERO else LostAt(log, z, lo).Plus(Lost(log, z, lo + HOUR_SECONDS, hi))
  }

  /** Only hours in which the cumulative starts afresh are measured against zero. */
  ghost predicate ZeroedReset(log: seq<Reading>, z: set<int>) {
    forall h :: h in z ==> ResetIn(log, h, h + HOUR_SECONDS)
  }

  ghost predicate NonNegative(log: seq<Reading>) {
    forall i :: 0 <= i < |log| ==> log[i].inc.energy >= 0 && log[i].inc.pump >= 0
  }

  lemma {:induction false} IncRangeSplits(log: seq<Reading>, a: nat, m: nat, b: nat)
    requires a <= m <= b <= |log|
    ensures IncRange(log, a, b) == IncRange(log, a, m).Plus(IncRange(log, m, b))
    decreases b
  {
    if m < b {
      IncRangeSplits(log, a, m, b - 1);
    }
  }

  /** Within an hour the cumulative is one chain. */
  lemma {:induction false} ChainOfHour(c: Calendar, log: seq<Reading>, h: int, a: nat, b: nat)
    requires c.Valid() && Chronological(log) && Chained(c, log) && NonNegative(log) && c.hour.Is(h)
    requires a < b <= |log| && h <= log[a].t && log[b - 1].t < h + HOUR_SECONDS
    ensures log[b - 1].cum == log[a].cum.Plus(IncRange(log, a + 1, b))
    ensures IncRange(log, a + 1, b).energy >= 0 && IncRange(log, a + 1, b).pump >= 0
    ensures forall i :: a < i < b ==> !log[i].reset
    decreases b
  {
    hide Calendar.Valid, Tiling.Valid;
    if a + 1 < b {
      ChainOfHour(c, log, h, a, b - 1);
      SameHourSameDay(c, h, log[b - 2].t, log[b - 1].t);
    }
  }

  lemma SameHourSameDay(c: Calendar, h: int, s: int, t: int)
    requires c.Valid() && c.hour.Is(h) && h <= s < h + HOUR_SECONDS && h <= t < h + HOUR_SECONDS
    ensures c.day.start(s) == c.day.start(t)
  {
    c.Parts();
    c.HourLength(h);
    c.hour.InTile(h, s);
    c.hour.InTile(h, t);
    NestedStart(c.hour, c.day, s);
    NestedStart(c.hour, c.day, t);
  }

  function Smaller(a: Amount, b: Amount): Amount {
    Amount(Min(a.energy, b.energy), Min(a.pump, b.pump))
  }

  lemma SinceAndSmaller(prev: Amount, sum: Amount)
    ensures sum == sum.Since(prev).Plus(Smaller(prev, sum))
  {}

  lemma SinceOfGrowth(prev: Amount, sum: Amount)
    requires sum.energy >= 0 && sum.pump >= 0
    ensures prev.Plus(sum).Since(prev) == sum
  {}

  lemma FirstOfHour(c: Calendar, log: seq<Reading>, a: nat)
    requires Chained(c, log) && a < |log|
    ensures log[a].reset ==> log[a].cum == log[a].inc
    ensures !log[a].reset ==> a > 0 && log[a].cum == log[a - 1].cum.Plus(log[a].inc)
  {}

  /** How the cumulative at the end of an hour comes about. */
  lemma CumOfHour(c: Calendar, log: seq<Reading>, h: int)
    requires c.Valid() && Chronological(log) && Chained(c, log) && NonNegative(log) && c.hour.Is(h)
    ensures var prev, sum, cum := CumAt(log, h), Reported(log, h, h + HOUR_SECONDS), CumAt(log, h + HOUR_SECONDS);
            && sum.energy >= 0 && sum.pump >= 0
            && cum == if ResetIn(log, h, h + HOUR_SECONDS) then sum else prev.Plus(sum)
  {
    hide CountBefore, Chained, NonNegative, ResetIn, Calendar.Valid, Tiling.Valid;
    var a, b := CountBefore(log, h), CountBefore(log, h + HOUR_SECONDS);
    CountsAscend(log, h, h + HOUR_SECONDS);
    ResetOfHour(c, log, h);
    if a < b {
      ChainOfHour(c, log, h, a, b);
      IncRangeSplits(log, a, a + 1, b);
      FirstOfHour(c, log, a);
      FirstNotNegative(log, a);
    }
  }

  lemma FirstNotNegative(log: seq<Reading>, a: nat)
    requires NonNegative(log) && a < |log|
    ensures log[a].inc.energy >= 0 && log[a].inc.pump >= 0
    ensures IncRange(log, a, a + 1) == log[a].inc
  {
    assert IncRange(log, a, a) == ZERO;
  }

  lemma HourIsAccounted(c: Calendar, log: seq<Reading>, z: set<int>, h: int)
    requires c.Valid() && Chronological(log) && Chained(c, log) && NonNegative(log) && ZeroedReset(log, z) && c.hour.Is(h)
    ensures Reported(log, h, h + HOUR_SECONDS) == YieldAt(c, log, z, h).Plus(LostAt(log, z, h))
  {
    hide CumAt, Reported, Chained, NonNegative, ResetIn, Calendar.Valid, Tiling.Valid;
    CumOfHour(c, log, h);
    SinceAndSmaller(Base(log, z, h), Reported(log, h, h + HOUR_SECONDS));
    SinceOfGrowth(Base(log, z, h), Reported(log, h, h + HOUR_SECONDS));
  }

  /** Only the first reading of an hour can start the cumulative afresh. */
  lemma ResetOfHour(c: Calendar, log: seq<Reading>, h: int)
    requires c.Valid() && Chronological(log) && Chained(c, log) && NonNegative(log) && c.hour.Is(h)
    ensures var a, b := CountBefore(log, h), CountBefore(log, h + HOUR_SECONDS);
            ResetIn(log, h, h + HOUR_SECONDS) <==> a < b && log[a].reset
  {
    hide CountBefore, Chained, Calendar.Valid, Tiling.Valid;
    var a, b := CountBefore(log, h), CountBefore(log, h + HOUR_SECONDS);
    if a < b {
      ChainOfHour(c, log, h, a, b);
    }
    if ResetIn(log, h, h + HOUR_SECONDS) {
      var i :| 0 <= i < |log| && h <= log[i].t < h + HOUR_SECONDS && log[i].reset;
      assert a <= i < b;
    }
  }

  lemma {:induction false} CumsNotNegative(c: Calendar, log: seq<Reading>, n: nat)
    requires Chained(c, log) && NonNegative(log) && n <= |log|
    ensures forall i :: 0 <= i < n ==> log[i].cum.energy >= 0 && log[i].cum.pump >= 0
  {
    if n > 0 {
      CumsNotNegative(c, log, n - 1);
      FirstOfHour(c, log, n - 1);
    }
  }

  /** Over any stretch of whole hours, what was reported is what was rolled up plus what resets hid:
      nothing else is lost, and nothing is invented. */
  lemma {:induction false} EnergyIsAccounted(c: Calendar, log: seq<Reading>, z: set<int>, lo: int, hi: int)
    requires c.Valid() && Chronological(log) && Chained(c, log) && NonNegative(log) && ZeroedReset(log, z)
    requires c.hour.Is(lo) && c.hour.Is(hi) && lo <= hi
    ensures Reported(log, lo, hi) == YieldSum(c, log, z, lo, hi).Plus(Lost(log, z, lo, hi))
    decreases hi - lo
  {
    hide CountBefore, IncRange, LostAt, YieldSum, YieldAt, Chained, NonNegative, ZeroedReset, Amount.Plus, Calendar.Valid, Tiling.Valid;
    if lo == hi {
      NothingInNoTime(c, log, z, lo);
    } else {
      var next := lo + HOUR_SECONDS;
      c.Parts();
      c.HourLength(lo);
      c.hour.NextOf(lo);
      c.hour.NextIsFirst(lo, hi);
      EnergyIsAccounted(c, log, z, next, hi);
      HourIsAccounted(c, log, z, lo);
      OneHourSum(c, log, z, lo);
      SumSplits(c, log, z, lo, next, hi);
      CountsAscend(log, lo, next);
      CountsAscend(log, next, hi);
      IncRangeSplits(log, CountBefore(log, lo), CountBefore(log, next), CountBefore(log, hi));
      Combine(Reported(log, lo, next), YieldAt(c, log, z, lo), LostAt(log, z, lo),
              Reported(log, next, hi), YieldSum(c, log, z, next, hi), Lost(log, z, next, hi));
    }
  }

  lemma Combine(r: Amount, y: Amount, l: Amount, r': Amount, y': Amount, l': Amount)
    requires r == y.Plus(l) && r' == y'.Plus(l')
    ensures r.Plus(r') == y.Plus(y').Plus(l.Plus(l'))
  {}

  lemma NothingInNoTime(c: Calendar, log: seq<Reading>, z: set<int>, lo: int)
    requires Chronological(log)
    ensures Reported(log, lo, lo) == YieldSum(c, log, z, lo, lo).Plus(Lost(log, z, lo, lo))
  {
    hide CountBefore, YieldAt, LostAt, Chronological;
    assert Reported(log, lo, lo) == ZERO;
    assert YieldSum(c, log, z, lo, lo) == ZERO;
    assert Lost(log, z, lo, lo) == ZERO;
  }

  lemma CountsAscend(log: seq<Reading>, lo: int, hi: int)
    requires Chronological(log) && lo <= hi
    ensures CountBefore(log, lo) <= CountBefore(log, hi)
  {
    hide CountBefore;
    var a, b := CountBefore(log, lo), CountBefore(log, hi);
    if b < a {
      CountUnique(log, lo, b);
    }
  }

  lemma OneHourSum(c: Calendar, log: seq<Reading>, z: set<int>, h: int)
    requires c.Valid() && Chronological(log) && c.hour.Is(h)
    ensures YieldSum(c, log, z, h, h + HOUR_SECONDS) == YieldAt(c, log, z, h)
  {
    hide CumAt, Calendar.Valid;
    c.HourLength(h);
    assert c.hour.Valid() by { c.Parts(); }
    forall t | h < t < h + HOUR_SECONDS
      ensures YieldAt(c, log, z, t) == ZERO
    {
      c.hour.InTile(h, t);
    }
    FirstOnly(c, log, z, h);
  }

  lemma FirstOnly(c: Calendar, log: seq<Reading>, z: set<int>, h: int)
    requires Chronological(log) && forall t :: h < t < h + HOUR_SECONDS ==> YieldAt(c, log, z, t) == ZERO
    ensures YieldSum(c, log, z, h, h + HOUR_SECONDS) == YieldAt(c, log, z, h)
  {
    hide YieldAt;
    SumSplits(c, log, z, h, h + 1, h + HOUR_SECONDS);
    SumOfZeros(c, log, z, h + 1, h + HOUR_SECONDS);
    assert YieldSum(c, log, z, h, h) == ZERO;
    assert YieldSum(c, log, z, h, h + 1) == YieldSum(c, log, z, h, h).Plus(YieldAt(c, log, z, h));
  }

  ghost predicate NoNegativeDeltas(events: seq<Event>) {
    forall i :: 0 <= i < |events| && events[i].Arrive? ==> events[i].delta >= 0
  }

  lemma {:induction false} RunIsNonNegative(c: Calendar, events: seq<Event>)
    requires NoNegativeDeltas(events)
    ensures NonNegative(Run(c, Start(c), events).log)
  {
    hide Pass;
    if events != [] {
      var n := |events| - 1;
      RunIsNonNegative(c, events[..n]);
      var w := Run(c, Start(c), events[..n]);
      match events[n]
      case Roll(ts) =>
      case Arrive(ts, delta) =>
        StoredIncrement(c, w.s, ts, delta);
    }
  }

  lemma StoredIncrement(c: Calendar, s: Tables, ts: int, delta: int)
    ensures var r := Stored(c, s, ts, delta); r.Some? ==> r.value.inc == Increment(delta)
  {
    hide MaxOf;
  }

  /** Every row of every level accounts exactly for what the log reports of its period: the amount in the row plus what
      resets inside the period hid. */
  lemma LogRowsAccount(c: Calendar, events: seq<Event>)
    requires c.Valid() && InOrder(events, c.origin) && NoNegativeDeltas(events)
    ensures var w := Run(c, Start(c), events);
            && Chronological(w.log)
            && (forall h :: h in w.s.hourly ==>
                  Reported(w.log, h, h + HOUR_SECONDS) == w.s.hourly[h].gained.Plus(LostAt(w.log, w.zeroed, h)))
            && (forall d :: d in w.s.daily ==>
                  Reported(w.log, d, c.day.next(d)).energy
                  == w.s.daily[d].dayYield + Lost(w.log, w.zeroed, d, c.day.next(d)).energy)
            && (forall d :: d in w.s.daily ==>
                  Reported(w.log, c.month.start(d), c.day.next(d))
                  == w.s.daily[d].month.Plus(Lost(w.log, w.zeroed, c.month.start(d), c.day.next(d))))
            && (forall m :: m in w.s.monthly ==>
                  Reported(w.log, m, c.month.next(m)).energy
                  == w.s.monthly[m].monthYield + Lost(w.log, w.zeroed, m, c.month.next(m)).energy)
            && (forall m :: m in w.s.monthly ==>
                  Reported(w.log, c.year.start(m), c.month.next(m))
                  == w.s.monthly[m].year.Plus(Lost(w.log, w.zeroed, c.year.start(m), c.month.next(m))))
  {
    hide Run, WorldIsRight, Chained, ZeroedRight, ZeroedReset, Start, Reported, YieldSum, YieldAt, Lost, LostAt;
    hide Calendar.Valid, Tiling.Valid;
    var w := Run(c, Start(c), events);
    RunIsRight(c, events);
    RunIsNonNegative(c, events);
    EndsRight(c, w);
    ZeroedAreReset(c, w.log, w.zeroed, w.lastPass);
    forall h | h in w.s.hourly
      ensures Reported(w.log, h, h + HOUR_SECONDS) == w.s.hourly[h].gained.Plus(LostAt(w.log, w.zeroed, h))
    {
      IsTile(c.hour, c, w.log, h);
      HourIsAccounted(c, w.log, w.zeroed, h);
    }
    forall d | d in w.s.daily
      ensures Reported(w.log, d, c.day.next(d)).energy
           == w.s.daily[d].dayYield + Lost(w.log, w.zeroed, d, c.day.next(d)).energy
      ensures Reported(w.log, c.month.start(d), c.day.next(d))
           == w.s.daily[d].month.Plus(Lost(w.log, w.zeroed, c.month.start(d), c.day.next(d)))
    {
      IsTile(c.day, c, w.log, d);
      PeriodIsAccounted(c, c.day, c.month, w.log, w.zeroed, d);
    }
    forall m | m in w.s.monthly
      ensures Reported(w.log, m, c.month.next(m)).energy
           == w.s.monthly[m].monthYield + Lost(w.log, w.zeroed, m, c.month.next(m)).energy
      ensures Reported(w.log, c.year.start(m), c.month.next(m))
           == w.s.monthly[m].year.Plus(Lost(w.log, w.zeroed, c.year.start(m), c.month.next(m)))
    {
      IsTile(c.month, c, w.log, m);
      PeriodIsAccounted(c, c.month, c.year, w.log, w.zeroed, m);
    }
  }

  lemma ZeroedAreReset(c: Calendar, log: seq<Reading>, z: set<int>, T: int)
    requires ZeroedRight(c, log, z, T)
    ensures ZeroedReset(log, z)
  {
    hide HasReading, ResetIn;
  }

  predicate AtMost(a: Amount, b: Amount) { a.energy <= b.energy && a.pump <= b.pump }

  lemma CumNotNegative(c: Calendar, log: seq<Reading>, t: int)
    requires Chronological(log) && Chained(c, log) && NonNegative(log)
    ensures AtMost(ZERO, CumAt(log, t))
  {
    hide Chained, NonNegative, CountBefore;
    CumsNotNegative(c, log, |log|);
  }

  lemma {:induction false} LostNotNegative(c: Calendar, log: seq<Reading>, z: set<int>, lo: int, hi: int)
    requires Chronological(log) && Chained(c, log) && NonNegative(log)
    ensures AtMost(ZERO, LostAt(log, z, lo)) && AtMost(ZERO, Lost(log, z, lo, hi))
    decreases hi - lo
  {
    hide Chained, NonNegative, CumAt, ResetIn;
    CumNotNegative(c, log, lo);
    CumNotNegative(c, log, lo + HOUR_SECONDS);
    if lo < hi {
      LostNotNegative(c, log, z, lo + HOUR_SECONDS, hi);
    }
  }

  /** And so no row holds more than that. */
  lemma LogBoundsRows(c: Calendar, events: seq<Event>)
    requires c.Valid() && InOrder(events, c.origin) && NoNegativeDeltas(events)
    ensures var w := Run(c, Start(c), events);
            && Chronological(w.log)
            && (forall h :: h in w.s.hourly ==> AtMost(w.s.hourly[h].gained, Reported(w.log, h, h + HOUR_SECONDS)))
            && (forall d :: d in w.s.daily ==>
                  && w.s.daily[d].dayYield <= Reported(w.log, d, c.day.next(d)).energy
                  && AtMost(w.s.daily[d].month, Reported(w.log, c.month.start(d), c.day.next(d))))
            && (forall m :: m in w.s.monthly ==>
                  && w.s.monthly[m].monthYield <= Reported(w.log, m, c.month.next(m)).energy
                  && AtMost(w.s.monthly[m].year, Reported(w.log, c.year.start(m), c.month.next(m))))
  {
    hide Run, WorldIsRight, Chained, ZeroedRight, NonNegative, Start, Reported, Lost, LostAt, Rolled, Calendar.Valid;
    var w := Run(c, Start(c), events);
    RunIsRight(c, events);
    RunIsNonNegative(c, events);
    EndsRight(c, w);
    LogRowsAccount(c, events);
    forall h | h in w.s.hourly
      ensures AtMost(w.s.hourly[h].gained, Reported(w.log, h, h + HOUR_SECONDS))
    {
      LostNotNegative(c, w.log, w.zeroed, h, h);
    }
    forall d | d in w.s.daily
      ensures w.s.daily[d].dayYield <= Reported(w.log, d, c.day.next(d)).energy
      ensures AtMost(w.s.daily[d].month, Reported(w.log, c.month.start(d), c.day.next(d)))
    {
      LostNotNegative(c, w.log, w.zeroed, d, c.day.next(d));
      LostNotNegative(c, w.log, w.zeroed, c.month.start(d), c.day.next(d));
    }
    forall m | m in w.s.monthly
      ensures w.s.monthly[m].monthYield <= Reported(w.log, m, c.month.next(m)).energy
      ensures AtMost(w.s.monthly[m].year, Reported(w.log, c.year.start(m), c.month.next(m)))
    {
      LostNotNegative(c, w.log, w.zeroed, m, c.month.next(m));
      LostNotNegative(c, w.log, w.zeroed, c.year.start(m), c.month.next(m));
    }
  }

  lemma IsTile(tl: Tiling, c: Calendar, log: seq<Reading>, b: int)
    requires c.Valid() && (tl == c.hour || tl == c.day || tl == c.month) && HasReading(tl, log, b)
    ensures tl.Valid() && tl.Is(b)
  {
    hide Tiling.Valid, Calendar.Valid;
    c.Parts();
    var i :| 0 <= i < |log| && tl.start(log[i].t) == b;
    tl.StartOf(log[i].t);
  }

  lemma PeriodIsAccounted(c: Calendar, tl: Tiling, coarse: Tiling, log: seq<Reading>, z: set<int>, b: int)
    requires c.Valid() && Chronological(log) && Chained(c, log) && NonNegative(log) && ZeroedReset(log, z)
    requires (tl == c.day && coarse == c.month) || (tl == c.month && coarse == c.year)
    requires tl.Is(b)
    ensures Reported(log, b, tl.next(b)) == YieldSum(c, log, z, b, tl.next(b)).Plus(Lost(log, z, b, tl.next(b)))
    ensures Reported(log, coarse.start(b), tl.next(b))
         == YieldSum(c, log, z, coarse.start(b), tl.next(b)).Plus(Lost(log, z, coarse.start(b), tl.next(b)))
  {
    hide Chained, NonNegative, ZeroedReset, Reported, YieldSum, Lost, Calendar.Valid, Tiling.Valid;
    c.Parts();
    tl.NextOf(b);
    coarse.StartOf(b);
    EnergyIsAccounted(c, log, z, b, tl.next(b));
    EnergyIsAccounted(c, log, z, coarse.start(b), tl.next(b));
  }

  // ---------------------------------------------------------------- rows are final

  lemma {:induction false} RunAppends(c: Calendar, w: World, first: seq<Event>, later: seq<Event>)
    ensures Run(c, w, first + later) == Run(c, Run(c, w, first), later)
  {
    hide Step;
    if later == [] {
      assert first + later == first;
    } else {
      var n := |later| - 1;
      RunAppends(c, w, first, later[..n]);
      assert (first + later)[..|first + later| - 1] == first + later[..n];
    }
  }

  lemma {:induction false} LaterReadingsAreLater(c: Calendar, w: World, later: seq<Event>)
    requires forall i :: 0 <= i < |later| ==> w.now <= later[i].ts
    ensures var log := Run(c, w, later).log;
            w.log <= log && forall i :: |w.log| <= i < |log| ==> w.now <= log[i].t
  {
    hide Pass, MaxOf;
    if later != [] {
      LaterReadingsAreLater(c, w, later[..|later| - 1]);
    }
  }

  /** Rows of periods closed before T are settled: readings at or after T cannot touch them. */
  lemma {:induction false} ClosedRowsSettled(c: Calendar, log: seq<Reading>, z: set<int>, whole: seq<Reading>, T: int)
    requires c.Valid() && Chronological(whole) && log <= whole
    requires forall i :: |log| <= i < |whole| ==> T <= whole[i].t
    ensures Chronological(log)
    ensures forall h :: c.hour.Is(h) && h < c.hour.start(T) ==> HourSpec(c, whole, z, h) == HourSpec(c, log, z, h)
    ensures forall d :: c.day.Is(d) && d < c.day.start(T) ==> DaySpec(c, whole, z, d) == DaySpec(c, log, z, d)
    ensures forall m :: c.month.Is(m) && m < c.month.start(T) ==> MonthSpec(c, whole, z, m) == MonthSpec(c, log, z, m)
    decreases |whole|
  {
    hide HourSpec, DaySpec, MonthSpec, Calendar.Valid, Tiling.Valid;
    if |log| == |whole| {
      assert log == whole;
    } else {
      var n := |whole| - 1;
      assert whole == whole[..n] + [whole[n]];
      ClosedRowsSettled(c, log, z, whole[..n], T);
      RowsOfExtension(c, whole[..n], z, whole[n], T);
    }
  }

  ghost predicate SameRows(a: Tables, b: Tables) {
    && (forall h :: h in a.hourly && h in b.hourly ==> a.hourly[h] == b.hourly[h])
    && (forall d :: d in a.daily && d in b.daily ==> a.daily[d] == b.daily[d])
    && (forall m :: m in a.monthly ==> m in b.monthly && a.monthly[m] == b.monthly[m])
  }

  lemma HourRowsAgree(c: Calendar, log: seq<Reading>, z: set<int>, whole: seq<Reading>, z': set<int>, T: int,
                      lo: int, lo': int, hi: int)
    requires c.Valid() && Chronological(whole) && Chronological(log) && log <= whole
    requires forall i :: |log| <= i < |whole| ==> T <= whole[i].t
    requires Agree(z, z', c.hour.start(T))
    ensures var a, b := HourTable(c, log, z, lo, c.hour.start(T)), HourTable(c, whole, z', lo', hi);
            forall h :: h in a && h in b ==> a[h] == b[h]
  {
    hide HourSpec, DaySpec, MonthSpec, Calendar.Valid, Tiling.Valid;
    ClosedRowsSettled(c, log, z, whole, T);
    forall h | h in HourTable(c, log, z, lo, c.hour.start(T))
      ensures c.hour.Is(h) && HourSpec(c, whole, z, h) == HourSpec(c, whole, z', h)
    {
      IsTile(c.hour, c, log, h);
      SameHour(c, whole, z, z', h);
    }
  }

  lemma SameHour(c: Calendar, log: seq<Reading>, z: set<int>, z': set<int>, h: int)
    requires Chronological(log) && (h in z <==> h in z')
    ensures HourSpec(c, log, z, h) == HourSpec(c, log, z', h)
  {
    hide CumAt;
  }

  /** The sets agree on the hours of every period closed as of T. */
  lemma AgreeOnPeriod(c: Calendar, tl: Tiling, z: set<int>, z': set<int>, T: int, b: int)
    requires c.Valid() && (tl == c.day || tl == c.month) && tl.Is(b) && b < tl.start(T)
    requires Agree(z, z', c.hour.start(T))
    ensures Agree(z, z', tl.next(b))
  {
    hide Calendar.Valid, Tiling.Valid;
    c.Parts();
    NestedStart(c.hour, c.day, T);
    NestedStart(c.day, c.month, T);
    tl.StartOf(T);
    tl.NextIsFirst(b, tl.start(T));
  }

  lemma DayRowsAgree(c: Calendar, log: seq<Reading>, z: set<int>, whole: seq<Reading>, z': set<int>, T: int,
                     lo: int, lo': int, hi: int)
    requires c.Valid() && Chronological(whole) && Chronological(log) && log <= whole
    requires forall i :: |log| <= i < |whole| ==> T <= whole[i].t
    requires Agree(z, z', c.hour.start(T))
    ensures var a, b := DayTable(c, log, z, lo, c.day.start(T)), DayTable(c, whole, z', lo', hi);
            forall d :: d in a && d in b ==> a[d] == b[d]
  {
    hide HourSpec, DaySpec, MonthSpec, Agree, Calendar.Valid, Tiling.Valid;
    ClosedRowsSettled(c, log, z, whole, T);
    forall d | d in DayTable(c, log, z, lo, c.day.start(T))
      ensures c.day.Is(d) && DaySpec(c, whole, z, d) == DaySpec(c, whole, z', d)
    {
      IsTile(c.day, c, log, d);
      AgreeOnPeriod(c, c.day, z, z', T, d);
      SameDay(c, whole, z, z', d);
    }
  }

  lemma MonthRowsAgree(c: Calendar, log: seq<Reading>, z: set<int>, whole: seq<Reading>, z': set<int>, T: int,
                       ts: int, lo: int)
    requires c.Valid() && Chronological(whole) && Chronological(log) && log <= whole && T <= ts
    requires forall i :: |log| <= i < |whole| ==> T <= whole[i].t
    requires Agree(z, z', c.hour.start(T))
    ensures var a, b := MonthTable(c, log, z, lo, c.month.start(T)), MonthTable(c, whole, z', lo, c.month.start(ts));
            forall m :: m in a ==> m in b && a[m] == b[m]
  {
    hide HourSpec, DaySpec, MonthSpec, Agree, Calendar.Valid, Tiling.Valid;
    c.Parts();
    ClosedRowsSettled(c, log, z, whole, T);
    c.month.Monotone(T, ts);
    forall m | m in MonthTable(c, log, z, lo, c.month.start(T))
      ensures c.month.Is(m) && m in MonthTable(c, whole, z', lo, c.month.start(ts))
      ensures MonthSpec(c, whole, z, m) == MonthSpec(c, whole, z', m)
    {
      IsTile(c.month, c, log, m);
      AgreeOnPeriod(c, c.month, z, z', T, m);
      SameMonth(c, whole, z, z', m);
      var i :| 0 <= i < |log| && c.month.start(log[i].t) == m;
      assert whole[i] == log[i];
    }
  }

  lemma RolledRowsAgree(c: Calendar, log: seq<Reading>, z: set<int>, whole: seq<Reading>, z': set<int>, T: int, ts: int,
                        a: Tables, b: Tables)
    requires c.Valid() && Chronological(whole) && Chronological(log) && log <= whole && T <= ts
    requires forall i :: |log| <= i < |whole| ==> T <= whole[i].t
    requires Agree(z, z', c.hour.start(T))
    requires Rolled(c, log, z, T, a) && Rolled(c, whole, z', ts, b)
    ensures SameRows(a, b)
  {
    hide HourTable, DayTable, MonthTable, IsRawTable, Calendar.Valid;
    HourRowsAgree(c, log, z, whole, z', T, c.hourCut(T), c.hourCut(ts), c.hour.start(ts));
    DayRowsAgree(c, log, z, whole, z', T, c.dayCut(T), c.dayCut(ts), c.day.start(ts));
    MonthRowsAgree(c, log, z, whole, z', T, ts, c.month.start(c.origin));
  }

  /** A row, once written, is changed by nothing that happens later, unless an hour is measured anew after
      the row before it has been pruned; retention may only remove rows, and month rows stay for good. */
  lemma RowsAreFinalUnlessRemeasured(c: Calendar, first: seq<Event>, later: seq<Event>)
    requires c.Valid() && InOrder(first + later, c.origin)
    requires var a, b := Run(c, Start(c), first), Run(c, Start(c), first + later);
             Agree(a.zeroed, b.zeroed, c.hour.start(a.lastPass))
    ensures SameRows(Run(c, Start(c), first).s, Run(c, Start(c), first + later).s)
  {
    hide Run, WorldIsRight, Rolled, SameRows, Agree, Calendar.Valid, Tiling.Valid;
    var a, b := Run(c, Start(c), first), Run(c, Start(c), first + later);
    RunAppends(c, Start(c), first, later);
    PrefixInOrder(c, first, later);
    EmptyRun(c);
    RunIsRight(c, first + later);
    NowOfPrefix(c, first, later);
    LaterReadingsAreLater(c, a, later);
    RunIsRight(c, first);
    EndsRight(c, a);
    EndsRight(c, b);
    PassTimesAscend(c, a, later);
    RolledRowsAgree(c, a.log, a.zeroed, b.log, b.zeroed, a.lastPass, b.lastPass, a.s, b.s);
  }

  /** With no silence too long that never happens, and every row is final. */
  lemma RowsAreFinal(c: Calendar, first: seq<Event>, later: seq<Event>)
    requires c.Valid() && InOrder(first + later, c.origin)
    requires NoLongSilence(c, Run(c, Start(c), first + later).log)
    ensures SameRows(Run(c, Start(c), first).s, Run(c, Start(c), first + later).s)
  {
    hide Run, NoLongSilence, SameRows, Calendar.Valid, Tiling.Valid;
    var a, b := Run(c, Start(c), first), Run(c, Start(c), first + later);
    RunAppends(c, Start(c), first, later);
    PrefixInOrder(c, first, later);
    NowOfPrefix(c, first, later);
    LaterReadingsAreLater(c, a, later);
    SilenceOfPrefix(c, a.log, b.log);
    NothingZeroedInRun(c, first);
    NothingZeroedInRun(c, first + later);
    RowsAreFinalUnlessRemeasured(c, first, later);
  }

  lemma EmptyRun(c: Calendar)
    ensures Run(c, Start(c), []) == Start(c)
  {}

  lemma PrefixInOrder(c: Calendar, first: seq<Event>, later: seq<Event>)
    requires InOrder(first + later, c.origin)
    ensures InOrder(first, c.origin)
  {
    assert forall i :: 0 <= i < |first| ==> (first + later)[i] == first[i];
  }

  lemma {:induction false} NowOfRun(c: Calendar, events: seq<Event>)
    ensures Run(c, Start(c), events).now == if events == [] then c.origin else events[|events| - 1].ts
  {
    hide Pass, Stored;
  }

  lemma NowOfPrefix(c: Calendar, first: seq<Event>, later: seq<Event>)
    requires InOrder(first + later, c.origin)
    ensures forall i :: 0 <= i < |later| ==> Run(c, Start(c), first).now <= later[i].ts
  {
    hide Run;
    var whole := first + later;
    NowOfRun(c, first);
    forall i | 0 <= i < |later|
      ensures Run(c, Start(c), first).now <= later[i].ts
    {
      assert whole[|first| + i] == later[i];
      if first != [] {
        assert whole[|first| - 1] == first[|first| - 1];
      }
    }
  }

  lemma {:induction false} PassTimesAscend(c: Calendar, w: World, later: seq<Event>)
    requires w.lastPass <= w.now && forall i :: 0 <= i < |later| ==> w.now <= later[i].ts
    ensures w.lastPass <= Run(c, w, later).lastPass
  {
    hide Pass, Stored;
    if later != [] {
      PassTimesAscend(c, w, later[..|later| - 1]);
    }
  }
}
