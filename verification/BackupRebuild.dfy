/** RebuildSolarAggregates seen from both sides: what the roll-up recomputes from the raw rows that are left, and
    what the mirror is told of it. */
module BackupRebuild {
  import opened Calendar
  import opened Queries
  import opened Backup
  import opened BackupProofs
  import R = SolarRoll
  import S = SolarModel

  // ---------------------------------------------------------------- what is recomputed

  /** The three levels over the kept raw rows, from empty aggregate tables. */
  ghost function Recomputed(c: Calendar, raw: map<int, S.Amount>, now: int): S.Tables {
    S.RollMonths(c, S.RollDays(c, S.RollHours(c, S.EMPTY.(raw := raw), now), now), now)
  }

  /** A period that is over and holds a raw row. */
  ghost predicate ClosedWithRaw(tl: Tiling, raw: map<int, S.Amount>, now: int, b: int) {
    exists t :: t in raw && tl.start(t) == b && b < tl.start(now)
  }

  lemma {:induction false} HoursWritten(c: Calendar, s: S.Tables, hs: seq<int>)
    requires forall h :: h in hs ==> LastIn(s.raw.Keys, h, c.hour.next(h)).Some?
    ensures var s' := S.Hours(c, s, hs);
            s' == s.(hourly := s'.hourly) && s'.hourly.Keys == s.hourly.Keys + R.Items(hs)
  {
    hide LastIn, LastBefore;
    if hs == [] {
      assert R.Items(hs) == {};
    } else {
      var n := |hs| - 1;
      assert hs == hs[..n] + [hs[n]] && hs[n] in hs;
      HoursWritten(c, s, hs[..n]);
      assert R.Items(hs) == R.Items(hs[..n]) + {hs[n]};
    }
  }

  lemma {:induction false} DaysWritten(c: Calendar, s: S.Tables, ds: seq<int>)
    requires forall d :: d in ds ==> LastIn(s.hourly.Keys, d, c.day.next(d)).Some?
    ensures var s' := S.Days(c, s, ds);
            s' == s.(daily := s'.daily) && s'.daily.Keys == s.daily.Keys + R.Items(ds)
  {
    hide LastIn, LastBefore, S.Gained;
    if ds == [] {
      assert R.Items(ds) == {};
    } else {
      var n := |ds| - 1;
      assert ds == ds[..n] + [ds[n]] && ds[n] in ds;
      DaysWritten(c, s, ds[..n]);
      assert R.Items(ds) == R.Items(ds[..n]) + {ds[n]};
    }
  }

  lemma {:induction false} MonthsWritten(c: Calendar, s: S.Tables, ms: seq<int>)
    requires forall m :: m in ms ==> LastIn(s.daily.Keys, m, c.month.next(m)).Some?
    ensures var s' := S.Months(c, s, ms);
            s' == s.(monthly := s'.monthly) && s'.monthly.Keys == s.monthly.Keys + R.Items(ms)
  {
    hide LastIn, LastBefore;
    if ms == [] {
      assert R.Items(ms) == {};
    } else {
      var n := |ms| - 1;
      assert ms == ms[..n] + [ms[n]] && ms[n] in ms;
      MonthsWritten(c, s, ms[..n]);
      assert R.Items(ms) == R.Items(ms[..n]) + {ms[n]};
    }
  }

  /** From an empty table a level visits each closed period that holds a key, and finds the key in it. */
  lemma VisitsFromEmpty(tl: Tiling, keys: set<int>, now: int)
    requires tl.Valid() && forall k :: k in keys ==> 0 <= k
    ensures var bs := BucketsToRoll(keys, S.LastBucket({}), tl.start(now), tl.start);
            && (forall b :: b in bs ==> LastIn(keys, b, tl.next(b)).Some?)
            && (forall b :: b in bs <==> b < tl.start(now) && exists k :: k in keys && tl.start(k) == b)
  {
    hide Tiling.Valid, LastIn, BucketsToRoll;
    tl.StartOf(now);
    var bs := BucketsToRoll(keys, 0, tl.start(now), tl.start);
    R.RollList(tl, keys, 0, tl.start(now));
    forall b | b in bs
      ensures LastIn(keys, b, tl.next(b)).Some?
    {
      var k :| k in keys && 0 <= k < tl.start(now) && tl.start(k) == b;
      tl.StartOf(k);
    }
    forall k | k in keys && tl.start(k) < tl.start(now)
      ensures tl.start(k) in bs
    {
      tl.StartOf(k);
      tl.NextIsFirst(tl.start(k), tl.start(now));
    }
  }

  lemma SpanNotNegative(c: Calendar, t: int)
    requires c.Valid() && c.origin <= t
    ensures 0 <= c.month.start(t) <= c.day.start(t) <= c.hour.start(t) <= t
  {
    hide Calendar.Valid, Tiling.Valid;
    c.Parts();
    c.month.Monotone(c.origin, t);
    NestedStart(c.day, c.month, t);
    NestedStart(c.hour, c.day, t);
    c.hour.StartOf(t);
    OriginNotNegative(c);
  }

  lemma OriginNotNegative(c: Calendar)
    requires c.Valid()
    ensures 0 <= c.month.start(c.origin)
  {}

  lemma RecomputedHours(c: Calendar, raw: map<int, S.Amount>, now: int)
    requires c.Valid() && forall t :: t in raw ==> c.origin <= t
    ensures var s := S.RollHours(c, S.EMPTY.(raw := raw), now);
            && s.daily == map[] && s.monthly == map[]
            && forall b :: b in s.hourly <==> ClosedWithRaw(c.hour, raw, now, b)
  {
    hide Calendar.Valid, Tiling.Valid, LastIn, BucketsToRoll, S.Hours, S.LastBucket;
    c.Parts();
    var s := S.EMPTY.(raw := raw);
    var hs := BucketsToRoll(raw.Keys, S.LastBucket({}), c.hour.start(now), c.hour.start);
    forall t | t in raw.Keys ensures 0 <= t { SpanNotNegative(c, t); }
    VisitsFromEmpty(c.hour, raw.Keys, now);
    HoursWritten(c, s, hs);
    assert s.hourly.Keys == {};
  }

  lemma RecomputedDays(c: Calendar, raw: map<int, S.Amount>, s: S.Tables, now: int)
    requires c.Valid() && forall t :: t in raw ==> c.origin <= t
    requires s.daily == map[] && forall b :: b in s.hourly <==> ClosedWithRaw(c.hour, raw, now, b)
    ensures var s' := S.RollDays(c, s, now);
            s' == s.(daily := s'.daily) && forall b :: b in s'.daily <==> ClosedWithRaw(c.day, raw, now, b)
  {
    hide Calendar.Valid, Tiling.Valid, LastIn, BucketsToRoll, S.Days, S.LastBucket;
    c.Parts();
    var ds := BucketsToRoll(s.hourly.Keys, S.LastBucket({}), c.day.start(now), c.day.start);
    forall h | h in s.hourly.Keys ensures 0 <= h {
      var t :| t in raw && c.hour.start(t) == h;
      SpanNotNegative(c, t);
    }
    VisitsFromEmpty(c.day, s.hourly.Keys, now);
    DaysWritten(c, s, ds);
    assert s.daily.Keys == {};
    forall b
      ensures b in ds <==> ClosedWithRaw(c.day, raw, now, b)
    {
      if b in ds {
        var h :| h in s.hourly.Keys && c.day.start(h) == b;
        var t :| t in raw && c.hour.start(t) == h;
        NestedStart(c.hour, c.day, t);
      }
      if ClosedWithRaw(c.day, raw, now, b) {
        var t :| t in raw && c.day.start(t) == b && b < c.day.start(now);
        NestedStart(c.hour, c.day, t);
        HourIsOver(c, t, now);
        assert c.hour.start(t) in s.hourly.Keys;
      }
    }
  }

  /** The hour of a reading of an earlier day is over. */
  lemma HourIsOver(c: Calendar, t: int, now: int)
    requires c.Valid() && c.day.start(t) < c.day.start(now)
    ensures c.hour.start(t) < c.hour.start(now)
  {
    hide Calendar.Valid, Tiling.Valid;
    c.Parts();
    NestedStart(c.hour, c.day, now);
    c.day.StartOf(t);
    c.day.StartOf(now);
    c.day.NextIsFirst(c.day.start(t), c.day.start(now));
    c.hour.StartOf(t);
  }

  lemma DayIsOver(c: Calendar, t: int, now: int)
    requires c.Valid() && c.month.start(t) < c.month.start(now)
    ensures c.day.start(t) < c.day.start(now)
  {
    hide Calendar.Valid, Tiling.Valid;
    c.Parts();
    NestedStart(c.day, c.month, now);
    c.month.StartOf(t);
    c.month.StartOf(now);
    c.month.NextIsFirst(c.month.start(t), c.month.start(now));
    c.day.StartOf(t);
  }

  lemma RecomputedMonths(c: Calendar, raw: map<int, S.Amount>, s: S.Tables, now: int)
    requires c.Valid() && forall t :: t in raw ==> c.origin <= t
    requires s.monthly == map[] && forall b :: b in s.daily <==> ClosedWithRaw(c.day, raw, now, b)
    ensures var s' := S.RollMonths(c, s, now);
            s' == s.(monthly := s'.monthly) && forall b :: b in s'.monthly <==> ClosedWithRaw(c.month, raw, now, b)
  {
    hide Calendar.Valid, Tiling.Valid, LastIn, BucketsToRoll, S.Months, S.LastBucket;
    c.Parts();
    var ms := BucketsToRoll(s.daily.Keys, S.LastBucket({}), c.month.start(now), c.month.start);
    forall d | d in s.daily.Keys ensures 0 <= d {
      var t :| t in raw && c.day.start(t) == d;
      SpanNotNegative(c, t);
    }
    VisitsFromEmpty(c.month, s.daily.Keys, now);
    MonthsWritten(c, s, ms);
    assert s.monthly.Keys == {};
    forall b
      ensures b in ms <==> ClosedWithRaw(c.month, raw, now, b)
    {
      if b in ms {
        var d :| d in s.daily.Keys && c.month.start(d) == b;
        var t :| t in raw && c.day.start(t) == d;
        NestedStart(c.day, c.month, t);
      }
      if ClosedWithRaw(c.month, raw, now, b) {
        var t :| t in raw && c.month.start(t) == b && b < c.month.start(now);
        NestedStart(c.day, c.month, t);
        DayIsOver(c, t, now);
        assert c.day.start(t) in s.daily.Keys;
      }
    }
  }

  function TilingOf(c: Calendar, level: Level): Tiling {
    match level case Hourly => c.hour case Daily => c.day case Monthly => c.month
  }

  function BucketsOf(s: S.Tables, level: Level): set<int> {
    match level case Hourly => s.hourly.Keys case Daily => s.daily.Keys case Monthly => s.monthly.Keys
  }

  /** A rebuild recomputes exactly the closed periods that still hold raw rows, at every level. */
  lemma RecomputedIffRaw(c: Calendar, raw: map<int, S.Amount>, now: int, level: Level, b: int)
    requires c.Valid() && forall t :: t in raw ==> c.origin <= t
    ensures b in BucketsOf(Recomputed(c, raw, now), level) <==> ClosedWithRaw(TilingOf(c, level), raw, now, b)
  {
    hide Calendar.Valid, Tiling.Valid, S.RollHours, S.RollDays, S.RollMonths, ClosedWithRaw;
    RecomputedHours(c, raw, now);
    var s1 := S.RollHours(c, S.EMPTY.(raw := raw), now);
    RecomputedDays(c, raw, s1, now);
    var s2 := S.RollDays(c, s1, now);
    RecomputedMonths(c, raw, s2, now);
  }

  // ---------------------------------------------------------------- what is queued

  /** The mirrored text of a row. */
  datatype Shown = Shown(hour: S.HourRow -> Row, day: S.DayRow -> Row, month: S.MonthRow -> Row)

  /** The rows of one level, in ascending order. */
  function LevelRemade<T>(level: Level, rows: map<int, T>, show: T -> Row): (remade: seq<Remade>)
    ensures |remade| == |Sorted(rows.Keys)|
    ensures forall i :: 0 <= i < |remade| ==> remade[i].level == level && remade[i].bucket == Sorted(rows.Keys)[i]
  {
    var bs := Sorted(rows.Keys);
    assert forall i :: 0 <= i < |bs| ==> bs[i] in bs;
    seq(|bs|, i requires 0 <= i < |bs| => Remade(level, bs[i], show(rows[bs[i]])))
  }

  /** The rows a rebuild inserts, hours first. */
  function RemadeOf(show: Shown, s: S.Tables): seq<Remade> {
    LevelRemade(Hourly, s.hourly, show.hour)
    + (LevelRemade(Daily, s.daily, show.day) + LevelRemade(Monthly, s.monthly, show.month))
  }

  ghost predicate InRemade(remade: seq<Remade>, level: Level, b: int) {
    exists i :: 0 <= i < |remade| && remade[i].level == level && remade[i].bucket == b
  }

  lemma InLevel<T>(level: Level, rows: map<int, T>, show: T -> Row, level': Level, b: int)
    ensures InRemade(LevelRemade(level, rows, show), level', b) <==> level' == level && b in rows
  {
    hide Sorted;
    var bs, remade := Sorted(rows.Keys), LevelRemade(level, rows, show);
    if b in rows && level' == level {
      var i :| 0 <= i < |bs| && bs[i] == b;
      assert remade[i].level == level && remade[i].bucket == b;
    }
    assert forall i :: 0 <= i < |bs| ==> bs[i] in bs;
  }

  lemma InBoth(x: seq<Remade>, y: seq<Remade>, level: Level, b: int)
    ensures InRemade(x + y, level, b) <==> InRemade(x, level, b) || InRemade(y, level, b)
  {
    if InRemade(x, level, b) {
      var i :| 0 <= i < |x| && x[i].level == level && x[i].bucket == b;
      assert (x + y)[i] == x[i];
    }
    if InRemade(y, level, b) {
      var i :| 0 <= i < |y| && y[i].level == level && y[i].bucket == b;
      assert (x + y)[|x| + i] == y[i];
    }
  }

  lemma RemadeHasBuckets(show: Shown, s: S.Tables, level: Level, b: int)
    ensures InRemade(RemadeOf(show, s), level, b) <==> b in BucketsOf(s, level)
  {
    hide LevelRemade, InRemade;
    var hours, days := LevelRemade(Hourly, s.hourly, show.hour), LevelRemade(Daily, s.daily, show.day);
    var months := LevelRemade(Monthly, s.monthly, show.month);
    InLevel(Hourly, s.hourly, show.hour, level, b);
    InLevel(Daily, s.daily, show.day, level, b);
    InLevel(Monthly, s.monthly, show.month, level, b);
    InBoth(hours, days + months, level, b);
    InBoth(days, months, level, b);
  }

  // ---------------------------------------------------------------- the exact condition

  /** The node's row at k is recomputed from raw rows, or lies before a cut-off that a recomputed row lies before
      too, so that a rebuild with backup switched on queues the prune. */
  ghost predicate CoveredByRaw(c: Calendar, raw: map<int, S.Amount>, now: int, k: Key)
    requires k.Bar?
  {
    || ClosedWithRaw(TilingOf(c, k.level), raw, now, k.bucket)
    || (k.level.Hourly? && k.bucket < c.hourCut(now) && RawBelow(c.hour, raw, now, c.hourCut(now)))
    || (k.level.Daily? && k.bucket < c.dayCut(now) && RawBelow(c.day, raw, now, c.dayCut(now)))
  }

  ghost predicate RawBelow(tl: Tiling, raw: map<int, S.Amount>, now: int, cut: int) {
    exists b :: ClosedWithRaw(tl, raw, now, b) && b < cut
  }

  /** With the prunes queued: each of the node's rows is covered. Without them, as in the import: each is recomputed,
      and no raw row is older than the hourly cut-off. */
  ghost predicate RawCovers(rows: Rows, id: int, c: Calendar, raw: map<int, S.Amount>, now: int, backupOn: bool) {
    if backupOn then
      forall k :: k in rows && k.Bar? && k.id == id ==> CoveredByRaw(c, raw, now, k)
    else
      && (forall k :: k in rows && k.Bar? && k.id == id ==> ClosedWithRaw(TilingOf(c, k.level), raw, now, k.bucket))
      && (forall t :: t in raw ==> c.hourCut(now) <= t)
  }

  /** An hour or a day before its cut-off is recomputed exactly if a raw row is older than the hourly cut-off. */
  lemma OldIffBelow(c: Calendar, raw: map<int, S.Amount>, now: int)
    requires c.Valid()
    ensures (RawBelow(c.hour, raw, now, c.hourCut(now)) || RawBelow(c.day, raw, now, c.dayCut(now)))
        <==> exists t :: t in raw && t < c.hourCut(now)
  {
    hide Calendar.Valid, Tiling.Valid;
    c.Parts();
    CutsOf(c, now);
    var cut := c.hourCut(now);
    if t :| t in raw && t < cut {
      c.hour.StartOf(t);
      c.hour.StartIsLast(cut, now);
      assert ClosedWithRaw(c.hour, raw, now, c.hour.start(t));
    }
    if b :| ClosedWithRaw(c.hour, raw, now, b) && b < cut {
      var t :| t in raw && c.hour.start(t) == b && b < c.hour.start(now);
      BeforeTile(c.hour, t, cut);
    }
    if b :| ClosedWithRaw(c.day, raw, now, b) && b < c.dayCut(now) {
      var t :| t in raw && c.day.start(t) == b && b < c.day.start(now);
      BeforeTile(c.day, t, c.dayCut(now));
    }
  }

  lemma BeforeTile(tl: Tiling, t: int, cut: int)
    requires tl.Valid() && tl.Is(cut) && tl.start(t) < cut
    ensures t < cut
  {
    hide Tiling.Valid;
    tl.StartOf(t);
    tl.NextIsFirst(tl.start(t), cut);
  }

  lemma CutsOf(c: Calendar, now: int)
    requires c.Valid()
    ensures c.hour.Is(c.hourCut(now)) && c.day.Is(c.dayCut(now)) && c.dayCut(now) <= c.hourCut(now) <= now
  {
    hide Tiling.Valid;
  }

  /** What is rewritten, and whether anything before a cut-off is, told from the raw rows. */
  lemma RemadeIffRaw(c: Calendar, raw: map<int, S.Amount>, now: int, show: Shown, id: int)
    requires c.Valid() && forall t :: t in raw ==> c.origin <= t
    ensures var remade := RemadeOf(show, Recomputed(c, raw, now));
            && (forall k: Key :: k.Bar? && k.id == id ==>
                  (Refills(id, remade, k) <==> ClosedWithRaw(TilingOf(c, k.level), raw, now, k.bucket)))
            && (RemadeBelow(remade, Hourly, c.hourCut(now)) <==> RawBelow(c.hour, raw, now, c.hourCut(now)))
            && (RemadeBelow(remade, Daily, c.dayCut(now)) <==> RawBelow(c.day, raw, now, c.dayCut(now)))
  {
    hide Calendar.Valid, Recomputed, RemadeOf, ClosedWithRaw, BucketsOf, RawBelow, RemadeBelow;
    var s := Recomputed(c, raw, now);
    var remade := RemadeOf(show, s);
    forall level, b
      ensures InRemade(remade, level, b) <==> ClosedWithRaw(TilingOf(c, level), raw, now, b)
    {
      RemadeHasBuckets(show, s, level, b);
      RecomputedIffRaw(c, raw, now, level, b);
    }
    assert forall k: Key :: k.Bar? && k.id == id ==> (Refills(id, remade, k) <==> InRemade(remade, k.level, k.bucket));
    BelowIffRaw(remade, c, raw, now, Hourly, c.hourCut(now));
    BelowIffRaw(remade, c, raw, now, Daily, c.dayCut(now));
  }

  lemma BelowIffRaw(remade: seq<Remade>, c: Calendar, raw: map<int, S.Amount>, now: int, level: Level, cut: int)
    requires forall b :: InRemade(remade, level, b) <==> ClosedWithRaw(TilingOf(c, level), raw, now, b)
    ensures RemadeBelow(remade, level, cut) <==> RawBelow(TilingOf(c, level), raw, now, cut)
  {
    hide ClosedWithRaw;
    if RemadeBelow(remade, level, cut) {
      var i :| 0 <= i < |remade| && remade[i].level == level && remade[i].bucket < cut;
      assert InRemade(remade, level, remade[i].bucket);
    }
    if RawBelow(TilingOf(c, level), raw, now, cut) {
      var b :| ClosedWithRaw(TilingOf(c, level), raw, now, b) && b < cut;
      assert InRemade(remade, level, b);
    }
  }

  lemma SafeIffRawCovers(rows: Rows, id: int, c: Calendar, raw: map<int, S.Amount>, now: int, show: Shown, backupOn: bool)
    requires c.Valid() && forall t :: t in raw ==> c.origin <= t
    ensures RebuildIsSafe(rows, id, RemadeOf(show, Recomputed(c, raw, now)), Cuts(c.hourCut(now), c.dayCut(now)), backupOn)
        <==> RawCovers(rows, id, c, raw, now, backupOn)
  {
    hide Calendar.Valid, Recomputed, RemadeOf, ClosedWithRaw, RawBelow, RemadeBelow, Refills;
    RemadeIffRaw(c, raw, now, show, id);
    OldIffBelow(c, raw, now);
  }

  /** RebuildSolarAggregates deletes rows behind the triggers' back: with everything seeded, gateway and mirror still
      agree after it exactly if the raw rows that are left cover each aggregate row the node had and, in a process
      without backup such as the import, none of them is so old that what is recomputed from it is pruned again. */
  lemma RebuildAgreesIffRawCovers(w: World, id: int, c: Calendar, raw: map<int, S.Amount>, now: int, show: Shown,
                                  backupOn: bool)
    requires Replicated(w) && (forall level :: BarTable(level) in w.seeded)
    requires c.Valid() && forall t :: t in raw ==> c.origin <= t
    ensures var remade := RemadeOf(show, Recomputed(c, raw, now));
            var w' := Step(w, Rebuild(id, remade, Cuts(c.hourCut(now), c.dayCut(now)), backupOn));
            && (Agree(w') <==> RawCovers(w.rows, id, c, raw, now, backupOn))
            && (Replicated(w') <==> RawCovers(w.rows, id, c, raw, now, backupOn))
  {
    hide Calendar.Valid, Recomputed, RemadeOf, RawCovers, RebuildIsSafe, Agree, Replicated, Rebuilt;
    var remade, cuts := RemadeOf(show, Recomputed(c, raw, now)), Cuts(c.hourCut(now), c.dayCut(now));
    RebuildAgreesIffSafe(w, id, remade, cuts, backupOn);
    SafeIffRawCovers(w.rows, id, c, raw, now, show, backupOn);
  }

  /** The import of a history older than the hourly cut-off leaves gateway and mirror apart even on a node that had no
      aggregate rows: what is recomputed from it is pushed, pruned on the gateway, and the prune never queued. */
  lemma OldImportDisagrees(w: World, id: int, c: Calendar, raw: map<int, S.Amount>, now: int, show: Shown, t: int)
    requires Replicated(w) && (forall level :: BarTable(level) in w.seeded)
    requires c.Valid() && (forall t :: t in raw ==> c.origin <= t) && t in raw && t < c.hourCut(now)
    ensures var remade := RemadeOf(show, Recomputed(c, raw, now));
            !Agree(Step(w, Rebuild(id, remade, Cuts(c.hourCut(now), c.dayCut(now)), false)))
  {
    hide Calendar.Valid, Recomputed, RemadeOf, ClosedWithRaw, Agree, Replicated, Rebuilt;
    RebuildAgreesIffRawCovers(w, id, c, raw, now, show, false);
  }
}
