/** What the roll-up tables should hold, said directly in terms of the readings that were accepted.

    The parameter z is the set of hours that were measured against zero because the row before them had
    been pruned; it is empty as long as no silence outlasts the retention of hourly rows. */
module SolarLog {
  import opened Calendar
  import opened SolarModel

  ghost predicate Chronological(log: seq<Reading>) {
    forall i, j :: 0 <= i < j < |log| ==> log[i].t < log[j].t
  }

  /** How many readings came before time t. */
  ghost function CountBefore(log: seq<Reading>, t: int): (n: nat)
    requires Chronological(log)
    ensures n <= |log|
    ensures forall i :: 0 <= i < |log| ==> (log[i].t < t <==> i < n)
  {
    if log == [] || log[|log| - 1].t < t then |log| else CountBefore(log[..|log| - 1], t)
  }

  /** The cumulative of the last reading before t. */
  ghost function CumAt(log: seq<Reading>, t: int): Amount
    requires Chronological(log)
  {
    var n := CountBefore(log, t);
    if n == 0 then ZERO else log[n - 1].cum
  }

  /** What the hour that starts at t is measured against. */
  ghost function Base(log: seq<Reading>, z: set<int>, t: int): Amount
    requires Chronological(log)
  {
    if t in z then ZERO else CumAt(log, t)
  }

  /** What the hour that starts at t contributes; nothing if no hour starts at t. */
  ghost function YieldAt(c: Calendar, log: seq<Reading>, z: set<int>, t: int): Amount
    requires Chronological(log)
  {
    if c.hour.Is(t) then CumAt(log, t + HOUR_SECONDS).Since(Base(log, z, t)) else ZERO
  }

  /** What the hours that start in lo..hi contribute together. */
  ghost function YieldSum(c: Calendar, log: seq<Reading>, z: set<int>, lo: int, hi: int): Amount
    requires Chronological(log)
    decreases hi - lo
  {
    if hi <= lo then ZERO else YieldSum(c, log, z, lo, hi - 1).Plus(YieldAt(c, log, z, hi - 1))
  }

  /** The tiles in lo..hi that hold a reading. */
  ghost function Tiles(tl: Tiling, log: seq<Reading>, lo: int, hi: int): (s: set<int>)
    ensures forall i :: 0 <= i < |log| && lo <= tl.start(log[i].t) < hi ==> tl.start(log[i].t) in s
    ensures forall b :: b in s ==> lo <= b < hi && HasReading(tl, log, b)
  {
    set i | 0 <= i < |log| && lo <= tl.start(log[i].t) < hi :: tl.start(log[i].t)
  }

  ghost predicate HasReading(tl: Tiling, log: seq<Reading>, b: int) {
    exists i :: 0 <= i < |log| && tl.start(log[i].t) == b
  }

  ghost function HourSpec(c: Calendar, log: seq<Reading>, z: set<int>, h: int): HourRow
    requires Chronological(log)
  {
    HourRow(YieldAt(c, log, z, h), CumAt(log, h + HOUR_SECONDS))
  }

  ghost function DaySpec(c: Calendar, log: seq<Reading>, z: set<int>, d: int): DayRow
    requires Chronological(log)
  {
    DayRow(YieldSum(c, log, z, d, c.day.next(d)).energy, YieldSum(c, log, z, c.month.start(d), c.day.next(d)))
  }

  ghost function MonthSpec(c: Calendar, log: seq<Reading>, z: set<int>, m: int): MonthRow
    requires Chronological(log)
  {
    MonthRow(YieldSum(c, log, z, m, c.month.next(m)).energy, YieldSum(c, log, z, c.year.start(m), c.month.next(m)))
  }

  ghost function HourTable(c: Calendar, log: seq<Reading>, z: set<int>, lo: int, hi: int): map<int, HourRow>
    requires Chronological(log)
  {
    map h | h in Tiles(c.hour, log, lo, hi) :: HourSpec(c, log, z, h)
  }

  ghost function DayTable(c: Calendar, log: seq<Reading>, z: set<int>, lo: int, hi: int): map<int, DayRow>
    requires Chronological(log)
  {
    map d | d in Tiles(c.day, log, lo, hi) :: DaySpec(c, log, z, d)
  }

  ghost function MonthTable(c: Calendar, log: seq<Reading>, z: set<int>, lo: int, hi: int): map<int, MonthRow>
    requires Chronological(log)
  {
    map m | m in Tiles(c.month, log, lo, hi) :: MonthSpec(c, log, z, m)
  }

  /** Every key of a table is a period that holds a reading. */
  ghost predicate KeysHaveReadings(tl: Tiling, log: seq<Reading>, keys: set<int>) {
    forall k :: k in keys ==> HasReading(tl, log, k)
  }

  ghost predicate IsRawTable(raw: map<int, Amount>, log: seq<Reading>, cut: int) {
    && (forall i :: 0 <= i < |log| && cut <= log[i].t ==> log[i].t in raw && raw[log[i].t] == log[i].cum)
    && (forall t :: t in raw ==> cut <= t && exists i :: 0 <= i < |log| && log[i].t == t)
  }

  ghost predicate ResetIn(log: seq<Reading>, lo: int, hi: int) {
    exists i :: 0 <= i < |log| && lo <= log[i].t < hi && log[i].reset
  }

  /** The state after the last pass, at time T, and any number of readings since. */
  ghost predicate Rolled(c: Calendar, log: seq<Reading>, z: set<int>, T: int, s: Tables)
    requires Chronological(log)
  {
    && IsRawTable(s.raw, log, T - RAW_BUFFER_SECONDS)
    && s.hourly == HourTable(c, log, z, c.hourCut(T), c.hour.start(T))
    && s.daily == DayTable(c, log, z, c.dayCut(T), c.day.start(T))
    && s.monthly == MonthTable(c, log, z, c.month.start(c.origin), c.month.start(T))
  }

  /** No silence so long that retention drops the row the next hour is measured against. */
  ghost predicate NoLongSilence(c: Calendar, log: seq<Reading>) {
    forall i :: 0 < i < |log| ==>
      c.hourCut(log[i].t + 3 * HOUR_SECONDS) <= c.hour.start(log[i - 1].t)
  }

  // ---------------------------------------------------------------- sums and cumulatives

  lemma CumIsConstant(log: seq<Reading>, lo: int, hi: int)
    requires Chronological(log) && lo <= hi
    requires forall i :: 0 <= i < |log| ==> !(lo <= log[i].t < hi)
    ensures CumAt(log, lo) == CumAt(log, hi)
  {
    CountUnique(log, hi, CountBefore(log, lo));
  }

  lemma CountUnique(log: seq<Reading>, t: int, n: nat)
    requires Chronological(log) && n <= |log|
    requires n > 0 ==> log[n - 1].t < t
    requires n < |log| ==> t <= log[n].t
    ensures CountBefore(log, t) == n
  {}

  lemma CountOfExtension(log: seq<Reading>, r: Reading, t: int)
    requires Chronological(log + [r]) && t <= r.t
    ensures Chronological(log) && CountBefore(log + [r], t) == CountBefore(log, t)
    ensures CumAt(log + [r], t) == CumAt(log, t)
  {
    assert forall i :: 0 <= i < |log| ==> (log + [r])[i] == log[i];
    var n := CountBefore(log, t);
    CountUnique(log + [r], t, n);
  }

  lemma {:induction false} SumSplits(c: Calendar, log: seq<Reading>, z: set<int>, lo: int, mid: int, hi: int)
    requires Chronological(log) && lo <= mid <= hi
    ensures YieldSum(c, log, z, lo, hi) == YieldSum(c, log, z, lo, mid).Plus(YieldSum(c, log, z, mid, hi))
    decreases hi - mid
  {
    hide YieldAt, Chronological;
    if mid < hi {
      SumSplits(c, log, z, lo, mid, hi - 1);
    }
  }

  lemma {:induction false} SumOfZeros(c: Calendar, log: seq<Reading>, z: set<int>, lo: int, hi: int)
    requires Chronological(log)
    requires forall t :: lo <= t < hi ==> YieldAt(c, log, z, t) == ZERO
    ensures YieldSum(c, log, z, lo, hi) == ZERO
    decreases hi - lo
  {
    hide YieldAt, Chronological;
    if lo < hi {
      SumOfZeros(c, log, z, lo, hi - 1);
    }
  }

  lemma NotZeroed(c: Calendar, log: seq<Reading>, z: set<int>, t: int, hi: int)
    requires c.Valid() && KeysHaveReadings(c.hour, log, z) && c.hour.Is(t) && c.hour.Is(hi) && t < hi
    requires forall i :: 0 <= i < |log| ==> !(t <= log[i].t < hi)
    ensures t !in z
  {
    c.hour.NextIsFirst(t, hi);
    forall i | 0 <= i < |log|
      ensures c.hour.start(log[i].t) != t
    {
      c.hour.StartOf(log[i].t);
    }
  }

  lemma YieldOfSilence(c: Calendar, log: seq<Reading>, z: set<int>, t: int, hi: int)
    requires c.Valid() && Chronological(log) && t < hi && c.hour.Is(hi) && KeysHaveReadings(c.hour, log, z)
    requires forall i :: 0 <= i < |log| ==> !(t <= log[i].t < hi)
    ensures YieldAt(c, log, z, t) == ZERO
  {
    hide CumAt;
    if c.hour.Is(t) {
      c.hour.NextIsFirst(t, hi);
      CumIsConstant(log, t, t + HOUR_SECONDS);
      NotZeroed(c, log, z, t, hi);
    }
  }

  lemma SumOfSilence(c: Calendar, log: seq<Reading>, z: set<int>, lo: int, hi: int)
    requires c.Valid() && Chronological(log) && c.hour.Is(hi) && KeysHaveReadings(c.hour, log, z)
    requires forall i :: 0 <= i < |log| ==> !(lo <= log[i].t < hi)
    ensures YieldSum(c, log, z, lo, hi) == ZERO
  {
    hide YieldAt, CumAt, KeysHaveReadings;
    forall t | lo <= t < hi
      ensures YieldAt(c, log, z, t) == ZERO
    {
      YieldOfSilence(c, log, z, t, hi);
    }
    SumOfZeros(c, log, z, lo, hi);
  }

  /** Two sets that hold the same hours before t. */
  ghost predicate Agree(z: set<int>, z': set<int>, t: int) {
    forall h :: h < t ==> (h in z <==> h in z')
  }

  lemma YieldsAgree(c: Calendar, log: seq<Reading>, z: set<int>, z': set<int>, t: int)
    requires Chronological(log) && (t in z <==> t in z')
    ensures YieldAt(c, log, z, t) == YieldAt(c, log, z', t)
  {
    hide CumAt, Chronological;
  }

  lemma {:induction false} SumsAgree(c: Calendar, log: seq<Reading>, z: set<int>, z': set<int>, lo: int, hi: int)
    requires Chronological(log) && Agree(z, z', hi)
    ensures YieldSum(c, log, z, lo, hi) == YieldSum(c, log, z', lo, hi)
    decreases hi - lo
  {
    hide YieldAt, Chronological;
    if lo < hi {
      SumsAgree(c, log, z, z', lo, hi - 1);
      YieldsAgree(c, log, z, z', hi - 1);
    }
  }

  lemma {:induction false} SumOfExtension(c: Calendar, log: seq<Reading>, z: set<int>, r: Reading, lo: int, hi: int)
    requires c.Valid() && Chronological(log + [r]) && hi <= c.hour.start(r.t)
    ensures Chronological(log) && YieldSum(c, log + [r], z, lo, hi) == YieldSum(c, log, z, lo, hi)
    decreases hi - lo
  {
    hide YieldAt, Chronological, Calendar.Valid, Tiling.Valid;
    CountOfExtension(log, r, r.t);
    if lo < hi {
      SumOfExtension(c, log, z, r, lo, hi - 1);
      YieldOfExtension(c, log, z, r, hi - 1);
    }
  }

  lemma YieldOfExtension(c: Calendar, log: seq<Reading>, z: set<int>, r: Reading, t: int)
    requires c.Valid() && Chronological(log + [r]) && t < c.hour.start(r.t)
    ensures Chronological(log) && YieldAt(c, log + [r], z, t) == YieldAt(c, log, z, t)
    ensures c.hour.Is(t) ==> CumAt(log + [r], t + HOUR_SECONDS) == CumAt(log, t + HOUR_SECONDS)
  {
    c.hour.StartOf(r.t);
    CountOfExtension(log, r, r.t);
    if c.hour.Is(t) {
      c.hour.NextIsFirst(t, c.hour.start(r.t));
      CountOfExtension(log, r, t);
      CountOfExtension(log, r, t + HOUR_SECONDS);
    }
  }
}
