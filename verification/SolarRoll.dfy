/** Each step of a pass writes exactly the rows that SolarLog derives from the accepted readings. */
module SolarRoll {
  import opened Wrappers
  import opened Calendar
  import opened Queries
  import opened SolarModel
  import opened SolarLog

  // ---------------------------------------------------------------- the list of periods to roll

  ghost predicate Increasing(f: int -> int) {
    forall a, b :: a <= b ==> f(a) <= f(b)
  }

  lemma {:induction false} DistinctFrom(times: seq<int>, boundary: int, start: int -> int)
    ensures forall b :: b in Distinct(times, boundary, start) ==>
              b < boundary && exists t :: t in times && start(t) == b
  {
    if times != [] {
      var n := |times| - 1;
      DistinctFrom(times[..n], boundary, start);
      forall b | b in Distinct(times, boundary, start)
        ensures b < boundary && exists t :: t in times && start(t) == b
      {
        if b in Distinct(times[..n], boundary, start) {
          var t :| t in times[..n] && start(t) == b;
          assert t in times;
        } else {
          var t := times[n];
          assert t in times && start(t) == b;
        }
      }
    }
  }

  lemma {:induction false} DistinctIsAscending(times: seq<int>, boundary: int, start: int -> int)
    requires Increasing(start) && Ascending(times)
    ensures Ascending(Distinct(times, boundary, start))
    ensures times == [] ==> Distinct(times, boundary, start) == []
    ensures forall i :: 0 <= i < |Distinct(times, boundary, start)| ==>
              times != [] && Distinct(times, boundary, start)[i] <= start(times[|times| - 1])
  {
    if times != [] {
      var n := |times| - 1;
      DistinctIsAscending(times[..n], boundary, start);
      assert n > 0 ==> start(times[n - 1]) <= start(times[n]);
      hide Increasing;
      var out, b := Distinct(times[..n], boundary, start), start(times[n]);
      assert forall i :: 0 <= i < |out| ==> out[i] <= b;
    }
  }

  /** The periods a pass visits: one for each key in after..boundary, in ascending order. */
  lemma RollList(tl: Tiling, keys: set<int>, after: int, boundary: int)
    requires tl.Valid() && tl.Is(boundary)
    ensures var bs := BucketsToRoll(keys, after, boundary, tl.start);
            && Ascending(bs)
            && (forall k :: k in keys && after <= k < boundary ==> tl.start(k) in bs)
            && (forall b :: b in bs ==> b < boundary)
            && (forall b :: b in bs ==> exists k :: k in keys && after <= k < boundary && tl.start(k) == b)
  {
    var inside := set k | k in keys && after <= k < boundary;
    var times := Sorted(inside);
    forall a, b | a <= b ensures tl.start(a) <= tl.start(b) {
      tl.Monotone(a, b);
    }
    DistinctIsAscending(times, boundary, tl.start);
    DistinctFrom(times, boundary, tl.start);
    forall k | k in keys && after <= k < boundary
      ensures k in times && tl.start(k) < boundary
    {
      assert k in inside;
      tl.StartOf(k);
    }
    forall b | b in BucketsToRoll(keys, after, boundary, tl.start)
      ensures exists k :: k in keys && after <= k < boundary && tl.start(k) == b
    {
      var t :| t in times && tl.start(t) == b;
      assert t in inside;
    }
  }

  // ---------------------------------------------------------------- the row before a period

  /** The period of the last reading before b. */
  ghost function PeriodBefore(tl: Tiling, log: seq<Reading>, b: int): Option<int>
    requires Chronological(log)
  {
    var n := CountBefore(log, b);
    if n == 0 then None else Some(tl.start(log[n - 1].t))
  }

  lemma KeysBefore(tl: Tiling, log: seq<Reading>, keys: set<int>, b: int)
    requires tl.Valid() && Chronological(log) && tl.Is(b) && KeysHaveReadings(tl, log, keys)
    ensures var p := PeriodBefore(tl, log, b);
            forall k :: k in keys && k < b ==> p.Some? && k <= p.value
  {
    hide CountBefore;
    forall k | k in keys && k < b
      ensures PeriodBefore(tl, log, b).Some? && k <= PeriodBefore(tl, log, b).value
    {
      var i :| 0 <= i < |log| && tl.start(log[i].t) == k;
      tl.StartOf(log[i].t);
      tl.NextIsFirst(k, b);
      var n := CountBefore(log, b);
      assert i < n;
      tl.Monotone(log[i].t, log[n - 1].t);
    }
  }

  lemma RowBefore(tl: Tiling, log: seq<Reading>, keys: set<int>, b: int)
    requires tl.Valid() && Chronological(log) && tl.Is(b) && KeysHaveReadings(tl, log, keys)
    requires PeriodBefore(tl, log, b).Some? ==> PeriodBefore(tl, log, b).value in keys
    ensures LastBefore(keys, b) == PeriodBefore(tl, log, b)
  {
    KeysBefore(tl, log, keys, b);
    var n := CountBefore(log, b);
    if n > 0 {
      tl.StartOf(log[n - 1].t);
    }
  }

  // ---------------------------------------------------------------- hours

  /** Each hour row holds the cumulative that its hour ended with. */
  ghost predicate HourCums(c: Calendar, log: seq<Reading>, m: map<int, HourRow>)
    requires Chronological(log)
  {
    KeysHaveReadings(c.hour, log, m.Keys) && forall h :: h in m ==> m[h].cum == CumAt(log, h + HOUR_SECONDS)
  }

  ghost predicate ReadingFrom(tl: Tiling, log: seq<Reading>, cut: int, b: int) {
    exists i :: 0 <= i < |log| && cut <= log[i].t && tl.start(log[i].t) == b
  }

  /** The last reading of a tile, among the rows the raw table still holds. */
  lemma LastOfTile(tl: Tiling, log: seq<Reading>, raw: map<int, Amount>, cut: int, h: int)
    requires tl.Valid() && Chronological(log) && IsRawTable(raw, log, cut) && tl.Is(h)
    requires ReadingFrom(tl, log, cut, h)
    ensures var r := LastIn(raw.Keys, h, tl.next(h));
            r.Some? && raw[r.value] == CumAt(log, tl.next(h))
  {
    hide LastIn, CountBefore, Tiling.Valid;
    var i :| 0 <= i < |log| && cut <= log[i].t && tl.start(log[i].t) == h;
    tl.StartOf(log[i].t);
    tl.NextOf(h);
    var r := LastIn(raw.Keys, h, tl.next(h));
    assert log[i].t in raw.Keys;
    var j :| 0 <= j < |log| && log[j].t == r.value;
    var n := CountBefore(log, tl.next(h));
    assert j < n && i < n;
    assert log[n - 1].t in raw.Keys;
    assert j == n - 1;
  }

  lemma CumBefore(c: Calendar, log: seq<Reading>, h: int)
    requires c.Valid() && Chronological(log) && c.hour.Is(h)
    ensures var p := PeriodBefore(c.hour, log, h);
            CumAt(log, h) == if p.None? then ZERO else CumAt(log, p.value + HOUR_SECONDS)
  {
    var n := CountBefore(log, h);
    if n > 0 {
      var p := c.hour.start(log[n - 1].t);
      c.hour.StartOf(log[n - 1].t);
      c.hour.NextIsFirst(p, h);
      CountUnique(log, p + HOUR_SECONDS, n);
    }
  }

  lemma HourCumOf(c: Calendar, log: seq<Reading>, m: map<int, HourRow>, h: int)
    requires Chronological(log) && HourCums(c, log, m) && h in m
    ensures m[h].cum == CumAt(log, h + HOUR_SECONDS)
  {
    hide CumAt;
  }

  lemma HourCumsWith(c: Calendar, log: seq<Reading>, z: set<int>, m: map<int, HourRow>, cut: int, h: int)
    requires Chronological(log) && HourCums(c, log, m) && ReadingFrom(c.hour, log, cut, h)
    ensures HourCums(c, log, m[h := HourSpec(c, log, z, h)])
  {
    hide CumAt, YieldAt;
    assert HasReading(c.hour, log, h);
  }

  lemma ReadingFromIsTile(tl: Tiling, log: seq<Reading>, cut: int, h: int)
    requires tl.Valid() && ReadingFrom(tl, log, cut, h)
    ensures tl.Is(h)
  {
    var i :| 0 <= i < |log| && cut <= log[i].t && tl.start(log[i].t) == h;
    tl.StartOf(log[i].t);
  }

  /** An hour of z has no row before it; any other has the row of the last reading before it, if there is one. */
  ghost predicate BaseRight(tl: Tiling, log: seq<Reading>, z: set<int>, keys: set<int>, h: int)
    requires Chronological(log)
  {
    if h in z then forall k :: k in keys ==> h <= k
    else PeriodBefore(tl, log, h).Some? ==> PeriodBefore(tl, log, h).value in keys
  }

  /** The row an hour is measured against, if any, holds what the specification measures it against. */
  lemma PreviousCum(c: Calendar, log: seq<Reading>, z: set<int>, m: map<int, HourRow>, h: int)
    requires c.Valid() && Chronological(log) && HourCums(c, log, m) && c.hour.Is(h)
    requires BaseRight(c.hour, log, z, m.Keys, h)
    ensures Base(log, z, h) == match LastBefore(m.Keys, h) case None => ZERO case Some(p) => m[p].cum
  {
    hide CumAt, PeriodBefore, LastBefore, Tiling.Valid;
    c.Parts();
    if h !in z {
      RowBefore(c.hour, log, m.Keys, h);
      CumBefore(c, log, h);
      var p := PeriodBefore(c.hour, log, h);
      if p.Some? {
        HourCumOf(c, log, m, p.value);
      }
    }
  }

  lemma OneHourIsRight(c: Calendar, log: seq<Reading>, z: set<int>, s: Tables, cut: int, h: int)
    requires c.Valid() && Chronological(log) && IsRawTable(s.raw, log, cut) && HourCums(c, log, s.hourly)
    requires ReadingFrom(c.hour, log, cut, h) && BaseRight(c.hour, log, z, s.hourly.Keys, h)
    ensures OneHour(c, s, h) == s.(hourly := s.hourly[h := HourSpec(c, log, z, h)])
  {
    hide CumAt, LastIn, LastBefore, PeriodBefore, IsRawTable, HourCums, ReadingFrom, BaseRight, Base;
    hide Tiling.Valid;
    c.Parts();
    ReadingFromIsTile(c.hour, log, cut, h);
    c.HourLength(h);
    LastOfTile(c.hour, log, s.raw, cut, h);
    PreviousCum(c, log, z, s.hourly, h);
  }

  // ---------------------------------------------------------------- the hours of one pass

  ghost function AddHours(c: Calendar, log: seq<Reading>, z: set<int>, m: map<int, HourRow>, hs: seq<int>): map<int, HourRow>
    requires Chronological(log)
  {
    m + map h | h in hs :: HourSpec(c, log, z, h)
  }

  function Items(bs: seq<int>): set<int> { set b | b in bs }

  /** What each listed hour finds before it, in the table or in the list. */
  ghost predicate BasesRight(tl: Tiling, log: seq<Reading>, z: set<int>, keys: set<int>, bs: seq<int>)
    requires Chronological(log)
  {
    forall b :: b in bs ==> BaseRight(tl, log, z, keys + Items(bs), b)
  }

  lemma PeriodBeforeIsBefore(tl: Tiling, log: seq<Reading>, b: int)
    requires tl.Valid() && Chronological(log)
    ensures var p := PeriodBefore(tl, log, b); p.Some? ==> p.value < b
  {
    hide CountBefore;
    var n := CountBefore(log, b);
    if n > 0 {
      tl.StartOf(log[n - 1].t);
    }
  }

  /** The hours listed from bs[n] on do not matter to an hour at or before it. */
  lemma BaseOfPrefix(tl: Tiling, log: seq<Reading>, z: set<int>, keys: set<int>, bs: seq<int>, n: nat, i: nat)
    requires tl.Valid() && Chronological(log) && i <= n < |bs| && Ascending(bs) && BasesRight(tl, log, z, keys, bs)
    ensures BaseRight(tl, log, z, keys + Items(bs[..n]), bs[i])
  {
    hide PeriodBefore;
    PeriodBeforeIsBefore(tl, log, bs[i]);
    assert bs[i] in bs;
    var p := PeriodBefore(tl, log, bs[i]);
    forall k | k in Items(bs) && k < bs[i]
      ensures k in Items(bs[..n])
    {
      var j :| 0 <= j < |bs| && bs[j] == k;
      assert j < i && bs[..n][j] == k;
    }
    assert forall k :: k in Items(bs[..n]) ==> k in Items(bs);
  }

  lemma BasesOfPrefix(tl: Tiling, log: seq<Reading>, z: set<int>, keys: set<int>, bs: seq<int>)
    requires tl.Valid() && Chronological(log) && bs != [] && Ascending(bs) && BasesRight(tl, log, z, keys, bs)
    ensures var n := |bs| - 1;
            BasesRight(tl, log, z, keys, bs[..n]) && BaseRight(tl, log, z, keys + Items(bs[..n]), bs[n])
  {
    hide BaseRight;
    var n := |bs| - 1;
    BaseOfPrefix(tl, log, z, keys, bs, n, n);
    forall b | b in bs[..n]
      ensures BaseRight(tl, log, z, keys + Items(bs[..n]), b)
    {
      var i :| 0 <= i < n && bs[i] == b;
      BaseOfPrefix(tl, log, z, keys, bs, n, i);
    }
  }

  lemma {:induction false} HoursAreRight(c: Calendar, log: seq<Reading>, z: set<int>, s: Tables, cut: int, hs: seq<int>)
    requires c.Valid() && Chronological(log) && IsRawTable(s.raw, log, cut) && HourCums(c, log, s.hourly)
    requires Ascending(hs) && forall h :: h in hs ==> ReadingFrom(c.hour, log, cut, h)
    requires BasesRight(c.hour, log, z, s.hourly.Keys, hs)
    ensures Hours(c, s, hs) == s.(hourly := AddHours(c, log, z, s.hourly, hs))
    ensures HourCums(c, log, AddHours(c, log, z, s.hourly, hs))
  {
    hide OneHour, HourSpec, ReadingFrom, IsRawTable, HourCums, BaseRight, BasesRight;
    hide Calendar.Valid, Tiling.Valid;
    if hs == [] {
      assert AddHours(c, log, z, s.hourly, hs) == s.hourly;
    } else {
      var n := |hs| - 1;
      var h := hs[n];
      c.Parts();
      BasesOfPrefix(c.hour, log, z, s.hourly.Keys, hs);
      assert forall x :: x in hs[..n] ==> x in hs;
      HoursAreRight(c, log, z, s, cut, hs[..n]);
      var before := s.(hourly := AddHours(c, log, z, s.hourly, hs[..n]));
      assert before.hourly.Keys == s.hourly.Keys + Items(hs[..n]);
      assert h in hs;
      OneHourIsRight(c, log, z, before, cut, h);
      HourCumsWith(c, log, z, before.hourly, cut, h);
      AddLastHour(c, log, z, s.hourly, hs);
      assert AddHours(c, log, z, s.hourly, hs) == before.hourly[h := HourSpec(c, log, z, h)];
    }
  }

  lemma AddLastHour(c: Calendar, log: seq<Reading>, z: set<int>, m: map<int, HourRow>, hs: seq<int>)
    requires Chronological(log) && hs != []
    ensures var n := |hs| - 1;
            AddHours(c, log, z, m, hs) == AddHours(c, log, z, m, hs[..n])[hs[n] := HourSpec(c, log, z, hs[n])]
  {
    hide HourSpec;
    var n := |hs| - 1;
    assert hs == hs[..n] + [hs[n]];
  }

  // ---------------------------------------------------------------- rows measured against zero

  ghost predicate EarlierReading(log: seq<Reading>, h: int) {
    exists i :: 0 <= i < |log| && log[i].t < h
  }

  /** The hours measured against zero after a pass that visits hs: those it did not visit as before, and those
      visited that have an earlier reading but no row before them any more. */
  ghost function NowZeroed(keys: set<int>, log: seq<Reading>, z: set<int>, hs: seq<int>): set<int> {
    (set h | h in z && h !in hs)
    + (set h | h in hs && LastBefore(keys + Items(hs), h).None? && EarlierReading(log, h))
  }

  /** With the rows from cut on in the table or in the list, that set says what each visited hour finds. */
  lemma BasesOfPass(tl: Tiling, log: seq<Reading>, z: set<int>, keys: set<int>, hs: seq<int>, cut: int)
    requires tl.Valid() && Chronological(log) && Ascending(hs)
    requires KeysHaveReadings(tl, log, keys + Items(hs)) && forall h :: h in hs ==> tl.Is(h)
    requires forall k :: k in keys || k in hs ==> cut <= k
    requires forall h :: h in hs ==>
               var p := PeriodBefore(tl, log, h); p.Some? && cut <= p.value ==> p.value in keys || p.value in hs
    ensures BasesRight(tl, log, NowZeroed(keys, log, z, hs), keys, hs)
    ensures forall h :: h in NowZeroed(keys, log, z, hs) && h in hs ==>
              var p := PeriodBefore(tl, log, h); p.Some? && p.value < cut
  {
    hide PeriodBefore, LastBefore, EarlierReading;
    hide Tiling.Valid, Chronological, BaseRight, KeysHaveReadings;
    var all, z' := keys + Items(hs), NowZeroed(keys, log, z, hs);
    forall h | h in hs
      ensures BaseRight(tl, log, z', all, h)
      ensures h in z' ==> var p := PeriodBefore(tl, log, h); p.Some? && p.value < cut
    {
      assert h in z' <==> LastBefore(all, h).None? && EarlierReading(log, h);
      assert forall k :: k in all ==> k in keys || k in hs;
      BaseOfPass(tl, log, z', all, cut, h);
    }
  }

  lemma BaseOfPass(tl: Tiling, log: seq<Reading>, z': set<int>, all: set<int>, cut: int, h: int)
    requires tl.Valid() && Chronological(log) && KeysHaveReadings(tl, log, all) && tl.Is(h)
    requires forall k :: k in all ==> cut <= k
    requires var p := PeriodBefore(tl, log, h); p.Some? && cut <= p.value ==> p.value in all
    requires h in z' <==> LastBefore(all, h).None? && EarlierReading(log, h)
    ensures BaseRight(tl, log, z', all, h)
    ensures h in z' ==> var p := PeriodBefore(tl, log, h); p.Some? && p.value < cut
  {
    hide PeriodBefore, EarlierReading, LastBefore, Chronological, Tiling.Valid, KeysHaveReadings;
    KeysBefore(tl, log, all, h);
    PeriodBeforeIsBefore(tl, log, h);
    EarlierPeriod(tl, log, h);
  }

  lemma EarlierPeriod(tl: Tiling, log: seq<Reading>, h: int)
    requires Chronological(log)
    ensures EarlierReading(log, h) <==> PeriodBefore(tl, log, h).Some?
  {
    hide CountBefore;
    if CountBefore(log, h) > 0 {
      assert log[0].t < h;
    }
  }
}
