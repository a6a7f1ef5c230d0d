/** A calendar that meets every assumption of module Calendar: UTC, with months of thirty days. */
module PlainCalendar {
  import opened Calendar

  function Floor(n: int, t: int): int
    requires n > 0
  {
    t - t % n
  }

  function Every(n: int): Tiling
    requires n > 0
  {
    Tiling(t => Floor(n, t), b => b + n)
  }

  const DAY := 24 * HOUR_SECONDS
  const MONTH := 30 * DAY
  const YEAR := 12 * MONTH

  /** Hours and days of UTC, months of thirty days, years of twelve months. */
  function Plain(): Calendar {
    Calendar(Every(HOUR_SECONDS), Every(DAY), Every(MONTH), Every(YEAR),
             t => Floor(DAY, t) - 60 * DAY, t => Floor(MONTH, t) - 24 * MONTH, 0)
  }

  ghost predicate Floors(n: int)
    requires n > 0
  {
    && (forall t :: Floor(n, t) <= t < Floor(n, t) + n)
    && (forall t {:trigger Floor(n, Floor(n, t))} :: Floor(n, Floor(n, t)) == Floor(n, t))
    && (forall b, t {:trigger Floor(n, b), Floor(n, t)} :: Floor(n, b) == b && b <= t < b + n ==> Floor(n, t) == b)
  }

  lemma Positive(n: int, k: int)
    requires n > 0 && k > 0
    ensures n * k >= n
  {}

  lemma ProductApart(n: int, k: int, q: int)
    requires n > 0 && k < q
    ensures n * k <= n * q - n
  {
    Positive(n, q - k);
    assert n * (q - k) == n * q - n * k;
  }

  lemma SameQuotient(n: int, k: int, q: int)
    requires n > 0 && -n < n * k - n * q < n
    ensures k == q
  {
    if k < q {
      ProductApart(n, k, q);
    } else if q < k {
      ProductApart(n, q, k);
    }
  }

  lemma Quotient(n: int, k: int, t: int)
    requires n > 0 && n * k <= t < n * k + n
    ensures t / n == k && Floor(n, t) == n * k
  {
    var q, r := t / n, t % n;
    assert t == n * q + r;
    SameQuotient(n, k, q);
  }

  lemma EveryFloors(n: int)
    requires n > 0
    ensures Floors(n)
  {
    forall t
      ensures Floor(n, t) <= t < Floor(n, t) + n && Floor(n, t) == n * (t / n)
      ensures Floor(n, Floor(n, t)) == Floor(n, t)
    {
      Quotient(n, t / n, Floor(n, t));
    }
    hide Floor;
    forall b, t | Floor(n, b) == b && b <= t < b + n
      ensures Floor(n, t) == b
    {
      Quotient(n, b / n, t);
    }
  }

  lemma NextFloor(n: int, b: int)
    requires n > 0 && Floor(n, b) == b
    ensures Floor(n, b + n) == b + n
  {
    assert n * (b / n + 1) == b + n;
    Quotient(n, b / n + 1, b + n);
  }

  lemma CoarseIsFine(n: int, k: int, b: int)
    requires n > 0 && k > 0 && Floor(n * k, b) == b
    ensures n * k > 0 && Floor(n, b) == b
  {
    var q := b / (n * k);
    assert b == (n * k) * q == n * (k * q);
    Quotient(n, k * q, b);
  }

  lemma SameFloor(n: int, b: int, t: int)
    requires n > 0 && Floors(n) && Floor(n, b) == b && b <= t < b + n
    ensures Floor(n, t) == b
  {
    hide Floor;
  }

  lemma PartsOfEvery(n: int, t: int)
    requires n > 0
    ensures Every(n).start(t) == Floor(n, t) && Every(n).next(t) == t + n
  {}

  lemma TileOfEvery(n: int, b: int, t: int)
    requires n > 0 && Floors(n) && Every(n).start(b) == b && b <= t < Every(n).next(b)
    ensures Every(n).start(t) == b
  {
    hide Floor, Floors, Every;
    PartsOfEvery(n, b);
    PartsOfEvery(n, t);
    SameFloor(n, b, t);
  }

  lemma NextOfEvery(n: int, b: int)
    requires n > 0 && Every(n).start(b) == b
    ensures Every(n).start(Every(n).next(b)) == Every(n).next(b)
  {
    hide Floor, Every;
    PartsOfEvery(n, b);
    PartsOfEvery(n, b + n);
    NextFloor(n, b);
  }

  lemma StartOfEvery(n: int, t: int)
    requires n > 0 && Floors(n)
    ensures Every(n).start(t) <= t
    ensures Every(n).start(Every(n).start(t)) == Every(n).start(t)
    ensures t < Every(n).next(Every(n).start(t))
  {
    hide Floor, Every;
    var b := Floor(n, t);
    PartsOfEvery(n, t);
    PartsOfEvery(n, b);
    assert Floor(n, b) == b;
  }

  lemma EveryIsValid(n: int)
    requires n > 0 && Floors(n)
    ensures Every(n).Valid()
  {
    hide Floor, Floors, Every;
    var tl := Every(n);
    forall t {:trigger tl.start(t)} ensures tl.start(t) <= t { StartOfEvery(n, t); }
    forall t {:trigger tl.next(tl.start(t))} ensures t < tl.next(tl.start(t)) { StartOfEvery(n, t); }
    forall t {:trigger tl.start(tl.start(t))} ensures tl.start(tl.start(t)) == tl.start(t) { StartOfEvery(n, t); }
    forall b {:trigger tl.next(b)} | tl.start(b) == b
      ensures tl.start(tl.next(b)) == tl.next(b)
    {
      NextOfEvery(n, b);
    }
    forall b, t {:trigger tl.next(b), tl.start(t)} | tl.start(b) == b && b <= t < tl.next(b)
      ensures tl.start(t) == b
    {
      TileOfEvery(n, b, t);
    }
  }

  lemma FloorShifts(n: int, k: int, b: int)
    requires n > 0 && Floor(n, b) == b
    ensures Floor(n, b - n * k) == b - n * k
  {
    assert n * (b / n - k) == b - n * k;
    Quotient(n, b / n - k, b - n * k);
  }

  lemma FloorAscends(n: int, a: int, b: int)
    requires n > 0 && a <= b
    ensures Floor(n, a) <= Floor(n, b)
  {
    EveryFloors(n);
    if Floor(n, b) < Floor(n, a) {
      SameFloor(n, Floor(n, b), a);
    }
  }

  lemma CutsOf(t: int)
    ensures Floor(DAY, Floor(DAY, t) - 60 * DAY) == Floor(DAY, t) - 60 * DAY <= t - 60 * DAY
    ensures Floor(MONTH, Floor(MONTH, t) - 24 * MONTH) == Floor(MONTH, t) - 24 * MONTH
    ensures Floor(MONTH, t) <= Floor(DAY, t)
  {
    hide Floor;
    EveryFloors(DAY);
    EveryFloors(MONTH);
    FloorShifts(DAY, 60, Floor(DAY, t));
    FloorShifts(MONTH, 24, Floor(MONTH, t));
    CoarseIsFine(DAY, 30, Floor(MONTH, t));
    FloorAscends(DAY, Floor(MONTH, t), t);
  }

  lemma CutsAscend(a: int, b: int)
    requires a <= b
    ensures Floor(DAY, a) <= Floor(DAY, b) && Floor(MONTH, a) <= Floor(MONTH, b)
  {
    FloorAscends(DAY, a, b);
    FloorAscends(MONTH, a, b);
  }

  lemma NothingFloors() ensures Floor(MONTH, 0) == 0 {}

  lemma PlainNests()
    ensures Nested(Every(HOUR_SECONDS), Every(DAY))
    ensures Nested(Every(DAY), Every(MONTH))
    ensures Nested(Every(MONTH), Every(YEAR))
  {
    hide Floor;
    forall b | Floor(DAY, b) == b { CoarseIsFine(HOUR_SECONDS, 24, b); }
    forall b | Floor(MONTH, b) == b { CoarseIsFine(DAY, 30, b); }
    forall b | Floor(YEAR, b) == b { CoarseIsFine(MONTH, 12, b); }
  }

  lemma PlainIsValid()
    ensures Every(HOUR_SECONDS).Valid() && Every(DAY).Valid() && Every(MONTH).Valid() && Every(YEAR).Valid()
  {
    hide Tiling.Valid, Floors;
    EveryFloors(HOUR_SECONDS);
    EveryFloors(DAY);
    EveryFloors(MONTH);
    EveryFloors(YEAR);
    EveryIsValid(HOUR_SECONDS);
    EveryIsValid(DAY);
    EveryIsValid(MONTH);
    EveryIsValid(YEAR);
  }

  lemma PlainCuts(t: int)
    ensures var c := Plain();
            && c.day.Is(c.hourCut(t)) && c.hourCut(t) + 3 * HOUR_SECONDS <= t
            && c.month.Is(c.dayCut(t)) && c.dayCut(t) <= c.hourCut(t)
  {
    hide Floor;
    CutsOf(t);
    var c := Plain();
    assert c.hourCut(t) == Floor(DAY, t) - 60 * DAY && c.dayCut(t) == Floor(MONTH, t) - 24 * MONTH;
  }

  lemma PlainCutsAscend(a: int, b: int)
    requires a <= b
    ensures var c := Plain(); c.hourCut(a) <= c.hourCut(b) && c.dayCut(a) <= c.dayCut(b)
  {
    hide Floor;
    CutsAscend(a, b);
  }

  /** The assumptions on local time can all be met at once. */
  lemma ValidCalendarsExist()
    ensures Plain().Valid()
  {
    hide Tiling.Valid, Floor, Nested;
    PlainNests();
    PlainIsValid();
    NothingFloors();
    var c := Plain();
    forall t
      ensures c.day.Is(c.hourCut(t)) && c.hourCut(t) + 3 * HOUR_SECONDS <= t
      ensures c.month.Is(c.dayCut(t)) && c.dayCut(t) <= c.hourCut(t)
    {
      PlainCuts(t);
    }
    forall a, b | a <= b
      ensures c.hourCut(a) <= c.hourCut(b) && c.dayCut(a) <= c.dayCut(b)
    {
      PlainCutsAscend(a, b);
    }
  }
}
