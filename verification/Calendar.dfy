/** Local time as the roll-up sees it: a tiling of the seconds into hours, days, months and years.

    The Go code obtains the tiles from time.Date in the configured zone. All that the roll-up uses of
    them is stated in Valid. The one exception is the repeated hour at the end of daylight saving,
    where two different hours have the same wall clock and time.Date may name either. */
module Calendar {

  /** One level of tiles: the start of the tile that holds t, and the start of the tile after b. */
  datatype Tiling = Tiling(start: int -> int, next: int -> int) {

    predicate Is(b: int) { start(b) == b }

    ghost predicate Valid() {
      && (forall t {:trigger start(t)} :: start(t) <= t)
      && (forall t {:trigger next(start(t))} :: t < next(start(t)))
      && (forall t {:trigger start(start(t))} :: start(start(t)) == start(t))
      && (forall b {:trigger next(b)} :: start(b) == b ==> start(next(b)) == next(b))
      && (forall b, t {:trigger next(b), start(t)} :: start(b) == b && b <= t < next(b) ==> start(t) == b)
    }

    lemma StartOf(t: int)
      requires Valid()
      ensures Is(start(t)) && start(t) <= t < next(start(t))
    {
      assert t < next(start(t));
    }

    lemma NextOf(b: int)
      requires Valid() && Is(b)
      ensures Is(next(b)) && b < next(b)
    {
      StartOf(b);
    }

    lemma InTile(b: int, t: int)
      requires Valid() && Is(b) && b <= t < next(b)
      ensures start(t) == b
    {}

    /** A tile start at or before t is at or before the start of t's tile. */
    lemma StartIsLast(b: int, t: int)
      requires Valid() && Is(b) && b <= t
      ensures b <= start(t)
    {
      if start(t) < b {
        StartOf(t);
        InTile(start(t), b);
      }
    }

    lemma Monotone(a: int, b: int)
      requires Valid() && a <= b
      ensures start(a) <= start(b)
    {
      StartOf(a);
      StartIsLast(start(a), b);
    }

    /** Tiles do not overlap. */
    lemma NextIsFirst(b: int, b': int)
      requires Valid() && Is(b) && Is(b') && b < b'
      ensures next(b) <= b'
    {
      if b' < next(b) {
        InTile(b, b');
      }
    }
  }

  /** Every coarse tile starts with a fine one. */
  ghost predicate Nested(fine: Tiling, coarse: Tiling) {
    forall b :: coarse.Is(b) ==> fine.Is(b)
  }

  lemma NestedStart(fine: Tiling, coarse: Tiling, t: int)
    requires fine.Valid() && coarse.Valid() && Nested(fine, coarse)
    ensures coarse.start(fine.start(t)) == coarse.start(t)
    ensures coarse.start(t) <= fine.start(t)
    ensures fine.next(fine.start(t)) <= coarse.next(coarse.start(t))
  {
    fine.StartOf(t);
    coarse.StartOf(t);
    var c := coarse.start(t);
    assert fine.Is(c);
    fine.StartIsLast(c, t);
    coarse.InTile(c, fine.start(t));
    coarse.NextOf(c);
    assert fine.Is(coarse.next(c));
    fine.NextIsFirst(fine.start(t), coarse.next(c));
  }

  const HOUR_SECONDS := 3600

  /** solarRawBufferSec */
  const RAW_BUFFER_SECONDS := 7200

  /** hourCut and dayCut are the two retention cut-offs pruneSolarAggregates computes for a given
      moment; nothing is recorded before origin. */
  datatype Calendar = Calendar(hour: Tiling, day: Tiling, month: Tiling, year: Tiling,
                               hourCut: int -> int, dayCut: int -> int, origin: int) {
    ghost predicate Valid() {
      && hour.Valid() && day.Valid() && month.Valid() && year.Valid()
      && Nested(hour, day) && Nested(day, month) && Nested(month, year)
      && (forall b {:trigger hour.next(b)} :: hour.Is(b) ==> hour.next(b) == b + HOUR_SECONDS)
      && (forall t :: day.Is(hourCut(t)) && hourCut(t) + 3 * HOUR_SECONDS <= t)
      && (forall t :: month.Is(dayCut(t)) && dayCut(t) <= hourCut(t))
      && (forall a, b :: a <= b ==> hourCut(a) <= hourCut(b))
      && (forall a, b :: a <= b ==> dayCut(a) <= dayCut(b))
      && month.start(origin) >= 0
    }

    lemma Parts()
      requires Valid()
      ensures hour.Valid() && day.Valid() && month.Valid() && year.Valid()
      ensures Nested(hour, day) && Nested(day, month) && Nested(month, year)
    {}

    lemma HourLength(h: int)
      requires Valid() && hour.Is(h)
      ensures hour.next(h) == h + HOUR_SECONDS
    {}
  }
}
