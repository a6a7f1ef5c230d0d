/** The wall clock of the engine (engine.c) and the minute tick of its task (ipc_rpmsg_echo.c): when TIME rules
    run, and that no minute is run twice or left out. */
module MinuteTick {
  import opened Wrappers

  const DAY_SECONDS := 86400
  const DAY_MINUTES := 1440
  const MINUTE_MS := 60000

  /** WALL_TICK_BIAS_S */
  const BIAS_S := 4

  // ---------------------------------------------------------------- arithmetic of the clock

  /** Milliseconds of wall time since the midnight before the last sync. */
  function WallMs(base: nat, elapsedUs: nat): nat { base * 1000 + elapsedUs / 1000 }

  /** The minute an evaluation at that time belongs to: from four seconds before the boundary on. */
  function TickMinute(ms: int): int { (ms / 1000 + BIAS_S) / 60 }

  function Target(ms: int): int { ms + MINUTE_MS - ms % MINUTE_MS }

  lemma TargetIsBoundary(ms: int)
    ensures Target(ms) % MINUTE_MS == 0 && ms < Target(ms) <= ms + MINUTE_MS
  {}

  /** Anywhere from four seconds before a boundary to 56 seconds after it is that boundary's minute. */
  lemma WindowMinute(at: int, b: int)
    requires b % MINUTE_MS == 0
    ensures TickMinute(at) == b / MINUTE_MS <==> b - 1000 * BIAS_S <= at < b + 56000
  {}

  lemma {:induction false} SplitDay(s: nat)
    ensures ((s % DAY_SECONDS + BIAS_S) % DAY_SECONDS) / 60 == ((s + BIAS_S) / 60) % DAY_MINUTES
  {
    var d, r := s / DAY_SECONDS, s % DAY_SECONDS;
    assert s == DAY_SECONDS * d + r;
    assert (s + BIAS_S) / 60 == DAY_MINUTES * d + (r + BIAS_S) / 60;
  }

  function SecondOfDay(ms: nat): nat { (ms / 1000) % DAY_SECONDS }

  function Rounded(secs: nat): nat { (secs + BIAS_S) % DAY_SECONDS }

  lemma RoundedMinute(ms: nat)
    ensures Rounded(SecondOfDay(ms)) / 60 == TickMinute(ms) % DAY_MINUTES
    ensures Rounded(SecondOfDay(ms)) < DAY_SECONDS
  {
    SplitDay(ms / 1000);
  }

  lemma WholeSeconds(base: nat, us: nat)
    ensures SecondOfDay(WallMs(base, us)) == (base + us / 1000000) % 86400
  {
    assert WallMs(base, us) / 1000 == base + us / 1000000;
  }

  lemma RoundedOfDay(x: nat)
    ensures Rounded(x % 86400) == (x + 4) % 86400
  {
    var d, r := x / 86400, x % 86400;
    assert x == 86400 * d + r;
    if r + 4 < 86400 {
      SameDayMinutes(d, r + 4);
    } else {
      SameDayMinutes(d + 1, r + 4 - 86400);
    }
  }

  lemma RoundedParts(base: nat, us: nat, secs: nat)
    requires secs == (base + us / 1000000) % 86400
    ensures Rounded(secs) < DAY_SECONDS
    ensures Rounded(secs) / 60 == TickMinute(WallMs(base, us)) % DAY_MINUTES
    ensures Rounded(secs) / 60 == ((base + us / 1000000 + 4) % 86400) / 60
  {
    hide WallMs, SecondOfDay, Rounded, TickMinute;
    WholeSeconds(base, us);
    RoundedOfDay(base + us / 1000000);
    RoundedMinute(WallMs(base, us));
  }

  lemma SameDayMinutes(d: int, r: int)
    requires 0 <= r < 86400
    ensures (86400 * d + r) % 86400 == r
  {}

  lemma HourAndMinute(total: nat)
    requires total < DAY_SECONDS
    ensures total / 3600 < 24 && (total / 60) % 60 < 60
    ensures (total / 3600) * 60 + (total / 60) % 60 == total / 60
  {}

  class Wall {
    var base: nat
    var anchor: nat
    var valid: bool

    constructor ()
      ensures !valid
    {
      base, anchor, valid := 0, 0, false;
    }

    method SetTime(hour: nat, minute: nat, second: nat, now: nat)
      modifies this
      ensures valid && base == hour * 3600 + minute * 60 + second && anchor == now
    {
      base := hour * 3600 + minute * 60 + second;
      anchor := now;
      valid := true;
    }

    /** wall_now; None when no time was ever set. */
    method WallNow(now: nat) returns (r: Option<(nat, nat, nat)>)
      requires anchor <= now
      ensures r.Some? <==> valid
      ensures r.Some? ==>
                var (h, m, s) := r.value;
                h < 24 && m < 60 && s < 60
                && h * 3600 + m * 60 + s == (base + (now - anchor) / 1000000) % 86400
    {
      if !valid {
        return None;
      }
      var elapsed := (now - anchor) / 1000000;
      var secs := (base + elapsed) % DAY_SECONDS;
      return Some((secs / 3600, (secs / 60) % 60, secs % 60));
    }

    /** wall_now_rounded: hour and minute of the minute being ticked. */
    method WallNowRounded(now: nat) returns (r: Option<(nat, nat)>)
      requires anchor <= now
      ensures r.Some? <==> valid
      ensures r.Some? ==> r.value.0 < 24 && r.value.1 < 60
      ensures r.Some? ==>
                r.value.0 * 60 + r.value.1 == TickMinute(WallMs(base, now - anchor)) % DAY_MINUTES
      ensures r.Some? ==> r.value.0 * 60 + r.value.1 == ((base + (now - anchor) / 1000000 + 4) % 86400) / 60
    {
      hide WallMs, SecondOfDay, Rounded, TickMinute;
      var w := WallNow(now);
      if w.None? {
        return None;
      }
      var (h, m, s) := w.value;
      var total := Rounded(h * 3600 + m * 60 + s);
      RoundedParts(base, now - anchor, h * 3600 + m * 60 + s);
      HourAndMinute(total);
      return Some((total / 3600, (total / 60) % 60));
    }

    /** engine_ms_to_next_minute: the sleep ends exactly on the next boundary. */
    method MsToNextMinute(now: nat) returns (ms: nat)
      requires anchor <= now
      ensures 1 <= ms <= MINUTE_MS
      ensures valid ==> WallMs(base, now - anchor) + ms == Target(WallMs(base, now - anchor))
      ensures valid ==> (base * 1000 + (now - anchor) / 1000 + ms) % 60000 == 0
      ensures !valid ==> ms == MINUTE_MS
    {
      if !valid {
        return MINUTE_MS;
      }
      var wallMs := base * 1000 + (now - anchor) / 1000;
      var into := wallMs % MINUTE_MS;
      return MINUTE_MS - into;
    }
  }

  // ---------------------------------------------------------------- the engine task

  /** One wake of engineTask. Times are wall milliseconds. A timeout evaluates TIME rules at `at`; either way the
      loop sizes its next sleep at `next`. */
  datatype Wake = Timeout(at: int, next: int) | NodeEvent(next: int)

  /** When the current sleep was sized, the minute of day of the last TIME evaluation (-1: none), and the
      minutes TIME rules ran for, in order. */
  datatype Task = Task(sized: int, lastMin: int, ran: seq<int>)

  function Step(t: Task, w: Wake): Task {
    match w
    case NodeEvent(next) => t.(sized := next)
    case Timeout(at, next) =>
      var minute := TickMinute(at);
      if minute % DAY_MINUTES == t.lastMin then t.(sized := next)
      else Task(next, minute % DAY_MINUTES, t.ran + [minute])
  }

  function Run(t: Task, wakes: seq<Wake>): Task {
    if wakes == [] then t else Step(Run(t, wakes[..|wakes| - 1]), wakes[|wakes| - 1])
  }

  /** Each sleep was sized at the last wake, whatever it was for. */
  lemma SizedAtLastWake(t: Task, wakes: seq<Wake>)
    requires wakes != []
    ensures Run(t, wakes).sized == wakes[|wakes| - 1].next
  {}

  /** The loop first entered at time s, after a new ruleset. */
  function Start(s: int): Task { Task(s, -1, []) }

  /** A timeout comes no more than four seconds early and less than 56 seconds late, and the next sleep is
      sized within the same minute. */
  predicate OnTime(t: Task, w: Wake) {
    var b := Target(t.sized);
    match w
    case Timeout(at, next) => b - 4000 <= at < b + 56000 && at <= next < b + MINUTE_MS
    case NodeEvent(next) => t.sized <= next
  }

  function MinuteOf(t: Task): int { Target(t.sized) / MINUTE_MS }

  predicate HasRun(t: Task, minute: int) { t.ran != [] && t.ran[|t.ran| - 1] == minute }

  /** The first minute that TIME rules have still to run for. */
  function Due(t: Task): int { if HasRun(t, MinuteOf(t)) then MinuteOf(t) + 1 else MinuteOf(t) }

  /** A node event after which the engine task sizes its sleep only at or past the boundary of the minute due. */
  predicate Late(t: Task, w: Wake) { w.NodeEvent? && Due(t) * MINUTE_MS <= w.next }

  ghost predicate AllOnTime(t: Task, wakes: seq<Wake>) {
    forall i :: 0 <= i < |wakes| ==> OnTime(Run(t, wakes[..i]), wakes[i])
  }

  ghost predicate NoneLate(t: Task, wakes: seq<Wake>) {
    forall i :: 0 <= i < |wakes| ==> !Late(Run(t, wakes[..i]), wakes[i])
  }

  predicate Consecutive(ran: seq<int>) {
    forall i :: 0 <= i < |ran| - 1 ==> ran[i + 1] == ran[i] + 1
  }

  /** The engine task is on its way to the minute after the last one it ran, or back to that one after an early
      wake. */
  predicate OnTrack(t: Task, first: int) {
    && Consecutive(t.ran)
    && (if t.ran == [] then t.lastMin == -1 && MinuteOf(t) == first
        else
          var last := t.ran[|t.ran| - 1];
          && t.ran[0] == first && t.lastMin == last % DAY_MINUTES
          && (MinuteOf(t) == last || MinuteOf(t) == last + 1))
  }

  lemma NextMinuteDiffers(m: int)
    ensures (m + 1) % DAY_MINUTES != m % DAY_MINUTES && 0 <= m % DAY_MINUTES
  {}

  lemma TargetOf(t: Task)
    ensures Target(t.sized) == MinuteOf(t) * MINUTE_MS
  {
    TargetIsBoundary(t.sized);
  }

  lemma NextTarget(next: int, b: int)
    requires b % MINUTE_MS == 0 && b - MINUTE_MS <= next < b + MINUTE_MS
    ensures Target(next) == if next < b then b else b + MINUTE_MS
  {}

  /** The sleep after a timeout aims at the minute just run, or at the one after it. */
  lemma AfterTimeout(t: Task, at: int, next: int)
    requires OnTime(t, Timeout(at, next))
    ensures TickMinute(at) == MinuteOf(t)
    ensures Target(next) / MINUTE_MS == MinuteOf(t) || Target(next) / MINUTE_MS == MinuteOf(t) + 1
  {
    TargetIsBoundary(t.sized);
    WindowMinute(at, Target(t.sized));
    NextTarget(next, Target(t.sized));
  }

  /** A node event in time leaves the aim where it was, or moves it on to the minute due. */
  lemma AfterEvent(t: Task, next: int)
    requires t.sized <= next < Due(t) * MINUTE_MS
    ensures MinuteOf(t) <= Target(next) / MINUTE_MS <= Due(t)
  {
    TargetIsBoundary(t.sized);
    TargetOf(t);
    var b := Target(t.sized);
    if next < b {
      NextTarget(next, b);
    } else {
      NextTarget(next, b + MINUTE_MS);
    }
  }

  lemma RanOneMore(ran: seq<int>, minute: int)
    requires Consecutive(ran) && (ran != [] ==> minute == ran[|ran| - 1] + 1)
    ensures Consecutive(ran + [minute])
  {
    var more := ran + [minute];
    forall i | 0 <= i < |more| - 1
      ensures more[i + 1] == more[i] + 1
    {
      if i + 1 < |ran| {
        assert ran[i + 1] == ran[i] + 1;
      }
    }
  }

  lemma StepOnTrack(t: Task, w: Wake, first: int)
    requires OnTrack(t, first) && OnTime(t, w) && !Late(t, w)
    ensures OnTrack(Step(t, w), first)
  {
    hide TickMinute, Target, Consecutive, OnTime;
    var minute := MinuteOf(t);
    NextMinuteDiffers(minute - 1);
    match w
    case Timeout(at, next) =>
      AfterTimeout(t, at, next);
      if minute % DAY_MINUTES != t.lastMin {
        RanOneMore(t.ran, minute);
      }
    case NodeEvent(next) =>
      SizedBefore(t, next);
      AfterEvent(t, next);
  }

  lemma SizedBefore(t: Task, next: int)
    requires OnTime(t, NodeEvent(next))
    ensures t.sized <= next
  {}

  lemma {:induction false} RunOnTrack(s: int, wakes: seq<Wake>)
    requires AllOnTime(Start(s), wakes) && NoneLate(Start(s), wakes)
    ensures OnTrack(Run(Start(s), wakes), MinuteOf(Start(s)))
  {
    hide OnTrack, OnTime, Late, Step, Target;
    if wakes == [] {
      StartsOnTrack(s);
    } else {
      var n := |wakes| - 1;
      PrefixOf(Start(s), wakes);
      RunOnTrack(s, wakes[..n]);
      StepOnTrack(Run(Start(s), wakes[..n]), wakes[n], MinuteOf(Start(s)));
    }
  }

  lemma StartsOnTrack(s: int)
    ensures OnTrack(Start(s), MinuteOf(Start(s)))
  {}

  lemma PrefixOf(t: Task, wakes: seq<Wake>)
    requires wakes != [] && AllOnTime(t, wakes)
    ensures var n := |wakes| - 1;
            && AllOnTime(t, wakes[..n]) && OnTime(Run(t, wakes[..n]), wakes[n])
            && (NoneLate(t, wakes) ==> NoneLate(t, wakes[..n]) && !Late(Run(t, wakes[..n]), wakes[n]))
  {
    hide OnTime, Late, Run;
    var n := |wakes| - 1;
    forall i | 0 <= i < n
      ensures wakes[..n][..i] == wakes[..i]
    {}
  }

  /** TIME rules run for consecutive minutes, starting with the first boundary after the start: none is left
      out and none is run twice, early wakes and node events included. */
  lemma MinutesAreConsecutive(s: int, wakes: seq<Wake>)
    requires AllOnTime(Start(s), wakes) && NoneLate(Start(s), wakes)
    ensures var t := Run(Start(s), wakes);
            && (forall i :: 0 <= i < |t.ran| ==> t.ran[i] == MinuteOf(Start(s)) + i)
            && Due(t) == MinuteOf(Start(s)) + |t.ran|
  {
    RunOnTrack(s, wakes);
    var t := Run(Start(s), wakes);
    CountUp(t.ran, |t.ran|);
  }

  lemma {:induction false} CountUp(ran: seq<int>, n: nat)
    requires Consecutive(ran) && n <= |ran|
    ensures forall i :: 0 <= i < n ==> ran[i] == ran[0] + i
  {
    if n > 1 {
      CountUp(ran, n - 1);
      assert ran[n - 2 + 1] == ran[n - 2] + 1;
    }
  }

  // ---------------------------------------------------------------- what a late event costs

  lemma {:induction false} PastMinutesStayOut(t: Task, wakes: seq<Wake>, m: int)
    requires AllOnTime(t, wakes) && m < MinuteOf(t) && m !in t.ran
    ensures var t' := Run(t, wakes); m < MinuteOf(t') && m !in t'.ran
  {
    hide OnTime, Step, Target;
    if wakes != [] {
      var n := |wakes| - 1;
      PrefixOf(t, wakes);
      PastMinutesStayOut(t, wakes[..n], m);
      PastMinuteStaysOut(Run(t, wakes[..n]), wakes[n], m);
    }
  }

  lemma PastMinuteStaysOut(t: Task, w: Wake, m: int)
    requires OnTime(t, w) && m < MinuteOf(t) && m !in t.ran
    ensures m < MinuteOf(Step(t, w)) && m !in Step(t, w).ran
  {
    hide TickMinute;
    TargetOf(t);
    TargetIsBoundary(t.sized);
    if w.Timeout? {
      WindowMinute(w.at, Target(t.sized));
    }
  }

  /** A late node event loses the minute that was due, whatever happens afterwards. So the minutes stay
      consecutive exactly as long as no node event is late. */
  lemma LateEventSkips(s: int, before: seq<Wake>, w: Wake, later: seq<Wake>)
    requires AllOnTime(Start(s), before) && NoneLate(Start(s), before)
    requires var t := Run(Start(s), before); OnTime(t, w) && Late(t, w) && AllOnTime(Step(t, w), later)
    ensures var t := Run(Start(s), before);
            Due(t) == MinuteOf(Start(s)) + |t.ran| && Due(t) !in Run(Step(t, w), later).ran
  {
    hide Run, AllOnTime, NoneLate, TickMinute;
    var t := Run(Start(s), before);
    MinutesAreConsecutive(s, before);
    assert Due(t) !in t.ran;
    var t' := Step(t, w);
    TargetOf(t');
    TargetIsBoundary(t'.sized);
    PastMinutesStayOut(t', later, Due(t));
  }

  /** Such an event needs no more than to be handled on the boundary itself. */
  lemma EventOnBoundaryIsLate(s: int)
    ensures var w := NodeEvent(Target(s)); OnTime(Start(s), w) && Late(Start(s), w)
  {
    TargetIsBoundary(s);
  }
}
