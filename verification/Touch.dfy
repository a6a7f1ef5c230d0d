/** The touch loop of the light switch (gpiointerrupt.c): debounce, short touch, long hold. One call of Poll is
    one turn of the 20 ms loop. */
module Touch {

  const POLL_MS := 20
  const DEBOUNCE_MS := 80
  const HOLD_JOIN_MS := 4000
  const TOUCH_MIN_MS := 60

  /** The wrap of a uint32_t counter. */
  const WRAP := 0x1_0000_0000

  type Raw = b: nat | b < 256

  datatype Output = Nothing | Toggle | Join

  // ---------------------------------------------------------------- the loop

  class TouchLoop {
    var prev: Raw
    var rawPrev: Raw
    var dbState: Raw
    var stableMs: nat
    var heldMs: nat
    var pairingArmed: bool

    function Contents(): State
      reads this
    {
      State(prev, rawPrev, dbState, stableMs, heldMs, pairingArmed)
    }

    constructor ()
      ensures Contents() == START
    {
      prev, rawPrev, dbState, stableMs, heldMs, pairingArmed := 0, 0, 0, 0, 0, false;
    }

    method Poll(raw: Raw) returns (out: Output)
      modifies this
      ensures (Contents(), out) == Step(old(Contents()), raw)
    {
      out := Nothing;
      if raw == rawPrev {
        stableMs := (stableMs + POLL_MS) % WRAP;
      } else {
        stableMs := 0;
        rawPrev := raw;
      }
      if stableMs >= DEBOUNCE_MS {
        dbState := raw;
      }
      var s := dbState;
      if s != 0 && prev == 0 {
        heldMs := 0;
        pairingArmed := false;
      }
      if s != 0 {
        heldMs := (heldMs + POLL_MS) % WRAP;
        if heldMs >= HOLD_JOIN_MS && !pairingArmed {
          pairingArmed := true;
          out := Join;
        }
      }
      if s == 0 && prev != 0 {
        if !pairingArmed && heldMs >= TOUCH_MIN_MS && heldMs < HOLD_JOIN_MS {
          out := Toggle;
        }
        heldMs := 0;
      }
      prev := s;
    }
  }

  datatype State = State(prev: Raw, rawPrev: Raw, dbState: Raw, stableMs: nat, heldMs: nat, pairingArmed: bool)

  const START := State(0, 0, 0, 0, 0, false)

  /** A counter advanced by one turn. */
  function Tick(ms: nat): nat { (ms + POLL_MS) % WRAP }

  function Step(s: State, raw: Raw): (State, Output) {
    var stable := if raw == s.rawPrev then Tick(s.stableMs) else 0;
    var db := if stable >= DEBOUNCE_MS then raw else s.dbState;
    var began := db != 0 && s.prev == 0;
    var held0 := if began then 0 else s.heldMs;
    var armed0 := if began then false else s.pairingArmed;
    if db != 0 then
      var held := Tick(held0);
      var join := held >= HOLD_JOIN_MS && !armed0;
      (State(db, raw, db, stable, held, armed0 || join), if join then Join else Nothing)
    else
      var ended := s.prev != 0;
      (State(db, raw, db, stable, if ended then 0 else held0, armed0),
       if ended && !armed0 && TOUCH_MIN_MS <= held0 < HOLD_JOIN_MS then Toggle else Nothing)
  }

  function Run(raw: seq<Raw>): State {
    if raw == [] then START else Step(Run(raw[..|raw| - 1]), raw[|raw| - 1]).0
  }

  /** What the turn for the last sample puts out. */
  function Out(raw: seq<Raw>): Output
    requires raw != []
  {
    Step(Run(raw[..|raw| - 1]), raw[|raw| - 1]).1
  }

  // ---------------------------------------------------------------- what it should do

  /** The sample at k; before the first, nothing is touched. */
  function At(raw: seq<Raw>, k: int): Raw
    requires k < |raw|
  {
    if k < 0 then 0 else raw[k]
  }

  /** The last five samples agree. */
  predicate Settled(raw: seq<Raw>)
    requires raw != []
  {
    var n := |raw| - 1;
    At(raw, n - 1) == At(raw, n) && At(raw, n - 2) == At(raw, n) && At(raw, n - 3) == At(raw, n) && At(raw, n - 4) == At(raw, n)
  }

  /** The debounced state: the value of the last five samples if they agree, else what it was. */
  function Debounced(raw: seq<Raw>): Raw {
    if raw == [] then 0
    else if Settled(raw) then raw[|raw| - 1]
    else Debounced(raw[..|raw| - 1])
  }

  predicate Pressed(raw: seq<Raw>) { Debounced(raw) != 0 }

  /** For how many turns it has been pressed. */
  function Turns(raw: seq<Raw>): nat {
    if raw == [] || !Pressed(raw) then 0 else Turns(raw[..|raw| - 1]) + 1
  }

  /** 4 s are 200 turns. */
  const LONG := 200

  /** JOIN in the two-hundredth turn of a press; a toggle on release before that. */
  function Wanted(raw: seq<Raw>): Output
    requires raw != []
  {
    var before := Turns(raw[..|raw| - 1]);
    if Pressed(raw) then if Turns(raw) == LONG then Join else Nothing
    else if 0 < before < LONG then Toggle else Nothing
  }

  // ---------------------------------------------------------------- why it does

  /** For how many turns the raw sample has stayed the same. */
  function Same(raw: seq<Raw>): nat {
    if raw == [] || At(raw, |raw| - 2) != raw[|raw| - 1] then 0 else Same(raw[..|raw| - 1]) + 1
  }

  lemma AtInit(raw: seq<Raw>, k: int)
    requires raw != [] && k < |raw| - 1
    ensures At(raw[..|raw| - 1], k) == At(raw, k)
  {}

  lemma SameUnfolds(raw: seq<Raw>)
    requires |raw| >= 2
    ensures Same(raw) == if raw[|raw| - 2] == raw[|raw| - 1] then Same(raw[..|raw| - 1]) + 1 else 0
  {}

  /** Four turns without a change are five equal samples. */
  lemma SettledIffSame(raw: seq<Raw>)
    requires |raw| >= 5
    ensures Settled(raw) <==> Same(raw) >= 4
  {
    var n := |raw|;
    hide Same;
    SameUnfolds(raw);
    SameUnfolds(raw[..n - 1]);
    assert raw[..n - 1][..n - 2] == raw[..n - 2];
    SameUnfolds(raw[..n - 2]);
    assert raw[..n - 2][..n - 3] == raw[..n - 3];
    SameUnfolds(raw[..n - 3]);
    assert raw[..n - 3][..n - 4] == raw[..n - 4];
  }

  /** Nothing is pressed before the fifth sample. */
  lemma {:induction false} EarlyIsReleased(raw: seq<Raw>)
    requires |raw| <= 4
    ensures Debounced(raw) == 0 && Turns(raw) == 0
  {
    if raw != [] {
      EarlyIsReleased(raw[..|raw| - 1]);
    }
  }

  /** The debounced state by the counter of the loop. */
  lemma DebouncedBySame(raw: seq<Raw>)
    requires raw != []
    ensures Debounced(raw) == if Same(raw) >= 4 then raw[|raw| - 1] else Debounced(raw[..|raw| - 1])
  {
    if |raw| >= 5 {
      SettledIffSame(raw);
    } else {
      EarlyIsReleased(raw);
      EarlyIsReleased(raw[..|raw| - 1]);
      SameBounded(raw);
      if Same(raw) >= 4 {
        AllSame(raw);
      }
    }
  }

  lemma {:induction false} SameBounded(raw: seq<Raw>)
    ensures Same(raw) <= |raw|
  {
    if raw != [] {
      SameBounded(raw[..|raw| - 1]);
    }
  }

  /** If no sample so far was a change, all of them are zero. */
  lemma {:induction false} AllSame(raw: seq<Raw>)
    requires raw != [] && Same(raw) == |raw|
    ensures raw[|raw| - 1] == 0
  {
    if |raw| > 1 {
      AllSame(raw[..|raw| - 1]);
    }
  }

  /** A counter after n turns. */
  function Ms(n: nat): nat { (n * POLL_MS) % WRAP }

  lemma Ticks(n: nat)
    ensures Tick(Ms(n)) == Ms(n + 1) && Ms(0) == 0
  {}

  /** The counters in terms of the samples; while pressed with the finger already off, the press is at least
      two turns older than the release. */
  ghost predicate Tracks(raw: seq<Raw>, s: State) {
    && s.rawPrev == At(raw, |raw| - 1)
    && s.stableMs == Ms(Same(raw))
    && s.dbState == s.prev == Debounced(raw)
    && (Same(raw) >= 4 ==> Debounced(raw) == At(raw, |raw| - 1))
    && (if Pressed(raw) then s.heldMs == Ms(Turns(raw)) && (s.pairingArmed <==> Turns(raw) >= LONG)
        else s.heldMs == 0)
    && (Pressed(raw) && At(raw, |raw| - 1) == 0 ==> Turns(raw) >= Same(raw) + 2)
  }

  lemma StableReaches(same: nat)
    ensures same < 4 ==> Ms(same) < DEBOUNCE_MS
    ensures same == 4 ==> Ms(same) >= DEBOUNCE_MS
  {}

  /** Five turns at least, before a release. */
  lemma PressIsLong(raw: seq<Raw>)
    requires raw != [] && Tracks(raw[..|raw| - 1], Run(raw[..|raw| - 1]))
    requires Pressed(raw[..|raw| - 1]) && !Pressed(raw)
    ensures Turns(raw[..|raw| - 1]) >= 5
  {
    hide Run, Turns;
    DebouncedBySame(raw);
  }

  lemma HeldWhenShort(turns: nat)
    requires turns <= LONG
    ensures Ms(turns) == turns * POLL_MS
  {}

  lemma StepDebounces(s: State, raw: Raw)
    ensures var s' := Step(s, raw).0;
            && s'.rawPrev == raw
            && s'.stableMs == (if raw == s.rawPrev then Tick(s.stableMs) else 0)
            && s'.dbState == s'.prev == (if s'.stableMs >= DEBOUNCE_MS then raw else s.dbState)
  {
    hide Tick;
  }

  lemma RunStep(raw: seq<Raw>)
    requires raw != []
    ensures Run(raw) == Step(Run(raw[..|raw| - 1]), raw[|raw| - 1]).0
  {}

  lemma SameStep(raw: seq<Raw>)
    requires raw != []
    ensures Same(raw) == if At(raw[..|raw| - 1], |raw| - 2) == raw[|raw| - 1] then Same(raw[..|raw| - 1]) + 1 else 0
  {
    AtInit(raw, |raw| - 2);
  }

  /** The debounce half of a turn. */
  lemma DebounceStep(raw: seq<Raw>)
    requires raw != [] && Tracks(raw[..|raw| - 1], Run(raw[..|raw| - 1]))
    ensures var s' := Run(raw);
            && s'.rawPrev == raw[|raw| - 1]
            && s'.stableMs == Ms(Same(raw))
            && s'.dbState == s'.prev == Debounced(raw)
            && (Same(raw) >= 4 ==> Debounced(raw) == raw[|raw| - 1])
  {
    hide Turns, Debounced, Tick, Ms, Same, Run, Step;
    var init := raw[..|raw| - 1];
    RunStep(raw);
    SameStep(raw);
    StepDebounces(Run(init), raw[|raw| - 1]);
    Ticks(Same(init));
    DebouncedBySame(raw);
    StableReaches(Same(raw));
  }

  /** The press half of a turn, and its output. */
  lemma PressStep(raw: seq<Raw>)
    requires raw != [] && Tracks(raw[..|raw| - 1], Run(raw[..|raw| - 1]))
    requires Run(raw).dbState == Debounced(raw)
    ensures Out(raw) == Wanted(raw)
    ensures var s' := Run(raw);
            if Pressed(raw) then s'.heldMs == Ms(Turns(raw)) && (s'.pairingArmed <==> Turns(raw) >= LONG)
            else s'.heldMs == 0
  {
    var init := raw[..|raw| - 1];
    var turns := Turns(init);
    hide Debounced, Same, Tick, Ms;
    Ticks(turns);
    Ticks(0);
    if turns <= LONG {
      HeldWhenShort(turns);
      if turns < LONG { HeldWhenShort(turns + 1); }
    }
    if Pressed(init) && !Pressed(raw) {
      PressIsLong(raw);
    }
    TurnsOf(init);
  }

  lemma TurnsOf(raw: seq<Raw>)
    ensures Turns(raw) > 0 <==> Pressed(raw)
  {}

  lemma AgeStep(raw: seq<Raw>)
    requires raw != [] && Tracks(raw[..|raw| - 1], Run(raw[..|raw| - 1]))
    ensures Pressed(raw) && raw[|raw| - 1] == 0 ==> Turns(raw) >= Same(raw) + 2
  {
    var init := raw[..|raw| - 1];
    hide Run;
    DebouncedBySame(raw);
    hide Debounced;
    TurnsOf(init);
    AtInit(raw, |raw| - 2);
  }

  lemma {:induction false} LoopTracks(raw: seq<Raw>)
    ensures Tracks(raw, Run(raw))
  {
    if raw != [] {
      LoopTracks(raw[..|raw| - 1]);
      DebounceStep(raw);
      PressStep(raw);
      AgeStep(raw);
      hide Run, Turns, Same, Debounced;
    }
  }

  // ---------------------------------------------------------------- the promises

  /** Over every sample stream, each turn puts out exactly what is wanted. */
  lemma EveryTurnIsRight(raw: seq<Raw>)
    requires raw != []
    ensures Out(raw) == Wanted(raw)
  {
    LoopTracks(raw[..|raw| - 1]);
    DebounceStep(raw);
    PressStep(raw);
  }

  predicate PressedAt(raw: seq<Raw>, k: nat)
    requires k < |raw|
  {
    Pressed(raw[..k + 1])
  }

  function OutAt(raw: seq<Raw>, k: nat): Output
    requires k < |raw|
  {
    Out(raw[..k + 1])
  }

  /** A completed press: pressed in the turns from first up to, not including, end. */
  predicate Press(raw: seq<Raw>, first: nat, end: nat) {
    && first < end < |raw|
    && (forall k :: first <= k < end ==> PressedAt(raw, k))
    && (first > 0 ==> !PressedAt(raw, first - 1)) && !PressedAt(raw, end)
  }

  lemma {:induction false} TurnsOfPress(raw: seq<Raw>, first: nat, end: nat, k: nat)
    requires Press(raw, first, end) && first <= k <= end
    ensures Turns(raw[..k]) == k - first
    decreases k
  {
    if k > first {
      TurnsOfPress(raw, first, end, k - 1);
      assert raw[..k][..k - 1] == raw[..k - 1];
      assert PressedAt(raw, k - 1);
    }
  }

  /** What a completed press is to cause, turn by turn. */
  function Caused(first: nat, end: nat, k: nat): Output {
    if end < first + LONG then (if k == end then Toggle else Nothing)
    else if k == first + LONG - 1 then Join else Nothing
  }

  /** Each completed press causes exactly one thing: a toggle on release if it lasted less than 4 s, else one
      JOIN. It always lasts at least 100 ms, so the guard of 60 ms never swallows one. */
  lemma PressMeansOneThing(raw: seq<Raw>, first: nat, end: nat)
    requires Press(raw, first, end)
    ensures end - first >= 5
    ensures forall k :: first <= k <= end ==> OutAt(raw, k) == Caused(first, end, k)
  {
    LastTurns(raw, first, end);
    forall k | first <= k <= end
      ensures OutAt(raw, k) == Caused(first, end, k)
    {
      OutOfPress(raw, first, end, k);
    }
  }

  lemma LastTurns(raw: seq<Raw>, first: nat, end: nat)
    requires Press(raw, first, end)
    ensures end - first >= 5
  {
    assert raw[..end + 1][..end] == raw[..end];
    assert PressedAt(raw, end - 1);
    LoopTracks(raw[..end]);
    hide Debounced, Turns, Run;
    PressIsLong(raw[..end + 1]);
    TurnsOfPress(raw, first, end, end);
  }

  lemma OutOfPress(raw: seq<Raw>, first: nat, end: nat, k: nat)
    requires Press(raw, first, end) && first <= k <= end
    ensures OutAt(raw, k) == Caused(first, end, k)
  {
    EveryTurnIsRight(raw[..k + 1]);
    assert raw[..k + 1][..k] == raw[..k];
    TurnsOfPress(raw, first, end, k);
    if k < end {
      TurnsOfPress(raw, first, end, k + 1);
      assert PressedAt(raw, k);
    }
  }

  /** Outside presses nothing happens. */
  lemma NothingWithoutPress(raw: seq<Raw>)
    requires raw != [] && !Pressed(raw) && !Pressed(raw[..|raw| - 1])
    ensures Out(raw) == Nothing
  {
    EveryTurnIsRight(raw);
  }
}
