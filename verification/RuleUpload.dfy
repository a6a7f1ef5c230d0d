/** The double-buffered ruleset of the engine (engine.c), its upload messages (engine_rpmsg.c) and the pusher
    (rules.go), over a link that may drop or repeat each message while it is being pushed. */
module RuleUpload {
  import opened Limits
  import opened Wrappers
  import opened Crc32

  const MAX_RULES := 100

  /** One rule as it lies in memory and on the wire: sizeof(AutomationRule) bytes. */
  const RULE_BYTES := 196
  const BLANK: seq<Byte> := seq(RULE_BYTES, _ => 0)
  type Image = s: seq<Byte> | |s| == RULE_BYTES witness BLANK

  /** Which of the two buffers. */
  type Side = s: nat | s < 2
  function Other(s: Side): Side { 1 - s }

  /** A whole buffer: MAX_RULES slots, of which the first count are the ruleset. */
  const BLANK_SLOTS: seq<Image> := seq(MAX_RULES, _ => BLANK)
  type Slots = s: seq<Image> | |s| == MAX_RULES witness BLANK_SLOTS

  datatype Buffer = Buffer(slots: Slots, count: nat)

  datatype State = State(zero: Buffer, one: Buffer, active: Side, building: bool, shadow: Side,
                         expected: nat, filled: nat, lastTimeMin: int) {
    function At(side: Side): Buffer { if side == 0 then zero else one }

    function With(side: Side, b: Buffer): State {
      if side == 0 then this.(zero := b) else this.(one := b)
    }

    /** The rules that an evaluation of the given buffer runs over. */
    function Ruleset(side: Side): seq<Image>
      requires At(side).count <= MAX_RULES
    {
      At(side).slots[..At(side).count]
    }

    /** Kept by every operation. */
    predicate Sound() {
      && zero.count <= MAX_RULES && one.count <= MAX_RULES
      && expected <= MAX_RULES
      && (building ==> shadow != active)
    }

    function Live(): seq<Image>
      requires Sound()
    {
      Ruleset(active)
    }
  }

  /** Commands of the upload, as engine_rpmsg_dispatch unpacks them. */
  datatype Command =
    | RuleBegin(count: nat)
    | RuleItem(index: nat, image: Image)
    | RuleCommit(count: nat, crc: bv32)

  /** The wrap of a uint16_t counter. */
  const WRAP := 0x1_0000

  function Begin(e: State, count: nat): (State, bool) {
    if count > MAX_RULES then (e, false)
    else (e.(shadow := Other(e.active), expected := count, filled := 0, building := true), true)
  }

  function Item(e: State, index: nat, image: Image): (State, bool) {
    if !e.building || index >= e.expected || index >= MAX_RULES then (e, false)
    else
      var b := e.At(e.shadow);
      (e.With(e.shadow, b.(slots := b.slots[index := image])).(filled := (e.filled + 1) % WRAP), true)
  }

  function Commit(e: State, count: nat, crc: bv32): (State, bool) {
    if !e.building then (e, false)
    else
      var done := e.(building := false);
      if count != e.expected || e.filled != count || count > MAX_RULES then (done, false)
      else if Checksum(Concat(e.At(e.shadow).slots[..count])) != crc then (done, false)
      else (done.With(e.shadow, e.At(e.shadow).(count := count)).(active := e.shadow, lastTimeMin := -1), true)
  }

  /** One delivered command: the new state, and ACK (true) or ERROR (false). */
  function Dispatch(e: State, m: Command): (State, bool) {
    match m
    case RuleBegin(count) => Begin(e, count)
    case RuleItem(index, image) => Item(e, index, image)
    case RuleCommit(count, crc) => Commit(e, count, crc)
  }

  lemma DispatchIsSound(e: State, m: Command)
    requires e.Sound()
    ensures Dispatch(e, m).0.Sound()
  {}

  // ---------------------------------------------------------------- one reliable message

  /** Sent once and then at most MAX_RETRIES times more. */
  const MAX_SENDS := MAX_RETRIES + 1

  /** What the link does with one message: how many of its copies arrive, and which of their replies is the
      first to come back, if any does. */
  datatype Fate = Fate(copies: nat, heard: Option<nat>)

  predicate Possible(f: Fate) {
    f.copies <= MAX_SENDS && (f.heard.Some? ==> f.heard.value < f.copies)
  }

  /** Up to four copies, and the reply to one of those that arrived, or none. */
  lemma AtMostFourCopies(f: Fate)
    ensures Possible(f) <==> f.copies <= 4 && (f.heard.None? || f.heard.value < f.copies)
  {}

  function Arrive(e: State, m: Command, copies: nat): State {
    if copies == 0 then e else Dispatch(Arrive(e, m, copies - 1), m).0
  }

  /** sendReliableTyped: the error of the pusher is nil exactly when the first reply heard is an ACK. */
  function Send(e: State, m: Command, f: Fate): (State, bool)
    requires Possible(f)
  {
    (Arrive(e, m, f.copies), f.heard.Some? && Dispatch(Arrive(e, m, f.heard.value), m).1)
  }

  // ---------------------------------------------------------------- a whole push

  /** The items from index i on, stopping at the first that fails. */
  function SendItems(e: State, images: seq<Image>, fates: seq<Fate>, i: nat): (State, bool)
    requires i <= |images| == |fates| && forall k :: 0 <= k < |fates| ==> Possible(fates[k])
    decreases |images| - i
  {
    if i == |images| then (e, true)
    else
      var (e', ok) := Send(e, RuleItem(i, images[i]), fates[i]);
      if ok then SendItems(e', images, fates, i + 1) else (e', false)
  }

  /** What happens to the messages of one push. */
  datatype Weather = Weather(begin: Fate, items: seq<Fate>, commit: Fate)

  predicate PossibleFor(w: Weather, n: nat) {
    Possible(w.begin) && Possible(w.commit) && |w.items| == n && forall k :: 0 <= k < n ==> Possible(w.items[k])
  }

  /** PushRules, after its rules have been encoded; true stands for a nil error. */
  function Push(e: State, images: seq<Image>, w: Weather): (State, bool)
    requires PossibleFor(w, |images|)
  {
    if |images| > MAX_RULES then (e, false)
    else
      var (e1, began) := Send(e, RuleBegin(|images|), w.begin);
      if !began then (e1, false)
      else
        var (e2, listed) := SendItems(e1, images, w.items, 0);
        if !listed then (e2, false)
        else Send(e2, RuleCommit(|images|, WriteAll(images)), w.commit)
  }

  // ---------------------------------------------------------------- what a push keeps

  lemma ActiveUntilCommit(e: State, m: Command)
    requires e.Sound() && !m.RuleCommit?
    ensures var e' := Dispatch(e, m).0;
            e'.Sound() && e'.active == e.active && e'.At(e'.active) == e.At(e.active) && e'.Live() == e.Live()
  {}

  lemma {:induction false} CopiesKeepActive(e: State, m: Command, copies: nat)
    requires e.Sound() && !m.RuleCommit?
    ensures var e' := Arrive(e, m, copies);
            e'.Sound() && e'.active == e.active && e'.At(e'.active) == e.At(e.active)
  {
    if copies > 0 {
      CopiesKeepActive(e, m, copies - 1);
      ActiveUntilCommit(Arrive(e, m, copies - 1), m);
    }
  }

  /** Every copy of BEGIN leaves the engine building an empty shadow. */
  lemma {:induction false} BeginArrives(e: State, count: nat, copies: nat)
    requires e.Sound() && count <= MAX_RULES && copies > 0
    ensures Arrive(e, RuleBegin(count), copies) == Begin(e, count).0
  {
    if copies > 1 {
      BeginArrives(e, count, copies - 1);
      assert Begin(Begin(e, count).0, count).0 == Begin(e, count).0;
    } else {
      assert Arrive(e, RuleBegin(count), 0) == e;
    }
  }

  /** Copies of an ITEM write its slot and count once each. */
  lemma {:induction false} ItemArrives(e: State, index: nat, image: Image, copies: nat)
    requires e.Sound() && e.building && index < e.expected && e.filled + copies < WRAP
    ensures var e' := Arrive(e, RuleItem(index, image), copies);
            var b := e.At(e.shadow);
            e' == e.With(e.shadow, if copies == 0 then b else b.(slots := b.slots[index := image]))
                   .(filled := e.filled + copies)
  {
    if copies > 0 {
      ItemArrives(e, index, image, copies - 1);
    }
  }

  function Deliveries(fates: seq<Fate>): nat {
    if fates == [] then 0 else Deliveries(fates[..|fates| - 1]) + fates[|fates| - 1].copies
  }

  lemma {:induction false} DeliveriesOfPrefix(fates: seq<Fate>, i: nat)
    requires i < |fates|
    ensures Deliveries(fates[..i + 1]) == Deliveries(fates[..i]) + fates[i].copies
  {
    assert fates[..i + 1][..i] == fates[..i];
  }

  lemma {:induction false} FewDeliveries(fates: seq<Fate>)
    requires forall k :: 0 <= k < |fates| ==> Possible(fates[k])
    ensures Deliveries(fates) <= MAX_SENDS * |fates|
  {
    if fates != [] {
      FewDeliveries(fates[..|fates| - 1]);
    }
  }

  /** The shadow after the first i items: their images in front, and as many fills as deliveries. */
  ghost predicate Filling(e: State, start: State, images: seq<Image>, fates: seq<Fate>, i: nat)
    requires i <= |images| == |fates|
  {
    && e.Sound() && e.building && e.expected == |images| && |images| <= MAX_RULES
    && e.filled == Deliveries(fates[..i])
    && e.At(e.shadow).slots[..i] == images[..i]
    && e.active == start.active && e.At(e.active) == start.At(start.active)
  }

  lemma ItemFills(e: State, start: State, images: seq<Image>, fates: seq<Fate>, i: nat)
    requires i < |images| == |fates| && Filling(e, start, images, fates, i)
    requires forall k :: 0 <= k < |fates| ==> Possible(fates[k])
    ensures var (e', ok) := Send(e, RuleItem(i, images[i]), fates[i]);
            && e'.Sound() && e'.active == start.active && e'.At(e'.active) == start.At(start.active)
            && (ok <==> fates[i].heard.Some?)
            && (ok ==> Filling(e', start, images, fates, i + 1) && fates[i].copies >= 1)
  {
    var m := RuleItem(i, images[i]);
    FewDeliveries(fates[..i]);
    DeliveriesOfPrefix(fates, i);
    CopiesKeepActive(e, m, fates[i].copies);
    ItemArrives(e, i, images[i], fates[i].copies);
    if fates[i].heard.Some? {
      ItemArrives(e, i, images[i], fates[i].heard.value);
      var slots := e.At(e.shadow).slots;
      assert slots[i := images[i]][..i + 1] == slots[..i] + [images[i]];
    }
  }

  lemma FillingParts(e: State, start: State, images: seq<Image>, fates: seq<Fate>, i: nat)
    requires i <= |images| == |fates| && Filling(e, start, images, fates, i)
    ensures e.Sound() && e.active == start.active && e.At(e.active) == start.At(start.active)
  {}

  lemma {:induction false} ItemsFill(e: State, start: State, images: seq<Image>, fates: seq<Fate>, i: nat)
    requires i <= |images| == |fates| && Filling(e, start, images, fates, i)
    requires forall k :: 0 <= k < |fates| ==> Possible(fates[k])
    ensures var (e', ok) := SendItems(e, images, fates, i);
            && e'.Sound() && e'.active == start.active && e'.At(e'.active) == start.At(start.active)
            && (ok <==> forall k :: i <= k < |fates| ==> fates[k].heard.Some?)
            && (ok ==> Filling(e', start, images, fates, |images|))
    decreases |images| - i
  {
    hide Filling, Send;
    if i < |images| {
      ItemFills(e, start, images, fates, i);
      var (e', ok) := Send(e, RuleItem(i, images[i]), fates[i]);
      if ok {
        ItemsFill(e', start, images, fates, i + 1);
      }
    } else {
      FillingParts(e, start, images, fates, i);
    }
  }

  // ---------------------------------------------------------------- the commit

  /** Only the first copy of a COMMIT does anything; later copies find nothing being built. */
  lemma {:induction false} CommitArrives(e: State, count: nat, crc: bv32, copies: nat)
    requires copies > 0
    ensures var m := RuleCommit(count, crc);
            Arrive(e, m, copies) == Commit(e, count, crc).0 && !Dispatch(Arrive(e, m, copies), m).1
  {
    hide Checksum;
    if copies > 1 {
      CommitArrives(e, count, crc, copies - 1);
    } else {
      assert Arrive(e, RuleCommit(count, crc), 0) == e;
    }
  }

  predicate EachOnce(fates: seq<Fate>) { forall k :: 0 <= k < |fates| ==> fates[k].copies == 1 }

  lemma {:induction false} OnceEach(fates: seq<Fate>)
    requires forall k :: 0 <= k < |fates| ==> fates[k].copies >= 1
    ensures Deliveries(fates) >= |fates|
    ensures Deliveries(fates) == |fates| <==> EachOnce(fates)
  {
    if fates != [] {
      var n := |fates| - 1;
      OnceEach(fates[..n]);
      assert EachOnce(fates) <==> EachOnce(fates[..n]) && fates[n].copies == 1;
    }
  }

  /** A COMMIT after every item was heard: it swaps exactly when each item was delivered once, and then to
      the pushed rules. The two checksums agree because the images do. */
  lemma CommitSwaps(e: State, start: State, images: seq<Image>, fates: seq<Fate>)
    requires |images| == |fates| && Filling(e, start, images, fates, |images|) && start.Sound()
    requires forall k :: 0 <= k < |fates| ==> fates[k].copies >= 1
    ensures var (e', ok) := Commit(e, |images|, WriteAll(images));
            && e'.Sound() && (ok <==> EachOnce(fates))
            && e'.Live() == (if ok then images else start.Live())
            && (!ok ==> e'.active == start.active)
  {
    hide Checksum, Concat;
    OnceEach(fates);
    assert fates[..|images|] == fates && images[..|images|] == images;
    StreamingIsWhole(images);
  }

  /** Since the last accepted BEGIN of a command sequence: how many rules it announced, None before the first one and
      after a COMMIT; and the items accepted since. */
  function Announced(e: State, cmds: seq<Command>): Option<nat> {
    if cmds == [] then None else
      var n := |cmds| - 1;
      match cmds[n]
      case RuleBegin(count) => if count <= 100 then Some(count) else Announced(e, cmds[..n])
      case RuleItem(_, _) => Announced(e, cmds[..n])
      case RuleCommit(_, _) => None
  }

  function Accepted(e: State, cmds: seq<Command>): seq<Command> {
    if cmds == [] then [] else
      var n := |cmds| - 1;
      var before := Accepted(e, cmds[..n]);
      match cmds[n]
      case RuleBegin(count) => if count <= 100 then [] else before
      case RuleItem(index, _) =>
        var announced := Announced(e, cmds[..n]);
        if announced.Some? && index < announced.value then before + [cmds[n]] else before
      case RuleCommit(_, _) => []
  }

  /** The image of the last item with the given index. */
  function LastImage(items: seq<Command>, index: nat): Option<Image> {
    if items == [] then None else
      var m := items[|items| - 1];
      if m.RuleItem? && m.index == index then Some(m.image) else LastImage(items[..|items| - 1], index)
  }

  predicate Filled(items: seq<Command>, slots: seq<Image>, index: nat)
    requires index < |slots|
  {
    LastImage(items, index).Some? ==> slots[index] == LastImage(items, index).value
  }

  /** An engine that is not building, as after start-up, and any commands since. */
  ghost predicate Follows(e: State, cmds: seq<Command>, s: State) {
    var items := Accepted(e, cmds);
    && s.Sound()
    && (s.building <==> Announced(e, cmds).Some?)
    && (s.building ==> s.expected == Announced(e, cmds).value && s.filled == |items| % 65536
                       && forall index :: 0 <= index < MAX_RULES ==> Filled(items, s.At(s.shadow).slots, index))
  }

  lemma {:induction false} RunFollows(e: State, cmds: seq<Command>)
    requires e.Sound() && !e.building
    ensures Follows(e, cmds, RunAll(e, cmds))
  {
    if cmds != [] {
      var n := |cmds| - 1;
      RunFollows(e, cmds[..n]);
      StepFollows(e, cmds, RunAll(e, cmds[..n]));
    }
  }

  lemma StepFollows(e: State, cmds: seq<Command>, s: State)
    requires cmds != [] && Follows(e, cmds[..|cmds| - 1], s)
    ensures Follows(e, cmds, Dispatch(s, cmds[|cmds| - 1]).0)
  {
    hide Checksum, Concat;
    var n := |cmds| - 1;
    DispatchIsSound(s, cmds[n]);
    if cmds[n].RuleItem? && s.building && cmds[n].index < s.expected {
      var before := Accepted(e, cmds[..n]);
      var after := Dispatch(s, cmds[n]).0;
      forall index | 0 <= index < MAX_RULES
        ensures Filled(Accepted(e, cmds), after.At(after.shadow).slots, index)
      {
        OneMoreItem(before, cmds[n], s.At(s.shadow).slots, index);
      }
      assert |before + [cmds[n]]| % 65536 == (s.filled + 1) % 65536;
    }
  }

  lemma OneMoreItem(items: seq<Command>, m: Command, slots: seq<Image>, index: nat)
    requires m.RuleItem? && m.index < |slots| && index < |slots| && Filled(items, slots, index)
    ensures Filled(items + [m], slots[m.index := m.image], index)
  {
    assert (items + [m])[..|items|] == items;
  }

  /** In every command sequence a COMMIT(n, crc) is acknowledged exactly if an upload is open, n rules were announced, n
      items accepted since (up to the wrap of the counter), and the first n images of the shadow have the checksum crc. */
  lemma CommitIsAckedIff(e: State, cmds: seq<Command>, n: nat, crc: bv32)
    requires e.Sound() && !e.building
    ensures var s := RunAll(e, cmds);
            s.Sound() && (Commit(s, n, crc).1
            <==> (&& Announced(e, cmds) == Some(n) && |Accepted(e, cmds)| % 65536 == n
                  && n <= MAX_RULES && Checksum(Concat(s.At(s.shadow).slots[..n])) == crc))
  {
    hide Checksum, Concat, Accepted, Announced;
    RunFollows(e, cmds);
  }

  /** And then each live rule is the last image accepted for its place, if any was. */
  lemma CommitInstallsItems(e: State, cmds: seq<Command>, n: nat, crc: bv32, i: nat)
    requires e.Sound() && !e.building && i < n && Commit(RunAll(e, cmds), n, crc).1
    requires LastImage(Accepted(e, cmds), i).Some?
    ensures var s' := Commit(RunAll(e, cmds), n, crc).0;
            s'.Sound() && i < |s'.Live()| && s'.Live()[i] == LastImage(Accepted(e, cmds), i).value
  {
    hide Checksum, Concat, Accepted, Announced, LastImage;
    RunFollows(e, cmds);
    assert Filled(Accepted(e, cmds), RunAll(e, cmds).At(RunAll(e, cmds).shadow).slots, i);
  }

  /** An acknowledged COMMIT puts exactly n rules with that checksum in force; a refused one leaves rules and side as they
      were and closes the upload. */
  lemma CommitChecks(e: State, n: nat, crc: bv32)
    requires e.Sound()
    ensures var (e', ok) := Commit(e, n, crc);
            && e'.Sound() && !e'.building
            && (ok ==> e'.active != e.active && |e'.Live()| == n && Checksum(Concat(e'.Live())) == crc
                       && e'.lastTimeMin == -1)
            && (!ok ==> e'.active == e.active && e'.Live() == e.Live() && e'.lastTimeMin == e.lastTimeMin)
  {
    hide Checksum, Concat;
  }

  /** Whatever commands come, the live rules are those the engine started with, or their number and checksum are those of
      the last acknowledged COMMIT. */
  function LastCommit(e: State, cmds: seq<Command>): Option<Command> {
    if cmds == [] then None else
      var n := |cmds| - 1;
      if cmds[n].RuleCommit? && Dispatch(RunAll(e, cmds[..n]), cmds[n]).1 then Some(cmds[n])
      else LastCommit(e, cmds[..n])
  }

  lemma {:induction false} LiveRulesAreChecked(e: State, cmds: seq<Command>)
    requires e.Sound()
    ensures var s := RunAll(e, cmds);
            s.Sound()
            && match LastCommit(e, cmds)
               case None => s.Live() == e.Live()
               case Some(m) => m.RuleCommit? && |s.Live()| == m.count && Checksum(Concat(s.Live())) == m.crc
  {
    hide Checksum, Concat, Dispatch;
    if cmds != [] {
      var n := |cmds| - 1;
      LiveRulesAreChecked(e, cmds[..n]);
      var s := RunAll(e, cmds[..n]);
      OnlyCommitSwaps(s, cmds[n]);
      if cmds[n].RuleCommit? {
        CommitChecks(s, cmds[n].count, cmds[n].crc);
        DispatchOfCommit(s, cmds[n]);
      }
    }
  }

  lemma DispatchOfCommit(s: State, m: Command)
    requires m.RuleCommit?
    ensures Dispatch(s, m) == Commit(s, m.count, m.crc)
  {}

  // ---------------------------------------------------------------- end to end

  /** Everything up to the COMMIT was acknowledged. */
  predicate Reaches(w: Weather) {
    w.begin.heard.Some? && forall k :: 0 <= k < |w.items| ==> w.items[k].heard.Some?
  }

  /** The engine swaps. */
  predicate Swaps(w: Weather) { Reaches(w) && EachOnce(w.items) && w.commit.copies >= 1 }

  lemma BeginSends(e: State, images: seq<Image>, w: Weather)
    requires e.Sound() && PossibleFor(w, |images|) && |images| <= MAX_RULES
    ensures var (e1, ok) := Send(e, RuleBegin(|images|), w.begin);
            && e1.Sound() && e1.active == e.active && e1.At(e1.active) == e.At(e.active)
            && (ok <==> w.begin.heard.Some?)
            && (ok ==> Filling(e1, e, images, w.items, 0))
  {
    CopiesKeepActive(e, RuleBegin(|images|), w.begin.copies);
    if w.begin.heard.Some? {
      BeginArrives(e, |images|, w.begin.copies);
      assert w.items[..0] == [];
    }
  }

  lemma CommitSends(e: State, start: State, images: seq<Image>, w: Weather)
    requires PossibleFor(w, |images|) && Reaches(w) && start.Sound()
    requires Filling(e, start, images, w.items, |images|)
    ensures var (e', ok) := Send(e, RuleCommit(|images|, WriteAll(images)), w.commit);
            && e'.Sound()
            && e'.Live() == (if Swaps(w) then images else start.Live())
            && (!Swaps(w) ==> e'.active == start.active)
            && (ok <==> EachOnce(w.items) && w.commit.heard == Some(0))
  {
    hide Commit, Filling;
    FillingParts(e, start, images, w.items, |images|);
    CommitSwaps(e, start, images, w.items);
    var crc := WriteAll(images);
    var m := RuleCommit(|images|, crc);
    assert Arrive(e, m, 0) == e;
    if w.commit.copies > 0 {
      CommitArrives(e, |images|, crc, w.commit.copies);
    }
    if w.commit.heard.Some? && w.commit.heard.value > 0 {
      CommitArrives(e, |images|, crc, w.commit.heard.value);
    }
  }

  /** A push leaves the engine with exactly the pushed rules, or with the rules it had. */
  lemma PushIsAtomic(e: State, images: seq<Image>, w: Weather)
    requires e.Sound() && PossibleFor(w, |images|)
    ensures var e' := Push(e, images, w).0;
            && e'.Sound()
            && e'.Live() == (if |images| <= MAX_RULES && Swaps(w) then images else e.Live())
  {
    PushOutcome(e, images, w);
  }

  /** PushRules returns nil exactly when every message up to the COMMIT was acknowledged, each item arrived
      once, and the reply to the first copy of the COMMIT is the one that came back. */
  lemma PushSucceedsIff(e: State, images: seq<Image>, w: Weather)
    requires e.Sound() && PossibleFor(w, |images|)
    ensures Push(e, images, w).1
        <==> |images| <= MAX_RULES && Reaches(w) && EachOnce(w.items) && w.commit.heard == Some(0)
  {
    PushOutcome(e, images, w);
  }

  /** nil means the engine runs the pushed rules; nothing is asked of the checksum. */
  lemma NilMeansPushed(e: State, images: seq<Image>, w: Weather)
    requires e.Sound() && PossibleFor(w, |images|) && Push(e, images, w).1
    ensures Push(e, images, w).0.Sound() && Push(e, images, w).0.Live() == images
  {
    PushOutcome(e, images, w);
  }

  lemma PushOutcome(e: State, images: seq<Image>, w: Weather)
    requires e.Sound() && PossibleFor(w, |images|)
    ensures var (e', ok) := Push(e, images, w);
            && e'.Sound()
            && e'.Live() == (if |images| <= MAX_RULES && Swaps(w) then images else e.Live())
            && (ok <==> |images| <= MAX_RULES && Reaches(w) && EachOnce(w.items) && w.commit.heard == Some(0))
  {
    hide Send, SendItems, Filling, WriteAll;
    if |images| <= MAX_RULES {
      BeginSends(e, images, w);
      var (e1, began) := Send(e, RuleBegin(|images|), w.begin);
      if began {
        ItemsFill(e1, e, images, w.items, 0);
        var (e2, listed) := SendItems(e1, images, w.items, 0);
        if listed {
          CommitSends(e2, e, images, w);
        }
      }
    }
  }

  /** The reply of a first COMMIT lost, the retry answered with ERROR: the push fails, the swap happened. */
  lemma LostAckAfterSwap(e: State, images: seq<Image>, w: Weather)
    requires e.Sound() && |images| <= MAX_RULES && PossibleFor(w, |images|) && Swaps(w)
    requires w.commit.heard.Some? && w.commit.heard.value > 0
    ensures !Push(e, images, w).1 && Push(e, images, w).0.Sound() && Push(e, images, w).0.Live() == images
  {
    PushOutcome(e, images, w);
  }

  // ---------------------------------------------------------------- against a running evaluation

  /** The only command that changes the live rules is a COMMIT that is answered with ACK. */
  lemma OnlyCommitSwaps(e: State, m: Command)
    requires e.Sound()
    ensures var (e', ok) := Dispatch(e, m);
            e'.Sound() && (e'.active != e.active || e'.Live() != e.Live() ==> m.RuleCommit? && ok)
  {
    hide Checksum, Concat;
  }

  function RunAll(e: State, cmds: seq<Command>): State {
    if cmds == [] then e else Dispatch(RunAll(e, cmds[..|cmds| - 1]), cmds[|cmds| - 1]).0
  }

  /** A command that writes a slot of the given buffer. */
  predicate Writes(e: State, m: Command, side: Side) {
    m.RuleItem? && Dispatch(e, m).1 && e.shadow == side
  }

  /** A buffer's slots change exactly by an accepted item with another image than the slot holds. */
  lemma SlotsChangeIff(e: State, m: Command, side: Side)
    ensures Dispatch(e, m).0.At(side).slots != e.At(side).slots
        <==> Writes(e, m, side) && e.At(side).slots[m.index] != m.image
  {
    hide Checksum, Concat;
  }

  /** No item is accepted once a swap has put another buffer in charge than the one that was latched. */
  predicate NoItemAfterSwap(e: State, cmds: seq<Command>) {
    forall i :: 0 <= i < |cmds| ==>
      var s := RunAll(e, cmds[..i]);
      s.active != e.active ==> !(cmds[i].RuleItem? && Dispatch(s, cmds[i]).1)
  }

  /** An evaluation that has read g_active and the count keeps seeing the same rules, whatever is uploaded
      meanwhile, until the first item accepted after a swap. */
  lemma {:induction false} LatchedRulesStay(e: State, cmds: seq<Command>)
    requires e.Sound() && NoItemAfterSwap(e, cmds)
    ensures RunAll(e, cmds).Sound() && RunAll(e, cmds).At(e.active).slots == e.At(e.active).slots
  {
    if cmds != [] {
      var n := |cmds| - 1;
      forall i | 0 <= i < n
        ensures var s := RunAll(e, cmds[..n][..i]);
                s.active != e.active ==> !(cmds[..n][i].RuleItem? && Dispatch(s, cmds[..n][i]).1)
      {
        assert cmds[..n][..i] == cmds[..i];
      }
      LatchedRulesStay(e, cmds[..n]);
      var s := RunAll(e, cmds[..n]);
      UnfoldRun(e, cmds);
      hide Dispatch, RunAll;
      DispatchIsSound(s, cmds[n]);
      SlotsChangeIff(s, cmds[n], e.active);
      if Writes(s, cmds[n], e.active) {
        WriterBuilds(s, cmds[n], e.active);
      }
    }
  }

  lemma UnfoldRun(e: State, cmds: seq<Command>)
    requires cmds != []
    ensures var n := |cmds| - 1; RunAll(e, cmds) == Dispatch(RunAll(e, cmds[..n]), cmds[n]).0
  {}

  lemma WriterBuilds(e: State, m: Command, side: Side)
    requires e.Sound() && Writes(e, m, side)
    ensures e.active != side
  {}

  /** After a swap the next upload's first item does overwrite a rule that such an evaluation may still be
      reading. */
  lemma NextUploadOverwrites(e: State, image: Image)
    requires e.Sound() && e.At(Other(e.active)).slots[0] != image
    ensures var cmds := [RuleBegin(1), RuleItem(0, image)];
            RunAll(e, cmds).At(Other(e.active)).slots != e.At(Other(e.active)).slots
  {
    var cmds := [RuleBegin(1), RuleItem(0, image)];
    assert cmds[..1][..0] == [];
    assert RunAll(e, cmds[..1]) == Begin(e, 1).0;
  }

  // ---------------------------------------------------------------- in place

  /** The engine's upload state: both buffers in one two-dimensional array, swapped by index. */
  class Engine {
    const rules: array2<Image>
    const count: array<nat>
    var active: Side
    var building: bool
    var shadow: Side
    var expected: nat
    var filled: nat
    var lastTimeMin: int

    predicate Valid() {
      rules.Length0 == 2 && rules.Length1 == MAX_RULES && count.Length == 2
    }

    function Row(side: Side): (slots: Slots)
      requires Valid()
      reads rules
      ensures forall i :: 0 <= i < MAX_RULES ==> slots[i] == rules[side, i]
    {
      seq(MAX_RULES, i requires 0 <= i < MAX_RULES reads rules requires Valid() => rules[side, i])
    }

    function Contents(): State
      requires Valid()
      reads this, rules, count
    {
      State(Buffer(Row(0), count[0]), Buffer(Row(1), count[1]), active, building, shadow, expected, filled,
            lastTimeMin)
    }

    /** engine_init; the slots of the NOLOAD section hold whatever memory holds. */
    constructor (memory: array2<Image>)
      requires memory.Length0 == 2 && memory.Length1 == MAX_RULES
      ensures Valid() && rules == memory && fresh(count)
      ensures Contents().Sound() && Contents().Live() == []
    {
      rules := memory;
      count := new nat[2](_ => 0);
      active, building, shadow, expected, filled := 0, false, 1, 0, 0;
      lastTimeMin := -1;
    }

    method RulesBegin(n: nat) returns (ok: bool)
      requires Valid()
      modifies this
      ensures (Contents(), ok) == Begin(old(Contents()), n)
    {
      if n > MAX_RULES {
        return false;
      }
      shadow := Other(active);
      expected := n;
      filled := 0;
      building := true;
      return true;
    }

    method RulesItem(index: nat, image: Image) returns (ok: bool)
      requires Valid()
      modifies this, rules
      ensures (Contents(), ok) == Item(old(Contents()), index, image)
    {
      if !building || index >= expected || index >= MAX_RULES {
        return false;
      }
      ghost var before := Contents();
      rules[shadow, index] := image;
      assert Row(shadow) == before.At(shadow).slots[index := image];
      assert Row(Other(shadow)) == before.At(Other(shadow)).slots;
      filled := (filled + 1) % WRAP;
      assert Contents().At(shadow).slots == before.At(shadow).slots[index := image];
      assert Contents().At(Other(shadow)) == before.At(Other(shadow));
      return true;
    }

    /** The bytes crc32_calc runs over: the first n slots of the shadow, one after the other. */
    method ShadowBytes(n: nat) returns (data: seq<Byte>)
      requires Valid() && n <= MAX_RULES
      ensures data == Concat(Row(shadow)[..n])
    {
      data := [];
      for i := 0 to n
        invariant data == Concat(Row(shadow)[..i])
      {
        assert Row(shadow)[..i + 1][..i] == Row(shadow)[..i];
        data := data + rules[shadow, i];
      }
    }

    method RulesCommit(n: nat, crc: bv32) returns (ok: bool)
      requires Valid()
      modifies this, count
      ensures (Contents(), ok) == Commit(old(Contents()), n, crc)
    {
      hide Checksum, Concat;
      if !building {
        return false;
      }
      building := false;
      if n != expected || filled != n || n > MAX_RULES {
        return false;
      }
      var data := ShadowBytes(n);
      var computed := Crc32Calc(data);
      if computed != crc {
        return false;
      }
      count[shadow] := n;
      active := shadow;
      lastTimeMin := -1;
      return true;
    }

    /** The three upload cases of engine_rpmsg_dispatch; acked tells ACK from ERROR. */
    method OnCommand(m: Command) returns (acked: bool)
      requires Valid()
      modifies this, rules, count
      ensures (Contents(), acked) == Dispatch(old(Contents()), m)
    {
      match m
      case RuleBegin(n) => acked := RulesBegin(n);
      case RuleItem(index, image) => acked := RulesItem(index, image);
      case RuleCommit(n, crc) => acked := RulesCommit(n, crc);
    }

    /** One reliable message over the link. */
    method Receive(m: Command, f: Fate) returns (ok: bool)
      requires Valid() && Possible(f)
      modifies this, rules, count
      ensures (Contents(), ok) == Send(old(Contents()), m, f)
    {
      hide Dispatch;
      ok := false;
      for i := 0 to f.copies
        invariant Contents() == Arrive(old(Contents()), m, i)
        invariant ok <==> f.heard.Some? && f.heard.value < i && Dispatch(Arrive(old(Contents()), m, f.heard.value), m).1
      {
        var acked := OnCommand(m);
        if f.heard == Some(i) {
          ok := acked;
        }
      }
    }
  }

  /** PushRules. */
  method PushRules(e: Engine, images: seq<Image>, w: Weather) returns (ok: bool)
    requires e.Valid() && PossibleFor(w, |images|)
    modifies e, e.rules, e.count
    ensures (e.Contents(), ok) == Push(old(e.Contents()), images, w)
  {
    hide Send, Engine.Contents, WriteAll;
    if |images| > MAX_RULES {
      return false;
    }
    var sum := SumOf(images);
    ok := e.Receive(RuleBegin(|images|), w.begin);
    if !ok {
      return;
    }
    ghost var began := e.Contents();
    for i := 0 to |images|
      invariant SendItems(began, images, w.items, 0) == SendItems(e.Contents(), images, w.items, i)
    {
      ok := e.Receive(RuleItem(i, images[i]), w.items[i]);
      if !ok {
        return;
      }
    }
    ok := e.Receive(RuleCommit(|images|, sum), w.commit);
  }

  /** The running hash over the encoded rules. */
  method SumOf(images: seq<Image>) returns (sum: bv32)
    ensures sum == WriteAll(images)
  {
    hide Write;
    sum := 0;
    for i := 0 to |images|
      invariant sum == WriteAll(images[..i])
    {
      assert images[..i + 1][..i] == images[..i];
      sum := Write(sum, images[i]);
    }
    assert images[..|images|] == images;
  }
}
