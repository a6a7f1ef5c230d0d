/** The pending-command table of the CC1310 (radio_task.c): which command waits for which chip, and how an uplink
    is answered. */
module PendingCommands {
  import opened Wrappers

  const PENDING_MAX := 8

  /** A factory id: eight bytes. */
  type Fid = s: seq<bv8> | |s| == 8 witness [0, 0, 0, 0, 0, 0, 0, 0]

  datatype Slot = Slot(fid: Fid, cmd: nat, used: bool)

  /** gPending */
  type Slots = seq<Slot>

  // ---------------------------------------------------------------- the table as the code keeps it

  predicate Distinct(s: Slots) {
    forall i, j :: 0 <= i < j < |s| && s[i].used && s[j].used ==> s[i].fid != s[j].fid
  }

  /** The first slot from i on that is used for f. */
  function Find(s: Slots, f: Fid, i: nat := 0): (r: Option<nat>)
    requires i <= |s|
    ensures r.Some? ==> i <= r.value < |s| && s[r.value].used && s[r.value].fid == f
    ensures r.None? ==> forall k :: i <= k < |s| && s[k].used ==> s[k].fid != f
    decreases |s| - i
  {
    if i == |s| then None else if s[i].used && s[i].fid == f then Some(i) else Find(s, f, i + 1)
  }

  function FirstFree(s: Slots, i: nat := 0): (r: Option<nat>)
    requires i <= |s|
    ensures r.Some? ==> i <= r.value < |s| && !s[r.value].used
    ensures r.None? ==> forall k :: i <= k < |s| ==> s[k].used
    decreases |s| - i
  {
    if i == |s| then None else if !s[i].used then Some(i) else FirstFree(s, i + 1)
  }

  /** pending_arm */
  function Arm(s: Slots, f: Fid, cmd: nat): Slots {
    match Find(s, f)
    case Some(i) => s[i := Slot(f, cmd, true)]
    case None => match FirstFree(s) case None => s case Some(i) => s[i := Slot(f, cmd, true)]
  }

  /** pending_disarm */
  function Disarm(s: Slots, f: Fid): Slots {
    match Find(s, f) case None => s case Some(i) => s[i := s[i].(used := false)]
  }

  /** pending_lookup */
  function Lookup(s: Slots, f: Fid): nat {
    match Find(s, f) case None => 0 case Some(i) => s[i].cmd
  }

  datatype Reply = Ack | Nack(cmd: nat)

  /** A valid v2 uplink of at least 14 bytes, from chip f and carrying command cmd. */
  function Uplink(s: Slots, f: Fid, cmd: nat): (Slots, Reply) {
    var pend := Lookup(s, f);
    if pend == 0 then (s, Ack)
    else if cmd == pend then (Disarm(s, f), Ack)
    else (s, Nack(pend))
  }

  // ---------------------------------------------------------------- the map it stands for

  type Table = map<Fid, nat>

  function Chips(s: Slots): set<Fid> { set i | 0 <= i < |s| && s[i].used :: s[i].fid }

  function Mapped(s: Slots): Table { map f | f in Chips(s) :: Lookup(s, f) }

  /** A chip already in the table is replaced; a new one needs room. */
  function MapArm(m: Table, f: Fid, cmd: nat): Table {
    if f in m || |m| < PENDING_MAX then m[f := cmd] else m
  }

  function MapLookup(m: Table, f: Fid): nat { if f in m then m[f] else 0 }

  function MapUplink(m: Table, f: Fid, cmd: nat): (Table, Reply) {
    if MapLookup(m, f) == 0 then (m, Ack)
    else if m[f] == cmd then (m - {f}, Ack)
    else (m, Nack(m[f]))
  }

  /** The slot of a mapped chip. */
  lemma SlotOf(s: Slots, f: Fid) returns (k: nat)
    requires Distinct(s) && f in Mapped(s)
    ensures k < |s| && s[k].used && s[k].fid == f && Mapped(s)[f] == s[k].cmd && Find(s, f) == Some(k)
  {
    k :| k < |s| && s[k].used && s[k].fid == f;
  }

  lemma InSlot(s: Slots, k: nat)
    requires Distinct(s) && k < |s| && s[k].used
    ensures s[k].fid in Mapped(s) && Mapped(s)[s[k].fid] == s[k].cmd
  {}

  lemma FindIsMember(s: Slots, f: Fid)
    requires Distinct(s)
    ensures Find(s, f).Some? <==> f in Mapped(s)
    ensures Find(s, f).Some? ==> Mapped(s)[f] == s[Find(s, f).value].cmd
  {
    var r := Find(s, f);
    if r.Some? {
      InSlot(s, r.value);
    }
  }

  /** One slot used for another chip, or for none. */
  lemma SetSlot(s: Slots, i: nat, f: Fid, cmd: nat)
    requires Distinct(s) && i < |s|
    requires forall k :: 0 <= k < |s| && k != i && s[k].used ==> s[k].fid != f
    requires s[i].used ==> s[i].fid == f
    ensures var s' := s[i := Slot(f, cmd, true)]; Distinct(s') && Mapped(s') == Mapped(s)[f := cmd]
  {
    hide Mapped, Find;
    var s' := s[i := Slot(f, cmd, true)];
    InSlot(s', i);
    forall g | g in Mapped(s) && g != f
      ensures g in Mapped(s') && Mapped(s')[g] == Mapped(s)[g]
    {
      var k := SlotOf(s, g);
      InSlot(s', k);
    }
    forall g | g in Mapped(s')
      ensures g == f || g in Mapped(s)
    {
      var k := SlotOf(s', g);
      if k != i { InSlot(s, k); }
    }
  }

  lemma ClearSlot(s: Slots, i: nat)
    requires Distinct(s) && i < |s| && s[i].used
    ensures var s' := s[i := s[i].(used := false)]; Distinct(s') && Mapped(s') == Mapped(s) - {s[i].fid}
  {
    hide Mapped, Find;
    var s' := s[i := s[i].(used := false)];
    forall g | g in Mapped(s) && g != s[i].fid
      ensures g in Mapped(s') && Mapped(s')[g] == Mapped(s)[g]
    {
      var k := SlotOf(s, g);
      InSlot(s', k);
    }
    forall g | g in Mapped(s')
      ensures g in Mapped(s) && g != s[i].fid
    {
      var k := SlotOf(s', g);
      InSlot(s, k);
    }
  }

  function UsedSlots(s: Slots): nat {
    if s == [] then 0 else UsedSlots(s[..|s| - 1]) + if s[|s| - 1].used then 1 else 0
  }

  lemma {:induction false} MappedCount(s: Slots)
    requires Distinct(s)
    ensures |Mapped(s)| == UsedSlots(s)
  {
    if s == [] {
      assert Mapped(s) == map[];
    } else {
      var n := |s| - 1;
      var t := s[..n];
      MappedCount(t);
      MappedSnoc(s);
      hide Mapped;
      if s[n].used {
        assert |Mapped(t).Keys + {s[n].fid}| == |Mapped(t).Keys| + 1;
      }
    }
  }

  lemma MappedSnoc(s: Slots)
    requires s != [] && Distinct(s)
    ensures var n := |s| - 1;
            if s[n].used then s[n].fid !in Mapped(s[..n]) && Mapped(s).Keys == Mapped(s[..n]).Keys + {s[n].fid}
            else Mapped(s).Keys == Mapped(s[..n]).Keys
  {
    hide Mapped, Find;
    var n := |s| - 1;
    var t := s[..n];
    forall g | g in Mapped(s)
      ensures g in Mapped(t) || (s[n].used && g == s[n].fid)
    {
      var k := SlotOf(s, g);
      if k < n { InSlot(t, k); }
    }
    forall g | g in Mapped(t)
      ensures g in Mapped(s) && (s[n].used ==> g != s[n].fid)
    {
      var k := SlotOf(t, g);
      InSlot(s, k);
    }
    if s[n].used { InSlot(s, n); }
  }

  lemma {:induction false} AllUsed(s: Slots)
    ensures UsedSlots(s) <= |s|
    ensures UsedSlots(s) == |s| <==> FirstFree(s).None?
  {
    if s != [] {
      var n := |s| - 1;
      AllUsed(s[..n]);
      if FirstFree(s).None? {
        assert forall k :: 0 <= k < n ==> s[..n][k].used;
      } else {
        var k := FirstFree(s).value;
        assert k < n ==> !s[..n][k].used;
      }
    }
  }

  /** The table refines a map of at most eight chips, operation by operation. */
  lemma ArmRefines(s: Slots, f: Fid, cmd: nat)
    requires |s| == PENDING_MAX && Distinct(s)
    ensures |Arm(s, f, cmd)| == PENDING_MAX && Distinct(Arm(s, f, cmd))
    ensures Mapped(Arm(s, f, cmd)) == MapArm(Mapped(s), f, cmd)
  {
    FindIsMember(s, f);
    MappedCount(s);
    AllUsed(s);
    match Find(s, f)
    case Some(i) => SetSlot(s, i, f, cmd);
    case None => if FirstFree(s).Some? { SetSlot(s, FirstFree(s).value, f, cmd); }
  }

  lemma DisarmRefines(s: Slots, f: Fid)
    requires |s| == PENDING_MAX && Distinct(s)
    ensures |Disarm(s, f)| == PENDING_MAX && Distinct(Disarm(s, f)) && Mapped(Disarm(s, f)) == Mapped(s) - {f}
  {
    FindIsMember(s, f);
    if Find(s, f).Some? {
      ClearSlot(s, Find(s, f).value);
    } else {
      assert Mapped(s) == Mapped(s) - {f};
    }
  }

  lemma UplinkRefines(s: Slots, f: Fid, cmd: nat)
    requires |s| == PENDING_MAX && Distinct(s)
    ensures var (s', reply) := Uplink(s, f, cmd);
            |s'| == PENDING_MAX && Distinct(s') && (Mapped(s'), reply) == MapUplink(Mapped(s), f, cmd)
  {
    FindIsMember(s, f);
    DisarmRefines(s, f);
  }

  // ---------------------------------------------------------------- histories

  datatype Event = DoArm(f: Fid, cmd: nat) | DoDisarm(f: Fid) | DoUplink(f: Fid, cmd: nat)

  const NO_SLOT := Slot([0, 0, 0, 0, 0, 0, 0, 0], 0, false)

  const NO_SLOTS: Slots := [NO_SLOT, NO_SLOT, NO_SLOT, NO_SLOT, NO_SLOT, NO_SLOT, NO_SLOT, NO_SLOT]

  function Step(s: Slots, e: Event): Slots {
    match e
    case DoArm(f, cmd) => Arm(s, f, cmd)
    case DoDisarm(f) => Disarm(s, f)
    case DoUplink(f, cmd) => Uplink(s, f, cmd).0
  }

  function Run(events: seq<Event>): Slots {
    if events == [] then NO_SLOTS else Step(Run(events[..|events| - 1]), events[|events| - 1])
  }

  function MapStep(m: Table, e: Event): Table {
    match e
    case DoArm(f, cmd) => MapArm(m, f, cmd)
    case DoDisarm(f) => m - {f}
    case DoUplink(f, cmd) => MapUplink(m, f, cmd).0
  }

  function MapRun(events: seq<Event>): Table {
    if events == [] then map[] else MapStep(MapRun(events[..|events| - 1]), events[|events| - 1])
  }

  /** After every history the slots hold distinct chips and stand for the map of that history. */
  lemma {:induction false} TableRefinesMap(events: seq<Event>)
    ensures var s := Run(events);
            |s| == PENDING_MAX && Distinct(s) && Mapped(s) == MapRun(events)
  {
    hide Arm, Disarm, Uplink, Distinct, MapArm, MapUplink;
    if events == [] {
      EmptyTable();
    } else {
      var n := |events| - 1;
      var s := Run(events[..n]);
      TableRefinesMap(events[..n]);
      match events[n] {
        case DoArm(f, cmd) => ArmRefines(s, f, cmd);
        case DoDisarm(f) => DisarmRefines(s, f);
        case DoUplink(f, cmd) => UplinkRefines(s, f, cmd);
      }
    }
  }

  lemma EmptyTable()
    ensures |NO_SLOTS| == PENDING_MAX && Distinct(NO_SLOTS) && Mapped(NO_SLOTS) == map[]
  {}

  /** An arm takes effect unless it names a new chip while eight are mapped. */
  predicate Effective(events: seq<Event>, i: nat)
    requires i < |events|
  {
    var m := MapRun(events[..i]);
    events[i].DoArm? && (events[i].f in m || |m| < PENDING_MAX)
  }

  /** The event takes the command away from its chip, or gives it another: an arm, a disarm, or an uplink that
      carries it. */
  predicate Overrides(e: Event, f: Fid, cmd: nat) {
    e.f == f && (e.DoArm? || e.DoDisarm? || (e.DoUplink? && e.cmd == cmd && cmd != 0))
  }

  /** The i-th event armed the chip with the command, and nothing since has overridden it. */
  predicate LastArm(events: seq<Event>, f: Fid, cmd: nat, i: nat) {
    && i < |events| && events[i] == DoArm(f, cmd) && Effective(events, i)
    && forall j :: i < j < |events| ==> !Overrides(events[j], f, cmd)
  }

  /** A command waits for a chip after a history exactly if it is the chip's last effective arm, with no arm,
      disarm or confirming uplink of that chip after it. */
  lemma {:induction false} MappedIffLastArm(events: seq<Event>, f: Fid, cmd: nat)
    ensures (f in MapRun(events) && MapRun(events)[f] == cmd) <==> exists i: nat :: LastArm(events, f, cmd, i)
  {
    if events == [] {
      assert !exists i: nat :: LastArm(events, f, cmd, i);
    } else {
      var n := |events| - 1;
      MappedIffLastArm(events[..n], f, cmd);
      LastArmSteps(events, f, cmd);
      MapStepAt(MapRun(events[..n]), events[n], f, cmd);
    }
  }

  /** How being mapped changes over one event. */
  lemma MapStepAt(m: Table, e: Event, f: Fid, cmd: nat)
    ensures (f in MapStep(m, e) && MapStep(m, e)[f] == cmd)
        <==> ((e == DoArm(f, cmd) && (f in m || |m| < PENDING_MAX))
              || (f in m && m[f] == cmd && !Overrides(e, f, cmd)))
  {}

  /** How being last armed changes over one event. */
  lemma LastArmSteps(events: seq<Event>, f: Fid, cmd: nat)
    requires events != []
    ensures var n := |events| - 1;
            (exists i: nat :: LastArm(events, f, cmd, i))
            <==> ((events[n] == DoArm(f, cmd) && Effective(events, n))
                  || ((exists i: nat :: LastArm(events[..n], f, cmd, i)) && !Overrides(events[n], f, cmd)))
  {
    hide MapRun, Overrides;
    var n := |events| - 1;
    var t := events[..n];
    if i: nat :| LastArm(events, f, cmd, i) {
      if i < n {
        assert t[..i] == events[..i];
        assert LastArm(t, f, cmd, i);
      }
    }
    if events[n] == DoArm(f, cmd) && Effective(events, n) {
      assert LastArm(events, f, cmd, n);
    }
    if i: nat :| LastArm(t, f, cmd, i) && !Overrides(events[n], f, cmd) {
      assert t[..i] == events[..i];
      assert LastArm(events, f, cmd, i);
    }
  }

  /** After every history an uplink is answered with a NACK exactly when its chip is mapped to a command other
      than 0 and the one the uplink carries, and the NACK delivers that command. */
  lemma NackIff(events: seq<Event>, f: Fid, cmd: nat)
    ensures var m := MapRun(events);
            var reply := Uplink(Run(events), f, cmd).1;
            if f in m && m[f] != 0 && m[f] != cmd then reply == Nack(m[f]) else reply == Ack
  {
    hide Run, MapRun, Uplink;
    TableRefinesMap(events);
    UplinkRefines(Run(events), f, cmd);
  }

  // ---------------------------------------------------------------- the gap inside an uplink

  /** The look-up and the disarm of an uplink are two critical sections; here chip g is armed between them. */
  function ArmedBetween(s: Slots, f: Fid, cmd: nat, g: Fid, arm: nat): (Slots, Reply) {
    var pend := Lookup(s, f);
    var armed := Arm(s, g, arm);
    if pend == 0 then (armed, Ack)
    else if cmd == pend then (Disarm(armed, f), Ack)
    else (armed, Nack(pend))
  }

  function MapArmedBetween(m: Table, f: Fid, cmd: nat, g: Fid, arm: nat): (Table, Reply) {
    var pend := MapLookup(m, f);
    var armed := MapArm(m, g, arm);
    if pend == 0 then (armed, Ack)
    else if cmd == pend then (armed - {f}, Ack)
    else (armed, Nack(pend))
  }

  /** The uplink as one step, before the arm or after it. */
  function UplinkThenArm(m: Table, f: Fid, cmd: nat, g: Fid, arm: nat): (Table, Reply) {
    var (m', reply) := MapUplink(m, f, cmd);
    (MapArm(m', g, arm), reply)
  }

  function ArmThenUplink(m: Table, f: Fid, cmd: nat, g: Fid, arm: nat): (Table, Reply) {
    MapUplink(MapArm(m, g, arm), f, cmd)
  }

  lemma ArmedBetweenRefines(s: Slots, f: Fid, cmd: nat, g: Fid, arm: nat)
    requires |s| == PENDING_MAX && Distinct(s)
    ensures var (s', reply) := ArmedBetween(s, f, cmd, g, arm);
            Distinct(s') && (Mapped(s'), reply) == MapArmedBetween(Mapped(s), f, cmd, g, arm)
    ensures Lookup(s, f) == MapLookup(Mapped(s), f) && |Mapped(s)| <= PENDING_MAX
  {
    hide Mapped, Arm, Disarm;
    FindIsMember(s, f);
    ArmRefines(s, g, arm);
    DisarmRefines(Arm(s, g, arm), f);
    MappedCount(s);
    AllUsed(s);
  }

  lemma MapBetweenIsAtomicIff(m: Table, f: Fid, cmd: nat, g: Fid, arm: nat)
    requires |m| <= PENDING_MAX
    ensures (MapArmedBetween(m, f, cmd, g, arm) == UplinkThenArm(m, f, cmd, g, arm)
             || MapArmedBetween(m, f, cmd, g, arm) == ArmThenUplink(m, f, cmd, g, arm))
        <==> !(g == f && cmd == MapLookup(m, f) != 0 && arm != cmd)
  {
    if MapLookup(m, f) == cmd != 0 {
      assert |m.Keys - {f}| == |m.Keys| - 1;
      assert (m - {f}).Keys == m.Keys - {f};
      if g == f {
        assert m[f := arm] - {f} == m - {f};
        assert f in (m - {f})[f := arm] && f !in m - {f};
      } else if g in m || |m| < PENDING_MAX {
        assert m[g := arm] - {f} == (m - {f})[g := arm];
      }
    }
  }

  /** An arm between the two is as good as one before or after the whole uplink, for the table and the reply, exactly
      unless it gives the confirming chip another command: that command is disarmed unseen. */
  lemma ArmBetweenIsAtomicIff(s: Slots, f: Fid, cmd: nat, g: Fid, arm: nat)
    requires |s| == PENDING_MAX && Distinct(s)
    ensures var (s', reply) := ArmedBetween(s, f, cmd, g, arm);
            ((Mapped(s'), reply) == UplinkThenArm(Mapped(s), f, cmd, g, arm)
             || (Mapped(s'), reply) == ArmThenUplink(Mapped(s), f, cmd, g, arm))
            <==> !(g == f && cmd == Lookup(s, f) != 0 && arm != cmd)
  {
    hide Mapped, ArmedBetween, MapArmedBetween, UplinkThenArm, ArmThenUplink;
    ArmedBetweenRefines(s, f, cmd, g, arm);
    MapBetweenIsAtomicIff(Mapped(s), f, cmd, g, arm);
  }

  // ---------------------------------------------------------------- any controls inside an uplink

  datatype Control = ArmIt(f: Fid, cmd: nat) | DisarmIt(f: Fid)

  function Controlled(s: Slots, cs: seq<Control>): Slots
    decreases |cs|
  {
    if cs == [] then s
    else
      match cs[0]
      case ArmIt(f, cmd) => Controlled(Arm(s, f, cmd), cs[1..])
      case DisarmIt(f) => Controlled(Disarm(s, f), cs[1..])
  }

  function MapControlled(m: Table, cs: seq<Control>): Table
    decreases |cs|
  {
    if cs == [] then m else MapControlled(MapControl(m, cs[0]), cs[1..])
  }

  function MapControl(m: Table, c: Control): Table {
    match c case ArmIt(f, cmd) => MapArm(m, f, cmd) case DisarmIt(f) => m - {f}
  }

  /** The uplink's look-up, the controls, and then its disarm, if it confirms. */
  function ControlledBetween(s: Slots, f: Fid, cmd: nat, cs: seq<Control>): (Slots, Reply) {
    var pend := Lookup(s, f);
    var later := Controlled(s, cs);
    if pend == 0 then (later, Ack)
    else if cmd == pend then (Disarm(later, f), Ack)
    else (later, Nack(pend))
  }

  function MapControlledBetween(m: Table, f: Fid, cmd: nat, cs: seq<Control>): (Table, Reply) {
    var pend := MapLookup(m, f);
    var later := MapControlled(m, cs);
    if pend == 0 then (later, Ack)
    else if cmd == pend then (later - {f}, Ack)
    else (later, Nack(pend))
  }

  /** The uplink as one step after the first i controls. */
  function UplinkAt(m: Table, f: Fid, cmd: nat, cs: seq<Control>, i: nat): (Table, Reply)
    requires i <= |cs|
  {
    var (m', reply) := MapUplink(MapControlled(m, cs[..i]), f, cmd);
    (MapControlled(m', cs[i..]), reply)
  }

  ghost predicate IsAtomic(m: Table, f: Fid, cmd: nat, cs: seq<Control>, r: (Table, Reply)) {
    exists i :: 0 <= i <= |cs| && r == UplinkAt(m, f, cmd, cs, i)
  }

  lemma {:induction false} ControlsRefine(s: Slots, cs: seq<Control>)
    requires |s| == PENDING_MAX && Distinct(s)
    ensures var s' := Controlled(s, cs);
            |s'| == PENDING_MAX && Distinct(s') && Mapped(s') == MapControlled(Mapped(s), cs)
    decreases |cs|
  {
    hide Mapped, Arm, Disarm, MapArm, Distinct;
    if cs != [] {
      match cs[0]
      case ArmIt(f, cmd) =>
        ArmRefines(s, f, cmd);
        ControlsRefine(Arm(s, f, cmd), cs[1..]);
      case DisarmIt(f) =>
        DisarmRefines(s, f);
        ControlsRefine(Disarm(s, f), cs[1..]);
    }
  }

  lemma ControlledBetweenRefines(s: Slots, f: Fid, cmd: nat, cs: seq<Control>)
    requires |s| == PENDING_MAX && Distinct(s)
    ensures var (s', reply) := ControlledBetween(s, f, cmd, cs);
            Distinct(s') && (Mapped(s'), reply) == MapControlledBetween(Mapped(s), f, cmd, cs)
    ensures Lookup(s, f) == MapLookup(Mapped(s), f)
  {
    hide Mapped, Controlled, Disarm;
    FindIsMember(s, f);
    ControlsRefine(s, cs);
    DisarmRefines(Controlled(s, cs), f);
  }

  /** What the controls make of one chip when the table has room for every arm. */
  function ChipControlled(v: Option<nat>, cs: seq<Control>, f: Fid): Option<nat>
    decreases |cs|
  {
    if cs == [] then v
    else if cs[0].f != f then ChipControlled(v, cs[1..], f)
    else ChipControlled(ChipOf(cs[0]), cs[1..], f)
  }

  function ChipOf(c: Control): Option<nat> { if c.ArmIt? then Some(c.cmd) else None }

  function At(m: Table, f: Fid): Option<nat> { if f in m then Some(m[f]) else None }

  function Armed(cs: seq<Control>): set<Fid> { set i | 0 <= i < |cs| && cs[i].ArmIt? :: cs[i].f }

  /** The table cannot become full: the chips mapped and the chips armed fit into it. */
  predicate HasRoom(m: Table, cs: seq<Control>) { |m.Keys + Armed(cs)| <= PENDING_MAX }

  /** Every chip mapped or armed is one of at most eight. */
  predicate Among(m: Table, cs: seq<Control>, chips: set<Fid>) {
    && |chips| <= PENDING_MAX && m.Keys <= chips
    && forall i :: 0 <= i < |cs| && cs[i].ArmIt? ==> cs[i].f in chips
  }

  lemma ArmAmong(m: Table, f: Fid, cmd: nat, chips: set<Fid>)
    requires |chips| <= PENDING_MAX && m.Keys <= chips && f in chips
    ensures MapArm(m, f, cmd) == m[f := cmd] && MapArm(m, f, cmd).Keys <= chips
  {
    if f !in m {
      assert |chips - m.Keys| == |chips| - |m|;
      assert f in chips - m.Keys;
    }
  }

  lemma {:induction false} ControlsAmong(m: Table, cs: seq<Control>, f: Fid, chips: set<Fid>)
    requires Among(m, cs, chips)
    ensures At(MapControlled(m, cs), f) == ChipControlled(At(m, f), cs, f)
    ensures MapControlled(m, cs).Keys <= chips
    decreases |cs|
  {
    hide MapArm;
    if cs != [] {
      match cs[0]
      case ArmIt(g, cmd) =>
        ArmAmong(m, g, cmd, chips);
        ControlsAmong(m[g := cmd], cs[1..], f, chips);
      case DisarmIt(g) =>
        ControlsAmong(m - {g}, cs[1..], f, chips);
    }
  }

  lemma {:induction false} ChipSplits(v: Option<nat>, cs: seq<Control>, f: Fid, i: nat)
    requires i <= |cs|
    ensures ChipControlled(v, cs, f) == ChipControlled(ChipControlled(v, cs[..i], f), cs[i..], f)
    decreases i
  {
    if i > 0 {
      var v' := if cs[0].f != f then v else ChipOf(cs[0]);
      ChipSplits(v', cs[1..], f, i - 1);
      assert cs[1..][..i - 1] == cs[..i][1..] && cs[1..][i - 1..] == cs[i..];
    }
  }

  ghost predicate LeftAlone(cs: seq<Control>, f: Fid) { forall v :: ChipControlled(v, cs, f) == v }

  ghost predicate Decided(cs: seq<Control>, f: Fid) {
    forall v, v' :: ChipControlled(v, cs, f) == ChipControlled(v', cs, f)
  }

  /** The controls leave a chip alone, or decide what becomes of it whatever it was before. */
  lemma {:induction false} AloneOrDecided(cs: seq<Control>, f: Fid)
    ensures LeftAlone(cs, f) || Decided(cs, f)
    decreases |cs|
  {
    if cs != [] {
      AloneOrDecided(cs[1..], f);
      forall v
        ensures ChipControlled(v, cs, f) == ChipControlled(if cs[0].f != f then v else ChipOf(cs[0]), cs[1..], f)
      {}
      hide ChipControlled;
      if cs[0].f == f {
        assert Decided(cs, f);
      } else if LeftAlone(cs[1..], f) {
        assert LeftAlone(cs, f);
      } else {
        forall v, v'
          ensures ChipControlled(v, cs, f) == ChipControlled(v', cs, f)
        {
          assert ChipControlled(v, cs[1..], f) == ChipControlled(v', cs[1..], f);
        }
      }
    }
  }

  /** The controls, applied one after the other, leave the confirming chip with another command. */
  predicate GivesAnother(m: Table, f: Fid, cmd: nat, cs: seq<Control>) {
    var later := MapControlled(m, cs);
    cmd == MapLookup(m, f) != 0 && f in later && later[f] != cmd
  }

  /** Wherever the uplink is placed as one step, a command given to the chip stays. */
  lemma PlacedUplinkKeepsCommand(m: Table, f: Fid, cmd: nat, cs: seq<Control>, i: nat)
    requires HasRoom(m, cs) && GivesAnother(m, f, cmd, cs) && i <= |cs|
    ensures f in UplinkAt(m, f, cmd, cs, i).0
  {
    var chips := m.Keys + Armed(cs);
    var first, rest := cs[..i], cs[i..];
    var mid := MapControlled(m, first);
    var up := MapUplink(mid, f, cmd).0;
    ControlsAmong(m, cs, f, chips);
    ControlsAmong(m, first, f, chips);
    ControlsAmong(up, rest, f, chips);
    ChipSplits(At(m, f), cs, f, i);
    assert UplinkAt(m, f, cmd, cs, i).0 == MapControlled(up, rest);
    ChipKept(rest, f, cmd, At(mid, f), At(up, f));
  }

  lemma ChipKept(rest: seq<Control>, f: Fid, cmd: nat, mid: Option<nat>, up: Option<nat>)
    requires var x := ChipControlled(mid, rest, f); x.Some? && x.value != cmd
    requires up == mid || mid == Some(cmd)
    ensures ChipControlled(up, rest, f).Some?
  {
    hide ChipControlled;
    AloneOrDecided(rest, f);
    if Decided(rest, f) {
      assert ChipControlled(up, rest, f) == ChipControlled(mid, rest, f);
    }
  }

  lemma MapControlledBetweenIsAtomic(m: Table, f: Fid, cmd: nat, cs: seq<Control>)
    ensures !GivesAnother(m, f, cmd, cs) ==> IsAtomic(m, f, cmd, cs, MapControlledBetween(m, f, cmd, cs))
    ensures HasRoom(m, cs) && GivesAnother(m, f, cmd, cs) ==> !IsAtomic(m, f, cmd, cs, MapControlledBetween(m, f, cmd, cs))
  {
    var r, later := MapControlledBetween(m, f, cmd, cs), MapControlled(m, cs);
    if !GivesAnother(m, f, cmd, cs) {
      assert cs[..0] == [] && cs[0..] == cs && cs[..|cs|] == cs && cs[|cs|..] == [];
      if cmd == MapLookup(m, f) != 0 {
        assert f !in later ==> later - {f} == later;
        assert r == UplinkAt(m, f, cmd, cs, |cs|);
      } else {
        assert r == UplinkAt(m, f, cmd, cs, 0);
      }
    } else if HasRoom(m, cs) {
      forall i | 0 <= i <= |cs|
        ensures r != UplinkAt(m, f, cmd, cs, i)
      {
        PlacedUplinkKeepsCommand(m, f, cmd, cs, i);
      }
    }
  }

  /** Any arms and disarms between the look-up and the disarm of an uplink are as good as some placement of the whole
      uplink among them, for the table and the reply, unless they leave the confirming chip with another command;
      while the table has room for every arm, exactly unless they do. */
  lemma ControlsBetweenAreAtomicIff(s: Slots, f: Fid, cmd: nat, cs: seq<Control>)
    requires |s| == PENDING_MAX && Distinct(s)
    ensures var (s', reply) := ControlledBetween(s, f, cmd, cs);
            var m := Mapped(s);
            && (!GivesAnother(m, f, cmd, cs) ==> IsAtomic(m, f, cmd, cs, (Mapped(s'), reply)))
            && (HasRoom(m, cs) ==> (IsAtomic(m, f, cmd, cs, (Mapped(s'), reply)) <==> !GivesAnother(m, f, cmd, cs)))
  {
    hide Mapped, ControlledBetween, MapControlledBetween, IsAtomic, GivesAnother, HasRoom;
    ControlledBetweenRefines(s, f, cmd, cs);
    MapControlledBetweenIsAtomic(Mapped(s), f, cmd, cs);
  }

  lemma ThreeControls(m: Table, a: Control, b: Control, c: Control)
    ensures MapControlled(m, [a, b, c]) == MapControl(MapControl(MapControl(m, a), b), c)
  {
    hide MapControl;
    var cs := [a, b, c];
    assert cs[1..] == [b, c] && [b, c][1..] == [c] && [c][1..] == [];
    var m1 := MapControl(m, a);
    var m2 := MapControl(m1, b);
    assert MapControlled(m, cs) == MapControlled(m1, [b, c]);
    assert MapControlled(m1, [b, c]) == MapControlled(m2, [c]);
    assert MapControlled(m2, [c]) == MapControl(m2, c);
  }

  /** In a full table the loss can go unnoticed: had the uplink come first, its slot would have gone to another chip and
      the command been refused. */
  lemma FullTableHidesLoss(m: Table, f: Fid, cmd: nat, g: Fid, other: nat)
    requires |m| == PENDING_MAX && f in m && m[f] == cmd && cmd != 0 && g !in m && other != cmd
    ensures var cs := [ArmIt(g, other), ArmIt(f, other), DisarmIt(g)];
            GivesAnother(m, f, cmd, cs) && IsAtomic(m, f, cmd, cs, MapControlledBetween(m, f, cmd, cs))
  {
    var cs := [ArmIt(g, other), ArmIt(f, other), DisarmIt(g)];
    var freed := m - {f};
    FullThenFreed(m, f, g, other);
    ThreeControls(m, cs[0], cs[1], cs[2]);
    ThreeControls(freed, cs[0], cs[1], cs[2]);
    hide MapControlled, MapArm;
    assert m[f := other] - {f} == freed;
    assert cs[..0] == [] && cs[0..] == cs;
    assert MapControlled(m, []) == m by { NoControls(m); }
    assert MapControlledBetween(m, f, cmd, cs) == UplinkAt(m, f, cmd, cs, 0);
  }

  lemma NoControls(m: Table)
    ensures MapControlled(m, []) == m
  {}

  lemma FullThenFreed(m: Table, f: Fid, g: Fid, other: nat)
    requires |m| == PENDING_MAX && f in m && g !in m
    ensures MapArm(MapArm(m, g, other), f, other) - {g} == m[f := other]
    ensures MapArm(MapArm(m - {f}, g, other), f, other) - {g} == m - {f}
  {
    var freed := m - {f};
    assert freed.Keys == m.Keys - {f} && |freed| == |m| - 1;
    var filled := freed[g := other];
    assert filled.Keys == freed.Keys + {g} && |filled| == |m|;
    assert MapArm(freed, g, other) == filled && MapArm(filled, f, other) == filled;
    assert filled - {g} == freed;
    assert m[f := other] - {g} == m[f := other];
  }

  // ---------------------------------------------------------------- in place

  class PendingTable {
    const slots: array<Slot>

    constructor ()
      ensures fresh(slots) && slots.Length == PENDING_MAX && slots[..] == NO_SLOTS
    {
      slots := new Slot[8](_ => NO_SLOT);
    }

    method FindLocked(f: Fid) returns (r: Option<nat>)
      ensures r == Find(slots[..], f)
    {
      for i := 0 to slots.Length
        invariant Find(slots[..], f) == Find(slots[..], f, i)
      {
        if slots[i].used && slots[i].fid == f {
          return Some(i);
        }
      }
      return None;
    }

    method LookupChip(f: Fid) returns (cmd: nat)
      ensures cmd == Lookup(slots[..], f)
    {
      var i := FindLocked(f);
      if i.Some? {
        return slots[i.value].cmd;
      }
      return 0;
    }

    method ArmChip(f: Fid, cmd: nat)
      modifies slots
      ensures slots[..] == Arm(old(slots[..]), f, cmd)
    {
      var r := FindLocked(f);
      var i := 0;
      if r.Some? {
        i := r.value;
      } else {
        while i < slots.Length && slots[i].used
          invariant 0 <= i <= slots.Length
          invariant FirstFree(slots[..]) == FirstFree(slots[..], i)
        {
          i := i + 1;
        }
      }
      if i < slots.Length {
        slots[i] := Slot(f, cmd, true);
      }
    }

    method DisarmChip(f: Fid)
      modifies slots
      ensures slots[..] == Disarm(old(slots[..]), f)
    {
      var i := FindLocked(f);
      if i.Some? {
        slots[i.value] := slots[i.value].(used := false);
      }
    }

    /** The reply to a v2 uplink. */
    method Answer(f: Fid, cmd: nat) returns (reply: Reply)
      modifies slots
      ensures (slots[..], reply) == Uplink(old(slots[..]), f, cmd)
    {
      reply := Ack;
      var pend := LookupChip(f);
      if pend != 0 {
        if cmd == pend {
          DisarmChip(f);
        } else {
          reply := Nack(pend);
        }
      }
    }
  }
}
