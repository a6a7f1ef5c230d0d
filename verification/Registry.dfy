/** The node registry of store.go: stable node ids, reusable RF addresses and chip ids, through provisioning,
    replacement, the trash and back. */
module Registry {
  import opened Wrappers
  import Maxima

  const POOL_FIRST := 0x10
  const POOL_LAST := 0xEF

  datatype Status = PendingJoin | Active | Detached | Legacy | PendingRemove

  /** A row of table node. archived holds the time the node went to the trash. */
  datatype Node = Node(address: Option<nat>, factory: Option<string>, kind: nat, name: string, room: string,
                       capabilities: nat, status: Status, archived: Option<int>, provisionedAt: int, lastSeen: int)

  type Nodes = map<int, Node>

  /** last is the AUTOINCREMENT counter of the table. */
  datatype Registry = Registry(nodes: Nodes, last: int)

  datatype Error = PoolExhausted | FactoryTaken | NoSuchNode | InTrash | NotDetached | ChipAssigned | NotInTrash

  // ---------------------------------------------------------------- the invariant

  /** The unique indexes on address and factory_id. */
  ghost predicate Unique(nodes: Nodes) {
    && (forall i, j :: i in nodes && j in nodes && i != j && nodes[i].address.Some? ==> nodes[i].address != nodes[j].address)
    && (forall i, j :: i in nodes && j in nodes && i != j && nodes[i].factory.Some? ==> nodes[i].factory != nodes[j].factory)
  }

  /** An archived node holds no address; a live one lacks an address exactly when it is detached. */
  predicate LifecycleOk(n: Node) {
    if n.archived.Some? then n.address.None? else n.address.None? <==> n.status.Detached?
  }

  ghost predicate Valid(r: Registry) {
    && Unique(r.nodes)
    && (forall i :: i in r.nodes ==> i <= r.last && LifecycleOk(r.nodes[i]))
  }

  // ---------------------------------------------------------------- addresses

  predicate Held(nodes: Nodes, a: nat) {
    exists i :: i in nodes && nodes[i].address == Some(a)
  }

  /** The lowest free address from a on. */
  function LowestFree(nodes: Nodes, a: nat): (r: Option<nat>)
    ensures r.Some? ==> a <= r.value <= POOL_LAST && !Held(nodes, r.value)
                        && forall b :: a <= b < r.value ==> Held(nodes, b)
    ensures r.None? ==> forall b :: a <= b <= POOL_LAST ==> Held(nodes, b)
    decreases POOL_LAST + 1 - a
  {
    if a > POOL_LAST then None
    else if Held(nodes, a) then LowestFree(nodes, a + 1)
    else Some(a)
  }

  /** allocAddr */
  function AllocAddr(nodes: Nodes): Option<nat> { LowestFree(nodes, POOL_FIRST) }

  /** The nodes that hold the addresses from a up to b. */
  lemma {:induction false} Holders(nodes: Nodes, a: nat, b: nat) returns (ids: set<int>)
    requires a <= b && Unique(nodes) && forall x :: a <= x < b ==> Held(nodes, x)
    ensures ids <= nodes.Keys && |ids| == b - a
    ensures forall i :: i in ids ==> nodes[i].address.Some? && a <= nodes[i].address.value < b
    decreases b - a
  {
    if a == b {
      ids := {};
    } else {
      ids := Holders(nodes, a, b - 1);
      assert Held(nodes, b - 1);
      var i :| i in nodes && nodes[i].address == Some(b - 1);
      ids := ids + {i};
    }
  }

  lemma Larger<T>(small: set<T>, big: set<T>)
    requires small <= big
    ensures |small| <= |big|
  {
    assert big == small + (big - small);
  }

  /** Allocation fails only when all 224 addresses are held, by as many different nodes. */
  lemma ExhaustedMeansFull(nodes: Nodes)
    requires Unique(nodes) && AllocAddr(nodes).None?
    ensures forall a :: POOL_FIRST <= a <= POOL_LAST ==> Held(nodes, a)
    ensures |nodes.Keys| >= 224
  {
    var ids := Holders(nodes, POOL_FIRST, POOL_LAST + 1);
    Larger(ids, nodes.Keys);
  }

  // ---------------------------------------------------------------- the operations

  predicate IsLiveChip(n: Node, f: string) { n.factory == Some(f) && n.archived.None? }

  predicate Knows(nodes: Nodes, f: string) { exists i :: i in nodes && IsLiveChip(nodes[i], f) }

  /** UNIQUE(factory_id) refuses f for any row but id. */
  predicate TakenBeside(nodes: Nodes, f: string, id: int) {
    exists i :: i in nodes && i != id && nodes[i].factory == Some(f)
  }

  function Capabilities(declared: nat, known: nat): nat { if declared != 0 then declared else known }

  /** The address of the live node of a chip, as a column of type uint8: NULL reads as 0. */
  ghost function AddressOfChip(nodes: Nodes, f: string): nat
    requires Knows(nodes, f)
  {
    var i :| i in nodes && IsLiveChip(nodes[i], f);
    match nodes[i].address case None => 0 case Some(a) => a
  }

  function Reapproved(n: Node, kind: nat, name: string, caps: nat, ts: int): Node {
    n.(name := name, kind := kind, capabilities := Capabilities(caps, n.capabilities), provisionedAt := ts, lastSeen := ts,
       status := if n.status.PendingRemove? then Active else n.status)
  }

  /** ProvisionNode */
  ghost function Provision(r: Registry, kind: nat, name: string, f: string, caps: nat, ts: int): (Registry, Result<nat, Error>) {
    if Knows(r.nodes, f) then
      (r.(nodes := map i | i in r.nodes ::
            if r.nodes[i].factory == Some(f) then Reapproved(r.nodes[i], kind, name, caps, ts) else r.nodes[i]),
       Ok(AddressOfChip(r.nodes, f)))
    else
      match AllocAddr(r.nodes)
      case None => (r, Err(PoolExhausted))
      case Some(a) =>
        var id := r.last + 1;
        if TakenBeside(r.nodes, f, id) then (r, Err(FactoryTaken))
        else (Registry(r.nodes[id := Node(Some(a), Some(f), kind, name, "", caps, PendingJoin, None, ts, ts)], id), Ok(a))
  }

  function Rebound(n: Node, f: string, caps: nat, ts: int): Node {
    n.(factory := Some(f), capabilities := Capabilities(caps, n.capabilities), status := PendingJoin,
       provisionedAt := ts, lastSeen := ts)
  }

  /** ReplaceNode */
  function Replace(r: Registry, target: nat, f: string, caps: nat, ts: int): (Registry, Result<(), Error>) {
    if exists i :: i in r.nodes && r.nodes[i].address == Some(target) && TakenBeside(r.nodes, f, i) then (r, Err(FactoryTaken))
    else if !Held(r.nodes, target) then (r, Err(NoSuchNode))
    else
      (r.(nodes := map i | i in r.nodes ::
            if r.nodes[i].address == Some(target) then Rebound(r.nodes[i], f, caps, ts) else r.nodes[i]),
       Ok(()))
  }

  /** RepairNode */
  function Repair(r: Registry, id: int, f: string, caps: nat, ts: int): (Registry, Result<nat, Error>) {
    if id !in r.nodes then (r, Err(NoSuchNode))
    else if r.nodes[id].archived.Some? then (r, Err(InTrash))
    else if !r.nodes[id].status.Detached? then (r, Err(NotDetached))
    else if exists i :: i in r.nodes && i != id && IsLiveChip(r.nodes[i], f) then (r, Err(ChipAssigned))
    else
      match AllocAddr(r.nodes)
      case None => (r, Err(PoolExhausted))
      case Some(a) =>
        if TakenBeside(r.nodes, f, id) then (r, Err(FactoryTaken))
        else (r.(nodes := r.nodes[id := Rebound(r.nodes[id], f, caps, ts).(address := Some(a))]), Ok(a))
  }

  /** MarkActive */
  function Confirm(r: Registry, a: nat): Registry {
    r.(nodes := map i | i in r.nodes ::
         if r.nodes[i].address == Some(a) && r.nodes[i].status.PendingJoin? then r.nodes[i].(status := Active) else r.nodes[i])
  }

  /** DeleteNodeByID */
  function Trash(r: Registry, id: int, now: int): Registry {
    if id in r.nodes && r.nodes[id].archived.None? then
      r.(nodes := r.nodes[id := r.nodes[id].(archived := Some(now), address := None)])
    else r
  }

  /** RestoreNodeLocal */
  function Restore(r: Registry, id: int): (Registry, Result<(), Error>) {
    if id in r.nodes && r.nodes[id].archived.Some? then
      (r.(nodes := r.nodes[id := r.nodes[id].(archived := None, status := Detached)]), Ok(()))
    else (r, Err(NotInTrash))
  }

  /** PurgeExpiredTrash: dropNode on every node archived before the cut-off. */
  function Purge(r: Registry, cutoff: int): Registry {
    r.(nodes := map i | i in r.nodes && !(r.nodes[i].archived.Some? && r.nodes[i].archived.value < cutoff) :: r.nodes[i])
  }

  /** RecordTelemetry's update of the row, and UpdateNode: neither touches identity. */
  function Heard(r: Registry, a: nat, kind: nat, ts: int): Registry {
    r.(nodes := map i | i in r.nodes ::
         if r.nodes[i].address == Some(a) then r.nodes[i].(kind := kind, lastSeen := ts) else r.nodes[i])
  }

  function Rename(r: Registry, a: nat, name: string, room: string): Registry {
    r.(nodes := map i | i in r.nodes ::
         if r.nodes[i].address == Some(a) then r.nodes[i].(name := name, room := room) else r.nodes[i])
  }

  // ---------------------------------------------------------------- runs

  datatype Event =
    | DoProvision(kind: nat, name: string, f: string, caps: nat, ts: int)
    | DoReplace(target: nat, f: string, caps: nat, ts: int)
    | DoRepair(id: int, f: string, caps: nat, ts: int)
    | DoConfirm(a: nat)
    | DoTrash(id: int, now: int)
    | DoRestore(id: int)
    | DoPurge(cutoff: int)
    | DoHear(a: nat, kind: nat, ts: int)
    | DoRename(a: nat, name: string, room: string)

  ghost function Step(r: Registry, e: Event): Registry {
    match e
    case DoProvision(kind, name, f, caps, ts) => Provision(r, kind, name, f, caps, ts).0
    case DoReplace(target, f, caps, ts) => Replace(r, target, f, caps, ts).0
    case DoRepair(id, f, caps, ts) => Repair(r, id, f, caps, ts).0
    case DoConfirm(a) => Confirm(r, a)
    case DoTrash(id, now) => Trash(r, id, now)
    case DoRestore(id) => Restore(r, id).0
    case DoPurge(cutoff) => Purge(r, cutoff)
    case DoHear(a, kind, ts) => Heard(r, a, kind, ts)
    case DoRename(a, name, room) => Rename(r, a, name, room)
  }

  ghost function Run(r: Registry, events: seq<Event>): Registry {
    if events == [] then r else Step(Run(r, events[..|events| - 1]), events[|events| - 1])
  }

  lemma ProvisionKeeps(r: Registry, kind: nat, name: string, f: string, caps: nat, ts: int)
    requires Valid(r)
    ensures Valid(Provision(r, kind, name, f, caps, ts).0)
  {
    hide LowestFree;
    if !Knows(r.nodes, f) && AllocAddr(r.nodes).Some? && !TakenBeside(r.nodes, f, r.last + 1) {
      var a, id := AllocAddr(r.nodes).value, r.last + 1;
      assert !Held(r.nodes, a);
      assert forall i :: i in r.nodes ==> i != id && r.nodes[i].address != Some(a) && r.nodes[i].factory != Some(f);
    }
  }

  lemma ReplaceKeeps(r: Registry, target: nat, f: string, caps: nat, ts: int)
    requires Valid(r)
    ensures Valid(Replace(r, target, f, caps, ts).0)
  {
    if Replace(r, target, f, caps, ts).1.Ok? {
      var k :| k in r.nodes && r.nodes[k].address == Some(target);
      assert !TakenBeside(r.nodes, f, k);
      assert forall i :: i in r.nodes && i != k ==> r.nodes[i].address != Some(target) && r.nodes[i].factory != Some(f);
    }
  }

  lemma RepairKeeps(r: Registry, id: int, f: string, caps: nat, ts: int)
    requires Valid(r)
    ensures Valid(Repair(r, id, f, caps, ts).0)
  {
    hide LowestFree;
    if Repair(r, id, f, caps, ts).1.Ok? {
      var a := AllocAddr(r.nodes).value;
      assert !Held(r.nodes, a) && !TakenBeside(r.nodes, f, id);
      assert forall i :: i in r.nodes && i != id ==> r.nodes[i].address != Some(a) && r.nodes[i].factory != Some(f);
    }
  }

  lemma TrashAndBackKeep(r: Registry, id: int, now: int, cutoff: int, a: nat)
    requires Valid(r)
    ensures Valid(Trash(r, id, now)) && Valid(Restore(r, id).0) && Valid(Purge(r, cutoff)) && Valid(Confirm(r, a))
  {}

  lemma LabelsKeep(r: Registry, a: nat, kind: nat, ts: int, name: string, room: string)
    requires Valid(r)
    ensures Valid(Heard(r, a, kind, ts)) && Valid(Rename(r, a, name, room))
  {}

  lemma StepKeeps(r: Registry, e: Event)
    requires Valid(r)
    ensures Valid(Step(r, e)) && r.last <= Step(r, e).last
    ensures forall i :: i in Step(r, e).nodes ==> i in r.nodes || r.last < i
  {
    hide Valid, Unique, LowestFree, Held, Knows, TakenBeside;
    match e
    case DoProvision(kind, name, f, caps, ts) => ProvisionKeeps(r, kind, name, f, caps, ts);
    case DoReplace(target, f, caps, ts) => ReplaceKeeps(r, target, f, caps, ts);
    case DoRepair(id, f, caps, ts) => RepairKeeps(r, id, f, caps, ts);
    case DoConfirm(a) => TrashAndBackKeep(r, 0, 0, 0, a);
    case DoTrash(id, now) => TrashAndBackKeep(r, id, now, 0, 0);
    case DoRestore(id) => TrashAndBackKeep(r, id, 0, 0, 0);
    case DoPurge(cutoff) => TrashAndBackKeep(r, 0, 0, cutoff, 0);
    case DoHear(a, kind, ts) => LabelsKeep(r, a, kind, ts, "", "");
    case DoRename(a, name, room) => LabelsKeep(r, a, 0, 0, name, room);
  }

  /** Over every run of lifecycle steps the registry stays valid, and an id that is not there was either never
      given out or will never be given out again. */
  lemma {:induction false} RunKeeps(r: Registry, events: seq<Event>)
    requires Valid(r)
    ensures var r' := Run(r, events);
            Valid(r') && r.last <= r'.last && forall i :: i in r'.nodes && i <= r.last ==> i in r.nodes
  {
    hide Valid, Step;
    if events != [] {
      var n := |events| - 1;
      RunKeeps(r, events[..n]);
      StepKeeps(Run(r, events[..n]), events[n]);
    }
  }

  /** A node_id that has been purged never comes back. */
  lemma IdsAreNotReused(r: Registry, before: seq<Event>, later: seq<Event>, id: int)
    requires Valid(r)
    requires id in Run(r, before).nodes || id in r.nodes
    requires id !in Run(Run(r, before), later).nodes
    ensures forall more :: id !in Run(Run(Run(r, before), later), more).nodes
  {
    hide Run;
    var r1 := Run(r, before);
    RunKeeps(r, before);
    var r2 := Run(r1, later);
    RunKeeps(r1, later);
    IdsBelowLast(r);
    IdsBelowLast(r1);
    forall more
      ensures id !in Run(r2, more).nodes
    {
      RunKeeps(r2, more);
    }
  }

  lemma IdsBelowLast(r: Registry)
    requires Valid(r)
    ensures forall i :: i in r.nodes ==> i <= r.last
  {}

  // ---------------------------------------------------------------- what the operations promise

  lemma ChipIsUnique(r: Registry, f: string, id: int)
    requires Valid(r) && id in r.nodes && IsLiveChip(r.nodes[id], f)
    ensures Knows(r.nodes, f)
    ensures AddressOfChip(r.nodes, f) == match r.nodes[id].address case None => 0 case Some(a) => a
  {}

  /** ProvisionNode reports success with address 0 exactly for the chip of a live detached node (or of a node
      at address 0, which provisioning never hands out). */
  lemma ProvisionGivesZeroIff(r: Registry, kind: nat, name: string, f: string, caps: nat, ts: int)
    requires Valid(r) && !Held(r.nodes, 0)
    ensures Provision(r, kind, name, f, caps, ts).1 == Ok(0)
        <==> exists id :: id in r.nodes && IsLiveChip(r.nodes[id], f) && r.nodes[id].status.Detached?
  {
    hide LowestFree;
    if Knows(r.nodes, f) {
      var id :| id in r.nodes && IsLiveChip(r.nodes[id], f);
      ChipIsUnique(r, f, id);
      assert LifecycleOk(r.nodes[id]);
      if r.nodes[id].address.Some? {
        assert Held(r.nodes, r.nodes[id].address.value);
      }
    }
  }

  /** Approving a chip again, at once or after any time in which its node stays live, gives the same address
      and makes no second node. */
  lemma ProvisionIsIdempotent(r: Registry, kind: nat, name: string, f: string, caps: nat, ts: int,
                              kind': nat, name': string, caps': nat, ts': int)
    requires Valid(r) && Provision(r, kind, name, f, caps, ts).1.Ok?
    ensures var (r1, a) := Provision(r, kind, name, f, caps, ts);
            var (r2, a') := Provision(r1, kind', name', f, caps', ts');
            a' == a && r2.nodes.Keys == r1.nodes.Keys && r2.last == r1.last
  {
    hide LowestFree;
    var (r1, a) := Provision(r, kind, name, f, caps, ts);
    ProvisionKeeps(r, kind, name, f, caps, ts);
    if Knows(r.nodes, f) {
      var id :| id in r.nodes && IsLiveChip(r.nodes[id], f);
      ChipIsUnique(r, f, id);
      ChipIsUnique(r1, f, id);
    } else {
      ChipIsUnique(r1, f, r.last + 1);
    }
  }

  /** A chip whose node lies in the trash cannot be provisioned: with an address left, the unique index
      refuses the new row. */
  lemma TrashedChipIsRefused(r: Registry, id: int, kind: nat, name: string, f: string, caps: nat, ts: int)
    requires Valid(r) && id in r.nodes && r.nodes[id].factory == Some(f) && r.nodes[id].archived.Some?
    ensures Provision(r, kind, name, f, caps, ts)
         == (r, if AllocAddr(r.nodes).None? then Err(PoolExhausted) else Err(FactoryTaken))
  {
    hide LowestFree;
    assert !Knows(r.nodes, f);
  }

  /** What an approval of a chip for an existing node changes: the chip, the status, the two times, and the
      capabilities if the chip declares any. Id, name, room and type stay. */
  predicate GivenChip(n: Node, n': Node, f: string, caps: nat, ts: int) {
    && n'.factory == Some(f) && n'.status == PendingJoin && n'.provisionedAt == ts && n'.lastSeen == ts
    && n'.capabilities == (if caps == 0 then n.capabilities else caps)
    && n'.name == n.name && n'.room == n.room && n'.kind == n.kind && n'.archived == n.archived
  }

  /** Every other node is as it was, and nodes neither come nor go. */
  predicate OnlyAt(r: Registry, r': Registry, id: int) {
    && r'.last == r.last && r'.nodes.Keys == r.nodes.Keys
    && forall i :: i in r.nodes && i != id ==> r'.nodes[i] == r.nodes[i]
  }

  /** A replacement succeeds exactly if a node holds the address and no other has the chip. The node keeps address, name
      and room under the new chip, the old chip is forgotten, and approving the new one again finds that address. */
  lemma ReplaceGivesChip(r: Registry, id: int, target: nat, f: string, caps: nat, ts: int)
    requires Valid(r) && id in r.nodes && r.nodes[id].address == Some(target)
    ensures var (r', a) := Replace(r, target, f, caps, ts);
            && (a.Ok? <==> forall i :: i in r.nodes && i != id ==> r.nodes[i].factory != Some(f))
            && (!a.Ok? ==> r' == r)
            && (a.Ok? ==> OnlyAt(r, r', id) && GivenChip(r.nodes[id], r'.nodes[id], f, caps, ts)
                          && r'.nodes[id].address == Some(target)
                          && (forall g :: r.nodes[id].factory == Some(g) && g != f ==> !Knows(r'.nodes, g))
                          && (forall kind, name, caps', ts' :: Provision(r', kind, name, f, caps', ts').1 == Ok(target)))
  {
    hide LowestFree;
    var (r', a) := Replace(r, target, f, caps, ts);
    assert forall i :: i in r.nodes && r.nodes[i].address == Some(target) ==> i == id;
    if a.Ok? {
      assert IsLiveChip(r'.nodes[id], f);
      forall i | i in r'.nodes && IsLiveChip(r'.nodes[i], f) ensures i == id {}
    }
  }

  lemma NothingAtAddress(r: Registry, target: nat, f: string, caps: nat, ts: int)
    requires !Held(r.nodes, target)
    ensures Replace(r, target, f, caps, ts) == (r, Err(NoSuchNode))
  {}

  /** A repair succeeds exactly for a live detached node, with an address left and no other node with the chip. The node
      gets the lowest free address and the chip, and approving the chip again finds that address. */
  lemma RepairGivesChip(r: Registry, id: int, f: string, caps: nat, ts: int)
    requires Valid(r)
    ensures var (r', a) := Repair(r, id, f, caps, ts);
            && (a.Ok? <==> id in r.nodes && r.nodes[id].archived.None? && r.nodes[id].status.Detached?
                           && AllocAddr(r.nodes).Some?
                           && forall i :: i in r.nodes && i != id ==> r.nodes[i].factory != Some(f))
            && (!a.Ok? ==> r' == r)
            && (a.Ok? ==> OnlyAt(r, r', id) && GivenChip(r.nodes[id], r'.nodes[id], f, caps, ts)
                          && Some(a.value) == AllocAddr(r.nodes) && r'.nodes[id].address == Some(a.value)
                          && (forall g :: r.nodes[id].factory == Some(g) && g != f ==> !Knows(r'.nodes, g))
                          && (forall kind, name, caps', ts' :: Provision(r', kind, name, f, caps', ts').1 == Ok(a.value)))
  {
    hide LowestFree;
    var (r', a) := Repair(r, id, f, caps, ts);
    if a.Ok? {
      assert IsLiveChip(r'.nodes[id], f);
      forall i | i in r'.nodes && IsLiveChip(r'.nodes[i], f) ensures i == id {}
    }
  }

  /** Trash, restore and repair with its own chip bring a node back under its id, with name, room and type kept,
      its chip, and the lowest free address. */
  lemma BackFromTrash(r: Registry, id: int, now: int, f: string, caps: nat, ts: int)
    requires Valid(r) && id in r.nodes && r.nodes[id].archived.None? && r.nodes[id].factory == Some(f)
    requires AllocAddr(Trash(r, id, now).nodes).Some?
    ensures var r1 := Trash(r, id, now);
            var (r2, restored) := Restore(r1, id);
            var (r3, a) := Repair(r2, id, f, caps, ts);
            && restored.Ok? && a == Ok(AllocAddr(r1.nodes).value)
            && OnlyAt(r, r3, id) && GivenChip(r.nodes[id], r3.nodes[id], f, caps, ts)
            && r3.nodes[id].address == Some(a.value)
  {
    var r1 := Trash(r, id, now);
    var r2 := Restore(r1, id).0;
    SameAddresses(r1.nodes, r2.nodes, POOL_FIRST);
    assert forall i :: i in r2.nodes && i != id ==> r2.nodes[i] == r.nodes[i] && r2.nodes[i].factory != Some(f);
  }

  lemma {:induction false} SameAddresses(a: Nodes, b: Nodes, lo: nat)
    requires a.Keys == b.Keys && forall i :: i in a ==> a[i].address == b[i].address
    ensures LowestFree(a, lo) == LowestFree(b, lo)
    decreases POOL_LAST + 1 - lo
  {
    assert Held(a, lo) <==> Held(b, lo);
    if lo <= POOL_LAST && Held(a, lo) {
      SameAddresses(a, b, lo + 1);
    }
  }

  /** A trashed node's address is free at once: the next new node gets it, or the lower one it would have got
      before. */
  lemma TrashFreesAddress(r: Registry, id: int, now: int, a: nat)
    requires Valid(r) && id in r.nodes && r.nodes[id].archived.None? && r.nodes[id].address == Some(a)
    requires POOL_FIRST <= a <= POOL_LAST
    ensures var before := AllocAddr(r.nodes);
            AllocAddr(Trash(r, id, now).nodes)
            == if before.Some? && before.value < a then before else Some(a)
  {
    hide LowestFree;
    var nodes := Trash(r, id, now).nodes;
    forall b
      ensures Held(nodes, b) <==> Held(r.nodes, b) && b != a
    {
      if i :| i in r.nodes && r.nodes[i].address == Some(b) {
        assert b != a ==> nodes[i].address == Some(b);
      }
    }
    assert !Held(nodes, a) && Held(r.nodes, a);
    var before, after := AllocAddr(r.nodes), AllocAddr(nodes);
    assert before.Some? ==> !Held(nodes, before.value) && before.value != a;
    assert after.Some? ==> after.value == a || !Held(r.nodes, after.value);
  }

  // ---------------------------------------------------------------- what each step does, and what it leaves

  /** Approving a chip. A live node that has it keeps id, address, room and history, takes the new name and type, the
      declared capabilities if there are any, and is revived if it was being removed. Otherwise a new node appears under a
      fresh id, on the lowest free address, waiting to be confirmed. Nothing else changes. */
  lemma ProvisionGivesNode(r: Registry, kind: nat, name: string, f: string, caps: nat, ts: int)
    requires Valid(r)
    ensures var (r', a) := Provision(r, kind, name, f, caps, ts);
            && (!a.Ok? ==> r' == r)
            && (forall id :: id in r.nodes && r.nodes[id].factory == Some(f) && r.nodes[id].archived.None? ==>
                  var n, n' := r.nodes[id], r'.nodes[id];
                  && a == Ok(if n.address.Some? then n.address.value else 0) && OnlyAt(r, r', id)
                  && n'.name == name && n'.kind == kind && n'.capabilities == (if caps == 0 then n.capabilities else caps)
                  && n'.provisionedAt == ts && n'.lastSeen == ts
                  && n'.status == (if n.status == PendingRemove then Active else n.status)
                  && n'.address == n.address && n'.factory == n.factory && n'.room == n.room && n'.archived == n.archived)
            && ((forall id :: id in r.nodes ==> r.nodes[id].factory != Some(f)) ==>
                  && (a.Ok? <==> AllocAddr(r.nodes).Some?)
                  && (a.Ok? ==> Some(a.value) == AllocAddr(r.nodes) && AddsNode(r, r', a.value, f, kind, name, caps, ts)))
  {
    hide LowestFree;
    var (r', a) := Provision(r, kind, name, f, caps, ts);
    forall id | id in r.nodes && IsLiveChip(r.nodes[id], f)
      ensures a == Ok(if r.nodes[id].address.Some? then r.nodes[id].address.value else 0) && OnlyAt(r, r', id)
    {
      ChipIsUnique(r, f, id);
    }
  }

  predicate AddsNode(r: Registry, r': Registry, a: nat, f: string, kind: nat, name: string, caps: nat, ts: int) {
    && r'.last == r.last + 1 && r'.nodes.Keys == r.nodes.Keys + {r.last + 1}
    && (forall i :: i in r.nodes && i != r.last + 1 ==> r'.nodes[i] == r.nodes[i])
    && r'.nodes[r.last + 1] == Node(Some(a), Some(f), kind, name, "", caps, PendingJoin, None, ts, ts)
  }

  /** The first report from an address confirms the node that waits there, and does nothing else. */
  lemma ConfirmActivates(r: Registry, a: nat)
    ensures var r' := Confirm(r, a);
            && r'.last == r.last && r'.nodes.Keys == r.nodes.Keys
            && forall i :: i in r.nodes ==>
                 if r.nodes[i].address == Some(a) && r.nodes[i].status == PendingJoin
                 then r'.nodes[i].status == Active && r'.nodes[i] == r.nodes[i].(status := Active)
                 else r'.nodes[i] == r.nodes[i]
  {}

  /** So a chip that is approved for the first time and reports from the address it was given is active there. */
  lemma JoinCompletes(r: Registry, kind: nat, name: string, f: string, caps: nat, ts: int)
    requires Valid(r) && AllocAddr(r.nodes).Some? && forall id :: id in r.nodes ==> r.nodes[id].factory != Some(f)
    ensures var (r1, a) := Provision(r, kind, name, f, caps, ts);
            a.Ok? && var r2 := Confirm(r1, a.value);
            var id := r.last + 1;
            && id in r2.nodes && r2.nodes[id].status == Active && r2.nodes[id].address == Some(a.value)
            && r2.nodes[id].factory == Some(f)
            && forall i :: i in r.nodes ==> i in r2.nodes && r2.nodes[i] == r.nodes[i]
  {
    hide LowestFree;
    ProvisionGivesNode(r, kind, name, f, caps, ts);
    var (r1, a) := Provision(r, kind, name, f, caps, ts);
    assert !Held(r.nodes, a.value);
    ConfirmActivates(r1, a.value);
  }

  /** Trash takes a live node's address and dates it; restore makes a trashed one detached; neither touches anything
      else, and neither does anything twice. */
  lemma TrashAndRestore(r: Registry, id: int, now: int)
    ensures var r' := Trash(r, id, now);
            && (id in r.nodes && r.nodes[id].archived.None? ==>
                  OnlyAt(r, r', id) && r'.nodes[id] == r.nodes[id].(archived := Some(now), address := None))
            && (!(id in r.nodes && r.nodes[id].archived.None?) ==> r' == r)
    ensures var (r', a) := Restore(r, id);
            && (a.Ok? <==> id in r.nodes && r.nodes[id].archived.Some?)
            && (a.Ok? ==> OnlyAt(r, r', id) && r'.nodes[id] == r.nodes[id].(archived := None, status := Detached))
            && (!a.Ok? ==> r' == r)
  {}

  /** The purge takes exactly the nodes trashed before the cut-off, and leaves the others as they are. */
  lemma PurgeTakesExpired(r: Registry, cutoff: int)
    ensures var r' := Purge(r, cutoff);
            && r'.last == r.last
            && forall i :: && (i in r'.nodes ==> i in r.nodes && r'.nodes[i] == r.nodes[i])
                           && (i in r.nodes ==> (i !in r'.nodes <==> exists at :: r.nodes[i].archived == Some(at) && at < cutoff))
  {}

  /** A report notes type and time of the node at its address, a rename name and room of the one at its; nothing else
      changes. */
  lemma LabelsOnly(r: Registry, a: nat, kind: nat, ts: int, name: string, room: string)
    ensures var r' := Heard(r, a, kind, ts);
            r'.last == r.last && r'.nodes.Keys == r.nodes.Keys
            && forall i :: i in r.nodes ==>
                 if r.nodes[i].address == Some(a)
                 then r'.nodes[i] == r.nodes[i].(kind := kind, lastSeen := ts)
                 else r'.nodes[i] == r.nodes[i]
    ensures var r' := Rename(r, a, name, room);
            r'.last == r.last && r'.nodes.Keys == r.nodes.Keys
            && forall i :: i in r.nodes ==>
                 if r.nodes[i].address == Some(a)
                 then r'.nodes[i] == r.nodes[i].(name := name, room := room)
                 else r'.nodes[i] == r.nodes[i]
  {}

  lemma HitIffHeld(nodes: Nodes, target: nat, hit: set<int>)
    requires forall i :: i in hit <==> i in nodes && nodes[i].address == Some(target)
    ensures hit == {} <==> !Held(nodes, target)
  {
    if hit != {} {
      var i := Maxima.Pick(hit);
    }
  }

  // ---------------------------------------------------------------- in place

  class Store {
    var nodes: Nodes
    var last: int

    function Contents(): Registry
      reads this
    {
      Registry(nodes, last)
    }

    constructor ()
      ensures Contents() == Registry(map[], 0)
    {
      nodes, last := map[], 0;
    }

    /** allocAddr: the set of used addresses, then the first that is not in it. */
    method Alloc() returns (r: Option<nat>)
      ensures r == AllocAddr(nodes)
    {
      var used := set i | i in nodes && nodes[i].address.Some? :: nodes[i].address.value;
      assert forall a :: a in used <==> Held(nodes, a);
      var a := POOL_FIRST;
      while a <= POOL_LAST
        invariant POOL_FIRST <= a <= POOL_LAST + 1
        invariant AllocAddr(nodes) == LowestFree(nodes, a)
      {
        if a !in used {
          return Some(a);
        }
        a := a + 1;
      }
      return None;
    }

    method ProvisionNode(kind: nat, name: string, f: string, caps: nat, ts: int) returns (r: Result<nat, Error>)
      requires Valid(Contents())
      modifies this
      ensures (Contents(), r) == Provision(old(Contents()), kind, name, f, caps, ts)
    {
      hide LowestFree;
      var known := set i | i in nodes && IsLiveChip(nodes[i], f);
      if known != {} {
        ghost var some := Maxima.Pick(known);
        var id :| id in known;
        ChipIsUnique(Contents(), f, id);
        var address := nodes[id].address;
        nodes := map i | i in nodes ::
          if nodes[i].factory == Some(f) then Reapproved(nodes[i], kind, name, caps, ts) else nodes[i];
        return Ok(if address.Some? then address.value else 0);
      }
      assert forall i :: i in nodes && IsLiveChip(nodes[i], f) ==> i in known;
      var a := Alloc();
      if a.None? {
        return Err(PoolExhausted);
      }
      var id := last + 1;
      if TakenBeside(nodes, f, id) {
        return Err(FactoryTaken);
      }
      nodes := nodes[id := Node(a, Some(f), kind, name, "", caps, PendingJoin, None, ts, ts)];
      last := id;
      return Ok(a.value);
    }

    method RepairNode(id: int, f: string, caps: nat, ts: int) returns (r: Result<nat, Error>)
      modifies this
      ensures (Contents(), r) == Repair(old(Contents()), id, f, caps, ts)
    {
      hide LowestFree;
      if id !in nodes {
        return Err(NoSuchNode);
      }
      if nodes[id].archived.Some? {
        return Err(InTrash);
      }
      if nodes[id].status != Detached {
        return Err(NotDetached);
      }
      if exists i :: i in nodes && i != id && IsLiveChip(nodes[i], f) {
        return Err(ChipAssigned);
      }
      var a := Alloc();
      if a.None? {
        return Err(PoolExhausted);
      }
      if TakenBeside(nodes, f, id) {
        return Err(FactoryTaken);
      }
      nodes := nodes[id := Rebound(nodes[id], f, caps, ts).(address := a)];
      return Ok(a.value);
    }

    method ReplaceNode(target: nat, f: string, caps: nat, ts: int) returns (r: Result<(), Error>)
      modifies this
      ensures (Contents(), r) == Replace(old(Contents()), target, f, caps, ts)
    {
      if exists i :: i in nodes && nodes[i].address == Some(target) && TakenBeside(nodes, f, i) {
        return Err(FactoryTaken);
      }
      var hit := set i | i in nodes && nodes[i].address == Some(target);
      HitIffHeld(nodes, target, hit);
      if hit == {} {
        return Err(NoSuchNode);
      }
      nodes := map i | i in nodes :: if nodes[i].address == Some(target) then Rebound(nodes[i], f, caps, ts) else nodes[i];
      return Ok(());
    }

    method MarkActive(a: nat)
      modifies this
      ensures Contents() == Confirm(old(Contents()), a)
    {
      nodes := map i | i in nodes ::
        if nodes[i].address == Some(a) && nodes[i].status == PendingJoin then nodes[i].(status := Active) else nodes[i];
    }

    method DeleteNodeByID(id: int, now: int)
      modifies this
      ensures Contents() == Trash(old(Contents()), id, now)
    {
      if id in nodes && nodes[id].archived.None? {
        nodes := nodes[id := nodes[id].(archived := Some(now), address := None)];
      }
    }

    method RestoreNodeLocal(id: int) returns (r: Result<(), Error>)
      modifies this
      ensures (Contents(), r) == Restore(old(Contents()), id)
    {
      if id !in nodes || nodes[id].archived.None? {
        return Err(NotInTrash);
      }
      var restored := nodes[id].(archived := None, status := Detached);
      nodes := nodes[id := restored];
      return Ok(());
    }

    /** One dropNode after the other, over the ids selected first. */
    method PurgeExpiredTrash(cutoff: int)
      modifies this
      ensures Contents() == Purge(old(Contents()), cutoff)
    {
      ghost var was := nodes;
      var ids := set i | i in nodes && nodes[i].archived.Some? && nodes[i].archived.value < cutoff;
      var todo := ids;
      while todo != {}
        invariant todo <= ids && last == old(last)
        invariant nodes == map i | i in was && !(i in ids && i !in todo) :: was[i]
        decreases |todo|
      {
        ghost var some := Maxima.Pick(todo);
        var id :| id in todo;
        todo := todo - {id};
        nodes := nodes - {id};
      }
      assert forall i :: i in ids <==> i in was && was[i].archived.Some? && was[i].archived.value < cutoff;
      assert nodes == Purge(Registry(was, last), cutoff).nodes;
    }
  }
}
