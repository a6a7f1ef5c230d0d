/** Live backup as a replicated log: the gateway's mirrored tables, the queue its triggers fill, the worker
    that pushes batches at least once, and the server's tables. backup.go, solaragg.go, gw-backup.php. */
module Backup {
  import opened Wrappers
  import opened Queries

  datatype Level = Hourly | Daily | Monthly

  /** A primary key of one of the six mirrored tables: config, node, node_param, solar_hourly,
      solar_daily, solar_monthly. */
  datatype Key =
    | Config(name: string)
    | Node(id: int)
    | Param(id: int, name: string)
    | Bar(level: Level, id: int, bucket: int)

  datatype Table = ConfigTable | NodeTable | ParamTable | BarTable(level: Level)

  function TableOf(k: Key): Table {
    match k
    case Config(_) => ConfigTable
    case Node(_) => NodeTable
    case Param(_, _) => ParamTable
    case Bar(level, _, _) => BarTable(level)
  }

  /** The mirrored columns of a row, as the trigger's JSON text. */
  type Row = string

  type Rows = map<Key, Row>

  function Lookup(m: Rows, k: Key): Option<Row> {
    if k in m then Some(m[k]) else None
  }

  // ---------------------------------------------------------------- the operations on the wire

  datatype Op =
    | Upsert(key: Key, row: Row)
    | Delete(key: Key)
    | Prune(level: Level, id: int, before: int)
    | PurgeNode(id: int)

  predicate OfNode(k: Key, id: int) { !k.Config? && k.id == id }

  predicate Older(k: Key, level: Level, id: int, before: int) {
    k.Bar? && k.level == level && k.id == id && k.bucket < before
  }

  /** What the server does with one item. */
  function Apply(op: Op, m: Rows): Rows {
    match op
    case Upsert(key, row) => m[key := row]
    case Delete(key) => m - {key}
    case Prune(level, id, before) => map k | k in m && !Older(k, level, id, before) :: m[k]
    case PurgeNode(id) => map k | k in m && !OfNode(k, id) :: m[k]
  }

  function ApplyAll(ops: seq<Op>, m: Rows): Rows {
    if ops == [] then m else Apply(ops[|ops| - 1], ApplyAll(ops[..|ops| - 1], m))
  }

  // ---------------------------------------------------------------- which keys are mirrored

  function Lower(c: char): char {
    if 'A' <= c <= 'Z' then c - 'A' + 'a' else c
  }

  /** name LIKE 'backup%' */
  predicate LikeBackup(name: string) {
    |name| >= 6 && forall i :: 0 <= i < 6 ==> Lower(name[i]) == "backup"[i]
  }

  /** Keys whose writes the triggers capture. */
  predicate Captured(k: Key) { k.Config? ==> !LikeBackup(k.name) }

  /** The row the server stamps after each push. */
  const LAST_PUSH := Config("last_push_at")

  /** The key begins with the six letters "backup", each in either case. */
  predicate SaysBackup(name: string) {
    && |name| >= 6 && name[0] in "bB" && name[1] in "aA" && name[2] in "cC" && name[3] in "kK" && name[4] in "uU"
    && name[5] in "pP"
  }

  /** Keys on which gateway and mirror are meant to agree: every node, parameter and aggregate row, and every config
      row but last_push_at, which the server stamps, and the gateway's own bookkeeping. */
  predicate Mirrored(k: Key) {
    match k
    case Config(name) => name != "last_push_at" && !SaysBackup(name)
    case _ => true
  }

  /** The stamp is best-effort: None when its statement failed. */
  function Stamp(m: Rows, stamp: Option<Row>): Rows {
    match stamp case None => m case Some(now) => m[LAST_PUSH := now]
  }

  // ---------------------------------------------------------------- the whole system

  const BATCH := 500

  /** The batch the worker holds: how many queue entries from the front, and whether the server has
      committed it. */
  datatype Flight = Flight(count: nat, applied: bool)

  datatype World = World(rows: Rows, queue: seq<Op>, seeded: set<Table>, mirror: Rows, flight: Option<Flight>)

  datatype Event =
    | Write(key: Key, row: Row)
    | DeleteConfig(name: string)
    | Retain(level: Level, id: int, before: int)
    | Purge(id: int)
    | Seed(table: Table, order: seq<Key>)
    | ReadBatch
    | ServerApplies(stamp: Option<Row>)
    | Acked
    | GivenUp
    | LateCommit(batch: seq<Op>, stamp: Option<Row>)
    | Restart(cuts: Cuts, later: Cuts)
    | Rebuild(id: int, remade: seq<Remade>, cuts: Cuts, backupOn: bool)

  /** The two retention cut-offs of a moment. */
  datatype Cuts = Cuts(hour: int, day: int)

  /** A recomputed aggregate row of the node being rebuilt. */
  datatype Remade = Remade(level: Level, bucket: int, row: Row)

  /** The triggers of INSERT and UPDATE, and of DELETE on config. */
  function WriteOps(k: Key, row: Row): seq<Op> { if Captured(k) then [Upsert(k, row)] else [] }

  function DeleteOps(rows: Rows, k: Key): seq<Op> { if k in rows && Captured(k) then [Delete(k)] else [] }

  /** enqueuePrune: only when the local DELETE removed something. */
  function PruneOps(rows: Rows, level: Level, id: int, before: int): seq<Op> {
    if exists k :: k in rows && Older(k, level, id, before) then [Prune(level, id, before)] else []
  }

  function UpsertAll(rows: Rows, order: seq<Key>): (ops: seq<Op>)
    requires forall i :: 0 <= i < |order| ==> order[i] in rows
    ensures |ops| == |order| && forall i :: 0 <= i < |order| ==> ops[i] == Upsert(order[i], rows[order[i]])
  {
    if order == [] then [] else
      var n := |order| - 1;
      UpsertAll(rows, order[..n]) + [Upsert(order[n], rows[order[n]])]
  }

  /** order lists the rows that seeding selects from a table. */
  predicate Selects(order: seq<Key>, rows: Rows, table: Table) {
    && (forall i :: 0 <= i < |order| ==> order[i] in rows && TableOf(order[i]) == table && Captured(order[i]))
    && (forall k :: k in rows && TableOf(k) == table && Captured(k) ==> k in order)
  }

  function Enqueue(w: World, rows: Rows, ops: seq<Op>): World {
    w.(rows := rows, queue := w.queue + ops)
  }

  function Step(w: World, e: Event): World {
    match e
    case Write(k, row) => Enqueue(w, w.rows[k := row], WriteOps(k, row))
    case DeleteConfig(name) => Enqueue(w, w.rows - {Config(name)}, DeleteOps(w.rows, Config(name)))
    case Retain(level, id, before) =>
      Enqueue(w, Apply(Prune(level, id, before), w.rows), PruneOps(w.rows, level, id, before))
    case Purge(id) =>
      // the caller selects the ids it purges from table node
      if Node(id) in w.rows then Enqueue(w, Apply(PurgeNode(id), w.rows), [PurgeNode(id)]) else w
    case Seed(table, order) =>
      if Selects(order, w.rows, table) then
        Enqueue(w, w.rows, UpsertAll(w.rows, order)).(seeded := w.seeded + {table})
      else w
    case ReadBatch => w.(flight := Some(Flight(if |w.queue| < BATCH then |w.queue| else BATCH, false)))
    case ServerApplies(stamp) =>
      if w.flight.Some? && w.flight.value.count <= |w.queue| then
        w.(mirror := Stamp(ApplyAll(w.queue[..w.flight.value.count], w.mirror), stamp),
           flight := Some(w.flight.value.(applied := true)))
      else w
    case Acked =>
      if w.flight.Some? && w.flight.value.applied && w.flight.value.count <= |w.queue| then
        w.(queue := w.queue[w.flight.value.count..], flight := None)
      else w
    case GivenUp => w.(flight := None)
    // a request that the worker had given up on reaches the server after all
    case LateCommit(batch, stamp) => w.(mirror := Stamp(ApplyAll(batch, w.mirror), stamp))
    case Restart(cuts, later) => Restarted(w, cuts, later)
    case Rebuild(id, remade, cuts, backupOn) => Rebuilt(w, id, remade, cuts, backupOn)
  }

  function Run(w: World, events: seq<Event>): World {
    if events == [] then w else Step(Run(w, events[..|events| - 1]), events[|events| - 1])
  }

  /** Backup switched on over tables that already hold something: nothing queued, nothing on the mirror. */
  function Start(rows: Rows): World { World(rows, [], {}, map[], None) }

  // ---------------------------------------------------------------- a service restart

  predicate Expired(k: Key, cuts: Cuts) {
    k.Bar? && ((k.level.Hourly? && k.bucket < cuts.hour) || (k.level.Daily? && k.bucket < cuts.day))
  }

  /** Nodes with hourly or daily rows. */
  function WithBars(rows: Rows): (ids: set<int>)
    ensures forall k :: k in rows && k.Bar? && !k.level.Monthly? ==> k.id in ids
    ensures forall id :: id in ids ==> exists k :: k in rows && k.Bar? && !k.level.Monthly? && k.id == id
  {
    set k | k in rows && k.Bar? && !k.level.Monthly? :: k.id
  }

  function CatchupOps(ids: seq<int>, cuts: Cuts): seq<Op> {
    if ids == [] then [] else
      var n := |ids| - 1;
      CatchupOps(ids[..n], cuts) + [Prune(Hourly, ids[n], cuts.hour), Prune(Daily, ids[n], cuts.day)]
  }

  /** AggregateAllSolarOnStartup prunes every node while backupOn is still false, so nothing is queued;
      later in the same start SeedMirrorPruneCatchup queues the cut-offs of every node that still has
      hourly or daily rows. The batch in flight, if any, is forgotten. */
  function Restarted(w: World, cuts: Cuts, later: Cuts): World {
    var rows := map k | k in w.rows && !Expired(k, cuts) :: w.rows[k];
    Enqueue(w, rows, CatchupOps(Sorted(WithBars(rows)), later)).(flight := None)
  }

  // ---------------------------------------------------------------- RebuildSolarAggregates

  function RemadeRows(rows: Rows, id: int, remade: seq<Remade>): Rows {
    if remade == [] then rows else
      var n := |remade| - 1;
      RemadeRows(rows, id, remade[..n])[Bar(remade[n].level, id, remade[n].bucket) := remade[n].row]
  }

  function RemadeOps(id: int, remade: seq<Remade>): seq<Op> {
    if remade == [] then [] else
      var n := |remade| - 1;
      RemadeOps(id, remade[..n]) + [Upsert(Bar(remade[n].level, id, remade[n].bucket), remade[n].row)]
  }

  function Wiped(rows: Rows, id: int): Rows { map k | k in rows && !(k.Bar? && k.id == id) :: rows[k] }

  function RebuiltRows(rows: Rows, id: int, remade: seq<Remade>, cuts: Cuts): Rows {
    Apply(Prune(Daily, id, cuts.day), Apply(Prune(Hourly, id, cuts.hour), RemadeRows(Wiped(rows, id), id, remade)))
  }

  /** The upserts come from the triggers, which stay in the database file; the prunes are queued by the process
      itself, and only if it has backup switched on. The import, the one caller, never has. */
  function RebuildOps(rows: Rows, id: int, remade: seq<Remade>, cuts: Cuts, backupOn: bool): seq<Op> {
    RemadeOps(id, remade) + if backupOn then RebuildPrunes(rows, id, remade, cuts) else []
  }

  function RebuildPrunes(rows: Rows, id: int, remade: seq<Remade>, cuts: Cuts): seq<Op> {
    var filled := RemadeRows(Wiped(rows, id), id, remade);
    var hours := Apply(Prune(Hourly, id, cuts.hour), filled);
    PruneOps(filled, Hourly, id, cuts.hour) + PruneOps(hours, Daily, id, cuts.day)
  }

  /** One transaction: delete every aggregate row of the node (no trigger watches these deletes), insert the
      recomputed ones, prune. */
  function Rebuilt(w: World, id: int, remade: seq<Remade>, cuts: Cuts, backupOn: bool): World {
    Enqueue(w, RebuiltRows(w.rows, id, remade, cuts), RebuildOps(w.rows, id, remade, cuts, backupOn))
  }
}
