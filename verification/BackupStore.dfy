/** Live backup in place: the gateway's tables and its queue of numbered entries, the server's tables, and one
    turn of the worker. Each method is a step of the state machine in module Backup. */
module BackupStore {
  import opened Wrappers
  import opened Backup

  /** A row of backup_queue. */
  datatype Entry = Entry(id: nat, op: Op)

  function Ops(queue: seq<Entry>): (ops: seq<Op>)
    ensures |ops| == |queue|
    ensures forall i :: 0 <= i < |queue| ==> ops[i] == queue[i].op
  {
    seq(|queue|, i requires 0 <= i < |queue| => queue[i].op)
  }

  /** AUTOINCREMENT: ids ascend and are never given out again. */
  predicate Numbered(queue: seq<Entry>, last: nat) {
    && (forall i, j :: 0 <= i < j < |queue| ==> queue[i].id < queue[j].id)
    && (forall i :: 0 <= i < |queue| ==> queue[i].id <= last)
  }

  /** DELETE FROM backup_queue WHERE id = ? */
  function Without(queue: seq<Entry>, id: nat): seq<Entry> {
    if queue == [] then []
    else if queue[0].id == id then Without(queue[1..], id)
    else [queue[0]] + Without(queue[1..], id)
  }

  lemma {:induction false} WithoutAbsent(queue: seq<Entry>, id: nat)
    requires forall i :: 0 <= i < |queue| ==> queue[i].id != id
    ensures Without(queue, id) == queue
  {
    if queue != [] {
      WithoutAbsent(queue[1..], id);
    }
  }

  lemma WithoutFirst(queue: seq<Entry>, last: nat)
    requires queue != [] && Numbered(queue, last)
    ensures Without(queue, queue[0].id) == queue[1..] && Numbered(queue[1..], last)
  {
    WithoutAbsent(queue[1..], queue[0].id);
  }

  /** gw-backup.php */
  class Server {
    var rows: Rows

    constructor ()
      ensures rows == map[]
    {
      rows := map[];
    }

    /** One request: all items in one transaction, rolled back if any item fails, then the stamp, which may fail
        on its own. */
    method Push(items: seq<Op>, stamp: Option<Row>, fails: bool) returns (ok: bool)
      modifies this
      ensures ok == !fails
      ensures rows == if fails then old(rows) else Stamp(ApplyAll(items, old(rows)), stamp)
    {
      var before := rows;
      for i := 0 to |items|
        invariant rows == ApplyAll(items[..i], before)
      {
        assert items[..i + 1][..i] == items[..i];
        match items[i]
        case Upsert(key, row) => rows := rows[key := row];
        case Delete(key) => rows := rows - {key};
        case Prune(level, id, cut) => rows := map k | k in rows && !Older(k, level, id, cut) :: rows[k];
        case PurgeNode(id) => rows := map k | k in rows && !OfNode(k, id) :: rows[k];
      }
      assert items[..|items|] == items;
      if fails {
        rows := before;
        return false;
      }
      if stamp.Some? {
        rows := rows[LAST_PUSH := stamp.value];
      }
      return true;
    }
  }

  class Gateway {
    var rows: Rows
    var queue: seq<Entry>
    var last: nat

    ghost predicate Valid()
      reads this
    {
      Numbered(queue, last)
    }

    function Queued(): seq<Op>
      reads this
    {
      Ops(queue)
    }

    constructor (rows: Rows)
      ensures Valid() && this.rows == rows && Queued() == []
    {
      this.rows := rows;
      queue := [];
      last := 0;
    }

    method Enqueue(op: Op)
      requires Valid()
      modifies `queue, `last
      ensures Valid() && Queued() == old(Queued()) + [op]
      ensures exists e :: queue == old(queue) + [e]
    {
      last := last + 1;
      queue := queue + [Entry(last, op)];
    }

    /** INSERT or UPDATE of a mirrored row, with its trigger. */
    method Write(k: Key, row: Row)
      requires Valid()
      modifies this
      ensures Valid() && rows == old(rows)[k := row] && Queued() == old(Queued()) + WriteOps(k, row)
    {
      rows := rows[k := row];
      if Captured(k) {
        Enqueue(Upsert(k, row));
      }
    }

    method DeleteConfig(name: string)
      requires Valid()
      modifies this
      ensures Valid() && rows == old(rows) - {Config(name)}
      ensures Queued() == old(Queued()) + DeleteOps(old(rows), Config(name))
    {
      var k := Config(name);
      var existed := k in rows;
      rows := rows - {k};
      if existed && Captured(k) {
        Enqueue(Delete(k));
      }
    }

    /** One table of pruneSolarAggregates, with enqueuePrune. */
    method Prune(level: Level, id: int, before: int)
      requires Valid()
      modifies this
      ensures Valid() && rows == Apply(Op.Prune(level, id, before), old(rows))
      ensures Queued() == old(Queued()) + PruneOps(old(rows), level, id, before)
    {
      var doomed := set k | k in rows && Older(k, level, id, before);
      assert forall k :: k in doomed <==> k in rows && Older(k, level, id, before);
      ghost var whole := rows;
      rows := map k | k in rows && k !in doomed :: rows[k];
      if |doomed| > 0 {
        Enqueue(Op.Prune(level, id, before));
      }
      if doomed == {} {
        assert PruneOps(whole, level, id, before) == [];
      } else {
        assert exists k :: k in whole && Older(k, level, id, before) by { Some(doomed); }
      }
    }

    lemma Some(keys: set<Key>)
      requires keys != {}
      ensures exists k :: k in keys
    {}

    /** dropNode: every table with a node_id column; deleting the row of table node fires the purge. */
    method DropNode(id: int)
      requires Valid() && Node(id) in rows
      modifies this
      ensures Valid() && rows == Apply(PurgeNode(id), old(rows)) && Queued() == old(Queued()) + [PurgeNode(id)]
    {
      rows := rows - {Node(id)};
      Enqueue(PurgeNode(id));
      rows := map k | k in rows && !(k.Param? && k.id == id) :: rows[k];
      rows := map k | k in rows && !(k.Bar? && k.id == id) :: rows[k];
    }

    /** One INSERT ... SELECT of SeedBackupFromCurrentState; order is the order SQLite returns the rows in. */
    method SeedTable(table: Table, order: seq<Key>)
      requires Valid() && Selects(order, rows, table)
      modifies `queue, `last
      ensures Valid() && Queued() == old(Queued()) + UpsertAll(rows, order)
    {
      for i := 0 to |order|
        invariant Valid() && Queued() == old(Queued()) + UpsertAll(rows, order[..i])
      {
        assert order[..i + 1][..i] == order[..i];
        Enqueue(Upsert(order[i], rows[order[i]]));
      }
      assert order[..|order|] == order;
    }

    /** ORDER BY id LIMIT ? */
    method ReadBackupBatch(limit: nat) returns (ids: seq<nat>, items: seq<Op>)
      requires Valid()
      ensures var n := if |queue| < limit then |queue| else limit;
              |ids| == n && items == Queued()[..n] && forall i :: 0 <= i < n ==> ids[i] == queue[i].id
    {
      ids, items := [], [];
      while |items| < limit && |items| < |queue|
        invariant |ids| == |items| <= |queue| && |items| <= limit
        invariant items == Queued()[..|items|]
        invariant forall i :: 0 <= i < |ids| ==> ids[i] == queue[i].id
        decreases |queue| - |items|
      {
        var e := queue[|items|];
        ids := ids + [e.id];
        items := items + [e.op];
      }
    }

    /** The rows read before go, whatever was appended since stays. */
    method DeleteBackupRows(ids: seq<nat>)
      requires Valid()
      requires |ids| <= |queue| && forall i :: 0 <= i < |ids| ==> ids[i] == queue[i].id
      modifies `queue
      ensures Valid() && queue == old(queue)[|ids|..] && Queued() == old(Queued())[|ids|..]
    {
      for i := 0 to |ids|
        invariant Valid() && queue == old(queue)[i..]
      {
        WithoutFirst(queue, last);
        queue := Without(queue, ids[i]);
      }
    }
  }

  /** How one push ends: nothing reached the server or it rolled back; it committed but the reply was lost; it
      committed and said so. */
  datatype Outcome = Undelivered | ReplyLost | Delivered

  ghost function Seen(g: Gateway, s: Server, seeded: set<Table>): World
    reads g, s
  {
    World(g.rows, g.Queued(), seeded, s.rows, None)
  }

  /** The events of one turn of the worker. */
  function Turn(outcome: Outcome, stamp: Option<Row>): seq<Event> {
    match outcome
    case Undelivered => [ReadBatch, GivenUp]
    case ReplyLost => [ReadBatch, ServerApplies(stamp), GivenUp]
    case Delivered => [ReadBatch, ServerApplies(stamp), Acked]
  }

  lemma RunOfTurn(w: World, outcome: Outcome, stamp: Option<Row>)
    requires w.flight.None?
    ensures var n := if |w.queue| < BATCH then |w.queue| else BATCH;
            Run(w, Turn(outcome, stamp))
            == match outcome
               case Undelivered => w
               case ReplyLost => w.(mirror := Stamp(ApplyAll(w.queue[..n], w.mirror), stamp))
               case Delivered => w.(mirror := Stamp(ApplyAll(w.queue[..n], w.mirror), stamp), queue := w.queue[n..])
  {
    hide ApplyAll, Stamp, Restarted, Rebuilt;
    var t := Turn(outcome, stamp);
    assert t[..1] == [ReadBatch] && t[..1][..0] == [];
    assert t[..2][..1] == t[..1];
    var w1 := Step(w, t[0]);
    assert Run(w, t[..1]) == w1;
    var w2 := Step(w1, t[1]);
    assert Run(w, t[..2]) == w2;
    if outcome == Undelivered {
      assert t[..2] == t;
    } else {
      assert t[..3] == t && t[..3][..2] == t[..2];
    }
  }

  /** One turn of backupWorker: read a batch, push it, and drop it from the queue only when the server said
      ok; again says whether a full batch went through and the loop goes on. */
  method WorkerTurn(g: Gateway, s: Server, outcome: Outcome, stamp: Option<Row>, ghost seeded: set<Table>)
    returns (again: bool)
    requires g.Valid()
    modifies g`queue, s
    ensures g.Valid()
    ensures again <==> outcome == Delivered && |old(g.queue)| >= 500
    ensures Seen(g, s, seeded)
         == if old(g.queue) == [] then old(Seen(g, s, seeded)) else Run(old(Seen(g, s, seeded)), Turn(outcome, stamp))
  {
    ghost var before := Seen(g, s, seeded);
    RunOfTurn(before, outcome, stamp);
    hide Run, Turn, ApplyAll;
    var ids, items := g.ReadBackupBatch(BATCH);
    if |items| == 0 {
      return false;
    }
    var ok := s.Push(items, stamp, outcome == Undelivered);
    if !ok || outcome == ReplyLost {
      return false;
    }
    g.DeleteBackupRows(ids);
    return |items| >= BATCH;
  }
}
