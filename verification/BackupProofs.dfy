/** Why the mirror follows the gateway: seen key by key, the last operation that touches a key decides it. */
module BackupProofs {
  import opened Wrappers
  import Maxima
  import opened Queries
  import opened Backup

  // ---------------------------------------------------------------- one key at a time

  /** Nothing, or the value an operation leaves at a key (None: no row). */
  function Effect(op: Op, k: Key): Option<Option<Row>> {
    match op
    case Upsert(key, row) => if k == key then Some(Some(row)) else None
    case Delete(key) => if k == key then Some(None) else None
    case Prune(level, id, before) => if Older(k, level, id, before) then Some(None) else None
    case PurgeNode(id) => if OfNode(k, id) then Some(None) else None
  }

  /** What a key holds after a list of operations. */
  function After(v: Option<Row>, ops: seq<Op>, k: Key): Option<Row> {
    if ops == [] then v else
      var n := |ops| - 1;
      match Effect(ops[n], k)
      case None => After(v, ops[..n], k)
      case Some(x) => x
  }

  predicate Touches(ops: seq<Op>, k: Key) {
    exists i :: 0 <= i < |ops| && Effect(ops[i], k).Some?
  }

  lemma {:induction false} ApplyAllIsAfter(ops: seq<Op>, m: Rows, k: Key)
    ensures Lookup(ApplyAll(ops, m), k) == After(Lookup(m, k), ops, k)
  {
    if ops != [] {
      ApplyAllIsAfter(ops[..|ops| - 1], m, k);
    }
  }

  lemma {:induction false} AfterSplits(v: Option<Row>, a: seq<Op>, b: seq<Op>, k: Key)
    ensures After(v, a + b, k) == After(After(v, a, k), b, k)
  {
    if b == [] {
      assert a + b == a;
    } else {
      var n := |b| - 1;
      assert (a + b)[..|a| + n] == a + b[..n];
      AfterSplits(v, a, b[..n], k);
    }
  }

  /** Last writer wins: a touched key does not depend on what was there before. */
  lemma {:induction false} LastWriterWins(v: Option<Row>, v': Option<Row>, ops: seq<Op>, k: Key)
    ensures Touches(ops, k) ==> After(v, ops, k) == After(v', ops, k)
    ensures !Touches(ops, k) ==> After(v, ops, k) == v
  {
    if ops != [] {
      var n := |ops| - 1;
      LastWriterWins(v, v', ops[..n], k);
      if Effect(ops[n], k).None? && Touches(ops, k) {
        var i :| 0 <= i < |ops| && Effect(ops[i], k).Some?;
        assert Effect(ops[..n][i], k).Some?;
      }
      if Touches(ops[..n], k) {
        var i :| 0 <= i < n && Effect(ops[..n][i], k).Some?;
        assert Effect(ops[i], k).Some?;
      }
    }
  }

  /** Replaying a batch, or a longer one that starts with it, changes nothing. */
  lemma ReplayIsHarmless(v: Option<Row>, first: seq<Op>, again: seq<Op>, k: Key)
    requires first <= again
    ensures After(After(v, first, k), again, k) == After(v, again, k)
  {
    LastWriterWins(After(v, first, k), v, again, k);
    LastWriterWins(v, v, first, k);
    LastWriterWins(v, v, again, k);
    if Touches(first, k) {
      var i :| 0 <= i < |first| && Effect(first[i], k).Some?;
      assert again[i] == first[i];
    }
  }

  /** What each operation does to a store: an upsert sets one row, a delete removes one, a prune the node's rows of one level
      before its cut-off, a purge every row of the node; all else stays. */
  lemma ApplyIs(op: Op, m: Rows, k: Key)
    ensures op.Upsert? ==> Lookup(Apply(op, m), k) == if k == op.key then Some(op.row) else Lookup(m, k)
    ensures op.Delete? ==> Lookup(Apply(op, m), k) == if k == op.key then None else Lookup(m, k)
    ensures op.Prune? ==>
              Lookup(Apply(op, m), k)
              == if k.Bar? && k.level == op.level && k.id == op.id && k.bucket < op.before then None else Lookup(m, k)
    ensures op.PurgeNode? ==>
              Lookup(Apply(op, m), k) == if !k.Config? && k.id == op.id then None else Lookup(m, k)
  {}

  // ---------------------------------------------------------------- the invariant

  /** What the key will hold on the mirror once the whole queue has been applied. */
  function Pending(w: World, k: Key): Option<Row> {
    After(Lookup(w.mirror, k), w.queue, k)
  }

  ghost predicate KeyAgrees(w: World, k: Key) {
    Pending(w, k) == Lookup(w.rows, k) || (TableOf(k) !in w.seeded && Pending(w, k).None?)
  }

  /** Applying the queue to the mirror yields the gateway's rows; a table not yet seeded may lack some. */
  ghost predicate Agree(w: World) {
    forall k :: Mirrored(k) ==> KeyAgrees(w, k)
  }

  /** They agree, and they will when the answer to a batch that the server has committed arrives and the batch
      leaves the queue. */
  ghost predicate Replicated(w: World) {
    && Agree(w) && Agree(Step(w, Acked))
    && (w.flight.Some? ==> w.flight.value.count <= |w.queue|)
  }

  /** A local change and the operations queued for it say the same of every mirrored key. */
  ghost predicate Faithful(rows: Rows, ops: seq<Op>, rows': Rows) {
    forall k :: Mirrored(k) ==> Lookup(rows', k) == After(Lookup(rows, k), ops, k)
  }

  lemma ChangeAgrees(w: World, rows: Rows, ops: seq<Op>)
    requires Agree(w) && Faithful(w.rows, ops, rows)
    ensures Agree(Enqueue(w, rows, ops))
  {
    var w' := Enqueue(w, rows, ops);
    forall k | Mirrored(k)
      ensures KeyAgrees(w', k)
    {
      assert KeyAgrees(w, k);
      AfterSplits(Lookup(w.mirror, k), w.queue, ops, k);
      LastWriterWins(Pending(w, k), Lookup(w.rows, k), ops, k);
      LastWriterWins(Lookup(w.rows, k), Pending(w, k), ops, k);
    }
  }

  /** A local change commutes with the answer to the batch in flight. */
  lemma EnqueueThenAck(w: World, rows: Rows, ops: seq<Op>)
    requires w.flight.Some? ==> w.flight.value.count <= |w.queue|
    ensures Step(Enqueue(w, rows, ops), Acked) == Enqueue(Step(w, Acked), rows, ops)
    ensures Step(w, Acked).rows == w.rows && Step(w, Acked).seeded == w.seeded && Step(w, Acked).mirror == w.mirror
  {
    if w.flight.Some? {
      var n := w.flight.value.count;
      assert (w.queue + ops)[n..] == w.queue[n..] + ops;
    }
  }

  lemma FaithfulChangeAgrees(w: World, rows: Rows, ops: seq<Op>)
    requires Replicated(w) && Faithful(w.rows, ops, rows)
    ensures Replicated(Enqueue(w, rows, ops))
  {
    hide Agree, Faithful;
    EnqueueThenAck(w, rows, ops);
    ChangeAgrees(w, rows, ops);
    ChangeAgrees(Step(w, Acked), rows, ops);
  }

  // ---------------------------------------------------------------- local changes

  lemma OneOp(v: Option<Row>, op: Op, k: Key)
    ensures After(v, [op], k) == match Effect(op, k) case None => v case Some(x) => x
    ensures After(v, [], k) == v
  {
    assert [op][..0] == [];
  }

  /** The triggers watch every node, parameter and aggregate row, and every config row whose key does not begin with
      "backup" in any mixture of cases. */
  lemma CapturedIff(k: Key)
    ensures !k.Config? ==> Captured(k)
    ensures k.Config? && |k.name| < 6 ==> Captured(k)
    ensures k.Config? && |k.name| >= 6 ==>
              var n := k.name;
              Captured(k) <==> !(n[0] in "bB" && n[1] in "aA" && n[2] in "cC" && n[3] in "kK" && n[4] in "uU" && n[5] in "pP")
  {
    if k.Config? && |k.name| >= 6 {
      var name := k.name;
      assert forall i :: 0 <= i < 6 ==> "backup"[i] == ['b', 'a', 'c', 'k', 'u', 'p'][i];
      if LikeBackup(name) {
        assert Lower(name[0]) == "backup"[0] && Lower(name[1]) == "backup"[1] && Lower(name[2]) == "backup"[2];
        assert Lower(name[3]) == "backup"[3] && Lower(name[4]) == "backup"[4] && Lower(name[5]) == "backup"[5];
      }
    }
  }

  /** So they watch every key on which the two are meant to agree, and one more. */
  lemma CapturedIffMirrored(k: Key)
    ensures Captured(k) <==> Mirrored(k) || k == Config("last_push_at")
  {
    hide Captured;
    CapturedIff(k);
    assert "last_push_at"[0] == 'l';
  }

  /** A write of a watched key queues its upsert, a delete of a watched config row that exists its delete, and nothing else
      is queued. */
  lemma TriggersQueue(rows: Rows, k: Key, row: Row)
    ensures WriteOps(k, row) == if Mirrored(k) || k == Config("last_push_at") then [Upsert(k, row)] else []
    ensures DeleteOps(rows, k)
         == if k in rows && (Mirrored(k) || k == Config("last_push_at")) then [Delete(k)] else []
  {
    hide Captured, Mirrored;
    CapturedIffMirrored(k);
  }

  /** Every table can be seeded at any time. */
  lemma SeedingIsPossible(rows: Rows, table: Table) returns (order: seq<Key>)
    ensures Selects(order, rows, table)
    ensures forall k :: k in order <==> k in rows && TableOf(k) == table && Captured(k)
  {
    order := ListOf(set k | k in rows && TableOf(k) == table && Captured(k));
    assert forall i :: 0 <= i < |order| ==> order[i] in order;
  }

  lemma {:induction false} ListOf(keys: set<Key>) returns (order: seq<Key>)
    ensures forall k :: k in order <==> k in keys
    decreases |keys|
  {
    if keys == {} {
      order := [];
    } else {
      var k := Maxima.Pick(keys);
      var rest := ListOf(keys - {k});
      order := rest + [k];
    }
  }

  lemma WriteIsFaithful(rows: Rows, k: Key, row: Row)
    ensures Faithful(rows, WriteOps(k, row), rows[k := row])
  {
    hide Captured, Mirrored;
    forall x | Mirrored(x)
      ensures Lookup(rows[k := row], x) == After(Lookup(rows, x), WriteOps(k, row), x)
    {
      CapturedIffMirrored(x);
      OneOp(Lookup(rows, x), Upsert(k, row), x);
    }
  }

  lemma DeleteIsFaithful(rows: Rows, k: Key)
    ensures Faithful(rows, DeleteOps(rows, k), rows - {k})
  {
    hide Captured, Mirrored;
    forall x | Mirrored(x)
      ensures Lookup(rows - {k}, x) == After(Lookup(rows, x), DeleteOps(rows, k), x)
    {
      CapturedIffMirrored(x);
      OneOp(Lookup(rows, x), Delete(k), x);
    }
  }

  lemma RetainIsFaithful(rows: Rows, level: Level, id: int, before: int)
    ensures Faithful(rows, PruneOps(rows, level, id, before), Apply(Prune(level, id, before), rows))
  {
    forall x | Mirrored(x)
      ensures Lookup(Apply(Prune(level, id, before), rows), x)
           == After(Lookup(rows, x), PruneOps(rows, level, id, before), x)
    {
      OneOp(Lookup(rows, x), Prune(level, id, before), x);
    }
  }

  lemma PurgeIsFaithful(rows: Rows, id: int)
    ensures Faithful(rows, [PurgeNode(id)], Apply(PurgeNode(id), rows))
  {
    forall x | Mirrored(x)
      ensures Lookup(Apply(PurgeNode(id), rows), x) == After(Lookup(rows, x), [PurgeNode(id)], x)
    {
      OneOp(Lookup(rows, x), PurgeNode(id), x);
    }
  }

  /** Upserts of current rows leave a key as it is if it is current. */
  lemma {:induction false} UpsertsAreCurrent(rows: Rows, order: seq<Key>, k: Key)
    requires forall i :: 0 <= i < |order| ==> order[i] in rows
    ensures forall v :: After(v, UpsertAll(rows, order), k) == if k in order then Lookup(rows, k) else v
  {
    if order != [] {
      var n := |order| - 1;
      UpsertsAreCurrent(rows, order[..n], k);
      assert order == order[..n] + [order[n]];
      var ops := UpsertAll(rows, order);
      assert ops[..n] == UpsertAll(rows, order[..n]);
      assert ops[n] == Upsert(order[n], rows[order[n]]);
    }
  }

  /** Seeding completes a table. */
  lemma SeedAgrees(w: World, table: Table, order: seq<Key>)
    requires Replicated(w) && Selects(order, w.rows, table)
    ensures Replicated(Step(w, Seed(table, order)))
  {
    hide Agree;
    EnqueueThenAck(w, w.rows, UpsertAll(w.rows, order));
    SeedCompletes(w, table, order);
    SeedCompletes(Step(w, Acked), table, order);
  }

  lemma SeedCompletes(w: World, table: Table, order: seq<Key>)
    requires Agree(w) && Selects(order, w.rows, table)
    ensures Agree(Enqueue(w, w.rows, UpsertAll(w.rows, order)).(seeded := w.seeded + {table}))
  {
    hide Captured, Mirrored;
    var ops := UpsertAll(w.rows, order);
    var w' := Enqueue(w, w.rows, ops).(seeded := w.seeded + {table});
    forall k | Mirrored(k)
      ensures KeyAgrees(w', k)
    {
      CapturedIffMirrored(k);
      assert KeyAgrees(w, k);
      AfterSplits(Lookup(w.mirror, k), w.queue, ops, k);
      UpsertsAreCurrent(w.rows, order, k);
    }
  }

  // ---------------------------------------------------------------- the worker and the server

  lemma ServerAppliesAgrees(w: World, stamp: Option<Row>)
    requires Replicated(w)
    ensures Replicated(Step(w, ServerApplies(stamp)))
  {
    hide ApplyAll;
    var w' := Step(w, ServerApplies(stamp));
    if w.flight.Some? {
      var n := w.flight.value.count;
      var batch, left := w.queue[..n], w.queue[n..];
      assert w.queue == batch + left;
      forall k | Mirrored(k)
        ensures KeyAgrees(w', k) && KeyAgrees(Step(w', Acked), k)
      {
        assert KeyAgrees(w, k);
        ApplyAllIsAfter(batch, w.mirror, k);
        ReplayIsHarmless(Lookup(w.mirror, k), batch, w.queue, k);
        AfterSplits(Lookup(w.mirror, k), batch, left, k);
      }
    }
  }

  lemma AckAgrees(w: World)
    requires Replicated(w)
    ensures Replicated(Step(w, Acked))
  {
    hide Agree;
    assert Step(Step(w, Acked), Acked) == Step(w, Acked);
  }

  // ---------------------------------------------------------------- a request committed late

  /** With ops still to come, what a late request leaves at a key it writes will be overwritten, or is what the
      gateway holds. */
  predicate LateKeyIsSafe(w: World, ops: seq<Op>, batch: seq<Op>, k: Key) {
    var v := After(None, batch, k);
    Touches(ops, k) || v == Lookup(w.rows, k) || (TableOf(k) !in w.seeded && v.None?)
  }

  ghost predicate LateIsSafe(w: World, ops: seq<Op>, batch: seq<Op>) {
    forall k :: Mirrored(k) && Touches(batch, k) ==> LateKeyIsSafe(w, ops, batch, k)
  }

  /** The operations still to come once the batch in flight, if the server has committed it, has left the queue. */
  function Left(w: World): seq<Op> { Step(w, Acked).queue }

  lemma LateKey(w: World, batch: seq<Op>, stamp: Option<Row>, k: Key)
    requires Mirrored(k) && KeyAgrees(w, k)
    ensures KeyAgrees(Step(w, LateCommit(batch, stamp)), k) <==> (Touches(batch, k) ==> LateKeyIsSafe(w, w.queue, batch, k))
  {
    var before, v := Lookup(w.mirror, k), After(None, batch, k);
    ApplyAllIsAfter(batch, w.mirror, k);
    LastWriterWins(before, None, batch, k);
    LastWriterWins(before, v, w.queue, k);
    LastWriterWins(v, before, w.queue, k);
  }

  lemma LateAgreesIff(w: World, batch: seq<Op>, stamp: Option<Row>)
    requires Agree(w)
    ensures Agree(Step(w, LateCommit(batch, stamp))) <==> LateIsSafe(w, w.queue, batch)
  {
    hide KeyAgrees, LateKeyIsSafe, Mirrored, Touches, ApplyAll;
    var w' := Step(w, LateCommit(batch, stamp));
    forall k | Mirrored(k)
      ensures KeyAgrees(w', k) <==> (Touches(batch, k) ==> LateKeyIsSafe(w, w.queue, batch, k))
    {
      LateKey(w, batch, stamp, k);
    }
  }

  lemma LeftIsSuffix(w: World, k: Key)
    ensures Touches(Left(w), k) ==> Touches(w.queue, k)
  {
    if Touches(Left(w), k) && Left(w) != w.queue {
      var n := w.flight.value.count;
      var i :| 0 <= i < |Left(w)| && Effect(Left(w)[i], k).Some?;
      assert w.queue[n + i] == Left(w)[i];
    }
  }

  /** A request that the server commits after the worker gave up on it leaves gateway and mirror in agreement exactly
      if whatever it writes is still to be overwritten by the queue, or is what the gateway holds; and it leaves
      them so even when the batch in flight is answered exactly if that holds of the rest of the queue. */
  lemma LateCommitAgreesIff(w: World, batch: seq<Op>, stamp: Option<Row>)
    requires Replicated(w)
    ensures var w' := Step(w, LateCommit(batch, stamp));
            && (Agree(w') <==> LateIsSafe(w, w.queue, batch))
            && (Agree(Step(w', Acked)) <==> LateIsSafe(w, Left(w), batch))
            && (Replicated(w') <==> LateIsSafe(w, Left(w), batch))
  {
    hide Agree, ApplyAll, Mirrored, Touches;
    var w' := Step(w, LateCommit(batch, stamp));
    var acked := Step(w, Acked);
    LateAgreesIff(w, batch, stamp);
    LateAgreesIff(acked, batch, stamp);
    assert Step(w', Acked) == Step(acked, LateCommit(batch, stamp));
    SameLateSafety(w, acked, batch);
    forall k | Touches(Left(w), k)
      ensures Touches(w.queue, k)
    {
      LeftIsSuffix(w, k);
    }
  }

  lemma SameLateSafety(w: World, w': World, batch: seq<Op>)
    requires w.rows == w'.rows && w.seeded == w'.seeded
    ensures LateIsSafe(w', w'.queue, batch) <==> LateIsSafe(w, w'.queue, batch)
  {
    hide Mirrored, Touches;
    assert forall k :: LateKeyIsSafe(w', w'.queue, batch, k) <==> LateKeyIsSafe(w, w'.queue, batch, k);
  }

  /** In particular it is harmless as long as the server has not committed a later batch: everything the request
      carries is then still queued. */
  lemma LateCommitBeforeAck(w: World, batch: seq<Op>)
    requires Replicated(w) && batch <= w.queue && (w.flight.Some? ==> !w.flight.value.applied)
    ensures LateIsSafe(w, Left(w), batch)
  {
    forall k | Touches(batch, k)
      ensures Touches(w.queue, k)
    {
      var i :| 0 <= i < |batch| && Effect(batch[i], k).Some?;
      assert w.queue[i] == batch[i];
    }
  }

  /** Afterwards it may not be: the first value given up on, the second acknowledged, then the first committed. */
  function LateRun(k: Key, first: Row, second: Row, stamp: Option<Row>): seq<Event> {
    [Write(k, first), ReadBatch, GivenUp, Write(k, second), ReadBatch, ServerApplies(stamp), Acked,
     LateCommit([Upsert(k, first)], stamp)]
  }

  lemma LateCommitCanHarm(k: Key, first: Row, second: Row, stamp: Option<Row>)
    requires Mirrored(k) && first != second
    ensures var w := Run(Start(map[]), LateRun(k, first, second, stamp));
            w.queue == [] && Lookup(w.rows, k) == Some(second) && Lookup(w.mirror, k) == Some(first)
  {
    hide ApplyAll, Run, Step;
    var e, s := LateRun(k, first, second, stamp), Start(map[]);
    var w := Run(s, e[..7]);
    RunOfSeven(k, first, second, stamp);
    assert e[..7] + [e[7]] == e;
    RunByStep(s, e[..7], e[7]);
    LateStep(w, k, first, stamp);
  }

  lemma LateStep(w: World, k: Key, row: Row, stamp: Option<Row>)
    requires Mirrored(k)
    ensures var w' := Step(w, LateCommit([Upsert(k, row)], stamp));
            Lookup(w'.mirror, k) == Some(row) && w'.rows == w.rows && w'.queue == w.queue
  {
    hide ApplyAll;
    ApplyAllIsAfter([Upsert(k, row)], w.mirror, k);
    OneOp(Lookup(w.mirror, k), Upsert(k, row), k);
  }

  lemma RunByStep(w: World, events: seq<Event>, e: Event)
    ensures Run(w, events + [e]) == Step(Run(w, events), e)
  {
    hide Step;
    assert (events + [e])[..|events|] == events;
  }

  lemma RunOfFour(k: Key, first: Row, second: Row, stamp: Option<Row>)
    requires Mirrored(k)
    ensures var w := Run(Start(map[]), LateRun(k, first, second, stamp)[..4]);
            w.queue == [Upsert(k, first), Upsert(k, second)] && w.rows == map[k := second] && w.flight.None?
  {
    hide Run, ApplyAll;
    var e, s := LateRun(k, first, second, stamp), Start(map[]);
    assert Run(s, []) == s by { EmptyRun(s); }
    assert e[..1] == [] + [e[0]] && e[..2] == e[..1] + [e[1]] && e[..3] == e[..2] + [e[2]] && e[..4] == e[..3] + [e[3]];
    RunByStep(s, [], e[0]);
    RunByStep(s, e[..1], e[1]);
    RunByStep(s, e[..2], e[2]);
    RunByStep(s, e[..3], e[3]);
    assert [] + [Upsert(k, first)] == [Upsert(k, first)];
  }

  lemma EmptyRun(w: World)
    ensures Run(w, []) == w
  {}

  lemma RunOfSeven(k: Key, first: Row, second: Row, stamp: Option<Row>)
    requires Mirrored(k)
    ensures var w := Run(Start(map[]), LateRun(k, first, second, stamp)[..7]);
            w.queue == [] && w.rows == map[k := second]
  {
    hide Run, ApplyAll, Start;
    var e, s := LateRun(k, first, second, stamp), Start(map[]);
    RunOfFour(k, first, second, stamp);
    assert e[..5] == e[..4] + [e[4]] && e[..6] == e[..5] + [e[5]] && e[..7] == e[..6] + [e[6]];
    RunByStep(s, e[..4], e[4]);
    RunByStep(s, e[..5], e[5]);
    RunByStep(s, e[..6], e[6]);
    assert Run(s, e[..4]).queue[2..] == [];
  }

  // ---------------------------------------------------------------- the two changes no trigger sees

  lemma {:induction false} CatchupTouches(ids: seq<int>, cuts: Cuts, k: Key)
    ensures forall v :: After(v, CatchupOps(ids, cuts), k) == if Expired(k, cuts) && k.id in ids then None else v
  {
    if ids != [] {
      var n := |ids| - 1;
      CatchupTouches(ids[..n], cuts, k);
      var before := CatchupOps(ids[..n], cuts);
      var last := [Prune(Hourly, ids[n], cuts.hour), Prune(Daily, ids[n], cuts.day)];
      assert ids == ids[..n] + [ids[n]];
      forall v
        ensures After(v, CatchupOps(ids, cuts), k) == if Expired(k, cuts) && k.id in ids then None else v
      {
        AfterSplits(v, before, last, k);
        var u := After(v, before, k);
        assert last[..1] == [Prune(Hourly, ids[n], cuts.hour)];
        OneOp(u, Prune(Hourly, ids[n], cuts.hour), k);
      }
    }
  }

  /** Every node that loses a row at start-up still has hourly or daily rows afterwards, and no row falls
      between the cut-offs of the start-up pass and the later ones of the catch-up. */
  predicate RestartIsSafe(rows: Rows, cuts: Cuts, later: Cuts) {
    var kept := map k | k in rows && !Expired(k, cuts) :: rows[k];
    && (forall k :: k in rows && Expired(k, cuts) ==> k.id in WithBars(kept))
    && (forall k :: k in kept ==> !Expired(k, later))
  }

  lemma RestartedKey(w: World, cuts: Cuts, later: Cuts, k: Key)
    requires KeyAgrees(w, k)
    ensures var kept := map k | k in w.rows && !Expired(k, cuts) :: w.rows[k];
            Pending(Restarted(w, cuts, later), k)
            == if Expired(k, later) && k.id in WithBars(kept) then None else Pending(w, k)
  {
    var kept := map k | k in w.rows && !Expired(k, cuts) :: w.rows[k];
    var ids := Sorted(WithBars(kept));
    AfterSplits(Lookup(w.mirror, k), w.queue, CatchupOps(ids, later), k);
    CatchupTouches(ids, later, k);
  }

  lemma SafeRestartAgrees(w: World, cuts: Cuts, later: Cuts)
    requires Replicated(w) && cuts.hour <= later.hour && cuts.day <= later.day
    requires RestartIsSafe(w.rows, cuts, later)
    ensures Replicated(Restarted(w, cuts, later))
  {
    var w' := Restarted(w, cuts, later);
    forall k | Mirrored(k)
      ensures KeyAgrees(w', k)
    {
      assert KeyAgrees(w, k);
      RestartedKey(w, cuts, later, k);
      if k in w.rows && !Expired(k, cuts) {
        assert k in w'.rows;
      }
    }
    assert Step(w', Acked) == w';
  }

  predicate SpoiltByRestart(rows: Rows, cuts: Cuts, later: Cuts, k: Key) {
    var kept := map k | k in rows && !Expired(k, cuts) :: rows[k];
    if Expired(k, cuts) then k.id !in WithBars(kept) else Expired(k, later)
  }

  /** A restart keeps gateway and mirror in agreement exactly when it is safe. */
  lemma RestartAgreesIffSafe(w: World, cuts: Cuts, later: Cuts)
    requires Replicated(w) && cuts.hour <= later.hour && cuts.day <= later.day
    requires BarTable(Hourly) in w.seeded && BarTable(Daily) in w.seeded
    ensures Agree(Restarted(w, cuts, later)) <==> RestartIsSafe(w.rows, cuts, later)
    ensures Replicated(Restarted(w, cuts, later)) <==> RestartIsSafe(w.rows, cuts, later)
  {
    hide Restarted;
    if RestartIsSafe(w.rows, cuts, later) {
      SafeRestartAgrees(w, cuts, later);
    } else {
      var k :| k in w.rows && SpoiltByRestart(w.rows, cuts, later, k);
      UnsafeRestartDisagrees(w, cuts, later, k);
    }
  }

  lemma UnsafeRestartDisagrees(w: World, cuts: Cuts, later: Cuts, k: Key)
    requires Replicated(w) && k in w.rows && cuts.hour <= later.hour && cuts.day <= later.day
    requires BarTable(Hourly) in w.seeded && BarTable(Daily) in w.seeded
    requires SpoiltByRestart(w.rows, cuts, later, k)
    ensures !Agree(Restarted(w, cuts, later))
  {
    var kept := map k | k in w.rows && !Expired(k, cuts) :: w.rows[k];
    assert Mirrored(k) && TableOf(k) in w.seeded;
    assert KeyAgrees(w, k);
    RestartedKey(w, cuts, later, k);
    if k in kept {
      assert k.id in WithBars(kept);
    }
    assert !KeyAgrees(Restarted(w, cuts, later), k);
  }

  // ---------------------------------------------------------------- rebuilding the aggregates

  predicate Refills(id: int, remade: seq<Remade>, k: Key) {
    k.Bar? && k.id == id && exists i :: 0 <= i < |remade| && remade[i].level == k.level && remade[i].bucket == k.bucket
  }

  lemma {:induction false} RemadeIsAfter(rows: Rows, id: int, remade: seq<Remade>, k: Key)
    ensures Lookup(RemadeRows(rows, id, remade), k) == After(Lookup(rows, k), RemadeOps(id, remade), k)
  {
    if remade != [] {
      var n := |remade| - 1;
      RemadeIsAfter(rows, id, remade[..n], k);
      var op := Upsert(Bar(remade[n].level, id, remade[n].bucket), remade[n].row);
      AfterSplits(Lookup(rows, k), RemadeOps(id, remade[..n]), [op], k);
      OneOp(After(Lookup(rows, k), RemadeOps(id, remade[..n]), k), op, k);
    }
  }

  lemma {:induction false} RemadeTouches(id: int, remade: seq<Remade>, k: Key)
    ensures Touches(RemadeOps(id, remade), k) <==> Refills(id, remade, k)
  {
    if remade != [] {
      var n := |remade| - 1;
      RemadeTouches(id, remade[..n], k);
      var op := Upsert(Bar(remade[n].level, id, remade[n].bucket), remade[n].row);
      TouchesSplits(RemadeOps(id, remade[..n]), [op], k);
      TouchesOne(op, k);
      RefillsSplits(id, remade, k);
    }
  }

  lemma TouchesOne(op: Op, k: Key)
    ensures Touches([op], k) <==> Effect(op, k).Some?
  {
    assert [op][0] == op;
  }

  lemma RefillsSplits(id: int, remade: seq<Remade>, k: Key)
    requires remade != []
    ensures var n := |remade| - 1;
            Refills(id, remade, k) <==> Refills(id, remade[..n], k) || k == Bar(remade[n].level, id, remade[n].bucket)
  {
    var n := |remade| - 1;
    if Refills(id, remade[..n], k) {
      var i :| 0 <= i < n && remade[..n][i].level == k.level && remade[..n][i].bucket == k.bucket;
      assert remade[i].level == k.level && remade[i].bucket == k.bucket;
    }
    if Refills(id, remade, k) {
      var i :| 0 <= i < |remade| && remade[i].level == k.level && remade[i].bucket == k.bucket;
      assert i < n ==> remade[..n][i].level == k.level && remade[..n][i].bucket == k.bucket;
    }
  }

  lemma TouchesSplits(a: seq<Op>, b: seq<Op>, k: Key)
    ensures Touches(a + b, k) <==> Touches(a, k) || Touches(b, k)
  {
    if Touches(a, k) {
      var i :| 0 <= i < |a| && Effect(a[i], k).Some?;
      assert Effect((a + b)[i], k).Some?;
    }
    if Touches(b, k) {
      var i :| 0 <= i < |b| && Effect(b[i], k).Some?;
      assert Effect((a + b)[|a| + i], k).Some?;
    }
  }

  /** The node's old row at k is rewritten, or a prune that the rebuild queues removes it from the mirror. */
  predicate Covered(id: int, remade: seq<Remade>, cuts: Cuts, k: Key)
    requires k.Bar?
  {
    || Refills(id, remade, k)
    || (k.level.Hourly? && k.bucket < cuts.hour && RemadeBelow(remade, Hourly, cuts.hour))
    || (k.level.Daily? && k.bucket < cuts.day && RemadeBelow(remade, Daily, cuts.day))
  }

  predicate RemadeBelow(remade: seq<Remade>, level: Level, before: int) {
    exists i :: 0 <= i < |remade| && remade[i].level == level && remade[i].bucket < before
  }

  /** What a rebuild must meet: with the prunes queued, that each deleted row is covered; without them, that each is
      rewritten and no rewritten row is pruned again. */
  predicate RebuildIsSafe(rows: Rows, id: int, remade: seq<Remade>, cuts: Cuts, backupOn: bool) {
    if backupOn then
      forall k :: k in rows && k.Bar? && k.id == id ==> Covered(id, remade, cuts, k)
    else
      && (forall k :: k in rows && k.Bar? && k.id == id ==> Refills(id, remade, k))
      && !RemadeBelow(remade, Hourly, cuts.hour) && !RemadeBelow(remade, Daily, cuts.day)
  }

  lemma {:induction false} RemadeKeys(rows: Rows, id: int, remade: seq<Remade>, k: Key)
    ensures k in RemadeRows(rows, id, remade) <==> k in rows || Refills(id, remade, k)
  {
    if remade != [] {
      RemadeKeys(rows, id, remade[..|remade| - 1], k);
      RefillsSplits(id, remade, k);
    }
  }

  /** When the prunes of a rebuild fire. */
  lemma PruneFires(rows: Rows, id: int, remade: seq<Remade>, level: Level, before: int)
    ensures (exists k :: k in RemadeRows(Wiped(rows, id), id, remade) && Older(k, level, id, before))
        <==> RemadeBelow(remade, level, before)
  {
    var filled := RemadeRows(Wiped(rows, id), id, remade);
    if k :| k in filled && Older(k, level, id, before) {
      RemadeKeys(Wiped(rows, id), id, remade, k);
      var i :| 0 <= i < |remade| && remade[i].level == k.level && remade[i].bucket == k.bucket;
      assert remade[i].level == level && remade[i].bucket < before;
    }
    if i :| 0 <= i < |remade| && remade[i].level == level && remade[i].bucket < before {
      var k := Bar(level, id, remade[i].bucket);
      assert Refills(id, remade, k);
      RemadeKeys(Wiped(rows, id), id, remade, k);
      assert k in filled && Older(k, level, id, before);
    }
  }

  /** With the prunes queued: what a rebuild leaves at a key, and which keys the operations it queues touch. */
  lemma RebuiltKey(rows: Rows, id: int, remade: seq<Remade>, cuts: Cuts, k: Key)
    ensures var ops := RebuildOps(rows, id, remade, cuts, true);
            && Lookup(RebuiltRows(rows, id, remade, cuts), k) == After(Lookup(Wiped(rows, id), k), ops, k)
            && (Touches(ops, k) <==> k.Bar? && k.id == id && Covered(id, remade, cuts, k))
  {
    var wiped := Wiped(rows, id);
    var filled := RemadeRows(wiped, id, remade);
    var hours := Apply(Prune(Hourly, id, cuts.hour), filled);
    var a, b, c := RemadeOps(id, remade), PruneOps(filled, Hourly, id, cuts.hour), PruneOps(hours, Daily, id, cuts.day);
    assert RebuildOps(rows, id, remade, cuts, true) == a + b + c;
    RemadeIsAfter(wiped, id, remade, k);
    RemadeTouches(id, remade, k);
    PruneFires(rows, id, remade, Hourly, cuts.hour);
    PruneFires(rows, id, remade, Daily, cuts.day);
    DaysSurvive(filled, id, cuts);
    AfterSplits(Lookup(wiped, k), a + b, c, k);
    AfterSplits(Lookup(wiped, k), a, b, k);
    OneOp(Lookup(filled, k), Prune(Hourly, id, cuts.hour), k);
    OneOp(Lookup(hours, k), Prune(Daily, id, cuts.day), k);
    TouchesSplits(a + b, c, k);
    TouchesSplits(a, b, k);
    TouchesOne(Prune(Hourly, id, cuts.hour), k);
    TouchesOne(Prune(Daily, id, cuts.day), k);
  }

  lemma DaysSurvive(filled: Rows, id: int, cuts: Cuts)
    ensures var hours := Apply(Prune(Hourly, id, cuts.hour), filled);
            PruneOps(hours, Daily, id, cuts.day) == PruneOps(filled, Daily, id, cuts.day)
  {
    var hours := Apply(Prune(Hourly, id, cuts.hour), filled);
    assert forall k :: Older(k, Daily, id, cuts.day) ==> (k in filled <==> k in hours);
  }

  lemma RebuiltKeyAgrees(w: World, id: int, remade: seq<Remade>, cuts: Cuts, k: Key)
    requires KeyAgrees(w, k)
    ensures var w' := Rebuilt(w, id, remade, cuts, true);
            var wiped := k in w.rows && k.Bar? && k.id == id;
            && (!wiped || Covered(id, remade, cuts, k) ==> KeyAgrees(w', k))
            && (wiped && TableOf(k) in w.seeded && KeyAgrees(w', k) ==> Covered(id, remade, cuts, k))
  {
    hide RebuildOps, RebuiltRows, Covered;
    var ops := RebuildOps(w.rows, id, remade, cuts, true);
    RebuiltKey(w.rows, id, remade, cuts, k);
    AfterSplits(Lookup(w.mirror, k), w.queue, ops, k);
    LastWriterWins(Pending(w, k), Lookup(Wiped(w.rows, id), k), ops, k);
    LastWriterWins(Lookup(Wiped(w.rows, id), k), Pending(w, k), ops, k);
  }

  /** Without the prunes: a key is rewritten on both sides, unless the gateway prunes it again; or it keeps its
      value on the mirror and loses it on the gateway. */
  lemma SilentKeyAgrees(w: World, id: int, remade: seq<Remade>, cuts: Cuts, k: Key)
    requires KeyAgrees(w, k)
    ensures var w' := Rebuilt(w, id, remade, cuts, false);
            var wiped := k in w.rows && k.Bar? && k.id == id;
            && (Refills(id, remade, k) ==> (KeyAgrees(w', k) <==> !Expired(k, cuts)))
            && (!Refills(id, remade, k) && !wiped ==> KeyAgrees(w', k))
            && (!Refills(id, remade, k) && wiped && TableOf(k) in w.seeded ==> !KeyAgrees(w', k))
  {
    hide RemadeRows, RemadeOps, Refills;
    var ops, wipedRows := RemadeOps(id, remade), Wiped(w.rows, id);
    assert RebuildOps(w.rows, id, remade, cuts, false) == ops;
    RemadeIsAfter(wipedRows, id, remade, k);
    RemadeTouches(id, remade, k);
    RemadeKeys(wipedRows, id, remade, k);
    RefillsBars(id, remade, k);
    AfterSplits(Lookup(w.mirror, k), w.queue, ops, k);
    LastWriterWins(Pending(w, k), Lookup(wipedRows, k), ops, k);
    LastWriterWins(Lookup(wipedRows, k), Pending(w, k), ops, k);
  }

  lemma RefillsBars(id: int, remade: seq<Remade>, k: Key)
    ensures Refills(id, remade, k) ==> k.Bar? && k.id == id
  {}

  lemma ExpiredIffBelow(id: int, remade: seq<Remade>, cuts: Cuts)
    ensures (exists k :: Refills(id, remade, k) && Expired(k, cuts))
        <==> RemadeBelow(remade, Hourly, cuts.hour) || RemadeBelow(remade, Daily, cuts.day)
  {
    if i :| 0 <= i < |remade| && remade[i].level == Hourly && remade[i].bucket < cuts.hour {
      var k := Bar(Hourly, id, remade[i].bucket);
      assert Refills(id, remade, k) && Expired(k, cuts);
    }
    if i :| 0 <= i < |remade| && remade[i].level == Daily && remade[i].bucket < cuts.day {
      var k := Bar(Daily, id, remade[i].bucket);
      assert Refills(id, remade, k) && Expired(k, cuts);
    }
  }

  lemma RebuildKeepsKey(w: World, id: int, remade: seq<Remade>, cuts: Cuts, backupOn: bool, k: Key)
    requires KeyAgrees(w, k)
    requires RebuildIsSafe(w.rows, id, remade, cuts, backupOn)
    ensures KeyAgrees(Rebuilt(w, id, remade, cuts, backupOn), k)
  {
    hide Rebuilt, Covered, KeyAgrees, Refills, RemadeBelow;
    if backupOn {
      RebuiltKeyAgrees(w, id, remade, cuts, k);
    } else {
      SilentKeyAgrees(w, id, remade, cuts, k);
      ExpiredIffBelow(id, remade, cuts);
    }
  }

  lemma RebuildKeepsAgree(w: World, id: int, remade: seq<Remade>, cuts: Cuts, backupOn: bool)
    requires Agree(w) && RebuildIsSafe(w.rows, id, remade, cuts, backupOn)
    ensures Agree(Rebuilt(w, id, remade, cuts, backupOn))
  {
    hide Rebuilt, RebuildIsSafe, KeyAgrees;
    forall k | Mirrored(k)
      ensures KeyAgrees(Rebuilt(w, id, remade, cuts, backupOn), k)
    {
      RebuildKeepsKey(w, id, remade, cuts, backupOn, k);
    }
  }

  lemma SafeRebuildAgrees(w: World, id: int, remade: seq<Remade>, cuts: Cuts, backupOn: bool)
    requires Replicated(w) && RebuildIsSafe(w.rows, id, remade, cuts, backupOn)
    ensures Replicated(Rebuilt(w, id, remade, cuts, backupOn))
  {
    hide RebuildIsSafe, Agree, RebuildOps, RebuiltRows;
    EnqueueThenAck(w, RebuiltRows(w.rows, id, remade, cuts), RebuildOps(w.rows, id, remade, cuts, backupOn));
    RebuildKeepsAgree(w, id, remade, cuts, backupOn);
    RebuildKeepsAgree(Step(w, Acked), id, remade, cuts, backupOn);
  }

  lemma UnsafeRebuildDisagrees(w: World, id: int, remade: seq<Remade>, cuts: Cuts, backupOn: bool)
    requires Agree(w) && (forall level :: BarTable(level) in w.seeded)
    requires !RebuildIsSafe(w.rows, id, remade, cuts, backupOn)
    ensures !Agree(Rebuilt(w, id, remade, cuts, backupOn))
  {
    hide Rebuilt, Covered, KeyAgrees, RemadeBelow, Refills, Expired;
    var w' := Rebuilt(w, id, remade, cuts, backupOn);
    if backupOn {
      var k :| k in w.rows && k.Bar? && k.id == id && !Covered(id, remade, cuts, k);
      assert Mirrored(k) && KeyAgrees(w, k);
      RebuiltKeyAgrees(w, id, remade, cuts, k);
      assert !KeyAgrees(w', k);
    } else if k :| k in w.rows && k.Bar? && k.id == id && !Refills(id, remade, k) {
      assert Mirrored(k) && KeyAgrees(w, k);
      SilentKeyAgrees(w, id, remade, cuts, k);
      assert !KeyAgrees(w', k);
    } else {
      ExpiredIffBelow(id, remade, cuts);
      var k :| Refills(id, remade, k) && Expired(k, cuts);
      RefillsBars(id, remade, k);
      assert Mirrored(k) && KeyAgrees(w, k);
      SilentKeyAgrees(w, id, remade, cuts, k);
      assert !KeyAgrees(w', k);
    }
  }

  /** RebuildSolarAggregates deletes rows behind the triggers' back: gateway and mirror still agree after it
      exactly when it is safe. */
  lemma RebuildAgreesIffSafe(w: World, id: int, remade: seq<Remade>, cuts: Cuts, backupOn: bool)
    requires Replicated(w) && forall level :: BarTable(level) in w.seeded
    ensures var w' := Rebuilt(w, id, remade, cuts, backupOn);
            && (Agree(w') <==> RebuildIsSafe(w.rows, id, remade, cuts, backupOn))
            && (Replicated(w') <==> RebuildIsSafe(w.rows, id, remade, cuts, backupOn))
  {
    hide Rebuilt, Agree, RebuildIsSafe;
    if RebuildIsSafe(w.rows, id, remade, cuts, backupOn) {
      SafeRebuildAgrees(w, id, remade, cuts, backupOn);
    } else {
      UnsafeRebuildDisagrees(w, id, remade, cuts, backupOn);
    }
  }

  // ---------------------------------------------------------------- every run

  /** The three events that can leave the mirror wrong come only when their conditions hold. */
  ghost predicate Harmless(w: World, e: Event) {
    match e
    case Restart(cuts, later) =>
      cuts.hour <= later.hour && cuts.day <= later.day && RestartIsSafe(w.rows, cuts, later)
    case Rebuild(id, remade, cuts, backupOn) => RebuildIsSafe(w.rows, id, remade, cuts, backupOn)
    case LateCommit(batch, _) => LateIsSafe(w, Left(w), batch)
    case _ => true
  }

  ghost predicate AllHarmless(w: World, events: seq<Event>) {
    forall i :: 0 <= i < |events| ==> Harmless(Run(w, events[..i]), events[i])
  }

  lemma StepReplicates(w: World, e: Event)
    requires Replicated(w) && Harmless(w, e)
    ensures Replicated(Step(w, e))
  {
    hide Replicated, Faithful, Restarted, Rebuilt, RestartIsSafe, RebuildIsSafe, LateIsSafe, Agree;
    match e
    case Write(k, row) =>
      WriteIsFaithful(w.rows, k, row);
      FaithfulChangeAgrees(w, w.rows[k := row], WriteOps(k, row));
    case DeleteConfig(name) =>
      DeleteIsFaithful(w.rows, Config(name));
      FaithfulChangeAgrees(w, w.rows - {Config(name)}, DeleteOps(w.rows, Config(name)));
    case Retain(level, id, before) =>
      RetainIsFaithful(w.rows, level, id, before);
      FaithfulChangeAgrees(w, Apply(Prune(level, id, before), w.rows), PruneOps(w.rows, level, id, before));
    case Purge(id) =>
      PurgeIsFaithful(w.rows, id);
      FaithfulChangeAgrees(w, Apply(PurgeNode(id), w.rows), [PurgeNode(id)]);
    case Seed(table, order) =>
      if Selects(order, w.rows, table) {
        SeedAgrees(w, table, order);
      }
    case ReadBatch => FlightChanges(w, Step(w, e));
    case ServerApplies(stamp) => ServerAppliesAgrees(w, stamp);
    case Acked => AckAgrees(w);
    case GivenUp => FlightChanges(w, Step(w, e));
    case LateCommit(batch, stamp) => LateCommitAgreesIff(w, batch, stamp);
    case Restart(cuts, later) => SafeRestartAgrees(w, cuts, later);
    case Rebuild(id, remade, cuts, backupOn) => SafeRebuildAgrees(w, id, remade, cuts, backupOn);
  }

  lemma FlightChanges(w: World, w': World)
    requires Replicated(w) && w' == w.(flight := w'.flight)
    requires w'.flight.Some? ==> w'.flight.value.count <= |w.queue| && !w'.flight.value.applied
    ensures Replicated(w')
  {
    forall k | Mirrored(k) ensures KeyAgrees(w', k) {
      assert KeyAgrees(w, k);
    }
    assert Step(w', Acked) == w';
  }

  lemma StartReplicates(rows: Rows)
    ensures Replicated(Start(rows))
  {
    hide Mirrored;
    assert Step(Start(rows), Acked) == Start(rows);
  }

  lemma {:induction false} RunReplicates(rows: Rows, events: seq<Event>)
    requires AllHarmless(Start(rows), events)
    ensures Replicated(Run(Start(rows), events))
  {
    hide Mirrored, Harmless, Step;
    if events == [] {
      StartReplicates(rows);
    } else {
      hide Replicated;
      var n := |events| - 1;
      var w := Run(Start(rows), events[..n]);
      forall i | 0 <= i < n
        ensures Harmless(Run(Start(rows), events[..n][..i]), events[..n][i])
      {
        assert events[..n][..i] == events[..i];
      }
      RunReplicates(rows, events[..n]);
      StepReplicates(w, events[n]);
    }
  }

  /** From an empty mirror, through every local write, retention prune, node purge, seeding, push, lost reply, replay and
      late commit: the pending queue applied to the mirror gives the gateway's node, parameter and aggregate rows, and
      its config rows but for last_push_at and the bookkeeping; a table not yet seeded may lack some. */
  lemma MirrorFollows(rows: Rows, events: seq<Event>)
    requires AllHarmless(Start(rows), events)
    ensures var w := Run(Start(rows), events);
            forall k: Key :: (k.Config? ==> k.name != "last_push_at" && !SaysBackup(k.name)) ==>
              var applied := Lookup(ApplyAll(w.queue, w.mirror), k);
              applied == Lookup(w.rows, k) || (TableOf(k) !in w.seeded && applied.None?)
  {
    hide Run, Start, AllHarmless, SaysBackup;
    var w := Run(Start(rows), events);
    RunReplicates(rows, events);
    forall k | Mirrored(k)
      ensures var applied := Lookup(ApplyAll(w.queue, w.mirror), k);
              applied == Lookup(w.rows, k) || (TableOf(k) !in w.seeded && applied.None?)
    {
      assert KeyAgrees(w, k);
      ApplyAllIsAfter(w.queue, w.mirror, k);
    }
  }

  /** The gateway's own bookkeeping stays home: in no run does an operation on a key that begins with backup reach queue or
      mirror, as long as no late request carries one. */
  ghost predicate NoBookkeeping(ops: seq<Op>) {
    forall i, name :: 0 <= i < |ops| && SaysBackup(name) ==> Effect(ops[i], Config(name)).None?
  }

  lemma {:induction false} BookkeepingStaysHome(rows: Rows, events: seq<Event>)
    requires forall i :: 0 <= i < |events| && events[i].LateCommit? ==> NoBookkeeping(events[i].batch)
    ensures var w := Run(Start(rows), events);
            NoBookkeeping(w.queue) && forall name :: SaysBackup(name) ==> Config(name) !in w.mirror
  {
    hide SaysBackup, Effect, Step;
    if events != [] {
      var n := |events| - 1;
      BookkeepingStaysHome(rows, events[..n]);
      StepKeepsHome(Run(Start(rows), events[..n]), events[n]);
    }
  }

  lemma StepKeepsHome(w: World, e: Event)
    requires NoBookkeeping(w.queue) && forall name :: SaysBackup(name) ==> Config(name) !in w.mirror
    requires e.LateCommit? ==> NoBookkeeping(e.batch)
    ensures var w' := Step(w, e);
            NoBookkeeping(w'.queue) && forall name :: SaysBackup(name) ==> Config(name) !in w'.mirror
  {
    hide SaysBackup, NoBookkeeping, Effect, Stamp, ApplyAll, CatchupOps, RemadeOps, WithBars, RebuiltRows, UpsertAll;
    hide WriteOps, DeleteOps, PruneOps, RebuildPrunes;
    match e
    case ServerApplies(stamp) =>
      if w.flight.Some? && w.flight.value.count <= |w.queue| {
        PartStaysHome(w.queue, 0, w.flight.value.count);
        CommitKeepsHome(w.queue[..w.flight.value.count], w.mirror, stamp);
      }
    case LateCommit(batch, stamp) => CommitKeepsHome(batch, w.mirror, stamp);
    case Acked =>
      if w.flight.Some? && w.flight.value.count <= |w.queue| {
        PartStaysHome(w.queue, w.flight.value.count, |w.queue|);
        assert w.queue[w.flight.value.count..|w.queue|] == w.queue[w.flight.value.count..];
      }
    case Write(k, row) =>
      LocalOpsStayHome(w.rows, k, row, Hourly, 0, 0);
      BothStayHome(w.queue, WriteOps(k, row));
    case DeleteConfig(name) =>
      LocalOpsStayHome(w.rows, Config(name), "", Hourly, 0, 0);
      BothStayHome(w.queue, DeleteOps(w.rows, Config(name)));
    case Retain(level, id, before) =>
      LocalOpsStayHome(w.rows, Config(""), "", level, id, before);
      BothStayHome(w.queue, PruneOps(w.rows, level, id, before));
    case Purge(id) =>
      LocalOpsStayHome(w.rows, Config(""), "", Hourly, id, 0);
      BothStayHome(w.queue, [PurgeNode(id)]);
    case Seed(table, order) =>
      if Selects(order, w.rows, table) {
        SeedStaysHome(w.rows, table, order);
        BothStayHome(w.queue, UpsertAll(w.rows, order));
      }
    case Restart(cuts, later) =>
      var ids := Sorted(WithBars(map k | k in w.rows && !Expired(k, cuts) :: w.rows[k]));
      CatchupKeepsHome(ids, later);
      BothStayHome(w.queue, CatchupOps(ids, later));
    case Rebuild(id, remade, cuts, backupOn) =>
      RebuildStaysHome(w.rows, id, remade, cuts, backupOn);
      BothStayHome(w.queue, RebuildOps(w.rows, id, remade, cuts, backupOn));
    case _ =>
  }

  lemma PartStaysHome(ops: seq<Op>, i: nat, j: nat)
    requires NoBookkeeping(ops) && i <= j <= |ops|
    ensures NoBookkeeping(ops[i..j]) && ops[0..j] == ops[..j]
  {
    hide SaysBackup, Effect;
  }

  lemma BothStayHome(a: seq<Op>, b: seq<Op>)
    requires NoBookkeeping(a) && NoBookkeeping(b)
    ensures NoBookkeeping(a + b)
  {
    hide SaysBackup, Effect;
  }

  lemma LocalOpsStayHome(rows: Rows, k: Key, row: Row, level: Level, id: int, before: int)
    ensures NoBookkeeping(WriteOps(k, row)) && NoBookkeeping(DeleteOps(rows, k))
    ensures NoBookkeeping(PruneOps(rows, level, id, before)) && NoBookkeeping([PurgeNode(id)])
  {
    hide SaysBackup, LikeBackup;
    if Captured(k) {
      CapturedIffMirrored(k);
      if k.Config? && SaysBackup(k.name) {
        NotTheStamp(k.name);
      }
    }
  }

  lemma SeedStaysHome(rows: Rows, table: Table, order: seq<Key>)
    requires Selects(order, rows, table)
    ensures NoBookkeeping(UpsertAll(rows, order))
  {
    hide SaysBackup, LikeBackup;
    forall i, name | 0 <= i < |order| && SaysBackup(name)
      ensures order[i] != Config(name)
    {
      CapturedIffMirrored(Config(name));
      NotTheStamp(name);
    }
  }

  lemma RebuildStaysHome(rows: Rows, id: int, remade: seq<Remade>, cuts: Cuts, backupOn: bool)
    ensures NoBookkeeping(RebuildOps(rows, id, remade, cuts, backupOn))
  {
    hide SaysBackup, RemadeOps;
    RemadeKeepsHome(id, remade);
  }

  lemma NotTheStamp(name: string)
    requires SaysBackup(name)
    ensures name != "last_push_at"
  {
    assert "last_push_at"[0] == 'l';
  }

  lemma CommitKeepsHome(batch: seq<Op>, mirror: Rows, stamp: Option<Row>)
    requires NoBookkeeping(batch) && forall name :: SaysBackup(name) ==> Config(name) !in mirror
    ensures forall name :: SaysBackup(name) ==> Config(name) !in Stamp(ApplyAll(batch, mirror), stamp)
  {
    hide SaysBackup, ApplyAll, Effect;
    forall name | SaysBackup(name)
      ensures Config(name) !in Stamp(ApplyAll(batch, mirror), stamp)
    {
      NotTheStamp(name);
      ApplyAllIsAfter(batch, mirror, Config(name));
      LastWriterWins(None, None, batch, Config(name));
    }
  }

  lemma {:induction false} CatchupKeepsHome(ids: seq<int>, cuts: Cuts)
    ensures NoBookkeeping(CatchupOps(ids, cuts))
  {
    hide SaysBackup;
    if ids != [] {
      CatchupKeepsHome(ids[..|ids| - 1], cuts);
    }
  }

  lemma {:induction false} RemadeKeepsHome(id: int, remade: seq<Remade>)
    ensures NoBookkeeping(RemadeOps(id, remade))
  {
    hide SaysBackup;
    if remade != [] {
      RemadeKeepsHome(id, remade[..|remade| - 1]);
    }
  }

  const ALL_TABLES := {ConfigTable, NodeTable, ParamTable, BarTable(Hourly), BarTable(Daily), BarTable(Monthly)}

  lemma EveryTable(table: Table)
    ensures table in ALL_TABLES
  {
    match table
    case BarTable(level) => match level { case Hourly => case Daily => case Monthly => }
    case _ =>
  }

  /** Two stores hold the same nodes, parameters and aggregate rows, and the same config rows but for the server's stamp and
      the gateway's bookkeeping. */
  ghost predicate SameContent(a: Rows, b: Rows) {
    && (forall id :: Lookup(a, Node(id)) == Lookup(b, Node(id)))
    && (forall id, name :: Lookup(a, Param(id, name)) == Lookup(b, Param(id, name)))
    && (forall level, id, bucket :: Lookup(a, Bar(level, id, bucket)) == Lookup(b, Bar(level, id, bucket)))
    && (forall name :: name != "last_push_at" && !SaysBackup(name) ==> Lookup(a, Config(name)) == Lookup(b, Config(name)))
  }

  /** Once every table has been seeded, the queue applied to the mirror is the gateway, row for row; with the
      queue drained the mirror itself is. */
  lemma MirrorIsGateway(rows: Rows, events: seq<Event>)
    requires AllHarmless(Start(rows), events)
    requires Run(Start(rows), events).seeded == ALL_TABLES
    ensures var w := Run(Start(rows), events);
            SameContent(ApplyAll(w.queue, w.mirror), w.rows) && (w.queue == [] ==> SameContent(w.mirror, w.rows))
  {
    hide Run, Start, AllHarmless, SaysBackup;
    var w := Run(Start(rows), events);
    MirrorFollows(rows, events);
    forall table ensures table in w.seeded { EveryTable(table); }
    if w.queue == [] {
      assert ApplyAll(w.queue, w.mirror) == w.mirror;
    }
  }

  /** The stamp of the last request the server committed. */
  function LastStamp(w: World, events: seq<Event>): Option<Row> {
    if events == [] then None else
      var n := |events| - 1;
      var before := Run(w, events[..n]);
      match events[n]
      case ServerApplies(stamp) =>
        if before.flight.Some? && before.flight.value.count <= |before.queue| then stamp else LastStamp(w, events[..n])
      case LateCommit(_, stamp) => stamp
      case _ => LastStamp(w, events[..n])
  }

  /** Every commit is stamped. */
  predicate AllStamped(events: seq<Event>) {
    forall i :: 0 <= i < |events| ==>
      (events[i].ServerApplies? || events[i].LateCommit? ==> events[i].stamp.Some?)
  }

  /** Over every run the mirror's row last_push_at is the server's own time of the last commit, although the triggers
      mirror the gateway's row of that name too. */
  lemma {:induction false} LastPushIsTheServers(rows: Rows, events: seq<Event>)
    requires AllStamped(events)
    ensures Lookup(Run(Start(rows), events).mirror, LAST_PUSH) == LastStamp(Start(rows), events)
    ensures Captured(LAST_PUSH) && !Mirrored(LAST_PUSH)
  {
    hide Restarted, Rebuilt, ApplyAll;
    assert "last_push_at"[0] != "backup"[0];
    if events != [] {
      LastPushIsTheServers(rows, events[..|events| - 1]);
      var w, e := Run(Start(rows), events[..|events| - 1]), events[|events| - 1];
      if !e.ServerApplies? && !e.LateCommit? {
        MirrorKept(w, e);
      }
    }
  }

  lemma MirrorKept(w: World, e: Event)
    requires !e.ServerApplies? && !e.LateCommit?
    ensures Step(w, e).mirror == w.mirror
  {}
}
