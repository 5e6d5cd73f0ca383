/** The station's retry queue: what enqueueing, batches and restarts do to its rows. */
module SyncQueue {
  import opened StockSync

  datatype Payload =
    | Stock(record: Record)
    | Business(kind: string, json: string)
    | Unsupported(kind: string, json: string)

  /** The deterministic id of a record stands for what it is hashed from: the same
      entity with the same payload is the same record. */
  datatype SyncId = SyncId(entityId: string, payload: Payload)

  datatype LastError = NoError | RejectedByServer | NoServerVerdict

  datatype Row = Row(id: SyncId, createdAt: int, syncedAt: Option<int>, retries: nat, lastError: LastError)

  ghost predicate UniqueIds(rows: seq<Row>) {
    forall i, j | 0 <= i < j < |rows| :: rows[i].id != rows[j].id
  }

  function Ids(rows: seq<Row>): seq<SyncId> {
    seq(|rows|, i requires 0 <= i < |rows| => rows[i].id)
  }

  // ── Enqueue ────────────────────────────────────────────────────────────────

  function Reset(row: Row): Row { row.(syncedAt := None, retries := 0, lastError := NoError) }

  /** Where the row with this id is, or the length when there is none. */
  function Find(rows: seq<Row>, id: SyncId): (i: nat)
    ensures i <= |rows| && (forall j | 0 <= j < i :: rows[j].id != id) && (i < |rows| ==> rows[i].id == id)
  {
    if rows == [] || rows[0].id == id then 0 else 1 + Find(rows[1..], id)
  }

  /** Upsert on the id: a known record becomes pending again and keeps its place. */
  function Enqueue(rows: seq<Row>, id: SyncId, now: int): seq<Row> {
    var i := Find(rows, id);
    if i < |rows| then rows[i := Reset(rows[i])] else rows + [Row(id, now, None, 0, NoError)]
  }

  /** How the gauge side adds records: one that is known already is left as it is. */
  function EnqueueNew(rows: seq<Row>, id: SyncId, now: int): seq<Row> {
    if Find(rows, id) < |rows| then rows else rows + [Row(id, now, None, 0, NoError)]
  }

  // ── Batches ────────────────────────────────────────────────────────────────

  predicate Pending(row: Row, maxRetries: nat) { row.syncedAt.None? && row.retries < maxRetries }

  /** A result the batch query may return: at most `limit` distinct pending rows in
      order of creation, with nothing pending left out that is older or would fit. */
  ghost predicate IsBatch(rows: seq<Row>, maxRetries: nat, limit: nat, batch: seq<Row>) {
    && |batch| <= limit
    && (forall k | 0 <= k < |batch| :: batch[k] in rows && Pending(batch[k], maxRetries))
    && (forall k, l | 0 <= k < l < |batch| :: batch[k] != batch[l] && batch[k].createdAt <= batch[l].createdAt)
    && (forall r | r in rows && Pending(r, maxRetries) && r !in batch ::
          |batch| == limit && forall k | 0 <= k < |batch| :: batch[k].createdAt <= r.createdAt)
  }

  function Judge(row: Row, accepted: set<SyncId>, rejected: set<SyncId>, now: int): Row {
    if row.id in accepted then row.(syncedAt := Some(now))
    else if row.id in rejected then row.(retries := row.retries + 1, lastError := RejectedByServer)
    else row.(retries := row.retries + 1, lastError := NoServerVerdict)
  }

  function JudgeSent(row: Row, sent: seq<SyncId>, accepted: set<SyncId>, rejected: set<SyncId>, now: int): Row {
    if row.id in sent then Judge(row, accepted, rejected, now) else row
  }

  /** The rows after the verdicts on the records in `sent` were written. */
  function JudgeAll(rows: seq<Row>, sent: seq<SyncId>, accepted: set<SyncId>, rejected: set<SyncId>, now: int): seq<Row> {
    seq(|rows|, i requires 0 <= i < |rows| => JudgeSent(rows[i], sent, accepted, rejected, now))
  }

  /** The sent records whose UPDATE succeeds; a failing one is ignored. */
  function Written(sent: seq<SyncId>, done: set<SyncId>): seq<SyncId> {
    if sent == [] then []
    else Written(sent[..|sent| - 1], done) + (if sent[|sent| - 1] in done then [sent[|sent| - 1]] else [])
  }

  lemma {:induction false} WrittenAre(sent: seq<SyncId>, done: set<SyncId>)
    ensures forall id :: id in Written(sent, done) <==> id in sent && id in done
    decreases |sent|
  {
    if sent != [] {
      var front, last := sent[..|sent| - 1], sent[|sent| - 1];
      WrittenAre(front, done);
      assert forall id :: id in sent <==> id in front || id == last;
    }
  }

  function Revived(row: Row): Row {
    if row.syncedAt.None? && row.lastError == NoServerVerdict then row.(retries := 0, lastError := NoError) else row
  }

  /** At start-up, records that never got a verdict get all their retries back. */
  function Revive(rows: seq<Row>): seq<Row> {
    seq(|rows|, i requires 0 <= i < |rows| => Revived(rows[i]))
  }

  // ── What the updates mean, field by field ──────────────────────────────────

  predicate SameRecord(a: Row, b: Row) { b.id == a.id && b.createdAt == a.createdAt }

  /** What the verdict loop leaves of one row: `written` tells whether its UPDATE took effect. */
  predicate IsVerdict(a: Row, b: Row, written: bool, accepted: set<SyncId>, rejected: set<SyncId>, now: int) {
    && SameRecord(a, b)
    && (!written ==> b == a)
    && (written && a.id in accepted ==> b.syncedAt == Some(now) && b.retries == a.retries && b.lastError == a.lastError)
    && (written && a.id !in accepted ==> b.syncedAt == a.syncedAt && b.retries == a.retries + 1)
    && (written && a.id !in accepted && a.id in rejected ==> b.lastError == RejectedByServer)
    && (written && a.id !in accepted && a.id !in rejected ==> b.lastError == NoServerVerdict)
  }

  /** What a restart leaves of one row: only an unsynced one without a verdict starts anew. */
  predicate IsRevival(a: Row, b: Row) {
    && SameRecord(a, b) && b.syncedAt == a.syncedAt
    && (if a.syncedAt.None? && a.lastError == NoServerVerdict then b.retries == 0 && b.lastError == NoError
        else b.retries == a.retries && b.lastError == a.lastError)
  }

  /** The record is there, pending and fresh; a known one keeps its age. */
  ghost predicate IsFresh(before: seq<Row>, after: seq<Row>, id: SyncId, now: int) {
    exists r :: r in after && r.id == id && r.syncedAt == None && r.retries == 0 && r.lastError == NoError
                && if id in Ids(before) then exists a :: a in before && a.id == id && r.createdAt == a.createdAt else r.createdAt == now
  }

  // ── The table, updated in place ────────────────────────────────────────────

  class StationQueue {
    var rows: seq<Row>

    method EnqueueOn(id: SyncId, now: int)
      modifies this
      ensures rows == Enqueue(old(rows), id, now)
    {
      var i := 0;
      while i < |rows| && rows[i].id != id
        invariant 0 <= i <= |rows| && forall j | 0 <= j < i :: rows[j].id != id
      {
        i := i + 1;
      }
      assert i == Find(rows, id);
      if i < |rows| {
        rows := rows[i := rows[i].(syncedAt := None, retries := 0, lastError := NoError)];
      } else {
        rows := rows + [Row(id, now, None, 0, NoError)];
      }
    }

    /** The verdict loop of a batch that got an answer: one UPDATE per sent record, of
        which those in `done` succeed. */
    method WriteVerdicts(sent: seq<SyncId>, accepted: set<SyncId>, rejected: set<SyncId>, now: int, done: set<SyncId>)
      requires forall k, l | 0 <= k < l < |sent| :: sent[k] != sent[l]
      modifies this
      ensures rows == JudgeAll(old(rows), Written(sent, done), accepted, rejected, now)
      ensures |rows| == |old(rows)|
      ensures forall i | 0 <= i < |rows| ::
                IsVerdict(old(rows)[i], rows[i], old(rows)[i].id in sent && old(rows)[i].id in done, accepted, rejected, now)
    {
      var k := 0;
      assert JudgeAll(rows, Written(sent[..0], done), accepted, rejected, now) == rows;
      while k < |sent|
        invariant 0 <= k <= |sent|
        invariant rows == JudgeAll(old(rows), Written(sent[..k], done), accepted, rejected, now)
      {
        JudgeOneMore(old(rows), sent, k, accepted, rejected, now, done);
        if sent[k] in done {
          UpdateWhere(sent[k], accepted, rejected, now);
        }
        k := k + 1;
      }
      assert sent[..|sent|] == sent;
      VerdictsAre(old(rows), sent, accepted, rejected, now, done);
    }

    /** `UPDATE ... WHERE id = ?` */
    method UpdateWhere(id: SyncId, accepted: set<SyncId>, rejected: set<SyncId>, now: int)
      modifies this
      ensures rows == JudgeAll(old(rows), [id], accepted, rejected, now)
    {
      var i := 0;
      while i < |rows|
        invariant 0 <= i <= |rows| == |old(rows)|
        invariant forall j | 0 <= j < |rows| ::
                    rows[j] == if j < i && old(rows)[j].id == id then Judge(old(rows)[j], accepted, rejected, now) else old(rows)[j]
      {
        var row := rows[i];
        if row.id == id {
          if id in accepted {
            rows := rows[i := row.(syncedAt := Some(now))];
          } else if id in rejected {
            rows := rows[i := row.(retries := row.retries + 1, lastError := RejectedByServer)];
          } else {
            rows := rows[i := row.(retries := row.retries + 1, lastError := NoServerVerdict)];
          }
        }
        i := i + 1;
      }
    }

    method ReviveNoVerdict()
      modifies this
      ensures rows == Revive(old(rows))
      ensures |rows| == |old(rows)| && forall i | 0 <= i < |rows| :: IsRevival(old(rows)[i], rows[i])
    {
      var i := 0;
      while i < |rows|
        invariant 0 <= i <= |rows| == |old(rows)|
        invariant forall j | 0 <= j < |rows| :: rows[j] == if j < i then Revived(old(rows)[j]) else old(rows)[j]
      {
        var row := rows[i];
        if row.syncedAt.None? && row.lastError == NoServerVerdict {
          rows := rows[i := row.(retries := 0, lastError := NoError)];
        }
        i := i + 1;
      }
    }
  }

  lemma JudgeOneMore(rows: seq<Row>, sent: seq<SyncId>, k: nat, accepted: set<SyncId>, rejected: set<SyncId>, now: int, done: set<SyncId>)
    requires k < |sent| && forall i, j | 0 <= i < j < |sent| :: sent[i] != sent[j]
    ensures var before := JudgeAll(rows, Written(sent[..k], done), accepted, rejected, now);
            JudgeAll(rows, Written(sent[..k + 1], done), accepted, rejected, now)
            == if sent[k] in done then JudgeAll(before, [sent[k]], accepted, rejected, now) else before
  {
    assert sent[..k + 1][..k] == sent[..k];
    assert Written(sent[..k + 1], done) == Written(sent[..k], done) + (if sent[k] in done then [sent[k]] else []);
    WrittenAre(sent[..k], done);
    assert sent[k] !in Written(sent[..k], done);
    hide Judge; hide Written;
  }

  /** The verdict loop, field by field. */
  lemma VerdictsAre(rows: seq<Row>, sent: seq<SyncId>, accepted: set<SyncId>, rejected: set<SyncId>, now: int, done: set<SyncId>)
    ensures var after := JudgeAll(rows, Written(sent, done), accepted, rejected, now);
            && |after| == |rows|
            && forall i | 0 <= i < |rows| ::
                 IsVerdict(rows[i], after[i], rows[i].id in sent && rows[i].id in done, accepted, rejected, now)
  {
    WrittenAre(sent, done);
    hide Written;
  }

  lemma RevivalsAre(rows: seq<Row>)
    ensures |Revive(rows)| == |rows| && forall i | 0 <= i < |rows| :: IsRevival(rows[i], Revive(rows)[i])
  {}

  // ── No row is ever lost ────────────────────────────────────────────────────

  lemma JudgeKeepsIds(rows: seq<Row>, sent: seq<SyncId>, accepted: set<SyncId>, rejected: set<SyncId>, now: int)
    ensures Ids(JudgeAll(rows, sent, accepted, rejected, now)) == Ids(rows)
  {}

  lemma ReviveKeepsIds(rows: seq<Row>)
    ensures Ids(Revive(rows)) == Ids(rows)
  {}

  lemma EnqueueIds(rows: seq<Row>, id: SyncId, now: int)
    ensures Ids(Enqueue(rows, id, now)) == if id in Ids(rows) then Ids(rows) else Ids(rows) + [id]
    ensures Ids(EnqueueNew(rows, id, now)) == Ids(Enqueue(rows, id, now))
  {
    var i := Find(rows, id);
    if i < |rows| {
      assert Ids(rows)[i] == id;
    }
  }

  /** Enqueueing makes the record pending with all its retries and leaves every other row
      as it was; the gauge side does so only for records not known yet. */
  lemma EnqueuedIsPending(rows: seq<Row>, id: SyncId, now: int, maxRetries: nat)
    requires UniqueIds(rows) && maxRetries >= 1
    ensures IsFresh(rows, Enqueue(rows, id, now), id, now)
    ensures exists r :: r in Enqueue(rows, id, now) && r.id == id && Left(r, maxRetries) == maxRetries
    ensures forall r: Row | r.id != id :: r in Enqueue(rows, id, now) <==> r in rows
    ensures EnqueueNew(rows, id, now) == if id in Ids(rows) then rows else Enqueue(rows, id, now)
    ensures UniqueIds(Enqueue(rows, id, now))
  {
    var i, after := Find(rows, id), Enqueue(rows, id, now);
    assert after[i].id == id && after[i] in after;
    forall r: Row | r.id != id ensures r in after <==> r in rows {
      if r in rows {
        var j :| 0 <= j < |rows| && rows[j] == r;
        assert after[j] == r;
      }
    }
    if i < |rows| {
      assert Ids(rows)[i] == id && rows[i] in rows;
    } else {
      assert id !in Ids(rows);
    }
  }

  // ── Delivered records stay out ─────────────────────────────────────────────

  /** Anything that happens to the queue. */
  datatype Event = Ticked(tick: Tick) | Added(id: SyncId, now: int) | AddedNew(id: SyncId, now: int) | Restarted

  function AfterEvent(rows: seq<Row>, e: Event): seq<Row> {
    match e
    case Ticked(t) => AfterTick(rows, t)
    case Added(id, now) => Enqueue(rows, id, now)
    case AddedNew(id, now) => EnqueueNew(rows, id, now)
    case Restarted => Revive(rows)
  }

  function AfterEvents(rows: seq<Row>, events: seq<Event>): seq<Row>
    decreases |events|
  {
    if events == [] then rows else AfterEvents(AfterEvent(rows, events[0]), events[1..])
  }

  predicate IsSynced(rows: seq<Row>, id: SyncId) {
    id in Ids(rows) && forall i | 0 <= i < |rows| && rows[i].id == id :: rows[i].syncedAt.Some?
  }

  lemma StaysSynced(rows: seq<Row>, e: Event, id: SyncId)
    requires IsSynced(rows, id) && !(e.Added? && e.id == id)
    ensures IsSynced(AfterEvent(rows, e), id)
  {
    match e
    case Ticked(t) =>
      if t.Answered? {
        VerdictsAre(rows, Ids(t.batch), t.accepted, t.rejected, t.now, t.done);
        JudgeKeepsIds(rows, Written(Ids(t.batch), t.done), t.accepted, t.rejected, t.now);
      }
    case Added(other, now) => EnqueueIds(rows, other, now);
    case AddedNew(other, now) => EnqueueIds(rows, other, now);
    case Restarted =>
      RevivalsAre(rows);
      ReviveKeepsIds(rows);
  }

  /** A record marked synced is in no batch any more, whatever happens, until it is
      enqueued again. */
  lemma {:induction false} SyncedStaysOut(rows: seq<Row>, events: seq<Event>, id: SyncId, maxRetries: nat, limit: nat, batch: seq<Row>)
    requires IsSynced(rows, id) && forall i | 0 <= i < |events| :: !(events[i].Added? && events[i].id == id)
    requires IsBatch(AfterEvents(rows, events), maxRetries, limit, batch)
    ensures IsSynced(AfterEvents(rows, events), id) && forall k | 0 <= k < |batch| :: batch[k].id != id
    decreases |events|
  {
    hide AfterEvent;
    if events != [] {
      StaysSynced(rows, events[0], id);
      assert forall i | 0 <= i < |events[1..]| :: events[1..][i] == events[i + 1];
      SyncedStaysOut(AfterEvent(rows, events[0]), events[1..], id, maxRetries, limit, batch);
    }
  }

  /** And an accepted record whose verdict is written is marked so. */
  lemma AcceptedIsSynced(rows: seq<Row>, maxRetries: nat, limit: nat, batch: seq<Row>,
                         accepted: set<SyncId>, rejected: set<SyncId>, now: int, done: set<SyncId>, id: SyncId)
    requires IsBatch(rows, maxRetries, limit, batch) && id in Ids(batch) && id in accepted && id in done
    ensures IsSynced(AfterTick(rows, Answered(batch, accepted, rejected, now, done)), id)
  {
    VerdictsAre(rows, Ids(batch), accepted, rejected, now, done);
    JudgeKeepsIds(rows, Written(Ids(batch), done), accepted, rejected, now);
    var k :| 0 <= k < |batch| && Ids(batch)[k] == id;
    assert batch[k] in rows && batch[k].id == id;
    var i :| 0 <= i < |rows| && rows[i] == batch[k];
    assert Ids(rows)[i] == id;
    hide JudgeAll; hide Written; hide IsBatch;
  }

  // ── Retries run out ────────────────────────────────────────────────────────

  function Left(row: Row, maxRetries: nat): nat {
    if Pending(row, maxRetries) then maxRetries - row.retries else 0
  }

  /** Attempts the queue may still spend. */
  function Remaining(rows: seq<Row>, maxRetries: nat): nat {
    if rows == [] then 0 else Left(rows[0], maxRetries) + Remaining(rows[1..], maxRetries)
  }

  lemma {:induction false} RemainingMonotone(a: seq<Row>, b: seq<Row>, maxRetries: nat)
    requires |a| == |b| && forall i | 0 <= i < |a| :: Left(b[i], maxRetries) <= Left(a[i], maxRetries)
    ensures Remaining(b, maxRetries) <= Remaining(a, maxRetries)
    ensures (exists i | 0 <= i < |a| :: Left(b[i], maxRetries) < Left(a[i], maxRetries))
            ==> Remaining(b, maxRetries) < Remaining(a, maxRetries)
    decreases |a|
  {
    hide Left;
    if a != [] {
      assert forall i | 0 <= i < |a[1..]| :: a[1..][i] == a[i + 1] && b[1..][i] == b[i + 1];
      RemainingMonotone(a[1..], b[1..], maxRetries);
      if i :| 0 <= i < |a| && Left(b[i], maxRetries) < Left(a[i], maxRetries) && i > 0 {
        assert Left(b[1..][i - 1], maxRetries) < Left(a[1..][i - 1], maxRetries);
      }
    }
  }

  lemma JudgingSpends(row: Row, sent: seq<SyncId>, maxRetries: nat, accepted: set<SyncId>, rejected: set<SyncId>, now: int)
    ensures var after := JudgeSent(row, sent, accepted, rejected, now);
            && Left(after, maxRetries) <= Left(row, maxRetries)
            && (row.id in sent && Pending(row, maxRetries) ==> Left(after, maxRetries) < Left(row, maxRetries))
  {}

  /** Some verdict on the batch reaches the table. */
  ghost predicate Writes(batch: seq<Row>, done: set<SyncId>) { exists k | 0 <= k < |batch| :: batch[k].id in done }

  /** An answered batch spends attempts if and only if a verdict of it is written,
      whatever the verdicts; otherwise it changes no row. */
  lemma AnsweredBatchSpends(rows: seq<Row>, maxRetries: nat, limit: nat, batch: seq<Row>,
                            accepted: set<SyncId>, rejected: set<SyncId>, now: int, done: set<SyncId>)
    requires IsBatch(rows, maxRetries, limit, batch)
    ensures var after := JudgeAll(rows, Written(Ids(batch), done), accepted, rejected, now);
            && Remaining(after, maxRetries) <= Remaining(rows, maxRetries)
            && (Remaining(after, maxRetries) < Remaining(rows, maxRetries) <==> Writes(batch, done))
            && (!Writes(batch, done) ==> after == rows)
  {
    var sent := Written(Ids(batch), done);
    var after := JudgeAll(rows, sent, accepted, rejected, now);
    WrittenAre(Ids(batch), done);
    forall i | 0 <= i < |rows|
      ensures Left(after[i], maxRetries) <= Left(rows[i], maxRetries)
      ensures rows[i].id in sent && Pending(rows[i], maxRetries) ==> Left(after[i], maxRetries) < Left(rows[i], maxRetries)
    {
      JudgingSpends(rows[i], sent, maxRetries, accepted, rejected, now);
    }
    if k :| 0 <= k < |batch| && batch[k].id in done {
      var r := batch[k];
      assert Ids(batch)[k] == r.id && r in rows && Pending(r, maxRetries);
      var i :| 0 <= i < |rows| && rows[i] == r;
      assert Left(after[i], maxRetries) < Left(rows[i], maxRetries);
    } else {
      UnwrittenChangesNothing(rows, batch, accepted, rejected, now, done);
    }
    hide IsBatch; hide Remaining; hide JudgeAll; hide Left; hide Pending; hide Written;
    RemainingMonotone(rows, after, maxRetries);
  }

  lemma UnwrittenChangesNothing(rows: seq<Row>, batch: seq<Row>, accepted: set<SyncId>, rejected: set<SyncId>, now: int, done: set<SyncId>)
    requires !Writes(batch, done)
    ensures JudgeAll(rows, Written(Ids(batch), done), accepted, rejected, now) == rows
  {
    var sent := Written(Ids(batch), done);
    WrittenAre(Ids(batch), done);
    forall id ensures id !in sent {
      if id in Ids(batch) {
        var k :| 0 <= k < |batch| && Ids(batch)[k] == id;
        assert batch[k].id == id;
      }
    }
  }

  /** With room for at least one record, an empty batch means the queue is settled. */
  lemma EmptyBatchMeansSettled(rows: seq<Row>, maxRetries: nat, limit: nat, batch: seq<Row>)
    requires IsBatch(rows, maxRetries, limit, batch) && batch == [] && limit >= 1
    ensures forall r | r in rows :: r.syncedAt.Some? || r.retries >= maxRetries
  {
    forall r | r in rows ensures r.syncedAt.Some? || r.retries >= maxRetries {
      assert r !in batch;
    }
  }

  /** One tick of the worker: a failed call leaves the rows alone, and of an answered
      batch only the verdicts in `done` are written. */
  datatype Tick = Failed | Answered(batch: seq<Row>, accepted: set<SyncId>, rejected: set<SyncId>, now: int, done: set<SyncId>)

  ghost predicate TickOk(rows: seq<Row>, maxRetries: nat, limit: nat, t: Tick) {
    t.Answered? ==> IsBatch(rows, maxRetries, limit, t.batch)
  }

  function AfterTick(rows: seq<Row>, t: Tick): seq<Row> {
    match t
    case Failed => rows
    case Answered(batch, accepted, rejected, now, done) => JudgeAll(rows, Written(Ids(batch), done), accepted, rejected, now)
  }

  ghost predicate TicksOk(rows: seq<Row>, maxRetries: nat, limit: nat, ticks: seq<Tick>)
    decreases |ticks|
  {
    ticks == [] || (TickOk(rows, maxRetries, limit, ticks[0]) && TicksOk(AfterTick(rows, ticks[0]), maxRetries, limit, ticks[1..]))
  }

  function AfterTicks(rows: seq<Row>, ticks: seq<Tick>): seq<Row>
    decreases |ticks|
  {
    if ticks == [] then rows else AfterTicks(AfterTick(rows, ticks[0]), ticks[1..])
  }

  /** The answered batches of which at least one verdict was written. */
  ghost function GoodTicks(ticks: seq<Tick>): nat {
    if ticks == [] then 0
    else (if ticks[0].Answered? && Writes(ticks[0].batch, ticks[0].done) then 1 else 0) + GoodTicks(ticks[1..])
  }

  /** Without new records, only so many answered batches can have a verdict written,
      failures in between change nothing, and no row ever leaves the queue. */
  lemma {:induction false} QueueTerminates(rows: seq<Row>, maxRetries: nat, limit: nat, ticks: seq<Tick>)
    requires TicksOk(rows, maxRetries, limit, ticks)
    ensures GoodTicks(ticks) + Remaining(AfterTicks(rows, ticks), maxRetries) <= Remaining(rows, maxRetries)
    ensures Ids(AfterTicks(rows, ticks)) == Ids(rows)
    decreases |ticks|
  {
    hide IsBatch; hide JudgeAll; hide Ids; hide Remaining; hide Written; hide Writes;
    if ticks != [] {
      var t := ticks[0];
      QueueTerminates(AfterTick(rows, t), maxRetries, limit, ticks[1..]);
      if t.Answered? {
        JudgeKeepsIds(rows, Written(Ids(t.batch), t.done), t.accepted, t.rejected, t.now);
        AnsweredBatchSpends(rows, maxRetries, limit, t.batch, t.accepted, t.rejected, t.now, t.done);
      }
    }
  }

  /** After that many such batches the next one is empty and the queue is settled. */
  lemma SettlesAfterEnoughBatches(rows: seq<Row>, maxRetries: nat, limit: nat, ticks: seq<Tick>, batch: seq<Row>)
    requires TicksOk(rows, maxRetries, limit, ticks) && limit >= 1 && GoodTicks(ticks) >= Remaining(rows, maxRetries)
    requires IsBatch(AfterTicks(rows, ticks), maxRetries, limit, batch)
    ensures batch == [] && forall r | r in AfterTicks(rows, ticks) :: r.syncedAt.Some? || r.retries >= maxRetries
  {
    QueueTerminates(rows, maxRetries, limit, ticks);
    var last := AfterTicks(rows, ticks);
    if batch != [] {
      assert batch[0].id in {batch[0].id};
      assert Writes(batch, {batch[0].id});
      AnsweredBatchSpends(last, maxRetries, limit, batch, {}, {}, 0, {batch[0].id});
    }
    hide AfterTicks; hide Remaining;
    EmptyBatchMeansSettled(last, maxRetries, limit, batch);
  }
}
