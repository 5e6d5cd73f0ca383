/** Station and backend running together: requests and answers get lost, arrive late or
    twice, either side stops anywhere, and several deliveries are processed at once. */
module SyncDelivery {
  import opened StockSync
  import opened CatalogConvergence
  import opened SyncQueue
  import opened SyncService

  // ── States ─────────────────────────────────────────────────────────────────

  /** One delivery inside the backend; `open` once the look-up sent record `next` on. */
  datatype Task = Task(ids: seq<SyncId>, next: nat, open: bool, accepted: set<SyncId>, rejected: set<SyncId>)

  datatype Phase =
    | Idle
    | Waiting(task: nat, ids: seq<SyncId>)
    | Writing(ids: seq<SyncId>, next: nat, accepted: set<SyncId>, rejected: set<SyncId>)

  /** A stock record the backend stored, with the nozzle look-up's answer. */
  datatype Applied = Applied(id: SyncId, fallback: string)

  /** `log` lists what the stock is made of; the backend itself keeps no such list. */
  datatype System = System(rows: seq<Row>, phase: Phase, tasks: seq<Task>, db: Db, log: seq<Applied>)

  datatype Site = Site(station: string, maxRetries: nat, batchSize: nat)

  datatype Step =
    | Enqueue(id: SyncId, now: int)
    | EnqueueNew(id: SyncId, now: int)
    | Send(batch: seq<Row>)
    | Redeliver(task: nat)
    | LookUpNext(task: nat)
    | ProcessNext(task: nat, fallback: string, handled: bool)
    | RefuseNext(task: nat)
    | OtherStation(id: SyncId, owner: string)
    | Reply
    | GarbledReply
    | GiveUp
    | WriteVerdict(now: int)
    | LoseWrite
    | EndOfBatch
    | Restart

  ghost predicate Init(site: Site, s: System) {
    && s.rows == [] && s.phase == Idle && s.tasks == [] && s.log == [] && s.db.stock == EMPTY
    && site.station != ""
    && forall id | id in s.db.processed ::
         s.db.processed[id] != "" && (s.db.processed[id] == site.station ==> IsHistory(id))
  }

  predicate Busy(s: System, task: nat) { task < |s.tasks| && s.tasks[task].next < |s.tasks[task].ids| }

  function Verdicted(t: Task, v: Verdict): Task
    requires t.next < |t.ids|
  {
    var id := t.ids[t.next];
    var t' := t.(next := t.next + 1, open := false);
    if v.Accepted? then t'.(accepted := t.accepted + {id}) else t'.(rejected := t.rejected + {id})
  }

  ghost predicate Enabled(site: Site, s: System, step: Step) {
    match step
    case Enqueue(_, _) => true
    case EnqueueNew(_, _) => true
    case Send(batch) => s.phase.Idle? && batch != [] && IsBatch(s.rows, site.maxRetries, site.batchSize, batch)
    case Redeliver(t) => t < |s.tasks|
    case LookUpNext(t) => Busy(s, t) && !s.tasks[t].open
    case ProcessNext(t, _, _) => Busy(s, t) && s.tasks[t].open
    case RefuseNext(t) => Busy(s, t)
    case OtherStation(id, owner) => id !in s.db.processed && owner != site.station && owner != ""
    case Reply => s.phase.Waiting? && s.phase.task < |s.tasks| && !Busy(s, s.phase.task)
    case GarbledReply => s.phase.Waiting?
    case GiveUp => true
    case WriteVerdict(_) => s.phase.Writing? && s.phase.next < |s.phase.ids|
    case LoseWrite => s.phase.Writing? && s.phase.next < |s.phase.ids|
    case EndOfBatch => s.phase.Writing? && s.phase.next == |s.phase.ids|
    case Restart => true
  }

  /** A backend that stops shows as a task that takes no more steps; a lost request as
      one that takes none; a lost answer as `GiveUp` while its task runs on. */
  ghost function Apply(site: Site, s: System, step: Step): System
    requires Enabled(site, s, step)
  {
    match step
    case Enqueue(id, now) => s.(rows := SyncQueue.Enqueue(s.rows, id, now))
    case EnqueueNew(id, now) => s.(rows := SyncQueue.EnqueueNew(s.rows, id, now))
    case Send(batch) =>
      s.(phase := Waiting(|s.tasks|, Ids(batch)), tasks := s.tasks + [Task(Ids(batch), 0, false, {}, {})])
    case Redeliver(t) => s.(tasks := s.tasks + [Task(s.tasks[t].ids, 0, false, {}, {})])
    case LookUpNext(t) =>
      var task := s.tasks[t];
      var known := LookUp(s.db, site.station, task.ids[task.next]);
      s.(tasks := s.tasks[t := if known.Some? then Verdicted(task, known.value) else task.(open := true)])
    case ProcessNext(t, fallback, handled) =>
      var task := s.tasks[t];
      var id := task.ids[task.next];
      var (db, verdict) := Process(s.db, site.station, id, fallback, handled);
      s.(db := db, tasks := s.tasks[t := Verdicted(task, verdict)],
         log := if Stores(s.db, site.station, id, fallback) then s.log + [Applied(id, fallback)] else s.log)
    case RefuseNext(t) => s.(tasks := s.tasks[t := Verdicted(s.tasks[t], Rejected)])
    case OtherStation(id, owner) => s.(db := s.db.(processed := s.db.processed[id := owner]))
    case Reply => s.(phase := Writing(s.phase.ids, 0, s.tasks[s.phase.task].accepted, s.tasks[s.phase.task].rejected))
    case GarbledReply => s.(phase := Writing(s.phase.ids, 0, {}, {}))
    case GiveUp => s.(phase := Idle)
    case WriteVerdict(now) =>
      s.(rows := JudgeAll(s.rows, [s.phase.ids[s.phase.next]], s.phase.accepted, s.phase.rejected, now),
         phase := s.phase.(next := s.phase.next + 1))
    case LoseWrite => s.(phase := s.phase.(next := s.phase.next + 1))
    case EndOfBatch => s.(phase := Idle)
    case Restart => s.(phase := Idle, rows := Revive(s.rows))
  }

  /** Whether processing the record commits a change of the stock. */
  predicate Stores(db: Db, station: string, id: SyncId, fallback: string) {
    && id.payload.Stock?
    && (id !in db.processed || (db.processed[id] == station && IsHistory(id) && !Stored(db.stock, id)))
    && Store(db.stock, id.payload.record, fallback).Some?
  }

  ghost predicate Run(site: Site, states: seq<System>, steps: seq<Step>) {
    && |states| == |steps| + 1 && Init(site, states[0])
    && forall i | 0 <= i < |steps| :: Enabled(site, states[i], steps[i]) && states[i + 1] == Apply(site, states[i], steps[i])
  }

  // ── What always holds ──────────────────────────────────────────────────────

  predicate Owned(db: Db, station: string, id: SyncId) { id in db.processed && db.processed[id] == station }

  function Arrivals(log: seq<Applied>): (r: seq<Arrival>)
    requires forall i | 0 <= i < |log| :: log[i].id.payload.Stock?
    ensures |r| == |log|
  {
    seq(|log|, i requires 0 <= i < |log| => Arrival(log[i].id.payload.record, log[i].fallback))
  }

  ghost predicate LogOk(site: Site, db: Db, log: seq<Applied>) {
    && (forall i | 0 <= i < |log| :: log[i].id.payload.Stock? && Owned(db, site.station, log[i].id))
    && (forall i | 0 <= i < |log| :: IsHistory(log[i].id) ==> Stored(db.stock, log[i].id))
    && (forall i, j | 0 <= i < j < |log| :: log[i].id != log[j].id)
    && db.stock == Replay(EMPTY, Arrivals(log))
    && (forall id | Owned(db, site.station, id) && id.payload.Stock? && !IsHistory(id) :: InLog(log, id))
    && (forall id | id in db.processed :: db.processed[id] != "")
  }

  ghost predicate InLog(log: seq<Applied>, id: SyncId) { exists i | 0 <= i < |log| :: log[i].id == id }

  ghost predicate TasksOk(site: Site, db: Db, tasks: seq<Task>) {
    forall t | 0 <= t < |tasks| :: AllOwned(db, site.station, tasks[t].accepted)
  }

  ghost predicate AllOwned(db: Db, station: string, ids: set<SyncId>) {
    forall id | id in ids :: Owned(db, station, id)
  }

  ghost predicate StationOk(site: Site, db: Db, rows: seq<Row>, phase: Phase) {
    && (forall i | 0 <= i < |rows| && rows[i].syncedAt.Some? :: Owned(db, site.station, rows[i].id))
    && (phase.Writing? ==> AllOwned(db, site.station, phase.accepted))
  }

  /** Everything on its way was once enqueued. */
  ghost predicate FromQueue(rows: seq<Row>, tasks: seq<Task>, log: seq<Applied>) {
    && (forall t, k | 0 <= t < |tasks| && 0 <= k < |tasks[t].ids| :: tasks[t].ids[k] in Ids(rows))
    && (forall i | 0 <= i < |log| :: log[i].id in Ids(rows))
  }

  ghost predicate Inv(site: Site, s: System) {
    && LogOk(site, s.db, s.log) && TasksOk(site, s.db, s.tasks)
    && StationOk(site, s.db, s.rows, s.phase) && FromQueue(s.rows, s.tasks, s.log)
  }

  // ── Steps keep it ──────────────────────────────────────────────────────────

  /** Nothing takes a processed mark of the station away. */
  ghost predicate Keeps(station: string, db: Db, db': Db) {
    forall id | Owned(db, station, id) :: Owned(db', station, id)
  }

  lemma ProcessKeeps(db: Db, station: string, id: SyncId, fallback: string, handled: bool)
    ensures var (db', verdict) := Process(db, station, id, fallback, handled);
            && Keeps(station, db, db')
            && ((forall k | k in db.processed :: db.processed[k] != "") && verdict.Accepted? ==> Owned(db', station, id))
  {
    hide Store; hide Stored;
  }

  lemma {:induction false} ReplaySnoc(s: Stock, arrivals: seq<Arrival>, last: Arrival)
    requires Store(Replay(s, arrivals), last.record, last.fallback).Some?
    ensures Replay(s, arrivals + [last]) == Store(Replay(s, arrivals), last.record, last.fallback).value
    decreases |arrivals|
  {
    hide Store;
    var all := arrivals + [last];
    if arrivals == [] {
      assert all[1..] == [];
    } else {
      assert all[0] == arrivals[0] && all[1..] == arrivals[1..] + [last];
      var r := Store(s, arrivals[0].record, arrivals[0].fallback);
      ReplaySnoc(if r.Some? then r.value else s, arrivals[1..], last);
    }
  }

  lemma InLogSnoc(log: seq<Applied>, last: Applied, id: SyncId)
    ensures InLog(log + [last], id) <==> InLog(log, id) || id == last.id
  {
    var all := log + [last];
    if InLog(log, id) {
      var i :| 0 <= i < |log| && log[i].id == id;
      assert all[i].id == id;
    }
    assert all[|log|] == last;
  }

  lemma StoredIsNew(site: Site, db: Db, log: seq<Applied>, id: SyncId, fallback: string)
    requires LogOk(site, db, log) && Stores(db, site.station, id, fallback)
    ensures forall i | 0 <= i < |log| :: log[i].id != id
  {
    hide Store; hide Replay; hide InLog;
    forall i | 0 <= i < |log| ensures log[i].id != id {
      assert IsHistory(log[i].id) ==> Stored(db.stock, log[i].id);
    }
  }

  lemma StoringReplays(db: Db, log: seq<Applied>, id: SyncId, fallback: string)
    requires forall i | 0 <= i < |log| :: log[i].id.payload.Stock?
    requires id.payload.Stock? && db.stock == Replay(EMPTY, Arrivals(log)) && Store(db.stock, id.payload.record, fallback).Some?
    ensures Store(db.stock, id.payload.record, fallback).value == Replay(EMPTY, Arrivals(log + [Applied(id, fallback)]))
  {
    var last := Arrival(id.payload.record, fallback);
    ReplaySnoc(EMPTY, Arrivals(log), last);
    hide Store; hide Replay;
    assert Arrivals(log + [Applied(id, fallback)]) == Arrivals(log) + [last];
  }

  /** Storing a record extends the log by an id it did not hold. */
  lemma StoringExtendsLog(site: Site, db: Db, log: seq<Applied>, id: SyncId, fallback: string)
    requires LogOk(site, db, log) && Stores(db, site.station, id, fallback) && site.station != ""
    ensures var db' := Db(db.processed[id := site.station], Store(db.stock, id.payload.record, fallback).value);
            LogOk(site, db', log + [Applied(id, fallback)])
  {
    var last := Applied(id, fallback);
    var db' := Db(db.processed[id := site.station], Store(db.stock, id.payload.record, fallback).value);
    StoredIsNew(site, db, log, id, fallback);
    StoringReplays(db, log, id, fallback);
    HistoryStays(db.stock, id.payload.record, fallback);
    hide Store; hide Replay; hide InLog;
    forall k | Owned(db', site.station, k) && k.payload.Stock? && !IsHistory(k) ensures InLog(log + [last], k) {
      InLogSnoc(log, last, k);
    }
  }

  lemma LogStep(site: Site, s: System, step: Step)
    requires LogOk(site, s.db, s.log) && Enabled(site, s, step) && site.station != ""
    ensures LogOk(site, Apply(site, s, step).db, Apply(site, s, step).log)
    ensures Keeps(site.station, s.db, Apply(site, s, step).db)
  {
    hide Store; hide Replay; hide IsBatch; hide InLog; hide JudgeAll; hide Revive; hide Ids; hide Find; hide LookUp; hide SyncQueue.Enqueue; hide SyncQueue.EnqueueNew;
    if step.ProcessNext? {
      var id := s.tasks[step.task].ids[s.tasks[step.task].next];
      ProcessKeeps(s.db, site.station, id, step.fallback, step.handled);
      if Stores(s.db, site.station, id, step.fallback) {
        StoringExtendsLog(site, s.db, s.log, id, step.fallback);
      }
    }
  }

  lemma TasksStep(site: Site, s: System, step: Step)
    requires TasksOk(site, s.db, s.tasks) && Enabled(site, s, step)
    requires forall k | k in s.db.processed :: s.db.processed[k] != ""
    ensures TasksOk(site, Apply(site, s, step).db, Apply(site, s, step).tasks)
  {
    hide Stores; hide IsBatch; hide JudgeAll; hide Revive; hide Ids; hide Find;
    if step.ProcessNext? {
      var id := s.tasks[step.task].ids[s.tasks[step.task].next];
      ProcessKeeps(s.db, site.station, id, step.fallback, step.handled);
      hide Process;
    } else if step.LookUpNext? {
      var id := s.tasks[step.task].ids[s.tasks[step.task].next];
      assert LookUp(s.db, site.station, id) == Some(Accepted) ==> Owned(s.db, site.station, id);
      hide LookUp;
    }
  }

  lemma StationStep(site: Site, s: System, step: Step)
    requires StationOk(site, s.db, s.rows, s.phase) && TasksOk(site, s.db, s.tasks) && Enabled(site, s, step)
    ensures StationOk(site, Apply(site, s, step).db, Apply(site, s, step).rows, Apply(site, s, step).phase)
  {
    hide Stores; hide IsBatch; hide LookUp;
    if step.ProcessNext? {
      var id := s.tasks[step.task].ids[s.tasks[step.task].next];
      ProcessKeeps(s.db, site.station, id, step.fallback, step.handled);
    }
    hide Process;
  }

  lemma FromQueueStep(site: Site, s: System, step: Step)
    requires FromQueue(s.rows, s.tasks, s.log) && Enabled(site, s, step)
    ensures FromQueue(Apply(site, s, step).rows, Apply(site, s, step).tasks, Apply(site, s, step).log)
  {
    var s' := Apply(site, s, step);
    IdsGrow(site, s, step);
    if step.Send? {
      BatchFromRows(s.rows, site.maxRetries, site.batchSize, step.batch);
    }
    hide Stores; hide IsBatch; hide LookUp; hide Process; hide JudgeAll; hide Revive; hide Ids; hide Find; hide SyncQueue.Enqueue; hide SyncQueue.EnqueueNew;
  }

  lemma IdsGrow(site: Site, s: System, step: Step)
    requires Enabled(site, s, step)
    ensures forall id | id in Ids(s.rows) :: id in Ids(Apply(site, s, step).rows)
  {
    match step
    case Enqueue(id, now) => EnqueueIds(s.rows, id, now);
    case EnqueueNew(id, now) => EnqueueIds(s.rows, id, now);
    case WriteVerdict(now) => JudgeKeepsIds(s.rows, [s.phase.ids[s.phase.next]], s.phase.accepted, s.phase.rejected, now);
    case Restart => ReviveKeepsIds(s.rows);
    case _ =>
  }

  lemma BatchFromRows(rows: seq<Row>, maxRetries: nat, limit: nat, batch: seq<Row>)
    requires IsBatch(rows, maxRetries, limit, batch)
    ensures forall k | 0 <= k < |batch| :: Ids(batch)[k] in Ids(rows)
  {
    forall k | 0 <= k < |batch| ensures Ids(batch)[k] in Ids(rows) {
      assert batch[k] in rows;
      var i :| 0 <= i < |rows| && rows[i] == batch[k];
      assert Ids(rows)[i] == batch[k].id;
    }
  }

  lemma InvStep(site: Site, s: System, step: Step)
    requires Inv(site, s) && Enabled(site, s, step) && site.station != ""
    ensures Inv(site, Apply(site, s, step))
  {
    LogStep(site, s, step);
    TasksStep(site, s, step);
    StationStep(site, s, step);
    FromQueueStep(site, s, step);
    hide Apply; hide TasksOk; hide StationOk; hide FromQueue; hide LogOk;
  }

  lemma {:induction false} InvAlways(site: Site, states: seq<System>, steps: seq<Step>, i: nat)
    requires Run(site, states, steps) && i <= |steps|
    ensures Inv(site, states[i])
    decreases i
  {
    hide Apply; hide Enabled;
    if i > 0 {
      InvAlways(site, states, steps, i - 1);
      hide Inv;
      InvStep(site, states[i - 1], steps[i - 1]);
    }
  }

  // ── A delivery that runs alone ─────────────────────────────────────────────

  /** The steps in which task `t` answers its next record. */
  ghost function Served(site: Site, s: System, t: nat, w: Weather): System
    requires Busy(s, t) && !s.tasks[t].open
  {
    if w.refused then Apply(site, s, RefuseNext(t))
    else
      var looked := Apply(site, s, LookUpNext(t));
      if looked.tasks[t].open then Apply(site, looked, ProcessNext(t, w.fallback, w.handled)) else looked
  }

  /** What they do: the tables and the verdict are those of the batch loop's body. */
  lemma ServedIs(site: Site, s: System, t: nat, w: Weather)
    requires Busy(s, t) && !s.tasks[t].open
    ensures var (s', task, task') := (Served(site, s, t, w), s.tasks[t], Served(site, s, t, w).tasks);
            var (id, answer) := (task.ids[task.next], Answer(s.db, site.station, task.ids[task.next], w));
            && s'.db == answer.0 && s'.rows == s.rows && s'.phase == s.phase
            && |task'| == |s.tasks| && task'[t].ids == task.ids && task'[t].next == task.next + 1 && !task'[t].open
            && task'[t].accepted == (if answer.1.Accepted? then task.accepted + {id} else task.accepted)
            && task'[t].rejected == (if answer.1.Accepted? then task.rejected else task.rejected + {id})
            && forall u | 0 <= u < |s.tasks| && u != t :: task'[u] == s.tasks[u]
  {
    hide LookUp; hide Process; hide Stores;
  }

  ghost function ServedAll(site: Site, s: System, t: nat, ws: seq<Weather>): System
    requires t < |s.tasks| && !s.tasks[t].open && s.tasks[t].next + |ws| <= |s.tasks[t].ids|
    decreases |ws|
  {
    if ws == [] then s
    else
      ServedIs(site, s, t, ws[0]);
      ServedAll(site, Served(site, s, t, ws[0]), t, ws[1..])
  }

  ghost predicate Collected(s: System, t: nat, db: Db, accepted: set<SyncId>, rejected: set<SyncId>) {
    t < |s.tasks| && s.db == db && s.tasks[t].accepted == accepted && s.tasks[t].rejected == rejected
  }

  lemma {:induction false} ServedOneMore(site: Site, s: System, t: nat, ws: seq<Weather>, w: Weather)
    requires t < |s.tasks| && !s.tasks[t].open && s.tasks[t].next + |ws| < |s.tasks[t].ids|
    ensures var before := ServedAll(site, s, t, ws);
            && t < |before.tasks| && before.tasks[t].ids == s.tasks[t].ids && before.tasks[t].next == s.tasks[t].next + |ws|
            && !before.tasks[t].open && ServedAll(site, s, t, ws + [w]) == Served(site, before, t, w)
    decreases |ws|
  {
    hide Served;
    if ws == [] {
      assert [w][1..] == [] && ws + [w] == [w];
      ServedIs(site, s, t, w);
    } else {
      ServedIs(site, s, t, ws[0]);
      assert (ws + [w])[1..] == ws[1..] + [w] && (ws + [w])[0] == ws[0];
      ServedOneMore(site, Served(site, s, t, ws[0]), t, ws[1..], w);
    }
  }

  lemma ServedCollects(site: Site, s: System, t: nat, w: Weather, db: Db, accepted: set<SyncId>, rejected: set<SyncId>)
    requires Busy(s, t) && !s.tasks[t].open && Collected(s, t, db, accepted, rejected)
    ensures var id := s.tasks[t].ids[s.tasks[t].next];
            var (after, verdict) := Answer(db, site.station, id, w);
            Collected(Served(site, s, t, w), t, after,
                      accepted + (if verdict.Accepted? then {id} else {}), rejected + (if verdict.Accepted? then {} else {id}))
  {
    ServedIs(site, s, t, w);
    hide Served; hide Answer;
  }

  /** A delivery whose steps no other step comes between does what the batch loop does:
      the same tables, and the same records accepted and rejected. */
  lemma {:induction false} AloneIsBatch(site: Site, s: System, t: nat, ws: seq<Weather>)
    requires t < |s.tasks| && s.tasks[t] == Task(s.tasks[t].ids, 0, false, {}, {}) && |ws| <= |s.tasks[t].ids|
    ensures var (db, accepted, rejected) := Batch(s.db, site.station, s.tasks[t].ids[..|ws|], ws);
            Collected(ServedAll(site, s, t, ws), t, db, set id | id in accepted, set id | id in rejected)
    decreases |ws|
  {
    if ws != [] {
      var last := |ws| - 1;
      var front, ids := ws[..last], s.tasks[t].ids;
      AloneIsBatch(site, s, t, front);
      ServedOneMore(site, s, t, front, ws[last]);
      var before := ServedAll(site, s, t, front);
      var (db, accepted, rejected) := Batch(s.db, site.station, ids[..last], front);
      assert Busy(before, t);
      hide *;
      assert ws == front + [ws[last]] && ids[..|ws|] == ids[..last] + [ids[last]];
      BatchOneMore(s.db, site.station, ids[..last], ids[last], front, ws[last]);
      ServedCollects(site, before, t, ws[last], db, set id | id in accepted, set id | id in rejected);
    }
  }

  lemma BatchOneMore(db: Db, station: string, ids: seq<SyncId>, id: SyncId, ws: seq<Weather>, w: Weather)
    requires |ws| == |ids|
    ensures var (before, accepted, rejected) := Batch(db, station, ids, ws);
            var (after, verdict) := Answer(before, station, id, w);
            var all := Batch(db, station, ids + [id], ws + [w]);
            && all.0 == after
            && (set x | x in all.1) == (set x | x in accepted) + (if verdict.Accepted? then {id} else {})
            && (set x | x in all.2) == (set x | x in rejected) + (if verdict.Accepted? then {} else {id})
  {
    hide Answer;
    assert (ids + [id])[..|ids|] == ids && (ws + [w])[..|ws|] == ws;
  }

  /** The station's writes for the next `n` records, of which those in `done` succeed. */
  ghost function Wrote(site: Site, s: System, n: nat, done: set<SyncId>, now: int): (s': System)
    requires s.phase.Writing? && s.phase.next + n <= |s.phase.ids|
    ensures s'.phase == s.phase.(next := s.phase.next + n)
    decreases n
  {
    if n == 0 then s
    else
      var before := Wrote(site, s, n - 1, done, now);
      Apply(site, before, if s.phase.ids[s.phase.next + n - 1] in done then WriteVerdict(now) else LoseWrite)
  }

  lemma WroteStep(site: Site, s: System, n: nat, done: set<SyncId>, now: int)
    requires s.phase.Writing? && s.phase.next == 0 && n < |s.phase.ids|
    ensures var (before, id) := (Wrote(site, s, n, done, now), s.phase.ids[n]);
            Wrote(site, s, n + 1, done, now).rows
            == if id in done then JudgeAll(before.rows, [id], s.phase.accepted, s.phase.rejected, now) else before.rows
  {
    hide JudgeAll;
  }

  /** They leave the rows that the verdict loop leaves. */
  lemma {:induction false} WritesAreVerdicts(site: Site, s: System, n: nat, done: set<SyncId>, now: int)
    requires s.phase.Writing? && s.phase.next == 0 && n <= |s.phase.ids|
    requires forall i, j | 0 <= i < j < |s.phase.ids| :: s.phase.ids[i] != s.phase.ids[j]
    ensures Wrote(site, s, n, done, now).rows
         == JudgeAll(s.rows, Written(s.phase.ids[..n], done), s.phase.accepted, s.phase.rejected, now)
    decreases n
  {
    var ids := s.phase.ids;
    if n == 0 {
      assert ids[..0] == [];
      assert JudgeAll(s.rows, [], s.phase.accepted, s.phase.rejected, now) == s.rows;
    } else {
      WritesAreVerdicts(site, s, n - 1, done, now);
      JudgeOneMore(s.rows, ids, n - 1, s.phase.accepted, s.phase.rejected, now, done);
      WroteStep(site, s, n - 1, done, now);
      hide *;
    }
  }
}
