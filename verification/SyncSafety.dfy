/** What deliveries guarantee over whole runs, whatever is lost, repeated or stopped. */
module SyncSafety {
  import opened StockSync
  import opened CatalogConvergence
  import opened SyncQueue
  import opened SyncService
  import opened SyncDelivery

  /** In every reachable state a row is marked synced only if the backend holds its
      processed mark, and only records from the queue were ever stored. */
  lemma SyncedIsProcessed(site: Site, states: seq<System>, steps: seq<Step>, i: nat)
    requires Run(site, states, steps) && i <= |steps|
    ensures forall r | r in states[i].rows && r.syncedAt.Some? :: Owned(states[i].db, site.station, r.id)
    ensures forall a | a in states[i].log :: a.id in Ids(states[i].rows)
  {
    InvAlways(site, states, steps, i);
  }

  /** The record a backend step works on. */
  function Subject(s: System, step: Step): SyncId
    requires step.ProcessNext? && Busy(s, step.task)
  {
    s.tasks[step.task].ids[s.tasks[step.task].next]
  }

  lemma StockChangesByStoring(site: Site, s: System, step: Step)
    requires Enabled(site, s, step) && Apply(site, s, step).db.stock != s.db.stock
    ensures step.ProcessNext? && Busy(s, step.task) && Stores(s.db, site.station, Subject(s, step), step.fallback)
  {
    hide Store; hide IsBatch; hide JudgeAll; hide Revive; hide Ids; hide Find;
  }

  lemma LogGrows(site: Site, states: seq<System>, steps: seq<Step>, i: nat, j: nat)
    requires Run(site, states, steps) && i <= j <= |steps|
    ensures states[i].log <= states[j].log
    decreases j
  {
    hide Stores; hide Store; hide IsBatch; hide JudgeAll; hide Revive; hide Ids; hide Find; hide Init; hide LookUp; hide Process;
    if i < j {
      LogGrows(site, states, steps, i, j - 1);
      assert states[j] == Apply(site, states[j - 1], steps[j - 1]);
    }
  }

  /** However often a record is delivered, at most one step of the whole run changes the
      stock on its account. */
  lemma StoredAtMostOnce(site: Site, states: seq<System>, steps: seq<Step>, i: nat, j: nat)
    requires Run(site, states, steps) && i < j < |steps|
    requires states[i + 1].db.stock != states[i].db.stock && states[j + 1].db.stock != states[j].db.stock
    ensures steps[i].ProcessNext? && Busy(states[i], steps[i].task)
    ensures steps[j].ProcessNext? && Busy(states[j], steps[j].task)
    ensures Subject(states[i], steps[i]) != Subject(states[j], steps[j])
  {
    StockChangesByStoring(site, states[i], steps[i]);
    StockChangesByStoring(site, states[j], steps[j]);
    LogGrows(site, states, steps, i + 1, j);
    InvAlways(site, states, steps, j + 1);
    StoringLogs(site, states[i], steps[i]);
    StoringLogs(site, states[j], steps[j]);
    hide Apply; hide Enabled; hide Init; hide Stores; hide TasksOk; hide StationOk; hide FromQueue;
    DistinctEntries(states[i].log, Applied(Subject(states[i], steps[i]), steps[i].fallback),
                    states[j].log, Applied(Subject(states[j], steps[j]), steps[j].fallback));
  }

  lemma StoringLogs(site: Site, s: System, step: Step)
    requires Enabled(site, s, step) && step.ProcessNext? && Busy(s, step.task)
    requires Stores(s.db, site.station, Subject(s, step), step.fallback)
    ensures Apply(site, s, step).log == s.log + [Applied(Subject(s, step), step.fallback)]
  {
    hide Stores; hide Process;
  }

  lemma DistinctEntries(before: seq<Applied>, x: Applied, later: seq<Applied>, y: Applied)
    requires before + [x] <= later
    requires forall j, k | 0 <= j < k < |later + [y]| :: (later + [y])[j].id != (later + [y])[k].id
    ensures x.id != y.id
  {
    var all := later + [y];
    assert all[|before|] == (before + [x])[|before|] && all[|later|] == y;
  }

  /** The stock is what the logged records, each stored once, make of an empty one. */
  lemma StockIsItsLog(site: Site, states: seq<System>, steps: seq<Step>, i: nat)
    requires Run(site, states, steps) && i <= |steps|
    ensures forall k | 0 <= k < |states[i].log| :: states[i].log[k].id.payload.Stock?
    ensures states[i].db.stock == Replay(EMPTY, Arrivals(states[i].log))
  {
    InvAlways(site, states, steps, i);
  }

  predicate HoldsCatalog(id: SyncId, c: Catalog) { id.payload == Payload.Stock(TankCatalog(c)) }

  /** No other well-formed catalog ever enqueued is as new as this one. */
  ghost predicate NewestOf(rows: seq<Row>, c: Catalog)
    requires WellFormed(c)
  {
    forall r, d | r in rows && HoldsCatalog(r.id, d) && WellFormed(d) && d != c :: At(d) < At(c)
  }

  /** From end to end: once the newest catalog the station ever enqueued is marked
      synced, the backend's active tanks show that catalog, field by field and no others,
      through every loss, repetition, crash and reordering on the way. */
  lemma NewestSyncedCatalogRules(site: Site, states: seq<System>, steps: seq<Step>, i: nat, row: Row, c: Catalog)
    requires Run(site, states, steps) && i <= |steps|
    requires row in states[i].rows && row.syncedAt.Some? && HoldsCatalog(row.id, c)
    requires WellFormed(c) && NewestOf(states[i].rows, c)
    ensures Shows(states[i].db.stock.tanks, c) && ActiveManaged(states[i].db.stock) == View(c)
  {
    var s := states[i];
    InvAlways(site, states, steps, i);
    var arrivals := Arrivals(s.log);
    ActiveTanksMirrorNewest(arrivals);
    assert Owned(s.db, site.station, row.id);
    assert InLog(s.log, row.id);
    LoggedIsSeen(s.log, row.id, c);
    var n := Newest(None, arrivals).value;
    if n != c {
      SeenIsEnqueued(s.rows, s.log, n);
    }
  }

  lemma LoggedIsSeen(log: seq<Applied>, id: SyncId, c: Catalog)
    requires forall k | 0 <= k < |log| :: log[k].id.payload.Stock?
    requires InLog(log, id) && HoldsCatalog(id, c) && WellFormed(c)
    ensures Seen(Arrivals(log), c)
  {
    hide WellFormed;
    var k :| 0 <= k < |log| && log[k].id == id;
    assert Arrivals(log)[k].record == TankCatalog(c);
  }

  lemma SeenIsEnqueued(rows: seq<Row>, log: seq<Applied>, n: Catalog)
    requires forall k | 0 <= k < |log| :: log[k].id.payload.Stock? && log[k].id in Ids(rows)
    requires Seen(Arrivals(log), n)
    ensures exists r :: r in rows && HoldsCatalog(r.id, n)
  {
    hide WellFormed;
    var k :| 0 <= k < |log| && Arrivals(log)[k].record == TankCatalog(n);
    var m :| 0 <= m < |rows| && Ids(rows)[m] == log[k].id;
    assert rows[m] in rows && HoldsCatalog(rows[m].id, n);
  }
}
