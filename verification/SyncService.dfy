/** How the backend answers a batch of sync records of one station. */
module SyncService {
  import opened StockSync
  import opened SyncQueue

  /** What the backend remembers: who each processed record came from, and one
      station's stock. */
  datatype Db = Db(processed: map<SyncId, string>, stock: Stock)

  datatype Verdict = Accepted | Rejected

  predicate IsHistory(id: SyncId) { id.payload.Stock? && id.payload.record.StockHistory? }

  /** The look-up before any work: `None` when the record still has to be processed.
      History is always processed, since older servers acknowledged it unstored. */
  function LookUp(db: Db, station: string, id: SyncId): Option<Verdict> {
    if id.payload.Unsupported? then Some(Rejected)
    else if id in db.processed && !IsHistory(id) then
      Some(if db.processed[id] == "" || db.processed[id] == station then Accepted else Rejected)
    else None
  }

  predicate Stored(s: Stock, id: SyncId)
    requires IsHistory(id)
  {
    var h := id.payload.record.history;
    h.sourceId.Some? && (h.kind, h.sourceId.value) in s.history
  }

  /** One record's processing: a transaction for stock records; for the others the
      handler, which `handled` says returned, and then the mark. */
  function Process(db: Db, station: string, id: SyncId, fallback: string, handled: bool): (Db, Verdict) {
    match id.payload
    case Stock(record) =>
      if id in db.processed && db.processed[id] != station then (db, Rejected)
      else if id in db.processed && (!IsHistory(id) || Stored(db.stock, id)) then (db, Accepted)
      else
        (match Store(db.stock, record, fallback)
         case None => (db, Rejected)
         case Some(s) => (Db(db.processed[id := station], s), Accepted))
    case Business(_, _) =>
      if !handled || id in db.processed then (db, Rejected)
      else (db.(processed := db.processed[id := station]), Accepted)
    case Unsupported(_, _) => (db, Rejected)
  }

  /** What one record meets: the nozzle look-up's answer, whether its handler returns,
      and whether the database refuses a call (a lost connection, a conflict). */
  datatype Weather = Weather(fallback: string, handled: bool, refused: bool)

  function Answer(db: Db, station: string, id: SyncId, w: Weather): (Db, Verdict) {
    var known := LookUp(db, station, id);
    if w.refused then (db, Rejected)
    else if known.Some? then (db, known.value)
    else Process(db, station, id, w.fallback, w.handled)
  }

  /** The state and the two lists after a whole batch. */
  function Batch(db: Db, station: string, ids: seq<SyncId>, ws: seq<Weather>): (Db, seq<SyncId>, seq<SyncId>)
    requires |ws| == |ids|
    decreases |ids|
  {
    if ids == [] then (db, [], [])
    else
      var last := |ids| - 1;
      var (before, accepted, rejected) := Batch(db, station, ids[..last], ws[..last]);
      var (after, verdict) := Answer(before, station, ids[last], ws[last]);
      if verdict.Accepted? then (after, accepted + [ids[last]], rejected) else (after, accepted, rejected + [ids[last]])
  }

  /** The backend's tables while a batch is processed alone. */
  class Backend {
    var processed: map<SyncId, string>
    var stock: Stock

    ghost function Tables(): Db
      reads this
    {
      Db(processed, stock)
    }

    method ProcessBatch(station: string, ids: seq<SyncId>, ws: seq<Weather>) returns (accepted: seq<SyncId>, rejected: seq<SyncId>)
      requires |ws| == |ids|
      modifies this
      ensures (Tables(), accepted, rejected) == Batch(old(Tables()), station, ids, ws)
    {
      hide LookUp; hide Answer;
      accepted, rejected := [], [];
      var i := 0;
      while i < |ids|
        invariant 0 <= i <= |ids|
        invariant (Tables(), accepted, rejected) == Batch(old(Tables()), station, ids[..i], ws[..i])
      {
        assert ids[..i + 1][..i] == ids[..i] && ws[..i + 1][..i] == ws[..i];
        var ok := ProcessRecord(station, ids[i], ws[i]);
        if ok {
          accepted := accepted + [ids[i]];
        } else {
          rejected := rejected + [ids[i]];
        }
        i := i + 1;
      }
      assert ids[..i] == ids && ws[..i] == ws;
    }

    /** The body of the loop; every throw ends in a rejection with the tables as before. */
    method ProcessRecord(station: string, id: SyncId, w: Weather) returns (ok: bool)
      modifies this
      ensures (Tables(), if ok then Accepted else Rejected) == Answer(old(Tables()), station, id, w)
    {
      hide Store;
      if id.payload.Unsupported? || w.refused {
        return false;
      }
      if id in processed && !IsHistory(id) {
        return processed[id] == "" || processed[id] == station;
      }
      match id.payload
      case Stock(record) =>
        if id in processed {
          if processed[id] != station {
            return false;
          }
          if Stored(stock, id) {
            return true;
          }
        }
        match Store(stock, record, w.fallback) {
          case None => return false;
          case Some(s) =>
            processed, stock := processed[id := station], s;
            return true;
        }
      case Business(_, _) =>
        if !w.handled {
          return false;
        }
        processed := processed[id := station];
        return true;
    }
  }

  // ── Every record gets exactly one verdict ──────────────────────────────────

  lemma {:induction false} EveryRecordAnswered(db: Db, station: string, ids: seq<SyncId>, ws: seq<Weather>)
    requires |ws| == |ids|
    ensures var (after, accepted, rejected) := Batch(db, station, ids, ws);
            multiset(accepted) + multiset(rejected) == multiset(ids)
    decreases |ids|
  {
    hide Answer;
    if ids != [] {
      var last := |ids| - 1;
      EveryRecordAnswered(db, station, ids[..last], ws[..last]);
      assert ids == ids[..last] + [ids[last]];
    }
  }

  // ── Resending is harmless ──────────────────────────────────────────────────

  /** The record is done with: any further delivery is acknowledged and has no effect. */
  predicate Done(db: Db, station: string, id: SyncId) {
    && !id.payload.Unsupported? && id in db.processed
    && (db.processed[id] == station || (db.processed[id] == "" && !IsHistory(id)))
    && (IsHistory(id) ==> Stored(db.stock, id))
  }

  lemma DoneIsIdle(db: Db, station: string, id: SyncId, w: Weather)
    requires Done(db, station, id)
    ensures Answer(db, station, id, w).0 == db
    ensures !w.refused ==> Answer(db, station, id, w).1 == Accepted
  {
    hide Store;
  }

  /** Stock history is never removed, and a stored history record is there. */
  lemma HistoryStays(s: Stock, r: Record, fallback: string)
    requires Store(s, r, fallback).Some?
    ensures s.history.Keys <= Store(s, r, fallback).value.history.Keys
    ensures r.StockHistory? ==>
              && r.history.sourceId.Some?
              && (r.history.kind, r.history.sourceId.value) in Store(s, r, fallback).value.history
  {
    hide IsText; hide IsProduct; hide IsDate; hide Upsert; hide Retire; hide AtMost;
  }

  lemma AcceptedIsDone(db: Db, station: string, id: SyncId, w: Weather)
    ensures Answer(db, station, id, w).1 == Accepted ==> Done(Answer(db, station, id, w).0, station, id)
  {
    if id.payload.Stock? {
      var stored := Store(db.stock, id.payload.record, w.fallback);
      if stored.Some? {
        HistoryStays(db.stock, id.payload.record, w.fallback);
      }
    }
    hide Store;
  }

  lemma DoneStaysDone(db: Db, station: string, id: SyncId, other: SyncId, w: Weather)
    requires Done(db, station, id)
    ensures Done(Answer(db, station, other, w).0, station, id)
  {
    if other.payload.Stock? && Store(db.stock, other.payload.record, w.fallback).Some? {
      HistoryStays(db.stock, other.payload.record, w.fallback);
    }
    hide Store;
  }

  lemma {:induction false} BatchKeepsDone(db: Db, station: string, ids: seq<SyncId>, ws: seq<Weather>, id: SyncId)
    requires |ws| == |ids|
    requires Done(db, station, id)
    ensures Done(Batch(db, station, ids, ws).0, station, id)
    decreases |ids|
  {
    hide Answer; hide Done;
    if ids != [] {
      var last := |ids| - 1;
      BatchKeepsDone(db, station, ids[..last], ws[..last], id);
      DoneStaysDone(Batch(db, station, ids[..last], ws[..last]).0, station, id, ids[last], ws[last]);
    }
  }

  lemma {:induction false} BatchAcceptedAreDone(db: Db, station: string, ids: seq<SyncId>, ws: seq<Weather>, id: SyncId)
    requires |ws| == |ids|
    requires id in Batch(db, station, ids, ws).1
    ensures Done(Batch(db, station, ids, ws).0, station, id)
    decreases |ids|
  {
    hide Answer; hide Done;
    if ids != [] {
      var last := |ids| - 1;
      var (before, accepted, rejected) := Batch(db, station, ids[..last], ws[..last]);
      AcceptedIsDone(before, station, ids[last], ws[last]);
      if id in accepted {
        BatchAcceptedAreDone(db, station, ids[..last], ws[..last], id);
        DoneStaysDone(before, station, id, ids[last], ws[last]);
      }
    }
  }

  lemma {:induction false} DoneBatchIsIdle(db: Db, station: string, ids: seq<SyncId>, ws: seq<Weather>)
    requires |ws| == |ids|
    requires forall i | 0 <= i < |ids| :: Done(db, station, ids[i])
    ensures Batch(db, station, ids, ws).0 == db
    ensures (forall i | 0 <= i < |ws| :: !ws[i].refused) ==> Batch(db, station, ids, ws) == (db, ids, [])
    decreases |ids|
  {
    hide Answer; hide Done;
    if ids != [] {
      var last := |ids| - 1;
      DoneBatchIsIdle(db, station, ids[..last], ws[..last]);
      DoneIsIdle(db, station, ids[last], ws[last]);
      assert ids == ids[..last] + [ids[last]];
    }
  }

  /** A batch whose answer was lost can be sent again, after any other batches and in
      any weather: the records accepted the first time change nothing, and unless the
      database refuses they are all accepted again. */
  lemma ResendChangesNothing(db: Db, station: string, ids: seq<SyncId>, ws: seq<Weather>,
                             between: seq<SyncId>, bs: seq<Weather>, again: seq<Weather>)
    requires |ws| == |ids| && |bs| == |between|
    requires |again| == |Batch(db, station, ids, ws).1|
    ensures var (first, accepted, rejected) := Batch(db, station, ids, ws);
            var now := Batch(first, station, between, bs).0;
            && Batch(now, station, accepted, again).0 == now
            && ((forall i | 0 <= i < |again| :: !again[i].refused) ==> Batch(now, station, accepted, again) == (now, accepted, []))
  {
    hide Done; hide Answer;
    var (first, accepted, rejected) := Batch(db, station, ids, ws);
    var now := Batch(first, station, between, bs).0;
    forall i | 0 <= i < |accepted| ensures Done(now, station, accepted[i]) {
      BatchAcceptedAreDone(db, station, ids, ws, accepted[i]);
      BatchKeepsDone(first, station, between, bs, accepted[i]);
    }
    hide Batch;
    DoneBatchIsIdle(now, station, accepted, again);
  }
}
