/** The durable outbox of fuel-level totals: ordered delivery with retries. */
module Outbox {
  import Q = SyncQueue

  datatype Option<+T> = None | Some(value: T)

  /** `id` is the UUID, which orders as text the way it orders as a number. */
  datatype Row = Row(id: nat, target: string, payload: string, createdAt: int, attempts: nat, nextAt: int)

  /** The hash of target and payload that names a row. */
  type Naming = (string, string) -> nat

  ghost predicate Injective(name: Naming) {
    forall t, p, t', p' :: name(t, p) == name(t', p') ==> t == t' && p == p'
  }

  predicate Has(rows: seq<Row>, id: nat) { exists i | 0 <= i < |rows| :: rows[i].id == id }

  ghost predicate UniqueIds(rows: seq<Row>) { forall i, j | 0 <= i < j < |rows| :: rows[i].id != rows[j].id }

  // ── Persisting ─────────────────────────────────────────────────────────────

  function Insert(rows: seq<Row>, name: Naming, target: string, payload: string, now: int): seq<Row> {
    var id := name(target, payload);
    if Has(rows, id) then rows else rows + [Row(id, target, payload, now, 0, 0)]
  }

  /** The table after a batch; `clock[i]` is the time at which payload `i` is inserted. */
  function InsertAll(rows: seq<Row>, name: Naming, target: string, payloads: seq<string>, clock: seq<int>): seq<Row>
    requires |clock| == |payloads|
    decreases |payloads|
  {
    if payloads == [] then rows
    else
      var last := |payloads| - 1;
      Insert(InsertAll(rows, name, target, payloads[..last], clock[..last]), name, target, payloads[last], clock[last])
  }

  /** The station's sync queue after the round's readings were added to it. */
  function EnqueueAll(queue: seq<Q.Row>, readings: seq<Q.SyncId>, clock: seq<int>): seq<Q.Row>
    requires |clock| == |readings|
    decreases |readings|
  {
    if readings == [] then queue
    else
      var last := |readings| - 1;
      Q.EnqueueNew(EnqueueAll(queue, readings[..last], clock[..last]), readings[last], clock[last])
  }

  // ── Delivering ─────────────────────────────────────────────────────────────

  predicate Before(a: Row, b: Row) { a.createdAt < b.createdAt || (a.createdAt == b.createdAt && a.id < b.id) }

  /** The oldest row for the target, by creation time and then id. */
  function Head(rows: seq<Row>, target: string): (h: Option<Row>)
    ensures h.Some? ==> h.value in rows && h.value.target == target
  {
    if rows == [] then None
    else
      var rest := Head(rows[1..], target);
      if rows[0].target != target then rest
      else if rest.Some? && Before(rest.value, rows[0]) then rest
      else Some(rows[0])
  }

  function Pow2(n: nat): nat { if n == 0 then 1 else 2 * Pow2(n - 1) }

  function Min(a: nat, b: nat): nat { if a < b then a else b }

  /** Milliseconds to wait after a failure that followed `attempts` earlier ones. */
  function Delay(attempts: nat): nat { Min(2000 * Pow2(Min(attempts, 8)), 300000) }

  function Delete(rows: seq<Row>, id: nat): seq<Row> {
    if rows == [] then [] else (if rows[0].id == id then [] else [rows[0]]) + Delete(rows[1..], id)
  }

  /** Rows with this id get one more attempt and their next time. */
  function Postpone(rows: seq<Row>, id: nat, next: int): seq<Row> {
    seq(|rows|, i requires 0 <= i < |rows| =>
      if rows[i].id == id then rows[i].(attempts := rows[i].attempts + 1, nextAt := next) else rows[i])
  }

  function Settle(rows: seq<Row>, row: Row, ok: bool, now: int): seq<Row> {
    if ok then Delete(rows, row.id) else Postpone(rows, row.id, now + Delay(row.attempts))
  }

  // ── What a turn means, field by field ──────────────────────────────────────

  /** The wait after a failure that followed `attempts` earlier ones, in milliseconds. */
  predicate IsWait(attempts: nat, d: nat) {
    match attempts
    case 0 => d == 2000
    case 1 => d == 4000
    case 2 => d == 8000
    case 3 => d == 16000
    case 4 => d == 32000
    case 5 => d == 64000
    case 6 => d == 128000
    case 7 => d == 256000
    case _ => d == 300000
  }

  /** The oldest row for the target. */
  ghost predicate IsOldest(rows: seq<Row>, target: string, row: Row) {
    row in rows && row.target == target
    && forall r | r in rows && r.target == target && r != row :: row.createdAt < r.createdAt || (row.createdAt == r.createdAt && row.id <= r.id)
  }

  /** Nothing was posted, because the target has no row or its oldest one is not due. */
  ghost predicate Idles(before: seq<Row>, after: seq<Row>, target: string, now: int) {
    after == before
    && ((forall r | r in before :: r.target != target) || exists row :: IsOldest(before, target, row) && row.nextAt > now)
  }

  /** `row` was posted and refused: it alone changes, by one more attempt and its next time. */
  ghost predicate Refuses(before: seq<Row>, after: seq<Row>, row: Row, now: int) {
    |after| == |before|
    && forall i | 0 <= i < |before| ::
         if before[i].id != row.id then after[i] == before[i]
         else
           && after[i].id == before[i].id && after[i].target == before[i].target && after[i].payload == before[i].payload
           && after[i].createdAt == before[i].createdAt && after[i].attempts == before[i].attempts + 1
           && exists d :: IsWait(row.attempts, d) && after[i].nextAt == now + d
  }

  /** `row` was posted and accepted: it alone is gone, and the others keep their order. */
  ghost predicate Accepts(before: seq<Row>, after: seq<Row>, row: Row) {
    exists i | 0 <= i < |before| :: before[i] == row && after == before[..i] + before[i + 1..]
  }

  /** One turn of the delivery loop. */
  ghost predicate IsTurn(before: seq<Row>, after: seq<Row>, posted: Option<Row>, target: string, now: int, accepts: bool) {
    match posted
    case None => Idles(before, after, target, now)
    case Some(row) =>
      IsOldest(before, target, row) && row.nextAt <= now && (if accepts then Accepts(before, after, row) else Refuses(before, after, row, now))
  }

  // ── The table, as the source changes it ────────────────────────────────────

  class Table {
    var rows: seq<Row>
    var queue: seq<Q.Row>

    /** One transaction over both tables: either every reading and every payload is there
        afterwards or nothing changed. No target means no export. */
    method Persist(name: Naming, target: string, readings: seq<Q.SyncId>, readClock: seq<int>,
                   payloads: seq<string>, clock: seq<int>, commits: bool)
      requires |readClock| == |readings| && |clock| == |payloads|
      modifies this
      ensures queue == if commits then EnqueueAll(old(queue), readings, readClock) else old(queue)
      ensures rows == if commits && target != "" then InsertAll(old(rows), name, target, payloads, clock) else old(rows)
    {
      var newQueue, newRows := queue, rows;
      var k := 0;
      while k < |readings|
        invariant 0 <= k <= |readings| && newQueue == EnqueueAll(queue, readings[..k], readClock[..k])
      {
        assert readings[..k + 1][..k] == readings[..k] && readClock[..k + 1][..k] == readClock[..k];
        newQueue := Q.EnqueueNew(newQueue, readings[k], readClock[k]);
        k := k + 1;
      }
      assert readings[..k] == readings && readClock[..k] == readClock;
      if target != "" {
        var i := 0;
        while i < |payloads|
          invariant 0 <= i <= |payloads| && newRows == InsertAll(rows, name, target, payloads[..i], clock[..i])
        {
          assert payloads[..i + 1][..i] == payloads[..i] && clock[..i + 1][..i] == clock[..i];
          newRows := Insert(newRows, name, target, payloads[i], clock[i]);
          i := i + 1;
        }
        assert payloads[..i] == payloads && clock[..i] == clock;
      }
      if commits {
        queue, rows := newQueue, newRows;
      }
    }

    /** One turn of the delivery loop; `accepts` is the target's answer to a post. The
        result is the row that was posted, if the oldest one was due. */
    method DeliverOnce(target: string, now: int, accepts: bool) returns (posted: Option<Row>)
      modifies this`rows
      ensures posted == Due(old(rows), target, now)
      ensures rows == if posted.Some? then Settle(old(rows), posted.value, accepts, now) else old(rows)
      ensures UniqueIds(old(rows)) ==> IsTurn(old(rows), rows, posted, target, now, accepts)
    {
      if UniqueIds(rows) {
        TurnIs(rows, target, now, accepts);
      }
      var head := Head(rows, target);
      if head.None? || head.value.nextAt > now {
        return None;
      }
      var row := head.value;
      if accepts {
        rows := Delete(rows, row.id);
      } else {
        rows := Postpone(rows, row.id, now + Delay(row.attempts));
      }
      return Some(row);
    }
  }

  function Due(rows: seq<Row>, target: string, now: int): Option<Row> {
    var head := Head(rows, target);
    if head.Some? && head.value.nextAt > now then None else head
  }

  // ── Turns ──────────────────────────────────────────────────────────────────

  lemma WaitIs(attempts: nat)
    ensures IsWait(attempts, Delay(attempts))
  {
    assert Pow2(0) == 1 && Pow2(1) == 2 && Pow2(2) == 4 && Pow2(3) == 8;
    assert Pow2(4) == 16 && Pow2(5) == 32 && Pow2(6) == 64 && Pow2(7) == 128 && Pow2(8) == 256;
  }

  lemma {:induction false} DeleteNone(rows: seq<Row>, id: nat)
    requires !Has(rows, id)
    ensures Delete(rows, id) == rows
    decreases |rows|
  {
    if rows != [] {
      var rest := rows[1..];
      assert rows[0].id != id && rows == [rows[0]] + rest;
      forall i | 0 <= i < |rest| ensures rest[i].id != id {
        assert rest[i] == rows[i + 1];
      }
      DeleteNone(rest, id);
    }
  }

  lemma {:induction false} DeleteOne(rows: seq<Row>, k: nat)
    requires UniqueIds(rows) && k < |rows|
    ensures Delete(rows, rows[k].id) == rows[..k] + rows[k + 1..]
    decreases |rows|
  {
    var rest := rows[1..];
    assert forall i | 0 <= i < |rest| :: rest[i] == rows[i + 1];
    if k == 0 {
      DeleteNone(rest, rows[0].id);
    } else {
      DeleteOne(rest, k - 1);
      assert rows[..k] + rows[k + 1..] == [rows[0]] + (rest[..k - 1] + rest[k..]);
    }
  }

  lemma OldestIs(rows: seq<Row>, target: string)
    requires UniqueIds(rows)
    ensures Head(rows, target).Some? ==> IsOldest(rows, target, Head(rows, target).value)
    ensures Head(rows, target).None? ==> forall r | r in rows :: r.target != target
  {
    HeadIsOldest(rows, target);
  }

  lemma AcceptanceIs(rows: seq<Row>, row: Row, now: int)
    requires UniqueIds(rows) && row in rows
    ensures Accepts(rows, Settle(rows, row, true, now), row)
  {
    var k :| 0 <= k < |rows| && rows[k] == row;
    DeleteOne(rows, k);
  }

  lemma RefusalIs(rows: seq<Row>, row: Row, now: int)
    requires UniqueIds(rows) && row in rows
    ensures Refuses(rows, Settle(rows, row, false, now), row, now)
  {
    WaitIs(row.attempts);
    hide Delay; hide IsWait; hide UniqueIds;
  }

  lemma IdleIs(rows: seq<Row>, target: string, now: int)
    requires UniqueIds(rows) && Due(rows, target, now).None?
    ensures Idles(rows, rows, target, now)
  {
    OldestIs(rows, target);
    hide Head; hide IsOldest; hide UniqueIds;
  }

  /** A turn posts the target's oldest row if it is due; a refusal changes that row alone
      and acceptance removes it alone. */
  lemma TurnIs(rows: seq<Row>, target: string, now: int, accepts: bool)
    requires UniqueIds(rows)
    ensures var posted := Due(rows, target, now);
            IsTurn(rows, if posted.Some? then Settle(rows, posted.value, accepts, now) else rows, posted, target, now, accepts)
  {
    OldestIs(rows, target);
    hide Head; hide Settle; hide Idles; hide Accepts; hide Refuses; hide IsOldest; hide UniqueIds;
    var posted := Due(rows, target, now);
    if posted.None? {
      IdleIs(rows, target, now);
    } else if accepts {
      AcceptanceIs(rows, posted.value, now);
    } else {
      RefusalIs(rows, posted.value, now);
    }
  }

  // ── Single operations ──────────────────────────────────────────────────────

  /** Nothing for the target is older than its head. */
  lemma {:induction false} HeadIsOldest(rows: seq<Row>, target: string)
    ensures Head(rows, target).None? ==> forall r | r in rows :: r.target != target
    ensures Head(rows, target).Some? ==> forall r | r in rows && r.target == target :: !Before(r, Head(rows, target).value)
    decreases |rows|
  {
    if rows != [] {
      HeadIsOldest(rows[1..], target);
      assert forall r :: r in rows <==> r == rows[0] || r in rows[1..];
    }
  }

  /** The wait stays between two seconds and five minutes and never shrinks. */
  lemma DelayBounds(a: nat, b: nat)
    requires a <= b
    ensures 2000 <= Delay(a) <= Delay(b) <= 300000
  {
    Pow2Grows(0, Min(a, 8));
    Pow2Grows(Min(a, 8), Min(b, 8));
  }

  lemma {:induction false} Pow2Grows(a: nat, b: nat)
    requires a <= b
    ensures 1 <= Pow2(a) <= Pow2(b)
    decreases b
  {
    if b > 0 {
      if a < b {
        Pow2Grows(a, b - 1);
      } else {
        Pow2Grows(a - 1, b - 1);
      }
    }
  }

  lemma {:induction false} InsertedStay(rows: seq<Row>, name: Naming, target: string, payloads: seq<string>, clock: seq<int>)
    requires |clock| == |payloads|
    ensures rows <= InsertAll(rows, name, target, payloads, clock)
    ensures forall i | 0 <= i < |payloads| :: Has(InsertAll(rows, name, target, payloads, clock), name(target, payloads[i]))
    ensures forall r | r in InsertAll(rows, name, target, payloads, clock) && r !in rows ::
              r.target == target && r.attempts == 0 && r.nextAt == 0 && r.payload in payloads && r.id == name(target, r.payload)
    ensures UniqueIds(rows) ==> UniqueIds(InsertAll(rows, name, target, payloads, clock))
    decreases |payloads|
  {
    if payloads != [] {
      var last := |payloads| - 1;
      var before := InsertAll(rows, name, target, payloads[..last], clock[..last]);
      InsertedStay(rows, name, target, payloads[..last], clock[..last]);
      var after := InsertAll(rows, name, target, payloads, clock);
      assert before <= after;
      forall i | 0 <= i < |payloads| ensures Has(after, name(target, payloads[i])) {
        if i < last {
          assert Has(before, name(target, payloads[..last][i]));
          var k :| 0 <= k < |before| && before[k].id == name(target, payloads[i]);
          assert after[k].id == name(target, payloads[i]);
        } else if !Has(before, name(target, payloads[last])) {
          assert after[|before|].id == name(target, payloads[last]);
        }
      }
    }
  }

  /** Of each new row: one of the payloads, waiting since that payload's moment. */
  lemma {:induction false} InsertedAge(rows: seq<Row>, name: Naming, target: string, payloads: seq<string>, clock: seq<int>)
    requires |clock| == |payloads|
    ensures forall r | r in InsertAll(rows, name, target, payloads, clock) && r !in rows ::
              exists i | 0 <= i < |payloads| :: r.payload == payloads[i] && r.createdAt == clock[i]
    decreases |payloads|
  {
    if payloads != [] {
      var last := |payloads| - 1;
      var before := InsertAll(rows, name, target, payloads[..last], clock[..last]);
      InsertedAge(rows, name, target, payloads[..last], clock[..last]);
      forall r | r in InsertAll(rows, name, target, payloads, clock) && r !in rows
        ensures exists i | 0 <= i < |payloads| :: r.payload == payloads[i] && r.createdAt == clock[i]
      {
        if r in before {
          var i :| 0 <= i < last && r.payload == payloads[..last][i] && r.createdAt == clock[..last][i];
          assert r.payload == payloads[i] && r.createdAt == clock[i];
        } else {
          assert r.payload == payloads[last] && r.createdAt == clock[last];
        }
      }
    }
  }

  /** A batch whose rows are all still pending adds nothing when it is persisted again. */
  lemma {:induction false} PersistAgainAddsNothing(rows: seq<Row>, name: Naming, target: string, payloads: seq<string>, clock: seq<int>)
    requires |clock| == |payloads| && forall i | 0 <= i < |payloads| :: Has(rows, name(target, payloads[i]))
    ensures InsertAll(rows, name, target, payloads, clock) == rows
    decreases |payloads|
  {
    if payloads != [] {
      var last := |payloads| - 1;
      assert forall i | 0 <= i < last :: payloads[..last][i] == payloads[i];
      PersistAgainAddsNothing(rows, name, target, payloads[..last], clock[..last]);
    }
  }

  /** A retried transaction that had in fact committed changes nothing. */
  lemma RetryAddsNothing(rows: seq<Row>, name: Naming, target: string, payloads: seq<string>, clock: seq<int>, later: seq<int>)
    requires |clock| == |payloads| == |later|
    ensures var once := InsertAll(rows, name, target, payloads, clock); InsertAll(once, name, target, payloads, later) == once
  {
    InsertedStay(rows, name, target, payloads, clock);
    PersistAgainAddsNothing(InsertAll(rows, name, target, payloads, clock), name, target, payloads, later);
  }

  lemma {:induction false} EnqueueAllIds(queue: seq<Q.Row>, readings: seq<Q.SyncId>, clock: seq<int>)
    requires |clock| == |readings|
    ensures queue <= EnqueueAll(queue, readings, clock)
    ensures forall id :: id in Q.Ids(EnqueueAll(queue, readings, clock)) <==> id in Q.Ids(queue) || id in readings
    decreases |readings|
  {
    hide Q.Ids; hide Q.EnqueueNew;
    if readings != [] {
      var last := |readings| - 1;
      var before := EnqueueAll(queue, readings[..last], clock[..last]);
      EnqueueAllIds(queue, readings[..last], clock[..last]);
      Q.EnqueueIds(before, readings[last], clock[last]);
      AppendOnly(before, readings[last], clock[last]);
      assert readings == readings[..last] + [readings[last]];
    }
  }

  lemma AppendOnly(queue: seq<Q.Row>, id: Q.SyncId, now: int)
    ensures queue <= Q.EnqueueNew(queue, id, now)
  {}

  lemma {:induction false} KnownAddNothing(queue: seq<Q.Row>, readings: seq<Q.SyncId>, clock: seq<int>)
    requires |clock| == |readings| && forall i | 0 <= i < |readings| :: readings[i] in Q.Ids(queue)
    ensures EnqueueAll(queue, readings, clock) == queue
    decreases |readings|
  {
    if readings != [] {
      var last := |readings| - 1;
      assert forall i | 0 <= i < last :: readings[..last][i] == readings[i];
      KnownAddNothing(queue, readings[..last], clock[..last]);
    }
  }

  /** The same for the readings of the round: every one is queued, what was queued stays as
      it was, and a retried transaction queues nothing twice. */
  lemma ReadingsQueuedOnce(queue: seq<Q.Row>, readings: seq<Q.SyncId>, clock: seq<int>, later: seq<int>)
    requires |clock| == |readings| == |later|
    ensures var once := EnqueueAll(queue, readings, clock);
            && queue <= once && EnqueueAll(once, readings, later) == once
            && forall id :: id in Q.Ids(once) <==> id in Q.Ids(queue) || id in readings
  {
    EnqueueAllIds(queue, readings, clock);
    hide Q.Ids;
    KnownAddNothing(EnqueueAll(queue, readings, clock), readings, later);
  }
}
