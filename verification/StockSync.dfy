/** How the backend stores station stock records: tank catalogs, readings, history. */
module StockSync {
  import W = Wire

  datatype Option<+T> = None | Some(value: T)

  // ── Payloads ───────────────────────────────────────────────────────────────
  // A field is `None` when the JSON value is absent or not of the type asked for.

  datatype TankPayload = TankPayload(
    tankId: Option<string>, title: Option<string>, productName: Option<string>,
    productId: Option<real>, capacity: Option<real>,
    staleAfterSecs: Option<real>, staleGiven: bool, monitoring: bool)

  datatype Catalog = Catalog(tanks: Option<seq<TankPayload>>, updatedAt: Option<real>)

  /** A field that may be left out, but not filled with something else than a number. */
  datatype Measure = Absent | NotANumber | Number(value: real)

  datatype ReadingPayload = ReadingPayload(
    tankId: Option<string>, productId: Option<real>, productGiven: bool, readingAt: Option<int>,
    volume: Option<real>, productName: Option<string>,
    level: Measure, water: Measure, temperature: Measure, fillPercent: Measure)

  /** Deliveries and reconciliations, told apart by `kind`. */
  datatype HistoryPayload = HistoryPayload(kind: string, sourceId: Option<string>, wellFormed: bool)

  datatype Record =
    | TankCatalog(catalog: Catalog)
    | ReservoirReading(reading: ReadingPayload)
    | StockHistory(history: HistoryPayload)

  // ── Stored rows of one station ─────────────────────────────────────────────

  datatype Reservoir = Reservoir(
    title: string, productId: int, productName: string, capacity: real,
    managed: bool, active: bool, configUpdatedAt: Option<int>,
    monitoring: bool, staleAfterSecs: int)

  datatype Reading = Reading(volume: real, productId: int, productName: string, level: Option<real>, water: Option<real>,
                             temperature: Option<real>, fillPercent: Option<real>)

  datatype Stock = Stock(
    catalogAt: Option<int>, tanks: map<string, Reservoir>,
    readings: map<(string, int), Reading>, history: map<(string, string), HistoryPayload>)

  const EMPTY := Stock(None, map[], map[], map[])

  // ── Field checks ───────────────────────────────────────────────────────────

  /** What the backend's `trim` removes. */
  predicate IsBlank(c: char) { W.IsSpace(c) || c == W.BYTE_ORDER_MARK }

  predicate IsText(v: Option<string>)
    ensures IsText(v) ==> v.Some?
  {
    v.Some? && exists i | 0 <= i < |v.value| :: !IsBlank(v.value[i])
  }

  predicate IsProduct(v: Option<real>) {
    v.Some? && v.value.Floor as real == v.value && 0.0 <= v.value <= 255.0
  }

  /** A JavaScript date holds at most 8.64e15 milliseconds either side of the epoch. */
  predicate IsDate(v: Option<real>)
    ensures IsDate(v) ==> v.Some?
  {
    v.Some? && 0.0 <= v.value <= 8640000000000000.0
  }

  predicate TankOk(t: TankPayload)
    ensures TankOk(t) ==> t.tankId.Some? && IsText(t.tankId)
  {
    && IsText(t.tankId)
    && t.capacity.Some? && t.capacity.value > 0.0
    && (t.staleGiven ==> t.staleAfterSecs.Some? && t.staleAfterSecs.value >= 1.0)
    && IsText(t.title) && IsProduct(t.productId) && IsText(t.productName)
  }

  /** The row a catalog entry asks for. */
  function Configured(t: TankPayload, at: int): Reservoir
    requires TankOk(t)
  {
    Reservoir(t.title.value, t.productId.value.Floor, t.productName.value, t.capacity.value,
              true, true, Some(at), t.monitoring, if t.staleGiven then t.staleAfterSecs.value.Floor else 600)
  }

  // ── Catalogs ───────────────────────────────────────────────────────────────

  predicate AtMost(a: Option<int>, at: int) { a.None? || a.value <= at }

  /** Upserts entries `from..`; `None` when an entry is malformed or repeats an id. */
  function Upsert(tanks: map<string, Reservoir>, entries: seq<TankPayload>, at: int, ids: set<string>): Option<(map<string, Reservoir>, set<string>)>
    decreases |entries|
  {
    if entries == [] then Some((tanks, ids))
    else
      var t := entries[0];
      if !IsText(t.tankId) || t.tankId.value in ids || !TankOk(t) then None
      else
        var id := t.tankId.value;
        var stored := if id !in tanks || AtMost(tanks[id].configUpdatedAt, at) then tanks[id := Configured(t, at)] else tanks;
        Upsert(stored, entries[1..], at, ids + {id})
  }

  /** Deactivates every managed tank outside `ids` that no newer catalog configured. */
  function Retire(tanks: map<string, Reservoir>, ids: set<string>, at: int): map<string, Reservoir> {
    map id | id in tanks ::
      if tanks[id].managed && id !in ids && AtMost(tanks[id].configUpdatedAt, at)
      then tanks[id].(active := false, configUpdatedAt := Some(at))
      else tanks[id]
  }

  /** `None` when the record is refused; a stale catalog is accepted and ignored. */
  function StoreCatalog(s: Stock, c: Catalog): Option<Stock> {
    if c.tanks.None? || !IsDate(c.updatedAt) then None
    else
      var at := c.updatedAt.value.Floor;
      if !AtMost(s.catalogAt, at) then Some(s)
      else
        match Upsert(s.tanks, c.tanks.value, at, {})
        case None => None
        case Some((tanks, ids)) => Some(s.(catalogAt := Some(at), tanks := Retire(tanks, ids, at)))
  }

  // ── Readings and history ───────────────────────────────────────────────────

  predicate IsAmount(m: Measure) { m.Absent? || (m.Number? && m.value >= 0.0) }

  function Given(m: Measure): Option<real> { if m.Number? then Some(m.value) else None }

  /** A reading for an unknown tank creates an unmanaged placeholder; `fallback` is
      the product name found among the station's nozzles. */
  function StoreReading(s: Stock, r: ReadingPayload, fallback: string): Option<Stock> {
    if !IsText(r.tankId) then None
    else
      var id := r.tankId.value;
      var productId := if r.productGiven then r.productId else Some(if id in s.tanks then s.tanks[id].productId as real else 0.0);
      if !IsProduct(productId) || r.readingAt.None? || r.volume.None? || r.volume.value < 0.0 then None
      else
        var named := IsText(r.productName);
        var tank := if id in s.tanks then s.tanks[id]
                    else Reservoir("Tank " + id, productId.value.Floor, if named then r.productName.value else fallback,
                                   0.0, false, true, None, true, 600);
        var name := if r.productName.Some? then r.productName.value
                    else if tank.productId == productId.value.Floor then tank.productName else "";
        if !IsAmount(r.level) || !IsAmount(r.water) || r.temperature.NotANumber?
           || (tank.capacity <= 0.0 && !IsAmount(r.fillPercent)) then None
        else
          var fill := if tank.capacity > 0.0 then Some(r.volume.value / tank.capacity * 100.0) else Given(r.fillPercent);
          var row := Reading(r.volume.value, productId.value.Floor, name, Given(r.level), Given(r.water), Given(r.temperature), fill);
          Some(s.(tanks := s.tanks[id := tank], readings := s.readings[(id, r.readingAt.value) := row]))
  }

  /** A reading is stored under its tank and moment with the values it carries; delivered
      again it changes nothing, whatever the nozzle look-up answers by then; and no reading
      touches the stored readings of another tank or moment. */
  lemma ReadingIsIdempotent(s: Stock, r: ReadingPayload, fallback: string, later: string)
    requires StoreReading(s, r, fallback).Some?
    ensures var s' := StoreReading(s, r, fallback).value;
            && StoreReading(s', r, later) == Some(s')
            && r.tankId.Some? && r.readingAt.Some? && r.volume.Some? && (r.tankId.value, r.readingAt.value) in s'.readings
            && (var row := s'.readings[(r.tankId.value, r.readingAt.value)];
                && row.volume == r.volume.value && row.level == Given(r.level) && row.water == Given(r.water)
                && row.temperature == Given(r.temperature)
                && row.fillPercent == if s'.tanks[r.tankId.value].capacity > 0.0
                                      then Some(r.volume.value / s'.tanks[r.tankId.value].capacity * 100.0)
                                      else Given(r.fillPercent))
            && (forall k | k != (r.tankId.value, r.readingAt.value) ::
                  (k in s'.readings <==> k in s.readings) && (k in s.readings ==> s'.readings[k] == s.readings[k]))
  {
    hide IsText;
    assert IsProduct(r.productId) ==> r.productId.value.Floor as real == r.productId.value;
    hide IsProduct;
    var s' := StoreReading(s, r, fallback).value;
    var id := r.tankId.value;
    assert s'.tanks[id := s'.tanks[id]] == s'.tanks;
    var k := (id, r.readingAt.value);
    assert s'.readings[k := s'.readings[k]] == s'.readings;
  }

  predicate NotNegative(m: Measure) { m.Absent? || (m.Number? && m.value >= 0.0) }

  /** A reading is refused exactly when its tank or moment is missing, a value is missing or
      negative where it may not be, or it names no product; a missing product is the tank's. */
  lemma ReadingAcceptedIff(s: Stock, r: ReadingPayload, fallback: string)
    ensures StoreReading(s, r, fallback).Some? <==>
              && IsText(r.tankId) && r.readingAt.Some?
              && r.volume.Some? && r.volume.value >= 0.0
              && (r.productGiven ==> IsProduct(r.productId))
              && (!r.productGiven && r.tankId.value in s.tanks ==> 0 <= s.tanks[r.tankId.value].productId <= 255)
              && NotNegative(r.level) && NotNegative(r.water) && !r.temperature.NotANumber?
              && ((r.tankId.value in s.tanks && s.tanks[r.tankId.value].capacity > 0.0) || NotNegative(r.fillPercent))
  {
    hide IsText;
  }

  /** The stored row names the reading's own product and product name where it carries
      them, else the tank's; a reading never claims a known tank, and an unknown one becomes
      an unmanaged placeholder of that product. */
  lemma ReadingNamesProduct(s: Stock, r: ReadingPayload, fallback: string)
    requires StoreReading(s, r, fallback).Some?
    ensures var s' := StoreReading(s, r, fallback).value;
            && r.tankId.Some? && r.readingAt.Some? && (r.tankId.value, r.readingAt.value) in s'.readings && r.tankId.value in s'.tanks
            && (var (id, row, tank) := (r.tankId.value, s'.readings[(r.tankId.value, r.readingAt.value)], s'.tanks[r.tankId.value]);
                && (r.productGiven ==> r.productId == Some(row.productId as real))
                && (!r.productGiven ==> row.productId == if id in s.tanks then s.tanks[id].productId else 0)
                && row.productName == (if r.productName.Some? then r.productName.value
                                       else if tank.productId == row.productId then tank.productName else "")
                && (id in s.tanks ==> tank == s.tanks[id])
                && (id !in s.tanks ==>
                      && tank.title == "Tank " + id && tank.productId == row.productId
                      && tank.productName == (if IsText(r.productName) then r.productName.value else fallback)
                      && tank.capacity == 0.0 && !tank.managed && tank.active && tank.configUpdatedAt == None
                      && tank.monitoring && tank.staleAfterSecs == 600))
            && (forall k | k != r.tankId.value :: (k in s'.tanks <==> k in s.tanks) && (k in s.tanks ==> s'.tanks[k] == s.tanks[k]))
            && s'.catalogAt == s.catalogAt && s'.history == s.history
  {
    hide IsText;
  }

  function StoreHistory(s: Stock, h: HistoryPayload): Option<Stock> {
    if !IsText(h.sourceId) || !h.wellFormed then None
    else Some(s.(history := s.history[(h.kind, h.sourceId.value) := h]))
  }

  /** The effect of one record on the station's stock. */
  function Store(s: Stock, r: Record, fallback: string): Option<Stock> {
    match r
    case TankCatalog(c) => StoreCatalog(s, c)
    case ReservoirReading(p) => StoreReading(s, p, fallback)
    case StockHistory(h) => StoreHistory(s, h)
  }

  // ── The transaction, as the source runs it ─────────────────────────────────

  /** A whole number of milliseconds is not asked for, only one a date can hold. */
  method CheckDate(v: Option<real>) returns (ok: bool)
    ensures ok <==> IsDate(v)
  {
    return v.Some? && !(v.value < 0.0) && !(v.value > 8640000000000000.0);
  }

  /** The field checks in the order in which the row is put together. */
  method CheckTank(t: TankPayload) returns (ok: bool)
    ensures ok <==> TankOk(t)
  {
    hide IsText;
    if !IsText(t.tankId) || t.capacity.None? || t.capacity.value <= 0.0 {
      return false;
    }
    if t.staleGiven && (t.staleAfterSecs.None? || t.staleAfterSecs.value < 1.0) {
      return false;
    }
    if !IsText(t.title) {
      return false;
    }
    if t.productId.None? || t.productId.value < 0.0 || t.productId.value.Floor as real != t.productId.value || t.productId.value > 255.0 {
      return false;
    }
    return IsText(t.productName);
  }

  /** Open transaction on one station's rows; nothing is visible until it commits. */
  class Transaction {
    var catalogAt: Option<int>
    var tanks: map<string, Reservoir>
    var readings: map<(string, int), Reading>
    var history: map<(string, string), HistoryPayload>

    ghost function Rows(): Stock
      reads this
    {
      Stock(catalogAt, tanks, readings, history)
    }

    /** Stores a catalog; `ok` is false when the source throws, and then the caller rolls back. */
    method StoreTankCatalog(c: Catalog) returns (ok: bool)
      modifies this
      ensures ok <==> StoreCatalog(old(Rows()), c).Some?
      ensures ok ==> Rows() == StoreCatalog(old(Rows()), c).value
    {
      hide TankOk; hide IsText; hide IsDate; hide Configured; hide Retire;
      var dated := CheckDate(c.updatedAt);
      if c.tanks.None? || !dated {
        return false;
      }
      var at := DateOf(c.updatedAt);
      if !AtMost(catalogAt, at) {
        return true;
      }
      catalogAt := Some(at);
      var ids := {};
      var entries := c.tanks.value;
      var i := 0;
      ghost var all := Upsert(tanks, entries, at, {});
      assert entries[0..] == entries;
      while i < |entries|
        invariant 0 <= i <= |entries| && catalogAt == Some(at)
        invariant readings == old(readings) && history == old(history)
        invariant Upsert(tanks, entries[i..], at, ids) == all
      {
        var t := entries[i];
        assert entries[i..][1..] == entries[i + 1..];
        var sound := CheckTank(t);
        if !IsText(t.tankId) || t.tankId.value in ids || !sound {
          return false;
        }
        var id := t.tankId.value;
        ids := ids + {id};
        if id !in tanks || AtMost(tanks[id].configUpdatedAt, at) {
          tanks := tanks[id := Configured(t, at)];
        }
        i := i + 1;
      }
      tanks := Retire(tanks, ids, at);
      return true;
    }
  }

  function DateOf(v: Option<real>): int
    requires IsDate(v)
  {
    v.value.Floor
  }
}
