/** What a validated station sends about its tanks, and whether the backend takes it. */
module GaugeExport {
  import opened GaugeConfig
  import opened GaugeRound
  import W = Wire
  import M = Modbus
  import S = StockSync
  import C = CatalogConvergence

  // ── The catalog ────────────────────────────────────────────────────────────

  function StaleSecs(cfg: Config): nat {
    match cfg.gauges
    case None => 600
    case Some(g) => if g.staleSecs.Some? then g.staleSecs.value else if 2 * g.pollSecs < 30 then 30 else 2 * g.pollSecs
  }

  predicate Monitored(cfg: Config, t: Tank) {
    cfg.gauges.Some? && cfg.gauges.value.enabled
    && exists m | m in Members(cfg.gauges.value.branches) :: TankFor(cfg, m.slot).Some? && Id(TankFor(cfg, m.slot).value) == Id(t)
  }

  function ProductName(cfg: Config, id: nat): string { if id in cfg.products then cfg.products[id] else "" }

  function Published(cfg: Config, t: Tank): S.TankPayload {
    S.TankPayload(S.Some(Id(t)), S.Some(t.title), S.Some(ProductName(cfg, t.productId)),
                  S.Some(t.productId as real), S.Some(t.capacity), S.Some(StaleSecs(cfg) as real), true, Monitored(cfg, t))
  }

  function Catalog(cfg: Config, now: nat): S.Catalog {
    S.Catalog(S.Some(seq(|cfg.tanks|, i requires 0 <= i < |cfg.tanks| => Published(cfg, cfg.tanks[i]))), S.Some(now as real))
  }

  /** Product ids are single bytes in the station's configuration. */
  predicate ByteProducts(cfg: Config) { forall id | id in cfg.products :: id <= 255 }

  predicate AllBlank(s: string) { forall i | 0 <= i < |s| :: IsBlank(s[i]) }

  lemma {:induction false} TrimmedLeft(s: string)
    ensures TrimLeft(s) == "" <==> AllBlank(s)
    decreases |s|
  {
    if s != "" && IsBlank(s[0]) {
      TrimmedLeft(s[1..]);
      assert forall i | 0 < i < |s| :: s[i] == s[1..][i - 1];
    }
  }

  lemma {:induction false} TrimmedRight(s: string)
    ensures AllBlank(TrimRight(s)) <==> AllBlank(s)
    decreases |s|
  {
    if s != "" && IsBlank(s[|s| - 1]) {
      var start := s[..|s| - 1];
      TrimmedRight(start);
      assert s == start + [s[|s| - 1]];
    }
  }

  lemma TrimmedBlank(s: string)
    ensures Trim(s) == "" <==> AllBlank(s)
  {
    TrimmedLeft(TrimRight(s));
    TrimmedRight(s);
  }

  /** What the backend takes for a text. */
  predicate IsText(s: string) { S.IsText(S.Some(s)) }

  /** The two sides mean different things by a blank text: exactly these pass the station's
      checks and not the backend's, or the other way round. */
  lemma TextsPartIff(s: string)
    ensures Trim(s) != "" && !IsText(s) <==> (forall i | 0 <= i < |s| :: S.IsBlank(s[i])) && W.BYTE_ORDER_MARK in s
    ensures Trim(s) == "" && IsText(s) <==> AllBlank(s) && W.NEXT_LINE in s
  {
    TrimmedBlank(s);
    hide W.IsSpace; hide Trim;
    assert W.NEXT_LINE in s <==> exists i | 0 <= i < |s| :: s[i] == W.NEXT_LINE;
    assert W.BYTE_ORDER_MARK in s <==> exists i | 0 <= i < |s| :: s[i] == W.BYTE_ORDER_MARK;
    MarksAreNoSpace();
  }

  lemma MarksAreNoSpace()
    ensures !W.IsSpace(W.NEXT_LINE) && !W.IsSpace(W.BYTE_ORDER_MARK)
  {}

  predicate HasTexts(cfg: Config, t: Tank) { IsText(Id(t)) && IsText(t.title) && IsText(ProductName(cfg, t.productId)) }

  lemma PublishedTank(cfg: Config, t: Tank)
    requires TanksOk(cfg) && GaugesOk(cfg) && ByteProducts(cfg) && t in cfg.tanks
    ensures S.TankOk(Published(cfg, t)) <==> HasTexts(cfg, t)
    ensures Published(cfg, t).tankId == S.Some(Id(t))
  {
    assert FieldsOk(cfg, t);
    assert StaleSecs(cfg) >= 1;
    hide Trim; hide S.IsText; hide Id; hide Monitored; hide TanksOk; hide GaugesOk; hide StaleSecs;
  }

  lemma CatalogWellFormedIff(cfg: Config, now: nat)
    requires TanksOk(cfg) && GaugesOk(cfg) && ByteProducts(cfg) && now <= 8640000000000000
    ensures C.WellFormed(Catalog(cfg, now)) <==> forall t | t in cfg.tanks :: HasTexts(cfg, t)
  {
    CatalogStamp(cfg, now);
    CatalogEntries(cfg, now);
    DistinctIds(cfg);
    hide HasTexts; hide Published; hide S.TankOk; hide GaugesOk; hide TanksOk; hide Catalog; hide S.IsDate; hide ByteProducts; hide Id;
    var entries := Catalog(cfg, now).tanks.value;
    forall i | 0 <= i < |cfg.tanks| ensures S.TankOk(entries[i]) <==> HasTexts(cfg, cfg.tanks[i]) {
      PublishedTank(cfg, cfg.tanks[i]);
    }
    if C.WellFormed(Catalog(cfg, now)) {
      forall t | t in cfg.tanks ensures HasTexts(cfg, t) {
        var i :| 0 <= i < |cfg.tanks| && cfg.tanks[i] == t;
        assert S.TankOk(entries[i]);
      }
    }
  }

  lemma DistinctIds(cfg: Config)
    requires TanksOk(cfg)
    ensures forall i, j | 0 <= i < j < |cfg.tanks| :: Id(cfg.tanks[i]) != Id(cfg.tanks[j])
  {
    hide Id; hide FieldsOk;
  }

  lemma CatalogStamp(cfg: Config, now: nat)
    requires now <= 8640000000000000
    ensures var c := Catalog(cfg, now); c.tanks.Some? && S.IsDate(c.updatedAt) && C.At(c) == now
  {}

  lemma RefusedByEntries(s: S.Stock, c: S.Catalog)
    requires c.tanks.Some? && S.IsDate(c.updatedAt)
    ensures S.StoreCatalog(s, c).Some? <==> !S.AtMost(s.catalogAt, C.At(c)) || C.WellFormed(c)
  {
    hide C.EntriesOk; hide S.StoreCatalog; hide S.AtMost; hide S.IsDate;
    C.RefusedIff(s, c);
  }

  /** Whatever the backend has stored, it takes the catalog of a validated configuration
      exactly when the catalog is older than the stored one, and then ignores it, or when id,
      label and product name of every tank are texts to the backend: the station's own
      checks let others through. */
  lemma CatalogAcceptedIff(cfg: Config, now: nat, stock: S.Stock)
    requires TanksOk(cfg) && GaugesOk(cfg) && ByteProducts(cfg) && now <= 8640000000000000
    ensures S.StoreCatalog(stock, Catalog(cfg, now)).Some?
       <==> !S.AtMost(stock.catalogAt, now) || forall t | t in cfg.tanks :: HasTexts(cfg, t)
  {
    hide *;
    CatalogStamp(cfg, now);
    RefusedByEntries(stock, Catalog(cfg, now));
    CatalogWellFormedIff(cfg, now);
  }

  // ── What the backend then shows of the site ────────────────────────────────

  /** Some gauge slot of an enabled gauge section is for this tank. */
  ghost predicate IsGauged(cfg: Config, t: Tank) {
    cfg.gauges.Some? && cfg.gauges.value.enabled
    && exists m :: m in Members(cfg.gauges.value.branches) && TankFor(cfg, m.slot) == W.Some(t)
  }

  /** The seconds after which a level is stale: as configured, else two polls but at least
      thirty seconds; ten minutes without gauges. */
  ghost predicate IsStaleness(cfg: Config, secs: int) {
    match cfg.gauges
    case None => secs == 600
    case Some(g) =>
      && (g.staleSecs.Some? ==> secs == g.staleSecs.value)
      && (g.staleSecs.None? ==> secs >= 30 && secs >= 2 * g.pollSecs && (secs == 30 || secs == 2 * g.pollSecs))
  }

  /** The row shows the configured tank. */
  ghost predicate RowShows(cfg: Config, t: Tank, r: S.Reservoir, now: int) {
    && r.title == t.title && r.productId == t.productId && r.capacity == t.capacity
    && t.productId in cfg.products && r.productName == cfg.products[t.productId]
    && (r.monitoring <==> IsGauged(cfg, t)) && IsStaleness(cfg, r.staleAfterSecs)
    && r.managed && r.active && r.configUpdatedAt == S.Some(now)
  }

  lemma MonitoredIff(cfg: Config, t: Tank)
    requires TanksOk(cfg) && t in cfg.tanks
    ensures Monitored(cfg, t) <==> IsGauged(cfg, t)
  {
    hide Id; hide TankFor; hide FieldsOk; hide Trim;
    if cfg.gauges.Some? && cfg.gauges.value.enabled {
      forall m | m in Members(cfg.gauges.value.branches)
        ensures TankFor(cfg, m.slot).Some? && Id(TankFor(cfg, m.slot).value) == Id(t) <==> TankFor(cfg, m.slot) == W.Some(t)
      {
        TankForHasProduct(cfg, m.slot);
        SameIdSameTank(cfg, t);
      }
    }
  }

  lemma SameIdSameTank(cfg: Config, t: Tank)
    requires TanksOk(cfg) && t in cfg.tanks
    ensures forall u | u in cfg.tanks && Id(u) == Id(t) :: u == t
  {
    hide Id; hide FieldsOk; hide Sources;
    forall u | u in cfg.tanks && Id(u) == Id(t) ensures u == t {
      var i :| 0 <= i < |cfg.tanks| && cfg.tanks[i] == t;
      var j :| 0 <= j < |cfg.tanks| && cfg.tanks[j] == u;
      assert Id(cfg.tanks[i]) == Id(cfg.tanks[j]);
    }
  }

  lemma ShownAsPublished(cfg: Config, t: Tank, r: S.Reservoir, now: int)
    requires TanksOk(cfg) && t in cfg.tanks && C.IsRowOf(r, Published(cfg, t), now)
    ensures RowShows(cfg, t, r, now)
  {
    MonitoredIff(cfg, t);
    assert FieldsOk(cfg, t);
    hide Monitored; hide IsGauged; hide Id; hide TanksOk; hide Trim;
  }

  /** From the site's configuration to the backend: after the catalog of a validated site is
      taken, the row of each of its tanks shows that tank, unless it is dated later than the
      catalog; other managed tanks are switched off. */
  lemma BackendShowsSite(cfg: Config, now: nat, stock: S.Stock)
    requires TanksOk(cfg) && GaugesOk(cfg) && ByteProducts(cfg) && now <= 8640000000000000
    requires S.AtMost(stock.catalogAt, now) && forall t | t in cfg.tanks :: HasTexts(cfg, t)
    ensures S.StoreCatalog(stock, Catalog(cfg, now)).Some?
    ensures var after := S.StoreCatalog(stock, Catalog(cfg, now)).value.tanks;
            && (forall t | t in cfg.tanks && !C.Newer(stock.tanks, Id(t), now) :: Id(t) in after && RowShows(cfg, t, after[Id(t)], now))
            && (forall id | id in after && after[id].managed && after[id].active && !C.Newer(stock.tanks, id, now) ::
                  exists t :: t in cfg.tanks && Id(t) == id)
  {
    var c := Catalog(cfg, now);
    CatalogAcceptedIff(cfg, now, stock);
    CatalogStamp(cfg, now);
    CatalogEntries(cfg, now);
    hide *;
    CatalogRows(cfg, now, stock);
  }

  lemma CatalogEntries(cfg: Config, now: nat)
    requires TanksOk(cfg)
    ensures var c := Catalog(cfg, now);
            && c.tanks.Some? && c.updatedAt == S.Some(now as real) && |c.tanks.value| == |cfg.tanks|
            && forall i | 0 <= i < |cfg.tanks| ::
                 c.tanks.value[i] == Published(cfg, cfg.tanks[i]) && c.tanks.value[i].tankId == S.Some(Id(cfg.tanks[i]))
  {
    hide Id; hide Monitored; hide StaleSecs; hide ProductName;
  }

  lemma CatalogRows(cfg: Config, now: nat, stock: S.Stock)
    requires TanksOk(cfg) && S.AtMost(stock.catalogAt, now) && S.StoreCatalog(stock, Catalog(cfg, now)).Some?
    ensures var after := S.StoreCatalog(stock, Catalog(cfg, now)).value.tanks;
            && (forall t | t in cfg.tanks && !C.Newer(stock.tanks, Id(t), now) :: Id(t) in after && RowShows(cfg, t, after[Id(t)], now))
            && (forall id | id in after && after[id].managed && after[id].active && !C.Newer(stock.tanks, id, now) ::
                  exists t :: t in cfg.tanks && Id(t) == id)
  {
    hide Catalog; hide Published; hide Id; hide TanksOk; hide RowShows; hide S.StoreCatalog; hide S.AtMost; hide C.IsRowOf; hide C.Newer;
    var c := Catalog(cfg, now);
    CatalogEntries(cfg, now);
    assert (now as real).Floor == now;
    C.CatalogApplies(stock, c);
    var after := S.StoreCatalog(stock, c).value.tanks;
    forall t | t in cfg.tanks && !C.Newer(stock.tanks, Id(t), now) ensures Id(t) in after && RowShows(cfg, t, after[Id(t)], now) {
      var i :| 0 <= i < |cfg.tanks| && cfg.tanks[i] == t;
      assert c.tanks.value[i].tankId == S.Some(Id(t));
      assert C.Names(c, Id(t));
      ShownAsPublished(cfg, t, after[Id(t)], now);
    }
    forall id | id in after && after[id].managed && after[id].active && !C.Newer(stock.tanks, id, now)
      ensures exists t :: t in cfg.tanks && Id(t) == id
    {
      assert C.Names(c, id);
      var i :| 0 <= i < |c.tanks.value| && c.tanks.value[i].tankId == S.Some(id);
      assert cfg.tanks[i] in cfg.tanks && Id(cfg.tanks[i]) == id;
    }
  }

  /** A site with one tank of this label, and a product of this name. */
  function OneTank(title: string, product: string): Config {
    Config(map[1 := product], map[], [Tank("A", [], 1, title, 100.0, 0.0)], W.None)
  }

  lemma OneTankIsValid(title: string, product: string)
    requires Trim(title) != ""
    ensures TanksOk(OneTank(title, product)) && GaugesOk(OneTank(title, product))
  {
    var cfg := OneTank(title, product);
    LetterStays();
    OneTankFields(title, product);
    assert cfg.tanks[..0] == [] && Sources(cfg.tanks) == [] + cfg.tanks[0].sources == [];
    hide Trim; hide FieldsOk; hide Id; hide Sources;
  }

  lemma LetterStays()
    ensures Trim("A") == "A"
  {}

  lemma OneTankFields(title: string, product: string)
    requires Trim(title) != ""
    ensures var cfg := OneTank(title, product); Id(cfg.tanks[0]) == "A" && FieldsOk(cfg, cfg.tanks[0])
  {
    LetterStays();
    hide Trim;
  }

  lemma OneTankRefused(title: string, product: string, now: nat, stock: S.Stock)
    requires Trim(title) != "" && now <= 8640000000000000 && !(IsText(title) && IsText(product))
    requires S.AtMost(stock.catalogAt, now)
    ensures S.StoreCatalog(stock, Catalog(OneTank(title, product), now)) == S.None
  {
    var cfg := OneTank(title, product);
    OneTankIsValid(title, product);
    assert cfg.tanks[0] in cfg.tanks && !HasTexts(cfg, cfg.tanks[0]) && ByteProducts(cfg);
    hide *;
    CatalogAcceptedIff(cfg, now, stock);
  }

  /** A product named by a blank, or a label that is a byte order mark, passes validation,
      and the backend refuses every catalog that is not older than the stored one. */
  lemma BlankNameRefused(now: nat, stock: S.Stock)
    requires now <= 8640000000000000 && S.AtMost(stock.catalogAt, now)
    ensures var blank, marked := OneTank("A", " "), OneTank([W.BYTE_ORDER_MARK], "AI-92");
            && TanksOk(blank) && GaugesOk(blank) && S.StoreCatalog(stock, Catalog(blank, now)) == S.None
            && TanksOk(marked) && GaugesOk(marked) && S.StoreCatalog(stock, Catalog(marked, now)) == S.None
  {
    var mark := [W.BYTE_ORDER_MARK];
    assert Trim("A") == "A" && Trim(mark) == mark && !IsText(" ") && !IsText(mark);
    hide *;
    OneTankIsValid("A", " ");
    OneTankRefused("A", " ", now, stock);
    OneTankIsValid(mark, "AI-92");
    OneTankRefused(mark, "AI-92", now, stock);
  }

  // ── The readings ───────────────────────────────────────────────────────────

  function Payload(cfg: Config, s: Sample): S.ReadingPayload {
    S.ReadingPayload(S.Some(s.tankId), S.Some(s.productId as real), true, S.Some(s.at), S.Some(s.volume),
                     S.Some(ProductName(cfg, s.productId)),
                     S.Number(s.levelMm), S.Number(s.waterMm), S.Number(s.temperature), S.Number(s.fillPercent))
  }

  lemma SampleIsSound(t: Tank, m: Member, v: seq<real>, at: int)
    requires |v| == 6 && t.capacity > 0.0 && forall i | 0 <= i < 6 && i != 2 :: v[i] >= 0.0
    ensures var s := SampleOf(t, m, v, at); s.volume >= 0.0 && s.levelMm >= 0.0 && s.waterMm >= 0.0 && s.fillPercent >= 0.0
  {
    assert v[4] / t.capacity >= 0.0;
  }

  /** The stored reading carries what the probe measured: the entry's volume, temperature and
      heights in millimetres, under the tank's id, product and name. */
  ghost predicate ReadingShows(cfg: Config, e: Entry, s: Sample, after: S.Stock) {
    Samples6(cfg, e, s) && (s.tankId, e.r.at) in after.readings
    && var row := after.readings[(s.tankId, e.r.at)];
       && row.volume == s.volume && row.temperature == S.Some(s.temperature)
       && row.level == S.Some(s.levelMm) && row.water == S.Some(s.waterMm)
       && row.productId == s.productId && s.productId in cfg.products && row.productName == cfg.products[s.productId]
       && s.tankId in after.tanks
       && (after.tanks[s.tankId].capacity <= 0.0 ==> row.fillPercent == S.Some(s.fillPercent))
       && (after.tanks[s.tankId].capacity > 0.0 ==> row.fillPercent == S.Some(s.volume / after.tanks[s.tankId].capacity * 100.0))
  }

  lemma PayloadStored(cfg: Config, e: Entry, s: Sample, stock: S.Stock, fallback: string)
    requires Samples6(cfg, e, s) && s.productId in cfg.products && S.StoreReading(stock, Payload(cfg, s), fallback).Some?
    ensures ReadingShows(cfg, e, s, S.StoreReading(stock, Payload(cfg, s), fallback).value)
  {
    var r := Payload(cfg, s);
    S.ReadingIsIdempotent(stock, r, fallback, fallback);
    S.ReadingNamesProduct(stock, r, fallback);
    assert r.tankId == S.Some(s.tankId) && r.readingAt == S.Some(s.at) && s.at == e.r.at;
    assert r.productId == S.Some(s.productId as real) && r.productName == S.Some(cfg.products[s.productId]);
    hide Samples6; hide S.StoreReading; hide S.IsText;
  }

  /** The backend refuses a reading that a validated station takes only for a tank whose id
      is no text to it, whatever it has stored, known tank or not; and stores any other as
      the probe measured it. */
  lemma ReadingsAccepted(cfg: Config, e: Entry, stock: S.Stock, fallback: string)
    requires TanksOk(cfg) && ByteProducts(cfg)
    ensures Capacities(cfg)
    ensures forall s | s in SamplesOf(cfg, e) ::
              var after := S.StoreReading(stock, Payload(cfg, s), fallback);
              && (after.Some? <==> IsText(s.tankId))
              && (after.Some? ==> ReadingShows(cfg, e, s, after.value))
  {
    ValidCapacities(cfg);
    TankForHasProduct(cfg, e.m.slot);
    var tank := TankFor(cfg, e.m.slot);
    var v := Measured(e.m, e.r);
    if tank.Some? && v.Some? {
      var t := tank.value;
      assert FieldsOk(cfg, t);
      MeasuredHasSix(e.m, e.r);
      SampleIsSound(t, e.m, v.value, e.r.at);
      SampleIs(cfg, e);
      var s := SampleOf(t, e.m, v.value, e.r.at);
      SoundIsAccepted(cfg, s, stock, fallback);
      hide Trim; hide S.IsText; hide Id; hide TankFor; hide Measured; hide TanksOk; hide Samples6; hide ReadingShows;
      hide S.StoreReading; hide Payload; hide IsText; hide FieldsOk; hide ByteProducts;
      if S.StoreReading(stock, Payload(cfg, s), fallback).Some? {
        PayloadStored(cfg, e, s, stock, fallback);
      }
    }
  }

  lemma SoundIsAccepted(cfg: Config, s: Sample, stock: S.Stock, fallback: string)
    requires s.volume >= 0.0 && s.levelMm >= 0.0 && s.waterMm >= 0.0 && s.fillPercent >= 0.0 && s.productId <= 255
    ensures S.StoreReading(stock, Payload(cfg, s), fallback).Some? <==> IsText(s.tankId)
  {
    S.ReadingAcceptedIff(stock, Payload(cfg, s), fallback);
    hide S.IsText; hide S.StoreReading;
  }
}
