/** The backend's active tanks always mirror the newest catalog, whatever the order
    and repetition in which records arrive. */
module CatalogConvergence {
  import opened StockSync

  // ── What a catalog says ────────────────────────────────────────────────────

  ghost predicate EntriesOk(entries: seq<TankPayload>) {
    && (forall i | 0 <= i < |entries| :: TankOk(entries[i]))
    && (forall i, j | 0 <= i < j < |entries| :: entries[i].tankId != entries[j].tankId)
  }

  ghost predicate WellFormed(c: Catalog)
    ensures WellFormed(c) ==> c.tanks.Some? && IsDate(c.updatedAt)
  {
    c.tanks.Some? && IsDate(c.updatedAt) && EntriesOk(c.tanks.value)
  }

  /** The station's clock when it published the catalog. */
  function At(c: Catalog): int
    requires IsDate(c.updatedAt)
  {
    c.updatedAt.value.Floor
  }

  /** The rows a list of entries describes. */
  ghost function RowsOf(entries: seq<TankPayload>, at: int): map<string, Reservoir>
    requires forall i | 0 <= i < |entries| :: TankOk(entries[i])
    decreases |entries|
  {
    if entries == [] then map[]
    else
      assert TankOk(entries[0]);
      map[entries[0].tankId.value := Configured(entries[0], at)] + RowsOf(entries[1..], at)
  }

  ghost function View(c: Catalog): map<string, Reservoir>
    requires WellFormed(c)
  {
    RowsOf(c.tanks.value, At(c))
  }

  /** The tanks an operator sees as belonging to the station. */
  ghost function ActiveManaged(s: Stock): map<string, Reservoir> {
    map id | id in s.tanks && s.tanks[id].managed && s.tanks[id].active :: s.tanks[id]
  }

  // ── One catalog ────────────────────────────────────────────────────────────

  ghost predicate NoneNewer(tanks: map<string, Reservoir>, at: int) {
    forall id | id in tanks :: AtMost(tanks[id].configUpdatedAt, at)
  }

  /** The upsert loop succeeds exactly on entries that are well-formed, distinct and
      not among `ids`. */
  lemma {:induction false} UpsertSucceeds(tanks: map<string, Reservoir>, entries: seq<TankPayload>, at: int, ids: set<string>)
    ensures Upsert(tanks, entries, at, ids).Some?
       <==> EntriesOk(entries) && forall i | 0 <= i < |entries| :: entries[i].tankId.value !in ids
    decreases |entries|
  {
    hide TankOk; hide IsText; hide Configured;
    if entries != [] {
      var t, rest := entries[0], entries[1..];
      assert forall i | 0 <= i < |rest| :: rest[i] == entries[i + 1];
      if IsText(t.tankId) && t.tankId.value !in ids && TankOk(t) {
        var id := t.tankId.value;
        var stored := if id !in tanks || AtMost(tanks[id].configUpdatedAt, at) then tanks[id := Configured(t, at)] else tanks;
        UpsertSucceeds(stored, rest, at, ids + {id});
        if EntriesOk(rest) && (forall i | 0 <= i < |rest| :: rest[i].tankId.value !in ids + {id}) {
          ConsEntries(t, rest, entries);
        }
        if EntriesOk(entries) {
          forall i | 0 <= i < |rest| ensures rest[i].tankId.value != id {
            assert entries[i + 1].tankId != entries[0].tankId;
          }
        }
      }
    }
  }

  lemma ConsEntries(t: TankPayload, rest: seq<TankPayload>, entries: seq<TankPayload>)
    requires entries == [t] + rest && TankOk(t) && EntriesOk(rest)
    requires forall i | 0 <= i < |rest| :: rest[i].tankId != t.tankId
    ensures EntriesOk(entries)
  {
    forall i, j | 0 <= i < j < |entries| ensures entries[i].tankId != entries[j].tankId {
      if i > 0 {
        assert rest[i - 1].tankId != rest[j - 1].tankId;
      }
    }
  }

  /** When no stored row is newer, the loop leaves exactly the catalog's rows on top. */
  lemma {:induction false} UpsertStores(tanks: map<string, Reservoir>, entries: seq<TankPayload>, at: int, ids: set<string>)
    requires NoneNewer(tanks, at) && Upsert(tanks, entries, at, ids).Some?
    requires forall i | 0 <= i < |entries| :: TankOk(entries[i])
    ensures Upsert(tanks, entries, at, ids).value.0 == tanks + RowsOf(entries, at)
    ensures Upsert(tanks, entries, at, ids).value.1 == ids + RowsOf(entries, at).Keys
    decreases |entries|
  {
    hide TankOk; hide IsText;
    if entries != [] {
      var t, rest := entries[0], entries[1..];
      var id := t.tankId.value;
      var row := Configured(t, at);
      assert row.configUpdatedAt == Some(at);
      hide Configured;
      var stored := tanks[id := row];
      assert NoneNewer(stored, at);
      assert stored + RowsOf(rest, at) == tanks + RowsOf(entries, at);
      UpsertStores(stored, rest, at, ids + {id});
    }
  }

  /** The stored row that shows a catalog entry, field by field. */
  ghost predicate IsRowOf(r: Reservoir, t: TankPayload, at: int) {
    && t.title == Some(r.title) && t.productName == Some(r.productName) && t.capacity == Some(r.capacity)
    && t.productId.Some? && r.productId == t.productId.value.Floor && r.monitoring == t.monitoring
    && (if t.staleGiven then t.staleAfterSecs.Some? && r.staleAfterSecs == t.staleAfterSecs.value.Floor else r.staleAfterSecs == 600)
    && r.managed && r.active && r.configUpdatedAt == Some(at)
  }

  /** The active managed rows are the entries of the catalog, no more and no less. */
  ghost predicate Shows(tanks: map<string, Reservoir>, c: Catalog) {
    && c.tanks.Some? && c.updatedAt.Some?
    && (forall i | 0 <= i < |c.tanks.value| ::
          var t := c.tanks.value[i];
          t.tankId.Some? && t.tankId.value in tanks && IsRowOf(tanks[t.tankId.value], t, c.updatedAt.value.Floor))
    && (forall id | id in tanks && tanks[id].managed && tanks[id].active ::
          exists i | 0 <= i < |c.tanks.value| :: c.tanks.value[i].tankId == Some(id))
  }

  lemma ConfiguredIs(t: TankPayload, at: int)
    requires TankOk(t)
    ensures IsRowOf(Configured(t, at), t, at)
  {
    hide IsText;
  }

  lemma {:induction false} RowsAre(entries: seq<TankPayload>, at: int)
    requires EntriesOk(entries)
    ensures forall i | 0 <= i < |entries| ::
              entries[i].tankId.value in RowsOf(entries, at) && IsRowOf(RowsOf(entries, at)[entries[i].tankId.value], entries[i], at)
    ensures forall id | id in RowsOf(entries, at) :: exists i | 0 <= i < |entries| :: entries[i].tankId == Some(id)
    decreases |entries|
  {
    hide TankOk; hide Configured; hide IsRowOf;
    if entries != [] {
      var rest := entries[1..];
      assert forall i | 0 <= i < |rest| :: rest[i] == entries[i + 1];
      assert TankOk(entries[0]);
      ConfiguredIs(entries[0], at);
      RowsAre(rest, at);
      forall i | 0 <= i < |entries|
        ensures entries[i].tankId.value in RowsOf(entries, at) && IsRowOf(RowsOf(entries, at)[entries[i].tankId.value], entries[i], at)
      {
        if i > 0 {
          assert entries[0].tankId != entries[i].tankId && entries[i] == rest[i - 1] && TankOk(entries[i]);
        } else {
          forall j | 0 <= j < |rest| ensures rest[j].tankId != entries[0].tankId {
            assert entries[j + 1].tankId != entries[0].tankId;
          }
        }
      }
      forall id | id in RowsOf(entries, at) ensures exists i | 0 <= i < |entries| :: entries[i].tankId == Some(id) {
        if id in RowsOf(rest, at) {
          var j :| 0 <= j < |rest| && rest[j].tankId == Some(id);
          assert entries[j + 1].tankId == Some(id);
        }
      }
    }
  }

  lemma ViewShows(s: Stock, c: Catalog)
    requires WellFormed(c) && ActiveManaged(s) == View(c)
    ensures Shows(s.tanks, c)
  {
    RowsAre(c.tanks.value, At(c));
    var view := ActiveManaged(s);
    forall i | 0 <= i < |c.tanks.value|
      ensures var t := c.tanks.value[i];
              t.tankId.Some? && t.tankId.value in s.tanks && IsRowOf(s.tanks[t.tankId.value], t, c.updatedAt.value.Floor)
    {
      assert TankOk(c.tanks.value[i]) && c.tanks.value[i].tankId.value in view;
    }
    forall id | id in s.tanks && s.tanks[id].managed && s.tanks[id].active
      ensures exists i | 0 <= i < |c.tanks.value| :: c.tanks.value[i].tankId == Some(id)
    {
      assert id in view;
    }
  }

  /** A tank the catalog does not name keeps every field, except that a managed one is
      switched off and dated like the catalog. */
  ghost predicate KeepsFields(before: Reservoir, after: Reservoir, at: int) {
    && after.title == before.title && after.productId == before.productId && after.productName == before.productName
    && after.capacity == before.capacity && after.managed == before.managed && after.monitoring == before.monitoring
    && after.staleAfterSecs == before.staleAfterSecs
    && (if before.managed then !after.active && after.configUpdatedAt == Some(at)
        else after.active == before.active && after.configUpdatedAt == before.configUpdatedAt)
  }

  ghost predicate Listed(entries: seq<TankPayload>, id: string) { exists i | 0 <= i < |entries| :: entries[i].tankId == Some(id) }

  ghost predicate Names(c: Catalog, id: string) {
    c.tanks.Some? && Listed(c.tanks.value, id)
  }

  /** All that a catalog which takes over changes. */
  ghost predicate TookEffect(s: Stock, s': Stock, c: Catalog) {
    && c.tanks.Some? && c.updatedAt.Some?
    && s'.catalogAt == Some(c.updatedAt.value.Floor) && s'.readings == s.readings && s'.history == s.history
    && Shows(s'.tanks, c)
    && (forall id | id in s'.tanks && id !in s.tanks :: Names(c, id))
    && (forall id | id in s.tanks ::
          id in s'.tanks && (!Names(c, id) ==> KeepsFields(s.tanks[id], s'.tanks[id], c.updatedAt.value.Floor)))
  }

  // ── What a catalog does to any stock ───────────────────────────────────────

  ghost predicate Newer(tanks: map<string, Reservoir>, id: string, at: int) {
    id in tanks && tanks[id].configUpdatedAt.Some? && tanks[id].configUpdatedAt.value > at
  }

  /** The catalog's tanks get their rows, its other managed tanks are switched off, and a
      row dated after the catalog is left alone. */
  ghost predicate AppliesTo(before: map<string, Reservoir>, after: map<string, Reservoir>, c: Catalog) {
    && c.tanks.Some? && c.updatedAt.Some?
    && (forall id :: id in after <==> id in before || Names(c, id))
    && (forall id | Newer(before, id, c.updatedAt.value.Floor) :: after[id] == before[id])
    && (forall i | 0 <= i < |c.tanks.value| ::
          var t := c.tanks.value[i];
          t.tankId.Some? && (Newer(before, t.tankId.value, c.updatedAt.value.Floor)
                             || IsRowOf(after[t.tankId.value], t, c.updatedAt.value.Floor)))
    && (forall id | id in before && !Names(c, id) && !Newer(before, id, c.updatedAt.value.Floor) ::
          KeepsFields(before[id], after[id], c.updatedAt.value.Floor))
  }

  lemma {:induction false} UpsertApplies(tanks: map<string, Reservoir>, entries: seq<TankPayload>, at: int, ids: set<string>)
    requires EntriesOk(entries) && Upsert(tanks, entries, at, ids).Some?
    ensures var (after, named) := Upsert(tanks, entries, at, ids).value;
            && (forall id :: id in named <==> id in ids || Listed(entries, id))
            && (forall id :: id in after <==> id in tanks || Listed(entries, id))
            && (forall id | id in tanks && (Newer(tanks, id, at) || !Listed(entries, id)) :: after[id] == tanks[id])
            && (forall i | 0 <= i < |entries| && !Newer(tanks, entries[i].tankId.value, at) ::
                  IsRowOf(after[entries[i].tankId.value], entries[i], at))
    decreases |entries|
  {
    hide TankOk; hide IsText; hide Configured; hide IsRowOf;
    if entries != [] {
      var t, rest := entries[0], entries[1..];
      var id := t.tankId.value;
      assert TankOk(t);
      assert forall i | 0 <= i < |rest| :: rest[i] == entries[i + 1];
      var stored := if id !in tanks || AtMost(tanks[id].configUpdatedAt, at) then tanks[id := Configured(t, at)] else tanks;
      ConfiguredIs(t, at);
      UpsertApplies(stored, rest, at, ids + {id});
      ListedFirst(t, rest, entries);
      FirstIsAlone(t, rest, entries);
      forall i | 0 <= i < |entries| && !Newer(tanks, entries[i].tankId.value, at)
        ensures IsRowOf(Upsert(tanks, entries, at, ids).value.0[entries[i].tankId.value], entries[i], at)
      {
        if i > 0 {
          assert entries[i] == rest[i - 1] && entries[i].tankId != t.tankId && TankOk(entries[i]);
        }
      }
    }
  }

  lemma ListedFirst(t: TankPayload, rest: seq<TankPayload>, entries: seq<TankPayload>)
    requires entries == [t] + rest
    ensures forall id :: Listed(entries, id) <==> t.tankId == Some(id) || Listed(rest, id)
  {
    forall id ensures Listed(entries, id) <==> t.tankId == Some(id) || Listed(rest, id) {
      if Listed(rest, id) {
        var i :| 0 <= i < |rest| && rest[i].tankId == Some(id);
        assert entries[i + 1].tankId == Some(id);
      }
      if t.tankId == Some(id) {
        assert entries[0].tankId == Some(id);
      }
    }
  }

  lemma FirstIsAlone(t: TankPayload, rest: seq<TankPayload>, entries: seq<TankPayload>)
    requires entries == [t] + rest && EntriesOk(entries) && t.tankId.Some?
    ensures EntriesOk(rest) && !Listed(rest, t.tankId.value)
  {
    assert forall i | 0 <= i < |rest| :: rest[i] == entries[i + 1];
    hide TankOk;
    forall i | 0 <= i < |rest| ensures rest[i].tankId != t.tankId {
      assert entries[0].tankId != entries[i + 1].tankId;
    }
  }

  lemma RetireApplies(before: map<string, Reservoir>, stored: map<string, Reservoir>, ids: set<string>, c: Catalog)
    requires c.tanks.Some? && c.updatedAt.Some? && forall i | 0 <= i < |c.tanks.value| :: c.tanks.value[i].tankId.Some?
    requires forall id :: id in ids <==> Names(c, id)
    requires forall id :: id in stored <==> id in before || Names(c, id)
    requires var at := c.updatedAt.value.Floor;
             && (forall id | id in before && (Newer(before, id, at) || !Names(c, id)) :: stored[id] == before[id])
             && (forall i | 0 <= i < |c.tanks.value| && !Newer(before, c.tanks.value[i].tankId.value, at) ::
                   c.tanks.value[i].tankId.value in stored && IsRowOf(stored[c.tanks.value[i].tankId.value], c.tanks.value[i], at))
    ensures AppliesTo(before, Retire(stored, ids, c.updatedAt.value.Floor), c)
  {
    var at := c.updatedAt.value.Floor;
    var after := Retire(stored, ids, at);
    hide Names; hide IsRowOf;
    forall id | Newer(before, id, at) ensures after[id] == before[id] {
    }
    forall i | 0 <= i < |c.tanks.value| ensures Names(c, c.tanks.value[i].tankId.value) {
      NamesEntry(c, i);
    }
  }

  lemma NamesEntry(c: Catalog, i: nat)
    requires c.tanks.Some? && i < |c.tanks.value| && c.tanks.value[i].tankId.Some?
    ensures Names(c, c.tanks.value[i].tankId.value)
  {}

  /** A catalog not older than the station's stamp, on whatever stock. */
  lemma CatalogApplies(s: Stock, c: Catalog)
    requires StoreCatalog(s, c).Some? && AtMost(s.catalogAt, c.updatedAt.value.Floor)
    ensures var s' := StoreCatalog(s, c).value;
            && c.updatedAt.Some? && s'.catalogAt == Some(c.updatedAt.value.Floor)
            && s'.readings == s.readings && s'.history == s.history && AppliesTo(s.tanks, s'.tanks, c)
  {
    var entries, at := c.tanks.value, c.updatedAt.value.Floor;
    UpsertSucceeds(s.tanks, entries, at, {});
    UpsertApplies(s.tanks, entries, at, {});
    EntryIds(entries);
    var (stored, ids) := Upsert(s.tanks, entries, at, {}).value;
    assert StoreCatalog(s, c).value == s.(catalogAt := Some(at), tanks := Retire(stored, ids, at));
    hide Upsert; hide IsRowOf; hide IsDate; hide EntriesOk; hide Listed; hide Newer; hide Retire; hide StoreCatalog; hide AppliesTo;
    RetireApplies(s.tanks, stored, ids, c);
  }

  lemma EntryIds(entries: seq<TankPayload>)
    requires EntriesOk(entries)
    ensures forall i | 0 <= i < |entries| :: entries[i].tankId.Some? && Listed(entries, entries[i].tankId.value)
  {
    hide TankOk;
    forall i | 0 <= i < |entries| ensures entries[i].tankId.Some? && Listed(entries, entries[i].tankId.value) {
      assert TankOk(entries[i]);
    }
  }

  // ── The invariant behind convergence ───────────────────────────────────────

  /** Every managed row is dated no later than the station's catalog stamp, unmanaged
      rows carry no date, and the active managed rows are the newest catalog's. */
  ghost predicate Mirrors(s: Stock, newest: Option<Catalog>) {
    && (forall id | id in s.tanks :: s.tanks[id].managed <==> s.tanks[id].configUpdatedAt.Some?)
    && match newest
       case None => s.catalogAt == None && forall id | id in s.tanks :: !s.tanks[id].managed
       case Some(c) =>
         && WellFormed(c) && s.catalogAt == Some(At(c)) && NoneNewer(s.tanks, At(c))
         && ActiveManaged(s) == View(c)
  }

  /** A catalog takes over if it is well-formed and not older than the current one. */
  ghost predicate TakesOver(current: Option<Catalog>, c: Catalog) {
    WellFormed(c) && (current.Some? && WellFormed(current.value) ==> At(current.value) <= At(c))
  }

  /** Refused: no tank list, no valid stamp, or a malformed entry of a catalog that is not
      older than the stamp stored. */
  ghost predicate IsRefused(s: Stock, c: Catalog) {
    c.tanks.None? || !IsDate(c.updatedAt) || (AtMost(s.catalogAt, At(c)) && !EntriesOk(c.tanks.value))
  }

  /** Ignored: an older catalog, whatever its entries. */
  ghost predicate IsOutdated(s: Stock, c: Catalog) {
    c.tanks.Some? && IsDate(c.updatedAt) && !AtMost(s.catalogAt, At(c))
  }

  /** Exactly what becomes of a catalog: it takes over, is refused, or is acknowledged and
      ignored, the last without a look at its entries. */
  lemma CatalogStep(s: Stock, newest: Option<Catalog>, c: Catalog)
    requires Mirrors(s, newest)
    ensures var r := StoreCatalog(s, c);
            && (TakesOver(newest, c) ==> r.Some? && Mirrors(r.value, Some(c)) && TookEffect(s, r.value, c))
            && (r == None <==> IsRefused(s, c))
            && (IsOutdated(s, c) ==> r == Some(s))
    ensures TakesOver(newest, c) <==> !IsRefused(s, c) && !IsOutdated(s, c)
  {
    StampDecides(s, newest, c);
    hide Mirrors; hide Retire; hide NoneNewer; hide IsDate; hide StoreCatalog; hide AtMost; hide EntriesOk;
    RefusedIff(s, c);
    if WellFormed(c) && AtMost(s.catalogAt, At(c)) {
      StoresWellFormed(s, c);
      TookOver(s, c);
      EffectOf(s, c);
    }
  }

  lemma RetireKeeps(tanks: map<string, Reservoir>, view: map<string, Reservoir>, at: int)
    requires NoneNewer(tanks, at)
    ensures var r := Retire(tanks + view, view.Keys, at);
            && r.Keys == tanks.Keys + view.Keys
            && forall id | id in tanks && id !in view :: KeepsFields(tanks[id], r[id], at)
  {}

  lemma ViewNames(c: Catalog)
    requires WellFormed(c)
    ensures forall id :: id in View(c) <==> Names(c, id)
  {
    RowsAre(c.tanks.value, At(c));
    assert forall i | 0 <= i < |c.tanks.value| :: TankOk(c.tanks.value[i]);
    hide TankOk; hide RowsOf; hide IsRowOf;
  }

  lemma EffectOf(s: Stock, c: Catalog)
    requires WellFormed(c) && NoneNewer(s.tanks, At(c))
    requires forall id | id in s.tanks :: s.tanks[id].managed <==> s.tanks[id].configUpdatedAt.Some?
    ensures TookEffect(s, s.(catalogAt := Some(At(c)), tanks := Retire(s.tanks + View(c), View(c).Keys, At(c))), c)
  {
    var view := View(c);
    var s' := s.(catalogAt := Some(At(c)), tanks := Retire(s.tanks + view, view.Keys, At(c)));
    TookOver(s, c);
    assert ActiveManaged(s') == view;
    ViewShows(s', c);
    ViewNames(c);
    RetireKeeps(s.tanks, view, At(c));
    assert c.tanks.Some? && c.updatedAt.Some? && At(c) == c.updatedAt.value.Floor;
    hide Shows; hide Retire; hide ActiveManaged; hide Mirrors; hide KeepsFields; hide NoneNewer; hide View; hide Names; hide WellFormed; hide At;
  }

  lemma RefusedIff(s: Stock, c: Catalog)
    ensures StoreCatalog(s, c) == None <==> IsRefused(s, c)
    ensures IsOutdated(s, c) ==> StoreCatalog(s, c) == Some(s)
  {
    if c.tanks.Some? && IsDate(c.updatedAt) {
      UpsertSucceeds(s.tanks, c.tanks.value, At(c), {});
    }
    hide EntriesOk; hide Retire; hide IsDate; hide Upsert;
  }

  lemma StoresWellFormed(s: Stock, c: Catalog)
    requires WellFormed(c) && AtMost(s.catalogAt, At(c)) && NoneNewer(s.tanks, At(c))
    ensures StoreCatalog(s, c)
         == Some(s.(catalogAt := Some(At(c)), tanks := Retire(s.tanks + View(c), View(c).Keys, At(c))))
  {
    UpsertSucceeds(s.tanks, c.tanks.value, At(c), {});
    UpsertStores(s.tanks, c.tanks.value, At(c), {});
    hide EntriesOk; hide Retire; hide NoneNewer; hide IsDate; hide Upsert; hide RowsOf; hide AtMost;
    assert {} + View(c).Keys == View(c).Keys;
  }

  /** Comparing with the station's stamp decides which catalog is newest. */
  lemma StampDecides(s: Stock, newest: Option<Catalog>, c: Catalog)
    requires Mirrors(s, newest)
    ensures TakesOver(newest, c) <==> WellFormed(c) && AtMost(s.catalogAt, At(c))
    ensures forall id | id in s.tanks :: s.tanks[id].managed <==> s.tanks[id].configUpdatedAt.Some?
    ensures IsDate(c.updatedAt) && AtMost(s.catalogAt, At(c)) ==> NoneNewer(s.tanks, At(c))
  {
    hide EntriesOk; hide IsDate; hide RowsOf;
  }

  lemma {:induction false} RowsAreManaged(entries: seq<TankPayload>, at: int)
    requires forall i | 0 <= i < |entries| :: TankOk(entries[i])
    ensures forall id | id in RowsOf(entries, at) ::
              var r := RowsOf(entries, at)[id]; r.managed && r.active && r.configUpdatedAt == Some(at)
    decreases |entries|
  {
    hide TankOk;
    if entries != [] {
      RowsAreManaged(entries[1..], at);
    }
  }

  /** What retiring leaves when every row of `view` is active and dated `at`. */
  lemma RetireLeaves(tanks: map<string, Reservoir>, view: map<string, Reservoir>, at: int)
    requires NoneNewer(tanks, at)
    requires forall id | id in tanks :: tanks[id].managed <==> tanks[id].configUpdatedAt.Some?
    requires forall id | id in view :: view[id].managed && view[id].active && view[id].configUpdatedAt == Some(at)
    ensures var r := Retire(tanks + view, view.Keys, at);
            && NoneNewer(r, at) && r.Keys == tanks.Keys + view.Keys
            && (forall id | id in r :: r[id].managed <==> r[id].configUpdatedAt.Some?)
            && (forall id | id in view :: r[id] == view[id])
            && (forall id | id in r && id !in view :: r[id].managed ==> !r[id].active)
  {}

  lemma TookOver(s: Stock, c: Catalog)
    requires WellFormed(c) && NoneNewer(s.tanks, At(c))
    requires forall id | id in s.tanks :: s.tanks[id].managed <==> s.tanks[id].configUpdatedAt.Some?
    ensures var tanks := Retire(s.tanks + View(c), View(c).Keys, At(c));
            Mirrors(s.(catalogAt := Some(At(c)), tanks := tanks), Some(c))
  {
    RowsAreManaged(c.tanks.value, At(c));
    var view, at := View(c), At(c);
    RetireLeaves(s.tanks, view, at);
    hide WellFormed; hide View; hide At; hide RowsOf; hide EntriesOk; hide Retire; hide NoneNewer;
    assert ActiveManaged(s.(catalogAt := Some(at), tanks := Retire(s.tanks + view, view.Keys, at))) == view;
  }

  /** A reading leaves known tanks as they are and adds at most an unmanaged one. */
  lemma ReadingKeepsTanks(s: Stock, r: ReadingPayload, fallback: string)
    requires StoreReading(s, r, fallback).Some?
    ensures var s' := StoreReading(s, r, fallback).value;
            && s'.catalogAt == s.catalogAt && s.tanks.Keys <= s'.tanks.Keys
            && (forall id | id in s.tanks :: s'.tanks[id] == s.tanks[id])
            && (forall id | id in s'.tanks && id !in s.tanks :: !s'.tanks[id].managed && s'.tanks[id].configUpdatedAt == None)
  {
    hide IsText; hide IsProduct;
  }

  lemma OtherStep(s: Stock, newest: Option<Catalog>, r: Record, fallback: string)
    requires Mirrors(s, newest) && !r.TankCatalog? && Store(s, r, fallback).Some?
    ensures Mirrors(Store(s, r, fallback).value, newest)
  {
    hide IsText; hide WellFormed; hide RowsOf; hide StoreReading;
    var s' := Store(s, r, fallback).value;
    if r.ReservoirReading? {
      ReadingKeepsTanks(s, r.reading, fallback);
    }
    assert ActiveManaged(s') == ActiveManaged(s);
  }

  // ── Runs ───────────────────────────────────────────────────────────────────

  /** One arriving record; `fallback` is what the nozzle lookup answers at that moment. */
  datatype Arrival = Arrival(record: Record, fallback: string)

  /** A refused record is rolled back and changes nothing. */
  function Replay(s: Stock, arrivals: seq<Arrival>): Stock
    decreases |arrivals|
  {
    if arrivals == [] then s
    else
      var r := Store(s, arrivals[0].record, arrivals[0].fallback);
      Replay(if r.Some? then r.value else s, arrivals[1..])
  }

  /** The last catalog among those with the greatest stamp. */
  ghost function Newest(current: Option<Catalog>, arrivals: seq<Arrival>): Option<Catalog>
    decreases |arrivals|
  {
    if arrivals == [] then current
    else
      var r := arrivals[0].record;
      Newest(if r.TankCatalog? && TakesOver(current, r.catalog) then Some(r.catalog) else current, arrivals[1..])
  }

  lemma {:induction false} ReplayMirrors(s: Stock, newest: Option<Catalog>, arrivals: seq<Arrival>)
    requires Mirrors(s, newest)
    ensures Mirrors(Replay(s, arrivals), Newest(newest, arrivals))
    decreases |arrivals|
  {
    hide Mirrors; hide TakesOver;
    if arrivals != [] {
      var r := arrivals[0].record;
      var stored := Store(s, r, arrivals[0].fallback);
      var s' := if stored.Some? then stored.value else s;
      if r.TankCatalog? {
        CatalogStep(s, newest, r.catalog);
        ReplayMirrors(s', if TakesOver(newest, r.catalog) then Some(r.catalog) else newest, arrivals[1..]);
      } else {
        if stored.Some? {
          OtherStep(s, newest, r, arrivals[0].fallback);
        }
        ReplayMirrors(s', newest, arrivals[1..]);
      }
    }
  }

  ghost predicate Seen(arrivals: seq<Arrival>, c: Catalog)
    ensures Seen(arrivals, c) ==> WellFormed(c) && IsDate(c.updatedAt)
  {
    WellFormed(c) && exists i | 0 <= i < |arrivals| :: arrivals[i].record == TankCatalog(c)
  }

  lemma SeenCons(arrivals: seq<Arrival>, c: Catalog)
    requires arrivals != []
    ensures Seen(arrivals, c) <==> WellFormed(c) && (arrivals[0].record == TankCatalog(c) || Seen(arrivals[1..], c))
  {
    hide WellFormed;
    if Seen(arrivals, c) {
      var i :| 0 <= i < |arrivals| && arrivals[i].record == TankCatalog(c);
      if i > 0 {
        assert arrivals[1..][i - 1] == arrivals[i];
      }
    }
    if Seen(arrivals[1..], c) {
      var i :| 0 <= i < |arrivals[1..]| && arrivals[1..][i].record == TankCatalog(c);
      assert arrivals[i + 1] == arrivals[1..][i];
    }
  }

  /** `Newest` really is a newest one: it was seen, and nothing seen is later. */
  lemma {:induction false} NewestIsGreatest(current: Option<Catalog>, arrivals: seq<Arrival>)
    requires current.Some? ==> WellFormed(current.value)
    ensures var n := Newest(current, arrivals);
            && (n.Some? ==> WellFormed(n.value) && (n == current || Seen(arrivals, n.value)))
            && (current.Some? ==> n.Some? && At(current.value) <= At(n.value))
            && (forall c | Seen(arrivals, c) :: n.Some? && At(c) <= At(n.value))
    decreases |arrivals|
  {
    assert arrivals == [] ==> forall c :: !Seen(arrivals, c);
    hide WellFormed; hide Seen;
    if arrivals != [] {
      var r := arrivals[0].record;
      var next := if r.TankCatalog? && TakesOver(current, r.catalog) then Some(r.catalog) else current;
      NewestIsGreatest(next, arrivals[1..]);
      var n := Newest(current, arrivals);
      forall c | Seen(arrivals, c) ensures n.Some? && At(c) <= At(n.value) {
        SeenCons(arrivals, c);
      }
      if n.Some? {
        SeenCons(arrivals, n.value);
      }
    }
  }

  ghost predicate DistinctStamps(arrivals: seq<Arrival>) {
    forall c, d | Seen(arrivals, c) && Seen(arrivals, d) && At(c) == At(d) :: c == d
  }

  /** After any arrivals the active managed tanks are those of the newest well-formed
      catalog seen, fields included, or none if there was none. */
  lemma ActiveTanksMirrorNewest(arrivals: seq<Arrival>)
    ensures var n := Newest(None, arrivals);
            && (n.Some? ==> WellFormed(n.value) && Seen(arrivals, n.value)
                            && ActiveManaged(Replay(EMPTY, arrivals)) == View(n.value)
                            && Shows(Replay(EMPTY, arrivals).tanks, n.value))
            && (n.None? ==> ActiveManaged(Replay(EMPTY, arrivals)) == map[])
    ensures forall c | Seen(arrivals, c) :: Newest(None, arrivals).Some? && At(c) <= At(Newest(None, arrivals).value)
  {
    assert Mirrors(EMPTY, None);
    ReplayMirrors(EMPTY, None, arrivals);
    NewestIsGreatest(None, arrivals);
    hide Replay; hide Newest; hide WellFormed; hide Shows;
    if Newest(None, arrivals).Some? {
      ViewShows(Replay(EMPTY, arrivals), Newest(None, arrivals).value);
    }
  }

  /** Convergence: two histories that saw the same well-formed catalogs with distinct
      stamps, in any order, repeated or interleaved with anything, agree on them. */
  lemma Converges(a: seq<Arrival>, b: seq<Arrival>)
    requires (forall c :: Seen(a, c) <==> Seen(b, c)) && DistinctStamps(a)
    ensures ActiveManaged(Replay(EMPTY, a)) == ActiveManaged(Replay(EMPTY, b))
  {
    hide Replay; hide Newest; hide WellFormed; hide ActiveManaged; hide Seen; hide IsDate; hide View;
    ActiveTanksMirrorNewest(a);
    ActiveTanksMirrorNewest(b);
    var m, n := Newest(None, a), Newest(None, b);
    if m.Some? {
      assert Seen(b, m.value);
      assert n.Some? && Seen(a, n.value) && At(n.value) == At(m.value);
      assert m == n;
    }
    assert n.Some? ==> Seen(a, n.value);
  }
}
