/** External totals per station and fuel: complete groups only, exact sums. */
module GaugeTotals {
  import opened Wire
  import opened GaugeConfig
  import opened Modbus

  datatype Key = Field(name: string) | Percent(of: string) | MaxProductVolume

  datatype Row = Row(height: real, waterHeight: real, temperature: real, both: real, product: real, water: real)

  function Part(r: Row, f: nat): real
    requires f < 6
  {
    match f case 0 => r.height case 1 => r.waterHeight case 2 => r.temperature case 3 => r.both case 4 => r.product case _ => r.water
  }

  // ── Adding up a group ──────────────────────────────────────────────────────

  function Sum(rows: seq<Row>, f: nat): real
    requires f < 6
  {
    if rows == [] then 0.0 else Sum(rows[..|rows| - 1], f) + Part(rows[|rows| - 1], f)
  }

  function Larger(a: real, b: real): real { if a < b then b else a }

  function Max(rows: seq<Row>, f: nat): real
    requires f < 6 && rows != []
  {
    if |rows| == 1 then Part(rows[0], f) else Larger(Max(rows[..|rows| - 1], f), Part(rows[|rows| - 1], f))
  }

  function Weight(r: Row): real { Larger(r.product, 0.0) }

  function TotalWeight(rows: seq<Row>): real {
    if rows == [] then 0.0 else TotalWeight(rows[..|rows| - 1]) + Weight(rows[|rows| - 1])
  }

  function Pull(r: Row): real { Weight(r) * r.temperature }

  function WeightedSum(rows: seq<Row>): real {
    if rows == [] then 0.0 else WeightedSum(rows[..|rows| - 1]) + Pull(rows[|rows| - 1])
  }

  function Temperature(rows: seq<Row>): real
    requires rows != []
  {
    if TotalWeight(rows) > 0.0 then WeightedSum(rows) / TotalWeight(rows) else Sum(rows, 2) / |rows| as real
  }

  /** Heights are the highest, the temperature is weighted by volume, volumes add up. */
  function Aggregate(rows: seq<Row>): Row
    requires rows != []
  {
    if |rows| == 1 then rows[0]
    else Row(Max(rows, 0), Max(rows, 1), Temperature(rows), Sum(rows, 3), Sum(rows, 4), Sum(rows, 5))
  }

  // ── Denominators ───────────────────────────────────────────────────────────

  function KeySum(ms: seq<map<string, real>>, k: string): real {
    if ms == [] then 0.0
    else
      var last := ms[|ms| - 1];
      KeySum(ms[..|ms| - 1], k) + (if k in last then last[k] else 0.0)
  }

  function Keys(ms: seq<map<string, real>>): set<string> {
    if ms == [] then {} else Keys(ms[..|ms| - 1]) + ms[|ms| - 1].Keys
  }

  function KeySums(ms: seq<map<string, real>>): map<string, real> { map k | k in Keys(ms) :: KeySum(ms, k) }

  predicate Everywhere(ms: seq<map<string, real>>, k: string) { forall i | 0 <= i < |ms| :: k in ms[i] }

  /** Sums the maxima per key, in any order of the keys. */
  method SumMaxima(ms: seq<map<string, real>>) returns (out: map<string, real>)
    ensures out == KeySums(ms)
  {
    out := map[];
    var i := 0;
    while i < |ms|
      invariant 0 <= i <= |ms| && out == KeySums(ms[..i])
    {
      var m := ms[i];
      assert ms[..i + 1][..i] == ms[..i];
      var before := out;
      var keys := m.Keys;
      while keys != {}
        invariant keys <= m.Keys
        invariant out.Keys == before.Keys + (m.Keys - keys)
        invariant forall k | k in out ::
                    out[k] == (if k in before then before[k] else 0.0) + (if k in m && k !in keys then m[k] else 0.0)
        decreases keys
      {
        var k :| k in keys;
        out := out[k := (if k in out then out[k] else 0.0) + m[k]];
        keys := keys - {k};
      }
      NoKeyNoSum(ms[..i]);
      i := i + 1;
    }
    assert ms[..i] == ms;
  }

  lemma {:induction false} NoKeyNoSum(ms: seq<map<string, real>>)
    ensures forall k | k !in Keys(ms) :: KeySum(ms, k) == 0.0
    decreases |ms|
  {
    if ms != [] {
      NoKeyNoSum(ms[..|ms| - 1]);
    }
  }

  // ── The published object ───────────────────────────────────────────────────

  function Meta(row: Row): map<Key, real> {
    map[Field("product_height") := row.height, Field("water_height") := row.waterHeight,
        Field("product_temperature") := row.temperature, Field("product_and_water_volume") := row.both,
        Field("product_volume") := row.product, Field("water_volume") := row.water]
  }

  function Ratio(part: real, whole: real): real
    requires whole > 0.0
  {
    part / whole * 100.0
  }

  function Percents(meta: map<Key, real>, maxima: map<string, real>, keys: set<string>): map<Key, real> {
    map k | k in keys && k in maxima && maxima[k] > 0.0 && Field(k) in meta :: Percent(k) := Ratio(meta[Field(k)], maxima[k])
  }

  /** `meta` with a percentage for every usable denominator it has a value for. */
  function WithPercentages(meta: map<Key, real>, maxima: map<string, real>): map<Key, real> {
    var all := meta + Percents(meta, maxima, maxima.Keys);
    if "product_volume" in maxima then all[MaxProductVolume := maxima["product_volume"]] else all
  }

  /** What was gathered for one group while walking the slots. */
  datatype Group = Group(rows: seq<Row>, maxima: seq<map<string, real>>, complete: bool)

  function Publish(g: Group): Option<map<Key, real>> {
    if !g.complete || g.rows == [] then None
    else
      var sums := KeySums(g.maxima);
      Some(WithPercentages(Meta(Aggregate(g.rows)), map k | k in sums && Everywhere(g.maxima, k) :: sums[k]))
  }

  function ValuesOf(m: Member, readings: map<nat, seq<Num>>): Option<Row> {
    var v := if m.branch.id in readings then SlotValues(readings[m.branch.id], m.slot.slot) else None;
    if v.None? then None
    else Some(Row(v.value[0], v.value[1], v.value[2], v.value[3], v.value[4], v.value[5]))
  }

  /** A slot's denominators; the capacity of its tank, or else its own, wins for both volumes. */
  function MaximaOf(cfg: Config, slot: Slot): map<string, real> {
    var t := TankFor(cfg, slot);
    var capacity := if t.Some? then Some(t.value.capacity) else slot.capacity;
    if capacity.None? then slot.maxima
    else slot.maxima["product_volume" := capacity.value]["product_and_water_volume" := capacity.value]
  }

  const FRESH := Group([], [], true)

  function Join(cfg: Config, readings: map<nat, seq<Num>>, g: Group, m: Member): Group {
    var v := ValuesOf(m, readings);
    if v.Some? then Group(g.rows + [v.value], g.maxima + [MaximaOf(cfg, m.slot)], g.complete)
    else g.(complete := false)
  }

  function Grouped(cfg: Config, readings: map<nat, seq<Num>>, groups: map<(nat, string), Group>, m: Member): map<(nat, string), Group> {
    var k := GroupOf(m);
    groups[k := Join(cfg, readings, if k in groups then groups[k] else FRESH, m)]
  }

  function Groups(cfg: Config, readings: map<nat, seq<Num>>, ms: seq<Member>): map<(nat, string), Group> {
    if ms == [] then map[] else Grouped(cfg, readings, Groups(cfg, readings, ms[..|ms| - 1]), ms[|ms| - 1])
  }

  function Round(cfg: Config, readings: map<nat, seq<Num>>, ms: seq<Member>): map<(nat, string), map<Key, real>> {
    var groups := Groups(cfg, readings, ms);
    map k | k in groups && Publish(groups[k]).Some? :: Publish(groups[k]).value
  }

  // ── As the source runs it ──────────────────────────────────────────────────

  method BuildRound(cfg: Config, branches: seq<Branch>, readings: map<nat, seq<Num>>) returns (out: map<(nat, string), map<Key, real>>)
    ensures out == Round(cfg, readings, Members(branches))
  {
    hide Grouped; hide MembersOf; hide Publish;
    var groups: map<(nat, string), Group> := map[];
    var i := 0;
    while i < |branches|
      invariant 0 <= i <= |branches| && groups == Groups(cfg, readings, Members(branches[..i]))
    {
      assert branches[..i + 1][..i] == branches[..i];
      groups := GatherBranch(cfg, branches[i], readings, groups, Members(branches[..i]));
      i := i + 1;
    }
    assert branches[..i] == branches;
    out := PublishAll(groups);
  }

  method GatherBranch(cfg: Config, b: Branch, readings: map<nat, seq<Num>>, groups: map<(nat, string), Group>, ghost before: seq<Member>)
    returns (after: map<(nat, string), Group>)
    requires groups == Groups(cfg, readings, before)
    ensures after == Groups(cfg, readings, before + MembersOf(b))
  {
    hide Grouped; hide Groups; hide Of; hide Collected;
    after := groups;
    ghost var own := MembersOf(b);
    assert before + own[..0] == before;
    var k := 0;
    while k < |b.slots|
      invariant 0 <= k <= |b.slots| && after == Groups(cfg, readings, before + own[..k])
    {
      assert before + own[..k + 1] == (before + own[..k]) + [own[k]];
      Snoc(cfg, readings, before + own[..k], own[k], GroupOf(own[k]));
      after := Grouped(cfg, readings, after, Member(b, b.slots[k]));
      k := k + 1;
    }
    assert before + own[..k] == before + own;
  }

  method PublishAll(groups: map<(nat, string), Group>) returns (out: map<(nat, string), map<Key, real>>)
    ensures out == map k | k in groups && Publish(groups[k]).Some? :: Publish(groups[k]).value
  {
    hide Publish;
    out := map[];
    var keys := groups.Keys;
    while keys != {}
      invariant keys <= groups.Keys
      invariant out == map k | k in groups && k !in keys && Publish(groups[k]).Some? :: Publish(groups[k]).value
      decreases keys
    {
      var k :| k in keys;
      var p := PublishGroup(groups[k]);
      if p.Some? {
        out := out[k := p.value];
      }
      keys := keys - {k};
    }
  }

  method PublishGroup(g: Group) returns (p: Option<map<Key, real>>)
    ensures p == Publish(g)
  {
    if !g.complete || g.rows == [] {
      return None;
    }
    var sums := SumMaxima(g.maxima);
    var shared := map k | k in sums && Everywhere(g.maxima, k) :: sums[k];
    var meta := Meta(Aggregate(g.rows));
    var out := ApplyPercentages(meta, shared);
    return Some(out);
  }

  method ApplyPercentages(meta: map<Key, real>, maxima: map<string, real>) returns (out: map<Key, real>)
    ensures out == WithPercentages(meta, maxima)
  {
    hide Percents; hide Ratio;
    var additions: map<Key, real> := map[];
    var keys := maxima.Keys;
    NoPercents(meta, maxima);
    assert maxima.Keys - keys == {};
    while keys != {}
      invariant keys <= maxima.Keys && additions == Percents(meta, maxima, maxima.Keys - keys)
      decreases keys
    {
      var k :| k in keys;
      OneMorePercent(meta, maxima, maxima.Keys - keys, k);
      assert maxima.Keys - (keys - {k}) == maxima.Keys - keys + {k};
      if maxima[k] > 0.0 && Field(k) in meta {
        additions := additions[Percent(k) := Ratio(meta[Field(k)], maxima[k])];
      }
      keys := keys - {k};
    }
    assert maxima.Keys - keys == maxima.Keys;
    out := meta + additions;
    if "product_volume" in maxima {
      out := out[MaxProductVolume := maxima["product_volume"]];
    }
  }

  lemma NoPercents(meta: map<Key, real>, maxima: map<string, real>)
    ensures Percents(meta, maxima, {}) == map[]
  {}

  lemma OneMorePercent(meta: map<Key, real>, maxima: map<string, real>, keys: set<string>, k: string)
    requires k in maxima
    ensures Percents(meta, maxima, keys + {k})
         == if maxima[k] > 0.0 && Field(k) in meta
            then Percents(meta, maxima, keys)[Percent(k) := Ratio(meta[Field(k)], maxima[k])]
            else Percents(meta, maxima, keys)
  {}

  // ── What a published total is ──────────────────────────────────────────────

  /** The slots that feed one external total, on whichever controllers they are. */
  function Of(ms: seq<Member>, k: (nat, string)): seq<Member> {
    if ms == [] then []
    else
      var last := ms[|ms| - 1];
      Of(ms[..|ms| - 1], k) + (if GroupOf(last) == k then [last] else [])
  }

  function Collected(cfg: Config, readings: map<nat, seq<Num>>, own: seq<Member>): Group {
    if own == [] then FRESH else Join(cfg, readings, Collected(cfg, readings, own[..|own| - 1]), own[|own| - 1])
  }

  predicate AllValid(readings: map<nat, seq<Num>>, own: seq<Member>) {
    forall i | 0 <= i < |own| :: ValuesOf(own[i], readings).Some?
  }

  lemma Snoc(cfg: Config, readings: map<nat, seq<Num>>, ms: seq<Member>, m: Member, k: (nat, string))
    ensures Of(ms + [m], k) == if GroupOf(m) == k then Of(ms, k) + [m] else Of(ms, k)
    ensures Groups(cfg, readings, ms + [m]) == Grouped(cfg, readings, Groups(cfg, readings, ms), m)
    ensures Collected(cfg, readings, ms + [m]) == Join(cfg, readings, Collected(cfg, readings, ms), m)
  {
    hide Join; hide GroupOf; hide Grouped;
    assert (ms + [m])[..|ms|] == ms;
  }

  lemma GroupedAt(cfg: Config, readings: map<nat, seq<Num>>, groups: map<(nat, string), Group>, m: Member, k: (nat, string))
    ensures var after := Grouped(cfg, readings, groups, m);
            if GroupOf(m) == k then k in after && after[k] == Join(cfg, readings, if k in groups then groups[k] else FRESH, m)
            else (k in after <==> k in groups) && (k in groups ==> after[k] == groups[k])
  {
    hide Join; hide GroupOf;
  }

  lemma {:induction false} GroupsAre(cfg: Config, readings: map<nat, seq<Num>>, ms: seq<Member>, k: (nat, string))
    ensures k in Groups(cfg, readings, ms) <==> Of(ms, k) != []
    ensures k in Groups(cfg, readings, ms) ==> Groups(cfg, readings, ms)[k] == Collected(cfg, readings, Of(ms, k))
    decreases |ms|
  {
    if ms != [] {
      var last, before := ms[|ms| - 1], ms[..|ms| - 1];
      GroupsAre(cfg, readings, before, k);
      var own := Of(before, k);
      assert own == [] ==> Collected(cfg, readings, own) == FRESH;
      hide *;
      assert before + [last] == ms;
      Snoc(cfg, readings, before, last, k);
      Snoc(cfg, readings, own, last, k);
      GroupedAt(cfg, readings, Groups(cfg, readings, before), last, k);
    }
  }

  lemma {:induction false} CollectedIs(cfg: Config, readings: map<nat, seq<Num>>, own: seq<Member>)
    ensures Collected(cfg, readings, own).complete <==> AllValid(readings, own)
    ensures AllValid(readings, own) ==>
              && |Collected(cfg, readings, own).rows| == |own| == |Collected(cfg, readings, own).maxima|
              && forall i | 0 <= i < |own| ::
                   && Collected(cfg, readings, own).rows[i] == ValuesOf(own[i], readings).value
                   && Collected(cfg, readings, own).maxima[i] == MaximaOf(cfg, own[i].slot)
    decreases |own|
  {
    hide ValuesOf; hide MaximaOf;
    if own != [] {
      var before := own[..|own| - 1];
      CollectedIs(cfg, readings, before);
      assert forall i | 0 <= i < |before| :: before[i] == own[i];
    }
  }

  /** A slot feeds the external total of its fuel at its controller's station: the
      external station if one is given, else the controller's own number. */
  predicate Feeds(m: Member, k: (nat, string)) {
    && k.1 == m.slot.fuel
    && (m.branch.externalId.Some? ==> k.0 == m.branch.externalId.value)
    && (m.branch.externalId.None? ==> k.0 == m.branch.id)
  }

  /** The six numbers read for a slot, if its controller answered and they are possible. */
  function SixOf(readings: map<nat, seq<Num>>, m: Member): Option<seq<real>> {
    if m.branch.id in readings then SlotValues(readings[m.branch.id], m.slot.slot) else None
  }

  lemma {:induction false} OfIsFilter(ms: seq<Member>, k: (nat, string))
    ensures forall m :: m in Of(ms, k) <==> m in ms && Feeds(m, k)
    decreases |ms|
  {
    forall m ensures Feeds(m, k) <==> GroupOf(m) == k {
    }
    hide GroupOf; hide Feeds;
    if ms != [] {
      OfIsFilter(ms[..|ms| - 1], k);
      assert ms == ms[..|ms| - 1] + [ms[|ms| - 1]];
    }
  }

  /** A total is published exactly when its group has a slot and every slot of it, on
      every controller, has a valid reading: never a partial total. */
  lemma PublishedIffComplete(cfg: Config, readings: map<nat, seq<Num>>, ms: seq<Member>, k: (nat, string))
    ensures k in Round(cfg, readings, ms) <==>
              && (exists m :: m in ms && Feeds(m, k))
              && (forall m | m in ms && Feeds(m, k) :: SixOf(readings, m).Some?)
  {
    var own := Of(ms, k);
    GroupsAre(cfg, readings, ms, k);
    OfIsFilter(ms, k);
    CollectedIs(cfg, readings, own);
    forall m ensures ValuesOf(m, readings).Some? <==> SixOf(readings, m).Some? {
      RowIs(readings, m);
    }
    hide ValuesOf; hide SixOf; hide GroupOf; hide Feeds; hide Of; hide Groups; hide Collected; hide KeySums;
    if own != [] {
      assert own[0] in own;
    }
    assert AllValid(readings, own) <==> forall m | m in own :: ValuesOf(m, readings).Some?;
  }

  /** What is published is made of the rows and denominators of exactly those slots. */
  lemma PublishedFrom(cfg: Config, readings: map<nat, seq<Num>>, ms: seq<Member>, k: (nat, string)) returns (rows: seq<Row>, maxima: seq<map<string, real>>)
    requires k in Round(cfg, readings, ms)
    ensures |rows| == |maxima| == |Of(ms, k)| && rows != [] && AllValid(readings, Of(ms, k))
    ensures forall i | 0 <= i < |rows| ::
              rows[i] == ValuesOf(Of(ms, k)[i], readings).value && maxima[i] == MaximaOf(cfg, Of(ms, k)[i].slot)
    ensures Publish(Group(rows, maxima, true)) == Some(Round(cfg, readings, ms)[k])
  {
    var own := Of(ms, k);
    GroupsAre(cfg, readings, ms, k);
    CollectedIs(cfg, readings, own);
    hide ValuesOf; hide MaximaOf; hide GroupOf; hide Of; hide Groups; hide Collected; hide KeySums;
    var g := Groups(cfg, readings, ms)[k];
    rows, maxima := g.rows, g.maxima;
  }

  lemma {:induction false} MaxIs(rows: seq<Row>, f: nat)
    requires f < 6 && rows != []
    ensures forall i | 0 <= i < |rows| :: Part(rows[i], f) <= Max(rows, f)
    ensures exists i | 0 <= i < |rows| :: Part(rows[i], f) == Max(rows, f)
    decreases |rows|
  {
    hide Part;
    var last := |rows| - 1;
    assert Part(rows[last], f) == Part(rows[last], f);
    if |rows| > 1 {
      MaxIs(rows[..last], f);
      var i :| 0 <= i < last && Part(rows[..last][i], f) == Max(rows[..last], f);
      assert Part(rows[i], f) == Max(rows[..last], f);
      forall j | 0 <= j < last ensures Part(rows[j], f) <= Max(rows, f) {
        assert Part(rows[..last][j], f) <= Max(rows[..last], f);
      }
    }
  }

  /** A sum of amounts `n` lies between `lo` and `hi` times as much. */
  ghost predicate Within(lo: real, hi: real, n: real, sum: real) { lo * n <= sum <= hi * n }

  lemma WithinAdds(lo: real, hi: real, n: real, sum: real, w: real, p: real)
    requires Within(lo, hi, n, sum) && Within(lo, hi, w, p)
    ensures Within(lo, hi, n + w, sum + p)
  {
    assert lo * (n + w) == lo * n + lo * w && hi * (n + w) == hi * n + hi * w;
  }

  lemma PullBetween(r: Row, lo: real, hi: real)
    requires lo <= r.temperature <= hi
    ensures Weight(r) >= 0.0 && Within(lo, hi, Weight(r), Pull(r)) && Within(lo, hi, 1.0, r.temperature)
  {
    var w, t := Weight(r), r.temperature;
    assert w >= 0.0 && Pull(r) == w * t;
    hide Weight; hide Pull;
    assert lo * w <= t * w <= hi * w;
  }

  lemma {:induction false} SumsBetween(rows: seq<Row>, lo: real, hi: real)
    requires forall i | 0 <= i < |rows| :: lo <= rows[i].temperature <= hi
    ensures TotalWeight(rows) >= 0.0 && Within(lo, hi, TotalWeight(rows), WeightedSum(rows))
    ensures Within(lo, hi, |rows| as real, Sum(rows, 2))
    decreases |rows|
  {
    if rows != [] {
      var before, last := rows[..|rows| - 1], rows[|rows| - 1];
      SumsBetween(before, lo, hi);
      hide Within; hide Weight; hide Pull;
      PullBetween(last, lo, hi);
      WithinAdds(lo, hi, TotalWeight(before), WeightedSum(before), Weight(last), Pull(last));
      WithinAdds(lo, hi, |before| as real, Sum(before, 2), 1.0, last.temperature);
    }
  }

  lemma Divided(sum: real, n: real, lo: real, hi: real)
    requires n > 0.0 && Within(lo, hi, n, sum)
    ensures lo <= sum / n <= hi
  {}

  lemma WeightedIn(rows: seq<Row>, lo: real, hi: real)
    requires rows != [] && forall i | 0 <= i < |rows| :: lo <= rows[i].temperature <= hi
    ensures lo <= Temperature(rows) <= hi
  {
    SumsBetween(rows, lo, hi);
    hide WeightedSum; hide Sum; hide TotalWeight; hide Within;
    if TotalWeight(rows) > 0.0 {
      Divided(WeightedSum(rows), TotalWeight(rows), lo, hi);
    } else {
      Divided(Sum(rows, 2), |rows| as real, lo, hi);
    }
  }

  lemma TemperatureBetween(rows: seq<Row>, lo: real, hi: real)
    requires rows != [] && forall i | 0 <= i < |rows| :: lo <= rows[i].temperature <= hi
    ensures lo <= Aggregate(rows).temperature <= hi
  {
    hide Temperature; hide Sum; hide Max;
    WeightedIn(rows, lo, hi);
  }

  ghost predicate Figures(meta: map<Key, real>, rows: seq<Row>)
    requires rows != []
    ensures Figures(meta, rows) ==> Field("product_temperature") in meta
  {
    && Field("product_volume") in meta && meta[Field("product_volume")] == Sum(rows, 4)
    && Field("product_and_water_volume") in meta && meta[Field("product_and_water_volume")] == Sum(rows, 3)
    && Field("water_volume") in meta && meta[Field("water_volume")] == Sum(rows, 5)
    && Field("product_height") in meta && meta[Field("product_height")] == Max(rows, 0)
    && Field("water_height") in meta && meta[Field("water_height")] == Max(rows, 1)
    && Field("product_temperature") in meta && Balanced(meta[Field("product_temperature")], rows)
  }

  /** The mean that the slots' own temperatures balance around: by volume, or evenly when
      there is none. */
  ghost predicate Balanced(mean: real, rows: seq<Row>) {
    if TotalWeight(rows) > 0.0 then mean * TotalWeight(rows) == WeightedSum(rows)
    else mean * |rows| as real == Sum(rows, 2)
  }

  lemma MeanBalances(rows: seq<Row>)
    requires rows != []
    ensures Balanced(Aggregate(rows).temperature, rows)
  {
    if |rows| == 1 {
      SingleBalances(rows);
    } else if TotalWeight(rows) > 0.0 {
      TimesBack(WeightedSum(rows), TotalWeight(rows));
    } else {
      TimesBack(Sum(rows, 2), |rows| as real);
    }
    hide Max; hide Sum; hide TotalWeight; hide WeightedSum;
  }

  lemma TimesBack(a: real, n: real)
    requires n != 0.0
    ensures a / n * n == a
  {}

  lemma SingleBalances(rows: seq<Row>)
    requires |rows| == 1
    ensures Balanced(rows[0].temperature, rows)
  {
    var t, w := rows[0].temperature, Weight(rows[0]);
    assert rows[..0] == [];
    assert TotalWeight(rows) == 0.0 + w && WeightedSum(rows) == 0.0 + w * t && Sum(rows, 2) == 0.0 + t;
    hide *;
    assert t * w == w * t;
  }

  lemma FiguresOf(meta: map<Key, real>, rows: seq<Row>, maxima: seq<map<string, real>>)
    requires rows != [] && Publish(Group(rows, maxima, true)) == Some(meta)
    ensures Figures(meta, rows) && meta[Field("product_temperature")] == Aggregate(rows).temperature
  {
    var sums := KeySums(maxima);
    var shared := map k | k in sums && Everywhere(maxima, k) :: sums[k];
    assert meta == WithPercentages(Meta(Aggregate(rows)), shared);
    MetaLooks(Aggregate(rows));
    MeanBalances(rows);
    AddsOnlyPercentages(Meta(Aggregate(rows)), shared);
    hide Balanced; hide KeySums; hide WithPercentages; hide Temperature; hide Max; hide Sum; hide Meta;
    if |rows| == 1 {
      SingleSum(rows);
    }
  }

  // ── In terms of the readings ───────────────────────────────────────────────

  function SumOf(xs: seq<real>): real { if xs == [] then 0.0 else SumOf(xs[..|xs| - 1]) + xs[|xs| - 1] }

  /** What each of the slots reads at one of its six places. */
  function Column(readings: map<nat, seq<Num>>, own: seq<Member>, f: nat): (r: seq<real>)
    requires f < 6
    ensures |r| == |own|
  {
    seq(|own|, i requires 0 <= i < |own| =>
      var six := SixOf(readings, own[i]); if six.Some? then six.value[f] else 0.0)
  }

  function Weights(volumes: seq<real>): (r: seq<real>)
    ensures |r| == |volumes|
  {
    seq(|volumes|, i requires 0 <= i < |volumes| => if volumes[i] > 0.0 then volumes[i] else 0.0)
  }

  function Products(a: seq<real>, b: seq<real>): (r: seq<real>)
    requires |a| == |b|
    ensures |r| == |a|
  {
    seq(|a|, i requires 0 <= i < |a| => Times(a[i], b[i]))
  }

  function Times(a: real, b: real): real { a * b }

  ghost predicate IsHighest(x: real, xs: seq<real>) { x in xs && forall i | 0 <= i < |xs| :: xs[i] <= x }

  /** `mean` is what the temperatures balance around: each with the weight of its volume, or
      all alike when no volume is positive. */
  ghost predicate IsMean(mean: real, temperatures: seq<real>, volumes: seq<real>)
    requires |temperatures| == |volumes|
  {
    var weights := Weights(volumes);
    if SumOf(weights) > 0.0 then mean * SumOf(weights) == SumOf(Products(weights, temperatures))
    else mean * |temperatures| as real == SumOf(temperatures)
  }

  /** Sums of the last three numbers of every slot, the largest of the first two, and the
      mean of the third weighted by the fifth. */
  ghost predicate TotalsOf(meta: map<Key, real>, readings: map<nat, seq<Num>>, own: seq<Member>)
    ensures TotalsOf(meta, readings, own) ==> forall name | name in FIELDS :: Field(name) in meta
  {
    && (forall name | name in FIELDS :: Field(name) in meta)
    && IsHighest(meta[Field("product_height")], Column(readings, own, 0))
    && IsHighest(meta[Field("water_height")], Column(readings, own, 1))
    && IsMean(meta[Field("product_temperature")], Column(readings, own, 2), Column(readings, own, 4))
    && meta[Field("product_and_water_volume")] == SumOf(Column(readings, own, 3))
    && meta[Field("product_volume")] == SumOf(Column(readings, own, 4))
    && meta[Field("water_volume")] == SumOf(Column(readings, own, 5))
  }

  /** The rows hold what the columns hold. */
  ghost predicate RowsOf(rows: seq<Row>, readings: map<nat, seq<Num>>, own: seq<Member>) {
    && |rows| == |own|
    && forall f, i | 0 <= f < 6 && 0 <= i < |own| :: Part(rows[i], f) == Column(readings, own, f)[i]
  }

  lemma RowIs(readings: map<nat, seq<Num>>, m: Member)
    ensures ValuesOf(m, readings).Some? <==> SixOf(readings, m).Some?
    ensures SixOf(readings, m).Some? ==>
              && |SixOf(readings, m).value| == 6
              && forall f | 0 <= f < 6 :: Part(ValuesOf(m, readings).value, f) == SixOf(readings, m).value[f]
  {}

  lemma RowsFromReadings(rows: seq<Row>, readings: map<nat, seq<Num>>, own: seq<Member>)
    requires |rows| == |own| && forall i | 0 <= i < |own| :: Some(rows[i]) == ValuesOf(own[i], readings)
    ensures RowsOf(rows, readings, own) && forall i | 0 <= i < |own| :: SixOf(readings, own[i]).Some?
  {
    hide SixOf; hide ValuesOf; hide Part;
    forall i | 0 <= i < |own| ensures SixOf(readings, own[i]).Some? {
      RowIs(readings, own[i]);
    }
    forall f, i | 0 <= f < 6 && 0 <= i < |own| ensures Part(rows[i], f) == Column(readings, own, f)[i] {
      RowIs(readings, own[i]);
    }
  }

  lemma {:induction false} SumIs(rows: seq<Row>, f: nat, xs: seq<real>)
    requires f < 6 && |rows| == |xs| && forall i | 0 <= i < |rows| :: Part(rows[i], f) == xs[i]
    ensures Sum(rows, f) == SumOf(xs)
    decreases |rows|
  {
    hide Part;
    if rows != [] {
      SumIs(rows[..|rows| - 1], f, xs[..|xs| - 1]);
    }
  }

  lemma PrefixOfProducts(volumes: seq<real>, temperatures: seq<real>, n: nat)
    requires n <= |volumes| == |temperatures|
    ensures Weights(volumes)[..n] == Weights(volumes[..n])
    ensures Products(Weights(volumes), temperatures)[..n] == Products(Weights(volumes[..n]), temperatures[..n])
  {
    var weights := Weights(volumes);
    assert weights[..n] == Weights(volumes[..n]);
    hide Weights; hide Times;
    assert Products(weights, temperatures)[..n] == Products(weights[..n], temperatures[..n]);
  }

  lemma {:induction false} WeightsAre(rows: seq<Row>, temperatures: seq<real>, volumes: seq<real>)
    requires |rows| == |temperatures| == |volumes|
    requires forall i | 0 <= i < |rows| :: rows[i].temperature == temperatures[i] && rows[i].product == volumes[i]
    ensures TotalWeight(rows) == SumOf(Weights(volumes))
    ensures WeightedSum(rows) == SumOf(Products(Weights(volumes), temperatures))
    decreases |rows|
  {
    if rows != [] {
      var n := |rows| - 1;
      WeightsAre(rows[..n], temperatures[..n], volumes[..n]);
      PrefixOfProducts(volumes, temperatures, n);
    }
  }

  lemma HighestIs(rows: seq<Row>, f: nat, xs: seq<real>)
    requires f < 6 && rows != [] && |rows| == |xs| && forall i | 0 <= i < |rows| :: Part(rows[i], f) == xs[i]
    ensures IsHighest(Max(rows, f), xs)
  {
    MaxIs(rows, f);
    hide Part; hide Max;
    var i :| 0 <= i < |rows| && Part(rows[i], f) == Max(rows, f);
    assert xs[i] == Max(rows, f);
  }

  lemma MeanIs(mean: real, rows: seq<Row>, temperatures: seq<real>, volumes: seq<real>)
    requires |rows| == |temperatures| == |volumes|
    requires forall i | 0 <= i < |rows| :: rows[i].temperature == temperatures[i] && rows[i].product == volumes[i]
    requires Balanced(mean, rows)
    ensures IsMean(mean, temperatures, volumes)
  {
    WeightsAre(rows, temperatures, volumes);
    SumIs(rows, 2, temperatures);
    hide TotalWeight; hide WeightedSum; hide Sum; hide SumOf; hide Weights; hide Products;
  }

  /** The published figures: the readings' own sums, maxima and weighted mean, over exactly
      the slots of the group; the mean lies within any bounds of the temperatures read. */
  lemma TotalsAreExact(cfg: Config, readings: map<nat, seq<Num>>, ms: seq<Member>, k: (nat, string))
    requires k in Round(cfg, readings, ms)
    ensures TotalsOf(Round(cfg, readings, ms)[k], readings, Of(ms, k))
    ensures Of(ms, k) != [] && forall i | 0 <= i < |Of(ms, k)| :: SixOf(readings, Of(ms, k)[i]).Some?
    ensures forall lo, hi | Between(lo, Column(readings, Of(ms, k), 2), hi) ::
              lo <= Round(cfg, readings, ms)[k][Field("product_temperature")] <= hi
  {
    var rows, maxima := PublishedFrom(cfg, readings, ms, k);
    var own, meta := Of(ms, k), Round(cfg, readings, ms)[k];
    hide ValuesOf; hide MaximaOf; hide Of; hide Round; hide Column; hide Temperature; hide Publish; hide Aggregate;
    hide SixOf; hide Figures; hide TotalsOf; hide Part;
    RowsFromReadings(rows, readings, own);
    FiguresOf(meta, rows, maxima);
    FiguresAreTotals(meta, rows, readings, own);
    forall lo, hi | Between(lo, Column(readings, own, 2), hi) ensures lo <= meta[Field("product_temperature")] <= hi {
      forall i | 0 <= i < |rows| ensures lo <= rows[i].temperature <= hi {
        TemperatureIs(rows[i]);
        assert Part(rows[i], 2) == Column(readings, own, 2)[i];
      }
      TemperatureBetween(rows, lo, hi);
    }
  }

  ghost predicate Between(lo: real, xs: seq<real>, hi: real) { forall i | 0 <= i < |xs| :: lo <= xs[i] <= hi }

  lemma TemperatureIs(r: Row)
    ensures Part(r, 2) == r.temperature && Part(r, 4) == r.product
  {}

  lemma FiguresAreTotals(meta: map<Key, real>, rows: seq<Row>, readings: map<nat, seq<Num>>, own: seq<Member>)
    requires rows != [] && RowsOf(rows, readings, own) && Figures(meta, rows)
    ensures TotalsOf(meta, readings, own)
  {
    hide Column; hide SumOf; hide Max; hide Sum; hide IsMean; hide Balanced; hide IsHighest;
    SumIs(rows, 3, Column(readings, own, 3));
    SumIs(rows, 4, Column(readings, own, 4));
    SumIs(rows, 5, Column(readings, own, 5));
    HighestIs(rows, 0, Column(readings, own, 0));
    HighestIs(rows, 1, Column(readings, own, 1));
    forall i | 0 <= i < |rows| ensures rows[i].temperature == Column(readings, own, 2)[i] && rows[i].product == Column(readings, own, 4)[i] {
      assert Part(rows[i], 2) == Column(readings, own, 2)[i] && Part(rows[i], 4) == Column(readings, own, 4)[i];
    }
    MeanIs(meta[Field("product_temperature")], rows, Column(readings, own, 2), Column(readings, own, 4));
  }

  lemma MetaLooks(row: Row)
    ensures forall key :: key in Meta(row) ==> key.Field? && key.name in FIELDS
    ensures forall name | name in FIELDS :: Field(name) in Meta(row)
    ensures Meta(row)[Field("product_height")] == row.height && Meta(row)[Field("water_height")] == row.waterHeight
    ensures Meta(row)[Field("product_temperature")] == row.temperature
    ensures Meta(row)[Field("product_and_water_volume")] == row.both
    ensures Meta(row)[Field("product_volume")] == row.product && Meta(row)[Field("water_volume")] == row.water
  {}

  lemma SingleSum(rows: seq<Row>)
    requires |rows| == 1
    ensures Sum(rows, 3) == rows[0].both && Sum(rows, 4) == rows[0].product && Sum(rows, 5) == rows[0].water
  {
    assert rows[..0] == [];
  }

  lemma AddsOnlyPercentages(meta: map<Key, real>, maxima: map<string, real>)
    requires forall key | key in meta :: key.Field?
    ensures var all := WithPercentages(meta, maxima);
            && (forall name :: Field(name) in all <==> Field(name) in meta)
            && (forall name | Field(name) in meta :: all[Field(name)] == meta[Field(name)])
            && (forall name :: Percent(name) in all <==> name in maxima && maxima[name] > 0.0 && Field(name) in meta)
            && (forall name | Percent(name) in all :: all[Percent(name)] == Ratio(meta[Field(name)], maxima[name]))
            && (MaxProductVolume in all <==> "product_volume" in maxima)
            && (MaxProductVolume in all ==> all[MaxProductVolume] == maxima["product_volume"])
  {
    hide Ratio;
    PercentsAre(meta, maxima);
    hide Percents;
  }

  lemma PercentsAre(meta: map<Key, real>, maxima: map<string, real>)
    ensures var p := Percents(meta, maxima, maxima.Keys);
            && (forall key | key in p :: key.Percent?)
            && (forall name :: Percent(name) in p <==> name in maxima && maxima[name] > 0.0 && Field(name) in meta)
            && (forall name | Percent(name) in p :: p[Percent(name)] == Ratio(meta[Field(name)], maxima[name]))
  {
    hide Ratio;
  }

  /** What a slot contributes to the denominator of one figure: for the fuel's and the
      whole volume the capacity of its tank, or else its own; for the rest, and without a
      capacity, its configured maximum. */
  function Denominator(cfg: Config, m: Member, name: string): Option<real> {
    var tank := TankFor(cfg, m.slot);
    var volume := name == "product_volume" || name == "product_and_water_volume";
    if volume && tank.Some? then Some(tank.value.capacity)
    else if volume && m.slot.capacity.Some? then m.slot.capacity
    else if name in m.slot.maxima then Some(m.slot.maxima[name])
    else None
  }

  predicate Supplied(cfg: Config, own: seq<Member>, name: string) {
    forall i | 0 <= i < |own| :: Denominator(cfg, own[i], name).Some?
  }

  function Whole(cfg: Config, own: seq<Member>, name: string): real {
    SumOf(seq(|own|, i requires 0 <= i < |own| =>
      var d := Denominator(cfg, own[i], name); if d.Some? then d.value else 0.0))
  }

  lemma MaximaAre(cfg: Config, m: Member, name: string)
    ensures name in MaximaOf(cfg, m.slot) <==> Denominator(cfg, m, name).Some?
    ensures name in MaximaOf(cfg, m.slot) ==> MaximaOf(cfg, m.slot)[name] == Denominator(cfg, m, name).value
  {
    hide TankFor;
  }

  lemma {:induction false} WholeIs(cfg: Config, own: seq<Member>, maxima: seq<map<string, real>>, name: string)
    requires |maxima| == |own| && forall i | 0 <= i < |own| :: maxima[i] == MaximaOf(cfg, own[i].slot)
    ensures Everywhere(maxima, name) <==> Supplied(cfg, own, name)
    ensures KeySum(maxima, name) == Whole(cfg, own, name)
    decreases |own|
  {
    hide MaximaOf; hide Denominator;
    forall i | 0 <= i < |own| ensures name in maxima[i] <==> Denominator(cfg, own[i], name).Some? {
      MaximaAre(cfg, own[i], name);
    }
    if own != [] {
      var n := |own| - 1;
      MaximaAre(cfg, own[n], name);
      WholeIs(cfg, own[..n], maxima[..n], name);
      var parts := seq(|own|, i requires 0 <= i < |own| =>
        var d := Denominator(cfg, own[i], name); if d.Some? then d.value else 0.0);
      assert parts[..n] == seq(n, i requires 0 <= i < n =>
        var d := Denominator(cfg, own[..n][i], name); if d.Some? then d.value else 0.0);
    }
  }

  /** Given exactly when every slot supplies the denominator and together they are
      positive, and then the total over the sum of them. */
  ghost predicate CompletePercentage(cfg: Config, own: seq<Member>, meta: map<Key, real>, name: string) {
    && Field(name) in meta
    && (Percent(name) in meta <==> Supplied(cfg, own, name) && Whole(cfg, own, name) > 0.0)
    && (Percent(name) in meta ==> meta[Percent(name)] == meta[Field(name)] / Whole(cfg, own, name) * 100.0)
  }

  ghost predicate CompleteMaximum(cfg: Config, own: seq<Member>, meta: map<Key, real>) {
    && (MaxProductVolume in meta <==> Supplied(cfg, own, "product_volume"))
    && (MaxProductVolume in meta ==> meta[MaxProductVolume] == Whole(cfg, own, "product_volume"))
  }

  /** Every published percentage is of a complete denominator and divides the published
      total, for a volume the sum of the readings. */
  lemma PercentagesAreComplete(cfg: Config, readings: map<nat, seq<Num>>, ms: seq<Member>, k: (nat, string))
    requires k in Round(cfg, readings, ms)
    ensures forall name | name in FIELDS :: CompletePercentage(cfg, Of(ms, k), Round(cfg, readings, ms)[k], name)
    ensures CompleteMaximum(cfg, Of(ms, k), Round(cfg, readings, ms)[k])
    ensures Round(cfg, readings, ms)[k][Field("product_and_water_volume")] == SumOf(Column(readings, Of(ms, k), 3))
    ensures Round(cfg, readings, ms)[k][Field("product_volume")] == SumOf(Column(readings, Of(ms, k), 4))
    ensures Round(cfg, readings, ms)[k][Field("water_volume")] == SumOf(Column(readings, Of(ms, k), 5))
  {
    var rows, maxima := PublishedFrom(cfg, readings, ms, k);
    hide *;
    VolumesAreSums(cfg, readings, ms, k);
    forall name | name in FIELDS ensures CompletePercentage(cfg, Of(ms, k), Round(cfg, readings, ms)[k], name) {
      PercentagesFrom(cfg, Round(cfg, readings, ms)[k], Of(ms, k), rows, maxima, name);
    }
    FigureNames();
    PercentagesFrom(cfg, Round(cfg, readings, ms)[k], Of(ms, k), rows, maxima, "product_volume");
  }

  lemma FigureNames()
    ensures "product_volume" in FIELDS
  {}

  lemma PercentagesFrom(cfg: Config, meta: map<Key, real>, own: seq<Member>, rows: seq<Row>, maxima: seq<map<string, real>>, name: string)
    requires rows != [] && |rows| == |maxima| == |own| && name in FIELDS
    requires Publish(Group(rows, maxima, true)) == Some(meta)
    requires forall i | 0 <= i < |maxima| :: maxima[i] == MaximaOf(cfg, own[i].slot)
    ensures CompletePercentage(cfg, own, meta, name) && CompleteMaximum(cfg, own, meta)
  {
    PercentagesOf(meta, rows, maxima, name);
    WholeIs(cfg, own, maxima, name);
    WholeIs(cfg, own, maxima, "product_volume");
    hide Supplied; hide Whole; hide Everywhere; hide KeySum; hide Publish; hide MaximaOf;
  }

  lemma VolumesAreSums(cfg: Config, readings: map<nat, seq<Num>>, ms: seq<Member>, k: (nat, string))
    requires k in Round(cfg, readings, ms)
    ensures forall name | name in FIELDS :: Field(name) in Round(cfg, readings, ms)[k]
    ensures Round(cfg, readings, ms)[k][Field("product_and_water_volume")] == SumOf(Column(readings, Of(ms, k), 3))
    ensures Round(cfg, readings, ms)[k][Field("product_volume")] == SumOf(Column(readings, Of(ms, k), 4))
    ensures Round(cfg, readings, ms)[k][Field("water_volume")] == SumOf(Column(readings, Of(ms, k), 5))
  {
    hide Round; hide Of; hide Column; hide SumOf; hide IsHighest; hide IsMean;
    TotalsAreExact(cfg, readings, ms, k);
  }

  lemma PercentagesOf(meta: map<Key, real>, rows: seq<Row>, maxima: seq<map<string, real>>, name: string)
    requires rows != [] && |maxima| == |rows| && name in FIELDS && Publish(Group(rows, maxima, true)) == Some(meta)
    ensures Field(name) in meta
    ensures Percent(name) in meta <==> Everywhere(maxima, name) && KeySum(maxima, name) > 0.0
    ensures Percent(name) in meta ==> meta[Percent(name)] == meta[Field(name)] / KeySum(maxima, name) * 100.0
    ensures MaxProductVolume in meta <==> Everywhere(maxima, "product_volume")
    ensures MaxProductVolume in meta ==> meta[MaxProductVolume] == KeySum(maxima, "product_volume")
  {
    var base := Meta(Aggregate(rows));
    var sums := KeySums(maxima);
    var shared := map k | k in sums && Everywhere(maxima, k) :: sums[k];
    EverywhereHasSum(maxima);
    MetaLooks(Aggregate(rows));
    hide Meta; hide KeySum; hide Keys; hide Everywhere; hide Aggregate; hide Ratio; hide WithPercentages;
    AddsOnlyPercentages(base, shared);
  }

  lemma {:induction false} EverywhereHasSum(ms: seq<map<string, real>>)
    ensures ms != [] ==> forall k | Everywhere(ms, k) :: k in Keys(ms)
  {
    if ms != [] {
      forall k | Everywhere(ms, k) ensures k in Keys(ms) {
        assert k in ms[|ms| - 1];
      }
    }
  }
}
