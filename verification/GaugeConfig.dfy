/** Site configuration of tanks and gauges, and what its validation guarantees. */
module GaugeConfig {
  import opened Wire

  type Word = x: nat | x < 0x1_0000

  // ── Configuration ──────────────────────────────────────────────────────────

  datatype Source = Source(position: string, nozzle: nat)

  datatype Tank = Tank(tankId: string, sources: seq<Source>, productId: nat, title: string, capacity: real, current: real)

  /** One gauge probe: `slot` counts from 1 within its controller's register window. */
  datatype Slot = Slot(slot: Word, tankId: Option<string>, fuel: string, productId: Option<nat>,
                       title: Option<string>, capacity: Option<real>, maxima: map<string, real>)

  datatype Branch = Branch(id: nat, externalId: Option<nat>, metres: bool, host: string, port: Word, unit: nat,
                           startRegister: Word, addressBase: Word, registerCount: Word, slots: seq<Slot>)

  /** `linksOk`: the URL and login fields pass their own checks. */
  datatype Gauges = Gauges(enabled: bool, pollSecs: nat, timeout: real, staleSecs: Option<nat>, linksOk: bool, branches: seq<Branch>)

  /** `products`: the catalog names by id; `nozzles`: for each nozzle of a fueling position the product it sells. */
  datatype Config = Config(products: map<nat, string>, nozzles: map<Source, nat>, tanks: seq<Tank>, gauges: Option<Gauges>)

  const FIELDS: set<string> :=
    {"product_height", "water_height", "product_temperature", "product_and_water_volume", "product_volume", "water_volume"}

  /** What the station's `trim` removes. */
  predicate IsBlank(c: char) { IsSpace(c) || c == NEXT_LINE }

  function TrimLeft(s: string): string {
    if s != "" && IsBlank(s[0]) then TrimLeft(s[1..]) else s
  }

  function TrimRight(s: string): string {
    if s != "" && IsBlank(s[|s| - 1]) then TrimRight(s[..|s| - 1]) else s
  }

  function Trim(s: string): string { TrimLeft(TrimRight(s)) }

  function Decimal(n: nat): string {
    (if n < 10 then "" else Decimal(n / 10)) + ["0123456789"[n % 10]]
  }

  function Id(t: Tank): string { if t.tankId == "" then Decimal(t.productId) else t.tankId }

  // ── Windows ────────────────────────────────────────────────────────────────

  function Pdu(b: Branch): Word {
    if b.startRegister < b.addressBase then 0 else b.startRegister - b.addressBase
  }

  predicate WindowOk(b: Branch) {
    && b.port != 0 && b.addressBase <= b.startRegister && b.addressBase <= 1
    && b.registerCount != 0 && b.registerCount % 12 == 0
    && b.startRegister - b.addressBase + b.registerCount <= 0x1_0000
  }

  // ── Which tank a slot measures ─────────────────────────────────────────────

  predicate SameProduct(t: Tank, slot: Slot) { slot.productId == Some(t.productId) }

  function Named(tanks: seq<Tank>, slot: Slot): Option<Tank>
    requires slot.tankId.Some?
  {
    if tanks == [] then None
    else if Id(tanks[0]) == slot.tankId.value && SameProduct(tanks[0], slot) then Some(tanks[0])
    else Named(tanks[1..], slot)
  }

  predicate Candidate(t: Tank, slot: Slot) { SameProduct(t, slot) && (slot.tankId.None? || t.tankId == "") }

  function Candidates(tanks: seq<Tank>, slot: Slot): seq<Tank> {
    if tanks == [] then [] else (if Candidate(tanks[0], slot) then [tanks[0]] else []) + Candidates(tanks[1..], slot)
  }

  /** By id among tanks of the product, else the product's only eligible tank. */
  function TankFor(cfg: Config, slot: Slot): Option<Tank> {
    var named := if slot.tankId.Some? then Named(cfg.tanks, slot) else None;
    if named.Some? then named
    else
      var eligible := Candidates(cfg.tanks, slot);
      if |eligible| == 1 then Some(eligible[0]) else None
  }

  // ── What validation means ──────────────────────────────────────────────────

  ghost predicate Distinct<T>(s: seq<T>) { forall i, j | 0 <= i < j < |s| :: s[i] != s[j] }

  predicate SourceOk(cfg: Config, t: Tank, source: Source) {
    source in cfg.nozzles && cfg.nozzles[source] == t.productId
  }

  predicate FieldsOk(cfg: Config, t: Tank) {
    && t.productId in cfg.products && Trim(Id(t)) != "" && Trim(t.title) != ""
    && t.capacity > 0.0 && 0.0 <= t.current <= t.capacity
  }

  function Sources(tanks: seq<Tank>): seq<Source> {
    if tanks == [] then [] else Sources(tanks[..|tanks| - 1]) + tanks[|tanks| - 1].sources
  }

  ghost predicate TanksOk(cfg: Config) {
    && (forall t | t in cfg.tanks :: FieldsOk(cfg, t) && forall source | source in t.sources :: SourceOk(cfg, t, source))
    && (forall i, j | 0 <= i < j < |cfg.tanks| :: Id(cfg.tanks[i]) != Id(cfg.tanks[j]))
    && (forall i, j | 0 <= i < |cfg.tanks| && 0 <= j < |cfg.tanks| && i != j && cfg.tanks[i].productId == cfg.tanks[j].productId ::
          cfg.tanks[i].tankId != "")
    && Distinct(Sources(cfg.tanks))
  }

  /** A slot together with its controller. */
  datatype Member = Member(branch: Branch, slot: Slot)

  function Members(branches: seq<Branch>): seq<Member> {
    if branches == [] then [] else Members(branches[..|branches| - 1]) + MembersOf(branches[|branches| - 1])
  }

  function MembersOf(b: Branch): (r: seq<Member>)
    ensures |r| == |b.slots|
  {
    seq(|b.slots|, i requires 0 <= i < |b.slots| => Member(b, b.slots[i]))
  }

  /** The first register of the probe, on the wire it is reached by. */
  datatype Probe = Probe(host: string, port: nat, unit: nat, register: int)

  function ProbeOf(m: Member): Probe {
    Probe(Trim(m.branch.host), m.branch.port, m.branch.unit, Pdu(m.branch) + (m.slot.slot - 1) * 12)
  }

  /** The external station and fuel whose totals the member belongs to. */
  function GroupOf(m: Member): (nat, string) {
    (if m.branch.externalId.Some? then m.branch.externalId.value else m.branch.id, m.slot.fuel)
  }

  function MappedId(cfg: Config, m: Member): Option<string> {
    var t := TankFor(cfg, m.slot);
    if m.slot.productId.Some? && t.Some? then Some(Id(t.value)) else None
  }

  predicate Near(a: real, b: real) { -0.01 <= a - b <= 0.01 }

  predicate LinkOk(cfg: Config, s: Slot) {
    s.productId.Some? ==>
      && s.productId.value in cfg.products && TankFor(cfg, s).Some?
      && (s.capacity.Some? ==> Near(s.capacity.value, TankFor(cfg, s).value.capacity))
      && ("product_volume" in s.maxima ==> Near(s.maxima["product_volume"], TankFor(cfg, s).value.capacity))
  }

  predicate MemberOk(cfg: Config, m: Member) {
    && 1 <= m.slot.slot && m.slot.slot * 12 <= m.branch.registerCount
    && Trim(m.slot.fuel) != ""
    && (m.slot.tankId.Some? ==> Trim(m.slot.tankId.value) != "")
    && LinkOk(cfg, m.slot)
    && (m.slot.title.Some? ==> Trim(m.slot.title.value) != "")
    && (m.slot.capacity.Some? ==> m.slot.capacity.value > 0.0)
    && (forall k | k in m.slot.maxima :: k in FIELDS && m.slot.maxima[k] > 0.0)
  }

  /** Two slots of one configuration: other first registers, other tanks, and the same
      height unit when their readings are added up. */
  predicate Compatible(cfg: Config, a: Member, b: Member) {
    && ProbeOf(a) != ProbeOf(b)
    && (GroupOf(a) == GroupOf(b) ==> a.branch.metres == b.branch.metres)
    && (a.slot.tankId.Some? ==> a.slot.tankId != b.slot.tankId)
    && (MappedId(cfg, a).Some? ==> MappedId(cfg, a) != MappedId(cfg, b))
  }

  ghost predicate AllFit(cfg: Config, ms: seq<Member>) {
    && (forall j | 0 <= j < |ms| :: MemberOk(cfg, ms[j]))
    && (forall i, j | 0 <= i < j < |ms| :: Compatible(cfg, ms[i], ms[j]))
  }

  predicate BranchOk(b: Branch) { Trim(b.host) != "" && WindowOk(b) && b.slots != [] }

  predicate HeaderOk(g: Gauges) {
    && 1 <= g.pollSecs <= 86400 && 0.1 <= g.timeout <= 120.0
    && (g.staleSecs.Some? ==> g.pollSecs <= g.staleSecs.value <= 604800)
    && g.linksOk && (g.enabled ==> g.branches != [])
  }

  ghost predicate GaugesOk(cfg: Config) {
    cfg.gauges.Some? ==>
      HeaderOk(cfg.gauges.value) && BranchesOk(cfg, cfg.gauges.value.branches)
  }

  ghost predicate BranchesOk(cfg: Config, branches: seq<Branch>) {
    && (forall i | 0 <= i < |branches| :: BranchOk(branches[i]))
    && (forall i, j | 0 <= i < j < |branches| :: branches[i].id != branches[j].id)
    && AllFit(cfg, Members(branches))
  }

  // ── Validation, as the source runs it ──────────────────────────────────────

  /** What the checks of tank `i` establish, given those of the tanks before it. */
  ghost predicate TankFits(cfg: Config, i: nat)
    requires i < |cfg.tanks|
  {
    var t := cfg.tanks[i];
    && FieldsOk(cfg, t) && (forall j | 0 <= j < i :: Id(cfg.tanks[j]) != Id(t))
    && (t.tankId == "" ==> forall j | 0 <= j < |cfg.tanks| && j != i :: cfg.tanks[j].productId != t.productId)
    && (forall k | 0 <= k < |t.sources| :: SourceOk(cfg, t, t.sources[k]))
    && Distinct(Sources(cfg.tanks[..i + 1]))
  }

  method ValidateTanks(cfg: Config) returns (ok: bool)
    ensures ok <==> TanksOk(cfg)
  {
    TanksFit(cfg);
    hide FieldsOk; hide SourceOk; hide Id; hide Distinct; hide TanksOk; hide CountProduct;
    var ids, sources := {}, {};
    var i := 0;
    assert Sources(cfg.tanks[..0]) == [] && Distinct(Sources(cfg.tanks[..0])) by { EmptyDistinct<Source>(); }
    while i < |cfg.tanks|
      invariant 0 <= i <= |cfg.tanks|
      invariant forall j | 0 <= j < i :: TankFits(cfg, j)
      invariant ids == set j | 0 <= j < i :: Id(cfg.tanks[j])
      invariant Distinct(Sources(cfg.tanks[..i])) && sources == set x | x in Sources(cfg.tanks[..i])
    {
      var t := cfg.tanks[i];
      CountsOthers(cfg.tanks, i);
      assert cfg.tanks[..i + 1][..i] == cfg.tanks[..i];
      if !FieldsOk(cfg, t) || Id(t) in ids || (t.tankId == "" && CountProduct(cfg.tanks, t.productId) > 1) {
        assert !TankFits(cfg, i);
        return false;
      }
      var sourcesOk;
      sourcesOk, sources := CheckSources(cfg, t, sources, Sources(cfg.tanks[..i]));
      if !sourcesOk {
        assert !TankFits(cfg, i);
        return false;
      }
      ids := ids + {Id(t)};
      i := i + 1;
    }
    return true;
  }

  /** The nozzle loop of one tank; `before` are the sources the set already holds. */
  method CheckSources(cfg: Config, t: Tank, sources: set<Source>, ghost before: seq<Source>) returns (ok: bool, after: set<Source>)
    requires Distinct(before) && sources == set x | x in before
    ensures ok <==> (forall k | 0 <= k < |t.sources| :: SourceOk(cfg, t, t.sources[k])) && Distinct(before + t.sources)
    ensures ok ==> after == set x | x in before + t.sources
  {
    hide SourceOk; hide Distinct;
    after := sources;
    var k := 0;
    assert before + t.sources[..0] == before;
    while k < |t.sources|
      invariant 0 <= k <= |t.sources|
      invariant forall l | 0 <= l < k :: SourceOk(cfg, t, t.sources[l])
      invariant after == (set x | x in before + t.sources[..k]) && Distinct(before + t.sources[..k])
    {
      var source := t.sources[k];
      var seen := before + t.sources[..k];
      assert seen + [source] == before + t.sources[..k + 1];
      DistinctSnoc(seen, source);
      DistinctPrefix(seen + [source], before + t.sources);
      if source in after || !SourceOk(cfg, t, source) {
        return false, after;
      }
      after := after + {source};
      k := k + 1;
    }
    assert before + t.sources[..k] == before + t.sources;
    return true, after;
  }

  lemma ValidTanksFit(cfg: Config, i: nat)
    requires TanksOk(cfg) && i < |cfg.tanks|
    ensures TankFits(cfg, i)
  {
    hide FieldsOk; hide SourceOk; hide Id;
    assert cfg.tanks[i] in cfg.tanks;
    SourcesPrefix(cfg.tanks, i + 1);
    DistinctPrefix(Sources(cfg.tanks[..i + 1]), Sources(cfg.tanks));
    hide Distinct;
  }

  lemma TanksFit(cfg: Config)
    ensures TanksOk(cfg) <==> forall i | 0 <= i < |cfg.tanks| :: TankFits(cfg, i)
  {
    hide FieldsOk; hide SourceOk; hide Id;
    var n := |cfg.tanks|;
    assert cfg.tanks[..n] == cfg.tanks;
    EmptyDistinct<Source>();
    hide Distinct;
    if TanksOk(cfg) {
      forall i | 0 <= i < n ensures TankFits(cfg, i) {
        ValidTanksFit(cfg, i);
      }
    }
    if forall i | 0 <= i < n :: TankFits(cfg, i) {
      assert n > 0 ==> TankFits(cfg, n - 1);
      forall t | t in cfg.tanks ensures FieldsOk(cfg, t) && forall source | source in t.sources :: SourceOk(cfg, t, source) {
        var i :| 0 <= i < n && cfg.tanks[i] == t;
        assert TankFits(cfg, i);
      }
      forall i, j | 0 <= i < j < n ensures Id(cfg.tanks[i]) != Id(cfg.tanks[j]) {
        assert TankFits(cfg, j);
      }
      forall i, j | 0 <= i < n && 0 <= j < n && i != j && cfg.tanks[i].productId == cfg.tanks[j].productId
        ensures cfg.tanks[i].tankId != "" {
        assert TankFits(cfg, i);
      }
    }
  }

  function CountProduct(tanks: seq<Tank>, product: nat): nat {
    if tanks == [] then 0 else (if tanks[0].productId == product then 1 else 0) + CountProduct(tanks[1..], product)
  }

  lemma {:induction false} CountAt(tanks: seq<Tank>, product: nat, i: nat)
    requires i < |tanks| && tanks[i].productId == product
    ensures CountProduct(tanks, product) == 1 + CountProduct(tanks[..i], product) + CountProduct(tanks[i + 1..], product)
  {
    if i > 0 {
      CountAt(tanks[1..], product, i - 1);
      assert tanks[1..][..i - 1] == tanks[..i][1..] && tanks[1..][i..] == tanks[i + 1..];
    }
  }

  lemma {:induction false} CountZero(tanks: seq<Tank>, product: nat)
    ensures CountProduct(tanks, product) == 0 <==> forall t | t in tanks :: t.productId != product
    decreases |tanks|
  {
    if tanks != [] {
      CountZero(tanks[1..], product);
      assert forall t :: t in tanks <==> t == tanks[0] || t in tanks[1..];
    }
  }

  /** The count exceeds one exactly when another tank sells the same product. */
  lemma CountsOthers(tanks: seq<Tank>, i: nat)
    requires i < |tanks|
    ensures CountProduct(tanks, tanks[i].productId) > 1
       <==> exists j | 0 <= j < |tanks| && j != i :: tanks[j].productId == tanks[i].productId
  {
    var p := tanks[i].productId;
    CountAt(tanks, p, i);
    CountZero(tanks[..i], p);
    CountZero(tanks[i + 1..], p);
    if exists t :: t in tanks[i + 1..] && t.productId == p {
      var t :| t in tanks[i + 1..] && t.productId == p;
      var j :| 0 <= j < |tanks[i + 1..]| && tanks[i + 1..][j] == t;
      assert tanks[i + 1 + j] == t;
    }
    if j :| 0 <= j < |tanks| && j != i && tanks[j].productId == p {
      assert tanks[j] in tanks[..i] || tanks[j] in tanks[i + 1..];
    }
  }

  lemma DistinctSnoc<T>(s: seq<T>, x: T)
    ensures Distinct(s + [x]) <==> Distinct(s) && x !in s
  {
    var all := s + [x];
    if Distinct(all) {
      forall i, j | 0 <= i < j < |s| ensures s[i] != s[j] {
        assert all[i] != all[j];
      }
      forall i | 0 <= i < |s| ensures s[i] != x {
        assert all[i] != all[|s|];
      }
    }
  }

  lemma DistinctPrefix<T>(s: seq<T>, t: seq<T>)
    requires s <= t
    ensures Distinct(t) ==> Distinct(s)
  {
    if Distinct(t) {
      forall i, j | 0 <= i < j < |s| ensures s[i] != s[j] {
        assert t[i] != t[j];
      }
    }
  }

  lemma EmptyDistinct<T>()
    ensures Distinct<T>([])
  {}

  /** The sources of the first tanks are the first sources. */
  lemma {:induction false} SourcesPrefix(tanks: seq<Tank>, n: nat)
    requires n <= |tanks|
    ensures Sources(tanks[..n]) <= Sources(tanks)
    decreases |tanks| - n
  {
    if n < |tanks| {
      SourcesPrefix(tanks, n + 1);
      assert tanks[..n + 1][..n] == tanks[..n];
    } else {
      assert tanks[..n] == tanks;
    }
  }

  /** The sets the slot checks fill as they go. */
  datatype Marks = Marks(mapped: set<string>, slotIds: set<string>, probes: set<Probe>, units: map<(nat, string), bool>)

  ghost predicate Marked(cfg: Config, marks: Marks, seen: seq<Member>) {
    && marks.mapped == (set m | m in seen && MappedId(cfg, m).Some? :: MappedId(cfg, m).value)
    && marks.slotIds == (set m | m in seen && m.slot.tankId.Some? :: m.slot.tankId.value)
    && marks.probes == (set m | m in seen :: ProbeOf(m))
    && marks.units.Keys == (set m | m in seen :: GroupOf(m))
    && (forall m | m in seen :: marks.units[GroupOf(m)] == m.branch.metres)
  }

  ghost predicate Fits(cfg: Config, seen: seq<Member>, m: Member) {
    MemberOk(cfg, m) && forall x | x in seen :: Compatible(cfg, x, m)
  }

  predicate Clashes(cfg: Config, marks: Marks, m: Member) {
    || ProbeOf(m) in marks.probes
    || (GroupOf(m) in marks.units && marks.units[GroupOf(m)] != m.branch.metres)
    || (m.slot.tankId.Some? && m.slot.tankId.value in marks.slotIds)
    || (MappedId(cfg, m).Some? && MappedId(cfg, m).value in marks.mapped)
  }

  function Mark(cfg: Config, marks: Marks, m: Member): Marks {
    Marks(if MappedId(cfg, m).Some? then marks.mapped + {MappedId(cfg, m).value} else marks.mapped,
          if m.slot.tankId.Some? then marks.slotIds + {m.slot.tankId.value} else marks.slotIds,
          marks.probes + {ProbeOf(m)}, marks.units[GroupOf(m) := m.branch.metres])
  }

  lemma ClashesAreConflicts(cfg: Config, marks: Marks, seen: seq<Member>, m: Member)
    requires Marked(cfg, marks, seen)
    ensures Clashes(cfg, marks, m) <==> exists x :: x in seen && !Compatible(cfg, x, m)
  {
    hide MappedId; hide ProbeOf; hide GroupOf;
    if Clashes(cfg, marks, m) {
      if ProbeOf(m) in marks.probes {
        var x :| x in seen && ProbeOf(x) == ProbeOf(m);
        assert !Compatible(cfg, x, m);
      } else if GroupOf(m) in marks.units && marks.units[GroupOf(m)] != m.branch.metres {
        assert GroupOf(m) in marks.units.Keys;
        var x :| x in seen && GroupOf(x) == GroupOf(m);
        assert !Compatible(cfg, x, m);
      } else if m.slot.tankId.Some? && m.slot.tankId.value in marks.slotIds {
        var x :| x in seen && x.slot.tankId.Some? && x.slot.tankId.value == m.slot.tankId.value;
        assert !Compatible(cfg, x, m);
      } else {
        var x :| x in seen && MappedId(cfg, x).Some? && MappedId(cfg, x).value == MappedId(cfg, m).value;
        assert !Compatible(cfg, x, m);
      }
    }
  }

  lemma MarkKeeps(cfg: Config, marks: Marks, seen: seq<Member>, m: Member)
    requires Marked(cfg, marks, seen) && !Clashes(cfg, marks, m)
    ensures Marked(cfg, Mark(cfg, marks, m), seen + [m])
  {
    hide MappedId; hide ProbeOf; hide GroupOf;
    var after, all := Mark(cfg, marks, m), seen + [m];
    assert forall x :: x in all <==> x in seen || x == m;
    forall x | x in all ensures after.units[GroupOf(x)] == x.branch.metres {
      if x in seen {
        assert GroupOf(x) in marks.units.Keys;
      }
    }
    assert after.probes == set x | x in all :: ProbeOf(x);
    assert after.units.Keys == set x | x in all :: GroupOf(x);
  }

  /** The checks of one slot; `numbers` are the slot numbers its controller used so far. */
  method ValidateSlot(cfg: Config, m: Member, marks: Marks, numbers: set<Word>) returns (ok: bool, after: Marks)
    ensures ok <==> MemberOk(cfg, m) && m.slot.slot !in numbers && !Clashes(cfg, marks, m)
    ensures ok ==> after == Mark(cfg, marks, m)
  {
    hide Trim; hide TankFor; hide GroupOf; hide ProbeOf; hide Near; hide Id;
    var slot := m.slot;
    after := marks;
    if slot.slot == 0 || slot.slot in numbers || slot.slot * 12 > m.branch.registerCount {
      return false, after;
    }
    if ProbeOf(m) in after.probes {
      return false, after;
    }
    after := after.(probes := after.probes + {ProbeOf(m)});
    if GroupOf(m) in after.units && after.units[GroupOf(m)] != m.branch.metres {
      return false, after;
    }
    after := after.(units := after.units[GroupOf(m) := m.branch.metres]);
    if Trim(slot.fuel) == "" || (slot.tankId.Some? && Trim(slot.tankId.value) == "") {
      return false, after;
    }
    if slot.tankId.Some? {
      if slot.tankId.value in after.slotIds {
        return false, after;
      }
      after := after.(slotIds := after.slotIds + {slot.tankId.value});
    }
    if slot.productId.Some? {
      if slot.productId.value !in cfg.products || TankFor(cfg, slot).None? {
        return false, after;
      }
      var tank := TankFor(cfg, slot).value;
      if Id(tank) in after.mapped {
        return false, after;
      }
      after := after.(mapped := after.mapped + {Id(tank)});
      if (slot.capacity.Some? && !Near(slot.capacity.value, tank.capacity))
         || ("product_volume" in slot.maxima && !Near(slot.maxima["product_volume"], tank.capacity)) {
        return false, after;
      }
    }
    ok := && (slot.title.Some? ==> Trim(slot.title.value) != "")
          && (slot.capacity.Some? ==> slot.capacity.value > 0.0)
          && forall k | k in slot.maxima :: k in FIELDS && slot.maxima[k] > 0.0;
  }

  /** The sets hold what the pairwise conditions need: a slot whose own checks pass fits
      exactly when neither its number nor any of its marks is taken. */
  lemma FitsIsNoClash(cfg: Config, marks: Marks, seen: seq<Member>, m: Member, numbers: set<Word>)
    requires Marked(cfg, marks, seen)
    requires forall n | n in numbers :: exists x :: x in seen && x.branch == m.branch && x.slot.slot == n
    ensures Fits(cfg, seen, m) <==> MemberOk(cfg, m) && m.slot.slot !in numbers && !Clashes(cfg, marks, m)
  {
    ClashesAreConflicts(cfg, marks, seen, m);
    hide MemberOk; hide Clashes; hide Marked;
    if m.slot.slot in numbers {
      // the same number on the same controller is the same probe
      var x :| x in seen && x.branch == m.branch && x.slot.slot == m.slot.slot;
      assert !Compatible(cfg, x, m);
    }
  }

  /** The pairs of a prefix are pairs of the whole. */
  lemma AllFitSnoc(cfg: Config, seen: seq<Member>, m: Member)
    ensures AllFit(cfg, seen + [m]) <==> AllFit(cfg, seen) && Fits(cfg, seen, m)
  {
    hide MemberOk; hide Compatible;
    var all := seen + [m];
    if AllFit(cfg, all) {
      assert MemberOk(cfg, all[|seen|]);
      forall i | 0 <= i < |seen| ensures MemberOk(cfg, seen[i]) && Compatible(cfg, seen[i], m) {
        assert MemberOk(cfg, all[i]) && Compatible(cfg, all[i], all[|seen|]);
      }
      forall i, j | 0 <= i < j < |seen| ensures Compatible(cfg, seen[i], seen[j]) {
        assert Compatible(cfg, all[i], all[j]);
      }
    }
  }

  lemma AllFitPrefix(cfg: Config, s: seq<Member>, t: seq<Member>)
    requires s <= t
    ensures AllFit(cfg, t) ==> AllFit(cfg, s)
  {
    hide MemberOk; hide Compatible;
    if AllFit(cfg, t) {
      assert forall i | 0 <= i < |s| :: s[i] == t[i];
    }
  }

  lemma {:induction false} MembersPrefix(branches: seq<Branch>, n: nat)
    requires n <= |branches|
    ensures Members(branches[..n]) <= Members(branches)
    decreases |branches| - n
  {
    if n < |branches| {
      MembersPrefix(branches, n + 1);
      assert branches[..n + 1][..n] == branches[..n];
    } else {
      assert branches[..n] == branches;
    }
  }

  /** The slot loop of one controller. */
  method ValidateSlots(cfg: Config, b: Branch, marks: Marks, ghost before: seq<Member>) returns (ok: bool, after: Marks)
    requires Marked(cfg, marks, before) && AllFit(cfg, before)
    ensures ok <==> AllFit(cfg, before + MembersOf(b))
    ensures ok ==> Marked(cfg, after, before + MembersOf(b))
  {
    hide Marked; hide Fits; hide AllFit; hide Mark; hide Clashes; hide MemberOk;
    after := marks;
    var numbers := {};
    var i := 0;
    ghost var own := MembersOf(b);
    assert before + own[..0] == before;
    while i < |b.slots|
      invariant 0 <= i <= |b.slots|
      invariant AllFit(cfg, before + own[..i]) && Marked(cfg, after, before + own[..i])
      invariant numbers == set k | 0 <= k < i :: b.slots[k].slot
    {
      ghost var seen := before + own[..i];
      var m := Member(b, b.slots[i]);
      assert seen + [m] == before + own[..i + 1];
      forall n | n in numbers ensures exists x :: x in seen && x.branch == b && x.slot.slot == n {
        var k :| 0 <= k < i && b.slots[k].slot == n;
        assert seen[|before| + k] == own[k];
      }
      AllFitSnoc(cfg, seen, m);
      AllFitPrefix(cfg, seen + [m], before + own);
      FitsIsNoClash(cfg, after, seen, m, numbers);
      ghost var was := after;
      ok, after := ValidateSlot(cfg, m, after, numbers);
      if !ok {
        return;
      }
      MarkKeeps(cfg, was, seen, m);
      numbers := numbers + {m.slot.slot};
      i := i + 1;
    }
    assert before + own[..i] == before + own;
    ok := true;
  }

  method ValidateGauges(cfg: Config) returns (ok: bool)
    ensures ok <==> GaugesOk(cfg)
  {
    if cfg.gauges.None? {
      return true;
    }
    var g := cfg.gauges.value;
    if !HeaderOk(g) {
      return false;
    }
    hide HeaderOk; hide BranchesOk;
    ok := ValidateBranches(cfg, g.branches);
  }

  /** The loop over the controllers. */
  method ValidateBranches(cfg: Config, branches: seq<Branch>) returns (ok: bool)
    ensures ok <==> BranchesOk(cfg, branches)
  {
    var ids, marks := {}, Marks({}, {}, {}, map[]);
    var i := 0;
    NoBranches(cfg, branches);
    hide *;
    while i < |branches|
      invariant 0 <= i <= |branches|
      invariant BranchesOk(cfg, branches[..i]) && Marked(cfg, marks, Members(branches[..i]))
      invariant ids == set j | 0 <= j < i :: branches[j].id
    {
      var b := branches[i];
      BranchesSnoc(cfg, branches, i, ids);
      if b.id in ids || !BranchOk(b) {
        return false;
      }
      ids := ids + {b.id};
      ok, marks := ValidateSlots(cfg, b, marks, Members(branches[..i]));
      if !ok {
        return false;
      }
      i := i + 1;
    }
    assert branches[..i] == branches;
    return true;
  }

  lemma NoBranches(cfg: Config, branches: seq<Branch>)
    ensures BranchesOk(cfg, branches[..0]) && Marked(cfg, Marks({}, {}, {}, map[]), Members(branches[..0]))
  {
    assert branches[..0] == [];
  }

  /** One more controller passes exactly when its own checks do, its id is new and its
      slots fit those before; when it does not, the whole list fails. */
  lemma BranchesSnoc(cfg: Config, branches: seq<Branch>, i: nat, ids: set<nat>)
    requires i < |branches| && BranchesOk(cfg, branches[..i]) && ids == set j | 0 <= j < i :: branches[j].id
    ensures AllFit(cfg, Members(branches[..i]))
    ensures Members(branches[..i + 1]) == Members(branches[..i]) + MembersOf(branches[i])
    ensures BranchesOk(cfg, branches[..i + 1]) <==>
              && branches[i].id !in ids && BranchOk(branches[i])
              && AllFit(cfg, Members(branches[..i]) + MembersOf(branches[i]))
    ensures !BranchesOk(cfg, branches[..i + 1]) ==> !BranchesOk(cfg, branches)
  {
    hide BranchOk; hide AllFit; hide MembersOf;
    var now := branches[..i + 1];
    assert now[..i] == branches[..i];
    MembersPrefix(branches, i + 1);
    AllFitPrefix(cfg, Members(now), Members(branches));
    assert forall j | 0 <= j <= i :: now[j] == branches[j];
    assert forall j | 0 <= j < i :: branches[..i][j] == branches[j];
    if branches[i].id in ids {
      var j :| 0 <= j < i && branches[j].id == branches[i].id;
      assert now[j].id == now[i].id;
    }
  }

  // ── What validation buys ───────────────────────────────────────────────────

  lemma {:induction false} NamedIs(tanks: seq<Tank>, slot: Slot)
    requires slot.tankId.Some?
    ensures var t := Named(tanks, slot);
            && (t.Some? ==> t.value in tanks && Id(t.value) == slot.tankId.value && SameProduct(t.value, slot))
            && (t.None? ==> forall x | x in tanks :: !(Id(x) == slot.tankId.value && SameProduct(x, slot)))
    decreases |tanks|
  {
    hide Id;
    if tanks != [] {
      NamedIs(tanks[1..], slot);
      assert forall x :: x in tanks <==> x == tanks[0] || x in tanks[1..];
    }
  }

  lemma {:induction false} CandidatesAre(tanks: seq<Tank>, slot: Slot)
    ensures forall t :: t in Candidates(tanks, slot) <==> t in tanks && Candidate(t, slot)
    decreases |tanks|
  {
    hide Candidate;
    if tanks != [] {
      CandidatesAre(tanks[1..], slot);
      assert forall x :: x in tanks <==> x == tanks[0] || x in tanks[1..];
    }
  }

  lemma {:induction false} ManyCandidates(tanks: seq<Tank>, slot: Slot) returns (i: nat, j: nat)
    requires |Candidates(tanks, slot)| >= 2
    ensures i < j < |tanks| && Candidate(tanks[i], slot) && Candidate(tanks[j], slot)
    decreases |tanks|
  {
    hide Candidate;
    var rest := tanks[1..];
    if |Candidates(rest, slot)| >= 2 {
      i, j := ManyCandidates(rest, slot);
      i, j := i + 1, j + 1;
    } else {
      CandidatesAre(rest, slot);
      assert Candidates(rest, slot)[0] in Candidates(rest, slot);
      j :| 0 <= j < |rest| && rest[j] == Candidates(rest, slot)[0];
      i, j := 0, j + 1;
    }
  }

  /** In valid tanks an id names one tank, and a tank without its own id is its product's only one. */
  lemma TanksDiffer(cfg: Config, t: Tank, x: Tank)
    requires TanksOk(cfg) && t in cfg.tanks && x in cfg.tanks
    ensures Id(t) == Id(x) ==> t == x
    ensures t.productId == x.productId && t.tankId == "" ==> t == x
  {
    hide Id; hide FieldsOk; hide SourceOk; hide Distinct;
  }

  ghost predicate OnlyOfProduct(cfg: Config, slot: Slot, t: Tank) {
    forall x | x in cfg.tanks && SameProduct(x, slot) :: x == t
  }

  lemma TwoCandidates(cfg: Config, slot: Slot, t: Tank)
    requires TanksOk(cfg) && |Candidates(cfg.tanks, slot)| >= 2
    ensures !OnlyOfProduct(cfg, slot, t)
  {
    var i, j := ManyCandidates(cfg.tanks, slot);
    var a, b := cfg.tanks[i], cfg.tanks[j];
    assert a in cfg.tanks && b in cfg.tanks;
    assert Id(a) != Id(b) by {
      hide Id; hide FieldsOk; hide SourceOk; hide Distinct; hide Candidates;
    }
    hide Id; hide TanksOk; hide Candidates;
  }

  lemma FoundIsOnly(cfg: Config, slot: Slot, t: Tank)
    requires TanksOk(cfg) && Candidates(cfg.tanks, slot) == [t]
    ensures t in cfg.tanks && Candidate(t, slot) && OnlyOfProduct(cfg, slot, t)
  {
    CandidatesAre(cfg.tanks, slot);
    assert t in [t];
    hide Id; hide TanksOk; hide Candidates;
    forall x | x in cfg.tanks && SameProduct(x, slot) ensures x == t {
      if Candidate(x, slot) {
        assert x in [t];
      } else {
        TanksDiffer(cfg, t, x);
      }
    }
  }

  /** The look-up finds exactly one candidate when the product has no other tank. */
  lemma OnlyCandidate(cfg: Config, slot: Slot, t: Tank)
    requires TanksOk(cfg)
    ensures Candidates(cfg.tanks, slot) == [t] <==> t in cfg.tanks && Candidate(t, slot) && OnlyOfProduct(cfg, slot, t)
  {
    hide *;
    var c := Candidates(cfg.tanks, slot);
    if c == [t] {
      FoundIsOnly(cfg, slot, t);
    }
    if t in cfg.tanks && Candidate(t, slot) && OnlyOfProduct(cfg, slot, t) {
      CandidatesAre(cfg.tanks, slot);
      assert t in c;
      if |c| >= 2 {
        TwoCandidates(cfg, slot, t);
      }
      assert c == [c[0]];
    }
  }

  /** With valid tanks the look-up is exact: it answers the one tank that carries the
      slot's id, or the product's only tank when either side names no id. */
  lemma TankForIsExact(cfg: Config, slot: Slot, t: Tank)
    requires TanksOk(cfg)
    ensures TankFor(cfg, slot) == Some(t) <==>
            && t in cfg.tanks && SameProduct(t, slot)
            && (slot.tankId == Some(Id(t)) || ((slot.tankId.None? || t.tankId == "") && OnlyOfProduct(cfg, slot, t)))
  {
    OnlyCandidate(cfg, slot, t);
    hide Id; hide TanksOk; hide Named; hide Candidates;
    if slot.tankId.Some? {
      NamedIs(cfg.tanks, slot);
      var named := Named(cfg.tanks, slot);
      if named.Some? && t in cfg.tanks {
        TanksDiffer(cfg, t, named.value);
      }
    } else {
      var c := Candidates(cfg.tanks, slot);
      assert |c| == 1 ==> c == [c[0]];
    }
  }

  /** A slot maps to a tank of its own: in a valid configuration two slots never write
      the same tank, and never start at the same register of the same controller. */
  lemma SlotsDoNotCollide(cfg: Config, i: nat, j: nat)
    requires GaugesOk(cfg) && cfg.gauges.Some? && i < j < |Members(cfg.gauges.value.branches)|
    ensures var ms := Members(cfg.gauges.value.branches);
            && ProbeOf(ms[i]) != ProbeOf(ms[j])
            && (TankFor(cfg, ms[i].slot).Some? && TankFor(cfg, ms[j].slot).Some? ==>
                  Id(TankFor(cfg, ms[i].slot).value) != Id(TankFor(cfg, ms[j].slot).value))
  {
    var ms := Members(cfg.gauges.value.branches);
    assert Compatible(cfg, ms[i], ms[j]);
    hide ProbeOf; hide GroupOf; hide MemberOk; hide Id;
    TankForHasProduct(cfg, ms[i].slot);
    TankForHasProduct(cfg, ms[j].slot);
  }

  // ── Shared registers ───────────────────────────────────────────────────────

  /** Reached over the same wire: host, port and unit agree. */
  predicate SameWire(a: Member, b: Member) {
    var p, q := ProbeOf(a), ProbeOf(b);
    p.host == q.host && p.port == q.port && p.unit == q.unit
  }

  /** One of the twelve registers of the slot. */
  predicate Reads(m: Member, register: int) { ProbeOf(m).register <= register < ProbeOf(m).register + 12 }

  ghost predicate ShareRegister(a: Member, b: Member) {
    SameWire(a, b) && exists register :: Reads(a, register) && Reads(b, register)
  }

  /** In a valid configuration two slots on one wire share a register if and only if their
      first registers lie less than twelve apart: validation compares the first ones only. */
  lemma ShareRegisterIff(cfg: Config, i: nat, j: nat)
    requires GaugesOk(cfg) && cfg.gauges.Some? && i < j < |Members(cfg.gauges.value.branches)|
    ensures var a, b := Members(cfg.gauges.value.branches)[i], Members(cfg.gauges.value.branches)[j];
            SameWire(a, b) ==>
              && ProbeOf(a).register != ProbeOf(b).register
              && (ShareRegister(a, b) <==> -12 < ProbeOf(a).register - ProbeOf(b).register < 12)
  {
    var a, b := Members(cfg.gauges.value.branches)[i], Members(cfg.gauges.value.branches)[j];
    SlotsDoNotCollide(cfg, i, j);
    hide GaugesOk; hide Members; hide TankFor; hide Id; hide ProbeOf;
    if -12 < ProbeOf(a).register - ProbeOf(b).register <= 0 {
      assert Reads(a, ProbeOf(b).register) && Reads(b, ProbeOf(b).register);
    } else if 0 < ProbeOf(a).register - ProbeOf(b).register < 12 {
      assert Reads(a, ProbeOf(a).register) && Reads(b, ProbeOf(a).register);
    }
  }

  /** The windows of all controllers on one wire lie on one grid of tanks. */
  ghost predicate Aligned(ms: seq<Member>) {
    forall i, j | 0 <= i < j < |ms| && SameWire(ms[i], ms[j]) :: Pdu(ms[i].branch) % 12 == Pdu(ms[j].branch) % 12
  }

  /** When they do, no two slots share a register. */
  lemma AlignedShareNothing(cfg: Config, i: nat, j: nat)
    requires GaugesOk(cfg) && cfg.gauges.Some? && i < j < |Members(cfg.gauges.value.branches)|
    requires Aligned(Members(cfg.gauges.value.branches))
    ensures !ShareRegister(Members(cfg.gauges.value.branches)[i], Members(cfg.gauges.value.branches)[j])
  {
    var a, b := Members(cfg.gauges.value.branches)[i], Members(cfg.gauges.value.branches)[j];
    ShareRegisterIff(cfg, i, j);
    if SameWire(a, b) {
      assert Pdu(a.branch) % 12 == Pdu(b.branch) % 12;
      hide GaugesOk; hide Members; hide Aligned; hide Trim; hide Pdu; hide ShareRegister;
      MultiplesApart(Pdu(a.branch), Pdu(b.branch), a.slot.slot - 1, b.slot.slot - 1);
    }
  }

  lemma MultiplesApart(p: int, q: int, k: int, l: int)
    requires p % 12 == q % 12 && p + k * 12 != q + l * 12
    ensures !(-12 < (p + k * 12) - (q + l * 12) < 12)
  {}

  /** Two controllers on one wire whose windows start six registers apart. */
  function Overlapping(): Config {
    var slot := Slot(1, None, "f", None, None, None, map[]);
    Config(map[1 := "AI-92"], map[], [],
           Some(Gauges(true, 1, 1.0, None, true,
                       [Branch(1, None, false, "h", 502, 1, 0, 0, 12, [slot]), Branch(2, None, false, "h", 502, 1, 6, 0, 12, [slot])])))
  }

  /** Such a configuration passes validation, and both slots read registers 6 to 11. */
  lemma OverlapIsValid()
    ensures var cfg := Overlapping();
            && GaugesOk(cfg) && cfg.gauges.Some? && |Members(cfg.gauges.value.branches)| == 2
            && var ms := Members(cfg.gauges.value.branches);
               SameWire(ms[0], ms[1]) && forall register | 6 <= register <= 11 :: Reads(ms[0], register) && Reads(ms[1], register)
  {
    var cfg := Overlapping();
    var branches := cfg.gauges.value.branches;
    assert Trim("h") == "h" && Trim("f") == "f";
    hide Trim;
    var a, b := Member(branches[0], branches[0].slots[0]), Member(branches[1], branches[1].slots[0]);
    assert MembersOf(branches[0]) == [a] && MembersOf(branches[1]) == [b];
    assert branches[..1] == [branches[0]] && branches[..0] == [];
    assert Members(branches[..1]) == [a] by {
      assert branches[..1][..0] == [];
    }
    assert Members(branches) == [a, b];
    assert MemberOk(cfg, a) && MemberOk(cfg, b) && Compatible(cfg, a, b);
    assert BranchOk(branches[0]) && BranchOk(branches[1]);
  }

  lemma TankForHasProduct(cfg: Config, slot: Slot)
    ensures TankFor(cfg, slot).Some? ==> TankFor(cfg, slot).value in cfg.tanks && SameProduct(TankFor(cfg, slot).value, slot)
  {
    CandidatesAre(cfg.tanks, slot);
    if slot.tankId.Some? {
      NamedIs(cfg.tanks, slot);
    }
    var eligible := Candidates(cfg.tanks, slot);
    if |eligible| == 1 {
      assert eligible[0] in eligible;
    }
  }
}
