/** One polling round: which tank levels and samples the gauge readings produce. */
module GaugeRound {
  import opened Wire
  import opened GaugeConfig
  import opened Modbus

  /** What reading a controller's window gave, and when. */
  datatype Reading = Reading(floats: seq<Num>, at: int) | Failed(error: string, at: int)

  datatype Live = Live(productId: nat, volume: real, temperature: real, water: real, updatedAt: int, error: Option<string>)

  datatype Sample = Sample(tankId: string, productId: nat, volume: real, temperature: real,
                           levelMm: real, waterMm: real, fillPercent: real, at: int)

  function Measured(m: Member, r: Reading): Option<seq<real>> {
    if r.Reading? then SlotValues(r.floats, m.slot.slot) else None
  }

  lemma MeasuredHasSix(m: Member, r: Reading)
    ensures Measured(m, r).Some? ==>
              |Measured(m, r).value| == 6 && forall i | 0 <= i < 6 && i != 2 :: Measured(m, r).value[i] >= 0.0
  {}

  function ErrorOf(r: Reading): string {
    if r.Failed? then r.error else "Invalid tank measurements"
  }

  /** A tank's level after its slot was polled: the new values, or the old ones marked
      failed; a tank never measured starts from its configured volume. */
  function Polled(t: Tank, before: Option<Live>, m: Member, r: Reading): Live {
    var v := Measured(m, r);
    if v.Some? then
      MeasuredHasSix(m, r);
      Live(t.productId, v.value[4], v.value[2], v.value[5], r.at, None)
    else if before.Some? then before.value.(error := Some(ErrorOf(r)))
    else Live(t.productId, t.current, 0.0, 0.0, 0, Some(ErrorOf(r)))
  }

  function SampleOf(t: Tank, m: Member, v: seq<real>, at: int): Sample
    requires |v| == 6 && t.capacity > 0.0
  {
    var scale := if m.branch.metres then 1000.0 else 1.0;
    Sample(Id(t), t.productId, v[4], v[2], v[0] * scale, v[1] * scale, v[4] / t.capacity * 100.0, at)
  }

  // ── The round ──────────────────────────────────────────────────────────────

  /** A slot with the reading of its controller. */
  datatype Entry = Entry(m: Member, r: Reading)

  function Entries(branches: seq<Branch>, rs: seq<Reading>): (r: seq<Entry>)
    requires |rs| == |branches|
    ensures |r| == |Members(branches)| && forall i | 0 <= i < |r| :: r[i].m == Members(branches)[i]
  {
    if branches == [] then []
    else
      var last := |branches| - 1;
      Entries(branches[..last], rs[..last]) + EntriesOf(branches[last], rs[last])
  }

  function EntriesOf(b: Branch, r: Reading): (es: seq<Entry>)
    ensures |es| == |b.slots| && forall i | 0 <= i < |es| :: es[i].m == MembersOf(b)[i]
  {
    seq(|b.slots|, i requires 0 <= i < |b.slots| => Entry(Member(b, b.slots[i]), r))
  }

  function At(levels: map<string, Live>, id: string): Option<Live> {
    if id in levels then Some(levels[id]) else None
  }

  function Level(cfg: Config, levels: map<string, Live>, e: Entry): map<string, Live> {
    match TankFor(cfg, e.m.slot)
    case None => levels
    case Some(t) => levels[Id(t) := Polled(t, At(levels, Id(t)), e.m, e.r)]
  }

  function Levels(cfg: Config, levels: map<string, Live>, es: seq<Entry>): map<string, Live>
    decreases |es|
  {
    if es == [] then levels
    else Level(cfg, Levels(cfg, levels, es[..|es| - 1]), es[|es| - 1])
  }

  predicate Capacities(cfg: Config) { forall t | t in cfg.tanks :: t.capacity > 0.0 }

  function SamplesOf(cfg: Config, e: Entry): seq<Sample>
    requires Capacities(cfg)
  {
    var t, v := TankFor(cfg, e.m.slot), Measured(e.m, e.r);
    if t.None? || v.None? then []
    else
      MeasuredHasSix(e.m, e.r);
      TankForHasProduct(cfg, e.m.slot);
      [SampleOf(t.value, e.m, v.value, e.r.at)]
  }

  function Samples(cfg: Config, es: seq<Entry>): seq<Sample>
    requires Capacities(cfg)
    decreases |es|
  {
    if es == [] then [] else Samples(cfg, es[..|es| - 1]) + SamplesOf(cfg, es[|es| - 1])
  }

  /** The windows that arrived, by controller. */
  function Windows(branches: seq<Branch>, rs: seq<Reading>): map<nat, seq<Num>>
    requires |rs| == |branches|
    decreases |branches|
  {
    if branches == [] then map[]
    else
      var last := |branches| - 1;
      var before := Windows(branches[..last], rs[..last]);
      if rs[last].Reading? then before[branches[last].id := rs[last].floats] else before
  }

  lemma EntrySnoc(cfg: Config, levels: map<string, Live>, es: seq<Entry>, e: Entry)
    requires Capacities(cfg)
    ensures Levels(cfg, levels, es + [e]) == Level(cfg, Levels(cfg, levels, es), e)
    ensures Samples(cfg, es + [e]) == Samples(cfg, es) + SamplesOf(cfg, e)
  {
    hide Level; hide SamplesOf; hide Capacities;
    assert (es + [e])[..|es|] == es;
  }

  class LevelMap {
    var levels: map<string, Live>

    /** Polls every slot of every controller. `rs` are the readings up to a change of the
        configuration: noticed behind the next read, it ends the round, and neither windows
        nor samples are handed on. */
    method PollRound(cfg: Config, branches: seq<Branch>, rs: seq<Reading>) returns (published: Option<(map<nat, seq<Num>>, seq<Sample>)>)
      requires |rs| <= |branches| && Capacities(cfg)
      modifies this
      ensures levels == Levels(cfg, old(levels), Entries(branches[..|rs|], rs))
      ensures published == if |rs| < |branches| then None else Some((Windows(branches, rs), Samples(cfg, Entries(branches, rs))))
    {
      hide Level; hide SamplesOf; hide EntriesOf; hide Capacities; hide Members; hide MembersOf;
      var readings: map<nat, seq<Num>>, sync: seq<Sample> := map[], [];
      var i := 0;
      while i < |branches|
        invariant 0 <= i <= |rs|
        invariant levels == Levels(cfg, old(levels), Entries(branches[..i], rs[..i]))
        invariant sync == Samples(cfg, Entries(branches[..i], rs[..i]))
        invariant readings == Windows(branches[..i], rs[..i])
      {
        hide Levels; hide Samples;
        if i == |rs| {
          assert rs[..i] == rs;
          return None;
        }
        assert branches[..i + 1][..i] == branches[..i] && rs[..i + 1][..i] == rs[..i];
        sync := PollBranch(cfg, branches[i], rs[i], Entries(branches[..i], rs[..i]), old(levels), sync);
        if rs[i].Reading? {
          readings := readings[branches[i].id := rs[i].floats];
        }
        i := i + 1;
      }
      assert branches[..i] == branches && rs[..i] == rs;
      return Some((readings, sync));
    }

    method PollBranch(cfg: Config, b: Branch, r: Reading, ghost seen: seq<Entry>, ghost start: map<string, Live>, sync: seq<Sample>)
      returns (samples: seq<Sample>)
      requires Capacities(cfg) && levels == Levels(cfg, start, seen) && sync == Samples(cfg, seen)
      modifies this
      ensures levels == Levels(cfg, start, seen + EntriesOf(b, r)) && samples == Samples(cfg, seen + EntriesOf(b, r))
    {
      hide Level; hide SamplesOf; hide Capacities; hide Levels; hide Samples;
      samples := sync;
      ghost var es := EntriesOf(b, r);
      var k := 0;
      assert seen + es[..0] == seen;
      while k < |b.slots|
        invariant 0 <= k <= |b.slots|
        invariant levels == Levels(cfg, start, seen + es[..k]) && samples == Samples(cfg, seen + es[..k])
      {
        assert seen + es[..k + 1] == (seen + es[..k]) + [es[k]];
        EntrySnoc(cfg, start, seen + es[..k], es[k]);
        var own := PollSlot(cfg, Member(b, b.slots[k]), r);
        samples := samples + own;
        k := k + 1;
      }
      assert seen + es[..k] == seen + es;
    }

    method PollSlot(cfg: Config, m: Member, r: Reading) returns (samples: seq<Sample>)
      requires Capacities(cfg)
      modifies this
      ensures levels == Level(cfg, old(levels), Entry(m, r)) && samples == SamplesOf(cfg, Entry(m, r))
    {
      hide TankFor; hide Id; hide SlotValues;
      var tank := TankFor(cfg, m.slot);
      if tank.None? {
        return [];
      }
      var t := tank.value;
      var values := if r.Reading? then SlotValues(r.floats, m.slot.slot) else None;
      if values.Some? {
        MeasuredHasSix(m, r);
        TankForHasProduct(cfg, m.slot);
        var v := values.value;
        var scale := if m.branch.metres then 1000.0 else 1.0;
        levels := levels[Id(t) := Live(t.productId, v[4], v[2], v[5], r.at, None)];
        return [Sample(Id(t), t.productId, v[4], v[2], v[0] * scale, v[1] * scale, v[4] / t.capacity * 100.0, r.at)];
      }
      var error := if r.Failed? then r.error else "Invalid tank measurements";
      if Id(t) in levels {
        levels := levels[Id(t) := levels[Id(t)].(error := Some(error))];
      } else {
        levels := levels[Id(t) := Live(t.productId, t.current, 0.0, 0.0, 0, Some(error))];
      }
      return [];
    }
  }

  /** What a round polls of these gauges until the readings end. */
  function PolledEntries(g: Gauges, rs: seq<Reading>): seq<Entry>
    requires |rs| <= |g.branches|
  {
    Entries(g.branches[..|rs|], rs)
  }

  // ── One write per tank ─────────────────────────────────────────────────────

  ghost predicate Separate(cfg: Config, es: seq<Entry>) {
    forall i, j | 0 <= i < j < |es| && TankFor(cfg, es[i].m.slot).Some? && TankFor(cfg, es[j].m.slot).Some? ::
      Id(TankFor(cfg, es[i].m.slot).value) != Id(TankFor(cfg, es[j].m.slot).value)
  }

  lemma {:induction false} LevelsAre(cfg: Config, levels: map<string, Live>, es: seq<Entry>)
    requires Separate(cfg, es)
    ensures forall i | 0 <= i < |es| ::
              var t := TankFor(cfg, es[i].m.slot);
              t.Some? ==> At(Levels(cfg, levels, es), Id(t.value)) == Some(Polled(t.value, At(levels, Id(t.value)), es[i].m, es[i].r))
    ensures forall id :: (forall i | 0 <= i < |es| :: TankFor(cfg, es[i].m.slot).Some? ==> Id(TankFor(cfg, es[i].m.slot).value) != id)
              ==> At(Levels(cfg, levels, es), id) == At(levels, id)
    decreases |es|
  {
    hide TankFor; hide Id; hide Polled;
    if es != [] {
      var last := |es| - 1;
      var es' := es[..last];
      assert forall i | 0 <= i < last :: es'[i] == es[i];
      LevelsAre(cfg, levels, es');
    }
  }

  /** The slot's volume, temperature and water, the time and no error if its six values are
      there; else the error of the read, or that the values are invalid, beside the level
      shown before, which for a tank never measured is the configured volume at time 0. */
  ghost predicate ShowsReading(now: Option<Live>, before: Option<Live>, t: Tank, m: Member, r: Reading) {
    var six := if r.Reading? then SlotValues(r.floats, m.slot.slot) else None;
    && now.Some?
    && (six.Some? ==>
          && |six.value| == 6 && now.value.volume == six.value[4] && now.value.temperature == six.value[2]
          && now.value.water == six.value[5] && now.value.updatedAt == r.at && now.value.error == None
          && now.value.productId == t.productId)
    && (six.None? ==>
          && now.value.error == Some(if r.Failed? then r.error else "Invalid tank measurements")
          && (before.Some? ==>
                && now.value.volume == before.value.volume && now.value.temperature == before.value.temperature
                && now.value.water == before.value.water && now.value.updatedAt == before.value.updatedAt
                && now.value.productId == before.value.productId)
          && (before.None? ==>
                && now.value.volume == t.current && now.value.temperature == 0.0 && now.value.water == 0.0
                && now.value.updatedAt == 0 && now.value.productId == t.productId))
  }

  lemma PolledShows(t: Tank, before: Option<Live>, m: Member, r: Reading)
    ensures ShowsReading(Some(Polled(t, before, m, r)), before, t, m, r)
  {
    MeasuredHasSix(m, r);
    hide SlotValues;
  }

  /** In a valid configuration a round, broken off or not, writes each tank at most once:
      afterwards every tank mapped by a polled slot shows that slot's reading, or its own
      old level marked failed, and every other tank is as before. */
  lemma RoundShowsEachSlot(cfg: Config, levels: map<string, Live>, rs: seq<Reading>, i: nat, id: string)
    requires GaugesOk(cfg) && cfg.gauges.Some? && |rs| <= |cfg.gauges.value.branches|
    requires i < |PolledEntries(cfg.gauges.value, rs)|
    ensures var es := PolledEntries(cfg.gauges.value, rs);
            var after := Levels(cfg, levels, es);
            var t := TankFor(cfg, es[i].m.slot);
            && (t.Some? ==>
                  && At(after, Id(t.value)) == Some(Polled(t.value, At(levels, Id(t.value)), es[i].m, es[i].r))
                  && ShowsReading(At(after, Id(t.value)), At(levels, Id(t.value)), t.value, es[i].m, es[i].r))
            && ((forall j | 0 <= j < |es| :: TankFor(cfg, es[j].m.slot).Some? ==> Id(TankFor(cfg, es[j].m.slot).value) != id) ==>
                  At(after, id) == At(levels, id))
  {
    var es := PolledEntries(cfg.gauges.value, rs);
    ValidIsSeparate(cfg, rs);
    hide GaugesOk; hide TankFor; hide Id; hide PolledEntries;
    LevelsAre(cfg, levels, es);
    var t := TankFor(cfg, es[i].m.slot);
    if t.Some? {
      PolledShows(t.value, At(levels, Id(t.value)), es[i].m, es[i].r);
    }
    hide Polled; hide ShowsReading;
  }

  lemma ValidIsSeparate(cfg: Config, rs: seq<Reading>)
    requires GaugesOk(cfg) && cfg.gauges.Some? && |rs| <= |cfg.gauges.value.branches|
    ensures Separate(cfg, PolledEntries(cfg.gauges.value, rs))
  {
    var es := PolledEntries(cfg.gauges.value, rs);
    forall i, j | 0 <= i < j < |es| && TankFor(cfg, es[i].m.slot).Some? && TankFor(cfg, es[j].m.slot).Some?
      ensures Id(TankFor(cfg, es[i].m.slot).value) != Id(TankFor(cfg, es[j].m.slot).value) {
      PolledAreMembers(cfg.gauges.value, rs, i);
      PolledAreMembers(cfg.gauges.value, rs, j);
      SlotsDoNotCollide(cfg, i, j);
    }
  }

  lemma PolledAreMembers(g: Gauges, rs: seq<Reading>, i: nat)
    requires |rs| <= |g.branches| && i < |PolledEntries(g, rs)|
    ensures i < |Members(g.branches)| && PolledEntries(g, rs)[i].m == Members(g.branches)[i]
  {
    hide Members;
    MembersPrefix(g.branches, |rs|);
  }

  lemma {:induction false} MembersBelong(branches: seq<Branch>, i: nat)
    requires i < |Members(branches)|
    ensures Members(branches)[i].branch in branches
    decreases |branches|
  {
    var last := |branches| - 1;
    if i < |Members(branches[..last])| {
      MembersBelong(branches[..last], i);
    } else {
      assert branches[last] in branches;
    }
  }

  /** The `k`-th measurement of the slot that starts at `register`. */
  function Measurement(memory: seq<Register>, register: int, order: WordOrder, k: nat): Num
    requires 0 <= register && register + 2 * k + 1 < |memory|
  {
    FloatOf(Ordered(memory[register + 2 * k], memory[register + 2 * k + 1], order))
  }

  /** What a controller with these registers sends for its window. */
  function Window(memory: seq<Register>, b: Branch): seq<Register>
    requires |memory| == 0x1_0000
  {
    if WindowOk(b) then memory[Pdu(b)..Pdu(b) + b.registerCount] else []
  }

  /** From the probe to the display: the level of a tank is decoded from its own slot's
      registers, volume from the ninth and tenth, temperature from the fifth and sixth,
      water from the last two. */
  lemma TankShowsItsRegisters(cfg: Config, levels: map<string, Live>, rs: seq<Reading>, i: nat, e: Entry, t: Tank,
                              memory: seq<Register>, order: WordOrder, at: int)
    requires GaugesOk(cfg) && cfg.gauges.Some? && |rs| <= |cfg.gauges.value.branches| && |memory| == 0x1_0000
    requires i < |PolledEntries(cfg.gauges.value, rs)| && e == PolledEntries(cfg.gauges.value, rs)[i]
    requires TankFor(cfg, e.m.slot) == Some(t) && e.r == Reading(Floats(Window(memory, e.m.branch), order), at)
    ensures var register := ProbeOf(e.m).register;
            var now := At(Levels(cfg, levels, PolledEntries(cfg.gauges.value, rs)), Id(t));
            && 0 <= register && register + 12 <= 0x1_0000 && now.Some?
            && (now.value.error.None? <==> forall k | 0 <= k < 6 :: !BadValue(Measurement(memory, register, order, k), k))
            && (now.value.error.None? ==>
                  && Finite(now.value.volume) == Measurement(memory, register, order, 4)
                  && Finite(now.value.temperature) == Measurement(memory, register, order, 2)
                  && Finite(now.value.water) == Measurement(memory, register, order, 5)
                  && now.value.updatedAt == at)
  {
    hide *;
    EntryIsSound(cfg, rs, i);
    RoundShowsEachSlot(cfg, levels, rs, i, "");
    OwnRegisters(cfg, e.m, memory, order);
    var register := ProbeOf(e.m).register;
    LiveFromOwn(t, At(levels, Id(t)), e.m, e.r, Floats(memory[register..register + 12], order));
  }

  lemma EntryIsSound(cfg: Config, rs: seq<Reading>, i: nat)
    requires GaugesOk(cfg) && cfg.gauges.Some? && |rs| <= |cfg.gauges.value.branches|
    requires i < |PolledEntries(cfg.gauges.value, rs)|
    ensures var m := PolledEntries(cfg.gauges.value, rs)[i].m; MemberOk(cfg, m) && WindowOk(m.branch)
  {
    hide MemberOk; hide WindowOk; hide Compatible; hide Trim;
    PolledAreMembers(cfg.gauges.value, rs, i);
    MembersBelong(cfg.gauges.value.branches, i);
    assert BranchOk(Members(cfg.gauges.value.branches)[i].branch);
  }

  lemma OwnRegisters(cfg: Config, m: Member, memory: seq<Register>, order: WordOrder)
    requires MemberOk(cfg, m) && WindowOk(m.branch) && |memory| == 0x1_0000
    ensures var register := ProbeOf(m).register;
            var values := SlotValues(Floats(Window(memory, m.branch), order), m.slot.slot);
            && 0 <= register && register + 12 <= 0x1_0000
            && var own := Floats(memory[register..register + 12], order);
               && (values.None? <==> exists k | 0 <= k < 6 :: BadValue(own[k], k))
               && (values.Some? ==> |values.value| == 6 && forall k | 0 <= k < 6 :: own[k] == Finite(values.value[k]))
               && forall k | 0 <= k < 6 :: own[k] == Measurement(memory, register, order, k)
  {
    hide *;
    SlotReadsItsRegisters(cfg, m, memory, order);
    WindowIs(memory, m.branch);
    OwnMeasurements(memory, ProbeOf(m).register, order);
  }

  lemma WindowIs(memory: seq<Register>, b: Branch)
    requires |memory| == 0x1_0000 && WindowOk(b)
    ensures Pdu(b) + b.registerCount <= 0x1_0000 && Window(memory, b) == memory[Pdu(b)..Pdu(b) + b.registerCount]
  {}

  lemma OwnMeasurements(memory: seq<Register>, register: int, order: WordOrder)
    requires 0 <= register && register + 12 <= |memory|
    ensures forall k | 0 <= k < 6 :: Floats(memory[register..register + 12], order)[k] == Measurement(memory, register, order, k)
  {
    hide FloatOf; hide Ordered;
  }

  lemma LiveFromOwn(t: Tank, before: Option<Live>, m: Member, r: Reading, own: seq<Num>)
    requires r.Reading? && |own| == 6
    requires var values := SlotValues(r.floats, m.slot.slot);
             && (values.None? <==> exists k | 0 <= k < 6 :: BadValue(own[k], k))
             && (values.Some? ==> |values.value| == 6 && forall k | 0 <= k < 6 :: own[k] == Finite(values.value[k]))
    ensures var now := Polled(t, before, m, r);
            && (now.error.None? <==> forall k | 0 <= k < 6 :: !BadValue(own[k], k))
            && (now.error.None? ==> Finite(now.volume) == own[4] && Finite(now.temperature) == own[2] && Finite(now.water) == own[5] && now.updatedAt == r.at)
  {
    hide SlotValues; hide BadValue;
  }

  /** A sample of the entry's tank with the six values of its slot, heights in millimetres
      and the volume also as a percentage of the capacity. */
  ghost predicate Samples6(cfg: Config, e: Entry, s: Sample) {
    var t := TankFor(cfg, e.m.slot);
    var six := if e.r.Reading? then SlotValues(e.r.floats, e.m.slot.slot) else None;
    && t.Some? && six.Some? && |six.value| == 6
    && s.tankId == Id(t.value) && s.productId == t.value.productId && s.at == e.r.at
    && s.volume == six.value[4] && s.temperature == six.value[2]
    && (if e.m.branch.metres then s.levelMm == 1000.0 * six.value[0] && s.waterMm == 1000.0 * six.value[1]
        else s.levelMm == six.value[0] && s.waterMm == six.value[1])
    && s.fillPercent * t.value.capacity == 100.0 * s.volume
  }

  lemma FractionOf(volume: real, capacity: real)
    requires capacity > 0.0
    ensures volume / capacity * 100.0 * capacity == 100.0 * volume
  {
    assert volume / capacity * capacity == volume;
    assert volume / capacity * 100.0 * capacity == 100.0 * (volume / capacity * capacity);
  }

  lemma SampleIs(cfg: Config, e: Entry)
    requires Capacities(cfg)
    ensures SamplesOf(cfg, e) == [] <==> TankFor(cfg, e.m.slot).None? || Measured(e.m, e.r).None?
    ensures SamplesOf(cfg, e) != [] ==> |SamplesOf(cfg, e)| == 1 && Samples6(cfg, e, SamplesOf(cfg, e)[0])
  {
    MeasuredHasSix(e.m, e.r);
    TankForHasProduct(cfg, e.m.slot);
    hide TankFor; hide Id; hide SlotValues;
    if SamplesOf(cfg, e) != [] {
      FractionOf(Measured(e.m, e.r).value[4], TankFor(cfg, e.m.slot).value.capacity);
    }
  }

  lemma ValidCapacities(cfg: Config)
    requires TanksOk(cfg)
    ensures Capacities(cfg)
  {
    forall t | t in cfg.tanks ensures t.capacity > 0.0 {
      assert FieldsOk(cfg, t);
    }
  }

  lemma {:induction false} SamplesComeFrom(cfg: Config, es: seq<Entry>)
    requires Capacities(cfg)
    ensures forall s | s in Samples(cfg, es) :: FromEntry(cfg, es, s)
    decreases |es|
  {
    hide Capacities; hide Samples6; hide SamplesOf;
    if es != [] {
      var last := |es| - 1;
      SamplesComeFrom(cfg, es[..last]);
      SampleIs(cfg, es[last]);
      LastSample(cfg, es);
      hide Samples;
      forall s | s in Samples(cfg, es) ensures FromEntry(cfg, es, s) {
        if s in Samples(cfg, es[..last]) {
          var k :| 0 <= k < last && Samples6(cfg, es[..last][k], s);
          assert Samples6(cfg, es[k], s);
        } else {
          assert Samples6(cfg, es[last], s);
        }
      }
    }
  }

  lemma {:induction false} SamplesComplete(cfg: Config, es: seq<Entry>, k: nat)
    requires Capacities(cfg) && k < |es| && TankFor(cfg, es[k].m.slot).Some? && Measured(es[k].m, es[k].r).Some?
    ensures exists s :: s in Samples(cfg, es) && Samples6(cfg, es[k], s)
    decreases |es|
  {
    hide Capacities; hide Samples6; hide SamplesOf; hide TankFor; hide Measured;
    var last := |es| - 1;
    LastSample(cfg, es);
    hide Samples;
    if k < last {
      SamplesComplete(cfg, es[..last], k);
      var s :| s in Samples(cfg, es[..last]) && Samples6(cfg, es[..last][k], s);
      assert s in Samples(cfg, es);
    } else {
      SampleIs(cfg, es[last]);
      assert SamplesOf(cfg, es[last])[0] in Samples(cfg, es);
    }
  }

  lemma {:induction false} SamplesApart(cfg: Config, es: seq<Entry>)
    requires Capacities(cfg) && Separate(cfg, es)
    ensures forall i, j | 0 <= i < j < |Samples(cfg, es)| :: Samples(cfg, es)[i].tankId != Samples(cfg, es)[j].tankId
    decreases |es|
  {
    hide TankFor; hide Id; hide Measured; hide Capacities;
    if es != [] {
      var last := |es| - 1;
      var es' := es[..last];
      assert forall i | 0 <= i < last :: es'[i] == es[i];
      SamplesApart(cfg, es');
      SamplesNameTanks(cfg, es');
      LastSample(cfg, es);
    }
  }

  lemma {:induction false} SamplesNameTanks(cfg: Config, es: seq<Entry>)
    requires Capacities(cfg)
    ensures forall s | s in Samples(cfg, es) ::
              exists k | 0 <= k < |es| :: TankFor(cfg, es[k].m.slot).Some? && s.tankId == Id(TankFor(cfg, es[k].m.slot).value)
  {
    SamplesComeFrom(cfg, es);
    hide TankFor; hide Id; hide Samples; hide Capacities;
    forall s | s in Samples(cfg, es)
      ensures exists k | 0 <= k < |es| :: TankFor(cfg, es[k].m.slot).Some? && s.tankId == Id(TankFor(cfg, es[k].m.slot).value)
    {
      var k :| 0 <= k < |es| && Samples6(cfg, es[k], s);
    }
  }

  /** Each tank is sampled at most once a round, each sample is of a complete reading of one
      of the slots, and every complete reading of a slot with a tank is sampled. */
  lemma SamplesAreDistinct(cfg: Config, es: seq<Entry>)
    requires Capacities(cfg) && Separate(cfg, es)
    ensures forall i, j | 0 <= i < j < |Samples(cfg, es)| :: Samples(cfg, es)[i].tankId != Samples(cfg, es)[j].tankId
    ensures forall s | s in Samples(cfg, es) :: FromEntry(cfg, es, s)
    ensures forall k | 0 <= k < |es| && TankFor(cfg, es[k].m.slot).Some? && Measured(es[k].m, es[k].r).Some? ::
              exists s :: s in Samples(cfg, es) && Samples6(cfg, es[k], s)
  {
    hide *;
    SamplesApart(cfg, es);
    SamplesComeFrom(cfg, es);
    forall k | 0 <= k < |es| && TankFor(cfg, es[k].m.slot).Some? && Measured(es[k].m, es[k].r).Some?
      ensures exists s :: s in Samples(cfg, es) && Samples6(cfg, es[k], s) {
      SamplesComplete(cfg, es, k);
    }
  }

  lemma LastSample(cfg: Config, es: seq<Entry>)
    requires Capacities(cfg) && es != []
    ensures Samples(cfg, es) == Samples(cfg, es[..|es| - 1]) + SamplesOf(cfg, es[|es| - 1])
  {}

  ghost predicate FromEntry(cfg: Config, es: seq<Entry>, s: Sample) {
    exists k | 0 <= k < |es| :: Samples6(cfg, es[k], s)
  }
}
