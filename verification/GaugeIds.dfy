/** Freezing the tank identities of older configurations while they are loaded. */
module GaugeIds {
  import opened Wire
  import opened GaugeConfig

  function AllSlots(cfg: Config): seq<Slot> {
    var ms := if cfg.gauges.Some? then Members(cfg.gauges.value.branches) else [];
    seq(|ms|, i requires 0 <= i < |ms| => ms[i].slot)
  }

  function SlotsOf(slots: seq<Slot>, product: nat): seq<Slot> {
    if slots == [] then []
    else (if slots[0].productId == Some(product) then [slots[0]] else []) + SlotsOf(slots[1..], product)
  }

  function TanksOf(tanks: seq<Tank>, product: Option<nat>): seq<Tank> {
    if tanks == [] then []
    else (if product == Some(tanks[0].productId) then [tanks[0]] else []) + TanksOf(tanks[1..], product)
  }

  /** What an unnamed tank is called after: the one slot of its product, if that has a name. */
  function NameFrom(slots: seq<Slot>, product: nat): string {
    var name := if slots == [] then None else if slots[0].tankId.Some? then slots[0].tankId else slots[0].title;
    if name.Some? && Trim(name.value) != "" then name.value else Decimal(product)
  }

  /** `None` when several slots could name the tank. */
  function FrozenTank(t: Tank, slots: seq<Slot>): Option<Tank> {
    if t.tankId != "" then Some(t)
    else
      var own := SlotsOf(slots, t.productId);
      if |own| > 1 then None else Some(t.(tankId := NameFrom(own, t.productId)))
  }

  function FrozenTanks(tanks: seq<Tank>, slots: seq<Slot>): Option<seq<Tank>> {
    if tanks == [] then Some([])
    else
      var before, last := FrozenTanks(tanks[..|tanks| - 1], slots), FrozenTank(tanks[|tanks| - 1], slots);
      if before.None? || last.None? then None else Some(before.value + [last.value])
  }

  /** `None` when several tanks could be meant. */
  function FrozenSlot(branchId: nat, slot: Slot, tanks: seq<Tank>): Option<Slot> {
    if slot.tankId.Some? then Some(slot)
    else
      var own := TanksOf(tanks, slot.productId);
      if |own| > 1 then None
      else Some(slot.(tankId := Some(if own != [] then Id(own[0]) else "controller-" + Decimal(branchId) + "-slot-" + Decimal(slot.slot))))
  }

  // ── As the source runs it ──────────────────────────────────────────────────

  method FreezeTanks(tanks: seq<Tank>, slots: seq<Slot>) returns (r: Option<seq<Tank>>)
    ensures r == FrozenTanks(tanks, slots)
  {
    hide FrozenTank;
    var out, i := tanks, 0;
    while i < |tanks|
      invariant 0 <= i <= |tanks| == |out|
      invariant FrozenTanks(tanks[..i], slots) == Some(out[..i]) && out[i..] == tanks[i..]
    {
      assert tanks[..i + 1][..i] == tanks[..i];
      var named := FreezeTank(tanks[i], slots);
      if named.None? {
        FailsEarly(tanks, slots, i + 1);
        return None;
      }
      out := out[i := named.value];
      assert out[..i + 1] == out[..i] + [named.value];
      i := i + 1;
    }
    assert tanks[..i] == tanks && out[..i] == out;
    return Some(out);
  }

  /** The body of the loop, for one tank. */
  method FreezeTank(t: Tank, slots: seq<Slot>) returns (r: Option<Tank>)
    ensures r == FrozenTank(t, slots)
  {
    if t.tankId != "" {
      return Some(t);
    }
    hide Trim; hide Decimal;
    var own := SlotsOf(slots, t.productId);
    if |own| >= 2 {
      return None;
    }
    var id := Decimal(t.productId);
    if |own| == 1 {
      var name := if own[0].tankId.Some? then own[0].tankId else own[0].title;
      if name.Some? && Trim(name.value) != "" {
        id := name.value;
      }
    }
    return Some(t.(tankId := id));
  }

  lemma {:induction false} FailsEarly(tanks: seq<Tank>, slots: seq<Slot>, n: nat)
    requires n <= |tanks| && FrozenTanks(tanks[..n], slots).None?
    ensures FrozenTanks(tanks, slots).None?
    decreases |tanks| - n
  {
    if n < |tanks| {
      assert tanks[..n + 1][..n] == tanks[..n];
      FailsEarly(tanks, slots, n + 1);
    } else {
      assert tanks[..n] == tanks;
    }
  }

  // ── When freezing fails, and which names it gives ──────────────────────────

  ghost predicate SomeSlot(slots: seq<Slot>, product: nat) {
    exists j | 0 <= j < |slots| :: slots[j].productId == Some(product)
  }

  ghost predicate SeveralSlots(slots: seq<Slot>, product: nat) {
    exists j, k | 0 <= j < k < |slots| :: slots[j].productId == Some(product) && slots[k].productId == Some(product)
  }

  predicate IsOf(t: Tank, product: Option<nat>) { product == Some(t.productId) }

  ghost predicate SomeTank(tanks: seq<Tank>, product: Option<nat>) { exists j | 0 <= j < |tanks| :: IsOf(tanks[j], product) }

  ghost predicate SeveralTanks(tanks: seq<Tank>, product: Option<nat>) {
    exists j, k | 0 <= j < k < |tanks| :: IsOf(tanks[j], product) && IsOf(tanks[k], product)
  }

  /** Positions at which `p` holds: some, and several, of a list with one more in front. */
  lemma InFront<T>(x: T, rest: seq<T>, p: T -> bool)
    ensures var all := [x] + rest;
            && ((exists j | 0 <= j < |all| :: p(all[j])) <==> p(x) || exists j | 0 <= j < |rest| :: p(rest[j]))
            && ((exists j, k | 0 <= j < k < |all| :: p(all[j]) && p(all[k])) <==>
                  (p(x) && exists j | 0 <= j < |rest| :: p(rest[j]))
                  || exists j, k | 0 <= j < k < |rest| :: p(rest[j]) && p(rest[k]))
  {
    var all := [x] + rest;
    assert all[0] == x;
    if j :| 0 <= j < |rest| && p(rest[j]) {
      assert all[j + 1] == rest[j];
    }
    if j, k :| 0 <= j < k < |rest| && p(rest[j]) && p(rest[k]) {
      assert all[j + 1] == rest[j] && all[k + 1] == rest[k];
    }
    if j, k :| 0 <= j < k < |all| && p(all[j]) && p(all[k]) {
      assert all[k] == rest[k - 1];
      if j > 0 {
        assert all[j] == rest[j - 1];
      }
    }
  }

  lemma {:induction false} SlotsOfAre(slots: seq<Slot>, product: nat)
    ensures SlotsOf(slots, product) == [] <==> !SomeSlot(slots, product)
    ensures |SlotsOf(slots, product)| > 1 <==> SeveralSlots(slots, product)
    decreases |slots|
  {
    if slots != [] {
      assert slots == [slots[0]] + slots[1..];
      SlotsOfAre(slots[1..], product);
      InFront(slots[0], slots[1..], (x: Slot) => x.productId == Some(product));
    }
  }

  lemma {:induction false} TanksOfAre(tanks: seq<Tank>, product: Option<nat>)
    ensures TanksOf(tanks, product) == [] <==> !SomeTank(tanks, product)
    ensures |TanksOf(tanks, product)| > 1 <==> SeveralTanks(tanks, product)
    decreases |tanks|
  {
    if tanks != [] {
      assert tanks == [tanks[0]] + tanks[1..];
      TanksOfAre(tanks[1..], product);
      InFront(tanks[0], tanks[1..], (x: Tank) => IsOf(x, product));
    }
  }

  /** Freezing the tanks fails exactly when several slots measure the product of an unnamed
      tank. */
  lemma {:induction false} FreezeFailsIff(tanks: seq<Tank>, slots: seq<Slot>)
    ensures FrozenTanks(tanks, slots).None?
       <==> exists i | 0 <= i < |tanks| :: tanks[i].tankId == "" && SeveralSlots(slots, tanks[i].productId)
    decreases |tanks|
  {
    hide SlotsOf; hide NameFrom; hide SeveralSlots;
    if tanks != [] {
      var last := |tanks| - 1;
      FreezeFailsIff(tanks[..last], slots);
      SlotsOfAre(slots, tanks[last].productId);
      assert forall i | 0 <= i < last :: tanks[..last][i] == tanks[i];
      if exists i | 0 <= i < last :: tanks[i].tankId == "" && SeveralSlots(slots, tanks[i].productId) {
        var i :| 0 <= i < last && tanks[i].tankId == "" && SeveralSlots(slots, tanks[i].productId);
        assert tanks[..last][i].tankId == "";
      }
    }
  }

  /** A slot is left unnamed exactly when several tanks hold its product; otherwise it takes
      the name of the only one, or one made of controller and slot number when there is none. */
  lemma SlotFreezesIff(branchId: nat, slot: Slot, tanks: seq<Tank>, i: nat)
    requires slot.tankId.None?
    ensures FrozenSlot(branchId, slot, tanks).None? <==> SeveralTanks(tanks, slot.productId)
    ensures !SeveralTanks(tanks, slot.productId) && i < |tanks| && SameProduct(tanks[i], slot) ==>
              FrozenSlot(branchId, slot, tanks) == Some(slot.(tankId := Some(Id(tanks[i]))))
    ensures (forall j | 0 <= j < |tanks| :: !SameProduct(tanks[j], slot)) ==>
              FrozenSlot(branchId, slot, tanks)
              == Some(slot.(tankId := Some("controller-" + Decimal(branchId) + "-slot-" + Decimal(slot.slot))))
  {
    TanksOfAre(tanks, slot.productId);
    if i < |tanks| && SameProduct(tanks[i], slot) {
      TanksOfIs(tanks, slot.productId, i);
    }
    hide Id; hide Decimal; hide TanksOf; hide SeveralTanks;
  }

  // ── What freezing keeps ────────────────────────────────────────────────────

  lemma {:induction false} FrozenTanksAre(tanks: seq<Tank>, slots: seq<Slot>)
    requires FrozenTanks(tanks, slots).Some?
    ensures var r := FrozenTanks(tanks, slots).value;
            |r| == |tanks| && forall i | 0 <= i < |tanks| :: Some(r[i]) == FrozenTank(tanks[i], slots)
    decreases |tanks|
  {
    hide FrozenTank;
    if tanks != [] {
      var last := |tanks| - 1;
      FrozenTanksAre(tanks[..last], slots);
      assert forall i | 0 <= i < last :: tanks[..last][i] == tanks[i];
    }
  }

  /** A frozen tank keeps its product and has a name of its own. */
  lemma FrozenTankIs(t: Tank, slots: seq<Slot>)
    requires FrozenTank(t, slots).Some?
    ensures var r := FrozenTank(t, slots).value; r.productId == t.productId && r.tankId != "" && (t.tankId != "" ==> r == t)
  {
    assert Decimal(t.productId) != "" && Trim("") == "";
    hide Trim; hide Decimal; hide SlotsOf;
  }

  lemma {:induction false} OnlySlot(slots: seq<Slot>, slot: Slot, product: nat)
    requires slot in slots && slot.productId == Some(product)
    ensures |SlotsOf(slots, product)| >= 1
    ensures |SlotsOf(slots, product)| == 1 ==> SlotsOf(slots, product) == [slot]
    decreases |slots|
  {
    if slots[0] == slot {
    } else {
      assert slot in slots[1..];
      OnlySlot(slots[1..], slot, product);
    }
  }

  /** An unnamed tank takes the id of the slot that was meant for it or, if that has none,
      its label, unless the name is blank; else, and without a slot, its product number. */
  lemma TakesSlotName(t: Tank, slots: seq<Slot>, slot: Slot)
    requires FrozenTank(t, slots).Some? && t.tankId == ""
    ensures slot in slots && SameProduct(t, slot) ==>
              var name := if slot.tankId.Some? then slot.tankId else slot.title;
              FrozenTank(t, slots).value
              == t.(tankId := if name.None? || Trim(name.value) == "" then Decimal(t.productId) else name.value)
    ensures (forall x | x in slots :: !SameProduct(t, x)) ==> FrozenTank(t, slots).value == t.(tankId := Decimal(t.productId))
  {
    if slot in slots && SameProduct(t, slot) {
      OnlySlot(slots, slot, t.productId);
    }
    SlotsOfAre(slots, t.productId);
    assert forall j | 0 <= j < |slots| :: slots[j] in slots;
    hide Trim; hide Decimal; hide SlotsOf; hide SeveralSlots;
  }

  lemma {:induction false} TanksOfIs(tanks: seq<Tank>, product: Option<nat>, i: nat)
    requires i < |tanks| && product == Some(tanks[i].productId)
    ensures |TanksOf(tanks, product)| >= 1
    ensures |TanksOf(tanks, product)| == 1 ==>
              TanksOf(tanks, product)[0] == tanks[i] && forall j | 0 <= j < |tanks| && product == Some(tanks[j].productId) :: j == i
    decreases |tanks|
  {
    if i > 0 {
      TanksOfIs(tanks[1..], product, i - 1);
      assert forall j | 0 < j < |tanks| :: tanks[j] == tanks[1..][j - 1];
    } else {
      TanksOfAre(tanks[1..], product);
      assert forall j | 0 < j < |tanks| :: tanks[j] == tanks[1..][j - 1];
    }
  }

  /** Which tank a slot is for, by position, in any list of tanks. */
  ghost predicate Means(tanks: seq<Tank>, slot: Slot, i: nat) {
    i < |tanks| && SameProduct(tanks[i], slot)
    && if Exact(tanks, slot) then slot.tankId == Some(Id(tanks[i]))
       else Candidate(tanks[i], slot) && forall j | 0 <= j < |tanks| && Candidate(tanks[j], slot) :: j == i
  }

  ghost predicate Exact(tanks: seq<Tank>, slot: Slot) {
    exists j | 0 <= j < |tanks| :: SameProduct(tanks[j], slot) && slot.tankId == Some(Id(tanks[j]))
  }

  /** When no two tanks answer to the slot's id, the look-up answers exactly the tank meant. */
  lemma TankForMeans(cfg: Config, slot: Slot, i: nat)
    requires i < |cfg.tanks| && forall j, k | 0 <= j < k < |cfg.tanks| :: cfg.tanks[j] != cfg.tanks[k]
    requires forall j, k | 0 <= j < k < |cfg.tanks| && SameProduct(cfg.tanks[j], slot) && SameProduct(cfg.tanks[k], slot) && slot.tankId == Some(Id(cfg.tanks[j])) ::
               slot.tankId != Some(Id(cfg.tanks[k]))
    ensures TankFor(cfg, slot) == Some(cfg.tanks[i]) <==> Means(cfg.tanks, slot, i)
  {
    CandidatesAre(cfg.tanks, slot);
    if slot.tankId.Some? {
      NamedIs(cfg.tanks, slot);
    }
    hide Id;
    var named := if slot.tankId.Some? then Named(cfg.tanks, slot) else None;
    if named.Some? {
      var j :| 0 <= j < |cfg.tanks| && cfg.tanks[j] == named.value;
      assert Exact(cfg.tanks, slot);
    } else {
      assert !Exact(cfg.tanks, slot);
      OneCandidate(cfg, slot, i);
    }
  }

  lemma OneCandidate(cfg: Config, slot: Slot, i: nat)
    requires i < |cfg.tanks| && forall j, k | 0 <= j < k < |cfg.tanks| :: cfg.tanks[j] != cfg.tanks[k]
    ensures Candidates(cfg.tanks, slot) == [cfg.tanks[i]] <==>
              Candidate(cfg.tanks[i], slot) && forall j | 0 <= j < |cfg.tanks| && Candidate(cfg.tanks[j], slot) :: j == i
  {
    CandidatesAre(cfg.tanks, slot);
    hide Candidate; hide Candidates;
    var c := Candidates(cfg.tanks, slot);
    assert cfg.tanks[i] in c <==> Candidate(cfg.tanks[i], slot);
    if c == [cfg.tanks[i]] {
      assert c[0] in c;
      forall j | 0 <= j < |cfg.tanks| && Candidate(cfg.tanks[j], slot) ensures j == i {
        assert cfg.tanks[j] in c;
      }
    }
    if Candidate(cfg.tanks[i], slot) && forall j | 0 <= j < |cfg.tanks| && Candidate(cfg.tanks[j], slot) :: j == i {
      if |c| >= 2 {
        var j, k := ManyCandidates(cfg.tanks, slot);
      }
      assert c[0] in c;
    }
  }

  ghost predicate Froze(cfg: Config, after: Config) {
    FrozenTanks(cfg.tanks, AllSlots(cfg)) == Some(after.tanks) && TanksOk(after)
  }

  lemma FrozenPointwise(cfg: Config, after: Config)
    requires Froze(cfg, after)
    ensures |after.tanks| == |cfg.tanks|
    ensures forall i | 0 <= i < |cfg.tanks| ::
              && Some(after.tanks[i]) == FrozenTank(cfg.tanks[i], AllSlots(cfg))
              && after.tanks[i].productId == cfg.tanks[i].productId && after.tanks[i].tankId != ""
              && (cfg.tanks[i].tankId != "" ==> after.tanks[i] == cfg.tanks[i])
    ensures forall i, j | 0 <= i < j < |cfg.tanks| :: Id(after.tanks[i]) != Id(after.tanks[j]) && cfg.tanks[i] != cfg.tanks[j]
  {
    FrozenTanksAre(cfg.tanks, AllSlots(cfg));
    hide FrozenTank; hide Id; hide AllSlots; hide FrozenTanks;
    forall i | 0 <= i < |cfg.tanks|
      ensures after.tanks[i].productId == cfg.tanks[i].productId && after.tanks[i].tankId != ""
      ensures cfg.tanks[i].tankId != "" ==> after.tanks[i] == cfg.tanks[i] {
      FrozenTankIs(cfg.tanks[i], AllSlots(cfg));
    }
  }

  /** The frozen list against the old one: products stay, names stay, all are distinct. */
  ghost predicate Matched(tanks: seq<Tank>, after: seq<Tank>) {
    && |after| == |tanks|
    && (forall i | 0 <= i < |tanks| ::
          && after[i].productId == tanks[i].productId && after[i].tankId != ""
          && (tanks[i].tankId != "" ==> after[i] == tanks[i]))
    && (forall i, j | 0 <= i < j < |tanks| :: Id(after[i]) != Id(after[j]) && tanks[i] != tanks[j])
  }

  lemma NamedMeans(tanks: seq<Tank>, after: seq<Tank>, slot: Slot, i: nat)
    requires Matched(tanks, after) && slot.tankId.Some? && i < |tanks|
    requires forall j | 0 <= j < |tanks| && SameProduct(tanks[j], slot) && tanks[j].tankId == "" :: slot.tankId == Some(Id(after[j]))
    ensures Means(tanks, slot, i) <==> Means(after, slot, i)
    ensures forall j, k | 0 <= j < k < |tanks| && SameProduct(tanks[j], slot) && SameProduct(tanks[k], slot) && slot.tankId == Some(Id(tanks[j])) ::
              slot.tankId != Some(Id(tanks[k]))
  {
    hide Id;
    assert forall j | 0 <= j < |tanks| && SameProduct(tanks[j], slot) && slot.tankId == Some(Id(tanks[j])) ::
             slot.tankId == Some(Id(after[j]));
    if Exact(tanks, slot) {
      var j :| 0 <= j < |tanks| && SameProduct(tanks[j], slot) && slot.tankId == Some(Id(tanks[j]));
      assert SameProduct(after[j], slot);
    } else if Means(tanks, slot, i) || Exact(after, slot) {
      assert forall j | 0 <= j < |tanks| && SameProduct(after[j], slot) :: SameProduct(tanks[j], slot);
      assert Means(tanks, slot, i) ==> SameProduct(after[i], slot) && slot.tankId == Some(Id(after[i]));
    }
  }

  lemma IdIsName(t: Tank)
    ensures t.tankId != "" ==> Id(t) == t.tankId
  {}

  /** A slot that names its tank keeps naming it. */
  lemma NamedKeeps(cfg: Config, after: Config, slot: Slot, i: nat)
    requires Froze(cfg, after) && slot in AllSlots(cfg) && slot.tankId.Some? && Trim(slot.tankId.value) != "" && i < |cfg.tanks|
    ensures |after.tanks| == |cfg.tanks|
    ensures TankFor(cfg, slot) == Some(cfg.tanks[i]) <==> TankFor(after, slot) == Some(after.tanks[i])
  {
    hide Trim; hide AllSlots; hide FrozenTank; hide FrozenTanks; hide TankFor; hide TanksOk; hide Id; hide Means;
    FrozenPointwise(cfg, after);
    assert Matched(cfg.tanks, after.tanks);
    forall j | 0 <= j < |cfg.tanks| && SameProduct(cfg.tanks[j], slot) && cfg.tanks[j].tankId == ""
      ensures slot.tankId == Some(Id(after.tanks[j])) {
      TakesSlotName(cfg.tanks[j], AllSlots(cfg), slot);
      IdIsName(after.tanks[j]);
    }
    NamedMeans(cfg.tanks, after.tanks, slot, i);
    TankForMeans(cfg, slot, i);
    DistinctTanks(after.tanks);
    TankForMeans(after, slot, i);
  }

  lemma DistinctTanks(tanks: seq<Tank>)
    requires forall i, j | 0 <= i < j < |tanks| :: Id(tanks[i]) != Id(tanks[j])
    ensures forall i, j | 0 <= i < j < |tanks| :: tanks[i] != tanks[j]
    ensures forall slot: Slot, j, k | 0 <= j < k < |tanks| && slot.tankId == Some(Id(tanks[j])) :: slot.tankId != Some(Id(tanks[k]))
  {
    hide Id;
  }

  lemma UnnamedMeans(tanks: seq<Tank>, after: seq<Tank>, branchId: nat, slot: Slot, slot': Slot, i: nat)
    requires Matched(tanks, after) && slot.tankId.None? && FrozenSlot(branchId, slot, after) == Some(slot') && i < |tanks|
    ensures Means(tanks, slot, i) <==> Means(after, slot', i)
  {
    hide Decimal;
    TanksOfAre(after, slot.productId);
    if m :| 0 <= m < |tanks| && SameProduct(tanks[m], slot) {
      TanksOfIs(after, slot.productId, m);
      hide TanksOf; hide Id;
      assert SameProduct(after[m], slot') && slot'.tankId == Some(Id(after[m]));
      assert forall j | 0 <= j < |tanks| && SameProduct(tanks[j], slot) :: after[j].productId == tanks[j].productId;
    }
  }

  /** A slot that names no tank is given the name of the only one of its product. */
  lemma UnnamedKeeps(cfg: Config, after: Config, branchId: nat, slot: Slot, slot': Slot, i: nat)
    requires Froze(cfg, after) && slot.tankId.None? && FrozenSlot(branchId, slot, after.tanks) == Some(slot') && i < |cfg.tanks|
    ensures |after.tanks| == |cfg.tanks|
    ensures TankFor(cfg, slot) == Some(cfg.tanks[i]) <==> TankFor(after, slot') == Some(after.tanks[i])
  {
    hide AllSlots; hide FrozenTank; hide FrozenTanks; hide TankFor; hide TanksOk; hide Id; hide Means; hide FrozenSlot;
    FrozenPointwise(cfg, after);
    assert Matched(cfg.tanks, after.tanks);
    UnnamedMeans(cfg.tanks, after.tanks, branchId, slot, slot', i);
    TankForMeans(cfg, slot, i);
    DistinctTanks(after.tanks);
    TankForMeans(after, slot', i);
  }

  /** Loading an older configuration changes no meaning: every slot is for the same tank
      before and after, and freezing again changes nothing. */
  lemma FreezingKeepsMeaning(cfg: Config, after: Config, branchId: nat, slot: Slot, slot': Slot, i: nat)
    requires Froze(cfg, after) && slot in AllSlots(cfg) && FrozenSlot(branchId, slot, after.tanks) == Some(slot')
    requires Trim(slot'.tankId.value) != "" && i < |cfg.tanks|
    ensures |after.tanks| == |cfg.tanks|
    ensures TankFor(cfg, slot) == Some(cfg.tanks[i]) <==> TankFor(after, slot') == Some(after.tanks[i])
    ensures FrozenTank(after.tanks[i], AllSlots(after)) == Some(after.tanks[i]) && FrozenSlot(branchId, slot', after.tanks) == Some(slot')
  {
    if slot.tankId.Some? {
      NamedKeeps(cfg, after, slot, i);
    } else {
      UnnamedKeeps(cfg, after, branchId, slot, slot', i);
    }
    FrozenPointwise(cfg, after);
  }
}
