/** Running shift totals: the service's saturating counters and the desktop's copy. */
module ShiftTotals {
  datatype Option<+T> = None | Some(value: T)

  datatype Status = Completed | Aborted | Stopped | ContinuedFrom(parent: string)

  datatype Tx = Tx(position: string, title: string, shiftId: Option<string>, status: Status,
                   volume: real, amount: nat, combinedVolume: real, combinedAmount: nat)

  datatype Totals = Totals(count: nat, volume: real, amount: nat)

  datatype PositionTotal = PositionTotal(position: string, title: string, totals: Totals)

  /** The desktop's copy of the current shift. */
  datatype Shift = Shift(id: string, totals: Totals, positions: seq<PositionTotal>)

  const ZERO := Totals(0, 0.0, 0)
  const U32_MAX: nat := 0xFFFF_FFFF
  const U64_MAX: nat := 0xFFFF_FFFF_FFFF_FFFF

  predicate Counts(s: Status) { s.Completed? || s.Stopped? || s.ContinuedFrom? }

  function Add(a: Totals, b: Totals): Totals { Totals(a.count + b.count, a.volume + b.volume, a.amount + b.amount) }

  // ── The desktop's numbers ──────────────────────────────────────────────────

  /** Up to here every whole number is a JavaScript number. */
  const MAX_EXACT: nat := 0x20_0000_0000_0000

  /** The distance between neighbouring JavaScript numbers around `n`. */
  function Spacing(n: nat): (u: nat)
    ensures u >= 1
  {
    if n < MAX_EXACT then 1 else 2 * Spacing(n / 2)
  }

  /** The JavaScript number nearest to `n`, the even one of two. */
  function JsNumber(n: nat): nat {
    var u := Spacing(n);
    var q, r := n / u, n % u;
    if 2 * r < u || (2 * r == u && q % 2 == 0) then q * u else (q + 1) * u
  }

  function Pow2(k: nat): (p: nat)
    ensures p >= 1
  {
    if k == 0 then 1 else 2 * Pow2(k - 1)
  }

  /** A double has 53 significant binary digits: from 2^53 on, neighbours are the power of
      two apart that leaves a quotient of 53 digits. */
  lemma {:induction false} SpacingIs(n: nat)
    ensures exists k: nat :: Spacing(n) == Pow2(k)
    ensures n < 0x20_0000_0000_0000 ==> Spacing(n) == 1
    ensures n >= 0x20_0000_0000_0000 ==> 0x10_0000_0000_0000 * Spacing(n) <= n < 0x20_0000_0000_0000 * Spacing(n)
    decreases n
  {
    if n < MAX_EXACT {
      assert Pow2(0) == 1;
    } else {
      SpacingIs(n / 2);
      var k: nat :| Spacing(n / 2) == Pow2(k);
      assert Spacing(n) == Pow2(k + 1);
    }
  }

  /** `r` is `m` spacings, at most half a spacing from `n` and even if exactly that. */
  ghost predicate IsNearest(n: nat, r: nat, m: nat) {
    var u := Spacing(n);
    r == m * u && 2 * n - u <= 2 * r <= 2 * n + u && (2 * r == 2 * n - u || 2 * r == 2 * n + u ==> m % 2 == 0)
  }

  /** The desktop's number for `n` is the nearest double, of two the one with even digits. */
  lemma JsNumberIsNearest(n: nat)
    ensures exists m :: IsNearest(n, JsNumber(n), m)
  {
    var u := Spacing(n);
    var q, r := n / u, n % u;
    hide Spacing;
    assert n == q * u + r;
    var p := q * u;
    assert (q + 1) * u == p + u;
    if JsNumber(n) == p {
      assert IsNearest(n, JsNumber(n), q);
    } else {
      assert IsNearest(n, JsNumber(n), q + 1);
    }
  }

  predicate IsJsNumber(n: nat) { JsNumber(n) == n }

  /** Addition on the desktop. */
  function JsAdd(a: Totals, b: Totals): Totals {
    Totals(JsNumber(a.count + b.count), a.volume + b.volume, JsNumber(a.amount + b.amount))
  }

  predicate IsExact(t: Totals) { t.count <= MAX_EXACT && t.amount <= MAX_EXACT }

  lemma SmallIsJsNumber(n: nat)
    requires n <= MAX_EXACT
    ensures IsJsNumber(n)
  {
    assert Spacing(MAX_EXACT) == 2 * Spacing(MAX_EXACT / 2);
  }

  lemma Doubled(a: nat, b: nat)
    ensures (a * (2 * b)) % 2 == 0
  {
    assert a * (2 * b) == 2 * (a * b);
  }

  /** The service's greatest amount is no JavaScript number. */
  lemma NeverU64Max(n: nat)
    ensures JsNumber(n) != U64_MAX
  {
    var u := Spacing(n);
    if n <= MAX_EXACT {
      SmallIsJsNumber(n);
    } else {
      Doubled(n / u, Spacing(n / 2));
      Doubled(n / u + 1, Spacing(n / 2));
    }
  }

  lemma JsAddIsAdd(a: Totals, b: Totals)
    requires IsExact(Add(a, b))
    ensures JsAdd(a, b) == Add(a, b)
  {
    SmallIsJsNumber(a.count + b.count);
    SmallIsJsNumber(a.amount + b.amount);
  }

  function Min(a: nat, b: nat): nat { if a < b then a else b }

  /** What fits the service's 32-bit count and 64-bit amount. */
  function Capped(t: Totals): Totals { Totals(Min(t.count, U32_MAX), t.volume, Min(t.amount, U64_MAX)) }

  // ── The service ────────────────────────────────────────────────────────────

  datatype Active = Active(id: string, totals: Totals)

  /** The counters hold values of their width. */
  predicate InWidth(a: Option<Active>) { a.Some? ==> Capped(a.value.totals) == a.value.totals }

  class Coordinator {
    var active: Option<Active>

    method OnTransactionRecorded(tx: Tx)
      requires InWidth(active)
      modifies this
      ensures InWidth(active) && active == Recorded(old(active), tx)
    {
      if tx.status.Aborted? || tx.shiftId.None? {
        return;
      }
      var isContinuation := tx.status.ContinuedFrom?;
      var volume, amount := tx.volume, tx.amount;
      if !isContinuation {
        if tx.combinedVolume > 0.0 {
          volume := tx.combinedVolume;
        }
        if tx.combinedAmount > 0 {
          amount := tx.combinedAmount;
        }
      }
      if active.Some? && active.value.id == tx.shiftId.value {
        var t := active.value.totals;
        var count := if isContinuation then t.count else SaturatingAdd(t.count, 1, U32_MAX);
        active := Some(Active(active.value.id, Totals(count, t.volume + volume, SaturatingAdd(t.amount, amount, U64_MAX))));
      }
    }

    /** Sales of AZT pumps are credited by their own figures, once sale, outbound record
        and stored totals are committed together; only finished ones are taken. */
    method CommitAztSale(tx: Tx, stored: bool) returns (ok: bool)
      requires InWidth(active)
      modifies this
      ensures InWidth(active)
      ensures ok <==> IsTerminal(tx.status) && stored
      ensures active == if ok then AztCommitted(old(active), tx) else old(active)
    {
      if !tx.status.Completed? && !tx.status.Aborted? {
        return false;
      }
      if !stored {
        return false;
      }
      if !tx.status.Aborted? && tx.shiftId.Some? && active.Some? && active.value.id == tx.shiftId.value {
        var t := active.value.totals;
        active := Some(Active(active.value.id, Totals(SaturatingAdd(t.count, 1, U32_MAX), t.volume + tx.volume, SaturatingAdd(t.amount, tx.amount, U64_MAX))));
      }
      return true;
    }
  }

  function SaturatingAdd(a: nat, b: nat, max: nat): nat { Min(a + b, max) }

  predicate IsTerminal(s: Status) { s.Completed? || s.Aborted? }

  predicate ForShift(tx: Tx, id: string) { Counts(tx.status) && tx.shiftId == Some(id) }

  /** What one transaction is worth: a continuation its own segment and no sale, any
      other sale its combined figures where it has them. */
  function Worth(tx: Tx): Totals {
    if tx.status.ContinuedFrom? then Totals(0, tx.volume, tx.amount)
    else Totals(1, if tx.combinedVolume > 0.0 then tx.combinedVolume else tx.volume,
                if tx.combinedAmount > 0 then tx.combinedAmount else tx.amount)
  }

  function Recorded(active: Option<Active>, tx: Tx): Option<Active> {
    if active.Some? && ForShift(tx, active.value.id)
    then Some(Active(active.value.id, Capped(Add(active.value.totals, Worth(tx)))))
    else active
  }

  function AztCommitted(active: Option<Active>, tx: Tx): Option<Active> {
    if active.Some? && ForShift(tx, active.value.id)
    then Some(Active(active.value.id, Capped(Add(active.value.totals, Totals(1, tx.volume, tx.amount)))))
    else active
  }

  // ── The desktop ────────────────────────────────────────────────────────────

  /** What the desktop reads of a transaction's worth. */
  function JsWorth(tx: Tx): Totals { Worth(tx).(amount := JsNumber(Worth(tx).amount)) }

  function Credit(positions: seq<PositionTotal>, tx: Tx): seq<PositionTotal> {
    if positions == [] then [PositionTotal(tx.position, tx.title, JsWorth(tx))]
    else if positions[0].position == tx.position then
      [positions[0].(totals := JsAdd(positions[0].totals, JsWorth(tx)))] + positions[1..]
    else [positions[0]] + Credit(positions[1..], tx)
  }

  function Applied(shift: Shift, tx: Tx): Shift {
    if !ForShift(tx, shift.id) then shift
    else Shift(shift.id, JsAdd(shift.totals, JsWorth(tx)), Credit(shift.positions, tx))
  }

  /** Copies the position list and edits the copy in place. */
  method ApplyTx(shift: Option<Shift>, tx: Tx) returns (r: Option<Shift>)
    ensures r == if shift.Some? then Some(Applied(shift.value, tx)) else None
  {
    if shift.None? || tx.shiftId != Some(shift.value.id) || tx.status.Aborted? {
      return shift;
    }
    hide JsNumber;
    var s := shift.value;
    var isContinuation := tx.status.ContinuedFrom?;
    var volume := if isContinuation then tx.volume else if tx.combinedVolume > 0.0 then tx.combinedVolume else tx.volume;
    var amount := if isContinuation then tx.amount else if tx.combinedAmount > 0 then tx.combinedAmount else tx.amount;
    var delta := Totals(if isContinuation then 0 else 1, volume, JsNumber(amount));
    var positions := s.positions;
    var i := 0;
    while i < |positions| && positions[i].position != tx.position
      invariant 0 <= i <= |positions| && forall k | 0 <= k < i :: positions[k].position != tx.position
    {
      i := i + 1;
    }
    CreditAt(positions, tx, i);
    if i < |positions| {
      positions := positions[i := positions[i].(totals := JsAdd(positions[i].totals, delta))];
    } else {
      positions := positions + [PositionTotal(tx.position, tx.title, delta)];
    }
    return Some(Shift(s.id, JsAdd(s.totals, delta), positions));
  }

  lemma {:induction false} CreditAt(positions: seq<PositionTotal>, tx: Tx, i: nat)
    requires i <= |positions| && forall k | 0 <= k < i :: positions[k].position != tx.position
    requires i < |positions| ==> positions[i].position == tx.position
    ensures Credit(positions, tx)
         == if i < |positions| then positions[i := positions[i].(totals := JsAdd(positions[i].totals, JsWorth(tx)))]
            else positions + [PositionTotal(tx.position, tx.title, JsWorth(tx))]
    decreases i
  {
    hide JsWorth; hide JsAdd;
    if i > 0 {
      CreditAt(positions[1..], tx, i - 1);
    }
  }

  // ── Whole shifts ───────────────────────────────────────────────────────────

  function AppliedAll(shift: Shift, txs: seq<Tx>): Shift {
    if txs == [] then shift else Applied(AppliedAll(shift, txs[..|txs| - 1]), txs[|txs| - 1])
  }

  /** What the shift's transactions are worth together. */
  function WorthOf(id: string, txs: seq<Tx>): Totals {
    if txs == [] then ZERO
    else
      var last := txs[|txs| - 1];
      Add(WorthOf(id, txs[..|txs| - 1]), if ForShift(last, id) then Worth(last) else ZERO)
  }

  /** Every transaction of the shift but an aborted one is worth something to it. */
  function Sold(id: string, txs: seq<Tx>): seq<Tx> {
    if txs == [] then []
    else
      var last := txs[|txs| - 1];
      Sold(id, txs[..|txs| - 1])
      + if last.shiftId == Some(id) && (last.status.Completed? || last.status.Stopped?) then [last] else []
  }

  /** An aborted sale and one of another shift leave the totals of both sides alone; any
      other sale of the shift is worth its own figures or, unless it only continues another,
      its combined ones. The number of sales counts the completed and the stopped. */
  lemma {:induction false} OnlySalesCount(shift: Shift, active: Active, id: string, txs: seq<Tx>, tx: Tx)
    ensures tx.status.Aborted? || tx.shiftId != Some(shift.id) ==> Applied(shift, tx) == shift
    ensures tx.status.Aborted? || tx.shiftId != Some(active.id) ==>
              Recorded(Some(active), tx) == Some(active) && AztCommitted(Some(active), tx) == Some(active)
    ensures !tx.status.Aborted? && tx.shiftId == Some(id) ==> WorthOf(id, txs + [tx]) == Add(WorthOf(id, txs), Worth(tx))
    ensures WorthOf(id, txs).count == |Sold(id, txs)|
    decreases |txs|
  {
    assert (txs + [tx])[..|txs|] == txs;
    if txs != [] {
      OnlySalesCount(shift, active, id, txs[..|txs| - 1], tx);
    }
  }

  function AtPosition(txs: seq<Tx>, position: string): seq<Tx> {
    if txs == [] then []
    else AtPosition(txs[..|txs| - 1], position) + (if txs[|txs| - 1].position == position then [txs[|txs| - 1]] else [])
  }

  function TotalsAt(positions: seq<PositionTotal>, position: string): Totals {
    if positions == [] then ZERO
    else if positions[0].position == position then positions[0].totals
    else TotalsAt(positions[1..], position)
  }

  function SumOf(positions: seq<PositionTotal>): Totals {
    if positions == [] then ZERO else Add(positions[0].totals, SumOf(positions[1..]))
  }

  /** While a sum stays exact, the desktop adds a transaction's whole worth. */
  lemma ExactStep(a: Totals, tx: Tx)
    requires IsExact(Add(a, Worth(tx)))
    ensures JsAdd(a, JsWorth(tx)) == Add(a, Worth(tx)) && JsWorth(tx) == Worth(tx) && IsExact(a)
  {
    SmallIsJsNumber(Worth(tx).amount);
    hide Worth; hide JsNumber;
    JsAddIsAdd(a, Worth(tx));
  }

  lemma {:induction false} CreditSums(positions: seq<PositionTotal>, tx: Tx)
    requires IsExact(Add(SumOf(positions), Worth(tx)))
    ensures SumOf(Credit(positions, tx)) == Add(SumOf(positions), Worth(tx))
    decreases |positions|
  {
    hide Worth; hide JsWorth; hide JsAdd;
    if positions == [] {
      ExactStep(ZERO, tx);
    } else if positions[0].position == tx.position {
      ExactStep(positions[0].totals, tx);
    } else {
      CreditSums(positions[1..], tx);
    }
  }

  lemma {:induction false} CreditTotals(positions: seq<PositionTotal>, tx: Tx, position: string)
    requires position == tx.position ==> IsExact(Add(TotalsAt(positions, position), Worth(tx)))
    ensures TotalsAt(Credit(positions, tx), position)
         == if position == tx.position then Add(TotalsAt(positions, position), Worth(tx)) else TotalsAt(positions, position)
    decreases |positions|
  {
    hide Worth; hide JsWorth; hide JsAdd;
    if positions == [] {
      if position == tx.position {
        ExactStep(ZERO, tx);
      }
    } else if positions[0].position == tx.position {
      if position == tx.position {
        ExactStep(positions[0].totals, tx);
      }
    } else {
      CreditTotals(positions[1..], tx, position);
    }
  }

  lemma AddAssociates(a: Totals, b: Totals, c: Totals)
    ensures Add(Add(a, b), c) == Add(a, Add(b, c)) && Add(a, ZERO) == a && Add(ZERO, a) == a
    ensures IsExact(Add(a, b)) ==> IsExact(a) && IsExact(b)
  {}

  lemma DesktopKeepsId(shift: Shift, txs: seq<Tx>)
    ensures AppliedAll(shift, txs).id == shift.id
    decreases |txs|
  {
    hide JsAdd; hide JsWorth; hide Credit;
    if txs != [] {
      DesktopKeepsId(shift, txs[..|txs| - 1]);
    }
  }

  /** The desktop's totals are exactly what the shift's transactions are worth, up to 2^53. */
  lemma {:induction false} DesktopIsExact(shift: Shift, txs: seq<Tx>)
    requires IsExact(Add(shift.totals, WorthOf(shift.id, txs)))
    ensures AppliedAll(shift, txs).totals == Add(shift.totals, WorthOf(shift.id, txs))
    decreases |txs|
  {
    hide Worth; hide Add; hide Credit; hide ForShift; hide JsAdd; hide JsWorth; hide IsExact;
    if txs == [] {
      AddAssociates(shift.totals, ZERO, ZERO);
    } else {
      var last, before := txs[|txs| - 1], txs[..|txs| - 1];
      var sum := WorthOf(shift.id, before);
      DesktopKeepsId(shift, before);
      AddAssociates(shift.totals, sum, Worth(last));
      AddAssociates(Add(shift.totals, sum), Worth(last), ZERO);
      AddAssociates(sum, ZERO, ZERO);
      DesktopIsExact(shift, before);
      if ForShift(last, shift.id) {
        ExactStep(Add(shift.totals, sum), last);
      }
    }
  }

  lemma WorthSnoc(id: string, txs: seq<Tx>, tx: Tx)
    ensures WorthOf(id, txs + [tx]) == Add(WorthOf(id, txs), if ForShift(tx, id) then Worth(tx) else ZERO)
  {
    assert (txs + [tx])[..|txs|] == txs;
  }

  /** And so is every position's line, from the transactions at that position. */
  lemma {:induction false} PositionIsExact(shift: Shift, txs: seq<Tx>, position: string)
    requires IsExact(Add(TotalsAt(shift.positions, position), WorthOf(shift.id, AtPosition(txs, position))))
    ensures TotalsAt(AppliedAll(shift, txs).positions, position)
         == Add(TotalsAt(shift.positions, position), WorthOf(shift.id, AtPosition(txs, position)))
    decreases |txs|
  {
    hide Worth; hide Add; hide Credit; hide ForShift; hide TotalsAt; hide JsAdd; hide JsWorth; hide IsExact;
    var start := TotalsAt(shift.positions, position);
    if txs == [] {
      AddAssociates(start, ZERO, ZERO);
    } else {
      var last, before := txs[|txs| - 1], txs[..|txs| - 1];
      var own := AtPosition(before, position);
      assert AtPosition(txs, position) == if last.position == position then own + [last] else own;
      WorthSnoc(shift.id, own, last);
      AddAssociates(start, WorthOf(shift.id, own), Worth(last));
      AddAssociates(Add(start, WorthOf(shift.id, own)), Worth(last), ZERO);
      AddAssociates(WorthOf(shift.id, own), ZERO, ZERO);
      PositionIsExact(shift, before, position);
      DesktopKeepsId(shift, before);
      if ForShift(last, shift.id) {
        CreditTotals(AppliedAll(shift, before).positions, last, position);
      }
      hide WorthOf;
    }
  }

  predicate HasLine(positions: seq<PositionTotal>, position: string) { exists k | 0 <= k < |positions| :: positions[k].position == position }

  /** The sale's position line before it, and after it. */
  function LineBefore(positions: seq<PositionTotal>, tx: Tx): Totals { TotalsAt(positions, tx.position) }

  function LineAfter(positions: seq<PositionTotal>, tx: Tx): Totals {
    if HasLine(positions, tx.position) then JsAdd(LineBefore(positions, tx), JsWorth(tx)) else JsWorth(tx)
  }

  predicate SameGain(a: Totals, a': Totals, b: Totals, b': Totals) {
    a'.count - a.count == b'.count - b.count && a'.amount - a.amount == b'.amount - b.amount
  }

  /** Rounding adds as much to the shift total as to the line of the sale's position. */
  predicate RoundsAlike(shift: Shift, tx: Tx) {
    ForShift(tx, shift.id) ==>
      SameGain(shift.totals, JsAdd(shift.totals, JsWorth(tx)), LineBefore(shift.positions, tx), LineAfter(shift.positions, tx))
  }

  lemma HasLineCons(positions: seq<PositionTotal>, position: string)
    requires positions != [] && positions[0].position != position
    ensures HasLine(positions[1..], position) <==> HasLine(positions, position)
  {
    if k :| 0 <= k < |positions| && positions[k].position == position {
      assert positions[1..][k - 1] == positions[k];
    }
  }

  /** A credited sale moves the sum of the lines by what it moves its own line. */
  lemma {:induction false} CreditMovesSum(positions: seq<PositionTotal>, tx: Tx)
    ensures var before, after := SumOf(positions), SumOf(Credit(positions, tx));
            && SameGain(before, after, LineBefore(positions, tx), LineAfter(positions, tx))
            && after.volume == before.volume + JsWorth(tx).volume
    decreases |positions|
  {
    hide JsNumber; hide JsWorth;
    if positions == [] {
      assert [PositionTotal(tx.position, tx.title, JsWorth(tx))][1..] == [];
    } else if positions[0].position == tx.position {
      assert HasLine(positions, tx.position);
      assert Credit(positions, tx)[1..] == positions[1..];
    } else {
      HasLineCons(positions, tx.position);
      CreditMovesSum(positions[1..], tx);
      assert Credit(positions, tx)[1..] == Credit(positions[1..], tx);
    }
  }

  /** Lines that add up to the shift totals keep doing so after one transaction exactly when
      rounding adds as much to the total as to the line. */
  lemma AddsUpStepIff(shift: Shift, tx: Tx)
    requires SumOf(shift.positions) == shift.totals
    ensures SumOf(Applied(shift, tx).positions) == Applied(shift, tx).totals <==> RoundsAlike(shift, tx)
  {
    CreditMovesSum(shift.positions, tx);
    hide JsNumber; hide JsWorth; hide Credit; hide SumOf; hide ForShift; hide LineBefore; hide LineAfter;
  }

  ghost predicate AddsUpThroughout(shift: Shift, txs: seq<Tx>) {
    forall k | 0 <= k <= |txs| :: SumOf(AppliedAll(shift, txs[..k]).positions) == AppliedAll(shift, txs[..k]).totals
  }

  ghost predicate RoundsAlikeThroughout(shift: Shift, txs: seq<Tx>) {
    forall k | 0 <= k < |txs| :: RoundsAlike(AppliedAll(shift, txs[..k]), txs[k])
  }

  lemma AddsUpPrefix(shift: Shift, txs: seq<Tx>)
    requires txs != []
    ensures AddsUpThroughout(shift, txs)
       <==> AddsUpThroughout(shift, txs[..|txs| - 1]) && SumOf(AppliedAll(shift, txs).positions) == AppliedAll(shift, txs).totals
  {
    hide SumOf; hide AppliedAll;
    var before := txs[..|txs| - 1];
    assert txs[..|txs|] == txs;
    assert forall k | 0 <= k <= |before| :: before[..k] == txs[..k];
  }

  lemma AddsUpAtEnd(shift: Shift, txs: seq<Tx>)
    ensures AddsUpThroughout(shift, txs) ==> SumOf(AppliedAll(shift, txs).positions) == AppliedAll(shift, txs).totals
  {
    hide SumOf; hide AppliedAll;
    assert txs[..|txs|] == txs;
  }

  lemma RoundsAlikePrefix(shift: Shift, txs: seq<Tx>)
    requires txs != []
    ensures var before, last := txs[..|txs| - 1], txs[|txs| - 1];
            RoundsAlikeThroughout(shift, txs) <==> RoundsAlikeThroughout(shift, before) && RoundsAlike(AppliedAll(shift, before), last)
  {
    hide RoundsAlike; hide AppliedAll;
    var before := txs[..|txs| - 1];
    assert forall k | 0 <= k < |before| :: before[..k] == txs[..k] && before[k] == txs[k];
  }

  lemma NothingApplied(shift: Shift)
    ensures AddsUpThroughout(shift, []) <==> SumOf(shift.positions) == shift.totals
    ensures RoundsAlikeThroughout(shift, [])
  {
    hide SumOf; hide RoundsAlike; hide Applied;
    var none: seq<Tx> := [];
    assert none[..0] == none && AppliedAll(shift, none) == shift;
  }

  lemma AppliedLast(shift: Shift, txs: seq<Tx>)
    requires txs != []
    ensures AppliedAll(shift, txs) == Applied(AppliedAll(shift, txs[..|txs| - 1]), txs[|txs| - 1])
  {
    hide Applied;
  }

  /** Over a whole shift the lines add up to the shift totals at every moment if and only if
      they do at the start and rounding never adds more to the one than to the other. */
  lemma {:induction false} PositionsAddUpIff(shift: Shift, txs: seq<Tx>)
    ensures AddsUpThroughout(shift, txs) <==> SumOf(shift.positions) == shift.totals && RoundsAlikeThroughout(shift, txs)
    decreases |txs|
  {
    hide *;
    if txs == [] {
      NothingApplied(shift);
    } else {
      var before, last := txs[..|txs| - 1], txs[|txs| - 1];
      PositionsAddUpIff(shift, before);
      AddsUpPrefix(shift, txs);
      AddsUpAtEnd(shift, before);
      RoundsAlikePrefix(shift, txs);
      AppliedLast(shift, txs);
      if AddsUpThroughout(shift, before) {
        AddsUpStepIff(AppliedAll(shift, before), last);
      }
    }
  }

  /** In particular they keep adding up to the shift totals, up to 2^53. */
  lemma {:induction false} PositionsAddUp(shift: Shift, txs: seq<Tx>)
    requires SumOf(shift.positions) == shift.totals && IsExact(Add(shift.totals, WorthOf(shift.id, txs)))
    ensures SumOf(AppliedAll(shift, txs).positions) == AppliedAll(shift, txs).totals
    decreases |txs|
  {
    hide JsAdd; hide JsWorth; hide Worth; hide Credit; hide ForShift; hide SumOf; hide Add; hide IsExact;
    if txs != [] {
      var last, before := txs[|txs| - 1], txs[..|txs| - 1];
      var sum := WorthOf(shift.id, before);
      var seen := Add(shift.totals, sum);
      AddAssociates(shift.totals, sum, Worth(last));
      AddAssociates(sum, ZERO, ZERO);
      AddAssociates(seen, Worth(last), ZERO);
      assert AppliedAll(shift, txs) == Applied(AppliedAll(shift, before), last);
      hide *;
      PositionsAddUp(shift, before);
      DesktopIsExact(shift, before);
      DesktopKeepsId(shift, before);
      AppliedAddsUp(AppliedAll(shift, before), last);
    }
  }

  lemma AppliedAddsUp(shift: Shift, tx: Tx)
    requires SumOf(shift.positions) == shift.totals
    requires ForShift(tx, shift.id) ==> IsExact(Add(shift.totals, Worth(tx)))
    ensures SumOf(Applied(shift, tx).positions) == Applied(shift, tx).totals
  {
    hide Worth; hide JsWorth; hide JsAdd; hide Credit; hide SumOf; hide ForShift;
    if ForShift(tx, shift.id) {
      CreditSums(shift.positions, tx);
      ExactStep(shift.totals, tx);
    }
  }

  /** Beyond 2^53 they need not: a sale of one unit reaches its own line but not the shift total. */
  lemma DesktopStopsAdding(tx: Tx, earlier: Tx, id: string)
    requires ForShift(tx, id) && Worth(tx).amount == 1 && earlier.position != tx.position
    ensures var totals := Totals(1, 0.0, MAX_EXACT);
            var shift := Applied(Shift(id, totals, [PositionTotal(earlier.position, earlier.title, totals)]), tx);
            shift.totals.amount == MAX_EXACT && SumOf(shift.positions).amount == MAX_EXACT + 1
  {
    hide Worth; hide ForShift;
    assert JsNumber(MAX_EXACT + 1) == MAX_EXACT by {
      assert Spacing(MAX_EXACT + 1) == 2 * Spacing((MAX_EXACT + 1) / 2);
    }
    SmallIsJsNumber(1);
    var line := PositionTotal(earlier.position, earlier.title, Totals(1, 0.0, MAX_EXACT));
    hide JsNumber;
    var own := PositionTotal(tx.position, tx.title, JsWorth(tx));
    CreditAt([line], tx, 1);
    assert [line] + [own] == [line, own] && [line, own][1..] == [own] && [own][1..] == [];
    assert SumOf([own]) == Add(own.totals, SumOf([])) && SumOf([line, own]) == Add(line.totals, SumOf([own]));
  }

  // ── Both sides ─────────────────────────────────────────────────────────────

  /** A closed sale on its way to both sides: credited as recorded, or committed by the
      AZT path, which tells the desktop only of a sale it could store. */
  datatype Sale = Recording(tx: Tx) | AztSale(tx: Tx, stored: bool) {
    /** An AZT sale is finished, and its combined figures are its own. */
    predicate AsBuilt() {
      AztSale? ==> IsTerminal(tx.status) && tx.combinedVolume == tx.volume && tx.combinedAmount == tx.amount
    }

    predicate Happens() { AztSale? ==> stored }
  }

  function Served(active: Option<Active>, sale: Sale): Option<Active> {
    if !sale.Happens() then active
    else if sale.AztSale? then AztCommitted(active, sale.tx)
    else Recorded(active, sale.tx)
  }

  function ServedAll(active: Option<Active>, sales: seq<Sale>): Option<Active> {
    if sales == [] then active else Served(ServedAll(active, sales[..|sales| - 1]), sales[|sales| - 1])
  }

  /** The transactions the desktop is told of. */
  function Shown(sales: seq<Sale>): seq<Tx> {
    if sales == [] then []
    else
      var last := sales[|sales| - 1];
      Shown(sales[..|sales| - 1]) + (if last.Happens() then [last.tx] else [])
  }

  lemma NoDifferenceInPath(active: Option<Active>, tx: Tx)
    requires AztSale(tx, true).AsBuilt()
    ensures AztCommitted(active, tx) == Recorded(active, tx)
  {}

  lemma AppliedSnoc(shift: Shift, txs: seq<Tx>, tx: Tx)
    ensures AppliedAll(shift, txs + [tx]) == Applied(AppliedAll(shift, txs), tx)
  {
    hide Applied;
    assert (txs + [tx])[..|txs|] == txs;
  }

  /** The true totals after these sales. */
  function Truth(start: Totals, id: string, sales: seq<Sale>): Totals { Add(start, WorthOf(id, Shown(sales))) }

  /** Numbers of the service's widths. */
  predicate FitsService(t: Totals) { t.count <= 0xFFFF_FFFF && t.amount <= 0xFFFF_FFFF_FFFF_FFFF }

  /** The desktop reads the amount `w` and adds it to `a` without rounding the sum away. */
  predicate AddsExactly(a: nat, w: nat) { JsNumber(a + JsNumber(w)) == a + w }

  /** The sale, if it counts at all, overflows no counter and is added exactly. */
  predicate StepFits(before: Totals, id: string, sale: Sale) {
    sale.Happens() && ForShift(sale.tx, id) ==>
      FitsService(Add(before, Worth(sale.tx))) && AddsExactly(before.amount, Worth(sale.tx).amount)
  }

  ghost predicate Agree(active: Active, shift: Shift, sales: seq<Sale>) {
    ServedAll(Some(active), sales).Some?
    && ServedAll(Some(active), sales).value.totals == AppliedAll(shift, Shown(sales)).totals
  }

  ghost predicate SameStart(active: Active, shift: Shift) {
    shift.id == active.id && shift.totals == active.totals && FitsService(active.totals)
  }

  ghost predicate AllAsBuilt(sales: seq<Sale>) { forall i | 0 <= i < |sales| :: sales[i].AsBuilt() }

  ghost predicate AgreeThroughout(active: Active, shift: Shift, sales: seq<Sale>) {
    forall k | 0 <= k <= |sales| :: Agree(active, shift, sales[..k])
  }

  ghost predicate FitThroughout(start: Totals, id: string, sales: seq<Sale>) {
    forall k | 0 <= k < |sales| :: StepFits(Truth(start, id, sales[..k]), id, sales[k])
  }

  /** One more sale: sides that show the truth keep showing it exactly when it fits. */
  lemma StepAgreesIff(before: Totals, tx: Tx)
    requires FitsService(before)
    ensures var next := Add(before, Worth(tx));
            var fits := FitsService(next) && AddsExactly(before.amount, Worth(tx).amount);
            && (Capped(next) == JsAdd(before, JsWorth(tx)) <==> fits)
            && (fits ==> Capped(next) == next == JsAdd(before, JsWorth(tx)))
  {
    SmallIsJsNumber(before.count + Worth(tx).count);
    NeverU64Max(before.amount + JsNumber(Worth(tx).amount));
    hide JsNumber;
  }

  lemma ServedIds(active: Active, sales: seq<Sale>)
    ensures ServedAll(Some(active), sales).Some? && ServedAll(Some(active), sales).value.id == active.id
    decreases |sales|
  {
    if sales != [] {
      ServedIds(active, sales[..|sales| - 1]);
    }
  }

  /** Both sides in one step, from the same shown truth. */
  lemma BothStep(active: Active, shift: Shift, before: seq<Sale>, sale: Sale)
    requires SameStart(active, shift) && Agree(active, shift, before) && sale.AsBuilt()
    requires AppliedAll(shift, Shown(before)).totals == Truth(active.totals, active.id, before)
    ensures var seen, sales := Truth(active.totals, active.id, before), before + [sale];
            if sale.Happens() && ForShift(sale.tx, active.id) then
              && ServedAll(Some(active), sales) == Some(Active(active.id, Capped(Add(seen, Worth(sale.tx)))))
              && AppliedAll(shift, Shown(sales)).totals == JsAdd(seen, JsWorth(sale.tx))
              && Truth(active.totals, active.id, sales) == Add(seen, Worth(sale.tx))
            else
              && ServedAll(Some(active), sales) == ServedAll(Some(active), before)
              && AppliedAll(shift, Shown(sales)).totals == seen
              && Truth(active.totals, active.id, sales) == seen
  {
    var sales := before + [sale];
    assert sales[..|sales| - 1] == before;
    assert ServedAll(Some(active), sales) == Served(ServedAll(Some(active), before), sale);
    assert Shown(sales) == Shown(before) + (if sale.Happens() then [sale.tx] else []);
    ServedIds(active, before);
    DesktopKeepsId(shift, Shown(before));
    TruthSnoc(active.totals, active.id, before, sale);
    if sale.Happens() {
      AppliedSnoc(shift, Shown(before), sale.tx);
      if sale.AztSale? {
        NoDifferenceInPath(ServedAll(Some(active), before), sale.tx);
      }
    } else {
      assert Shown(before) + [] == Shown(before);
    }
    hide Worth; hide Capped; hide JsAdd; hide JsWorth; hide Add; hide WorthOf; hide Credit; hide ForShift; hide AztCommitted;
  }

  lemma PrefixOk(sales: seq<Sale>)
    requires sales != [] && AllAsBuilt(sales)
    ensures AllAsBuilt(sales[..|sales| - 1]) && sales[|sales| - 1].AsBuilt()
    ensures sales == sales[..|sales| - 1] + [sales[|sales| - 1]]
  {
    hide Sale.AsBuilt;
  }

  lemma NoSales(active: Active, shift: Shift)
    requires SameStart(active, shift)
    ensures Agree(active, shift, [])
    ensures AppliedAll(shift, Shown([])).totals == Truth(active.totals, active.id, []) == active.totals
  {
    hide Served; hide Applied;
    AddAssociates(active.totals, ZERO, ZERO);
  }

  lemma NoPrefixes(active: Active, shift: Shift)
    requires Agree(active, shift, [])
    ensures AgreeThroughout(active, shift, []) && FitThroughout(active.totals, active.id, [])
  {
    hide Agree; hide Truth; hide StepFits;
    var none: seq<Sale> := [];
    assert none[..0] == none;
  }

  lemma WholeIsPrefix(active: Active, shift: Shift, sales: seq<Sale>)
    ensures AgreeThroughout(active, shift, sales) ==> Agree(active, shift, sales)
  {
    hide Agree;
    assert sales[..|sales|] == sales;
  }

  lemma {:induction false} AgreementIsTruth(active: Active, shift: Shift, sales: seq<Sale>)
    requires SameStart(active, shift) && AllAsBuilt(sales)
    ensures AgreeThroughout(active, shift, sales) <==> FitThroughout(active.totals, active.id, sales)
    ensures AgreeThroughout(active, shift, sales) ==>
              var truth := Truth(active.totals, active.id, sales);
              AppliedAll(shift, Shown(sales)).totals == truth && FitsService(truth)
    decreases |sales|
  {
    if sales == [] {
      assert FitsService(active.totals);
      hide *;
      NoSales(active, shift);
      NoPrefixes(active, shift);
    } else {
      hide *;
      var before, last := sales[..|sales| - 1], sales[|sales| - 1];
      PrefixOk(sales);
      AgreementIsTruth(active, shift, before);
      AgreePrefix(active, shift, sales);
      FitPrefix(active.totals, active.id, sales);
      WholeIsPrefix(active, shift, before);
      if AgreeThroughout(active, shift, before) {
        LastAgreesIff(active, shift, before, last);
      }
    }
  }

  /** To hold at every prefix is to hold at the shorter ones and at the whole. */
  lemma AgreePrefix(active: Active, shift: Shift, sales: seq<Sale>)
    requires sales != []
    ensures AgreeThroughout(active, shift, sales)
       <==> AgreeThroughout(active, shift, sales[..|sales| - 1]) && Agree(active, shift, sales)
  {
    hide Agree;
    var before := sales[..|sales| - 1];
    assert sales[..|sales|] == sales;
    assert forall k | 0 <= k <= |before| :: before[..k] == sales[..k];
  }

  lemma FitPrefix(start: Totals, id: string, sales: seq<Sale>)
    requires sales != []
    ensures var before, last := sales[..|sales| - 1], sales[|sales| - 1];
            FitThroughout(start, id, sales) <==> FitThroughout(start, id, before) && StepFits(Truth(start, id, before), id, last)
  {
    hide StepFits; hide Truth;
    var before := sales[..|sales| - 1];
    assert forall k | 0 <= k < |before| :: before[..k] == sales[..k] && before[k] == sales[k];
  }

  lemma LastAgreesIff(active: Active, shift: Shift, before: seq<Sale>, last: Sale)
    requires SameStart(active, shift) && last.AsBuilt()
    requires Agree(active, shift, before) && FitsService(Truth(active.totals, active.id, before))
    requires AppliedAll(shift, Shown(before)).totals == Truth(active.totals, active.id, before)
    ensures var sales := before + [last];
            && (Agree(active, shift, sales) <==> StepFits(Truth(active.totals, active.id, before), active.id, last))
            && (Agree(active, shift, sales) ==>
                  var truth := Truth(active.totals, active.id, sales);
                  AppliedAll(shift, Shown(sales)).totals == truth && FitsService(truth))
  {
    var seen := Truth(active.totals, active.id, before);
    BothStep(active, shift, before, last);
    if last.Happens() && ForShift(last.tx, active.id) {
      StepAgreesIff(seen, last.tx);
    }
    hide Worth; hide ForShift; hide JsAdd; hide JsWorth; hide Truth; hide AppliedAll; hide Shown; hide ServedAll; hide AddsExactly;
  }

  /** Starting level and given the same sales over both paths, the service and the
      desktop show the same totals after every sale if and only if no sale takes the true
      totals beyond the service's counters and each is added exactly on the desktop. */
  lemma SidesAgreeIff(active: Active, shift: Shift, sales: seq<Sale>)
    requires SameStart(active, shift) && AllAsBuilt(sales)
    ensures AgreeThroughout(active, shift, sales) <==> FitThroughout(active.totals, active.id, sales)
  {
    AgreementIsTruth(active, shift, sales);
  }

  /** In particular they agree throughout while the count fits 32 bits and the amount 2^53. */
  lemma SidesAgreeUpToExact(active: Active, shift: Shift, sales: seq<Sale>)
    requires SameStart(active, shift) && AllAsBuilt(sales)
    requires var end := Truth(active.totals, active.id, sales); end.count <= U32_MAX && end.amount <= MAX_EXACT
    ensures AgreeThroughout(active, shift, sales)
  {
    hide *;
    SmallTotalsFit(active.totals, active.id, sales);
    AgreementIsTruth(active, shift, sales);
  }

  lemma TruthSnoc(start: Totals, id: string, before: seq<Sale>, sale: Sale)
    ensures Truth(start, id, before + [sale])
         == if sale.Happens() && ForShift(sale.tx, id) then Add(Truth(start, id, before), Worth(sale.tx)) else Truth(start, id, before)
  {
    assert (before + [sale])[..|before|] == before;
    assert Shown(before + [sale]) == Shown(before) + (if sale.Happens() then [sale.tx] else []);
    if sale.Happens() {
      WorthSnoc(id, Shown(before), sale.tx);
      AddAssociates(start, WorthOf(id, Shown(before)), Worth(sale.tx));
      AddAssociates(WorthOf(id, Shown(before)), ZERO, ZERO);
    } else {
      assert Shown(before) + [] == Shown(before);
    }
    hide Worth; hide Add; hide WorthOf; hide ForShift;
  }

  lemma {:induction false} SmallTotalsFit(start: Totals, id: string, sales: seq<Sale>)
    requires var end := Truth(start, id, sales); end.count <= U32_MAX && end.amount <= MAX_EXACT
    ensures FitThroughout(start, id, sales)
    decreases |sales|
  {
    hide JsNumber; hide Worth; hide ForShift; hide Truth; hide FitThroughout; hide Sale.Happens;
    if sales == [] {
      NothingSold(start, id);
    } else {
      var before, last := sales[..|sales| - 1], sales[|sales| - 1];
      assert sales == before + [last];
      TruthSnoc(start, id, before, last);
      SmallTotalsFit(start, id, before);
      FitPrefix(start, id, sales);
      if last.Happens() && ForShift(last.tx, id) {
        SmallIsJsNumber(Worth(last.tx).amount);
        SmallIsJsNumber(Truth(start, id, sales).amount);
      }
    }
  }

  lemma NothingSold(start: Totals, id: string)
    ensures FitThroughout(start, id, [])
  {}

  // ── Stopped and continued sales ────────────────────────────────────────────

  function Segments(txs: seq<Tx>): Totals {
    if txs == [] then ZERO
    else Add(Segments(txs[..|txs| - 1]), Totals(0, txs[|txs| - 1].volume, txs[|txs| - 1].amount))
  }

  /** However often a stopped sale is continued it is one sale, worth its first leg plus
      every segment once. */
  lemma {:induction false} ContinuedSaleCountsOnce(id: string, root: Tx, more: seq<Tx>)
    requires ForShift(root, id) && !root.status.ContinuedFrom?
    requires forall i | 0 <= i < |more| :: ForShift(more[i], id) && more[i].status.ContinuedFrom?
    ensures WorthOf(id, [root] + more) == Add(Worth(root), Segments(more))
    ensures WorthOf(id, [root] + more).count == 1
    decreases |more|
  {
    var all := [root] + more;
    if more == [] {
      assert all == [root] && [root][..0] == [];
      assert WorthOf(id, [root]) == Add(WorthOf(id, [root][..0]), Worth(root));
    } else {
      ContinuedSaleCountsOnce(id, root, more[..|more| - 1]);
      assert all[..|all| - 1] == [root] + more[..|more| - 1];
    }
  }
}
