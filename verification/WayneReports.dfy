/** What a pump says on the Wayne bus, and that the parser reads exactly that. */
module WayneReports {
  import opened Wire
  import opened Crc
  import opened WayneCrc
  import opened WayneAccumulator
  import opened WayneParser
  import opened WayneMeter

  // ── Short frames ───────────────────────────────────────────────────────────

  /** Three-byte frames: who polls, idles or acknowledges is read off addresses 0x50 to 0x6F,
      with bit 7 set or not; from any other address or with any other code nothing is known. */
  lemma ShortFramesAre(a: u8, code: u8)
    ensures ParseFrame([a, code, 0xFA])
         == if !(0x50 <= a <= 0x6F || 0xD0 <= a <= 0xEF) then ParseFrame([code, 0xFA])
            else if a >= 0xD0 && 0x50 <= code <= 0x6F then Unknown([code, 0xFA])
            else if code == 0x20 then Poll(a & 0x7F)
            else if code == 0x70 then Idle(a & 0x7F)
            else if code == 0xC0 || code == 0xC1 then AckC0(a & 0x7F)
            else Unknown([a, code, 0xFA])
    ensures ParseFrame([code, 0xFA]) == if 0x50 <= code <= 0x6F || 0xD0 <= code <= 0xEF then Unknown([code, 0xFA]) else Unknown([])
  {
    ShortFrameTrimmed(a, code);
    var t := [a, code, 0xFA];
    hide TrimPrefix; hide ParseVerified; hide ParseUnverified; hide VerifyCrc;
    assert IsTerminated([code, 0xFA]) == false && IsTerminated(t) == false;
  }

  lemma ShortFrameTrimmed(a: u8, code: u8)
    ensures TrimPrefix([code, 0xFA]) == if 0x50 <= code <= 0x6F || 0xD0 <= code <= 0xEF then [code, 0xFA] else []
    ensures TrimPrefix([a, code, 0xFA])
         == if !(0x50 <= a <= 0x6F || 0xD0 <= a <= 0xEF) || (a >= 0xD0 && 0x50 <= code <= 0x6F) then TrimPrefix([code, 0xFA])
            else [a, code, 0xFA]
  {
    assert [a, code, 0xFA][1..] == [code, 0xFA] && [code, 0xFA][1..] == [0xFA] && [0xFA][1..] == [];
    assert TrimPrefix([]) == [] && TrimPrefix([0xFA]) == [];
  }

  // ── The reports ────────────────────────────────────────────────────────────

  /** What a pump reports behind address and sequence byte. `OldHose` has the product one byte
      later; `more`, `tail` is whatever follows; `echo` is the preset code in a repeated
      configuration. */
  datatype Report =
    | Hose(product: u8, hose: u8)
    | HoseB(product: u8, hose: u8)
    | OldHose(filler: u8, product: u8, hose: u8)
    | Standby
    | Completed(more: seq<u8>)
    | Halted(more: seq<u8>)
    | Holstered(code: u8, more: seq<u8>)
    | Fill(volume: seq<u8>, amount: seq<u8>, tail: seq<u8>)
    | BusyFill(volume: seq<u8>, amount: seq<u8>, tail: seq<u8>)
    | EchoFill(echo: u8, product: u8, hose: u8, volume: seq<u8>, amount: seq<u8>, tail: seq<u8>)
  {
    function Bytes(): seq<u8> {
      match this
      case Hose(product, hose) => [0x03, 0x04, 0x01, product, 0x00, hose]
      case HoseB(product, hose) => [0x03, 0x04, 0x00, product, 0x00, hose]
      case OldHose(filler, product, hose) => [0x03, 0x04, 0x00, filler, product, hose]
      case Standby => [0x01, 0x01, 0x05]
      case Completed(more) => [0x01, 0x01, 0x05] + more
      case Halted(more) => [0x01, 0x01, 0x01] + more
      case Holstered(code, more) => [0x01, 0x01, code] + more
      case Fill(volume, amount, tail) => [0x02, 0x08] + volume + amount + tail
      case BusyFill(volume, amount, tail) => [0x01, 0x01, 0x04, 0x02, 0x08] + volume + amount + tail
      case EchoFill(echo, product, hose, volume, amount, tail) =>
        [0x03, 0x04, 0x00, echo, product, hose, 0x02, 0x08] + volume + amount + tail
    }

    /** Whether the pump can mean this: a lifted hose of the second form has a code, an older
        one a product, and no two bytes of a repeated configuration look like a meter block. */
    ghost predicate Sound() {
      match this
      case HoseB(_, hose) => hose != 0
      case OldHose(_, product, hose) => product != 0 && hose != 0
      case Completed(more) => more != []
      case Holstered(code, _) => code == 0x00 || code == 0x02
      case Fill(volume, amount, _) => |volume| == |amount| == 4
      case BusyFill(volume, amount, _) => |volume| == |amount| == 4
      case EchoFill(echo, product, hose, volume, amount, _) =>
        |volume| == |amount| == 4 && !(echo == 0x02 && product == 0x08) && !(product == 0x02 && hose == 0x08)
      case _ => true
    }

    /** What the service is to understand. */
    ghost predicate IsReadAs(addr: u8, s: u8, f: Frame) {
      var payload := [addr, s] + Bytes();
      match this
      case Hose(product, hose) => HoseEvent(addr, s, product, hose, f)
      case HoseB(product, hose) => HoseEvent(addr, s, product, hose, f)
      case OldHose(_, product, hose) => HoseEvent(addr, s, product, hose, f)
      case Standby => f == DispenserIdle(addr, s)
      case Completed(_) => f == TransactionComplete(addr, s)
      case Halted(_) => f == Stopped(addr, s)
      case Holstered(_, _) => f == NozzleHolstered(addr, s)
      case Fill(volume, amount, tail) => FillEvent(addr, s, volume, amount, tail, ScanHose(payload), f)
      case BusyFill(volume, amount, tail) => FillEvent(addr, s, volume, amount, tail, ScanHose(payload), f)
      case EchoFill(_, product, hose, volume, amount, tail) =>
        var embedded := ScanHose(payload);
        FillEvent(addr, s, volume, amount, tail,
                  if embedded.Some? then embedded else if hose >= 0x10 then Some((product, hose - 0x10)) else None, f)
    }
  }

  /** Codes 1 to 15 are a hose put back, all others a hose lifted. */
  ghost predicate HoseEvent(addr: u8, s: u8, product: u8, hose: u8, f: Frame) {
    if 0x01 <= hose <= 0x0F then f == NozzleReturned(addr, s, product, hose) else f == NozzleUp(addr, s, product, hose)
  }

  /** The sale is over when the tail holds `01 01 01`, `01 01 05` or `01 01 06`. */
  ghost predicate FillEvent(addr: u8, s: u8, volume: seq<u8>, amount: seq<u8>, tail: seq<u8>, hose: Option<(u8, u8)>, f: Frame) {
    && f.Data? && f.addr == addr && f.seq_ == s && f.volume == volume && f.amount == amount && f.crcOk
    && (f.saleComplete <==> EndsSale(tail))
    && f.hoseProduct == (if hose.Some? then Some(hose.value.0) else None)
    && f.hoseCode == (if hose.Some? then Some(hose.value.1) else None)
  }

  ghost predicate EndsAt(tail: seq<u8>, i: nat)
    requires i + 3 <= |tail|
  {
    tail[i..i + 3] == [0x01, 0x01, 0x01] || tail[i..i + 3] == [0x01, 0x01, 0x05] || tail[i..i + 3] == [0x01, 0x01, 0x06]
  }

  ghost predicate EndsSale(tail: seq<u8>) { exists i | 0 <= i < |tail| - 2 :: EndsAt(tail, i) }

  lemma DoneIff(tail: seq<u8>)
    ensures HasDoneTail(tail) <==> EndsSale(tail)
  {
    if HasDoneTail(tail) {
      var i :| 0 <= i < |tail| - 2 && tail[i] == 0x01 && tail[i + 1] == 0x01 && (tail[i + 2] == 0x01 || tail[i + 2] == 0x05 || tail[i + 2] == 0x06);
      assert tail[i..i + 3] == [tail[i], tail[i + 1], tail[i + 2]];
      assert EndsAt(tail, i);
    }
    if EndsSale(tail) {
      var i :| 0 <= i < |tail| - 2 && EndsAt(tail, i);
      assert tail[i] == tail[i..i + 3][0] && tail[i + 1] == tail[i..i + 3][1] && tail[i + 2] == tail[i..i + 3][2];
    }
  }

  // ── Reading a verified payload ─────────────────────────────────────────────

  lemma HoseReads(p: seq<u8>, t: seq<u8>)
    requires 8 <= |p| <= 9 && 0x31 <= p[1] <= 0x3F && p[2] == 0x03 && p[3] == 0x04
    requires p[4] == 0x01 || (p[4] == 0x00 && p[7] != 0x00)
    ensures HoseEvent(p[0], p[1], if p[4] == 0x01 || p[6] == 0x00 then p[5] else p[6], p[7], ParseVerified(p[0], p, t))
  {
    assert ScanMeter(p, 2) == None;
    hide ScanMeter; hide ScanHose; hide HasDoneTail;
  }

  lemma StateReads(p: seq<u8>, t: seq<u8>)
    requires |p| >= 5 && 0x31 <= p[1] <= 0x3F && p[2] == 0x01 && p[3] == 0x01
    ensures var f := ParseVerified(p[0], p, t);
            && (p[4] == 0x05 ==> f == if |p| == 5 then DispenserIdle(p[0], p[1]) else TransactionComplete(p[0], p[1]))
            && (p[4] == 0x01 ==> f == Stopped(p[0], p[1]))
            && (p[4] == 0x00 || p[4] == 0x02 ==> f == NozzleHolstered(p[0], p[1]))
  {
    hide ParseFill;
  }

  /** The meter block at `off`, the first one, decides what is read. */
  lemma FillReads(p: seq<u8>, t: seq<u8>, off: nat, echo: bool)
    requires |p| >= 2 && 0x31 <= p[1] <= 0x3F && 2 <= off <= |p| - 10 && FindFillOffset(p) == Some((off, echo))
    requires !(p[2] == 0x01 && p[3] == 0x01) || p[4] == 0x04
    ensures FillEvent(p[0], p[1], p[off + 2..off + 6], p[off + 6..off + 10], p[off + 10..],
                      if ScanHose(p).Some? then ScanHose(p)
                      else if echo && off >= 6 && p[off - 1] >= 0x10 then Some((p[off - 2], p[off - 1] - 0x10)) else None,
                      ParseVerified(p[0], p, t))
  {
    FillIsVerified(p, t);
    MeterIs(p, off, echo);
    hide FindFillOffset; hide ScanHose; hide ParseFill; hide ParseVerified; hide FillEvent;
  }

  lemma FillIsVerified(p: seq<u8>, t: seq<u8>)
    requires |p| >= 2 && 0x31 <= p[1] <= 0x3F && FindFillOffset(p).Some?
    requires |p| >= 5 && (!(p[2] == 0x01 && p[3] == 0x01) || p[4] == 0x04)
    ensures ParseFill(p[0], p, true).Some? && ParseVerified(p[0], p, t) == ParseFill(p[0], p, true).value
  {
    assert ParseFill(p[0], p, true).Some? by {
      hide FindFillOffset; hide EmbeddedHose; hide HasDoneTail;
    }
    hide FindFillOffset; hide ParseFill; hide NozzleFrame;
  }

  lemma MeterIs(p: seq<u8>, off: nat, echo: bool)
    requires 2 <= off <= |p| - 10 && FindFillOffset(p) == Some((off, echo))
    ensures ParseFill(p[0], p, true).Some?
    ensures FillEvent(p[0], p[1], p[off + 2..off + 6], p[off + 6..off + 10], p[off + 10..],
                      if ScanHose(p).Some? then ScanHose(p)
                      else if echo && off >= 6 && p[off - 1] >= 0x10 then Some((p[off - 2], p[off - 1] - 0x10)) else None,
                      ParseFill(p[0], p, true).value)
  {
    DoneIff(p[off + 10..]);
    hide FindFillOffset; hide ScanHose; hide HasDoneTail; hide EndsSale;
  }

  lemma PlainFill(p: seq<u8>, t: seq<u8>)
    requires |p| >= 12 && 0x31 <= p[1] <= 0x3F && p[2] == 0x02 && p[3] == 0x08
    ensures FillEvent(p[0], p[1], p[4..8], p[8..12], p[12..], ScanHose(p), ParseVerified(p[0], p, t))
  {
    hide ScanMeter; hide ScanHose; hide EndsSale; hide HasDoneTail;
    FillReads(p, t, 2, false);
    hide ParseVerified;
  }

  lemma BusyFillIs(p: seq<u8>, t: seq<u8>)
    requires |p| >= 15 && 0x31 <= p[1] <= 0x3F
    requires p[2] == 0x01 && p[3] == 0x01 && p[4] == 0x04 && p[5] == 0x02 && p[6] == 0x08
    ensures FillEvent(p[0], p[1], p[7..11], p[11..15], p[15..], ScanHose(p), ParseVerified(p[0], p, t))
  {
    assert p[2..7] == [0x01, 0x01, 0x04, 0x02, 0x08];
    hide ScanMeter; hide ScanHose; hide EndsSale; hide HasDoneTail;
    FillReads(p, t, 5, false);
    hide ParseVerified;
  }

  lemma {:induction false} FirstMeter(p: seq<u8>, from: nat, off: nat)
    requires 2 <= from <= off && off + 9 < |p| && p[off] == 0x02 && p[off + 1] == 0x08
    requires forall i | from <= i < off :: !(p[i] == 0x02 && p[i + 1] == 0x08)
    ensures ScanMeter(p, from) == Some(off)
    decreases off - from
  {
    if from < off {
      FirstMeter(p, from + 1, off);
    }
  }

  lemma EchoFillIs(p: seq<u8>, t: seq<u8>)
    requires |p| >= 18 && 0x31 <= p[1] <= 0x3F && p[2] == 0x03 && p[3] == 0x04 && p[4] == 0x00 && p[8] == 0x02 && p[9] == 0x08
    requires !(p[5] == 0x02 && p[6] == 0x08) && !(p[6] == 0x02 && p[7] == 0x08)
    ensures FillEvent(p[0], p[1], p[10..14], p[14..18], p[18..],
                      if ScanHose(p).Some? then ScanHose(p) else if p[7] >= 0x10 then Some((p[6], p[7] - 0x10)) else None,
                      ParseVerified(p[0], p, t))
  {
    FirstMeter(p, 2, 8);
    assert p[2..5] == [0x03, 0x04, 0x00];
    hide ScanMeter; hide ScanHose; hide EndsSale; hide HasDoneTail;
    FillReads(p, t, 8, true);
    hide ParseVerified;
  }

  /** Volume, amount and tail of a fill behind its first bytes. */
  lemma FillParts(front: seq<u8>, volume: seq<u8>, amount: seq<u8>, tail: seq<u8>)
    requires |volume| == |amount| == 4
    ensures var p := front + volume + amount + tail; var n := |front|;
            && p[..n] == front && p[n..n + 4] == volume && p[n + 4..n + 8] == amount && p[n + 8..] == tail
  {}

  lemma PlainFillReads(addr: u8, s: u8, volume: seq<u8>, amount: seq<u8>, tail: seq<u8>, t: seq<u8>)
    requires 0x31 <= s <= 0x3F && |volume| == |amount| == 4
    ensures var p := [addr, s, 0x02, 0x08] + volume + amount + tail;
            FillEvent(addr, s, volume, amount, tail, ScanHose(p), ParseVerified(addr, p, t))
  {
    hide ParseVerified; hide ScanHose; hide FillEvent;
    var front := [addr, s, 0x02, 0x08];
    var p := front + volume + amount + tail;
    FillParts(front, volume, amount, tail);
    Front(p, front);
    PlainFill(p, t);
  }

  lemma BusyFillReads(addr: u8, s: u8, volume: seq<u8>, amount: seq<u8>, tail: seq<u8>, t: seq<u8>)
    requires 0x31 <= s <= 0x3F && |volume| == |amount| == 4
    ensures var p := [addr, s, 0x01, 0x01, 0x04, 0x02, 0x08] + volume + amount + tail;
            FillEvent(addr, s, volume, amount, tail, ScanHose(p), ParseVerified(addr, p, t))
  {
    hide ParseVerified; hide ScanHose; hide FillEvent;
    var front := [addr, s, 0x01, 0x01, 0x04, 0x02, 0x08];
    var p := front + volume + amount + tail;
    FillParts(front, volume, amount, tail);
    Front(p, front);
    BusyFillIs(p, t);
  }

  lemma EchoFillReads(addr: u8, s: u8, r: Report, t: seq<u8>)
    requires 0x31 <= s <= 0x3F && r.EchoFill? && r.Sound()
    ensures var p := [addr, s, 0x03, 0x04, 0x00, r.echo, r.product, r.hose, 0x02, 0x08] + r.volume + r.amount + r.tail;
            FillEvent(addr, s, r.volume, r.amount, r.tail,
                      if ScanHose(p).Some? then ScanHose(p) else if r.hose >= 0x10 then Some((r.product, r.hose - 0x10)) else None,
                      ParseVerified(addr, p, t))
  {
    hide ParseVerified; hide ScanHose; hide FillEvent;
    var front := [addr, s, 0x03, 0x04, 0x00, r.echo, r.product, r.hose, 0x02, 0x08];
    var p := front + r.volume + r.amount + r.tail;
    FillParts(front, r.volume, r.amount, r.tail);
    Front(p, front);
    EchoFillIs(p, t);
  }

  lemma Front(p: seq<u8>, front: seq<u8>)
    requires |front| <= |p| && p[..|front|] == front
    ensures forall i | 0 <= i < |front| :: p[i] == front[i]
  {
    assert forall i | 0 <= i < |front| :: p[i] == p[..|front|][i];
  }

  lemma JoinFront<T>(x: seq<T>, b: seq<T>, v: seq<T>, a: seq<T>, t: seq<T>)
    ensures x + (b + v + a + t) == (x + b) + v + a + t
  {}

  lemma FillPayloadReads(addr: u8, s: u8, r: Report, t: seq<u8>)
    requires 0x31 <= s <= 0x3F && r.Sound() && (r.Fill? || r.BusyFill? || r.EchoFill?)
    ensures r.IsReadAs(addr, s, ParseVerified(addr, [addr, s] + r.Bytes(), t))
  {
    hide ParseVerified; hide ScanHose; hide FillEvent;
    match r
    case Fill(volume, amount, tail) =>
      JoinFront([addr, s], [0x02, 0x08], volume, amount, tail);
      assert [addr, s] + [0x02, 0x08] == [addr, s, 0x02, 0x08];
      PlainFillReads(addr, s, volume, amount, tail, t);
    case BusyFill(volume, amount, tail) =>
      JoinFront([addr, s], [0x01, 0x01, 0x04, 0x02, 0x08], volume, amount, tail);
      assert [addr, s] + [0x01, 0x01, 0x04, 0x02, 0x08] == [addr, s, 0x01, 0x01, 0x04, 0x02, 0x08];
      BusyFillReads(addr, s, volume, amount, tail, t);
    case EchoFill(echo, product, hose, volume, amount, tail) =>
      JoinFront([addr, s], [0x03, 0x04, 0x00, echo, product, hose, 0x02, 0x08], volume, amount, tail);
      assert [addr, s] + [0x03, 0x04, 0x00, echo, product, hose, 0x02, 0x08]
          == [addr, s, 0x03, 0x04, 0x00, echo, product, hose, 0x02, 0x08];
      EchoFillReads(addr, s, r, t);
  }

  lemma ReportReads(addr: u8, s: u8, r: Report, t: seq<u8>)
    requires 0x31 <= s <= 0x3F && r.Sound()
    ensures r.IsReadAs(addr, s, ParseVerified(addr, [addr, s] + r.Bytes(), t))
  {
    var p := [addr, s] + r.Bytes();
    if r.Fill? || r.BusyFill? || r.EchoFill? {
      FillPayloadReads(addr, s, r, t);
    } else if r.Hose? || r.HoseB? || r.OldHose? {
      HoseReads(p, t);
      hide ParseVerified;
    } else {
      StateReads(p, t);
      hide ParseVerified;
    }
  }

  // ── Reading a frame ────────────────────────────────────────────────────────

  lemma NotUnknown(addr: u8, s: u8, r: Report, f: Frame)
    requires r.Sound() && r.IsReadAs(addr, s, f)
    ensures !f.Unknown? && !f.Poll? && !f.AckC0? && f.addr == addr
  {
    hide ScanHose; hide EndsSale;
  }

  /** Whatever a pump at a known address reports under a known sequence byte is read as
      exactly that, counts as the answer of that pump and of no other, and is read the same
      from firmware that sets bit 7 of the address. */
  lemma ReportIsRead(addr: u8, s: u8, r: Report, polled: u8)
    requires 0x50 <= addr <= 0x6F && 0x31 <= s <= 0x3F && r.Sound()
    ensures var frame := BuildFrame([addr, s] + r.Bytes());
            && r.IsReadAs(addr, s, ParseFrame(frame))
            && ParseFrame([addr | 0x80] + frame[1..]) == ParseFrame(frame)
            && (ParseFrame(frame).IsDispenserResponse(polled) <==> polled == addr)
  {
    var p := [addr, s] + r.Bytes();
    var t := BuildFrame(p);
    BytesLong(r);
    ReportReads(addr, s, r, t);
    BuiltVerifies(p);
    BuiltStarts(p);
    hide BuildFrame; hide VerifyCrc; hide IsTerminated; hide ParseVerified;
    assert IsPlainAddr(t[0]) && !IsShortFrame(t) && !IsPlainAddr(t[1]);
    ParsesPlain(t);
    NotUnknown(addr, s, r, ParseFrame(t));
    var rest := t[1..];
    assert t == [addr] + rest && rest[0] == t[1];
    hide ParseFrame; hide IsShortFrame;
    HighBitTransparent(addr, rest);
  }

  /** In a repeated configuration, preset 02 before product 08, or product 02 before hose 08,
      is taken for the meter block, and the volume is read off the wrong bytes. */
  lemma EchoReadsAsMeter(addr: u8, s: u8, r: Report)
    requires 0x50 <= addr <= 0x6F && 0x31 <= s <= 0x3F && r.EchoFill? && |r.volume| == |r.amount| == 4 && !r.Sound()
    ensures var f := ParseFrame(BuildFrame([addr, s] + r.Bytes()));
            f.Data? && f.volume == if r.echo == 0x02 && r.product == 0x08 then [r.hose, 0x02, 0x08, r.volume[0]]
                                   else [0x02, 0x08, r.volume[0], r.volume[1]]
  {
    var front := [addr, s, 0x03, 0x04, 0x00, r.echo, r.product, r.hose, 0x02, 0x08];
    var p := [addr, s] + r.Bytes();
    JoinFront([addr, s], [0x03, 0x04, 0x00, r.echo, r.product, r.hose, 0x02, 0x08], r.volume, r.amount, r.tail);
    assert [addr, s] + [0x03, 0x04, 0x00, r.echo, r.product, r.hose, 0x02, 0x08] == front;
    assert p == front + r.volume + r.amount + r.tail;
    FillParts(front, r.volume, r.amount, r.tail);
    Front(p, front);
    assert p[10] == r.volume[0] && p[11] == r.volume[1];
    hide ParseVerified;
    var off := if r.echo == 0x02 && r.product == 0x08 then 5 else 6;
    ShiftedMeter(p, BuildFrame(p), off);
    PlainFrameReads(p);
  }

  lemma ShiftedMeter(p: seq<u8>, t: seq<u8>, off: nat)
    requires |p| >= 18 && 0x31 <= p[1] <= 0x3F && p[2] == 0x03 && p[3] == 0x04 && p[4] == 0x00
    requires 5 <= off <= 6 && p[off] == 0x02 && p[off + 1] == 0x08 && (off == 6 ==> !(p[5] == 0x02 && p[6] == 0x08))
    ensures ParseVerified(p[0], p, t).Data? && ParseVerified(p[0], p, t).volume == [p[off + 2], p[off + 3], p[off + 4], p[off + 5]]
  {
    FirstMeter(p, 2, off);
    hide ScanMeter; hide ScanHose; hide EndsSale; hide HasDoneTail;
    FillReads(p, t, off, FindFillOffset(p).value.1);
    hide ParseVerified;
    assert p[off + 2..off + 6] == [p[off + 2], p[off + 3], p[off + 4], p[off + 5]];
  }

  lemma PlainFrameReads(p: seq<u8>)
    requires |p| >= 5 && 0x50 <= p[0] <= 0x6F && 0x31 <= p[1] <= 0x3F
    ensures ParseFrame(BuildFrame(p)) == ParseVerified(p[0], p, BuildFrame(p))
  {
    var t := BuildFrame(p);
    BuiltVerifies(p);
    BuiltStarts(p);
    hide BuildFrame; hide VerifyCrc; hide IsTerminated; hide ParseVerified;
    assert IsPlainAddr(t[0]) && !IsShortFrame(t);
    ParsesPlain(t);
  }

  lemma BytesLong(r: Report)
    requires r.Sound()
    ensures |r.Bytes()| >= 3 && r.Bytes()[0] <= 0x03
  {}

  lemma BuiltStarts(p: seq<u8>)
    requires |p| >= 5
    ensures |BuildFrame(p)| == |p| + 4 && forall i | 0 <= i < |p| :: BuildFrame(p)[i] == p[i]
  {
    hide Crc16; hide Low; hide High;
  }

  // ── The check of a frame ───────────────────────────────────────────────────

  /** Two bytes leave no remainder behind `data` exactly when they are its CRC. */
  lemma RemainderZeroIff(data: seq<u8>, a: u8, b: u8)
    ensures Crc16(data + [a, b]) == 0 <==> a == Low(Crc16(data)) && b == High(Crc16(data))
  {
    Residue(data);
    var lo, hi := Low(Crc16(data)), High(Crc16(data));
    hide Low; hide High; hide CrcFrom;
    if a != lo || b != hi {
      assert [a, b][0] != [lo, hi][0] || [a, b][1] != [lo, hi][1];
      ByteWindowDetected(Ibm, data, [a, b], [lo, hi], []);
      assert data + [a, b] + [] == data + [a, b] && data + [lo, hi] + [] == data + [lo, hi];
    }
  }

  /** The first `n` bytes and the two check bytes of a frame leave no remainder, its address
      taken as it is or with bit 7 cleared. */
  ghost predicate LeavesNone(t: seq<u8>, n: nat)
    requires n + 4 <= |t|
  {
    var check := t[|t| - 4..|t| - 2];
    || Crc16(t[..n] + check) == 0
    || (n > 0 && t[0] >= 0x80 && Crc16([t[0] - 0x80] + t[1..n] + check) == 0)
  }

  /** A frame passes exactly when everything in front of its last four bytes, or all of that
      but one status byte, leaves no remainder together with its check bytes. */
  lemma VerifiesIff(t: seq<u8>)
    ensures VerifyCrc(t) <==> |t| >= 4 && (LeavesNone(t, |t| - 4) || (|t| >= 5 && LeavesNone(t, |t| - 5)))
  {
    hide TryCrc; hide LeavesNone;
    if |t| >= 4 {
      TryCrcIff(t, |t| - 4);
    }
    if |t| >= 5 {
      TryCrcIff(t, |t| - 5);
    }
  }

  lemma TryCrcIff(t: seq<u8>, n: nat)
    requires n + 4 <= |t|
    ensures TryCrc(t[..n], t[|t| - 4], t[|t| - 3]) <==> LeavesNone(t, n)
  {
    var a, b := t[|t| - 4], t[|t| - 3];
    assert t[|t| - 4..|t| - 2] == [a, b];
    RemainderZeroIff(t[..n], a, b);
    if n > 0 {
      HighBitOf(t[0]);
      assert t[..n][1..] == t[1..n];
      if t[0] >= 0x80 {
        RemainderZeroIff([t[0] - 0x80] + t[1..n], a, b);
      }
    }
    hide Low; hide High; hide Crc16;
  }

  lemma HighBitOf(b: u8)
    ensures b & 0x80 != 0 <==> b >= 0x80
    ensures b >= 0x80 ==> b & 0x7F == b - 0x80
  {}

  /** A hose status with a status byte behind its CRC-covered bytes is read the same. */
  lemma SuffixedHoseIsRead(addr: u8, s: u8, r: Report, x: u8)
    requires 0x50 <= addr <= 0x6F && 0x31 <= s <= 0x3F && r.Sound() && (r.Hose? || r.HoseB? || r.OldHose?)
    ensures var p := [addr, s] + r.Bytes();
            r.IsReadAs(addr, s, ParseFrame(p + [x, Low(Crc16(p)), High(Crc16(p)), 0x03, 0xFA]))
  {
    var p := [addr, s] + r.Bytes();
    var t := p + [x, Low(Crc16(p)), High(Crc16(p)), 0x03, 0xFA];
    SuffixVerifies(p, x);
    hide Low; hide High; hide Crc16; hide VerifyCrc;
    assert t[..|t| - 4] == p + [x];
    HoseReads(p + [x], t);
    hide ParseVerified;
    assert IsPlainAddr(t[0]) && !IsShortFrame(t) && IsTerminated(t);
    hide IsShortFrame; hide IsTerminated;
    ParsesPlain(t);
  }

  lemma SuffixVerifies(p: seq<u8>, x: u8)
    ensures VerifyCrc(p + [x, Low(Crc16(p)), High(Crc16(p)), 0x03, 0xFA])
  {
    hide Low; hide High; hide Crc16;
    var t := p + [x, Low(Crc16(p)), High(Crc16(p)), 0x03, 0xFA];
    assert t[..|t| - 5] == p;
  }

  /** A frame that fails the check never completes a sale, and shows something only if it
      carries a meter block. */
  lemma UnverifiedOnlyShows(raw: seq<u8>)
    requires IsTerminated(TrimPrefix(raw)) && !VerifyCrc(TrimPrefix(raw)) && !IsShortFrame(TrimPrefix(raw))
    ensures ParseFrame(raw).Unknown? || (ParseFrame(raw).Data? && !ParseFrame(raw).crcOk && !ParseFrame(raw).saleComplete)
    ensures ParseFrame(raw).Data? ==> HasMeter(TrimPrefix(raw)[..|TrimPrefix(raw)| - 4])
  {
    var t := TrimPrefix(raw);
    assert t != [] && ParseFrame(raw) == ParseUnverified(t[0] & 0x7F, t[..|t| - 4], t) by {
      hide VerifyCrc; hide ParseVerified; hide ParseUnverified; hide TrimPrefix; hide IsShortFrame;
    }
    hide *;
    UnverifiedIs(t[0] & 0x7F, t[..|t| - 4], t);
  }

  /** Nothing is known of a frame that is neither short nor ends in `03 FA`. */
  lemma OnlyTerminatedIsKnown(raw: seq<u8>)
    requires !ParseFrame(raw).Unknown?
    ensures var t := TrimPrefix(raw);
            || (|t| >= 3 && t[2] == 0xFA && t[1] in {0x20, 0x70, 0xC0, 0xC1})
            || (|t| >= 6 && t[|t| - 2] == 0x03 && t[|t| - 1] == 0xFA && 0x31 <= t[1] <= 0x3F)
  {
    var t := TrimPrefix(raw);
    hide TrimPrefix; hide VerifyCrc; hide ParseFill; hide ParseState; hide NozzleFrame;
    if !IsShortFrame(t) {
      assert IsTerminated(t);
      assert |t| - 4 >= 2 ==> t[..|t| - 4][1] == t[1];
    }
  }

  ghost predicate HasMeter(inner: seq<u8>) {
    exists off | 2 <= off <= |inner| - 10 :: inner[off] == 0x02 && inner[off + 1] == 0x08
  }

  lemma UnverifiedIs(addr: u8, inner: seq<u8>, t: seq<u8>)
    ensures var f := ParseUnverified(addr, inner, t);
            && (f.Unknown? || (f.Data? && !f.crcOk && !f.saleComplete))
            && (f.Data? ==> HasMeter(inner))
  {
    if FindFillOffset(inner).Some? {
      MeterFound(inner);
    }
    hide FindFillOffset; hide EmbeddedHose; hide HasDoneTail;
  }

  lemma MeterFound(inner: seq<u8>)
    requires FindFillOffset(inner).Some?
    ensures var off := FindFillOffset(inner).value.0;
            2 <= off <= |inner| - 10 && inner[off] == 0x02 && inner[off + 1] == 0x08
  {
    if |inner| >= 15 && inner[2..7] == [0x01, 0x01, 0x04, 0x02, 0x08] {
      assert inner[5] == inner[2..7][3] && inner[6] == inner[2..7][4];
    }
  }
}
