/** Turning one raw Wayne frame into its meaning. */
module WayneParser {
  import opened Wire
  import opened Crc
  import opened WayneCrc
  import opened WayneAccumulator

  datatype Frame =
    | Poll(addr: u8)
    | Idle(addr: u8)
    | AckC0(addr: u8)
    | Data(addr: u8, seq_: u8, volume: seq<u8>, amount: seq<u8>, saleComplete: bool,
           hoseProduct: Option<u8>, hoseCode: Option<u8>, crcOk: bool)
    | NozzleUp(addr: u8, seq_: u8, product: u8, nozzle: u8)
    | NozzleReturned(addr: u8, seq_: u8, product: u8, hose: u8)
    | DispenserIdle(addr: u8, seq_: u8)
    | TransactionComplete(addr: u8, seq_: u8)
    | Stopped(addr: u8, seq_: u8)
    | NozzleHolstered(addr: u8, seq_: u8)
    | Unknown(raw: seq<u8>)
  {
    /** The dispenser→PC reading of a frame; polls, acknowledgements and echoes have none. */
    predicate IsDispenserResponse(polled: u8) {
      !Poll? && !AckC0? && !Unknown? && addr == polled
    }
  }

  predicate IsHolsterCode(hh: u8) { 0 < hh < 0x10 }

  predicate IsLiftCode(hh: u8) { hh >= 0x10 }

  predicate IsDataSeq(s: u8) { 0x31 <= s <= 0x3F }

  /** Unlike the accumulator, a frame without an address byte is trimmed to nothing. */
  function TrimPrefix(raw: seq<u8>): (t: seq<u8>)
    ensures t != [] ==> IsAddr(t[0])
    decreases |raw|
  {
    if raw == [] then []
    else if !IsAddr(raw[0]) then TrimPrefix(raw[1..])
    else if IsHighAddr(raw[0]) && |raw| > 1 && IsPlainAddr(raw[1]) then TrimPrefix(raw[1..])
    else raw
  }

  // ── CRC acceptance ─────────────────────────────────────────────────────────

  predicate CrcIs(data: seq<u8>, ck1: u8, ck2: u8) {
    ck1 == Low(Crc16(data)) && ck2 == High(Crc16(data))
  }

  /** `data` with the firmware's high address bit cleared. */
  function PlainAddress(data: seq<u8>): seq<u8> {
    if data == [] then [] else [data[0] & 0x7F] + data[1..]
  }

  predicate TryCrc(data: seq<u8>, ck1: u8, ck2: u8) {
    CrcIs(data, ck1, ck2)
    || (data != [] && data[0] & 0x80 != 0 && CrcIs(PlainAddress(data), ck1, ck2))
  }

  predicate VerifyCrc(body: seq<u8>) {
    |body| >= 4
    && var n := |body|;
       TryCrc(body[..n - 4], body[n - 4], body[n - 3])
       || (n >= 5 && TryCrc(body[..n - 5], body[n - 4], body[n - 3]))
  }

  // ── Meter blocks ───────────────────────────────────────────────────────────

  function ScanMeter(inner: seq<u8>, off: nat): (r: Option<nat>)
    requires 2 <= off
    ensures r.Some? ==> off <= r.value && r.value + 9 < |inner| && inner[r.value] == 0x02 && inner[r.value + 1] == 0x08
    decreases |inner| - off
  {
    if off + 9 >= |inner| then None
    else if inner[off] == 0x02 && inner[off + 1] == 0x08 then Some(off)
    else ScanMeter(inner, off + 1)
  }

  /** Offset of the `02 08` meter block and whether a CONFIG echo precedes it. */
  function FindFillOffset(inner: seq<u8>): (r: Option<(nat, bool)>)
    ensures r.Some? ==> r.value.0 >= 2 && r.value.0 + 10 <= |inner|
  {
    if |inner| >= 12 && inner[2] == 0x02 && inner[3] == 0x08 then Some((2, false))
    else if |inner| >= 15 && inner[2..7] == [0x01, 0x01, 0x04, 0x02, 0x08] then Some((5, false))
    else match ScanMeter(inner, 2)
      case None => None
      case Some(off) => Some((off, off >= 6 && inner[2..5] == [0x03, 0x04, 0x00]))
  }

  /** The hose status that starts at `i`, as (product, hose code). */
  function HoseAt(body: seq<u8>, i: nat): Option<(u8, u8)>
    requires i + 6 <= |body|
  {
    if body[i] != 0x03 || body[i + 1] != 0x04 then None
    else if body[i + 2] == 0x01 then Some((body[i + 3], body[i + 5]))
    else if body[i + 2] == 0x00 && IsHolsterCode(body[i + 5]) then
      Some((if body[i + 4] == 0x00 then body[i + 3] else body[i + 4], body[i + 5]))
    else None
  }

  /** The last hose status among the first `n` start positions. */
  function LastHose(body: seq<u8>, n: nat): Option<(u8, u8)>
    requires n == 0 || n + 5 <= |body|
  {
    if n == 0 then None
    else match HoseAt(body, n - 1)
      case Some(h) => Some(h)
      case None => LastHose(body, n - 1)
  }

  function ScanHose(body: seq<u8>): Option<(u8, u8)> {
    if |body| < 6 then None else LastHose(body, |body| - 5)
  }

  method ScanEmbeddedHoseStatus(body: seq<u8>) returns (found: Option<(u8, u8)>)
    ensures found == ScanHose(body)
  {
    found := None;
    if |body| < 6 {
      return;
    }
    for i := 0 to |body| - 5
      invariant found == LastHose(body, i)
    {
      if body[i] == 0x03 && body[i + 1] == 0x04 {
        if body[i + 2] == 0x01 {
          found := Some((body[i + 3], body[i + 5]));
          continue;
        }
        if body[i + 2] == 0x00 && IsHolsterCode(body[i + 5]) {
          var product := if body[i + 4] == 0x00 then body[i + 3] else body[i + 4];
          found := Some((product, body[i + 5]));
        }
      }
    }
  }

  function EmbeddedHose(inner: seq<u8>, off: nat, configEcho: bool): (Option<u8>, Option<u8>)
    requires off <= |inner|
  {
    match ScanHose(inner)
    case Some(h) => (Some(h.0), Some(h.1))
    case None =>
      if configEcho && off >= 6 && IsLiftCode(inner[off - 1]) then (Some(inner[off - 2]), Some(inner[off - 1] - 0x10))
      else (None, None)
  }

  predicate HasDoneTail(tail: seq<u8>) {
    exists i | 0 <= i < |tail| - 2 ::
      tail[i] == 0x01 && tail[i + 1] == 0x01 && (tail[i + 2] == 0x01 || tail[i + 2] == 0x05 || tail[i + 2] == 0x06)
  }

  /** The live reading carried by `inner`, if it holds a meter block. */
  function ParseFill(addr: u8, inner: seq<u8>, crcOk: bool): (r: Option<Frame>)
    requires |inner| >= 2
    ensures r.Some? ==> r.value.Data? && r.value.addr == addr && r.value.crcOk == crcOk
    ensures r.Some? && !crcOk ==> !r.value.saleComplete
  {
    match FindFillOffset(inner)
    case None => None
    case Some((off, echo)) =>
      var hose := EmbeddedHose(inner, off, echo);
      Some(Data(addr, inner[1], inner[off + 2..off + 6], inner[off + 6..off + 10],
                crcOk && HasDoneTail(inner[off + 10..]), hose.0, hose.1, crcOk))
  }

  // ── Frames ─────────────────────────────────────────────────────────────────

  function NozzleFrame(addr: u8, s: u8, product: u8, hose: u8): Frame {
    if IsHolsterCode(hose) then NozzleReturned(addr, s, product, hose) else NozzleUp(addr, s, product, hose)
  }

  /** `01 01 XX` at the front of the payload. */
  function ParseState(addr: u8, inner: seq<u8>): Option<Frame>
    requires |inner| >= 2
  {
    if |inner| < 5 || inner[2] != 0x01 || inner[3] != 0x01 then None
    else if inner[4] == 0x05 then Some(if |inner| == 5 then DispenserIdle(addr, inner[1]) else TransactionComplete(addr, inner[1]))
    else if inner[4] == 0x01 then Some(Stopped(addr, inner[1]))
    else if inner[4] == 0x02 || inner[4] == 0x00 then Some(NozzleHolstered(addr, inner[1]))
    else None
  }

  /** A payload whose CRC is good. */
  function ParseVerified(addr: u8, inner: seq<u8>, raw: seq<u8>): Frame {
    if |inner| < 2 || !IsDataSeq(inner[1]) then Unknown(raw)
    else if |inner| >= 8 && inner[2] == 0x03 && inner[3] == 0x04 && inner[4] == 0x01 then
      match ParseFill(addr, inner, true)
      case Some(f) => f
      case None => NozzleFrame(addr, inner[1], inner[5], inner[7])
    else match ParseState(addr, inner)
      case Some(f) => f
      case None =>
        match ParseFill(addr, inner, true)
        case Some(f) => f
        case None =>
          if |inner| >= 8 && inner[2] == 0x03 && inner[3] == 0x04 && inner[4] == 0x00 && inner[7] != 0x00 then
            NozzleFrame(addr, inner[1], if inner[6] == 0x00 then inner[5] else inner[6], inner[7])
          else Unknown(raw)
  }

  /** A payload whose CRC is bad: only a live reading may still be shown. */
  function ParseUnverified(addr: u8, inner: seq<u8>, raw: seq<u8>): Frame {
    if |inner| < 2 || !IsDataSeq(inner[1]) then Unknown(raw)
    else match ParseFill(addr, inner, false)
      case Some(f) => f
      case None => Unknown(raw)
  }

  predicate IsTerminated(t: seq<u8>) {
    |t| >= 4 && t[|t| - 2] == 0x03 && t[|t| - 1] == 0xFA
  }

  function ParseTrimmed(t: seq<u8>): Frame
    requires t != []
  {
    var addr := t[0] & 0x7F;
    if IsShortFrame(t) then
      if t[1] == 0x20 then Poll(addr) else if t[1] == 0x70 then Idle(addr) else AckC0(addr)
    else if IsTerminated(t) then
      var inner := t[..|t| - 4];
      if VerifyCrc(t) then ParseVerified(addr, inner, t) else ParseUnverified(addr, inner, t)
    else Unknown(t)
  }

  function ParseFrame(raw: seq<u8>): Frame {
    var t := TrimPrefix(raw);
    if t == [] then Unknown([]) else ParseTrimmed(t)
  }

  // ── Properties ─────────────────────────────────────────────────────────────

  lemma {:induction false} NoAddressIsUnknown(raw: seq<u8>)
    requires !HasAddr(raw)
    ensures ParseFrame(raw) == Unknown([])
    decreases |raw|
  {
    if raw != [] {
      assert forall j | 0 <= j < |raw[1..]| :: raw[1..][j] == raw[j + 1];
      assert IsAddr(raw[0]) ==> HasAddr(raw);
      NoAddressIsUnknown(raw[1..]);
    }
  }

  /** Frames that the accumulator emits without an address byte mean nothing, so
      for a caller too the cutting of the stream is invisible. */
  lemma GarbageFramesMeanNothing(x: seq<u8>, k: nat)
    requires k < |Drain(x).0| && !HasAddr(Drain(x).0[k])
    ensures ParseFrame(Drain(x).0[k]) == Unknown([])
  {
    NoAddressIsUnknown(Drain(x).0[k]);
  }

  // ── The high address bit ───────────────────────────────────────────────────

  lemma {:induction false} LastHoseIgnoresAddress(a: seq<u8>, b: seq<u8>, n: nat)
    requires |a| == |b| >= 1 && a[1..] == b[1..] && a[0] != 0x03 && b[0] != 0x03
    requires n == 0 || n + 5 <= |a|
    ensures LastHose(a, n) == LastHose(b, n)
    decreases n
  {
    if n > 0 {
      assert forall i | 1 <= i < |a| :: a[i] == a[1..][i - 1] && b[i] == b[1..][i - 1];
      LastHoseIgnoresAddress(a, b, n - 1);
    }
  }

  lemma {:induction false} ScanMeterIgnoresAddress(a: seq<u8>, b: seq<u8>, off: nat)
    requires |a| == |b| >= 1 && a[1..] == b[1..] && 2 <= off
    ensures ScanMeter(a, off) == ScanMeter(b, off)
    decreases |a| - off
  {
    assert forall i | 1 <= i < |a| :: a[i] == a[1..][i - 1] && b[i] == b[1..][i - 1];
    if off + 9 < |a| {
      ScanMeterIgnoresAddress(a, b, off + 1);
    }
  }

  lemma TailsAgree(a: seq<u8>, b: seq<u8>, i: nat, j: nat)
    requires |a| == |b| >= 1 && a[1..] == b[1..] && 1 <= i <= j <= |a|
    ensures a[i..j] == b[i..j] && (i < |a| ==> a[i] == b[i])
  {
    SliceBehindFirst(a, i, j);
    SliceBehindFirst(b, i, j);
    if i < |a| {
      assert a[i] == a[1..][i - 1] && b[i] == b[1..][i - 1];
    }
  }

  lemma SliceBehindFirst(a: seq<u8>, i: nat, j: nat)
    requires 1 <= i <= j <= |a|
    ensures a[i..j] == a[1..][i - 1..j - 1]
  {
    assert forall k | 0 <= k < j - i :: a[i..j][k] == a[i + k] == a[1..][i - 1 + k];
  }

  lemma FillOffsetIgnoresAddress(a: seq<u8>, b: seq<u8>)
    requires |a| == |b| >= 2 && a[1..] == b[1..]
    ensures FindFillOffset(a) == FindFillOffset(b)
  {
    ScanMeterIgnoresAddress(a, b, 2);
    hide ScanMeter;
    if |a| >= 7 {
      TailsAgree(a, b, 2, 7);
    }
    if |a| >= 5 {
      TailsAgree(a, b, 2, 5);
      TailsAgree(a, b, 3, 3);
    }
  }

  lemma ParseFillIgnoresAddress(addr: u8, a: seq<u8>, b: seq<u8>)
    requires |a| == |b| >= 2 && a[1..] == b[1..] && a[0] != 0x03 && b[0] != 0x03
    ensures ParseFill(addr, a, true) == ParseFill(addr, b, true)
  {
    hide HasDoneTail; hide LastHose; hide FindFillOffset;
    FillOffsetIgnoresAddress(a, b);
    if |a| >= 6 {
      LastHoseIgnoresAddress(a, b, |a| - 5);
    }
    TailsAgree(a, b, 1, 1);
    match FindFillOffset(a)
    case None =>
    case Some((off, echo)) =>
      if off >= 6 {
        TailsAgree(a, b, off - 2, off - 1);
        TailsAgree(a, b, off - 1, off);
      }
      assert EmbeddedHose(a, off, echo) == EmbeddedHose(b, off, echo);
      TailsAgree(a, b, off + 2, off + 6);
      TailsAgree(a, b, off + 6, off + 10);
      TailsAgree(a, b, off + 10, |a|);
      assert a[off + 10..] == b[off + 10..];
  }

  lemma HighBitCrc(p: u8, rest: seq<u8>, ck1: u8, ck2: u8)
    requires IsPlainAddr(p) && TryCrc([p] + rest, ck1, ck2)
    ensures TryCrc([p | 0x80] + rest, ck1, ck2)
  {
    assert (p | 0x80) & 0x7F == p && (p | 0x80) & 0x80 != 0 && p & 0x80 == 0;
    assert ([p | 0x80] + rest)[1..] == rest;
    hide Crc16;
  }

  lemma HighBitVerifies(p: u8, rest: seq<u8>)
    requires IsPlainAddr(p) && |rest| >= 5 && VerifyCrc([p] + rest)
    ensures VerifyCrc([p | 0x80] + rest)
  {
    hide TryCrc;
    var t, h := [p] + rest, [p | 0x80] + rest;
    var n := |t|;
    assert t[..n - 4] == [p] + rest[..n - 5] && h[..n - 4] == [p | 0x80] + rest[..n - 5];
    assert t[..n - 5] == [p] + rest[..n - 6] && h[..n - 5] == [p | 0x80] + rest[..n - 6];
    if TryCrc(t[..n - 4], t[n - 4], t[n - 3]) {
      HighBitCrc(p, rest[..n - 5], t[n - 4], t[n - 3]);
    } else {
      HighBitCrc(p, rest[..n - 6], t[n - 4], t[n - 3]);
    }
  }

  /** The event in a verified payload does not depend on its address byte's high bit. */
  lemma VerifiedIgnoresAddress(addr: u8, a: seq<u8>, b: seq<u8>, t: seq<u8>, h: seq<u8>)
    requires |a| == |b| >= 2 && a[1..] == b[1..] && a[0] != 0x03 && b[0] != 0x03
    ensures var f, g := ParseVerified(addr, a, t), ParseVerified(addr, b, h);
            f == g || (f.Unknown? && g.Unknown?)
  {
    hide ParseFill;
    ParseFillIgnoresAddress(addr, a, b);
    TailsAgree(a, b, 1, 1);
    if |a| >= 5 {
      TailsAgree(a, b, 2, 2);
      TailsAgree(a, b, 3, 3);
      TailsAgree(a, b, 4, 4);
    }
    if |a| >= 8 {
      TailsAgree(a, b, 5, 5);
      TailsAgree(a, b, 6, 6);
      TailsAgree(a, b, 7, 7);
    }
  }

  lemma HighBitFacts(p: u8)
    requires IsPlainAddr(p)
    ensures IsHighAddr(p | 0x80) && (p | 0x80) & 0x7F == p && p & 0x7F == p && p != 0x03 && p | 0x80 != 0x03
    ensures IsAddr(p) && IsAddr(p | 0x80)
  {}

  lemma SameShape(p: u8, q: u8, rest: seq<u8>)
    requires IsAddr(p) && IsAddr(q) && |rest| >= 5
    ensures IsShortFrame([p] + rest) == IsShortFrame([q] + rest)
    ensures IsTerminated([p] + rest) == IsTerminated([q] + rest)
  {
    hide IsAddr;
    var t, h, n := [p] + rest, [q] + rest, |rest|;
    assert t[1] == rest[0] == h[1] && t[2] == rest[1] == h[2];
    assert t[n - 1] == rest[n - 2] == h[n - 1] && t[n] == rest[n - 1] == h[n];
  }

  lemma ParsesUntrimmed(a: u8, rest: seq<u8>)
    requires IsAddr(a) && rest != [] && !IsPlainAddr(rest[0])
    ensures ParseFrame([a] + rest) == ParseTrimmed([a] + rest)
  {
    assert TrimPrefix([a] + rest) == [a] + rest;
  }

  lemma HighBitOrdinary(p: u8, rest: seq<u8>)
    requires IsPlainAddr(p) && |rest| >= 5 && !IsPlainAddr(rest[0])
    requires VerifyCrc([p] + rest) && IsTerminated([p] + rest) && !IsShortFrame([p] + rest)
    ensures SameReading(ParseFrame([p] + rest), ParseFrame([p | 0x80] + rest))
  {
    var q := p | 0x80;
    HighBitFacts(p);
    HighBitVerifies(p, rest);
    SameShape(p, q, rest);
    InnerOf(p, rest);
    InnerOf(q, rest);
    hide *;
    ParsesAsVerified(p, rest);
    ParsesAsVerified(q, rest);
    VerifiedIgnoresAddress(p, ([p] + rest)[..|rest| - 3], ([q] + rest)[..|rest| - 3], [p] + rest, [q] + rest);
    SameReadingIs(ParseFrame([p] + rest), ParseFrame([q] + rest));
  }

  /** The same event; unknown frames differ at most in the bytes they carry. */
  predicate SameReading(f: Frame, g: Frame) { f == g || (f.Unknown? && g.Unknown?) }

  lemma SameReadingIs(f: Frame, g: Frame)
    ensures SameReading(f, g) <==> f == g || (f.Unknown? && g.Unknown?)
  {}

  /** Before a plain address the byte with bit 7 set is trimmed as an artefact, and the plain
      frame carries nothing that is known. */
  lemma HighBitTrimmed(p: u8, rest: seq<u8>)
    requires IsPlainAddr(p) && |rest| >= 5 && IsPlainAddr(rest[0])
    requires VerifyCrc([p] + rest) && IsTerminated([p] + rest) && !IsShortFrame([p] + rest)
    ensures ParseFrame([p] + rest).Unknown? && ParseFrame([p | 0x80] + rest) == ParseFrame(rest)
  {
    HighBitFacts(p);
    var t, h := [p] + rest, [p | 0x80] + rest;
    InnerOf(p, rest);
    assert t[..|rest| - 3][1] == rest[0] && !IsDataSeq(rest[0]);
    assert h[1..] == rest && h[1] == rest[0];
    assert TrimPrefix(t) == t && TrimPrefix(h) == TrimPrefix(rest);
    hide VerifyCrc; hide IsTerminated; hide IsShortFrame; hide TrimPrefix; hide IsAddr;
  }

  /** Firmware that sets bit 7 of the address but checksums without it is read exactly like
      firmware that does not, for every verified frame, unless the next byte is a plain
      address and a frame of its own starts there. */
  lemma HighBitTransparent(p: u8, rest: seq<u8>)
    requires IsPlainAddr(p) && |rest| >= 5
    requires VerifyCrc([p] + rest) && IsTerminated([p] + rest) && !IsShortFrame([p] + rest)
    ensures SameReading(ParseFrame([p] + rest), ParseFrame([p | 0x80] + rest))
       <==> !IsPlainAddr(rest[0]) || ParseFrame(rest).Unknown?
  {
    hide ParseFrame; hide VerifyCrc; hide IsTerminated; hide IsShortFrame; hide IsPlainAddr;
    if IsPlainAddr(rest[0]) {
      HighBitTrimmed(p, rest);
    } else {
      HighBitOrdinary(p, rest);
    }
  }

  lemma ParsesAsVerified(a: u8, rest: seq<u8>)
    requires IsAddr(a) && |rest| >= 5 && !IsPlainAddr(rest[0])
    requires VerifyCrc([a] + rest) && IsTerminated([a] + rest) && !IsShortFrame([a] + rest)
    ensures ParseFrame([a] + rest) == ParseVerified(a & 0x7F, ([a] + rest)[..|rest| - 3], [a] + rest)
  {
    ParsesUntrimmed(a, rest);
    hide VerifyCrc; hide ParseVerified; hide ParseUnverified; hide ParseFrame; hide IsTerminated; hide IsShortFrame; hide IsAddr;
  }

  /** The payload of a frame behind its address byte. */
  lemma InnerOf(p: u8, rest: seq<u8>)
    requires |rest| >= 5
    ensures var a := ([p] + rest)[..|rest| - 3];
            |a| == |rest| - 3 && a[0] == p && a[1..] == rest[..|rest| - 4]
  {
    var a := ([p] + rest)[..|rest| - 3];
    assert forall k | 0 <= k < |rest| - 4 :: a[1..][k] == a[k + 1] == rest[k];
  }
}
