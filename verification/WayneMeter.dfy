/** From the pump's meter to a reading: the fill frame and its decimal fields. */
module WayneMeter {
  import opened Wire
  import opened Bcd
  import opened WayneCrc
  import opened WayneAccumulator
  import opened WayneParser

  // ── Decimal fields, by way of hexadecimal text ─────────────────────────────

  function Nibbles(bytes: seq<u8>): (d: seq<nat>)
    ensures |d| == 2 * |bytes|
  {
    if bytes == [] then [] else [Tens(bytes[0]), Ones(bytes[0])] + Nibbles(bytes[1..])
  }

  function Decimal(d: seq<nat>): nat {
    if d == [] then 0 else 10 * Decimal(d[..|d| - 1]) + d[|d| - 1]
  }

  /** The text is digits, one `E`, digits: as a float it reads in scientific notation. */
  predicate IsExponent(d: seq<nat>, k: nat) {
    1 <= k < |d| - 1 && d[k] == 14 && forall i | 0 <= i < |d| && i != k :: d[i] <= 9
  }

  /** `Scientific` is mantissa times ten to the exponent, in hundredths of a litre. */
  datatype Volume = Litres(v: real) | Scientific(mantissa: nat, exponent: nat)

  /** Parses the digits as a float of hundredths; what is no number reads as zero. */
  function DecodeVolume(bytes: seq<u8>): Volume {
    var d := Nibbles(bytes);
    if AllDecimal(bytes) then Litres(Number(bytes) as real / 100.0)
    else if exists k | 0 <= k < |d| :: IsExponent(d, k) then
      var k :| 0 <= k < |d| && IsExponent(d, k);
      Scientific(Decimal(d[..k]), Decimal(d[k + 1..]))
    else Litres(0.0)
  }

  /** The same digits as an integer, where an `E` is no number. */
  function DecodeAmount(bytes: seq<u8>): nat {
    if AllDecimal(bytes) then Number(bytes) else 0
  }

  /** Readings come back exactly, up to what eight digits hold. */
  lemma MeterRoundTrip(n: nat)
    requires n < Pow100(4)
    ensures DecodeVolume(Pairs(n, 4)) == Litres(n as real / 100.0) && DecodeAmount(Pairs(n, 4)) == n
  {
    NumberOfPairs(n, 4);
  }

  predicate IsNonZero(v: Volume) {
    match v case Litres(x) => x != 0.0 case Scientific(mantissa, _) => mantissa != 0
  }

  lemma {:induction false} DecimalZero(d: seq<nat>)
    ensures Decimal(d) == 0 <==> forall i | 0 <= i < |d| :: d[i] == 0
    decreases |d|
  {
    if d != [] {
      var front, last := d[..|d| - 1], d[|d| - 1];
      DecimalZero(front);
      assert d == front + [last];
      if forall i | 0 <= i < |front| :: front[i] == 0 {
        assert forall i | 0 <= i < |d| :: d[i] == 0 <==> i < |front| || last == 0;
      }
    }
  }

  /** Where the text around `k` is scientific notation with a mantissa other than zero. */
  ghost predicate IsFalseVolume(d: seq<nat>, k: nat) { IsExponent(d, k) && exists i | 0 <= i < k :: d[i] != 0 }

  /** A field with a nibble above nine is never an amount, and it is a volume other than
      zero exactly when one nibble alone is above nine, is an `E`, is neither first nor
      last, and some digit in front of it is not zero. */
  lemma DamagedFieldIff(bytes: seq<u8>)
    requires !AllDecimal(bytes)
    ensures DecodeAmount(bytes) == 0
    ensures IsNonZero(DecodeVolume(bytes)) <==> exists k | 0 <= k < |Nibbles(bytes)| :: IsFalseVolume(Nibbles(bytes), k)
    ensures forall k | 0 <= k < |Nibbles(bytes)| && IsFalseVolume(Nibbles(bytes), k) ::
              DecodeVolume(bytes) == Scientific(Decimal(Nibbles(bytes)[..k]), Decimal(Nibbles(bytes)[k + 1..]))
  {
    var d := Nibbles(bytes);
    hide Nibbles; hide AllDecimal; hide Number; hide Decimal; hide IsExponent;
    if k :| 0 <= k < |d| && IsExponent(d, k) {
      forall j | 0 <= j < |d| && IsExponent(d, j) ensures j == k { OneExponent(d, j, k); }
      MantissaZero(d, k);
    }
  }

  lemma OneExponent(d: seq<nat>, j: nat, k: nat)
    requires j < |d| && k < |d| && IsExponent(d, j) && IsExponent(d, k)
    ensures j == k
  {
    assert d[k] == 14;
  }

  lemma MantissaZero(d: seq<nat>, k: nat)
    requires k < |d| && IsExponent(d, k)
    ensures Decimal(d[..k]) != 0 <==> IsFalseVolume(d, k)
  {
    hide Decimal;
    DecimalZero(d[..k]);
    assert forall i | 0 <= i < k :: d[..k][i] == d[i];
  }

  /** A damaged nibble can turn a field into scientific notation: these four bytes are no
      amount, yet read as one times ten squared hundredths, exactly one litre. */
  lemma ExponentReadsAsVolume()
    ensures DecodeAmount([0x00, 0x00, 0x01, 0xE2]) == 0
    ensures DecodeVolume([0x00, 0x00, 0x01, 0xE2]) == Scientific(1, 2)
  {
    DigitFacts();
    hide Tens; hide Ones; hide Digits;
    assert !IsDecimal([0x00, 0x00, 0x01, 0xE2][3]);
    NibblesCons(0xE2, []);
    NibblesCons(0x01, [0xE2]);
    NibblesCons(0x00, [0x01, 0xE2]);
    NibblesCons(0x00, [0x00, 0x01, 0xE2]);
    hide Nibbles; hide IsDecimal;
    var d := Nibbles([0x00, 0x00, 0x01, 0xE2]);
    assert d == [0, 0, 0, 0, 0, 1, 14, 2];
    assert IsExponent(d, 6);
    assert d[7..] == [] + [2] && d[..6] == d[..5] + [1];
    LeadingZeros(d[..5]);
    DecimalSnoc(d[..5], 1);
    DecimalSnoc([], 2);
  }

  lemma DigitFacts()
    ensures Tens(0x00) == 0 && Ones(0x00) == 0 && Tens(0x01) == 0 && Ones(0x01) == 1 && Tens(0xE2) == 14 && Ones(0xE2) == 2
    ensures Tens(0x03) == 0 && Ones(0x03) == 3 && Tens(0x04) == 0 && Ones(0x04) == 4 && Tens(0x50) == 5 && Ones(0x50) == 0
  {}

  lemma NibblesCons(b: u8, rest: seq<u8>)
    ensures Nibbles([b] + rest) == [Tens(b), Ones(b)] + Nibbles(rest)
  {
    hide Tens; hide Ones;
    assert ([b] + rest)[1..] == rest;
  }

  lemma DecimalSnoc(d: seq<nat>, x: nat)
    ensures Decimal(d + [x]) == 10 * Decimal(d) + x
  {
    assert (d + [x])[..|d|] == d;
  }

  lemma {:induction false} LeadingZeros(d: seq<nat>)
    requires forall i | 0 <= i < |d| :: d[i] == 0
    ensures Decimal(d) == 0
    decreases |d|
  {
    if d != [] {
      LeadingZeros(d[..|d| - 1]);
    }
  }

  // ── The fill frame ─────────────────────────────────────────────────────────

  /** A pump's report of volume and amount; `tail` carries what else it has to say. */
  function FillPayload(addr: u8, s: u8, volume: nat, amount: nat, tail: seq<u8>): (p: seq<u8>)
    ensures |p| == 12 + |tail|
  {
    [addr, s, 0x02, 0x08] + Pairs(volume, 4) + Pairs(amount, 4) + tail
  }

  lemma PayloadParts(addr: u8, s: u8, volume: nat, amount: nat, tail: seq<u8>)
    ensures var p := FillPayload(addr, s, volume, amount, tail);
            && p[0] == addr && p[1] == s && p[2] == 0x02 && p[3] == 0x08
            && p[4..8] == Pairs(volume, 4) && p[8..12] == Pairs(amount, 4) && p[12..] == tail
  {
    hide Pairs;
  }

  /** Built frames pass their own CRC check. */
  lemma BuiltVerifies(data: seq<u8>)
    ensures VerifyCrc(BuildFrame(data)) && IsTerminated(BuildFrame(data))
    ensures BuildFrame(data)[..|BuildFrame(data)| - 4] == data
  {
    hide Low; hide High; hide Crc16;
    assert BuildFrame(data)[..|data|] == data;
  }

  lemma ParsesPlain(t: seq<u8>)
    requires |t| >= 3 && IsPlainAddr(t[0]) && !IsShortFrame(t) && IsTerminated(t) && VerifyCrc(t)
    ensures ParseFrame(t) == ParseVerified(t[0], t[..|t| - 4], t)
  {
    assert t[0] & 0x7F == t[0] && !IsHighAddr(t[0]);
    hide VerifyCrc; hide ParseVerified; hide ParseUnverified; hide IsTerminated; hide IsShortFrame;
  }

  /** What the pump metered is what the service reads: the parsed frame carries exactly
      the volume and amount sent, and completes the sale only on a done tail. */
  lemma FillIsRead(addr: u8, s: u8, volume: nat, amount: nat, tail: seq<u8>)
    requires IsPlainAddr(addr) && IsDataSeq(s) && volume < Pow100(4) && amount < Pow100(4)
    ensures var f := ParseFrame(BuildFrame(FillPayload(addr, s, volume, amount, tail)));
            && f.Data? && f.crcOk && f.addr == addr && f.seq_ == s
            && DecodeVolume(f.volume) == Litres(volume as real / 100.0) && DecodeAmount(f.amount) == amount
            && f.saleComplete == HasDoneTail(tail)
            && HoseIs(f, ScanHose(FillPayload(addr, s, volume, amount, tail)))
  {
    var p := FillPayload(addr, s, volume, amount, tail);
    PayloadParts(addr, s, volume, amount, tail);
    MeterRoundTrip(volume);
    MeterRoundTrip(amount);
    BuiltVerifies(p);
    hide FillPayload; hide DecodeVolume; hide DecodeAmount; hide Pairs; hide HasDoneTail; hide ScanHose; hide VerifyCrc; hide IsTerminated; hide Pow100;
    var t := BuildFrame(p);
    assert t[0] == addr && t[1] == s;
    assert !IsShortFrame(t);
    ParsesPlain(t);
    hide BuildFrame; hide IsShortFrame; hide ParseFrame;
    FillVerified(p, t, tail);
  }

  predicate HoseIs(f: Frame, hose: Option<(u8, u8)>)
    requires f.Data?
  {
    if hose.Some? then f.hoseProduct == Some(hose.value.0) && f.hoseCode == Some(hose.value.1)
    else f.hoseProduct == None && f.hoseCode == None
  }

  lemma FillVerified(p: seq<u8>, t: seq<u8>, tail: seq<u8>)
    requires |p| == 12 + |tail| && IsDataSeq(p[1]) && p[2] == 0x02 && p[3] == 0x08 && p[12..] == tail
    ensures var f := ParseVerified(p[0], p, t);
            && f.Data? && f.crcOk && f.addr == p[0] && f.seq_ == p[1] && f.volume == p[4..8] && f.amount == p[8..12]
            && f.saleComplete == HasDoneTail(tail) && HoseIs(f, ScanHose(p))
  {
    hide HasDoneTail; hide ScanHose;
  }

  lemma FillUnverified(p: seq<u8>, t: seq<u8>, tail: seq<u8>)
    requires |p| == 12 + |tail| && IsDataSeq(p[1]) && p[2] == 0x02 && p[3] == 0x08 && p[12..] == tail
    ensures ParseUnverified(p[0], p, t).Data?
  {
    hide HasDoneTail; hide ScanHose;
  }

  /** A verified frame whose payload is a fill report of its own behind the address: with bit
      7 set on the address it reads as that report, without it as nothing known. */
  lemma HighBitReadsOtherFrame(p: u8, addr: u8, s: u8, volume: nat, amount: nat, tail: seq<u8>)
    requires IsPlainAddr(p) && IsPlainAddr(addr) && IsDataSeq(s)
    ensures var frame := BuildFrame([p] + FillPayload(addr, s, volume, amount, tail));
            VerifyCrc(frame) && ParseFrame(frame).Unknown? && ParseFrame([p | 0x80] + frame[1..]).Data?
  {
    var payload := FillPayload(addr, s, volume, amount, tail);
    PayloadParts(addr, s, volume, amount, tail);
    BuiltVerifies([p] + payload);
    var frame := BuildFrame([p] + payload);
    var rest := frame[1..];
    assert frame[0] == p && frame[1] == addr && frame == [p] + rest;
    assert !IsShortFrame(frame);
    assert rest[..|rest| - 4] == payload && IsTerminated(rest) && rest[0] == addr && rest[1] == s;
    hide FillPayload; hide BuildFrame; hide VerifyCrc; hide IsTerminated; hide ParseFrame;
    HighBitTrimmed(p, rest);
    RestIsFill(payload, rest, tail);
  }

  lemma RestIsFill(payload: seq<u8>, rest: seq<u8>, tail: seq<u8>)
    requires |payload| == 12 + |tail| && IsPlainAddr(payload[0]) && IsDataSeq(payload[1])
    requires payload[2] == 0x02 && payload[3] == 0x08 && payload[12..] == tail
    requires |rest| == |payload| + 4 && rest[..|rest| - 4] == payload && IsTerminated(rest)
    ensures ParseFrame(rest).Data?
  {
    assert rest[0] == payload[0] && rest[1] == payload[1];
    assert rest[0] & 0x7F == rest[0] && !IsHighAddr(rest[0]);
    hide VerifyCrc; hide ParseVerified; hide ParseUnverified; hide IsTerminated;
    FillVerified(payload, rest, tail);
    FillUnverified(payload, rest, tail);
  }

  lemma {:induction false} LastHoseShift(p: seq<u8>, tail: seq<u8>, n: nat)
    requires |p| == 12 + |tail| && p[12..] == tail && n + 5 <= |tail|
    ensures LastHose(p, 12 + n) == if LastHose(tail, n).Some? then LastHose(tail, n) else LastHose(p, 12)
    decreases n
  {
    if n > 0 {
      LastHoseShift(p, tail, n - 1);
      assert forall j | 12 <= j < |p| :: p[j] == tail[j - 12];
    }
  }

  lemma {:induction false} NoHoseBelow(p: seq<u8>, n: nat)
    requires n == 0 || n + 5 <= |p|
    ensures LastHose(p, n).None? <==> forall i | 0 <= i < n :: HoseAt(p, i).None?
    decreases n
  {
    hide HoseAt;
    if n > 0 {
      NoHoseBelow(p, n - 1);
    }
  }

  /** The tail alone decides which hose is reported exactly when it names one or no run of
      the digits looks like a hose status. */
  lemma HoseFromTailIff(addr: u8, s: u8, volume: nat, amount: nat, tail: seq<u8>)
    requires IsPlainAddr(addr) && IsDataSeq(s)
    ensures var p := FillPayload(addr, s, volume, amount, tail);
            ScanHose(p) == ScanHose(tail) <==>
              ScanHose(tail).Some? || forall i | 4 <= i < 12 && i + 6 <= |p| :: HoseAt(p, i).None?
  {
    var p := FillPayload(addr, s, volume, amount, tail);
    PayloadParts(addr, s, volume, amount, tail);
    assert LastHose(p, 0) == None;
    hide FillPayload; hide Pairs; hide LastHose;
    assert forall i | 0 <= i < 4 && i + 6 <= |p| :: HoseAt(p, i).None?;
    hide HoseAt;
    var n := if |p| - 5 < 12 then |p| - 5 else 12;
    NoHoseBelow(p, n);
    if |tail| >= 6 {
      LastHoseShift(p, tail, |tail| - 5);
    } else if |tail| == 5 {
      LastHoseShift(p, tail, 0);
    }
  }

  /** Digits can imitate a hose status: a finished sale of 3 040 150 reports hose 1, which
      no byte of the pump said. */
  lemma AmountReadsAsHose(addr: u8)
    requires IsPlainAddr(addr)
    ensures var f := ParseFrame(BuildFrame(FillPayload(addr, 0x31, 0, 3040150, [0x01, 0x01, 0x05])));
            f.Data? && f.hoseProduct == Some(0x50) && f.hoseCode == Some(0x01)
  {
    var tail := [0x01, 0x01, 0x05];
    ImitatedHose(addr, tail);
    hide ParseFrame; hide BuildFrame; hide FillPayload; hide DecodeVolume; hide DecodeAmount; hide HasDoneTail; hide ScanHose;
    FillIsRead(addr, 0x31, 0, 3040150, tail);
  }

  lemma ImitatedHose(addr: u8, tail: seq<u8>)
    requires tail == [0x01, 0x01, 0x05]
    ensures ScanHose(FillPayload(addr, 0x31, 0, 3040150, tail)) == Some((0x50, 0x01))
    ensures 3040150 < Pow100(4)
  {
    AmountDigits();
    PayloadParts(addr, 0x31, 0, 3040150, tail);
    var p := FillPayload(addr, 0x31, 0, 3040150, tail);
    hide FillPayload; hide Pairs; hide Pow100;
    assert p[8] == p[8..12][0] && p[9] == p[8..12][1] && p[10] == p[8..12][2] && p[11] == p[8..12][3];
    assert p[12] == p[12..][0] && p[13] == p[12..][1] && p[14] == p[12..][2];
    assert HoseAt(p, 9) == None && HoseAt(p, 8) == Some((p[11], p[13]));
    assert LastHose(p, 10) == LastHose(p, 9) && LastHose(p, 9) == HoseAt(p, 8);
  }

  lemma PairsSnoc(v: nat, x: nat, n: nat)
    requires x < 100
    ensures Pairs(100 * v + x, n + 1) == Pairs(v, n) + [BcdByte(x)]
  {
    hide BcdByte;
    assert (100 * v + x) / 100 == v && (100 * v + x) % 100 == x;
  }

  lemma AmountFacts()
    ensures BcdByte(3) == 0x03 && BcdByte(4) == 0x04 && BcdByte(1) == 0x01 && BcdByte(50) == 0x50
    ensures Pow100(4) == 100000000 && Pairs(0, 0) == []
  {}

  lemma AmountDigits()
    ensures Pairs(3040150, 4) == [0x03, 0x04, 0x01, 0x50] && 3040150 < Pow100(4)
  {
    hide *;
    AmountFacts();
    PairsSnoc(0, 3, 0);
    PairsSnoc(3, 4, 1);
    PairsSnoc(304, 1, 2);
    PairsSnoc(30401, 50, 3);
  }
}
