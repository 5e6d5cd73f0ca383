/** BlueSky frames: a nibble length, a 7-bit XOR and decimal numbers. */
module BlueSky {
  import opened Bcd
  import opened Wire

  const PRECODE: u8 := 0xF5
  const LEN_HIGH: u8 := 0xA0
  const WRITE_PRICE: u8 := 0xB2
  const DOSE_BY_AMOUNT: u8 := 0xB5
  const DOSE_BY_VOLUME: u8 := 0xB9
  const MAX_DATA := 13
  const MAX_PRICE := 99_999
  const MAX_DOSE := 99_999_999

  datatype Response = General(cmd: u8) | Data(cmd: u8, data: seq<u8>)

  function DataOf(r: Response): seq<u8> { if r.Data? then r.data else [] }

  function Xor(a: u8, b: u8): u8 { a ^ b }

  function Low7(b: u8): u8 { b & 0x7F }

  function XorAll(bytes: seq<u8>): u8 {
    if bytes == [] then 0 else Xor(XorAll(bytes[..|bytes| - 1]), bytes[|bytes| - 1])
  }

  /** The check byte ignores bit 7 of everything it covers. */
  function Crc(bytes: seq<u8>): u8 { Low7(XorAll(bytes)) }

  function LenByte(n: nat): u8
    requires n < 16
  {
    LEN_HIGH | Nibble(n)
  }

  function Length(b: u8): nat { NibbleValue(LowNibble(b)) }

  predicate IsLenByte(b: u8) { b & 0xF0 == LEN_HIGH }

  function Body(addr: u8, cmd: u8, data: seq<u8>): (f: seq<u8>)
    requires |data| <= MAX_DATA
    ensures |f| == |data| + 4
  {
    [PRECODE, addr, LenByte(|data| + 2)] + data + [cmd]
  }

  function BuildRequest(addr: u8, cmd: u8, data: seq<u8>): Option<seq<u8>> {
    if |data| > MAX_DATA then None
    else Some(Body(addr, cmd, data) + [Crc(Body(addr, cmd, data))])
  }

  function DecodeResponse(addr: u8, frame: seq<u8>): Option<Response> {
    var n := |frame|;
    if n < 5 || frame[0] != PRECODE || frame[1] != addr || !IsLenByte(frame[2]) then None
    else if n != Length(frame[2]) + 3 || Length(frame[2]) < 2 then None
    else if Crc(frame[..n - 1]) != frame[n - 1] then None
    else if n == 5 then Some(General(frame[n - 2]))
    else Some(Data(frame[n - 2], frame[3..n - 2]))
  }

  /** The first whole frame in the buffer at or after `start`, and where it ends. */
  function TakeFrom(buf: seq<u8>, start: nat): Option<(seq<u8>, nat)>
    requires start <= |buf|
    decreases |buf| - start
  {
    if start == |buf| then None
    else if buf[start] != PRECODE then TakeFrom(buf, start + 1)
    else if |buf| - start < 5 then None
    else if !IsLenByte(buf[start + 2]) || Length(buf[start + 2]) < 2 then TakeFrom(buf, start + 1)
    else
      var total := Length(buf[start + 2]) + 3;
      if |buf| - start < total then None else Some((buf[start..start + total], start + total))
  }

  method TakeFrame(buf: seq<u8>) returns (r: Option<(seq<u8>, nat)>)
    ensures r == TakeFrom(buf, 0)
  {
    hide IsLenByte; hide Length;
    var start := 0;
    while start < |buf|
      invariant 0 <= start <= |buf| && TakeFrom(buf, start) == TakeFrom(buf, 0)
    {
      if buf[start] == PRECODE {
        if |buf| - start < 5 {
          return None;
        }
        if IsLenByte(buf[start + 2]) && Length(buf[start + 2]) >= 2 {
          var total := Length(buf[start + 2]) + 3;
          if |buf| - start < total {
            return None;
          }
          return Some((buf[start..start + total], start + total));
        }
      }
      start := start + 1;
    }
    return None;
  }

  lemma XorBit(a: u8, b: u8, mask: u8)
    requires IsOneBit(mask)
    ensures Has(Xor(a, b), mask) <==> Has(a, mask) != Has(b, mask)
  {}

  lemma {:induction false} XorAllIsParity(bytes: seq<u8>, mask: u8)
    requires IsOneBit(mask)
    ensures Has(XorAll(bytes), mask) <==> CountWith(bytes, mask) % 2 == 1
    decreases |bytes|
  {
    if bytes != [] {
      var start, last := bytes[..|bytes| - 1], bytes[|bytes| - 1];
      XorAllIsParity(start, mask);
      XorBit(XorAll(start), last, mask);
      hide Xor; hide IsOneBit; hide Has;
    }
  }

  /** Each of the low seven bits of the check byte makes the count of that bit over the
      bytes it covers even; its top bit is always clear. */
  lemma CheckByteIsParity(bytes: seq<u8>, mask: u8)
    requires IsOneBit(mask)
    ensures Has(Crc(bytes), mask) <==> mask != 0x80 && CountWith(bytes, mask) % 2 == 1
  {
    XorAllIsParity(bytes, mask);
    var w := XorAll(bytes);
    hide XorAll; hide CountWith;
    assert Has(Low7(w), mask) <==> mask != 0x80 && Has(w, mask);
  }

  // ── Built and decoded frames ───────────────────────────────────────────────

  lemma LenByteBits(x: u8)
    requires x & 0xF0 == 0
    ensures (LEN_HIGH | x) & 0xF0 == LEN_HIGH && LowNibble(LEN_HIGH | x) == x
  {}

  lemma LenByteSplit(b: u8)
    requires IsLenByte(b)
    ensures LEN_HIGH | LowNibble(b) == b && LowNibble(b) & 0xF0 == 0
  {}

  lemma LenRoundTrip(n: nat)
    requires n < 16
    ensures IsLenByte(LenByte(n)) && Length(LenByte(n)) == n
  {
    hide LowNibble; hide NibbleValue;
    NibbleRoundTrip(n);
    var x := Nibble(n);
    hide Nibble;
    LenByteBits(x);
  }

  lemma LenByteOf(b: u8)
    requires IsLenByte(b)
    ensures Length(b) < 16 && LenByte(Length(b)) == b
  {
    LenByteSplit(b);
    hide LowNibble; hide IsLenByte;
    NibbleOfValue(LowNibble(b));
    hide Nibble; hide NibbleValue;
  }

  function Reply(cmd: u8, data: seq<u8>): Response { if data == [] then General(cmd) else Data(cmd, data) }

  lemma BuiltDecodes(addr: u8, cmd: u8, data: seq<u8>)
    requires |data| <= MAX_DATA
    ensures DecodeResponse(addr, BuildRequest(addr, cmd, data).value) == Some(Reply(cmd, data))
  {
    var body := Body(addr, cmd, data);
    LenRoundTrip(|data| + 2);
    BodyParts(addr, cmd, data, Crc(body));
    hide LenByte; hide IsLenByte; hide Length; hide Crc; hide Body;
  }

  lemma DecodedIsBuilt(addr: u8, frame: seq<u8>)
    requires DecodeResponse(addr, frame).Some?
    ensures var r := DecodeResponse(addr, frame).value;
            BuildRequest(addr, r.cmd, DataOf(r)) == Some(frame) && r == Reply(r.cmd, DataOf(r))
  {
    LenByteOf(frame[2]);
    hide LenByte; hide IsLenByte; hide Length; hide Crc;
    FrameParts(frame);
    hide Body;
    assert |frame| == 5 ==> frame[3..|frame| - 2] == [];
  }

  /** The decoder accepts exactly the frames the builder makes for that address, and
      gives back their command and data. */
  lemma DecodeIffBuilt(addr: u8, frame: seq<u8>, cmd: u8, data: seq<u8>)
    ensures DecodeResponse(addr, frame) == Some(Reply(cmd, data)) <==> BuildRequest(addr, cmd, data) == Some(frame)
  {
    if |data| <= MAX_DATA {
      BuiltDecodes(addr, cmd, data);
    }
    if DecodeResponse(addr, frame).Some? {
      DecodedIsBuilt(addr, frame);
    }
    hide DecodeResponse; hide Body; hide Crc;
  }

  lemma BodyParts(addr: u8, cmd: u8, data: seq<u8>, c: u8)
    requires |data| <= MAX_DATA
    ensures var f := Body(addr, cmd, data) + [c]; var n := |f|;
            && f[..n - 1] == Body(addr, cmd, data) && f[0] == PRECODE && f[1] == addr && f[2] == LenByte(|data| + 2)
            && f[n - 2] == cmd && f[3..n - 2] == data && f[n - 1] == c
  {
    hide LenByte;
  }

  lemma FrameParts(frame: seq<u8>)
    requires 5 <= |frame| <= 18 && LenByte(|frame| - 3) == frame[2] && frame[0] == PRECODE
    ensures var n := |frame|; var body := Body(frame[1], frame[n - 2], frame[3..n - 2]);
            frame == body + [frame[n - 1]] && frame[..n - 1] == body
  {
    hide LenByte;
  }

  // ── Out of a noisy stream ──────────────────────────────────────────────────

  lemma {:induction false} TakeAfterNoise(noise: seq<u8>, addr: u8, cmd: u8, data: seq<u8>, rest: seq<u8>, i: nat)
    requires |data| <= MAX_DATA && PRECODE !in noise && i <= |noise|
    ensures var f := BuildRequest(addr, cmd, data).value;
            TakeFrom(noise + f + rest, i) == Some((f, |noise| + |f|))
    decreases |noise| - i
  {
    var body := Body(addr, cmd, data);
    var f := BuildRequest(addr, cmd, data).value;
    var buf := noise + f + rest;
    if i < |noise| {
      TakeAfterNoise(noise, addr, cmd, data, rest, i + 1);
      hide BuildRequest;
      assert buf[i] == noise[i];
    } else {
      LenRoundTrip(|data| + 2);
      BodyParts(addr, cmd, data, Crc(body));
      hide BuildRequest; hide LenByte; hide IsLenByte; hide Length;
      assert buf[i] == f[0] && buf[i + 2] == f[2] && buf[i..i + |f|] == f;
    }
  }

  // ── Corruption ─────────────────────────────────────────────────────────────

  lemma XorUpdate(acc: u8, a: u8, b: u8, c: u8)
    ensures Xor(Xor(acc, Xor(a, b)), c) == Xor(Xor(acc, c), Xor(a, b))
  {}

  lemma XorSwap(acc: u8, a: u8, b: u8)
    ensures Xor(acc, b) == Xor(Xor(acc, a), Xor(a, b))
  {}

  lemma {:induction false} XorAllUpdate(bytes: seq<u8>, k: nat, b: u8)
    requires k < |bytes|
    ensures XorAll(bytes[k := b]) == Xor(XorAll(bytes), Xor(bytes[k], b))
    decreases |bytes|
  {
    var last := |bytes| - 1;
    var start := bytes[..last];
    if k == last {
      assert bytes[k := b][..last] == start;
      XorSwap(XorAll(start), bytes[k], b);
      hide Xor;
    } else {
      XorAllUpdate(start, k, b);
      XorUpdate(XorAll(start), bytes[k], b, bytes[last]);
      hide Xor;
      assert bytes[k := b][..last] == start[k := b];
    }
  }

  function FlipTop(b: u8): u8 { b ^ 0x80 }

  lemma Bit7Only(w: u8, a: u8, b: u8)
    requires a != b
    ensures Low7(Xor(w, Xor(a, b))) == Low7(w) <==> b == FlipTop(a)
  {}

  /** A body whose first bytes a decoder for this address accepts. */
  predicate Headed(addr: u8, body: seq<u8>) {
    && |body| >= 4 && body[0] == PRECODE && body[1] == addr && IsLenByte(body[2])
    && Length(body[2]) >= 2 && |body| == Length(body[2]) + 2
  }

  lemma CrcDecides(addr: u8, body: seq<u8>, c: u8)
    requires Headed(addr, body)
    ensures DecodeResponse(addr, body + [c]).Some? <==> Crc(body) == c
  {
    hide IsLenByte; hide Length; hide Crc;
    assert (body + [c])[..|body|] == body;
  }

  lemma InnerByte(addr: u8, body: seq<u8>, k: nat, b: u8)
    requires Headed(addr, body) && 3 <= k < |body| && b != body[k]
    ensures DecodeResponse(addr, body[k := b] + [Crc(body)]).Some? <==> b == FlipTop(body[k])
  {
    XorAllUpdate(body, k, b);
    hide XorAll; hide Low7; hide Xor; hide DecodeResponse; hide IsLenByte; hide Length;
    Bit7Only(XorAll(body), body[k], b);
    hide FlipTop;
    CrcDecides(addr, body[k := b], Crc(body));
  }

  lemma HeaderByte(addr: u8, f: seq<u8>, k: nat, b: u8)
    requires |f| >= 5 && Headed(addr, f[..|f| - 1]) && k < 3 && b != f[k]
    ensures DecodeResponse(addr, f[k := b]).None?
  {
    hide IsLenByte; hide Length; hide Crc;
    if k == 2 {
      WrongLength(addr, f[k := b], f[2]);
      hide DecodeResponse;
    }
  }

  lemma BodyHeaded(addr: u8, cmd: u8, data: seq<u8>)
    requires |data| <= MAX_DATA
    ensures Headed(addr, Body(addr, cmd, data))
    ensures BuildRequest(addr, cmd, data) == Some(Body(addr, cmd, data) + [Crc(Body(addr, cmd, data))])
  {
    LenRoundTrip(|data| + 2);
    BodyParts(addr, cmd, data, Crc(Body(addr, cmd, data)));
    hide LenByte; hide IsLenByte; hide Length; hide Crc;
  }

  /** One byte of a frame replaced by another goes unnoticed exactly when it is a data
      byte or the command and only its top bit is flipped. */
  lemma SingleByteCorruption(addr: u8, cmd: u8, data: seq<u8>, k: nat, b: u8)
    requires |data| <= MAX_DATA && k < |data| + 5 && b != BuildRequest(addr, cmd, data).value[k]
    ensures var f := BuildRequest(addr, cmd, data).value;
            DecodeResponse(addr, f[k := b]).Some? <==> 3 <= k < |f| - 1 && b == FlipTop(f[k])
  {
    BodyHeaded(addr, cmd, data);
    hide Body; hide Headed; hide Crc; hide DecodeResponse; hide FlipTop; hide BuildRequest; hide IsLenByte; hide Length;
    var body := Body(addr, cmd, data);
    var f := body + [Crc(body)];
    if k < 3 {
      HeaderByte(addr, f, k, b);
    } else if k < |body| {
      assert f[k := b] == body[k := b] + [Crc(body)];
      InnerByte(addr, body, k, b);
    } else {
      assert f[k := b] == body + [b];
      CrcDecides(addr, body, b);
    }
  }

  /** Another length byte never matches the length of the frame. */
  lemma WrongLength(addr: u8, g: seq<u8>, right: u8)
    requires |g| >= 5 && IsLenByte(right) && Length(right) + 3 == |g| && g[2] != right
    ensures DecodeResponse(addr, g).None?
  {
    LenByteOf(right);
    if IsLenByte(g[2]) {
      LenByteOf(g[2]);
    }
    hide LenByte; hide IsLenByte; hide Length; hide Crc;
  }

  // ── Prices and doses ───────────────────────────────────────────────────────

  /** A number in a field of `width` digit pairs. */
  function Command(addr: u8, cmd: u8, value: nat, max: nat, width: nat): Option<seq<u8>> {
    if value > max || value >= Pow100(width) then None else BuildRequest(addr, cmd, Pairs(value, width))
  }

  function WritePrice(addr: u8, price: nat): Option<seq<u8>> { Command(addr, WRITE_PRICE, price, MAX_PRICE, 3) }

  function DoseByAmount(addr: u8, amount: nat): Option<seq<u8>> { Command(addr, DOSE_BY_AMOUNT, amount, MAX_DOSE, 4) }

  function DoseByVolume(addr: u8, volume: nat): Option<seq<u8>> { Command(addr, DOSE_BY_VOLUME, volume, MAX_DOSE, 4) }

  function ParseNumber(data: seq<u8>, width: nat): Option<nat> {
    if |data| != width then None else Decoded(data)
  }

  function ParsePrice(data: seq<u8>): Option<nat> { ParseNumber(data, 3) }

  /** Volume and amount, four bytes each. */
  function ParseFill(data: seq<u8>): Option<(nat, nat)> {
    if |data| != 8 then None
    else
      var volume, amount := Decoded(data[..4]), Decoded(data[4..]);
      if volume.None? || amount.None? then None else Some((volume.value, amount.value))
  }

  lemma NumberRecovered(noise: seq<u8>, addr: u8, cmd: u8, value: nat, max: nat, width: nat, rest: seq<u8>)
    requires PRECODE !in noise && value <= max < Pow100(width) && value < U64 && 1 <= width <= 6
    ensures var f := Command(addr, cmd, value, max, width);
            && f.Some?
            && TakeFrom(noise + f.value + rest, 0) == Some((f.value, |noise| + |f.value|))
            && DecodeResponse(addr, f.value) == Some(Data(cmd, Pairs(value, width)))
            && ParseNumber(Pairs(value, width), width) == Some(value)
  {
    var data := Pairs(value, width);
    TakeAfterNoise(noise, addr, cmd, data, rest, 0);
    BuiltDecodes(addr, cmd, data);
    BcdBijection(value, data);
    hide TakeFrom; hide DecodeResponse; hide BuildRequest; hide Pairs; hide Decoded;
  }

  /** A price is sent exactly when it is at most 99999, and after any noise without a
      precode the other side recovers exactly that price. */
  lemma PriceRecovered(noise: seq<u8>, addr: u8, price: nat, rest: seq<u8>)
    requires PRECODE !in noise
    ensures WritePrice(addr, price).Some? <==> price <= 99_999
    ensures price <= 99_999 ==>
              var f := WritePrice(addr, price).value;
              && TakeFrom(noise + f + rest, 0) == Some((f, |noise| + |f|))
              && var r := DecodeResponse(addr, f); r.Some? && r.value.cmd == WRITE_PRICE && ParsePrice(DataOf(r.value)) == Some(price)
  {
    assert Pow100(3) == 1_000_000;
    if price <= 99_999 {
      NumberRecovered(noise, addr, WRITE_PRICE, price, MAX_PRICE, 3, rest);
    }
    hide TakeFrom; hide DecodeResponse; hide BuildRequest; hide Pairs; hide Decoded; hide Pow100;
  }

  /** The same for doses, up to what eight digits hold. */
  lemma DosesRecovered(noise: seq<u8>, addr: u8, dose: nat, rest: seq<u8>)
    requires PRECODE !in noise
    ensures DoseByAmount(addr, dose).Some? <==> dose <= 99_999_999
    ensures DoseByVolume(addr, dose).Some? <==> dose <= 99_999_999
    ensures dose <= 99_999_999 ==>
              var f, g := DoseByAmount(addr, dose).value, DoseByVolume(addr, dose).value;
              && TakeFrom(noise + f + rest, 0) == Some((f, |noise| + |f|))
              && TakeFrom(noise + g + rest, 0) == Some((g, |noise| + |g|))
              && var r, q := DecodeResponse(addr, f), DecodeResponse(addr, g);
                 r.Some? && r.value.cmd == DOSE_BY_AMOUNT && ParseNumber(DataOf(r.value), 4) == Some(dose)
                 && q.Some? && q.value.cmd == DOSE_BY_VOLUME && ParseNumber(DataOf(q.value), 4) == Some(dose)
  {
    assert Pow100(4) == 100_000_000;
    if dose <= 99_999_999 {
      NumberRecovered(noise, addr, DOSE_BY_AMOUNT, dose, MAX_DOSE, 4, rest);
      NumberRecovered(noise, addr, DOSE_BY_VOLUME, dose, MAX_DOSE, 4, rest);
    }
    hide TakeFrom; hide DecodeResponse; hide BuildRequest; hide Pairs; hide Decoded; hide Pow100;
  }

  /** A fill report is read exactly when it is the two numbers' digits, so no two
      different fills share a report. */
  lemma FillIsExact(data: seq<u8>, volume: nat, amount: nat)
    requires volume < U64 && amount < U64
    ensures ParseFill(data) == Some((volume, amount)) <==>
              volume < Pow100(4) && amount < Pow100(4) && data == Pairs(volume, 4) + Pairs(amount, 4)
  {
    if |data| == 8 {
      BcdBijection(volume, data[..4]);
      BcdBijection(amount, data[4..]);
    }
    var both := Pairs(volume, 4) + Pairs(amount, 4);
    assert both[..4] == Pairs(volume, 4) && both[4..] == Pairs(amount, 4);
    hide Pairs; hide Pow100; hide AllDecimal; hide Number;
  }
}
