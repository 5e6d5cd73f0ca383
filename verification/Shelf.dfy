/** SHELF V2.2 frames: start byte, address, index, total length, command, data
    and CRC-CCITT, low byte first. */
module Shelf {
  import opened Wire
  import opened Crc

  const START_BYTE: u8 := 0x2D
  const MIN_FRAME_LEN := 7

  datatype Response = Response(address: u8, index: u8, command: u8, data: seq<u8>)

  /** The bits in which two bytes differ. */
  function Flips(a: u8, b: u8): u8 { a ^ b }

  function CrcCcitt(bytes: seq<u8>): u16 { CrcFrom(Ccitt, 0, bytes) }

  /** The inner loop's branch is one clock of the register. */
  lemma ClockBranch(c: u16)
    ensures Clock(Ccitt, c) == if c & 0x8000 != 0 then Xor(Shl(c), 0x1021) else Shl(c)
  {
    XorSelf(Shl(c));
  }

  method ComputeCrc(bytes: seq<u8>) returns (crc: u16)
    ensures crc == CrcCcitt(bytes)
  {
    hide Xor; hide Clock; hide Load; hide Shl;
    crc := 0;
    var i := 0;
    while i < |bytes|
      invariant 0 <= i <= |bytes|
      invariant CrcFrom(Ccitt, crc, bytes[i..]) == CrcCcitt(bytes)
    {
      ghost var before := crc;
      crc := Xor(crc, Load(Ccitt, bytes[i]));
      var j := 0;
      while j < 8
        invariant 0 <= j <= 8
        invariant Clocks(Ccitt, 8 - j, crc) == ByteStep(Ccitt, before, bytes[i])
      {
        ClockBranch(crc);
        crc := if crc & 0x8000 != 0 then Xor(Shl(crc), 0x1021) else Shl(crc);
        j := j + 1;
      }
      i := i + 1;
    }
  }

  function WithCrc(body: seq<u8>): seq<u8> {
    body + [Low(CrcCcitt(body)), High(CrcCcitt(body))]
  }

  function Body(addr: u8, index: u8, command: u8, data: seq<u8>): seq<u8>
    requires |data| <= 248
  {
    [START_BYTE, addr, index, Byte(7 + |data|), command] + data
  }

  /** `None` when the total length does not fit its byte. */
  function BuildRequest(addr: u8, index: u8, command: u8, data: seq<u8>): Option<seq<u8>> {
    if 7 + |data| > 255 then None else Some(WithCrc(Body(addr, index, command, data)))
  }

  function DecodeResponse(addr: u8, expectedIndex: u8, frame: seq<u8>): Option<Response> {
    if |frame| < MIN_FRAME_LEN || frame[0] != START_BYTE || frame[1] != addr
       || frame[2] != expectedIndex || Value(frame[3]) != |frame| then None
    else
      var end := |frame| - 2;
      if frame[end] != Low(CrcCcitt(frame[..end])) || frame[end + 1] != High(CrcCcitt(frame[..end])) then None
      else Some(Response(addr, expectedIndex, frame[4], frame[5..end]))
  }

  /** First complete frame of `buf` from `start` on, and the bytes consumed with it. */
  function TakeFrom(buf: seq<u8>, start: nat): Option<(seq<u8>, nat)>
    decreases |buf| - start
  {
    if start >= |buf| then None
    else if buf[start] != START_BYTE then TakeFrom(buf, start + 1)
    else if |buf| - start < 4 then None
    else
      var length := Value(buf[start + 3]);
      if length < MIN_FRAME_LEN then TakeFrom(buf, start + 1)
      else if |buf| - start < length then None
      else Some((buf[start..start + length], start + length))
  }

  /** The decoder accepts exactly the frames the builder makes, and reads back
      their fields. */
  lemma DecodeIffBuilt(addr: u8, index: u8, frame: seq<u8>, r: Response)
    ensures DecodeResponse(addr, index, frame) == Some(r)
       <==> r.address == addr && r.index == index
            && BuildRequest(addr, index, r.command, r.data) == Some(frame)
  {
    hide CrcFrom; hide Low; hide High; hide Value; hide Byte;
    if DecodeResponse(addr, index, frame) == Some(r) {
      var end := |frame| - 2;
      assert |r.data| == |frame| - 7;
      ByteOfValue(frame[3]);
      assert frame[..end] == Body(addr, index, r.command, r.data);
      assert frame == frame[..end] + [frame[end], frame[end + 1]];
    }
    if BuildRequest(addr, index, r.command, r.data) == Some(frame) {
      ValueOfByte(7 + |r.data|);
      assert frame[..|frame| - 2] == Body(addr, index, r.command, r.data);
      assert frame[5..|frame| - 2] == r.data;
    }
  }

  /** A built frame behind noise without a start byte is cut out whole, whatever follows. */
  lemma {:induction false} TakeAfterNoise(noise: seq<u8>, addr: u8, index: u8, command: u8, data: seq<u8>, rest: seq<u8>, i: nat)
    requires START_BYTE !in noise && |data| <= 248 && i <= |noise|
    ensures var f := BuildRequest(addr, index, command, data).value;
            TakeFrom(noise + f + rest, i) == Some((f, |noise| + |f|))
    decreases |noise| - i
  {
    hide CrcFrom; hide Low; hide High; hide Value; hide Byte;
    var f := BuildRequest(addr, index, command, data).value;
    var buf := noise + f + rest;
    if i < |noise| {
      assert buf[i] == noise[i];
      TakeAfterNoise(noise, addr, index, command, data, rest, i + 1);
    } else {
      ValueOfByte(7 + |data|);
      assert buf[i] == f[0] && buf[i + 3] == f[3];
      assert buf[i..i + |f|] == f;
    }
  }

  // ── Corruption ─────────────────────────────────────────────────────────────

  /** How a change of the last message byte by `d` moves the checksum. */
  function Effect(d: u8): u16 { Clocks(Ccitt, 8, Load(Ccitt, d)) }

  lemma EffectXor(a: u8, b: u8)
    ensures Effect(a ^ b) == Xor(Effect(a), Effect(b))
  {
    assert Load(Ccitt, a ^ b) == Xor(Load(Ccitt, a), Load(Ccitt, b)) by { LoadXor(a, b); }
    hide Xor; hide Clocks; hide Load;
    ClocksLinear(Ccitt, 8, Load(Ccitt, a), Load(Ccitt, b));
  }

  lemma LoadXor(a: u8, b: u8)
    ensures Load(Ccitt, a ^ b) == Xor(Load(Ccitt, a), Load(Ccitt, b))
  {
    assert ((a ^ b) as u16) << 8 == ((a as u16) << 8) ^ ((b as u16) << 8);
  }

  lemma {:induction false} ClockLast(n: nat, c: u16)
    ensures Clocks(Ccitt, n, Clock(Ccitt, c)) == Clock(Ccitt, Clocks(Ccitt, n, c))
    decreases n
  {
    hide Clock;
    if n > 0 {
      ClockLast(n - 1, Clock(Ccitt, c));
    }
  }

  lemma EffectDoubles(m: u8)
    requires m & 0x80 == 0
    ensures Effect(m << 1) == Clock(Ccitt, Effect(m))
  {
    LoadDoubles(m);
    hide Clock; hide Clocks; hide Load;
    ClockLast(8, Load(Ccitt, m));
  }

  lemma LoadDoubles(m: u8)
    requires m & 0x80 == 0
    ensures Load(Ccitt, m << 1) == Clock(Ccitt, Load(Ccitt, m))
  {
    XorSelf(Shl(Load(Ccitt, m)));
    assert ((m << 1) as u16) << 8 == ((m as u16) << 8) << 1;
  }

  lemma EffectOfBits()
    ensures Effect(0x01) == 0x1021 && Effect(0x02) == 0x2042 && Effect(0x04) == 0x4084 && Effect(0x08) == 0x8108
    ensures Effect(0x10) == 0x1231 && Effect(0x20) == 0x2462 && Effect(0x40) == 0x48C4 && Effect(0x80) == 0x9188
    ensures Effect(0) == 0
  {
    assert Effect(0x01) == 0x1021 && Effect(0) == 0;
    assert Clock(Ccitt, 0x4084) == 0x8108;
    hide Effect;
    EffectDoubles(0x01);
    EffectDoubles(0x02);
    EffectDoubles(0x04);
    EffectDoubles(0x08);
    EffectDoubles(0x10);
    EffectDoubles(0x20);
    EffectDoubles(0x40);
  }

  function Part(d: u8, mask: u8, word: u16): u16 { if d & mask != 0 then word else 0 }

  function Keep(d: u8, mask: u8): u8 { d & mask }

  lemma SplitOff(d: u8, mask: u8, next: u8)
    ensures d & (mask ^ next) == (d & mask) ^ (d & next)
  {}

  lemma OneBit(d: u8, mask: u8)
    requires mask == 1 || mask == 2 || mask == 4 || mask == 8 || mask == 16 || mask == 32 || mask == 64 || mask == 128
    ensures d & mask == 0 || d & mask == mask
  {}

  /** Peels the bit `mask` of `d` off the bits `mask ^ next` not yet accounted for. */
  lemma Peel(d: u8, mask: u8, next: u8, word: u16)
    requires mask == 1 || mask == 2 || mask == 4 || mask == 8 || mask == 16 || mask == 32 || mask == 64 || mask == 128
    requires word == Effect(mask) && Effect(0) == 0
    ensures Effect(Keep(d, mask ^ next)) == Xor(Part(d, mask, word), Effect(Keep(d, next)))
  {
    hide Effect; hide Xor;
    SplitOff(d, mask, next);
    OneBit(d, mask);
    EffectXor(d & mask, d & next);
  }

  lemma EffectFormula(d: u8)
    ensures Effect(d) ==
      Xor(Part(d, 0x01, 0x1021), Xor(Part(d, 0x02, 0x2042), Xor(Part(d, 0x04, 0x4084), Xor(Part(d, 0x08, 0x8108),
      Xor(Part(d, 0x10, 0x1231), Xor(Part(d, 0x20, 0x2462), Xor(Part(d, 0x40, 0x48C4), Xor(Part(d, 0x80, 0x9188), 0))))))))
  {
    assert Keep(d, 0xFF) == d && Keep(d, 0) == 0;
    hide Effect; hide Xor; hide Part; hide Keep;
    EffectOfBits();
    Peel(d, 0x01, 0xFE, 0x1021);
    Peel(d, 0x02, 0xFC, 0x2042);
    Peel(d, 0x04, 0xF8, 0x4084);
    Peel(d, 0x08, 0xF0, 0x8108);
    Peel(d, 0x10, 0xE0, 0x1231);
    Peel(d, 0x20, 0xC0, 0x2462);
    Peel(d, 0x40, 0x80, 0x48C4);
    Peel(d, 0x80, 0x00, 0x9188);
  }

  lemma LowOnlyEffect(d: u8)
    ensures High(Effect(d)) == 0 <==> d == 0 || d == 0x89
    ensures Effect(0x89) == 0x00A1
  {
    hide Effect;
    EffectFormula(d);
    EffectFormula(0x89);
  }

  lemma WordFromBytes(a: u16, b: u16)
    requires Low(a) == Low(b) && High(a) == High(b)
    ensures a == b
  {
    assert a & 0xFF == b & 0xFF && a >> 8 == b >> 8;
  }

  lemma BytesOfXor(a: u16, b: u16)
    ensures Low(Xor(a, b)) == Flips(Low(a), Low(b))
    ensures High(Xor(a, b)) == Flips(High(a), High(b))
  {
    assert (a ^ b) & 0xFF == (a & 0xFF) ^ (b & 0xFF);
    assert (a ^ b) >> 8 == (a >> 8) ^ (b >> 8);
  }

  lemma LastByteEffect(p: seq<u8>, x: u8, y: u8)
    ensures CrcCcitt(p + [y]) == Xor(CrcCcitt(p + [x]), Effect(Flips(x, y)))
  {
    hide Xor; hide Clocks; hide Load;
    var c := CrcFrom(Ccitt, 0, p);
    var lx, ly := Load(Ccitt, x), Load(Ccitt, y);
    CrcAppend(Ccitt, 0, p, [x]);
    CrcAppend(Ccitt, 0, p, [y]);
    LoadXor(x, y);
    ClocksLinear(Ccitt, 8, c, lx);
    ClocksLinear(Ccitt, 8, c, ly);
    ClocksLinear(Ccitt, 8, lx, ly);
    var tc, tx, ty := Clocks(Ccitt, 8, c), Clocks(Ccitt, 8, lx), Clocks(Ccitt, 8, ly);
    XorAssoc(tc, tx, Xor(tx, ty));
    XorAssoc(tx, tx, ty);
    XorSelf(tx);
    XorSelf(ty);
  }

  lemma FlipsTwice(w: u8, e: u8)
    ensures Flips(w, Flips(w, e)) == e && Flips(w, w) == 0 && Flips(w, 0) == w
  {}

  lemma FlipsCancel(w: u8, e: u8, g: u8)
    ensures g == Flips(w, e) <==> Flips(w, g) == e
    ensures Flips(w, w) == 0 && Flips(w, 0) == w
  {
    hide Flips;
    FlipsTwice(w, e);
    FlipsTwice(w, g);
  }

  /** A change of the last message byte and the first checksum byte. */
  lemma StraddlingWindow(p: seq<u8>, x: u8, y: u8, g: u8)
    requires x != y || g != Low(CrcCcitt(p + [x]))
    ensures (g == Low(CrcCcitt(p + [y])) && High(CrcCcitt(p + [x])) == High(CrcCcitt(p + [y])))
       <==> Flips(x, y) == 0x89 && Flips(Low(CrcCcitt(p + [x])), g) == 0xA1
  {
    hide *;
    var d := Flips(x, y);
    var w, w', e := CrcCcitt(p + [x]), CrcCcitt(p + [y]), Effect(d);
    LastByteEffect(p, x, y);
    BytesOfXor(w, e);
    FlipsCancel(High(w), High(e), High(w));
    FlipsCancel(Low(w), Low(e), g);
    FlipsCancel(x, 0, y);
    FlipsCancel(Low(w), 0, g);
    LowOnlyEffect(d);
    LowBytes();
  }

  lemma LowBytes()
    ensures Low(0x00A1) == 0xA1 && Low(Effect(0)) == 0
  {}

  /** `g` is `f` with a change confined to bytes `i` and `i + 1`. */
  ghost predicate DifferOnlyAt(f: seq<u8>, g: seq<u8>, i: nat) {
    && i + 1 < |f| == |g|
    && (f[i] != g[i] || f[i + 1] != g[i + 1])
    && forall j | 0 <= j < |f| && j != i && j != i + 1 :: f[j] == g[j]
  }

  /** The trailing two bytes are the checksum of everything before them. */
  predicate CrcOk(g: seq<u8>)
    requires |g| >= 2
  {
    var m := |g| - 2;
    g[m] == Low(CrcCcitt(g[..m])) && g[m + 1] == High(CrcCcitt(g[..m]))
  }

  lemma InnerWindow(f: seq<u8>, g: seq<u8>, i: nat)
    requires DifferOnlyAt(f, g, i) && i + 3 < |f| && CrcOk(f)
    ensures !CrcOk(g)
  {
    hide CrcFrom; hide Low; hide High;
    var m := |f| - 2;
    var p, s := f[..i], f[i + 2..m];
    var a, b := f[i..i + 2], g[i..i + 2];
    assert f[..m] == p + a + s;
    assert g[..m] == p + b + s;
    assert a[0] != b[0] || a[1] != b[1];
    ByteWindowDetected(Ccitt, p, a, b, s);
    if CrcOk(g) {
      WordFromBytes(CrcCcitt(f[..m]), CrcCcitt(g[..m]));
    }
  }

  lemma EdgeWindow(f: seq<u8>, g: seq<u8>)
    requires |f| >= 3 && DifferOnlyAt(f, g, |f| - 3) && CrcOk(f)
    ensures CrcOk(g) <==> Flips(f[|f| - 3], g[|f| - 3]) == 0x89 && Flips(f[|f| - 2], g[|f| - 2]) == 0xA1
  {
    hide CrcFrom; hide Flips; hide Low; hide High;
    var m := |f| - 2;
    var p := f[..m - 1];
    assert f[..m] == p + [f[m - 1]];
    assert g[..m] == p + [g[m - 1]];
    StraddlingWindow(p, f[m - 1], g[m - 1], g[m]);
  }

  lemma CrcWindow(f: seq<u8>, g: seq<u8>)
    requires |f| >= 2 && DifferOnlyAt(f, g, |f| - 2) && CrcOk(f)
    ensures !CrcOk(g)
  {
    hide CrcFrom; hide Low; hide High;
    assert g[..|f| - 2] == f[..|f| - 2];
  }

  /** Every corruption of two adjacent bytes of a frame is rejected, with exactly
      one exception: the CRC travels low byte first, so a window over the last
      message byte and the first CRC byte slips through for one pair of changes. */
  lemma AdjacentBytesCorruption(addr: u8, index: u8, command: u8, data: seq<u8>, g: seq<u8>, i: nat)
    requires |data| <= 248
    requires DifferOnlyAt(BuildRequest(addr, index, command, data).value, g, i)
    ensures var f := BuildRequest(addr, index, command, data).value;
            DecodeResponse(addr, index, g).Some?
            <==> i == |f| - 3 && Flips(f[i], g[i]) == 0x89 && Flips(f[i + 1], g[i + 1]) == 0xA1
  {
    hide CrcFrom; hide Flips; hide Low; hide High; hide Value; hide Byte;
    var f := BuildRequest(addr, index, command, data).value;
    assert f[..|f| - 2] == Body(addr, index, command, data);
    ValueOfByte(7 + |data|);
    if i + 3 < |f| {
      InnerWindow(f, g, i);
    } else if i == |f| - 2 {
      CrcWindow(f, g);
    } else {
      EdgeWindow(f, g);
    }
  }
}
