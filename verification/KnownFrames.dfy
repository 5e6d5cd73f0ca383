/** Whole frames that the source and its tests spell out byte by byte. */
module KnownFrames {
  import opened Wire
  import opened Crc
  import opened Modbus
  import A = Azt
  import B = BlueSky
  import S = Shelf
  import opened WayneFrames
  import opened WayneCrc

  lemma CrcOfFive(k: Code, a: u8, b: u8, c: u8, d: u8, e: u8)
    ensures CrcFrom(k, 0, [a, b, c, d, e]) == ByteStep(k, ByteStep(k, ByteStep(k, ByteStep(k, ByteStep(k, 0, a), b), c), d), e)
  {
    hide ByteStep;
    var (c1, c2) := (ByteStep(k, 0, a), ByteStep(k, ByteStep(k, 0, a), b));
    var (c3, c4) := (ByteStep(k, c2, c), ByteStep(k, ByteStep(k, c2, c), d));
    assert [a, b, c, d, e][1..] == [b, c, d, e] && [b, c, d, e][1..] == [c, d, e] && [c, d, e][1..] == [d, e];
    assert CrcFrom(k, 0, [a, b, c, d, e]) == CrcFrom(k, c1, [b, c, d, e]) == CrcFrom(k, c2, [c, d, e]);
    assert CrcFrom(k, c2, [c, d, e]) == CrcFrom(k, c3, [d, e]);
    assert [d, e][1..] == [e] && [e][1..] == [];
    assert CrcFrom(k, c3, [d, e]) == CrcFrom(k, c4, [e]) == CrcFrom(k, ByteStep(k, c4, e), []);
  }

  function Eight(k: Code, c: u16): u16 { Clock(k, Clock(k, Clock(k, Clock(k, Clock(k, Clock(k, Clock(k, Clock(k, c)))))))) }

  lemma FourClocks(k: Code, n: nat, c: u16)
    ensures Clocks(k, n + 4, c) == Clocks(k, n, Clock(k, Clock(k, Clock(k, Clock(k, c)))))
  {
    hide Clock;
    var c1 := Clock(k, c);
    var c2 := Clock(k, c1);
    var c3 := Clock(k, c2);
    assert Clocks(k, n + 4, c) == Clocks(k, n + 3, c1);
    assert Clocks(k, n + 3, c1) == Clocks(k, n + 2, c2);
    assert Clocks(k, n + 2, c2) == Clocks(k, n + 1, c3);
  }

  lemma ByteStepIs(k: Code, c: u16, b: u8)
    ensures ByteStep(k, c, b) == Eight(k, c ^ Load(k, b))
  {
    hide Clock; hide Load;
    var x := Xor(c, Load(k, b));
    FourClocks(k, 4, x);
    FourClocks(k, 0, Clock(k, Clock(k, Clock(k, Clock(k, x)))));
  }

  lemma NextRegister(k: Code, c: u16, b: u8, r: u16)
    requires Eight(k, c ^ Load(k, b)) == r
    ensures ByteStep(k, c, b) == r
  {
    hide *;
    ByteStepIs(k, c, b);
  }

  // ── Wayne ──────────────────────────────────────────────────────────────────

  lemma FirstStop()
    ensures Crc16([0x50, 0x30, 0x01, 0x01, 0x08]) == 0x9A9E
  {
    assert Eight(Ibm, 0 ^ Load(Ibm, 0x50)) == 0x3C00;
    assert Eight(Ibm, 0x3C00 ^ Load(Ibm, 0x30)) == 0x143C;
    assert Eight(Ibm, 0x143C ^ Load(Ibm, 0x01)) == 0xD1D5;
    assert Eight(Ibm, 0xD1D5 ^ Load(Ibm, 0x01)) == 0x5FD1;
    assert Eight(Ibm, 0x5FD1 ^ Load(Ibm, 0x08)) == 0x9A9E;
    hide Eight; hide Load; hide ByteStep; hide CrcFrom;
    NextRegister(Ibm, 0, 0x50, 0x3C00);
    NextRegister(Ibm, 0x3C00, 0x30, 0x143C);
    NextRegister(Ibm, 0x143C, 0x01, 0xD1D5);
    NextRegister(Ibm, 0xD1D5, 0x01, 0x5FD1);
    NextRegister(Ibm, 0x5FD1, 0x08, 0x9A9E);
    CrcOfFive(Ibm, 0x50, 0x30, 0x01, 0x01, 0x08);
  }

  lemma SecondStop()
    ensures Crc16([0x51, 0x30, 0x01, 0x01, 0x08]) == 0x5AA3
  {
    assert Eight(Ibm, 0 ^ Load(Ibm, 0x51)) == 0xFCC1;
    assert Eight(Ibm, 0xFCC1 ^ Load(Ibm, 0x30)) == 0x843D;
    assert Eight(Ibm, 0x843D ^ Load(Ibm, 0x01)) == 0x1184;
    assert Eight(Ibm, 0x1184 ^ Load(Ibm, 0x01)) == 0xA3D0;
    assert Eight(Ibm, 0xA3D0 ^ Load(Ibm, 0x08)) == 0x5AA3;
    hide Eight; hide Load; hide ByteStep; hide CrcFrom;
    NextRegister(Ibm, 0, 0x51, 0xFCC1);
    NextRegister(Ibm, 0xFCC1, 0x30, 0x843D);
    NextRegister(Ibm, 0x843D, 0x01, 0x1184);
    NextRegister(Ibm, 0x1184, 0x01, 0xA3D0);
    NextRegister(Ibm, 0xA3D0, 0x08, 0x5AA3);
    CrcOfFive(Ibm, 0x51, 0x30, 0x01, 0x01, 0x08);
  }

  lemma ThirdStop()
    ensures Crc16([0x52, 0x30, 0x01, 0x01, 0x08]) == 0x5AE7
  {
    assert Eight(Ibm, 0 ^ Load(Ibm, 0x52)) == 0xFD81;
    assert Eight(Ibm, 0xFD81 ^ Load(Ibm, 0x30)) == 0x743D;
    assert Eight(Ibm, 0x743D ^ Load(Ibm, 0x01)) == 0x1174;
    assert Eight(Ibm, 0x1174 ^ Load(Ibm, 0x01)) == 0xE7D0;
    assert Eight(Ibm, 0xE7D0 ^ Load(Ibm, 0x08)) == 0x5AE7;
    hide Eight; hide Load; hide ByteStep; hide CrcFrom;
    NextRegister(Ibm, 0, 0x52, 0xFD81);
    NextRegister(Ibm, 0xFD81, 0x30, 0x743D);
    NextRegister(Ibm, 0x743D, 0x01, 0x1174);
    NextRegister(Ibm, 0x1174, 0x01, 0xE7D0);
    NextRegister(Ibm, 0xE7D0, 0x08, 0x5AE7);
    CrcOfFive(Ibm, 0x52, 0x30, 0x01, 0x01, 0x08);
  }

  lemma FourthStop()
    ensures Crc16([0x53, 0x30, 0x01, 0x01, 0x08]) == 0x9ADA
  {
    assert Eight(Ibm, 0 ^ Load(Ibm, 0x53)) == 0x3D40;
    assert Eight(Ibm, 0x3D40 ^ Load(Ibm, 0x30)) == 0xE43C;
    assert Eight(Ibm, 0xE43C ^ Load(Ibm, 0x01)) == 0xD125;
    assert Eight(Ibm, 0xD125 ^ Load(Ibm, 0x01)) == 0x1BD1;
    assert Eight(Ibm, 0x1BD1 ^ Load(Ibm, 0x08)) == 0x9ADA;
    hide Eight; hide Load; hide ByteStep; hide CrcFrom;
    NextRegister(Ibm, 0, 0x53, 0x3D40);
    NextRegister(Ibm, 0x3D40, 0x30, 0xE43C);
    NextRegister(Ibm, 0xE43C, 0x01, 0xD125);
    NextRegister(Ibm, 0xD125, 0x01, 0x1BD1);
    NextRegister(Ibm, 0x1BD1, 0x08, 0x9ADA);
    CrcOfFive(Ibm, 0x53, 0x30, 0x01, 0x01, 0x08);
  }

  lemma BusyCrc()
    ensures Crc16([0x52, 0x30, 0x01, 0x01, 0x04]) == 0x5FE7
  {
    assert Eight(Ibm, 0 ^ Load(Ibm, 0x52)) == 0xFD81;
    assert Eight(Ibm, 0xFD81 ^ Load(Ibm, 0x30)) == 0x743D;
    assert Eight(Ibm, 0x743D ^ Load(Ibm, 0x01)) == 0x1174;
    assert Eight(Ibm, 0x1174 ^ Load(Ibm, 0x01)) == 0xE7D0;
    assert Eight(Ibm, 0xE7D0 ^ Load(Ibm, 0x04)) == 0x5FE7;
    hide Eight; hide Load; hide ByteStep; hide CrcFrom;
    NextRegister(Ibm, 0, 0x52, 0xFD81);
    NextRegister(Ibm, 0xFD81, 0x30, 0x743D);
    NextRegister(Ibm, 0x743D, 0x01, 0x1174);
    NextRegister(Ibm, 0x1174, 0x01, 0xE7D0);
    NextRegister(Ibm, 0xE7D0, 0x04, 0x5FE7);
    CrcOfFive(Ibm, 0x52, 0x30, 0x01, 0x01, 0x04);
  }

  /** The emergency frames kept ready as bytes are the stop frames that would be built. */
  lemma StopTableIsComputed(addr: u8)
    ensures Transmit(addr, StopFrame) == Transmit(addr, Stop)
  {
    FirstStop();
    SecondStop();
    ThirdStop();
    FourthStop();
    hide Crc16;
    var data: seq<u8> := [addr, 0x30, 0x01, 0x01, 0x08];
    assert Payload(addr, Stop) == Payload(addr, StopFrame) == data;
    assert StopTail(addr).Some? ==> data + StopTail(addr).value == BuildFrame(data);
  }

  lemma WayneFramesAreKnown()
    ensures Transmit(0x52, PollPump) == [0x52, 0x20, 0xFA] && Transmit(0x52, Ack) == [0x52, 0xC0, 0xFA]
    ensures Transmit(0x52, Busy) == [0x52, 0x30, 0x01, 0x01, 0x04, 0xE7, 0x5F, 0x03, 0xFA]
  {
    BusyCrc();
    hide Crc16;
  }

  // ── SHELF ──────────────────────────────────────────────────────────────────

  lemma StatusCrc()
    ensures CrcFrom(Ccitt, 0, [0x2D, 0x0F, 0x67, 0x07, 0x01]) == 0x6A6D
  {
    assert Eight(Ccitt, 0 ^ Load(Ccitt, 0x2D)) == 0xF5CF;
    assert Eight(Ccitt, 0xF5CF ^ Load(Ccitt, 0x0F)) == 0x8155;
    assert Eight(Ccitt, 0x8155 ^ Load(Ccitt, 0x67)) == 0xC8E8;
    assert Eight(Ccitt, 0xC8E8 ^ Load(Ccitt, 0x07)) == 0xC0A3;
    assert Eight(Ccitt, 0xC0A3 ^ Load(Ccitt, 0x01)) == 0x6A6D;
    hide Eight; hide Load; hide ByteStep; hide CrcFrom;
    NextRegister(Ccitt, 0, 0x2D, 0xF5CF);
    NextRegister(Ccitt, 0xF5CF, 0x0F, 0x8155);
    NextRegister(Ccitt, 0x8155, 0x67, 0xC8E8);
    NextRegister(Ccitt, 0xC8E8, 0x07, 0xC0A3);
    NextRegister(Ccitt, 0xC0A3, 0x01, 0x6A6D);
    CrcOfFive(Ccitt, 0x2D, 0x0F, 0x67, 0x07, 0x01);
  }

  lemma ShelfFrameIsKnown()
    ensures S.BuildRequest(0x0F, 0x67, 0x01, []) == Some([0x2D, 0x0F, 0x67, 0x07, 0x01, 0x6D, 0x6A])
  {
    StatusCrc();
    hide CrcFrom;
    var body: seq<u8> := [0x2D, 0x0F, 0x67, 0x07, 0x01];
    assert S.Body(0x0F, 0x67, 0x01, []) == body;
    assert S.WithCrc(body) == [0x2D, 0x0F, 0x67, 0x07, 0x01, 0x6D, 0x6A];
  }

  // ── BlueSky ────────────────────────────────────────────────────────────────

  lemma BlueSkyFrameIsKnown()
    ensures B.BuildRequest(0x01, 0xD5, []) == Some([0xF5, 0x01, 0xA2, 0xD5, 0x03])
  {
    var body: seq<u8> := [0xF5, 0x01, 0xA2, 0xD5];
    assert B.LenByte(2) == 0xA2;
    assert B.Body(0x01, 0xD5, []) == body;
    hide B.Body; hide B.LenByte;
    XorSnoc([], 0xF5);
    XorSnoc([0xF5], 0x01);
    XorSnoc([0xF5, 0x01], 0xA2);
    XorSnoc([0xF5, 0x01, 0xA2], 0xD5);
    assert B.XorAll([]) == 0;
    hide B.XorAll;
    assert [] + [0xF5] == [0xF5] && [0xF5] + [0x01] == [0xF5, 0x01] && [0xF5, 0x01] + [0xA2] == [0xF5, 0x01, 0xA2];
    assert [0xF5, 0x01, 0xA2] + [0xD5] == body;
    assert B.Crc(body) == 0x03 && body + [0x03] == [0xF5, 0x01, 0xA2, 0xD5, 0x03];
    hide B.Crc;
  }

  lemma XorSnoc(s: seq<u8>, b: u8)
    ensures B.XorAll(s + [b]) == B.XorAll(s) ^ b
  {
    assert (s + [b])[..|s|] == s;
  }

  // ── AZT ────────────────────────────────────────────────────────────────────

  lemma AztBytes()
    ensures Byte(0x21) == 0x21 && Byte(7) == 0x07
  {}

  lemma AztAddresses()
    ensures A.SplitAddress(1) == (0x02, 0x21) && A.SplitAddress(16) == (0x07, 0x21)
  {
    AztBytes();
    hide Byte;
  }

  lemma AztNormals(normal: seq<u8>)
    requires normal == [0x21, 0x31]
    ensures A.Pairs(normal) == [0x21, 0x5E, 0x31, 0x4E] && A.Checksum(normal) == 0x53
  {
    assert normal[1..] == [0x31] && normal[1..][1..] == [];
    assert A.Pairs(normal[1..]) == [0x31, 0x4E];
    assert A.XorAll(0x22, normal[1..]) == A.XorAll(0x13, []) == 0x13;
    assert A.XorAll(A.ETX, normal) == A.XorAll(0x22, normal[1..]);
  }

  lemma AztRequestsAreKnown()
    ensures A.BuildRequest(1, 0x31, []) == [0x7F, 0x02, 0x21, 0x5E, 0x31, 0x4E, 0x03, 0x03, 0x53]
    ensures A.BuildRequest(16, 0x31, []) == [0x7F, 0x07, 0x21, 0x5E, 0x31, 0x4E, 0x03, 0x03, 0x53]
  {
    AztAddresses();
    hide A.SplitAddress; hide A.Pairs; hide A.Checksum;
    var normal: seq<u8> := [0x21, 0x31];
    AztNormals(normal);
    assert A.Normal(1, 0x31, []) == normal && A.Normal(16, 0x31, []) == normal;
  }

  lemma AztAnswersAreKnown()
    ensures A.DecodeResponse([0x06]) == Some(A.Short(0x06)) && A.DecodeResponse([0x15]) == Some(A.Short(0x15))
    ensures A.DecodeResponse([0x18]) == Some(A.Short(0x18))
  {
    hide A.DecodeData;
  }

  // ── Modbus ─────────────────────────────────────────────────────────────────

  lemma OneIsKnown()
    ensures FloatOf((0x3F, 0x80, 0x00, 0x00)) == Finite(1.0)
  {
    assert Value(0x3F) == 63 && Value(0x80) == 128 && Value(0) == 0;
    hide Value;
    Pow2Adds(3, 3);
    Pow2Adds(6, 6);
    Pow2Adds(12, 6);
    Pow2Adds(18, 5);
    assert Pow2(3) == 8.0 && Pow2(5) == 32.0;
    assert Pow2(6) == 64.0 && Pow2(12) == 4096.0 && Pow2(18) == 262144.0;
    assert Pow2(23) == 8388608.0;
    hide Pow2;
    assert Scaled(127, 0) == 8388608.0 / Pow2(23);
  }

  /** The number one in each of the four byte orders. */
  lemma OrdersAreKnown()
    ensures Floats([Register(0x3F, 0x80), Register(0x00, 0x00)], ABCD) == [Finite(1.0)]
    ensures Floats([Register(0x00, 0x00), Register(0x3F, 0x80)], CDAB) == [Finite(1.0)]
    ensures Floats([Register(0x80, 0x3F), Register(0x00, 0x00)], BADC) == [Finite(1.0)]
    ensures Floats([Register(0x00, 0x00), Register(0x80, 0x3F)], DCBA) == [Finite(1.0)]
  {
    OneIsKnown();
    hide FloatOf;
  }
}
