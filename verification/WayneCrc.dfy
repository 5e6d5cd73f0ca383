/** CRC-16 of the Wayne bus: the 256-entry table, the fast checksum over it, and
    the frame tail `CRC-low CRC-high 03 FA`. */
module WayneCrc {
  import opened Wire
  import opened Crc

  /** Bit-at-a-time division by the reflected polynomial 0xA001, from zero. */
  function Crc16(data: seq<u8>): u16 { CrcFrom(Ibm, 0, data) }

  /** What the table must hold for byte `b`: the register after eight clocks. */
  function TableEntry(b: u8): u16 { Clocks(Ibm, 8, b as u16) }

  ghost predicate IsCrcTable(table: seq<u16>) {
    |table| == 256 && forall b: u8 :: table[Value(b)] == TableEntry(b)
  }

  /** The table loop works on a split register; the two halves together clock on. */
  lemma TableBit(value: u16, temp: u16)
    ensures Xor(if Out(Ibm, Xor(value, temp)) then Xor(Shr(value), 0xA001) else Shr(value), Shr(temp))
         == Clock(Ibm, Xor(value, temp))
  {
    var out := Out(Ibm, Xor(value, temp));
    var f := Feedback(Ibm, out);
    assert f == if out then 0xA001 else 0;
    hide Xor; hide Shr; hide Feedback; hide Out;
    RightXor(value, temp);
    XorAssoc(Shr(value), f, Shr(temp));
    XorComm(f, Shr(temp));
    XorAssoc(Shr(value), Shr(temp), f);
    XorSelf(Shr(value));
  }

  lemma WidenedRest(b: u8)
    ensures Shr(b as u16) == RestBits(Ibm, b) as u16
  {}

  /** After `j` rounds, `value` and `temp` together still lead to the entry of `b`. */
  predicate EntryPending(b: u8, j: nat, value: u16, temp: u16) {
    j <= 8 && temp == RestAfter(Ibm, b, j) as u16
    && Clocks(Ibm, 8 - j, Xor(value, temp)) == TableEntry(b)
  }

  /** One round of the inner table loop on `value`. */
  function TableRound(value: u16, temp: u16): u16 {
    if Out(Ibm, Xor(value, temp)) then Xor(Shr(value), 0xA001) else Shr(value)
  }

  lemma RoundKeepsPending(b: u8, j: nat, value: u16, temp: u16)
    requires j < 8 && EntryPending(b, j, value, temp)
    ensures EntryPending(b, j + 1, TableRound(value, temp), Shr(temp))
  {
    hide *;
    NextPending(b, j, value, temp, RestAfter(Ibm, b, j), TableRound(value, temp));
  }

  lemma NextPending(b: u8, j: nat, value: u16, temp: u16, rest: u8, next: u16)
    requires j < 8 && EntryPending(b, j, value, temp) && rest == RestAfter(Ibm, b, j) && next == TableRound(value, temp)
    ensures EntryPending(b, j + 1, next, Shr(temp))
  {
    hide Xor; hide Shr; hide Clock; hide RestBits; hide RestAfter; hide Out; hide TableEntry; hide Clocks;
    TableBit(value, temp);
    WidenedRest(rest);
    RestAfterStep(b, j);
    ClocksStep(8 - j, Xor(value, temp));
  }

  lemma ClocksStep(n: nat, c: u16)
    requires n > 0
    ensures Clocks(Ibm, n, c) == Clocks(Ibm, n - 1, Clock(Ibm, c))
  {
    hide Clock;
  }

  lemma PendingEnds(b: u8, value: u16, temp: u16)
    requires EntryPending(b, 8, value, temp)
    ensures value == TableEntry(b)
  {
    hide Xor; hide TableEntry;
    EightBitsConsumed(Ibm, b);
    XorSelf(value);
  }

  /** The inner loop, for one table entry. */
  method TableValue(b: u8) returns (value: u16)
    ensures value == TableEntry(b)
  {
    value := 0;
    var temp := b as u16;
    var j := 0;
    hide EntryPending; hide TableRound; hide Shr; hide TableEntry;
    assert EntryPending(b, 0, value, temp) by { StartsPending(b); }
    while j < 8
      invariant 0 <= j <= 8 && EntryPending(b, j, value, temp)
    {
      RoundKeepsPending(b, j, value, temp);
      value := TableRound(value, temp);
      temp := Shr(temp);
      j := j + 1;
    }
    PendingEnds(b, value, temp);
  }

  lemma StartsPending(b: u8)
    ensures EntryPending(b, 0, 0, b as u16)
  {
    XorSelf(b as u16);
  }

  method BuildCrcTable() returns (table: array<u16>)
    ensures fresh(table) && IsCrcTable(table[..])
  {
    hide TableEntry; hide Value; hide Byte;
    table := new u16[256];
    var i := 0;
    while i < 256
      invariant 0 <= i <= 256
      invariant forall b: u8 | Value(b) < i :: table[Value(b)] == TableEntry(b)
    {
      var entry := TableValue(Byte(i));
      table[i] := entry;
      forall b: u8 | Value(b) == i ensures b == Byte(i) { ByteOfValue(b); }
      i := i + 1;
    }
  }

  lemma {:induction false} RestAfterStep(b: u8, n: nat)
    ensures RestAfter(Ibm, b, n + 1) == RestBits(Ibm, RestAfter(Ibm, b, n))
    decreases n
  {
    hide RestBits;
    if n > 0 {
      RestAfterStep(RestBits(Ibm, b), n - 1);
    }
  }

  predicate IsEven(c: u16) { c & 1 == 0 }

  lemma QuietClock(c: u16)
    requires IsEven(c)
    ensures Clock(Ibm, c) == Shr(c)
  {
    XorSelf(Shr(c));
  }

  lemma QuietBits(c: u16)
    requires c & 0xF == 0
    ensures IsEven(c) && IsEven(Shr(c)) && IsEven(Shr(Shr(c))) && IsEven(Shr(Shr(Shr(c))))
    ensures Shr(Shr(Shr(Shr(c)))) == c >> 4
  {}

  lemma QuietClocks(c: u16)
    requires c & 0xF == 0
    ensures Clocks(Ibm, 4, c) == c >> 4
  {
    QuietBits(c);
    var c1 := Shr(c);
    var c2 := Shr(c1);
    var c3 := Shr(c2);
    assert Clocks(Ibm, 0, Shr(c3)) == Shr(c3);
    hide *;
    QuietClock(c);
    QuietClock(c1);
    QuietClock(c2);
    QuietClock(c3);
    ClocksStep(4, c);
    ClocksStep(3, c1);
    ClocksStep(2, c2);
    ClocksStep(1, c3);
  }

  lemma {:induction false} ClocksSplit(m: nat, n: nat, c: u16)
    ensures Clocks(Ibm, m + n, c) == Clocks(Ibm, n, Clocks(Ibm, m, c))
    decreases m
  {
    hide Clock;
    if m > 0 {
      ClocksSplit(m - 1, n, Clock(Ibm, c));
    }
  }

  /** With an empty low byte no feedback fires: eight clocks are a plain shift. */
  lemma ShiftsOut(c: u16)
    requires c & 0xFF == 0
    ensures Clocks(Ibm, 8, c) == c >> 8
  {
    assert c & 0xF == 0 && (c >> 4) & 0xF == 0 && (c >> 4) >> 4 == c >> 8;
    hide Clocks;
    ClocksSplit(4, 4, c);
    QuietClocks(c);
    QuietClocks(c >> 4);
  }

  lemma SplitRegister(crc: u16, b: u8)
    ensures Xor(crc, b as u16) == Xor(crc & 0xFF00, (Low(crc) ^ b) as u16)
  {}

  /** One table lookup advances the register by one whole byte. */
  lemma TableStep(crc: u16, b: u8)
    ensures Xor(crc >> 8, TableEntry(Low(crc) ^ b)) == ByteStep(Ibm, crc, b)
  {
    SplitRegister(crc, b);
    assert (crc & 0xFF00) & 0xFF == 0 && (crc & 0xFF00) >> 8 == crc >> 8;
    hide Xor; hide Clocks;
    ShiftsOut(crc & 0xFF00);
    ClocksLinear(Ibm, 8, crc & 0xFF00, (Low(crc) ^ b) as u16);
  }

  method CrcFast(table: array<u16>, data: seq<u8>) returns (crc: u16)
    requires IsCrcTable(table[..])
    ensures crc == Crc16(data)
  {
    hide Xor; hide Clocks; hide ByteStep; hide Low; hide Value;
    crc := 0;
    var i := 0;
    while i < |data|
      invariant 0 <= i <= |data|
      invariant CrcFrom(Ibm, crc, data[i..]) == Crc16(data)
    {
      var index := Low(crc) ^ data[i];
      TableStep(crc, data[i]);
      assert table[..][Value(index)] == TableEntry(index);
      crc := Xor(crc >> 8, table[Value(index)]);
      i := i + 1;
    }
  }

  lemma FeedOwnCrc(c: u16)
    ensures ByteStep(Ibm, ByteStep(Ibm, c, Low(c)), High(c)) == 0
  {
    assert Xor(c, Low(c) as u16) == c & 0xFF00;
    assert (c & 0xFF00) >> 8 == High(c) as u16;
    assert (c & 0xFF00) & 0xFF == 0;
    hide Xor; hide Low; hide High; hide Clocks;
    ShiftsOut(c & 0xFF00);
    XorSelf(High(c) as u16);
    ShiftsOut(0);
  }

  /** A message followed by its own checksum leaves a zero register. */
  lemma Residue(data: seq<u8>)
    ensures Crc16(data + [Low(Crc16(data)), High(Crc16(data))]) == 0
  {
    hide ByteStep; hide Low; hide High;
    var c := Crc16(data);
    var t := [Low(c), High(c)];
    CrcAppend(Ibm, 0, data, t);
    FeedOwnCrc(c);
    calc {
      CrcFrom(Ibm, c, t);
      { assert t[1..] == [High(c)]; }
      CrcFrom(Ibm, ByteStep(Ibm, c, Low(c)), [High(c)]);
      CrcFrom(Ibm, ByteStep(Ibm, ByteStep(Ibm, c, Low(c)), High(c)), []);
    }
  }

  /** A complete frame around `data`. */
  function BuildFrame(data: seq<u8>): seq<u8> {
    data + [Low(Crc16(data)), High(Crc16(data)), 0x03, 0xFA]
  }
}
