/** Which single-byte corruptions of a data frame the decoder catches. */
module AztCorruption {
  import opened Wire
  import opened Azt
  import opened AztStream

  /** What follows `STX` in an encoded answer. */
  function FrameBody(data: seq<u8>): seq<u8> { Pairs(data) + Tail(data) }

  /** A data byte that one flip turns into `ETX` while its complement reads as the
      second `ETX` and the next data byte as a valid checksum. */
  predicate IsFalseEnd(data: seq<u8>, k: nat)
    requires k < |data|
  {
    Complement(data[k]) == ETX && k + 1 < |data| && data[k + 1] == Checksum(data[..k])
  }

  ghost predicate HasFalseEnd(data: seq<u8>) { exists k | 0 <= k < |data| :: IsFalseEnd(data, k) }

  function FlipHigh(b: u8): u8 { b ^ 0x80 }

  lemma ComplementFacts(a: u8, b: u8)
    ensures Complement(a) == Complement(b) <==> a == b || a == FlipHigh(b)
  {}

  lemma XorStep(acc: u8, b: u8)
    ensures (acc ^ b) & 0x80 == (acc & 0x80) ^ (b & 0x80)
    ensures (acc ^ 0x80) ^ b == (acc ^ b) ^ 0x80
    ensures acc ^ (b ^ 0x80) == (acc ^ b) ^ 0x80
  {}

  lemma {:induction false} XorAllFlip(acc: u8, bytes: seq<u8>)
    ensures XorAll(acc ^ 0x80, bytes) == XorAll(acc, bytes) ^ 0x80
    decreases |bytes|
  {
    if bytes != [] {
      XorStep(acc, bytes[0]);
      XorAllFlip(acc ^ bytes[0], bytes[1..]);
    }
  }

  lemma {:induction false} XorAllAppend(acc: u8, a: seq<u8>, b: seq<u8>)
    ensures XorAll(acc, a + b) == XorAll(XorAll(acc, a), b)
    decreases |a|
  {
    if a == [] {
      assert a + b == b;
    } else {
      assert (a + b)[1..] == a[1..] + b;
      XorAllAppend(acc ^ a[0], a[1..], b);
    }
  }

  lemma XorAllSplit(acc: u8, a: seq<u8>, x: u8, b: seq<u8>)
    ensures XorAll(acc, a + [x] + b) == XorAll(XorAll(acc, a) ^ x, b)
  {
    assert a + [x] + b == a + ([x] + b);
    XorAllAppend(acc, a, [x] + b);
    assert ([x] + b)[1..] == b;
  }

  /** Flipping bit 7 of one data byte always changes the checksum. */
  lemma HighBitChangesChecksum(a: seq<u8>, x: u8, b: seq<u8>)
    ensures Checksum(a + [FlipHigh(x)] + b) != Checksum(a + [x] + b)
  {
    var acc := XorAll(ETX, a);
    XorStep(acc, x);
    hide XorAll;
    XorAllSplit(ETX, a, x, b);
    XorAllSplit(ETX, a, FlipHigh(x), b);
    XorAllFlip(acc ^ x, b);
    OrKeeps(XorAll(acc ^ x, b));
  }

  lemma OrKeeps(x: u8)
    ensures (x ^ 0x80) | 0x40 != x | 0x40
  {}

  /** The parser reaches pair `k` of a body whose first `k` pairs are intact. */
  lemma ReachPair(data: seq<u8>, c: seq<u8>, k: nat)
    requires ETX !in data && k <= |data| && 2 * k <= |c| && c[..2 * k] == FrameBody(data)[..2 * k]
    ensures ParseBody(c) == ParseFrom(c, 2 * k, data[..k])
  {
    hide Pairs; hide Tail; hide ParseFrom;
    PairsSplit(data, k);
    assert FrameBody(data)[..2 * k] == Pairs(data[..k]);
    assert c == Pairs(data[..k]) + c[2 * k..];
    assert forall x | x in data[..k] :: x in data;
    ParseAllPairs(c, data[..k], c[2 * k..]);
  }

  lemma PairsSplit(data: seq<u8>, k: nat)
    requires k <= |data|
    ensures Pairs(data) == Pairs(data[..k]) + Pairs(data[k..])
  {
    hide Pairs;
    assert data == data[..k] + data[k..];
    PairsAppend(data[..k], data[k..]);
  }

  lemma BodyAt(data: seq<u8>, k: nat)
    requires k < |data|
    ensures FrameBody(data)[2 * k] == data[k] && FrameBody(data)[2 * k + 1] == Complement(data[k])
    ensures FrameBody(data)[2 * k + 2] == if k + 1 < |data| then data[k + 1] else ETX
    ensures FrameBody(data)[2 * k + 2..] == Pairs(data[k + 1..]) + Tail(data)
  {
    hide Complement; hide Checksum; hide Pairs;
    PairsSplit(data, k);
    PairsCons(data[k..]);
    assert data[k..][1..] == data[k + 1..];
    assert FrameBody(data)[2 * k..] == [data[k], Complement(data[k])] + Pairs(data[k + 1..]) + Tail(data);
    assert FrameBody(data)[2 * k..][2..] == FrameBody(data)[2 * k + 2..];
    if k + 1 < |data| {
      PairsCons(data[k + 1..]);
      assert FrameBody(data)[2 * k + 2] == FrameBody(data)[2 * k + 2..][0];
    } else {
      PairsEmpty();
    }
  }

  /** A normal byte replaced by `v`. */
  lemma NormalByteCorrupted(data: seq<u8>, k: nat, v: u8)
    requires ETX !in data && k < |data| && v != data[k]
    ensures DecodeData(FrameBody(data)[2 * k := v]).Some? <==> v == ETX && IsFalseEnd(data, k)
  {
    var c := FrameBody(data)[2 * k := v];
    hide Checksum; hide Pairs; hide Complement; hide Tail; hide FlipHigh;
    BodyAt(data, k);
    assert c[..2 * k] == FrameBody(data)[..2 * k];
    ReachPair(data, c, k);
    assert c[2 * k + 1] == Complement(data[k]) && c[2 * k + 2] == FrameBody(data)[2 * k + 2];
    ChecksumBit6(data[..k]);
    ComplementFacts(v, data[k]);
    if v != ETX && v == FlipHigh(data[k]) {
      assert c[2 * k + 2..] == FrameBody(data)[2 * k + 2..];
      HighBitRejected(data, c, k);
    }
  }

  lemma HighBitRejected(data: seq<u8>, c: seq<u8>, k: nat)
    requires ETX !in data && k < |data| && |c| >= 2 * k + 2 && c[2 * k + 2..] == Pairs(data[k + 1..]) + Tail(data)
    ensures !ParseFrom(c, 2 * k + 2, data[..k] + [FlipHigh(data[k])]).Complete?
  {
    hide *;
    var head, rest := data[..k], data[k + 1..];
    SplitAt(data, k);
    ParsePairs(c, 2 * k + 2, head + [FlipHigh(data[k])], rest, Tail(data));
    HighBitChangesChecksum(head, data[k], rest);
    WrongChecksum(c, 2 * k + 2 + 2 * |rest|, head + [FlipHigh(data[k])] + rest, data);
  }

  lemma SplitAt(data: seq<u8>, k: nat)
    requires k < |data| && ETX !in data
    ensures data[..k] + [data[k]] + data[k + 1..] == data && ETX !in data[k + 1..]
  {}

  lemma WrongChecksum(c: seq<u8>, i: nat, acc: seq<u8>, data: seq<u8>)
    requires i <= |c| && c[i..] == Tail(data) && Checksum(acc) != Checksum(data)
    ensures ParseFrom(c, i, acc) == Malformed
  {
    hide Checksum;
    assert c[i] == c[i..][0] && c[i + 1] == c[i..][1] && c[i + 2] == c[i..][2];
  }

  /** A complement byte replaced by `v`. */
  lemma ComplementCorrupted(data: seq<u8>, k: nat, v: u8)
    requires ETX !in data && k < |data| && v != Complement(data[k])
    ensures DecodeData(FrameBody(data)[2 * k + 1 := v]) == None
  {
    var c := FrameBody(data)[2 * k + 1 := v];
    hide Checksum; hide Pairs; hide Complement; hide Tail;
    BodyAt(data, k);
    assert c[..2 * k] == FrameBody(data)[..2 * k];
    ReachPair(data, c, k);
  }

  /** A byte of `ETX ETX CheckSum` replaced by `v`. */
  lemma TailCorrupted(data: seq<u8>, t: nat, v: u8)
    requires ETX !in data && t < 3 && v != Tail(data)[t]
    ensures DecodeData(FrameBody(data)[2 * |data| + t := v]) == None
  {
    var n := 2 * |data|;
    var c := FrameBody(data)[n + t := v];
    hide Checksum; hide Pairs; hide Complement;
    assert c[..n] == FrameBody(data)[..n];
    ReachPair(data, c, |data|);
    assert data[..|data|] == data;
    ChecksumBit6(data);
    assert c[n..] == Tail(data)[t := v];
    assert c[n] == c[n..][0] && c[n + 1] == c[n..][1] && c[n + 2] == c[n..][2];
  }

  /** Exactly which single-byte corruptions after `STX` are accepted: a data byte
      turned into `ETX` at a false end, and nothing else. */
  lemma SingleByteCorruption(data: seq<u8>, p: nat, v: u8)
    requires ETX !in data && p < |FrameBody(data)| && v != FrameBody(data)[p]
    ensures DecodeData(FrameBody(data)[p := v]).Some?
       <==> p < 2 * |data| && p % 2 == 0 && v == ETX && IsFalseEnd(data, p / 2)
  {
    hide Pairs; hide Checksum; hide DecodeData; hide IsFalseEnd; hide Complement;
    var k := p / 2;
    if p >= 2 * |data| {
      TailCorrupted(data, p - 2 * |data|, v);
    } else if p % 2 == 0 {
      BodyAt(data, k);
      NormalByteCorrupted(data, k, v);
    } else {
      BodyAt(data, k);
      ComplementCorrupted(data, k, v);
    }
  }

  /** The decoder still returns data after byte `p` of `body` was replaced by `v`. */
  predicate AcceptsCorruption(body: seq<u8>, p: nat, v: u8) {
    p < |body| && v != body[p] && DecodeData(body[p := v]).Some?
  }

  /** Every single-byte corruption of a frame is rejected if and only if its data
      contain no false end. */
  lemma AllCorruptionsRejected(data: seq<u8>)
    requires ETX !in data
    ensures EncodeDataResponse(data) == [DEL, STX] + FrameBody(data)
    ensures (forall p: nat, v: u8 :: !AcceptsCorruption(FrameBody(data), p, v)) <==> !HasFalseEnd(data)
  {
    assert EncodeDataResponse(data) == [DEL, STX] + FrameBody(data);
    hide DecodeData; hide FrameBody; hide IsFalseEnd;
    BodyLength(data);
    if !HasFalseEnd(data) {
      forall p: nat, v: u8 ensures !AcceptsCorruption(FrameBody(data), p, v) {
        if p < |FrameBody(data)| && v != FrameBody(data)[p] {
          SingleByteCorruption(data, p, v);
        }
      }
    } else {
      var k :| 0 <= k < |data| && IsFalseEnd(data, k);
      BodyAt(data, k);
      SingleByteCorruption(data, 2 * k, ETX);
      assert AcceptsCorruption(FrameBody(data), 2 * k, ETX);
    }
  }

  lemma BodyLength(data: seq<u8>)
    ensures |FrameBody(data)| == 2 * |data| + 3
  {}

  /** Printable payloads, the only ones the protocol uses, have no false end. */
  lemma PrintableHasNoFalseEnd(data: seq<u8>)
    requires AllPrintable(data)
    ensures !HasFalseEnd(data) && ETX !in data
  {}

  // ── The scanning decoder ───────────────────────────────────────────────────

  predicate IsShortCode(b: u8) { b == ACK || b == NAK || b == CAN }

  /** What `decode_response` answers only to. */
  predicate IsTriggering(b: u8) { IsShortCode(b) || b == STX }

  ghost predicate Silent(bytes: seq<u8>) { forall i | 0 <= i < |bytes| :: !IsTriggering(bytes[i]) }

  /** The part of the data behind pair `p / 2` that a false `STX` at `p` makes a frame of its own. */
  function Suffix(data: seq<u8>, p: nat): seq<u8> { if p / 2 < |data| then data[p / 2 + 1..] else [] }

  /** A complement byte turned into `STX` while what precedes the suffix cancels out of the checksum. */
  predicate IsFalseStart(data: seq<u8>, p: nat, v: u8) {
    v == STX && p < 2 * |data| && p % 2 == 1 && Checksum(Suffix(data, p)) == Checksum(data)
  }

  lemma XorOfPrintable(acc: u8, b: u8)
    requires acc & 0x80 == 0 && IsPrintable(b)
    ensures (acc ^ b) & 0x80 == 0
  {}

  lemma {:induction false} XorAllStaysSmall(acc: u8, data: seq<u8>)
    requires acc & 0x80 == 0 && AllPrintable(data)
    ensures XorAll(acc, data) & 0x80 == 0
    decreases |data|
  {
    if data != [] {
      XorOfPrintable(acc, data[0]);
      XorAllStaysSmall(acc ^ data[0], data[1..]);
    }
  }

  lemma ByteFacts(b: u8)
    ensures b & 0x80 == 0 ==> !IsTriggering(b | 0x40)
    ensures IsPrintable(b) ==>
              !IsTriggering(b) && b != ETX && IsPrintable(Complement(b)) && Complement(Complement(b)) == b
    ensures !IsTriggering(ETX)
  {}

  lemma ChecksumIsSilent(data: seq<u8>)
    requires AllPrintable(data)
    ensures !IsTriggering(Checksum(data))
  {
    XorAllStaysSmall(ETX, data);
    ByteFacts(XorAll(ETX, data));
  }

  lemma SilentAppend(a: seq<u8>, b: seq<u8>)
    requires Silent(a) && Silent(b)
    ensures Silent(a + b)
  {
    hide IsTriggering;
  }

  lemma {:induction false} PairsSilent(data: seq<u8>)
    requires AllPrintable(data)
    ensures Silent(Pairs(data))
    decreases |data|
  {
    hide IsTriggering; hide Complement;
    if data != [] {
      PairsSilent(data[1..]);
      ByteFacts(data[0]);
      ByteFacts(Complement(data[0]));
      PairsCons(data);
      SilentAppend([data[0], Complement(data[0])], Pairs(data[1..]));
    }
  }

  lemma BodySilent(data: seq<u8>)
    requires AllPrintable(data)
    ensures Silent(FrameBody(data))
  {
    hide IsTriggering; hide Checksum; hide Pairs;
    PairsSilent(data);
    ChecksumIsSilent(data);
    ByteFacts(ETX);
    SilentAppend(Pairs(data), Tail(data));
  }

  /** The scan passes over bytes that start nothing. */
  lemma {:induction false} ScanSkips(quiet: seq<u8>, rest: seq<u8>)
    requires Silent(quiet)
    ensures DecodeResponse(quiet + rest) == DecodeResponse(rest)
    decreases |quiet|
  {
    hide DecodeData;
    if quiet == [] {
      assert quiet + rest == rest;
    } else {
      assert !IsTriggering(quiet[0]);
      assert (quiet + rest)[1..] == quiet[1..] + rest;
      ScanSkips(quiet[1..], rest);
    }
  }

  /** One byte in a quiet surrounding decides alone. */
  lemma ScanOneByte(a: seq<u8>, v: u8, b: seq<u8>)
    requires Silent(a) && Silent(b)
    ensures DecodeResponse(a + [v] + b) == if IsShortCode(v) then Some(Short(v))
                                           else if v == STX && DecodeData(b).Some? then Some(Data(DecodeData(b).value))
                                           else None
  {
    hide DecodeData; hide Silent;
    assert a + [v] + b == a + ([v] + b);
    ScanSkips(a, [v] + b);
    assert ([v] + b)[1..] == b;
    assert b + [] == b;
    ScanSkips(b, []);
  }

  /** Behind a false `STX` on a data byte the pairs are read one byte late. */
  lemma BehindDataByte(data: seq<u8>, k: nat)
    requires AllPrintable(data) && k < |data|
    ensures DecodeData(FrameBody(data)[2 * k + 1..]) == None
  {
    var c := FrameBody(data)[2 * k + 1..];
    assert Tail(data) == [ETX, ETX, Checksum(data)] + [];
    hide Complement; hide Pairs; hide Tail; hide ParseFrom; hide Checksum;
    BodyAt(data, k);
    ChecksumBit6(data);
    assert c[1..] == FrameBody(data)[2 * k + 2..];
    assert c[0..] == [Complement(data[k])] + (Pairs(data[k + 1..]) + Tail(data));
    PrintableHasNoFalseEnd(data);
    assert ETX !in data[k + 1..];
    ShiftedNeverParses(c, 0, [], data[k], data[k + 1..], Checksum(data), []);
  }

  /** Behind a false `STX` on a complement byte the suffix is read as a frame, under the whole frame's checksum. */
  lemma BehindComplement(data: seq<u8>, k: nat)
    requires ETX !in data && k < |data|
    ensures DecodeData(FrameBody(data)[2 * k + 2..])
         == if Checksum(data[k + 1..]) == Checksum(data) then Some(data[k + 1..]) else None
  {
    hide Complement; hide Checksum; hide Pairs;
    var rest := data[k + 1..];
    var c := FrameBody(data)[2 * k + 2..];
    BodyAt(data, k);
    assert ETX !in rest;
    ParseAllPairs(c, rest, Tail(data));
    assert c[2 * |rest|..] == Tail(data);
    if Checksum(rest) == Checksum(data) {
      assert Tail(data) == Tail(rest) + [];
      ParseTail(c, 2 * |rest|, rest, []);
    } else {
      WrongChecksum(c, 2 * |rest|, rest, data);
    }
  }

  /** Behind a false `STX` on one of the last three bytes nothing is left to decode. */
  lemma BehindTail(data: seq<u8>, t: nat)
    requires t < 3
    ensures DecodeData(FrameBody(data)[2 * |data| + t + 1..]) == None
  {
    hide Checksum; hide Pairs;
    ChecksumBit6(data);
    var c := FrameBody(data)[2 * |data| + t + 1..];
    assert c == Tail(data)[t + 1..];
  }

  lemma BehindFalseStart(data: seq<u8>, p: nat)
    requires AllPrintable(data) && p < |FrameBody(data)|
    ensures DecodeData(FrameBody(data)[p + 1..]) == if IsFalseStart(data, p, STX) then Some(Suffix(data, p)) else None
  {
    PrintableHasNoFalseEnd(data);
    BodyLength(data);
    hide FrameBody; hide DecodeData; hide Checksum;
    if p >= 2 * |data| {
      BehindTail(data, p - 2 * |data|);
    } else if p % 2 == 0 {
      BehindDataByte(data, p / 2);
    } else {
      BehindComplement(data, p / 2);
    }
  }

  /** What the scanning decoder makes of every single-byte corruption of a printable
      frame: a short answer for a control code, the suffix behind a false start, and
      nothing otherwise. */
  lemma ScanningCorruption(data: seq<u8>, p: nat, v: u8)
    requires AllPrintable(data) && p < |FrameBody(data)| && v != FrameBody(data)[p]
    ensures DecodeResponse([DEL, STX] + FrameBody(data)[p := v])
         == if IsShortCode(v) then Some(Short(v))
            else if IsFalseStart(data, p, v) then Some(Data(Suffix(data, p)))
            else None
  {
    var body := FrameBody(data);
    var c := body[p := v];
    PrintableHasNoFalseEnd(data);
    SingleByteCorruption(data, p, v);
    BodySilent(data);
    BehindFalseStart(data, p);
    assert Silent(body[..p]) && Silent(body[p + 1..]);
    assert c == body[..p] + [v] + body[p + 1..];
    hide FrameBody; hide DecodeData; hide Silent; hide Checksum; hide AllPrintable; hide HasFalseEnd;
    ScanOneByte(body[..p], v, body[p + 1..]);
    var buf := [DEL, STX] + c;
    assert buf[1..] == [STX] + c && buf[1..][1..] == c;
    assert DecodeResponse(buf) == DecodeResponse(buf[1..]) == DecodeResponse(c);
  }

  /** Exactly which single-byte corruptions the scanning decoder accepts. */
  lemma AcceptedCorruptions(data: seq<u8>, p: nat, v: u8)
    requires AllPrintable(data) && p < |FrameBody(data)| && v != FrameBody(data)[p]
    ensures DecodeResponse([DEL, STX] + FrameBody(data)[p := v]).Some?
       <==> v == 0x06 || v == 0x15 || v == 0x18
            || (v == STX && p < 2 * |data| && p % 2 == 1 && Checksum(data[p / 2 + 1..]) == Checksum(data))
  {
    hide FrameBody; hide Checksum; hide DecodeResponse;
    ScanningCorruption(data, p, v);
  }

  /** One byte hit turns the data "001" into the data "1". */
  lemma CorruptedFrameReadsAsOtherData()
    ensures DecodeResponse([DEL, STX] + FrameBody([0x30, 0x30, 0x31])[3 := STX]) == Some(Data([0x31]))
  {
    var data: seq<u8> := [0x30, 0x30, 0x31];
    BodyLength(data);
    BodyAt(data, 1);
    assert data[2..] == [0x31];
    assert XorAll(ETX, [0x31]) == XorAll(ETX ^ 0x31, []);
    assert data[1..] == [0x30, 0x31] && data[1..][1..] == [0x31];
    assert XorAll(ETX, data) == XorAll(ETX ^ 0x30 ^ 0x30, [0x31]);
    assert Complement(data[1]) == 0x4F;
    hide FrameBody; hide DecodeResponse; hide XorAll;
    ScanningCorruption(data, 3, STX);
  }
}
