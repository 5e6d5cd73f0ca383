/** AZT 2.0 frames: complementary byte pairs, XOR checksum, and the parsers on
    both ends of the line. */
module Azt {
  import opened Wire

  const DEL: u8 := 0x7F
  const STX: u8 := 0x02
  const ETX: u8 := 0x03
  const ACK: u8 := 0x06
  const NAK: u8 := 0x15
  const CAN: u8 := 0x18
  const MAX_ACCUM := 300

  /** 7-bit inversion; bit 7 is always dropped. */
  function Complement(b: u8): u8 { !b & 0x7F }

  function XorAll(acc: u8, bytes: seq<u8>): u8
    decreases |bytes|
  {
    if bytes == [] then acc else XorAll(acc ^ bytes[0], bytes[1..])
  }

  /** Over the normal bytes and one `ETX`; bit 6 is always set. */
  function Checksum(normal: seq<u8>): u8 { XorAll(ETX, normal) | 0x40 }

  /** Every normal byte followed by its complement. */
  function Pairs(bytes: seq<u8>): (r: seq<u8>)
    ensures |r| == 2 * |bytes|
  {
    if bytes == [] then [] else [bytes[0], Complement(bytes[0])] + Pairs(bytes[1..])
  }

  function Encode(start: u8, normal: seq<u8>): seq<u8> {
    [DEL, start] + Pairs(normal) + [ETX, ETX, Checksum(normal)]
  }

  lemma XorBit(a: u8, b: u8, mask: u8)
    requires IsOneBit(mask)
    ensures Has(a ^ b, mask) <==> Has(a, mask) != Has(b, mask)
  {}

  lemma {:induction false} CountFront(a: u8, rest: seq<u8>, mask: u8)
    ensures CountWith([a] + rest, mask) == (if Has(a, mask) then 1 else 0) + CountWith(rest, mask)
    decreases |rest|
  {
    hide Has;
    var all := [a] + rest;
    assert all[|all| - 1] == (if rest == [] then a else rest[|rest| - 1]);
    if rest == [] {
      assert all[..0] == [];
    } else {
      CountFront(a, rest[..|rest| - 1], mask);
      assert all[..|all| - 1] == [a] + rest[..|rest| - 1];
    }
  }

  lemma XorAllSteps(acc: u8, bytes: seq<u8>, x: u8)
    requires bytes != [] && x == acc ^ bytes[0]
    ensures XorAll(acc, bytes) == XorAll(x, bytes[1..]) && XorAll(acc, []) == acc
  {}

  lemma OneByteCounts(acc: u8, mask: u8)
    ensures CountWith([acc] + [], mask) == if Has(acc, mask) then 1 else 0
  {
    hide Has;
    assert [acc] + [] == [acc] && [acc][..0] == [];
  }

  lemma {:induction false} XorAllIsParity(acc: u8, bytes: seq<u8>, mask: u8)
    requires IsOneBit(mask)
    ensures Has(XorAll(acc, bytes), mask) <==> CountWith([acc] + bytes, mask) % 2 == 1
    decreases |bytes|
  {
    if bytes == [] {
      OneByteCounts(acc, mask);
      hide Has; hide CountWith; hide IsOneBit;
    } else {
      var b, rest := bytes[0], bytes[1..];
      var x := acc ^ b;
      XorAllIsParity(x, rest, mask);
      XorBit(acc, b, mask);
      XorAllSteps(acc, bytes, x);
      hide *;
      assert bytes == [b] + rest;
      CountFront(acc, bytes, mask);
      CountFront(x, rest, mask);
      CountFront(b, rest, mask);
    }
  }

  /** Each bit of the checksum makes the count of that bit over the normal bytes and one
      `ETX` even, only bit 6 is always set. */
  lemma ChecksumIsParity(normal: seq<u8>, mask: u8)
    requires IsOneBit(mask)
    ensures Has(Checksum(normal), mask) <==> mask == 0x40 || CountWith([0x03] + normal, mask) % 2 == 1
  {
    XorAllIsParity(ETX, normal, mask);
    var w := XorAll(ETX, normal);
    hide XorAll; hide CountWith;
    assert Has(w | 0x40, mask) <==> mask == 0x40 || Has(w, mask);
  }

  // ── Network addresses ──────────────────────────────────────────────────────

  function StartByte(offsetIndex: nat): u8
    requires offsetIndex <= 17
  {
    if offsetIndex == 0 then STX else Byte(6 + offsetIndex)
  }

  /** Start byte and address byte of network number `n`: fifteen addresses per offset. */
  function SplitAddress(n: nat): (u8, u8)
    requires n < 256
  {
    var zeroBased := if n == 0 then 0 else n - 1;
    (StartByte(zeroBased / 15), Byte(0x20 + zeroBased % 15 + 1))
  }

  function Normal(addr: nat, cmd: u8, data: seq<u8>): seq<u8>
    requires addr < 256
  {
    [SplitAddress(addr).1, cmd] + data
  }

  function BuildRequest(addr: nat, cmd: u8, data: seq<u8>): seq<u8>
    requires addr < 256
  {
    Encode(SplitAddress(addr).0, Normal(addr, cmd, data))
  }

  /** Broadcast frames carry no address byte. */
  function AddressPart(addrByte: Option<u8>): seq<u8> {
    match addrByte case Some(a) => [a] case None => []
  }

  method BuildFrame(start: u8, addrByte: Option<u8>, cmd: u8, data: seq<u8>) returns (out: seq<u8>)
    ensures out == Encode(start, AddressPart(addrByte) + [cmd] + data)
  {
    hide Complement; hide Checksum; hide Pairs;
    out := [DEL, start];
    var normal: seq<u8> := [];
    PairsEmpty();
    if addrByte.Some? {
      out, normal := PushPair(out, addrByte.value), normal + [addrByte.value];
      PairsSnoc([], addrByte.value);
    }
    PairsSnoc(normal, cmd);
    out, normal := PushPair(out, cmd), normal + [cmd];
    var i := 0;
    while i < |data|
      invariant 0 <= i <= |data|
      invariant normal == AddressPart(addrByte) + [cmd] + data[..i]
      invariant out == [DEL, start] + Pairs(normal)
    {
      PairsSnoc(normal, data[i]);
      out, normal := PushPair(out, data[i]), normal + [data[i]];
      i := i + 1;
    }
    assert normal == AddressPart(addrByte) + [cmd] + data;
    out := out + [ETX];
    out := out + [ETX];
    out := out + [Checksum(normal)];
    assert out == [DEL, start] + Pairs(normal) + [ETX, ETX, Checksum(normal)];
  }

  /** A normal byte followed by its complement. */
  function PushPair(out: seq<u8>, b: u8): seq<u8> { out + [b, Complement(b)] }

  lemma PairsEmpty()
    ensures Pairs([]) == []
  {}

  lemma {:induction false} PairsAppend(a: seq<u8>, b: seq<u8>)
    ensures Pairs(a + b) == Pairs(a) + Pairs(b)
    decreases |a|
  {
    if a == [] {
      assert a + b == b;
    } else {
      assert (a + b)[1..] == a[1..] + b;
      PairsAppend(a[1..], b);
    }
  }

  lemma PairsSnoc(a: seq<u8>, b: u8)
    ensures Pairs(a + [b]) == Pairs(a) + [b, Complement(b)]
  {
    PairsAppend(a, [b]);
  }

  // ── Reading requests ───────────────────────────────────────────────────────

  datatype BodyParse = Complete(consumed: nat, normal: seq<u8>) | Incomplete | Malformed

  /** Parses pairs from `idx` on; `normal` are the bytes read so far. */
  function ParseFrom(body: seq<u8>, idx: nat, normal: seq<u8>): (r: BodyParse)
    requires idx <= |body|
    ensures r.Complete? ==> idx + 3 <= r.consumed <= |body| && normal <= r.normal
                            && r.consumed == idx + 2 * (|r.normal| - |normal|) + 3
    decreases |body| - idx
  {
    if idx == |body| then Incomplete
    else if body[idx] == ETX then
      if idx + 1 == |body| then Incomplete
      else if body[idx + 1] != ETX then Malformed
      else if idx + 2 == |body| then Incomplete
      else if body[idx + 2] != Checksum(normal) then Malformed
      else Complete(idx + 3, normal)
    else if idx + 1 == |body| then Incomplete
    else if body[idx + 1] != Complement(body[idx]) then Malformed
    else ParseFrom(body, idx + 2, normal + [body[idx]])
  }

  function ParseBody(body: seq<u8>): (r: BodyParse)
    ensures r.Complete? ==> 3 <= r.consumed <= |body| && r.consumed == 2 * |r.normal| + 3
  {
    ParseFrom(body, 0, [])
  }

  method ParseRequestBody(body: seq<u8>) returns (r: BodyParse)
    ensures r == ParseBody(body)
  {
    var normal: seq<u8> := [];
    var idx := 0;
    while true
      invariant 0 <= idx <= |body|
      invariant ParseFrom(body, idx, normal) == ParseBody(body)
      decreases |body| - idx
    {
      if idx == |body| {
        return Incomplete;
      }
      var b := body[idx];
      if b == ETX {
        if idx + 1 == |body| {
          return Incomplete;
        }
        if body[idx + 1] != ETX {
          return Malformed;
        }
        if idx + 2 == |body| {
          return Incomplete;
        }
        if body[idx + 2] != Checksum(normal) {
          return Malformed;
        }
        return Complete(idx + 3, normal);
      }
      if idx + 1 == |body| {
        return Incomplete;
      }
      if body[idx + 1] != Complement(b) {
        return Malformed;
      }
      normal := normal + [b];
      idx := idx + 2;
    }
  }

  /** The master start bytes, one per address offset. */
  predicate IsStart(b: u8) { b == STX || 0x07 <= b <= 0x14 }

  function FirstStart(buf: seq<u8>): (i: nat)
    ensures i <= |buf|
    ensures i < |buf| ==> IsStart(buf[i])
  {
    if buf == [] || IsStart(buf[0]) then 0 else 1 + FirstStart(buf[1..])
  }

  datatype TrkRequest = TrkRequest(addr: Option<nat>, cmd: u8, data: seq<u8>)

  function AddressOffset(start: u8): nat
    requires IsStart(start)
  {
    StartValue(start);
    if start == STX then 0 else (Value(start) - 6) * 15
  }

  lemma StartValue(start: u8)
    requires IsStart(start)
    ensures start == STX || 7 <= Value(start) <= 0x14
  {}

  /** The request a parsed frame stands for; none when the command byte is missing. */
  function Resolve(start: u8, normal: seq<u8>): Option<TrkRequest>
    requires IsStart(start)
  {
    var hasAddr := normal != [] && 0x21 <= normal[0] <= 0x2F;
    var rest := if hasAddr then normal[1..] else normal;
    if rest == [] then None
    else Some(TrkRequest(if hasAddr then Some(AddressOffset(start) + NibbleValue(normal[0])) else None, rest[0], rest[1..]))
  }

  /** What one round of the scan finds at the first start byte. */
  datatype Scan =
    | Wait                                             // no start byte, or a frame still arriving
    | Frame(request: Option<TrkRequest>, rest: seq<u8>)
    | Overflow(rest: seq<u8>)                          // still arriving, but more than 300 bytes buffered
    | Bad(rest: seq<u8>)

  function ScanFront(accum: seq<u8>): (r: Scan)
    ensures !r.Wait? ==> |r.rest| < |accum|
  {
    var s := FirstStart(accum);
    if s == |accum| then Wait else ScanFrom(accum, s)
  }

  /** What is made of the buffer when its first start byte is at `s`. */
  function ScanFrom(accum: seq<u8>, s: nat): (r: Scan)
    requires s < |accum| && IsStart(accum[s])
    ensures !r.Wait? ==> |r.rest| < |accum|
  {
    match ParseBody(accum[s + 1..])
    case Complete(consumed, normal) => Frame(Resolve(accum[s], normal), accum[s + 1..][consumed..])
    case Incomplete => if |accum| > MAX_ACCUM then Overflow(accum[s + 1..]) else Wait
    case Malformed => Bad(accum[s + 1..])
  }

  /** One call of `pop_request`: the result and the buffer it leaves. */
  function Pop(accum: seq<u8>): (r: (Option<TrkRequest>, seq<u8>))
    ensures |r.1| <= |accum|
    ensures r.0.Some? ==> |r.1| < |accum|
    decreases |accum|
  {
    match ScanFront(accum)
    case Wait => (None, accum)
    case Frame(request, rest) => (request, rest)
    case Overflow(rest) => Pop(rest)
    case Bad(rest) => Pop(rest)
  }

  /** The receive buffer that `pop_request` drains in place. */
  class ReceiveBuffer {
    var accum: seq<u8>

    constructor ()
      ensures accum == []
    {
      accum := [];
    }

    method Append(chunk: seq<u8>)
      modifies this
      ensures accum == old(accum) + chunk
    {
      accum := accum + chunk;
    }

    method PopRequest() returns (r: Option<TrkRequest>)
      modifies this
      ensures (r, accum) == Pop(old(accum))
    {
      hide ParseBody; hide Resolve; hide IsStart;
      while true
        invariant Pop(accum) == Pop(old(accum))
        decreases |accum|
      {
        var start := FirstStart(accum);
        if start == |accum| {
          return None;
        }
        var body := ParseRequestBody(accum[start + 1..]);
        match body {
          case Complete(consumed, normal) =>
            r := Resolve(accum[start], normal);
            accum := accum[start + 1..][consumed..];
            return;
          case Incomplete =>
            if |accum| > MAX_ACCUM {
              accum := accum[start + 1..];
            } else {
              return None;
            }
          case Malformed =>
            accum := accum[start + 1..];
        }
      }
    }

    /** The caller's loop: pop until `None`. */
    method PopAll() returns (requests: seq<TrkRequest>)
      modifies this
      ensures requests == PopUntilNone(old(accum)).0 && accum == PopUntilNone(old(accum)).1
    {
      hide Pop;
      requests := [];
      ghost var all := PopUntilNone(accum);
      while true
        invariant all.0 == requests + PopUntilNone(accum).0 && all.1 == PopUntilNone(accum).1
        decreases |accum|
      {
        ghost var before := accum;
        var r := PopRequest();
        if r.None? {
          assert PopUntilNone(before) == ([], accum);
          assert requests + [] == requests;
          break;
        }
        assert PopUntilNone(before).0 == [r.value] + PopUntilNone(accum).0;
        requests := requests + [r.value];
      }
    }
  }

  function PopUntilNone(accum: seq<u8>): (seq<TrkRequest>, seq<u8>)
    decreases |accum|
  {
    var p := Pop(accum);
    if p.0.None? then ([], p.1)
    else
      var q := PopUntilNone(p.1);
      ([p.0.value] + q.0, q.1)
  }

  // ── Reading responses ──────────────────────────────────────────────────────

  function EncodeDataResponse(data: seq<u8>): seq<u8> { Encode(STX, data) }

  /** The body after `STX` of a pump's answer. */
  function DecodeData(body: seq<u8>): Option<seq<u8>> {
    match ParseBody(body)
    case Complete(_, normal) => Some(normal)
    case _ => None
  }

  method DecodeDataFrame(body: seq<u8>) returns (r: Option<seq<u8>>)
    ensures r == DecodeData(body)
  {
    var data: seq<u8> := [];
    var idx := 0;
    while idx < |body|
      invariant 0 <= idx <= |body|
      invariant ParseFrom(body, idx, data) == ParseBody(body)
    {
      var b := body[idx];
      if b == ETX {
        if idx + 1 >= |body| || body[idx + 1] != ETX {
          return None;
        }
        if idx + 2 >= |body| {
          return None;
        }
        if body[idx + 2] != Checksum(data) {
          return None;
        }
        return Some(data);
      }
      if idx + 1 >= |body| {
        return None;
      }
      if body[idx + 1] != Complement(b) {
        return None;
      }
      data := data + [b];
      idx := idx + 2;
    }
    return None;
  }

  datatype Response = Short(code: u8) | Data(bytes: seq<u8>)

  function DecodeResponse(buf: seq<u8>): Option<Response> {
    if buf == [] then None
    else if buf[0] == ACK || buf[0] == NAK || buf[0] == CAN then Some(Short(buf[0]))
    else if buf[0] == STX && DecodeData(buf[1..]).Some? then Some(Data(DecodeData(buf[1..]).value))
    else DecodeResponse(buf[1..])
  }
}
