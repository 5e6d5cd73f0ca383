/** What the AZT receiver makes of whole, cut and noisy streams. */
module AztStream {
  import opened Wire
  import opened Azt

  /** Addresses the site configuration admits for an AZT nozzle. */
  predicate ConfigAdmits(addr: nat) { 1 <= addr <= 225 }

  /** The characters AZT commands and digits are made of. */
  predicate IsPrintable(b: u8) { 0x20 <= b <= 0x5F }

  ghost predicate AllPrintable(bytes: seq<u8>) { forall i | 0 <= i < |bytes| :: IsPrintable(bytes[i]) }

  // ── Parsing what the builder wrote ─────────────────────────────────────────

  function Tail(normal: seq<u8>): seq<u8> { [ETX, ETX, Checksum(normal)] }

  /** The parser walks over well-formed pairs. */
  lemma {:induction false} ParsePairs(body: seq<u8>, idx: nat, acc: seq<u8>, normal: seq<u8>, tail: seq<u8>)
    requires idx <= |body| && body[idx..] == Pairs(normal) + tail && ETX !in normal
    ensures idx + 2 * |normal| <= |body| && body[idx + 2 * |normal|..] == tail
    ensures ParseFrom(body, idx, acc) == ParseFrom(body, idx + 2 * |normal|, acc + normal)
    decreases |normal|
  {
    hide *;
    if normal == [] {
      assert acc + normal == acc && body[idx..] == tail by { PairsEmpty(); }
    } else {
      OnePair(body, idx, acc, normal, tail);
      ParsePairs(body, idx + 2, acc + [normal[0]], normal[1..], tail);
      assert acc + [normal[0]] + normal[1..] == acc + normal;
    }
  }

  lemma OnePair(body: seq<u8>, idx: nat, acc: seq<u8>, normal: seq<u8>, tail: seq<u8>)
    requires normal != [] && idx <= |body| && body[idx..] == Pairs(normal) + tail && ETX !in normal
    ensures idx + 2 <= |body| && body[idx + 2..] == Pairs(normal[1..]) + tail && ETX !in normal[1..]
    ensures ParseFrom(body, idx, acc) == ParseFrom(body, idx + 2, acc + [normal[0]])
  {
    hide Complement; hide Checksum; hide Pairs;
    PairsCons(normal);
    assert body[idx..][0] == normal[0] && body[idx..][1] == Complement(normal[0]);
    assert body[idx + 2..] == body[idx..][2..];
    assert forall x | x in normal[1..] :: x in normal;
  }

  lemma ParseTail(body: seq<u8>, i: nat, acc: seq<u8>, rest: seq<u8>)
    requires i <= |body| && body[i..] == Tail(acc) + rest
    ensures ParseFrom(body, i, acc) == Complete(i + 3, acc)
  {
    hide Checksum;
    assert body[i] == body[i..][0] && body[i + 1] == body[i..][1] && body[i + 2] == body[i..][2];
  }

  lemma ParseAllPairs(body: seq<u8>, normal: seq<u8>, tail: seq<u8>)
    requires ETX !in normal && body == Pairs(normal) + tail
    ensures ParseFrom(body, 0, []) == ParseFrom(body, 2 * |normal|, normal)
    ensures body[2 * |normal|..] == tail
  {
    hide *;
    assert body[0..] == body;
    assert [] + normal == normal;
    ParsePairs(body, 0, [], normal, tail);
  }

  /** A whole frame body parses completely, whatever follows it. */
  lemma ParseWhole(body: seq<u8>, normal: seq<u8>, rest: seq<u8>)
    requires ETX !in normal && body == Pairs(normal) + (Tail(normal) + rest)
    ensures ParseBody(body) == Complete(2 * |normal| + 3, normal)
    ensures 2 * |normal| + 3 <= |body| && body[2 * |normal| + 3..] == rest
  {
    hide Pairs; hide ParseFrom; hide Checksum;
    ParseAllPairs(body, normal, Tail(normal) + rest);
    ParseTail(body, 2 * |normal|, normal, rest);
    assert body[2 * |normal| + 3..] == body[2 * |normal|..][3..];
  }

  /** Every body that parses completely is exactly such an encoding. */
  lemma {:induction false} ParsedIsEncoded(body: seq<u8>, idx: nat, acc: seq<u8>)
    requires idx <= |body| && ParseFrom(body, idx, acc).Complete?
    ensures var r := ParseFrom(body, idx, acc);
            && ETX !in r.normal[|acc|..]
            && body[idx..r.consumed] == Pairs(r.normal[|acc|..]) + Tail(r.normal)
    decreases |body| - idx
  {
    hide Complement; hide Checksum; hide Pairs;
    var r := ParseFrom(body, idx, acc);
    if body[idx] == ETX {
      assert body[idx..idx + 3] == [body[idx], body[idx + 1], body[idx + 2]];
      assert r.normal[|acc|..] == [];
      PairsEmpty();
    } else {
      ParsedIsEncoded(body, idx + 2, acc + [body[idx]]);
      PrependPair(body, idx, r.consumed, r.normal, |acc|);
    }
  }

  lemma PrependPair(body: seq<u8>, idx: nat, end: nat, normal: seq<u8>, m: nat)
    requires m < |normal| && idx + 2 <= end <= |body| && normal[m] == body[idx] && body[idx + 1] == Complement(body[idx])
    requires body[idx] != ETX && ETX !in normal[m + 1..]
    requires body[idx + 2..end] == Pairs(normal[m + 1..]) + Tail(normal)
    ensures ETX !in normal[m..] && body[idx..end] == Pairs(normal[m..]) + Tail(normal)
  {
    hide Complement; hide Checksum; hide Pairs;
    var n := normal[m..];
    assert n == [normal[m]] + normal[m + 1..];
    PairsCons(n);
    assert n[1..] == normal[m + 1..];
    assert body[idx..end] == [body[idx], body[idx + 1]] + body[idx + 2..end];
  }

  lemma PairsCons(normal: seq<u8>)
    requires normal != []
    ensures Pairs(normal) == [normal[0], Complement(normal[0])] + Pairs(normal[1..])
  {}

  lemma OrSetsBit6(x: u8)
    ensures x | 0x40 != ETX && !IsStart(x | 0x40)
  {}

  lemma ChecksumBit6(normal: seq<u8>)
    ensures Checksum(normal) != ETX && !IsStart(Checksum(normal))
  {
    OrSetsBit6(XorAll(ETX, normal));
  }

  /** Read one byte late, complements come before the bytes they belong to and no frame ends. */
  lemma {:induction false} ShiftedNeverParses(c: seq<u8>, idx: nat, acc: seq<u8>, a: u8, rest: seq<u8>, cs: u8, more: seq<u8>)
    requires ETX !in rest && cs != ETX
    requires idx <= |c| && c[idx..] == [Complement(a)] + (Pairs(rest) + ([ETX, ETX, cs] + more))
    ensures !ParseFrom(c, idx, acc).Complete?
    decreases |rest|
  {
    hide Complement; hide Checksum; hide Pairs;
    ChecksumBit6(acc);
    assert forall i | 0 <= i < |c| - idx :: c[idx + i] == c[idx..][i];
    if rest == [] {
      PairsEmpty();
      assert c[idx + 1] == ETX && c[idx + 2] == ETX && c[idx + 3] == cs;
    } else {
      PairsCons(rest);
      assert c[idx + 1] == rest[0];
      assert c[idx + 2..] == c[idx..][2..];
      assert c[idx + 2..] == [Complement(rest[0])] + (Pairs(rest[1..]) + ([ETX, ETX, cs] + more));
      ShiftedNeverParses(c, idx + 2, acc + [c[idx]], rest[0], rest[1..], cs, more);
    }
  }

  // ── Addresses ──────────────────────────────────────────────────────────────

  lemma SplitOf(addr: nat)
    requires ConfigAdmits(addr)
    ensures SplitAddress(addr) == (StartByte((addr - 1) / 15), Byte(0x20 + ((addr - 1) % 15 + 1)))
  {
    hide Byte;
  }

  lemma AddressRoundTrip(addr: nat)
    requires ConfigAdmits(addr)
    ensures var (start, a) := SplitAddress(addr);
            IsStart(start) && IsAddressByte(a) && AddressOffset(start) + NibbleValue(a) == addr
  {
    var o, l := (addr - 1) / 15, (addr - 1) % 15 + 1;
    assert o <= 14 && addr == 15 * o + l;
    hide *;
    SplitOf(addr);
    LocalAddress(l);
    StartOffset(o);
  }

  /** A byte that names one of fifteen addresses and confuses no scan. */
  predicate IsAddressByte(a: u8) {
    0x21 <= a <= 0x2F && a != ETX && !IsStart(a) && !IsStart(Complement(a))
  }

  lemma StartOffset(o: nat)
    requires o <= 14
    ensures IsStart(StartByte(o)) && AddressOffset(StartByte(o)) == 15 * o
  {
    if o > 0 {
      OffsetByte(o);
    } else {
      StartRange(STX);
    }
  }

  lemma LocalAddress(l: nat)
    requires 1 <= l <= 15
    ensures NibbleValue(Byte(0x20 + l)) == l && IsAddressByte(Byte(0x20 + l))
  {
    var v := 0x20 + l;
    assert v / 16 == 2 && v % 16 == l;
    assert Nibble(2) == 2;
    NibbleRoundTrip(l);
    LowNibbleOnly(Nibble(l));
  }

  lemma LowNibbleOnly(x: u8)
    requires x & 0xF0 == 0
    ensures var a := Pack(2, x);
            NibbleValue(a) == NibbleValue(x) && 0x20 <= a <= 0x2F && (a == 0x20 <==> x == 0)
            && 0x50 <= Complement(a) <= 0x5F
  {
    var a := Pack(2, x);
    assert a & 8 == x & 8 && a & 4 == x & 4 && a & 2 == x & 2 && a & 1 == x & 1;
  }

  lemma OffsetByte(o: nat)
    requires 1 <= o <= 17
    ensures Value(Byte(6 + o)) == 6 + o && Byte(6 + o) != STX
    ensures IsStart(Byte(6 + o)) <==> o <= 14
  {
    ValueOfByte(6 + o);
    StartRange(Byte(6 + o));
  }

  lemma StartRange(b: u8)
    ensures IsStart(b) <==> b == STX || 7 <= Value(b) <= 20
    ensures Value(b) >= 7 ==> b != STX
  {}

  // ── Exactly which requests survive the wire ────────────────────────────────

  lemma {:induction false} FirstStartIs(g: seq<u8>, y: seq<u8>)
    requires (forall j | 0 <= j < |g| :: !IsStart(g[j])) && y != [] && IsStart(y[0])
    ensures FirstStart(g + y) == |g|
    decreases |g|
  {
    hide IsStart;
    if g == [] {
      assert g + y == y;
    } else {
      assert (g + y)[1..] == g[1..] + y;
      FirstStartIs(g[1..], y);
    }
  }

  ghost predicate NoStart(g: seq<u8>) { forall j | 0 <= j < |g| :: !IsStart(g[j]) }

  lemma {:induction false} NoStartFirst(g: seq<u8>)
    requires NoStart(g)
    ensures FirstStart(g) == |g|
    decreases |g|
  {
    hide IsStart;
    if g != [] {
      assert forall j | 0 <= j < |g[1..]| :: g[1..][j] == g[j + 1];
      NoStartFirst(g[1..]);
    }
  }

  lemma ScanAt(buf: seq<u8>, s: nat)
    requires FirstStart(buf) == s < |buf|
    ensures ScanFront(buf) == ScanFrom(buf, s)
  {
    hide FirstStart; hide ScanFrom; hide IsStart;
  }

  /** A frame behind noise without a start byte is scanned whole. */
  lemma ScanWhole(buf: seq<u8>, g: seq<u8>, start: u8, normal: seq<u8>, rest: seq<u8>)
    requires NoStart(g) && IsStart(start) && ETX !in normal
    requires buf == g + ([start] + (Pairs(normal) + (Tail(normal) + rest)))
    ensures ScanFront(buf) == Frame(Resolve(start, normal), rest)
  {
    hide IsStart; hide Pairs; hide Tail; hide ParseBody; hide Resolve; hide ScanFront;
    var body := Pairs(normal) + (Tail(normal) + rest);
    FirstStartIs(g, [start] + body);
    assert buf[|g| + 1..] == body && buf[|g|] == start;
    ParseWhole(body, normal, rest);
    ScanAt(buf, |g|);
  }

  /** ... and so it is popped whole. */
  lemma PopWhole(buf: seq<u8>, g: seq<u8>, start: u8, normal: seq<u8>, rest: seq<u8>)
    requires NoStart(g) && IsStart(start) && ETX !in normal
    requires buf == g + ([start] + (Pairs(normal) + (Tail(normal) + rest)))
    ensures Pop(buf) == (Resolve(start, normal), rest)
  {
    hide IsStart; hide Resolve; hide ScanFront; hide NoStart;
    ScanWhole(buf, g, start, normal, rest);
  }

  lemma TailLength(normal: seq<u8>)
    ensures |Tail(normal)| == 3
  {}

  /** What one round of the scan says about the first start byte. */
  lemma ScanShape(buf: seq<u8>)
    requires !ScanFront(buf).Wait?
    ensures var i := FirstStart(buf);
            && i < |buf| && IsStart(buf[i])
            && (ScanFront(buf).Frame? ==>
                  ParseBody(buf[i + 1..]).Complete?
                  && ScanFront(buf).request == Resolve(buf[i], ParseBody(buf[i + 1..]).normal))
            && (!ScanFront(buf).Frame? ==> ScanFront(buf).rest == buf[i + 1..])
  {
    hide IsStart; hide ParseBody; hide Resolve; hide FirstStart; hide ScanFront;
    FirstStartOrWait(buf);
    ScanAt(buf, FirstStart(buf));
  }

  lemma FirstStartOrWait(buf: seq<u8>)
    requires !ScanFront(buf).Wait?
    ensures FirstStart(buf) < |buf| && IsStart(buf[FirstStart(buf)])
  {
    hide IsStart; hide FirstStart; hide ScanFrom;
  }

  /** Whatever `Pop` returns was parsed behind some start byte of the buffer. */
  lemma {:induction false} PoppedFrom(buf: seq<u8>) returns (s: nat, consumed: nat, normal: seq<u8>)
    requires Pop(buf).0.Some?
    ensures s < |buf| && IsStart(buf[s]) && ParseBody(buf[s + 1..]) == Complete(consumed, normal)
    ensures Pop(buf).0 == Resolve(buf[s], normal)
    decreases |buf|
  {
    hide IsStart; hide ParseBody; hide Resolve; hide FirstStart; hide ScanFront;
    ScanShape(buf);
    var i := FirstStart(buf);
    if ScanFront(buf).Frame? {
      s, consumed, normal := i, ParseBody(buf[i + 1..]).consumed, ParseBody(buf[i + 1..]).normal;
    } else {
      s, consumed, normal := PoppedFrom(buf[i + 1..]);
      s := DeeperStart(buf, i, s);
    }
  }

  lemma DeeperStart(buf: seq<u8>, i: nat, s: nat) returns (t: nat)
    requires i + 1 + s < |buf|
    ensures t == i + 1 + s && buf[t] == buf[i + 1..][s] && buf[t + 1..] == buf[i + 1..][s + 1..]
  {
    t := i + 1 + s;
  }

  /** A request comes back from the wire as it was sent if and only if its address
      is one the configuration admits and neither command nor data contain `ETX`. */
  lemma RequestRoundTrip(addr: nat, cmd: u8, data: seq<u8>)
    requires addr < 256
    ensures Pop(BuildRequest(addr, cmd, data)).0 == Some(TrkRequest(Some(addr), cmd, data))
       <==> ConfigAdmits(addr) && cmd != ETX && ETX !in data
  {
    if ConfigAdmits(addr) && cmd != ETX && ETX !in data {
      RequestSurvives(addr, cmd, data, []);
      assert BuildRequest(addr, cmd, data) + [] == BuildRequest(addr, cmd, data);
    }
    if Pop(BuildRequest(addr, cmd, data)).0 == Some(TrkRequest(Some(addr), cmd, data)) {
      OnlyGoodRequestsSurvive(addr, cmd, data);
    }
  }

  lemma NormalResolves(addr: nat, cmd: u8, data: seq<u8>)
    requires ConfigAdmits(addr)
    ensures var start := SplitAddress(addr).0;
            IsStart(start) && Resolve(start, Normal(addr, cmd, data)) == Some(TrkRequest(Some(addr), cmd, data))
    ensures cmd != ETX && ETX !in data ==> ETX !in Normal(addr, cmd, data)
  {
    AddressRoundTrip(addr);
    hide SplitAddress; hide AddressOffset; hide NibbleValue; hide IsStart;
    var normal := Normal(addr, cmd, data);
    assert normal[0] == SplitAddress(addr).1 && normal[1..] == [cmd] + data && normal[1..][1..] == data;
  }

  lemma EncodedShape(start: u8, normal: seq<u8>, rest: seq<u8>)
    ensures Encode(start, normal) + rest == [DEL] + ([start] + (Pairs(normal) + (Tail(normal) + rest)))
    ensures |Encode(start, normal)| == 2 * |normal| + 5
  {
    hide Checksum; hide Pairs;
  }

  lemma PopEncoded(start: u8, normal: seq<u8>, rest: seq<u8>)
    requires IsStart(start) && ETX !in normal
    ensures Pop(Encode(start, normal) + rest) == (Resolve(start, normal), rest)
  {
    assert NoStart([DEL]);
    hide Encode; hide Resolve; hide Pop; hide IsStart; hide NoStart; hide Tail;
    EncodedShape(start, normal, rest);
    PopWhole(Encode(start, normal) + rest, [DEL], start, normal, rest);
  }

  lemma RequestSurvives(addr: nat, cmd: u8, data: seq<u8>, rest: seq<u8>)
    requires ConfigAdmits(addr) && cmd != ETX && ETX !in data
    ensures Pop(BuildRequest(addr, cmd, data) + rest) == (Some(TrkRequest(Some(addr), cmd, data)), rest)
  {
    hide SplitAddress; hide Resolve; hide Encode; hide Pop; hide IsStart; hide Normal;
    NormalResolves(addr, cmd, data);
    PopEncoded(SplitAddress(addr).0, Normal(addr, cmd, data), rest);
  }

  lemma {:induction false} PairsInjective(a: seq<u8>, b: seq<u8>)
    requires Pairs(a) == Pairs(b)
    ensures a == b
    decreases |a|
  {
    hide Complement;
    assert |Pairs(a)| == 2 * |a| && |Pairs(b)| == 2 * |b|;
    if a != [] {
      assert Pairs(a)[0] == a[0] && Pairs(b)[0] == b[0];
      assert Pairs(a)[2..] == Pairs(a[1..]) && Pairs(b)[2..] == Pairs(b[1..]);
      PairsInjective(a[1..], b[1..]);
    }
  }

  /** A body of the builder's length that parses completely is the builder's own. */
  lemma SameBody(body: seq<u8>, normal: seq<u8>, tail: seq<u8>, n: seq<u8>)
    requires body == Pairs(normal) + tail && |tail| == 3 && |n| == |normal|
    requires ParseBody(body).Complete? && ParseBody(body).normal == n
    ensures n == normal && ETX !in n
  {
    assert ParseFrom(body, 0, []) == ParseBody(body);
    assert |Tail(n)| == 3;
    hide *;
    ParsedIsEncoded(body, 0, []);
    assert n[0..] == n;
    assert body[0..|body|] == body;
    assert body[..2 * |n|] == Pairs(normal);
    assert (Pairs(n) + Tail(n))[..2 * |n|] == Pairs(n);
    PairsInjective(n, normal);
  }

  lemma OutsideAddresses(addr: nat)
    requires addr < 256 && !ConfigAdmits(addr)
    ensures addr == 0 || !IsStart(SplitAddress(addr).0)
    ensures AddressOffset(STX) + NibbleValue(0x21) == 1
    ensures addr == 0 ==> SplitAddress(addr) == (STX, 0x21)
  {
    if addr > 225 {
      OffsetByte((addr - 1) / 15);
    }
  }

  lemma OnlyGoodRequestsSurvive(addr: nat, cmd: u8, data: seq<u8>)
    requires addr < 256
    requires Pop(BuildRequest(addr, cmd, data)).0 == Some(TrkRequest(Some(addr), cmd, data))
    ensures ConfigAdmits(addr) && cmd != ETX && ETX !in data
  {
    hide Pairs; hide Checksum; hide SplitAddress; hide ParseBody; hide AddressOffset; hide NibbleValue; hide Pop;
    var normal := Normal(addr, cmd, data);
    var start := SplitAddress(addr).0;
    var f := BuildRequest(addr, cmd, data);
    var s, consumed, n := PoppedFrom(f);
    assert |n| == |normal|;
    EncodedShape(start, normal, []);
    assert s == 1;
    assert f[2..] == Pairs(normal) + Tail(normal);
    SameBody(f[2..], normal, Tail(normal), n);
    assert forall x | x in [cmd] + data :: x in normal;
    if !ConfigAdmits(addr) {
      OutsideAddresses(addr);
    }
  }
}
