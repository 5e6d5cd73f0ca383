/** Why the echo of the PC's own frames is never taken for a pump. */
module WayneEcho {
  import opened Wire
  import opened Bcd
  import opened WayneCrc
  import opened WayneFrames
  import opened WayneAccumulator
  import opened WayneParser

  // ── Bytes that cannot start a response ─────────────────────────────────────

  ghost predicate Harmless(frame: seq<u8>) {
    forall polled :: !ParseFrame(frame).IsDispenserResponse(polled)
  }

  /** No frame cut out of `s`, wherever it starts, can be a dispenser response. */
  ghost predicate Quiet(s: seq<u8>) {
    forall i | 0 <= i < |s| - 1 && IsAddr(s[i]) ::
      && (IsDataSeq(s[i + 1]) ==> |s| - i < 6)
      && (s[i + 1] == 0x70 && i + 2 < |s| ==> s[i + 2] != 0xFA)
  }

  lemma QuietSuffix(s: seq<u8>, k: nat)
    requires Quiet(s) && k <= |s|
    ensures Quiet(s[k..])
  {
    var t := s[k..];
    forall i | 0 <= i < |t| - 1 && IsAddr(t[i])
      ensures IsDataSeq(t[i + 1]) ==> |t| - i < 6
      ensures t[i + 1] == 0x70 && i + 2 < |t| ==> t[i + 2] != 0xFA
    {
      assert t[i] == s[k + i] && t[i + 1] == s[k + i + 1];
    }
  }

  lemma SettledPrefixKept(f: seq<u8>)
    requires f != [] && IsAddr(f[0]) && !IsArtefact(f)
    ensures TrimPrefix(f) == f
  {}

  /** The first frame of a quiet buffer that starts at an address. */
  lemma QuietFrame(t: seq<u8>, n: nat)
    requires Quiet(t) && 3 <= n <= |t| && IsAddr(t[0]) && !IsArtefact(t)
    ensures Harmless(t[..n])
  {
    var f := t[..n];
    assert f[0] == t[0] && f[1] == t[1] && f[2] == t[2];
    SettledPrefixKept(f);
    QuietTrimmed(f, t);
    hide Quiet; hide ParseTrimmed; hide TrimPrefix; hide IsAddr;
  }

  lemma QuietTrimmed(f: seq<u8>, t: seq<u8>)
    requires Quiet(t) && 3 <= |f| <= |t| && IsAddr(t[0]) && f[0] == t[0] && f[1] == t[1] && f[2] == t[2]
    ensures forall polled :: !ParseTrimmed(f).IsDispenserResponse(polled)
  {
    hide VerifyCrc; hide ParseFill; hide ParseState; hide NozzleFrame;
    if IsTerminated(f) && |f| - 4 >= 2 {
      assert f[..|f| - 4][1] == t[1];
      assert !IsDataSeq(t[1]);
    }
  }

  lemma GarbageIsHarmless(f: seq<u8>)
    requires !HasAddr(f)
    ensures Harmless(f)
  {
    NoAddressIsUnknown(f);
  }

  lemma NoAddrInPart(t: seq<u8>, n: nat)
    requires !HasAddr(t) && n <= |t|
    ensures !HasAddr(t[..n])
  {
    hide IsAddr;
    assert forall m | 0 <= m < n :: t[..n][m] == t[m];
  }

  lemma EmittedFrom(t: seq<u8>)
    requires NextFrame(t).Emit?
    ensures var f := NextFrame(t).frame; |f| <= |t| && f == t[..|f|] && (t != [] && IsAddr(t[0]) ==> |f| >= 3)
  {}

  /** The next frame of a trimmed quiet buffer. */
  lemma QuietNext(x: seq<u8>)
    requires Quiet(Trim(x)) && NextFrame(Trim(x)).Emit?
    ensures Harmless(NextFrame(Trim(x)).frame)
  {
    hide Quiet; hide Harmless; hide HasAddr; hide NextFrame; hide IsAddr; hide IsArtefact;
    var t := Trim(x);
    var f := NextFrame(t).frame;
    EmittedFrom(t);
    if HasAddr(x) {
      QuietFrame(t, |f|);
    } else {
      NoAddrInPart(t, |f|);
      GarbageIsHarmless(f);
    }
  }

  lemma QuietTrim(x: seq<u8>)
    requires Quiet(x)
    ensures Quiet(Trim(x))
  {
    hide Quiet; hide Trim;
    TrimIsSuffix(x);
    QuietSuffix(x, |x| - |Trim(x)|);
  }

  lemma QuietRest(t: seq<u8>)
    requires Quiet(t) && NextFrame(t).Emit?
    ensures Quiet(NextFrame(t).rest)
  {
    hide Quiet; hide NextFrame;
    var c := NextFrame(t);
    assert c.rest == t[|c.frame|..];
    QuietSuffix(t, |c.frame|);
  }

  lemma {:induction false} QuietDrain(x: seq<u8>, k: nat)
    requires Quiet(x) && k < |Drain(x).0|
    ensures Harmless(Drain(x).0[k])
    decreases |x|
  {
    hide Quiet; hide Harmless; hide Trim; hide NextFrame; hide Drain;
    QuietTrim(x);
    DrainStep(x);
    var c := NextFrame(Trim(x));
    if c.Emit? {
      QuietNext(x);
      if k > 0 {
        QuietRest(Trim(x));
        QuietDrain(c.rest, k - 1);
      }
    }
  }

  // ── The echo of each command ───────────────────────────────────────────────

  /** What precedes position `q` cannot end a frame, and what follows cannot start one. */
  ghost predicate EchoShape(e: seq<u8>, q: nat) {
    && 2 <= q <= |e| && IsPlainAddr(e[0]) && e[1] == 0x30
    && (forall j | 1 <= j < q - 1 :: !(e[j - 1] == 0x03 && e[j] == 0xFA))
    && Quiet(e[q..])
    && e[|e| - 2] == 0x03 && e[|e| - 1] == 0xFA
  }

  lemma {:induction false} FindAtLeast(e: seq<u8>, from: nat, q: nat)
    requires 1 <= from && forall j | from <= j < q && j < |e| :: !(e[j - 1] == 0x03 && e[j] == 0xFA)
    ensures Find03FA(e, from) >= q || Find03FA(e, from) >= |e|
    decreases |e| - from
  {
    if from < |e| && from < q {
      FindAtLeast(e, from + 1, q);
    }
  }

  lemma {:induction false} FindsTerminator(e: seq<u8>, from: nat)
    requires 1 <= from < |e| && e[|e| - 2] == 0x03 && e[|e| - 1] == 0xFA
    ensures Find03FA(e, from) < |e|
    decreases |e| - from
  {
    if from < |e| - 1 {
      FindsTerminator(e, from + 1);
    }
  }

  /** A frame with sequence byte 0x30 is never a response. */
  lemma ControlFrame(f: seq<u8>)
    requires |f| >= 2 && IsPlainAddr(f[0]) && f[1] == 0x30
    ensures Harmless(f)
  {
    SettledPrefixKept(f);
    if IsTerminated(f) && |f| - 4 >= 2 {
      assert f[..|f| - 4][1] == 0x30;
    }
  }

  lemma EchoFirstCut(e: seq<u8>, q: nat) returns (p: nat)
    requires EchoShape(e, q)
    ensures q <= p <= |e| && Drain(e) == ([e[..p]] + Drain(e[p..]).0, Drain(e[p..]).1)
  {
    FindAtLeast(e, 1, q - 1);
    FindsTerminator(e, 1);
    p := LongFirstCut(e);
  }

  /** A control or data frame at the front is cut at its first terminator. */
  lemma LongFirstCut(e: seq<u8>) returns (p: nat)
    requires |e| >= 2 && IsPlainAddr(e[0]) && (e[1] == 0x30 || e[1] == 0x31) && Find03FA(e, 1) < |e|
    ensures p == Find03FA(e, 1) + 1
    ensures Drain(e) == ([e[..p]] + Drain(e[p..]).0, Drain(e[p..]).1)
  {
    TrimSettled(e);
    p := Find03FA(e, 1) + 1;
    assert NextFrame(e) == Emit(e[..p], e[p..]);
    DrainStep(e);
  }

  lemma EchoDrain(e: seq<u8>, q: nat, k: nat)
    requires EchoShape(e, q) && k < |Drain(e).0|
    ensures Harmless(Drain(e).0[k])
  {
    hide Drain; hide Quiet; hide Harmless;
    var p := EchoFirstCut(e, q);
    ControlFrame(e[..p]);
    if k > 0 {
      assert e[q..][p - q..] == e[p..];
      QuietSuffix(e[q..], p - q);
      QuietDrain(e[p..], k - 1);
    }
  }

  // ── The shape of every transmitted frame ───────────────────────────────────

  ghost predicate NoPair(s: seq<u8>) {
    forall j | 1 <= j < |s| :: !(s[j - 1] == 0x03 && s[j] == 0xFA)
  }

  lemma NoPairConcat(a: seq<u8>, b: seq<u8>)
    requires NoPair(a) && NoPair(b) && (b == [] || b[0] != 0xFA)
    ensures NoPair(a + b)
  {}

  lemma SmallByteNotFA(v: nat)
    requires v < 250
    ensures Byte(v) != 0xFA
  {
    ValueOfByte(v);
    assert Value(0xFA) == 250;
  }

  lemma BcdNotFA(d: nat)
    requires d < 100
    ensures BcdByte(d) != 0xFA
  {
    PackNibbles(Nibble(d / 10), Nibble(d % 10));
    NibbleRoundTrip(d % 10);
    assert LowNibble(0xFA) == 0x0A && NibbleValue(0x0A) == 10;
  }

  lemma {:induction false} ChannelsNoFA(from: nat, n: nat)
    requires from <= n <= 4
    ensures 0xFA !in Channels(from, n)
    decreases n - from
  {
    hide Byte;
    if from < n {
      SmallByteNotFA(from + 1);
      ChannelsNoFA(from + 1, n);
    }
  }

  lemma {:induction false} ProductMapNoPair(codes: seq<u8>, prices: seq<nat>, from: nat, n: nat)
    requires from <= n
    ensures NoPair(ProductMap(codes, prices, from, n))
    ensures from < n ==> ProductMap(codes, prices, from, n)[0] == 0x01
    decreases n - from
  {
    hide ChannelByte;
    if from < n {
      ProductMapNoPair(codes, prices, from + 1, n);
      NoPairConcat([0x01, ChannelByte(codes, prices, from), if from == n - 1 then 0x30 else 0x00],
                   ProductMap(codes, prices, from + 1, n));
    }
  }

  lemma ConfigHeadNoPair(addr: u8, codes: seq<u8>, prices: seq<nat>)
    ensures NoPair(ConfigHead(addr, codes, prices))
  {
    hide Byte; hide ProductMap; hide Channels;
    var n := Clamp14(|codes|);
    SmallByteNotFA(n);
    SmallByteNotFA(3 * n);
    ChannelsNoFA(0, n);
    ProductMapNoPair(codes, prices, 0, n);
    var a := [addr, 0x30, 0x01, 0x01, 0x05, 0x02, Byte(n)];
    assert NoPair(a + Channels(0, n) + [0x05, Byte(3 * n)]);
    NoPairConcat(a + Channels(0, n) + [0x05, Byte(3 * n)], ProductMap(codes, prices, 0, n));
  }

  lemma {:induction false} DartPricesNoFA(prices: seq<nat>, n: nat)
    requires n <= |prices|
    ensures 0xFA !in DartPrices(prices, n)
    decreases n
  {
    hide BcdByte;
    if n > 0 {
      DartPricesNoFA(prices, n - 1);
      var p := if prices[n - 1] > 9999 then 9999 else prices[n - 1];
      BcdNotFA(p / 100);
      BcdNotFA(p % 100);
    }
  }

  /** Nothing in `b` looks like the start of a response. */
  ghost predicate QuietPayload(b: seq<u8>) {
    && (b != [] ==> !IsAddr(b[|b| - 1]))
    && forall i | 0 <= i < |b| - 1 && IsAddr(b[i]) :: !IsDataSeq(b[i + 1]) && b[i + 1] != 0x70
  }

  /** Whatever the CRC bytes are, they and the terminator start no response either. */
  lemma QuietTail(b: seq<u8>, lo: u8, hi: u8)
    requires QuietPayload(b)
    ensures Quiet(b + [lo, hi, 0x03, 0xFA])
  {
    var s := b + [lo, hi, 0x03, 0xFA];
    forall i | 0 <= i < |s| - 1 && IsAddr(s[i])
      ensures IsDataSeq(s[i + 1]) ==> |s| - i < 6
      ensures s[i + 1] == 0x70 && i + 2 < |s| ==> s[i + 2] != 0xFA
    {
      assert i < |b| ==> s[i] == b[i];
      if i < |b| - 1 {
        assert s[i + 1] == b[i + 1];
      }
    }
  }

  /** A frame whose payload is `a + b`: `a` hides no terminator before its last
      byte and nothing in `b` can start a response. */
  lemma FrameShape(a: seq<u8>, b: seq<u8>)
    requires |a| >= 2 && IsPlainAddr(a[0]) && a[1] == 0x30 && NoPair(a[..|a| - 1]) && QuietPayload(b)
    ensures EchoShape(BuildFrame(a + b), |a|)
  {
    hide Low; hide High; hide Crc16; hide Quiet;
    var e := BuildFrame(a + b);
    QuietTail(b, Low(Crc16(a + b)), High(Crc16(a + b)));
    assert e[|a|..] == b + [Low(Crc16(a + b)), High(Crc16(a + b)), 0x03, 0xFA];
    assert forall j | 0 <= j < |a| - 1 :: e[j] == a[..|a| - 1][j];
  }

  /** Everything the framer cuts out of `e` is harmless. */
  ghost predicate AllHarmless(e: seq<u8>) {
    forall k | 0 <= k < |Drain(e).0| :: Harmless(Drain(e).0[k])
  }

  lemma SplitEcho(a: seq<u8>, b: seq<u8>)
    requires |a| >= 2 && IsPlainAddr(a[0]) && a[1] == 0x30 && NoPair(a[..|a| - 1]) && QuietPayload(b)
    ensures AllHarmless(BuildFrame(a + b))
  {
    hide BuildFrame; hide EchoShape; hide Drain; hide Harmless; hide NoPair; hide QuietPayload;
    FrameShape(a, b);
    forall k | 0 <= k < |Drain(BuildFrame(a + b)).0| ensures Harmless(Drain(BuildFrame(a + b)).0[k]) {
      EchoDrain(BuildFrame(a + b), |a|, k);
    }
  }

  lemma PresetIsPlain(kind: u8, first: u8, last: u8)
    ensures NoPair([kind, 0x04, 0x00, first]) && QuietPayload([last, 0x01, 0x01, 0x06])
  {}

  lemma ConfigFromHead(head: seq<u8>, preset: PresetBlock)
    requires |head| >= 2 && IsPlainAddr(head[0]) && head[1] == 0x30 && preset.Valid()
    requires NoPair(head)
    ensures AllHarmless(BuildFrame(head + [preset.kind, 0x04, 0x00] + preset.value + [0x01, 0x01, 0x06]))
  {
    hide BuildFrame; hide AllHarmless; hide NoPair; hide QuietPayload; hide IsPlainAddr;
    PresetIsPlain(preset.kind, preset.value[0], preset.value[2]);
    var c := [preset.kind, 0x04, 0x00, preset.value[0]];
    var a := head + c + [preset.value[1]];
    var b := [preset.value[2], 0x01, 0x01, 0x06];
    NoPairConcat(head, c);
    assert a[..|a| - 1] == head + c;
    SplitEcho(a, b);
    ConfigPayload(head, preset);
  }

  lemma ConfigEcho(addr: u8, codes: seq<u8>, prices: seq<nat>, preset: PresetBlock)
    requires IsPlainAddr(addr) && preset.Valid()
    ensures AllHarmless(Transmit(addr, AuthorizeConfig(codes, prices, preset)))
  {
    hide ConfigHead; hide BuildFrame; hide AllHarmless; hide NoPair; hide IsPlainAddr;
    ConfigHeadNoPair(addr, codes, prices);
    ConfigHeadStarts(addr, codes, prices);
    ConfigFromHead(ConfigHead(addr, codes, prices), preset);
  }

  lemma ConfigHeadStarts(addr: u8, codes: seq<u8>, prices: seq<nat>)
    ensures var head := ConfigHead(addr, codes, prices); |head| >= 2 && head[0] == addr && head[1] == 0x30
  {
    hide Byte; hide Channels; hide ProductMap; hide Clamp14;
  }

  lemma ConfigPayload(head: seq<u8>, preset: PresetBlock)
    requires preset.Valid()
    ensures head + [preset.kind, 0x04, 0x00] + preset.value + [0x01, 0x01, 0x06]
         == head + [preset.kind, 0x04, 0x00, preset.value[0]] + [preset.value[1]] + [preset.value[2], 0x01, 0x01, 0x06]
  {
    assert preset.value == [preset.value[0], preset.value[1], preset.value[2]];
  }

  lemma PreAuthHeadNoPair(addr: u8, prices: seq<nat>)
    ensures NoPair(PreAuthHead(addr, prices) + [0x02])
  {
    SmallByteNotFA(3 * Clamp14(|prices|));
    hide Byte; hide DartPrices; hide Clamp14; hide DartCount;
    DartPricesNoFA(prices, DartCount(prices));
    var body := DartPrices(prices, DartCount(prices));
    NoPairConcat([addr, 0x30, 0x05, Byte(3 * Clamp14(|prices|))], body);
    NoPairConcat(PreAuthHead(addr, prices), [0x02]);
  }

  lemma PreAuthEcho(addr: u8, prices: seq<nat>, nozzle: u8)
    requires IsPlainAddr(addr)
    ensures AllHarmless(Transmit(addr, PreAuthorisePrice(prices, nozzle)))
  {
    PreAuthHeadNoPair(addr, prices);
    var head := PreAuthHead(addr, prices);
    assert |head| >= 2 && head[0] == addr && head[1] == 0x30;
    hide PreAuthHead; hide BuildFrame; hide AllHarmless; hide NoPair;
    var a := head + [0x02, 0x01];
    var b := [nozzle, 0x01, 0x01, 0x05];
    assert a[..|a| - 1] == head + [0x02];
    SplitEcho(a, b);
    assert Payload(addr, PreAuthorisePrice(prices, nozzle)) == a + b;
  }

  lemma AuthoriseEcho(addr: u8, nozzle: u8, limit: seq<u8>)
    requires IsPlainAddr(addr) && |limit| == 3
    ensures AllHarmless(Transmit(addr, Authorise(nozzle, limit)))
  {
    hide BuildFrame; hide AllHarmless;
    var a := [addr, 0x30, 0x04, 0x04, 0x00, limit[0], limit[1]];
    var b := [limit[2], 0x02, 0x01, nozzle, 0x01, 0x01, 0x06];
    SplitEcho(a, b);
    assert Payload(addr, Authorise(nozzle, limit)) == a + b;
  }

  lemma ControlEcho(addr: u8, cmd: Command)
    requires IsPlainAddr(addr) && (cmd.Busy? || cmd.Stop? || cmd.Done? || cmd.AuthorizeInitial?)
    ensures AllHarmless(Transmit(addr, cmd))
  {
    hide BuildFrame; hide AllHarmless;
    var d := Payload(addr, cmd);
    SplitEcho(d, []);
    assert d + [] == d;
  }

  lemma HarmlessIfUnknown(f: seq<u8>)
    requires |f| >= 4 && IsPlainAddr(f[0]) && f[1] == 0x31
    requires ParseVerified(f[0] & 0x7F, f[..|f| - 4], f) == Unknown(f)
    requires ParseUnverified(f[0] & 0x7F, f[..|f| - 4], f) == Unknown(f)
    ensures Harmless(f)
  {
    SettledPrefixKept(f);
    hide ParseVerified; hide ParseUnverified; hide VerifyCrc; hide TrimPrefix; hide IsTerminated;
  }

  /** The one control frame with a data sequence byte, cut before or after its
      terminator, is too short to carry anything. */
  lemma StopPreFrame(addr: u8, lo: u8, hi: u8, n: nat)
    requires IsPlainAddr(addr) && (n == 7 || n == 9)
    ensures Harmless([addr, 0x31, 0x01, 0x01, 0x08, lo, hi, 0x03, 0xFA][..n])
  {
    hide ParseVerified; hide ParseUnverified; hide Harmless; hide IsPlainAddr;
    var f := [addr, 0x31, 0x01, 0x01, 0x08, lo, hi, 0x03, 0xFA][..n];
    assert f[0] == addr && f[1] == 0x31;
    assert f[..n - 4] == [addr, 0x31, 0x01, 0x01, 0x08][..n - 4];
    StopPrePayload(addr, n - 4, f);
    HarmlessIfUnknown(f);
  }

  lemma StopPrePayload(addr: u8, n: nat, f: seq<u8>)
    requires n == 3 || n == 5
    ensures ParseVerified(addr & 0x7F, [addr, 0x31, 0x01, 0x01, 0x08][..n], f) == Unknown(f)
    ensures ParseUnverified(addr & 0x7F, [addr, 0x31, 0x01, 0x01, 0x08][..n], f) == Unknown(f)
  {
    var inner := [addr, 0x31, 0x01, 0x01, 0x08][..n];
    assert FindFillOffset(inner) == None;
    hide FindFillOffset;
  }

  lemma StopPreFirstCut(e: seq<u8>) returns (n: nat)
    requires |e| == 9 && IsPlainAddr(e[0]) && e[1..5] == [0x31, 0x01, 0x01, 0x08] && e[7] == 0x03 && e[8] == 0xFA
    ensures n == 7 || n == 9
    ensures Drain(e) == ([e[..n]] + Drain(e[n..]).0, Drain(e[n..]).1)
  {
    assert e[1] == 0x31 && e[2] == 0x01 && e[3] == 0x01 && e[4] == 0x08;
    FindAtLeast(e, 1, 6);
    FindsTerminator(e, 1);
    n := LongFirstCut(e);
  }

  lemma StopPreDrain(e: seq<u8>, k: nat)
    requires |e| == 9 && IsPlainAddr(e[0]) && e[1..5] == [0x31, 0x01, 0x01, 0x08] && e[7] == 0x03 && e[8] == 0xFA
    requires k < |Drain(e).0|
    ensures Harmless(Drain(e).0[k])
  {
    hide Drain; hide Harmless;
    var n := StopPreFirstCut(e);
    assert e[1] == 0x31 && e[2] == 0x01 && e[3] == 0x01 && e[4] == 0x08;
    assert e == [e[0], 0x31, 0x01, 0x01, 0x08, e[5], e[6], 0x03, 0xFA];
    StopPreFrame(e[0], e[5], e[6], n);
    if k > 0 {
      assert Quiet(e[n..]);
      QuietDrain(e[n..], k - 1);
    }
  }

  lemma ShortFrameHarmless(addr: u8, code: u8)
    requires IsPlainAddr(addr) && (code == 0x20 || code == 0xC0)
    ensures WellCut([addr, code, 0xFA]) && Harmless([addr, code, 0xFA])
  {
    SettledPrefixKept([addr, code, 0xFA]);
  }

  lemma ShortEcho(addr: u8, cmd: Command)
    requires IsPlainAddr(addr) && (cmd.PollPump? || cmd.Ack?)
    ensures AllHarmless(Transmit(addr, cmd))
  {
    hide Drain; hide Harmless; hide WellCut;
    ShortFrameHarmless(addr, if cmd.PollPump? then 0x20 else 0xC0);
    DrainWellCut(Transmit(addr, cmd));
  }

  /** Echo safety: no frame the framer cuts out of the PC's own transmission is a
      dispenser response, even when payload or CRC bytes imitate a terminator. */
  lemma EchoHarmless(addr: u8, cmd: Command)
    requires IsPlainAddr(addr) && cmd.Valid()
    ensures AllHarmless(Transmit(addr, cmd))
  {
    hide AllHarmless; hide Transmit;
    match cmd
    case PollPump => ShortEcho(addr, cmd);
    case Ack => ShortEcho(addr, cmd);
    case AuthorizeConfig(codes, prices, preset) => ConfigEcho(addr, codes, prices, preset);
    case PreAuthorisePrice(prices, nozzle) => PreAuthEcho(addr, prices, nozzle);
    case Authorise(nozzle, limit) => AuthoriseEcho(addr, nozzle, limit);
    case StopPre => StopPreEcho(addr);
    case StopFrame => StopFrameEcho(addr);
    case _ => ControlEcho(addr, cmd);
  }

  lemma StopPreEcho(addr: u8)
    requires IsPlainAddr(addr)
    ensures AllHarmless(Transmit(addr, StopPre))
  {
    hide Drain; hide Harmless; hide Crc16; hide Low; hide High;
    var e := Transmit(addr, StopPre);
    assert e == BuildFrame([addr, 0x31, 0x01, 0x01, 0x08]);
    hide Transmit;
    assert e[1..5] == [0x31, 0x01, 0x01, 0x08];
    forall k | 0 <= k < |Drain(e).0| ensures Harmless(Drain(e).0[k]) {
      StopPreDrain(e, k);
    }
  }

  lemma StopFrameQuiet(addr: u8)
    requires StopTail(addr).Some?
    ensures Quiet(Transmit(addr, StopFrame))
  {}

  lemma StopFrameEcho(addr: u8)
    requires IsPlainAddr(addr)
    ensures AllHarmless(Transmit(addr, StopFrame))
  {
    hide Drain; hide Harmless; hide Quiet; hide BuildFrame;
    if StopTail(addr).Some? {
      StopFrameQuiet(addr);
      hide Transmit;
      forall k | 0 <= k < |Drain(Transmit(addr, StopFrame)).0| ensures Harmless(Drain(Transmit(addr, StopFrame)).0[k]) {
        QuietDrain(Transmit(addr, StopFrame), k);
      }
    } else {
      ControlEcho(addr, Stop);
    }
  }

  lemma {:induction false} LeftoverShorter(x: seq<u8>)
    ensures |Drain(x).1| <= |x|
    decreases |x|
  {
    match NextFrame(Trim(x))
    case Wait =>
    case Emit(frame, rest) => LeftoverShorter(rest);
  }

  lemma {:induction false} ShortStreamNeverClears(buf: seq<u8>, chunks: seq<seq<u8>>)
    requires |buf| + |Concat(chunks)| <= MAX_BUF
    ensures NeverClears(buf, chunks)
    decreases |chunks|
  {
    if chunks != [] {
      LeftoverShorter(buf + chunks[0]);
      ShortStreamNeverClears(Drain(buf + chunks[0]).1, chunks[1..]);
    }
  }

  lemma {:induction false} AddressedKeeps(frames: seq<seq<u8>>, f: seq<u8>)
    requires f in frames && HasAddr(f)
    ensures f in Addressed(frames)
    decreases |frames|
  {
    if frames[0] != f {
      assert f in frames[1..];
      AddressedKeeps(frames[1..], f);
    }
  }

  lemma {:induction false} AddressedSubset(frames: seq<seq<u8>>, f: seq<u8>)
    requires f in Addressed(frames)
    ensures f in frames
    decreases |frames|
  {
    if f in Addressed(frames[1..]) {
      AddressedSubset(frames[1..], f);
    }
  }

  lemma {:induction false} ConfigLengths(codes: seq<u8>, prices: seq<nat>, from: nat, n: nat)
    requires from <= n <= 4
    ensures |Channels(from, n)| == n - from && |ProductMap(codes, prices, from, n)| == 3 * (n - from)
    decreases n - from
  {
    if from < n {
      ConfigLengths(codes, prices, from + 1, n);
    }
  }

  lemma TransmitFits(addr: u8, cmd: Command)
    requires cmd.Valid()
    ensures |Transmit(addr, cmd)| <= MAX_BUF
  {
    match cmd
    case AuthorizeConfig(codes, prices, preset) => ConfigLengths(codes, prices, 0, Clamp14(|codes|));
    case PreAuthorisePrice(prices, nozzle) => DartPricesLength(prices, DartCount(prices));
    case _ =>
  }

  /** Echo safety for a live line: however the echo is split into reads, every
      frame that comes out of the accumulator is harmless. */
  lemma EchoSafety(addr: u8, cmd: Command, chunks: seq<seq<u8>>, f: seq<u8>)
    requires IsPlainAddr(addr) && cmd.Valid() && Concat(chunks) == Transmit(addr, cmd)
    requires f in PushAll([], chunks).0
    ensures Harmless(f)
  {
    var e := Transmit(addr, cmd);
    assert Drain([]) == ([], []) && [] + Concat(chunks) == e;
    EchoHarmless(addr, cmd);
    TransmitFits(addr, cmd);
    hide Transmit; hide Drain; hide Harmless; hide PushAll; hide HasAddr;
    if HasAddr(f) {
      ShortStreamNeverClears([], chunks);
      PushAllIsDrain([], chunks);
      AddressedKeeps(PushAll([], chunks).0, f);
      AddressedSubset(Drain(e).0, f);
    } else {
      GarbageIsHarmless(f);
    }
  }

  // ── The echo and the pump's answer on one line ─────────────────────────────

  predicate EndsInTerminator(x: seq<u8>) { |x| >= 2 && x[|x| - 2] == 0x03 && x[|x| - 1] == 0xFA }

  lemma TrimKeepsTerminator(x: seq<u8>)
    requires EndsInTerminator(x)
    ensures EndsInTerminator(Trim(x))
  {
    var t := Trim(x);
    TrimIsSuffix(x);
    hide Trim;
    if HasAddr(x) {
      assert t[|t| - 1] == x[|x| - 1];
      assert |t| >= 2;
    }
  }

  lemma RestKeepsTerminator(t: seq<u8>)
    requires EndsInTerminator(t)
    ensures NextFrame(t).Emit? && (NextFrame(t).rest == [] || EndsInTerminator(NextFrame(t).rest))
  {
    var c := NextFrame(t);
    assert t == c.frame + c.rest;
    assert c.frame[|c.frame| - 1] == t[|c.frame| - 1] == 0xFA;
  }

  /** Nothing stays buffered behind a last terminator. */
  lemma {:induction false} DrainsEmpty(x: seq<u8>)
    requires EndsInTerminator(x)
    ensures Drain(x).1 == []
    decreases |x|
  {
    hide Drain; hide Trim; hide NextFrame; hide EndsInTerminator;
    DrainStep(x);
    TrimKeepsTerminator(x);
    RestKeepsTerminator(Trim(x));
    var rest := NextFrame(Trim(x)).rest;
    if rest == [] {
      DrainEmpty();
    } else {
      DrainsEmpty(rest);
    }
  }

  /** The framer keeps nothing of an echo. */
  lemma EchoDrainsEmpty(addr: u8, cmd: Command)
    requires IsPlainAddr(addr) && cmd.Valid()
    ensures Drain(Transmit(addr, cmd)).1 == []
  {
    hide Drain; hide Harmless; hide Payload; hide Crc16; hide Low; hide High;
    if cmd.PollPump? || cmd.Ack? {
      ShortFrameHarmless(addr, if cmd.PollPump? then 0x20 else 0xC0);
      hide WellCut;
      DrainWellCut(Transmit(addr, cmd));
    } else {
      assert EndsInTerminator(Transmit(addr, cmd));
      hide Transmit;
      DrainsEmpty(Transmit(addr, cmd));
    }
  }

  lemma EchoInFront(addr: u8, cmd: Command, noise: seq<seq<u8>>, answers: seq<seq<u8>>)
    requires IsPlainAddr(addr) && cmd.Valid() && |noise| == |answers|
    requires forall i | 0 <= i < |answers| :: IsNoise(noise[i], answers[i]) && WellCut(answers[i])
    ensures var d := Drain(Transmit(addr, cmd) + Interleave(noise, answers));
            Addressed(d.0) == Addressed(Drain(Transmit(addr, cmd)).0) + answers && d.1 == []
  {
    hide *;
    EchoDrainsEmpty(addr, cmd);
    DrainInTwo(Transmit(addr, cmd), Interleave(noise, answers));
    assert [] + Interleave(noise, answers) == Interleave(noise, answers);
    DrainInterleaved(noise, answers);
  }

  /** The poll loop reads its own echo and the pump's answers through one accumulator:
      the echo's frames come out first, all harmless, then exactly the answers, if and
      only if no overflow on the way discards an address byte. */
  lemma EchoThenAnswers(addr: u8, cmd: Command, noise: seq<seq<u8>>, answers: seq<seq<u8>>, chunks: seq<seq<u8>>)
    requires IsPlainAddr(addr) && cmd.Valid() && |noise| == |answers|
    requires forall i | 0 <= i < |answers| :: IsNoise(noise[i], answers[i]) && WellCut(answers[i])
    requires Concat(chunks) == Transmit(addr, cmd) + Interleave(noise, answers)
    ensures AllHarmless(Transmit(addr, cmd))
    ensures Addressed(PushAll([], chunks).0) == Addressed(Drain(Transmit(addr, cmd)).0) + answers
            && !HasAddr(PushAll([], chunks).1)
       <==> ClearsOnlyGarbage([], chunks)
  {
    hide *;
    EchoHarmless(addr, cmd);
    EchoInFront(addr, cmd, noise, answers);
    CuttingHarmlessIff(chunks);
    NothingFrom(PushAll([], chunks).1);
  }

  // ── Built frames as a receiver sees them ───────────────────────────────────

  lemma EarlyPairSplits(e: seq<u8>, j: nat)
    requires |e| >= 4 && IsPlainAddr(e[0]) && !IsShortFrame(e)
    requires 1 <= j < |e| - 1 && e[j - 1] == 0x03 && e[j] == 0xFA
    ensures Drain(e) != ([e], [])
  {
    FindAtMost(e, 1, j);
    TrimSettled(e);
    hide Drain;
    DrainStep(e);
    assert |NextFrame(e).frame| <= j + 1;
  }

  /** A built data frame comes out of the framer whole if and only if no terminator
      pair occurs in its payload or its CRC. */
  lemma BuiltFrameWhole(data: seq<u8>)
    requires |data| >= 2 && IsPlainAddr(data[0]) && !IsShortFrame(BuildFrame(data))
    ensures Drain(BuildFrame(data)) == ([BuildFrame(data)], [])
       <==> NoPair(data + [Low(Crc16(data)), High(Crc16(data))])
  {
    assert IsAddr(data[0]) && !IsHighAddr(data[0]);
    hide Low; hide High; hide Crc16; hide Drain; hide IsShortFrame; hide IsPlainAddr;
    var e := BuildFrame(data);
    var core := data + [Low(Crc16(data)), High(Crc16(data))];
    assert e == core + [0x03, 0xFA] && e[0] == data[0];
    if NoPair(core) {
      FindFirst(e, 1);
      DrainWellCut(e);
    } else {
      var j :| 1 <= j < |core| && core[j - 1] == 0x03 && core[j] == 0xFA;
      EarlyPairSplits(e, j);
    }
  }

  lemma {:induction false} FindAtMost(e: seq<u8>, from: nat, j: nat)
    requires 1 <= from <= j < |e| && e[j - 1] == 0x03 && e[j] == 0xFA
    ensures Find03FA(e, from) <= j
    decreases |e| - from
  {
    if from < j {
      FindAtMost(e, from + 1, j);
    }
  }
}
