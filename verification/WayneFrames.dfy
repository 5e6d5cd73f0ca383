/** Every frame the PC transmits on the Wayne bus. */
module WayneFrames {
  import opened Wire
  import opened Bcd
  import opened WayneCrc

  /** `03` carries litres or a full tank, `04` a sum of money. */
  datatype PresetBlock = PresetBlock(kind: u8, value: seq<u8>) {
    ghost predicate Valid() { (kind == 0x03 || kind == 0x04) && |value| == 3 }
  }

  datatype Command =
    | PollPump
    | Ack
    | Busy
    | Stop
    | StopPre
    | StopFrame
    | Done
    | AuthorizeInitial
    | AuthorizeConfig(productCodes: seq<u8>, prices: seq<nat>, preset: PresetBlock)
    | PreAuthorisePrice(nozzlePrices: seq<nat>, nozzle: u8)
    | Authorise(activeNozzle: u8, limit: seq<u8>)
  {
    ghost predicate Valid() {
      && (AuthorizeConfig? ==> preset.Valid())
      && (Authorise? ==> |limit| == 3)
    }
  }

  function Clamp14(n: nat): nat { if n < 1 then 1 else if n > 4 then 4 else n }

  /** First of the two BCD bytes of the last four digits of a price. */
  function PriceByte(price: nat): u8 { BcdByte(price % 10000 / 100) }

  /** The price byte of channel `i`, or the product code when no price is set. */
  function ChannelByte(codes: seq<u8>, prices: seq<nat>, i: nat): u8 {
    if i < |prices| && prices[i] > 0 then PriceByte(prices[i])
    else if i < |codes| then codes[i] else 0
  }

  function Channels(from: nat, n: nat): seq<u8>
    requires from <= n <= 4
    decreases n - from
  {
    if from == n then [] else [Byte(from + 1)] + Channels(from + 1, n)
  }

  function ProductMap(codes: seq<u8>, prices: seq<nat>, from: nat, n: nat): seq<u8>
    requires from <= n
    decreases n - from
  {
    if from == n then []
    else [0x01, ChannelByte(codes, prices, from), if from == n - 1 then 0x30 else 0x00] + ProductMap(codes, prices, from + 1, n)
  }

  function ConfigHead(addr: u8, codes: seq<u8>, prices: seq<nat>): seq<u8> {
    var n := Clamp14(|codes|);
    [addr, 0x30, 0x01, 0x01, 0x05, 0x02, Byte(n)] + Channels(0, n) + [0x05, Byte(3 * n)] + ProductMap(codes, prices, 0, n)
  }

  /** Transaction context: the channel numbers `1..n`. */
  method AppendChannels(payload: seq<u8>, n: nat) returns (r: seq<u8>)
    requires n <= 4
    ensures r == payload + Channels(0, n)
  {
    hide Byte;
    r := payload;
    var i := 0;
    while i < n
      invariant 0 <= i <= n
      invariant r + Channels(i, n) == payload + Channels(0, n)
    {
      r := r + [Byte(i + 1)];
      i := i + 1;
    }
    assert r + Channels(n, n) == r;
  }

  /** Product and price map: three bytes per channel, the last one flagged. */
  method AppendProducts(payload: seq<u8>, codes: seq<u8>, prices: seq<nat>, n: nat) returns (r: seq<u8>)
    ensures r == payload + ProductMap(codes, prices, 0, n)
  {
    hide ChannelByte;
    r := payload;
    var i := 0;
    while i < n
      invariant 0 <= i <= n
      invariant r + ProductMap(codes, prices, i, n) == payload + ProductMap(codes, prices, 0, n)
    {
      var flag: u8 := if i == n - 1 then 0x30 else 0x00;
      r := r + [0x01, ChannelByte(codes, prices, i), flag];
      i := i + 1;
    }
    assert r + ProductMap(codes, prices, n, n) == r;
  }

  /** The CONFIG payload, built block by block. */
  method BuildConfig(addr: u8, codes: seq<u8>, prices: seq<nat>, preset: PresetBlock) returns (payload: seq<u8>)
    ensures payload == Payload(addr, AuthorizeConfig(codes, prices, preset))
    ensures IsConfig(payload, addr, codes, prices, preset)
  {
    ConfigPayloadIs(addr, codes, prices, preset);
    hide IsConfig;
    hide Byte; hide ChannelByte; hide ProductMap; hide Channels;
    var n := Clamp14(|codes|);
    payload := [addr, 0x30];
    payload := payload + [0x01, 0x01, 0x05];
    payload := payload + [0x02, Byte(n)];
    assert payload == [addr, 0x30, 0x01, 0x01, 0x05, 0x02, Byte(n)];
    payload := AppendChannels(payload, n);
    payload := payload + [0x05, Byte(3 * n)];
    payload := AppendProducts(payload, codes, prices, n);
    assert payload == ConfigHead(addr, codes, prices);
    payload := payload + [preset.kind, 0x04, 0x00];
    payload := payload + preset.value;
    payload := payload + [0x01, 0x01, 0x06];
  }

  /** A price clamped to four digits, as `00 PH PL`. */
  function DartPrice(price: nat): (r: seq<u8>)
    ensures |r| == 3
  {
    var p := if price > 9999 then 9999 else price;
    [0x00, BcdByte(p / 100), BcdByte(p % 100)]
  }

  function DartPrices(prices: seq<nat>, n: nat): seq<u8>
    requires n <= |prices|
  {
    if n == 0 then [] else DartPrices(prices, n - 1) + DartPrice(prices[n - 1])
  }

  function DartCount(prices: seq<nat>): nat { if |prices| < Clamp14(|prices|) then |prices| else Clamp14(|prices|) }

  function PreAuthHead(addr: u8, prices: seq<nat>): seq<u8> {
    [addr, 0x30, 0x05, Byte(3 * Clamp14(|prices|))] + DartPrices(prices, DartCount(prices))
  }

  method BuildPreAuthorise(addr: u8, prices: seq<nat>, nozzle: u8) returns (payload: seq<u8>)
    ensures payload == Payload(addr, PreAuthorisePrice(prices, nozzle))
    ensures IsPreAuthorise(payload, addr, prices, nozzle)
  {
    PreAuthPayloadIs(addr, prices, nozzle);
    hide IsPreAuthorise;
    hide Byte; hide DartPrice;
    var n := Clamp14(|prices|);
    payload := [addr, 0x30, 0x05, Byte(3 * n)];
    var i := 0;
    while i < n && i < |prices|
      invariant 0 <= i <= DartCount(prices)
      invariant payload == [addr, 0x30, 0x05, Byte(3 * n)] + DartPrices(prices, i)
    {
      payload := payload + DartPrice(prices[i]);
      i := i + 1;
    }
    payload := payload + [0x02, 0x01, nozzle];
    payload := payload + [0x01, 0x01, 0x05];
  }

  /** The bytes before the CRC; short frames have no CRC and are handled by `Transmit`. */
  function Payload(addr: u8, cmd: Command): seq<u8> {
    match cmd
    case PollPump => []
    case Ack => []
    case Busy => [addr, 0x30, 0x01, 0x01, 0x04]
    case Stop => [addr, 0x30, 0x01, 0x01, 0x08]
    case StopPre => [addr, 0x31, 0x01, 0x01, 0x08]
    case StopFrame => [addr, 0x30, 0x01, 0x01, 0x08]
    case Done => [addr, 0x30, 0x01, 0x01, 0x05]
    case AuthorizeInitial => [addr, 0x30, 0x01, 0x01, 0x04, 0x01, 0x01, 0x05]
    case AuthorizeConfig(codes, prices, preset) =>
      ConfigHead(addr, codes, prices) + [preset.kind, 0x04, 0x00] + preset.value + [0x01, 0x01, 0x06]
    case PreAuthorisePrice(prices, nozzle) =>
      PreAuthHead(addr, prices) + [0x02, 0x01, nozzle] + [0x01, 0x01, 0x05]
    case Authorise(nozzle, limit) =>
      [addr, 0x30, 0x04, 0x04, 0x00] + limit + [0x02, 0x01, nozzle, 0x01, 0x01, 0x06]
  }

  // ── What the payloads say ──────────────────────────────────────────────────

  /** Three BCD bytes that write `price`, or 9999 when it has more than four digits. */
  ghost predicate WritesPrice(bytes: seq<u8>, price: nat) {
    |bytes| == 3 && AllDecimal(bytes) && Number(bytes) == if price > 9999 then 9999 else price
  }

  ghost predicate WritesPrices(bytes: seq<u8>, prices: seq<nat>) {
    |bytes| == 3 * |prices| && forall k | 0 <= k < |prices| :: WritesPrice(bytes[3 * k..3 * k + 3], prices[k])
  }

  /** At most four prices go out, three bytes each and in order, behind a header that
      announces their bytes (three even for an empty list), then the nozzle. */
  ghost predicate IsPreAuthorise(payload: seq<u8>, addr: u8, prices: seq<nat>, nozzle: u8) {
    var n := if |prices| > 4 then 4 else |prices|;
    && |payload| == 10 + 3 * n
    && payload[..3] == [addr, 0x30, 0x05] && Value(payload[3]) == (if n == 0 then 3 else 3 * n)
    && WritesPrices(payload[4..4 + 3 * n], prices[..n])
    && payload[4 + 3 * n..] == [0x02, 0x01, nozzle, 0x01, 0x01, 0x05]
  }

  ghost predicate CountsFromOne(bytes: seq<u8>) { forall k | 0 <= k < |bytes| :: Value(bytes[k]) == k + 1 }

  /** `b` shows the two leading digits of the last four of the channel's price when it has
      one, else its product code, else nothing. */
  ghost predicate ShowsChannel(b: u8, codes: seq<u8>, prices: seq<nat>, k: nat) {
    if k < |prices| && prices[k] > 0 then IsDecimal(b) && Digits(b) == prices[k] / 100 % 100
    else if k < |codes| then b == codes[k]
    else b == 0
  }

  ghost predicate IsEntry(bytes: seq<u8>, codes: seq<u8>, prices: seq<nat>, k: nat, last: bool) {
    |bytes| == 3 && bytes[0] == 0x01 && ShowsChannel(bytes[1], codes, prices, k) && bytes[2] == if last then 0x30 else 0x00
  }

  /** Three bytes for each of `n` channels; the last one is flagged. */
  ghost predicate ListsChannels(bytes: seq<u8>, codes: seq<u8>, prices: seq<nat>, n: nat) {
    |bytes| == 3 * n && forall k | 0 <= k < n :: IsEntry(bytes[3 * k..3 * k + 3], codes, prices, k, k == n - 1)
  }

  /** One to four channels, numbered from 1, each with its entry; then the preset. */
  ghost predicate IsConfig(payload: seq<u8>, addr: u8, codes: seq<u8>, prices: seq<nat>, preset: PresetBlock) {
    var n := if |codes| == 0 then 1 else if |codes| > 4 then 4 else |codes|;
    && |payload| == 15 + 4 * n + |preset.value|
    && payload[..6] == [addr, 0x30, 0x01, 0x01, 0x05, 0x02] && Value(payload[6]) == n
    && CountsFromOne(payload[7..7 + n])
    && payload[7 + n] == 0x05 && Value(payload[8 + n]) == 3 * n
    && ListsChannels(payload[9 + n..9 + 4 * n], codes, prices, n)
    && payload[9 + 4 * n..] == [preset.kind, 0x04, 0x00] + preset.value + [0x01, 0x01, 0x06]
  }

  lemma DartPriceWrites(price: nat)
    ensures WritesPrice(DartPrice(price), price)
  {
    var p := if price > 9999 then 9999 else price;
    assert BcdByte(0) == 0x00;
    hide BcdByte; hide AllDecimal; hide Number;
    assert Pairs(p / 100 / 100, 1) == [] + [BcdByte(0)];
    assert Pairs(p, 3) == DartPrice(price);
    assert Pow100(3) == 1000000;
    NumberOfPairs(p, 3);
  }

  lemma {:induction false} DartPricesLength(prices: seq<nat>, n: nat)
    requires n <= |prices|
    ensures |DartPrices(prices, n)| == 3 * n
    decreases n
  {
    hide DartPrice;
    if n > 0 {
      DartPricesLength(prices, n - 1);
    }
  }

  lemma {:induction false} DartPricesAt(prices: seq<nat>, n: nat, k: nat)
    requires k < n <= |prices|
    ensures |DartPrices(prices, n)| == 3 * n && DartPrices(prices, n)[3 * k..3 * k + 3] == DartPrice(prices[k])
    decreases n
  {
    hide DartPrice;
    DartPricesLength(prices, n);
    DartPricesLength(prices, n - 1);
    if k < n - 1 {
      DartPricesAt(prices, n - 1, k);
      assert DartPrices(prices, n)[3 * k..3 * k + 3] == DartPrices(prices, n - 1)[3 * k..3 * k + 3];
    }
  }

  lemma PricesAreWritten(prices: seq<nat>, n: nat)
    requires n <= |prices|
    ensures WritesPrices(DartPrices(prices, n), prices[..n])
  {
    hide DartPrice; hide WritesPrice;
    DartPricesLength(prices, n);
    forall k | 0 <= k < n ensures WritesPrice(DartPrices(prices, n)[3 * k..3 * k + 3], prices[..n][k]) {
      DartPricesAt(prices, n, k);
      DartPriceWrites(prices[k]);
    }
  }

  lemma Middle<T>(a: seq<T>, b: seq<T>, c: seq<T>)
    ensures (a + b + c)[..|a|] == a && (a + b + c)[|a|..|a| + |b|] == b && (a + b + c)[|a| + |b|..] == c
  {}

  lemma PreAuthFrom(addr: u8, prices: seq<nat>, nozzle: u8, count: u8, body: seq<u8>)
    requires var n := if |prices| > 4 then 4 else |prices|;
             && |body| == 3 * n && WritesPrices(body, prices[..n])
             && Value(count) == if n == 0 then 3 else 3 * n
    ensures IsPreAuthorise([addr, 0x30, 0x05, count] + body + [0x02, 0x01, nozzle, 0x01, 0x01, 0x05], addr, prices, nozzle)
  {
    hide WritesPrices; hide Value;
    Middle([addr, 0x30, 0x05, count], body, [0x02, 0x01, nozzle, 0x01, 0x01, 0x05]);
  }

  lemma PreAuthPayloadIs(addr: u8, prices: seq<nat>, nozzle: u8)
    ensures IsPreAuthorise(Payload(addr, PreAuthorisePrice(prices, nozzle)), addr, prices, nozzle)
  {
    hide Byte; hide Value; hide DartPrices; hide WritesPrices; hide IsPreAuthorise;
    var n := DartCount(prices);
    var count := Byte(3 * Clamp14(|prices|));
    ValueOfByte(3 * Clamp14(|prices|));
    DartPricesLength(prices, n);
    PricesAreWritten(prices, n);
    PreAuthFrom(addr, prices, nozzle, count, DartPrices(prices, n));
    assert Payload(addr, PreAuthorisePrice(prices, nozzle))
        == [addr, 0x30, 0x05, count] + DartPrices(prices, n) + [0x02, 0x01, nozzle, 0x01, 0x01, 0x05];
  }

  lemma {:induction false} ChannelsCount(from: nat, n: nat)
    requires from <= n <= 4
    ensures |Channels(from, n)| == n - from
    ensures forall k | 0 <= k < n - from :: Value(Channels(from, n)[k]) == from + k + 1
    decreases n - from
  {
    hide Byte; hide Value;
    if from < n {
      ValueOfByte(from + 1);
      ChannelsCount(from + 1, n);
    }
  }

  lemma ChannelByteShows(codes: seq<u8>, prices: seq<nat>, k: nat)
    ensures ShowsChannel(ChannelByte(codes, prices, k), codes, prices, k)
  {
    hide BcdByte; hide IsDecimal; hide Digits;
    if k < |prices| && prices[k] > 0 {
      ByteRoundTrip(prices[k] % 10000 / 100);
    }
  }

  lemma {:induction false} EntriesAre(codes: seq<u8>, prices: seq<nat>, from: nat, n: nat, k: nat)
    requires from <= k < n
    ensures |ProductMap(codes, prices, from, n)| == 3 * (n - from)
    ensures IsEntry(ProductMap(codes, prices, from, n)[3 * (k - from)..3 * (k - from) + 3], codes, prices, k, k == n - 1)
    decreases n - from
  {
    ChannelByteShows(codes, prices, from);
    hide ChannelByte; hide ShowsChannel;
    var all, rest := ProductMap(codes, prices, from, n), ProductMap(codes, prices, from + 1, n);
    if from + 1 < n {
      EntriesAre(codes, prices, from + 1, n, if k == from then k + 1 else k);
    }
    if k > from {
      DropFront(all[..3], rest, 3 * (k - from - 1), 3 * (k - from - 1) + 3);
    }
  }

  lemma DropFront<T>(a: seq<T>, b: seq<T>, i: nat, j: nat)
    requires i <= j <= |b|
    ensures (a + b)[|a| + i..|a| + j] == b[i..j]
  {}

  lemma FiveParts<T>(a: seq<T>, b: seq<T>, c: seq<T>, d: seq<T>, e: seq<T>)
    ensures var s := a + b + c + d + e;
            var (i, j, k, l) := (|a|, |a| + |b|, |a| + |b| + |c|, |a| + |b| + |c| + |d|);
            && s[..i] == a && s[i..j] == b && s[j..k] == c && s[k..l] == d && s[l..] == e
  {
    var s := a + b + c + d + e;
    assert s == a + b + (c + d + e) == (a + b) + c + (d + e) == (a + b + c) + d + e;
    Middle(a, b, c + d + e);
    Middle(a + b, c, d + e);
    Middle(a + b + c, d, e);
  }

  lemma ConfigFrom(addr: u8, codes: seq<u8>, prices: seq<nat>, preset: PresetBlock, n: nat, channels: seq<u8>, entries: seq<u8>, counts: (u8, u8))
    requires n == (if |codes| == 0 then 1 else if |codes| > 4 then 4 else |codes|)
    requires Value(counts.0) == n && Value(counts.1) == 3 * n
    requires |channels| == n && CountsFromOne(channels) && ListsChannels(entries, codes, prices, n)
    ensures IsConfig([addr, 0x30, 0x01, 0x01, 0x05, 0x02, counts.0] + channels + [0x05, counts.1] + entries
                     + ([preset.kind, 0x04, 0x00] + preset.value + [0x01, 0x01, 0x06]), addr, codes, prices, preset)
  {
    var head, mid := [addr, 0x30, 0x01, 0x01, 0x05, 0x02, counts.0], [0x05, counts.1];
    var tail := [preset.kind, 0x04, 0x00] + preset.value + [0x01, 0x01, 0x06];
    var payload := head + channels + mid + entries + tail;
    assert |entries| == 3 * n;
    hide Value; hide CountsFromOne; hide ListsChannels;
    FiveParts(head, channels, mid, entries, tail);
    SixAndOne(payload, head);
    TwoAt(payload, 7 + n, mid);
  }

  lemma SixAndOne(payload: seq<u8>, head: seq<u8>)
    requires |head| == 7 <= |payload| && payload[..7] == head
    ensures payload[..6] == head[..6] && payload[6] == head[6]
  {
    assert payload[..7][..6] == payload[..6] && payload[6] == payload[..7][6];
  }

  lemma TwoAt(payload: seq<u8>, i: nat, mid: seq<u8>)
    requires |mid| == 2 && i + 2 <= |payload| && payload[i..i + 2] == mid
    ensures payload[i] == mid[0] && payload[i + 1] == mid[1]
  {
    assert payload[i] == payload[i..i + 2][0] && payload[i + 1] == payload[i..i + 2][1];
  }

  lemma ConfigPayloadIs(addr: u8, codes: seq<u8>, prices: seq<nat>, preset: PresetBlock)
    ensures IsConfig(Payload(addr, AuthorizeConfig(codes, prices, preset)), addr, codes, prices, preset)
  {
    var n := Clamp14(|codes|);
    assert n == (if |codes| == 0 then 1 else if |codes| > 4 then 4 else |codes|);
    ConfigParts(addr, codes, prices, preset, n);
    hide *;
    ChannelsCounted(n);
    EntriesListed(codes, prices, n);
    ValueOfByte(n);
    ValueOfByte(3 * n);
    ConfigFrom(addr, codes, prices, preset, n, Channels(0, n), ProductMap(codes, prices, 0, n), (Byte(n), Byte(3 * n)));
  }

  lemma ConfigParts(addr: u8, codes: seq<u8>, prices: seq<nat>, preset: PresetBlock, n: nat)
    requires n == Clamp14(|codes|)
    ensures Payload(addr, AuthorizeConfig(codes, prices, preset))
         == [addr, 0x30, 0x01, 0x01, 0x05, 0x02, Byte(n)] + Channels(0, n) + [0x05, Byte(3 * n)] + ProductMap(codes, prices, 0, n)
            + ([preset.kind, 0x04, 0x00] + preset.value + [0x01, 0x01, 0x06])
  {
    var head := ConfigHead(addr, codes, prices);
    assert head == [addr, 0x30, 0x01, 0x01, 0x05, 0x02, Byte(n)] + Channels(0, n) + [0x05, Byte(3 * n)] + ProductMap(codes, prices, 0, n);
    assert Payload(addr, AuthorizeConfig(codes, prices, preset)) == head + [preset.kind, 0x04, 0x00] + preset.value + [0x01, 0x01, 0x06];
    hide *;
    ConfigJoins(head, preset);
  }

  lemma ConfigJoins(head: seq<u8>, preset: PresetBlock)
    ensures head + [preset.kind, 0x04, 0x00] + preset.value + [0x01, 0x01, 0x06]
         == head + ([preset.kind, 0x04, 0x00] + preset.value + [0x01, 0x01, 0x06])
  {}

  lemma ChannelsCounted(n: nat)
    requires n <= 4
    ensures |Channels(0, n)| == n && CountsFromOne(Channels(0, n))
  {
    ChannelsCount(0, n);
    hide Channels; hide Value;
  }

  lemma EntriesListed(codes: seq<u8>, prices: seq<nat>, n: nat)
    requires n >= 1
    ensures ListsChannels(ProductMap(codes, prices, 0, n), codes, prices, n)
  {
    hide ProductMap; hide IsEntry;
    EntriesAre(codes, prices, 0, n, 0);
    forall k | 0 <= k < n ensures IsEntry(ProductMap(codes, prices, 0, n)[3 * k..3 * k + 3], codes, prices, k, k == n - 1) {
      EntriesAre(codes, prices, 0, n, k);
    }
  }

  /** CRC and terminator of the stop frames kept ready for the first four addresses. */
  function StopTail(addr: u8): Option<seq<u8>> {
    if addr == 0x50 then Some([0x9E, 0x9A, 0x03, 0xFA])
    else if addr == 0x51 then Some([0xA3, 0x5A, 0x03, 0xFA])
    else if addr == 0x52 then Some([0xE7, 0x5A, 0x03, 0xFA])
    else if addr == 0x53 then Some([0xDA, 0x9A, 0x03, 0xFA])
    else None
  }

  function Transmit(addr: u8, cmd: Command): seq<u8> {
    match cmd
    case PollPump => [addr, 0x20, 0xFA]
    case Ack => [addr, 0xC0, 0xFA]
    case StopFrame =>
      if StopTail(addr).Some? then Payload(addr, StopFrame) + StopTail(addr).value else BuildFrame(Payload(addr, StopFrame))
    case _ => BuildFrame(Payload(addr, cmd))
  }
}
