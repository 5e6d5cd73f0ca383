/** Reading a gauge controller's register window in bounded Modbus TCP requests. */
module Modbus {
  import opened Wire
  import opened GaugeConfig

  // ── Words on the wire ──────────────────────────────────────────────────────

  function BigEndian(w: Word): (r: seq<u8>)
    ensures |r| == 2
  {
    [Byte(w / 256), Byte(w % 256)]
  }

  function WordOf(hi: u8, lo: u8): Word { 256 * Value(hi) + Value(lo) }

  lemma WordRoundTrip(w: Word)
    ensures WordOf(BigEndian(w)[0], BigEndian(w)[1]) == w
  {
    ValueOfByte(w / 256);
    ValueOfByte(w % 256);
  }

  lemma WordOfBytes(hi: u8, lo: u8)
    ensures BigEndian(WordOf(hi, lo)) == [hi, lo]
  {
    ByteOfValue(hi);
    ByteOfValue(lo);
    hide Value; hide Byte;
    assert WordOf(hi, lo) / 256 == Value(hi) && WordOf(hi, lo) % 256 == Value(lo);
  }

  /** A 16-bit register, as its two bytes on the wire. */
  datatype Register = Register(hi: u8, lo: u8)

  function Bytes(registers: seq<Register>): (r: seq<u8>)
    ensures |r| == 2 * |registers|
  {
    seq(2 * |registers|, i requires 0 <= i < 2 * |registers| => if i % 2 == 0 then registers[i / 2].hi else registers[i / 2].lo)
  }

  function Registers(bytes: seq<u8>): (r: seq<Register>)
    ensures |r| == |bytes| / 2
  {
    seq(|bytes| / 2, i requires 0 <= i < |bytes| / 2 => Register(bytes[2 * i], bytes[2 * i + 1]))
  }

  // ── One exchange ───────────────────────────────────────────────────────────

  datatype Request = Request(tid: nat, start: nat, count: nat)

  /** Read Holding Registers, section 6.3 of the MODBUS Application Protocol
      Specification V1.1b3, behind its TCP header. */
  function RequestFrame(unit: u8, r: Request): (f: seq<u8>)
    requires r.tid < 0x1_0000 && r.start < 0x1_0000 && r.count < 0x1_0000
    ensures |f| == 12
  {
    BigEndian(r.tid) + [0, 0] + BigEndian(6) + [unit, 3] + BigEndian(r.start) + BigEndian(r.count)
  }

  /** Reads one reply off the stream: the words and the bytes left. */
  function ReadReply(stream: seq<u8>, unit: u8, r: Request): Option<(seq<Register>, seq<u8>)> {
    if !(1 <= r.count <= 125) || |stream| < 7 then None
    else if WordOf(stream[0], stream[1]) != r.tid || stream[2..4] != [0, 0] || stream[6] != unit then None
    else
      var len := WordOf(stream[4], stream[5]);
      if !(3 <= len <= 253) || |stream| < 6 + len then None
      else
        var pdu := stream[7..6 + len];
        if pdu[0] != 3 || |pdu| != 2 + 2 * r.count || Value(pdu[1]) != 2 * r.count then None
        else Some((Registers(pdu[2..]), stream[6 + len..]))
  }

  /** The reply that carries these words. */
  function Reply(unit: u8, tid: Word, words: seq<Register>): (f: seq<u8>)
    requires |words| <= 125
    ensures |f| == 9 + 2 * |words|
  {
    BigEndian(tid) + [0, 0] + BigEndian(3 + 2 * |words|) + [unit, 3, Byte(2 * |words|)] + Bytes(words)
  }

  // ── The window ─────────────────────────────────────────────────────────────

  function Min(a: nat, b: nat): nat { if a < b then a else b }

  /** Whole tanks of twelve registers, all inside the address space. */
  predicate ValidWindow(start: Word, count: Word) { count > 0 && count % 12 == 0 && start + count <= 0x1_0000 }

  predicate Reached(count: Word, offset: nat, tid: nat) { offset <= count && offset % 12 == 0 && 1 <= tid && 12 * (tid - 1) <= offset }

  /** The requests still to send once `offset` registers are read. */
  function PlanFrom(start: Word, count: Word, offset: nat, tid: nat): (plan: seq<Request>)
    requires ValidWindow(start, count) && Reached(count, offset, tid)
    decreases count - offset
  {
    if offset == count then []
    else
      var batch := Min(count - offset, 120);
      [Request(tid, start + offset, batch)] + PlanFrom(start, count, offset + batch, tid + 1)
  }

  function Plan(start: Word, count: Word): seq<Request>
    requires ValidWindow(start, count)
  {
    PlanFrom(start, count, 0, 1)
  }

  /** The words a list of requests yields on this stream; `None` once a reply is wrong. */
  function ReadAll(plan: seq<Request>, unit: u8, stream: seq<u8>): Option<seq<Register>> {
    if plan == [] then Some([])
    else
      var first := ReadReply(stream, unit, plan[0]);
      if first.None? then None else Prepend(first.value.0, ReadAll(plan[1..], unit, first.value.1))
  }

  lemma ReadAllStep(r: Request, plan: seq<Request>, unit: u8, stream: seq<u8>)
    ensures var first := ReadReply(stream, unit, r);
            ReadAll([r] + plan, unit, stream)
            == if first.None? then None else Prepend(first.value.0, ReadAll(plan, unit, first.value.1))
  {
    hide ReadReply;
    assert ([r] + plan)[1..] == plan;
  }

  function Prepend(words: seq<Register>, more: Option<seq<Register>>): Option<seq<Register>> {
    if more.Some? then Some(words + more.value) else None
  }

  lemma PrependTwice(a: seq<Register>, b: seq<Register>, more: Option<seq<Register>>)
    ensures Prepend(a, Prepend(b, more)) == Prepend(a + b, more) && Prepend(a, None) == None
  {
    if more.Some? {
      assert a + (b + more.value) == a + b + more.value;
    }
  }

  /** Reads the window batch by batch; `sent` are the requests that went out. */
  method ReadWindow(unit: u8, start: Word, count: Word, stream: seq<u8>) returns (words: Option<seq<Register>>, sent: seq<Request>)
    ensures words.Some? ==> ValidWindow(start, count) && sent == Plan(start, count)
    ensures if ValidWindow(start, count)
            then words == ReadAll(Plan(start, count), unit, stream) && sent <= Plan(start, count)
            else words == None && sent == []
  {
    if !ValidWindow(start, count) {
      return None, [];
    }
    hide ValidWindow; hide ReadAll; hide PlanFrom;
    words, sent := ReadBatches(unit, start, count, stream);
  }

  method ReadBatches(unit: u8, start: Word, count: Word, stream: seq<u8>) returns (words: Option<seq<Register>>, sent: seq<Request>)
    requires ValidWindow(start, count)
    ensures words == ReadAll(Plan(start, count), unit, stream) && sent <= Plan(start, count)
    ensures words.Some? ==> sent == Plan(start, count)
  {
    var got: seq<Register>, rest := [], stream;
    var offset: Word, tid: Word := 0, 1;
    sent := [];
    StartReading(start, count, unit, stream);
    hide *;
    while offset < count
      invariant Reading(start, count, unit, stream, offset, tid, sent, got, rest)
      decreases count - offset
    {
      var batch := Min(count - offset, 120);
      KeepReading(start, count, unit, stream, offset, tid, sent, got, rest, batch);
      var r := Request(tid, start + offset, batch);
      sent := sent + [r];
      var reply := ReadReply(rest, unit, r);
      if reply.None? {
        return None, sent;
      }
      got, rest := got + reply.value.0, reply.value.1;
      offset, tid := offset + batch, tid + 1;
    }
    AllRead(start, count, unit, stream, offset, tid, sent, got, rest);
    return Some(got), sent;
  }

  /** The loop's invariant: the batches so far are the first of the plan, and reading the
      rest of it from the rest of the stream completes the window. */
  ghost predicate Reading(start: Word, count: Word, unit: u8, stream: seq<u8>, offset: nat, tid: nat,
                          sent: seq<Request>, got: seq<Register>, rest: seq<u8>)
    requires ValidWindow(start, count)
  {
    var plan, k := Plan(start, count), |sent|;
    && sent <= plan && tid == k + 1 && offset == Min(120 * k, count)
    && ReadAll(plan, unit, stream) == Prepend(got, ReadAll(plan[k..], unit, rest))
  }

  lemma StartReading(start: Word, count: Word, unit: u8, stream: seq<u8>)
    requires ValidWindow(start, count)
    ensures Reading(start, count, unit, stream, 0, 1, [], [], stream)
  {
    hide ReadAll; hide Plan;
    var plan := Plan(start, count);
    assert plan[0..] == plan;
    var all := ReadAll(plan, unit, stream);
    assert all.Some? ==> [] + all.value == all.value;
  }

  lemma KeepReading(start: Word, count: Word, unit: u8, stream: seq<u8>, offset: nat, tid: nat,
                    sent: seq<Request>, got: seq<Register>, rest: seq<u8>, batch: nat)
    requires ValidWindow(start, count) && offset < count && batch == Min(count - offset, 120)
    requires Reading(start, count, unit, stream, offset, tid, sent, got, rest)
    ensures tid + 1 < 0x1_0000 && start + offset < 0x1_0000 && 0 < batch <= count - offset
    ensures var r := Request(tid, start + offset, batch);
            var reply := ReadReply(rest, unit, r);
            && sent + [r] <= Plan(start, count)
            && (reply.None? ==> ReadAll(Plan(start, count), unit, stream) == None)
            && (reply.Some? ==>
                  Reading(start, count, unit, stream, offset + batch, tid + 1, sent + [r], got + reply.value.0, reply.value.1))
  {
    var plan, k := Plan(start, count), |sent|;
    PlanEntry(start, count, k, offset);
    hide ReadReply; hide Plan; hide ReadAll; hide Prepend; hide Min;
    ReadOn(plan, k, unit, stream, got, rest);
    assert sent + [plan[k]] == plan[..k + 1];
  }

  lemma ReadOn(plan: seq<Request>, k: nat, unit: u8, stream: seq<u8>, got: seq<Register>, rest: seq<u8>)
    requires k < |plan| && ReadAll(plan, unit, stream) == Prepend(got, ReadAll(plan[k..], unit, rest))
    ensures var reply := ReadReply(rest, unit, plan[k]);
            ReadAll(plan, unit, stream)
            == if reply.None? then None else Prepend(got + reply.value.0, ReadAll(plan[k + 1..], unit, reply.value.1))
  {
    hide *;
    var reply := ReadReply(rest, unit, plan[k]);
    assert plan[k..] == [plan[k]] + plan[k + 1..];
    ReadAllStep(plan[k], plan[k + 1..], unit, rest);
    if reply.Some? {
      PrependTwice(got, reply.value.0, ReadAll(plan[k + 1..], unit, reply.value.1));
    } else {
      PrependTwice(got, [], None);
    }
  }

  /** The request that reads on from `offset`, the `k`-th batch boundary. */
  lemma PlanEntry(start: Word, count: Word, k: nat, offset: nat)
    requires ValidWindow(start, count) && offset == Min(120 * k, count) && offset < count
    ensures var batch := Min(count - offset, 120);
            && k < |Plan(start, count)| && k + 2 < 0x1_0000 && start + offset < 0x1_0000 && 0 < batch <= count - offset
            && Plan(start, count)[k] == Request(k + 1, start + offset, batch) && offset + batch == Min(120 * (k + 1), count)
  {
    PlanLength(start, count, 0, 1);
    PlanAt(start, count, 0, 1, k);
  }

  lemma AllRead(start: Word, count: Word, unit: u8, stream: seq<u8>, offset: nat, tid: nat,
                sent: seq<Request>, got: seq<Register>, rest: seq<u8>)
    requires ValidWindow(start, count) && offset >= count
    requires Reading(start, count, unit, stream, offset, tid, sent, got, rest)
    ensures sent == Plan(start, count) && ReadAll(Plan(start, count), unit, stream) == Some(got)
  {
    PlanLength(start, count, 0, 1);
    assert got + [] == got;
  }

  // ── What the requests are ──────────────────────────────────────────────────

  lemma {:induction false} PlanAt(start: Word, count: Word, offset: nat, tid: nat, k: nat)
    requires ValidWindow(start, count) && Reached(count, offset, tid) && k < |PlanFrom(start, count, offset, tid)|
    ensures offset + 120 * k < count && start + offset + 120 * k < 0x1_0000 && tid + k < 0x1_0000
    ensures PlanFrom(start, count, offset, tid)[k] == Request(tid + k, start + offset + 120 * k, Min(count - offset - 120 * k, 120))
    decreases k
  {
    if k > 0 {
      var batch := Min(count - offset, 120);
      PlanAt(start, count, offset + batch, tid + 1, k - 1);
    }
  }

  lemma {:induction false} PlanLength(start: Word, count: Word, offset: nat, tid: nat)
    requires ValidWindow(start, count) && Reached(count, offset, tid)
    ensures |PlanFrom(start, count, offset, tid)| == (count - offset + 119) / 120
    decreases count - offset
  {
    if offset < count {
      PlanLength(start, count, offset + Min(count - offset, 120), tid + 1);
    }
  }

  /** Every register of the window is read by exactly one request, in order, each within
      the protocol's limit of 125 registers and made of whole tanks. */
  lemma PlanCoversOnce(start: Word, count: Word, register: Word)
    requires ValidWindow(start, count)
    ensures forall k | 0 <= k < |Plan(start, count)| ::
              var r := Plan(start, count)[k]; r.tid == k + 1 && 1 <= r.count <= 125 && r.count % 12 == 0
    ensures start <= register < start + count <==>
            exists k | 0 <= k < |Plan(start, count)| :: InRequest(Plan(start, count)[k], register)
    ensures forall k, l | 0 <= k < l < |Plan(start, count)| ::
              Plan(start, count)[k].start + Plan(start, count)[k].count <= Plan(start, count)[l].start
  {
    var plan := Plan(start, count);
    forall k | 0 <= k < |plan|
      ensures plan[k].tid == k + 1 && plan[k].start == start + 120 * k && 120 * k < count && plan[k].count == Min(count - 120 * k, 120) {
      PlanAt(start, count, 0, 1, k);
    }
    PlanLength(start, count, 0, 1);
    if start <= register < start + count {
      assert InRequest(plan[(register - start) / 120], register);
    }
  }

  predicate InRequest(r: Request, register: int) { r.start <= register < r.start + r.count }

  /** No tank is torn apart: the twelve registers of a slot come from one request. */
  lemma SlotInOneRequest(start: Word, count: Word, slot: Word)
    requires ValidWindow(start, count) && 1 <= slot && slot * 12 <= count
    ensures exists k | 0 <= k < |Plan(start, count)| ::
              forall register | start + (slot - 1) * 12 <= register < start + slot * 12 :: InRequest(Plan(start, count)[k], register)
  {
    var k := (slot - 1) / 10;
    PlanLength(start, count, 0, 1);
    PlanAt(start, count, 0, 1, k);
    var r := Plan(start, count)[k];
    assert r.start == start + 120 * k && start + slot * 12 <= r.start + r.count;
    assert forall register | start + (slot - 1) * 12 <= register < start + slot * 12 :: InRequest(r, register);
  }

  // ── Replies ────────────────────────────────────────────────────────────────

  lemma RegistersRoundTrip(bytes: seq<u8>, registers: seq<Register>)
    ensures |bytes| % 2 == 0 ==> Bytes(Registers(bytes)) == bytes
    ensures Registers(Bytes(registers)) == registers
  {}

  lemma ReplyAccepted(stream: seq<u8>, unit: u8, r: Request)
    requires 1 <= r.count <= 125 && r.tid < 0x1_0000 && ReadReply(stream, unit, r).Some?
    ensures var (registers, rest) := ReadReply(stream, unit, r).value;
            |registers| == r.count && stream == Reply(unit, r.tid, registers) + rest
  {
    hide Value; hide Byte; hide WordOf; hide BigEndian; hide Bytes; hide Registers; hide Reply;
    var n := 6 + WordOf(stream[4], stream[5]);
    var pdu := stream[7..n];
    assert pdu[0] == stream[7] && pdu[1] == stream[8] && n == 9 + 2 * r.count;
    hide ReadReply;
    AcceptedIsReply(stream, unit, r.tid, pdu[2..], stream[n..]);
  }

  lemma AcceptedIsReply(stream: seq<u8>, unit: u8, tid: Word, bytes: seq<u8>, rest: seq<u8>)
    requires |bytes| % 2 == 0 && |bytes| <= 250 && |stream| >= 9 + |bytes|
    requires WordOf(stream[0], stream[1]) == tid && stream[2..4] == [0, 0] && WordOf(stream[4], stream[5]) == 3 + |bytes|
    requires stream[6] == unit && stream[7] == 3 && Value(stream[8]) == |bytes|
    requires bytes == stream[7..9 + |bytes|][2..] && rest == stream[9 + |bytes|..]
    ensures |Registers(bytes)| == |bytes| / 2 && stream == Reply(unit, tid, Registers(bytes)) + rest
  {
    RegistersRoundTrip(bytes, []);
    hide *;
    WordOfBytes(stream[0], stream[1]);
    WordOfBytes(stream[4], stream[5]);
    ByteOfValue(stream[8]);
    ReplyLayout(unit, tid, Registers(bytes));
    HeaderParts(stream, unit, 9 + |bytes|);
  }

  lemma ReplyLayout(unit: u8, tid: Word, words: seq<Register>)
    requires |words| <= 125
    ensures Reply(unit, tid, words)
         == BigEndian(tid) + [0, 0] + BigEndian(3 + 2 * |words|) + [unit, 3, Byte(2 * |words|)] + Bytes(words)
  {}

  lemma HeaderParts(stream: seq<u8>, unit: u8, n: nat)
    requires 9 <= n <= |stream| && stream[2..4] == [0, 0] && stream[6] == unit && stream[7] == 3
    ensures stream == [stream[0], stream[1]] + [0, 0] + [stream[4], stream[5]] + [unit, 3, stream[8]] + stream[7..n][2..] + stream[n..]
  {
    assert stream[2] == stream[2..4][0] && stream[3] == stream[2..4][1];
  }

  lemma ReplyIsRead(unit: u8, r: Request, registers: seq<Register>, rest: seq<u8>)
    requires 1 <= r.count <= 125 && r.tid < 0x1_0000 && |registers| == r.count
    ensures ReadReply(Reply(unit, r.tid, registers) + rest, unit, r) == Some((registers, rest))
  {
    ReplyParts(unit, r.tid, registers, rest);
    hide *;
    PartsAreRead(Reply(unit, r.tid, registers) + rest, unit, r, registers, rest);
  }

  predicate Parts(s: seq<u8>, unit: u8, tid: Word, registers: seq<Register>, rest: seq<u8>)
    requires |registers| <= 125
  {
    var n := 9 + 2 * |registers|;
    && |s| >= n
    && [s[0], s[1]] == BigEndian(tid) && s[2..4] == [0, 0] && [s[4], s[5]] == BigEndian(3 + 2 * |registers|)
    && s[6] == unit && s[7..n][0] == 3 && s[7..n][1] == Byte(2 * |registers|)
    && s[7..n][2..] == Bytes(registers) && s[n..] == rest
  }

  lemma PartsAreRead(stream: seq<u8>, unit: u8, r: Request, registers: seq<Register>, rest: seq<u8>)
    requires 1 <= r.count <= 125 && r.tid < 0x1_0000 && |registers| == r.count
    requires Parts(stream, unit, r.tid, registers, rest)
    ensures ReadReply(stream, unit, r) == Some((registers, rest))
  {
    hide Value; hide Byte; hide WordOf; hide Registers; hide BigEndian; hide Bytes;
    WordOfPair(stream[0], stream[1], r.tid);
    WordOfPair(stream[4], stream[5], 3 + 2 * r.count);
    ValueOfByte(2 * r.count);
    RegistersRoundTrip([], registers);
  }

  lemma WordOfPair(hi: u8, lo: u8, w: Word)
    requires [hi, lo] == BigEndian(w)
    ensures WordOf(hi, lo) == w
  {
    WordRoundTrip(w);
    hide BigEndian; hide WordOf;
    assert hi == BigEndian(w)[0] && lo == BigEndian(w)[1];
  }

  lemma ReplyParts(unit: u8, tid: Word, registers: seq<Register>, rest: seq<u8>)
    requires |registers| <= 125
    ensures Parts(Reply(unit, tid, registers) + rest, unit, tid, registers, rest)
  {
    hide Value; hide Byte; hide BigEndian; hide Bytes;
  }

  /** The client accepts exactly the reply frames that carry as many registers as it
      asked for under its transaction and unit, and reads nothing past them. */
  lemma RepliesAreExact(stream: seq<u8>, unit: u8, r: Request, registers: seq<Register>, rest: seq<u8>)
    requires 1 <= r.count <= 125 && r.tid < 0x1_0000
    ensures ReadReply(stream, unit, r) == Some((registers, rest))
       <==> |registers| == r.count && stream == Reply(unit, r.tid, registers) + rest
  {
    hide Value; hide Byte; hide WordOf; hide BigEndian; hide Bytes; hide Registers;
    if ReadReply(stream, unit, r).Some? {
      ReplyAccepted(stream, unit, r);
    }
    hide ReadReply; hide Reply;
    if |registers| == r.count && stream == Reply(unit, r.tid, registers) + rest {
      ReplyIsRead(unit, r, registers, rest);
    }
  }

  /** What a device with these registers answers to a request frame: its registers to a
      well-formed Read Holding Registers request within its address space, else nothing. */
  function Answer(memory: seq<Register>, frame: seq<u8>): seq<u8>
    requires |memory| == 0x1_0000 && |frame| == 12
  {
    var start, count := WordOf(frame[8], frame[9]), WordOf(frame[10], frame[11]);
    if frame[2..4] != [0x00, 0x00] || WordOf(frame[4], frame[5]) != 6 || frame[7] != 0x03 then []
    else if !(1 <= count <= 125) || start + count > 0x1_0000 then []
    else Reply(frame[6], WordOf(frame[0], frame[1]), memory[start..start + count])
  }

  predicate InSpace(r: Request) { r.tid < 0x1_0000 && 1 <= r.count <= 125 && r.start + r.count <= 0x1_0000 }

  lemma AnswerToRequest(memory: seq<Register>, unit: u8, r: Request)
    requires |memory| == 0x1_0000 && InSpace(r)
    ensures Answer(memory, RequestFrame(unit, r)) == Reply(unit, r.tid, memory[r.start..r.start + r.count])
  {
    hide WordOf; hide Reply; hide Value; hide Byte; hide BigEndian; hide RequestFrame;
    var frame := RequestFrame(unit, r);
    FrameParts(unit, r);
    WordOfPair(frame[0], frame[1], r.tid);
    WordOfPair(frame[8], frame[9], r.start);
    WordOfPair(frame[10], frame[11], r.count);
    WordOfPair(frame[4], frame[5], 6);
  }

  lemma FrameParts(unit: u8, r: Request)
    requires r.tid < 0x1_0000 && r.start < 0x1_0000 && r.count < 0x1_0000
    ensures var f := RequestFrame(unit, r);
            && [f[0], f[1]] == BigEndian(r.tid) && f[2..4] == [0x00, 0x00] && [f[4], f[5]] == BigEndian(6)
            && f[6] == unit && f[7] == 0x03 && [f[8], f[9]] == BigEndian(r.start) && [f[10], f[11]] == BigEndian(r.count)
  {
    hide BigEndian;
  }

  predicate AllInSpace(plan: seq<Request>) { forall i | 0 <= i < |plan| :: InSpace(plan[i]) }

  function Answers(memory: seq<Register>, unit: u8, plan: seq<Request>): seq<u8>
    requires |memory| == 0x1_0000 && AllInSpace(plan)
  {
    if plan == [] then []
    else
      assert InSpace(plan[0]);
      Answer(memory, RequestFrame(unit, plan[0])) + Answers(memory, unit, plan[1..])
  }

  lemma AnswersCons(memory: seq<Register>, unit: u8, r: Request, more: seq<Request>)
    requires |memory| == 0x1_0000 && InSpace(r) && AllInSpace(more)
    ensures AllInSpace([r] + more)
    ensures Answers(memory, unit, [r] + more) == Answer(memory, RequestFrame(unit, r)) + Answers(memory, unit, more)
  {
    hide Answer; hide RequestFrame; hide InSpace;
    assert ([r] + more)[1..] == more;
  }

  /** The requests lie one behind the other and cover the registers from `first` up to `end`. */
  predicate Covers(plan: seq<Request>, first: nat, end: nat) {
    if plan == [] then first == end
    else InSpace(plan[0]) && plan[0].start == first && Covers(plan[1..], first + plan[0].count, end)
  }

  lemma {:induction false} PlanCovers(start: Word, count: Word, offset: nat, tid: nat)
    requires ValidWindow(start, count) && Reached(count, offset, tid)
    ensures Covers(PlanFrom(start, count, offset, tid), start + offset, start + count)
    decreases count - offset
  {
    if offset < count {
      PlanCovers(start, count, offset + Min(count - offset, 120), tid + 1);
    }
  }

  lemma SliceJoins(memory: seq<Register>, i: nat, j: nat, k: nat)
    requires i <= j <= k <= |memory|
    ensures memory[i..k] == memory[i..j] + memory[j..k]
  {}

  /** The first answer is read off, and the rest of the plan from what follows it. */
  lemma OneAnswerRead(memory: seq<Register>, unit: u8, r: Request, more: seq<Request>)
    requires |memory| == 0x1_0000 && InSpace(r) && AllInSpace(more)
    ensures AllInSpace([r] + more)
    ensures ReadAll([r] + more, unit, Answers(memory, unit, [r] + more))
         == Prepend(memory[r.start..r.start + r.count], ReadAll(more, unit, Answers(memory, unit, more)))
  {
    var words := memory[r.start..r.start + r.count];
    assert 1 <= r.count <= 125 && r.tid < 0x1_0000 && |words| == r.count;
    hide *;
    AnswersCons(memory, unit, r, more);
    AnswerToRequest(memory, unit, r);
    ReplyIsRead(unit, r, words, Answers(memory, unit, more));
    ReadAllStep(r, more, unit, Answers(memory, unit, [r] + more));
  }

  lemma CoversHead(plan: seq<Request>, first: nat, end: nat)
    requires plan != [] && Covers(plan, first, end)
    ensures InSpace(plan[0]) && plan[0].start == first && Covers(plan[1..], first + plan[0].count, end)
    ensures [plan[0]] + plan[1..] == plan
  {
    hide InSpace;
  }

  lemma NothingToRead(memory: seq<Register>, unit: u8, first: nat, end: nat)
    requires |memory| == 0x1_0000 && Covers([], first, end) && end <= 0x1_0000
    ensures AllInSpace([]) && first == end
    ensures ReadAll([], unit, Answers(memory, unit, [])) == Some([])
  {}

  lemma PrependIs(a: seq<Register>, b: seq<Register>)
    ensures Prepend(a, Some(b)) == Some(a + b)
  {}

  lemma {:induction false} AnswersReadBack(memory: seq<Register>, unit: u8, plan: seq<Request>, first: nat, end: nat)
    requires |memory| == 0x1_0000 && Covers(plan, first, end) && end <= 0x1_0000
    ensures AllInSpace(plan) && first <= end
    ensures ReadAll(plan, unit, Answers(memory, unit, plan)) == Some(memory[first..end])
    decreases |plan|
  {
    hide *;
    if plan == [] {
      NothingToRead(memory, unit, first, end);
      assert memory[first..first] == [];
    } else {
      var r, more := plan[0], plan[1..];
      CoversHead(plan, first, end);
      var next := first + r.count;
      AnswersReadBack(memory, unit, more, next, end);
      OneAnswerRead(memory, unit, r, more);
      PrependIs(memory[first..next], memory[next..end]);
      SliceJoins(memory, first, next, end);
    }
  }

  lemma WholePlan(start: Word, count: Word)
    requires ValidWindow(start, count)
    ensures Reached(count, 0, 1) && Plan(start, count) == PlanFrom(start, count, 0, 1)
    ensures start + count <= 0x1_0000
  {
    hide PlanFrom;
  }

  /** From a device that answers the requests in turn, the window arrives whole: every
      register once, in order. */
  lemma WindowIsRead(memory: seq<Register>, unit: u8, start: Word, count: Word)
    requires |memory| == 0x1_0000 && ValidWindow(start, count)
    ensures AllInSpace(Plan(start, count))
    ensures ReadAll(Plan(start, count), unit, Answers(memory, unit, Plan(start, count))) == Some(memory[start..start + count])
  {
    PlanCovers(start, count, 0, 1);
    WholePlan(start, count);
    hide *;
    AnswersReadBack(memory, unit, Plan(start, count), start, start + count);
  }

  // ── Measurements ───────────────────────────────────────────────────────────

  /** A decoded 32-bit float: a number, or infinity or not-a-number. */
  datatype Num = Finite(value: real) | NotFinite

  datatype WordOrder = ABCD | CDAB | BADC | DCBA

  function Pow2(n: nat): (p: real)
    ensures p > 0.0
  {
    if n == 0 then 1.0 else 2.0 * Pow2(n - 1)
  }

  /** A number `2^23 + fraction`, or `fraction` alone for exponent zero, in its place. */
  function Scaled(exponent: nat, fraction: nat): real {
    if exponent == 0 then fraction as real / Pow2(149)
    else if exponent >= 150 then (8388608 + fraction) as real * Pow2(exponent - 150)
    else (8388608 + fraction) as real / Pow2(150 - exponent)
  }

  /** Single precision from its four bytes, most significant first. */
  function Single(b0: nat, b1: nat, b2: nat, b3: nat): Num {
    var exponent := b0 % 128 * 2 + b1 / 128;
    var size := Scaled(exponent, b1 % 128 * 0x1_0000 + b2 * 0x100 + b3);
    if exponent == 255 then NotFinite else Finite(if b0 >= 128 then -size else size)
  }

  function FloatOf(b: (u8, u8, u8, u8)): Num { Single(Value(b.0), Value(b.1), Value(b.2), Value(b.3)) }

  lemma {:induction false} Pow2Adds(m: nat, n: nat)
    ensures Pow2(m + n) == Pow2(m) * Pow2(n)
    decreases m
  {
    if m > 0 {
      Pow2Adds(m - 1, n);
    }
  }

  lemma TimesTwice(x: real, a: real, b: real)
    ensures x * a * b == x * (a * b)
    ensures a != 0.0 ==> x / a * (a * b) == x * b
  {
    if a != 0.0 {
      assert x / a * a == x;
      assert x / a * (a * b) == (x / a * a) * b;
    }
  }

  lemma ScaledUp(x: real, k: nat)
    ensures x * Pow2(k) * Pow2(150) == x * Pow2(k + 150)
  {
    Pow2Adds(k, 150);
    hide Pow2;
    TimesTwice(x, Pow2(k), Pow2(150));
  }

  lemma ScaledDown(x: real, k: nat, n: nat)
    requires k + n == 150
    ensures x / Pow2(k) * Pow2(150) == x * Pow2(n)
  {
    Pow2Adds(k, n);
    hide Pow2;
    TimesTwice(x, Pow2(k), Pow2(n));
  }

  /** 150 binary places up. */
  function Up150(x: real): real { x * Pow2(150) }

  function TimesPow2(m: nat, n: nat): real { m as real * Pow2(n) }

  lemma SubnormalIs(fraction: nat)
    ensures Up150(Scaled(0, fraction)) == TimesPow2(2 * fraction, 0)
  {
    ScaledDown(fraction as real, 149, 1);
    assert Pow2(1) == 2.0 * Pow2(0) && Pow2(0) == 1.0;
    hide Pow2;
  }

  lemma LargeIs(exponent: nat, fraction: nat)
    requires 150 <= exponent
    ensures Up150(Scaled(exponent, fraction)) == TimesPow2(0x80_0000 + fraction, exponent)
  {
    hide Pow2;
    ScaledUp((8388608 + fraction) as real, exponent - 150);
  }

  lemma SmallIs(exponent: nat, fraction: nat)
    requires 0 < exponent < 150
    ensures Up150(Scaled(exponent, fraction)) == TimesPow2(0x80_0000 + fraction, exponent)
  {
    hide Pow2;
    ScaledDown((8388608 + fraction) as real, 150 - exponent, exponent);
  }

  lemma Split(q: nat, r: nat)
    ensures r < 0x80_0000 ==> (q * 0x80_0000 + r) / 0x80_0000 == q && (q * 0x80_0000 + r) % 0x80_0000 == r
    ensures r < 0x100 ==> (q * 0x100 + r) / 0x100 == q && (q * 0x100 + r) % 0x100 == r
  {}

  lemma BitFields(b0: nat, b1: nat, b2: nat, b3: nat)
    requires b0 < 256 && b1 < 256 && b2 < 256 && b3 < 256
    ensures var bits := b0 * 0x100_0000 + b1 * 0x1_0000 + b2 * 0x100 + b3;
            && bits / 0x80_0000 / 0x100 == b0 / 128 && bits / 0x80_0000 % 0x100 == b0 % 128 * 2 + b1 / 128
            && bits % 0x80_0000 == b1 % 128 * 0x1_0000 + b2 * 0x100 + b3
  {
    var exponent, fraction := b0 % 128 * 2 + b1 / 128, b1 % 128 * 0x1_0000 + b2 * 0x100 + b3;
    var head := b0 / 128 * 0x100 + exponent;
    Split(b0 / 128, exponent);
    Split(head, fraction);
    TwoBytes(b0, b1, b2 * 0x100 + b3);
  }

  lemma TwoBytes(b0: nat, b1: nat, low: nat)
    ensures b0 * 0x100_0000 + b1 * 0x1_0000 + low
         == (b0 / 128 * 0x100 + (b0 % 128 * 2 + b1 / 128)) * 0x80_0000 + (b1 % 128 * 0x1_0000 + low)
  {
    assert b0 == b0 / 128 * 128 + b0 % 128 && b1 == b1 / 128 * 128 + b1 % 128;
  }

  /** Section 3.4 of IEEE 754: sign, eight exponent bits and 23 fraction bits. An all-ones
      exponent is no number; otherwise the number, 150 binary places up, is its significand,
      with the hidden bit unless the exponent is zero, times two to the exponent. */
  ghost predicate IsIeee(bits: nat, r: Num) {
    var (head, fraction) := (bits / 0x80_0000, bits % 0x80_0000);
    var (sign, exponent) := (head / 0x100, head % 0x100);
    var size := TimesPow2(if exponent == 0 then 2 * fraction else 0x80_0000 + fraction, exponent);
    if exponent == 0xFF then r == NotFinite
    else r.Finite? && Up150(r.value) == if sign == 0 then size else -size
  }

  lemma FloatIsIeee(b: (u8, u8, u8, u8))
    ensures IsIeee(Value(b.0) * 0x100_0000 + Value(b.1) * 0x1_0000 + Value(b.2) * 0x100 + Value(b.3), FloatOf(b))
  {
    hide Value; hide IsIeee; hide Single;
    SingleIsIeee(Value(b.0), Value(b.1), Value(b.2), Value(b.3));
  }

  lemma Negated(x: real)
    ensures Up150(-x) == -Up150(x)
  {
    hide Pow2;
    assert -x * Pow2(150) == -(x * Pow2(150));
  }

  lemma SingleIsIeee(b0: nat, b1: nat, b2: nat, b3: nat)
    requires b0 < 256 && b1 < 256 && b2 < 256 && b3 < 256
    ensures IsIeee(b0 * 0x100_0000 + b1 * 0x1_0000 + b2 * 0x100 + b3, Single(b0, b1, b2, b3))
  {
    BitFields(b0, b1, b2, b3);
    var exponent, fraction := b0 % 128 * 2 + b1 / 128, b1 % 128 * 0x1_0000 + b2 * 0x100 + b3;
    if exponent == 0 {
      SubnormalIs(fraction);
    } else if exponent >= 150 {
      LargeIs(exponent, fraction);
    } else {
      SmallIs(exponent, fraction);
    }
    Negated(Scaled(exponent, fraction));
    hide Scaled; hide Up150; hide TimesPow2;
  }

  function Ordered(hi: Register, lo: Register, order: WordOrder): (u8, u8, u8, u8) {
    var (a, b, c, d) := (hi.hi, hi.lo, lo.hi, lo.lo);
    match order
    case ABCD => (a, b, c, d)
    case CDAB => (c, d, a, b)
    case BADC => (b, a, d, c)
    case DCBA => (d, c, b, a)
  }

  function Floats(registers: seq<Register>, order: WordOrder): (r: seq<Num>)
    ensures |r| == |registers| / 2
  {
    seq(|registers| / 2, i requires 0 <= i < |registers| / 2 => FloatOf(Ordered(registers[2 * i], registers[2 * i + 1], order)))
  }

  predicate BadValue(v: Num, i: nat) { v.NotFinite? || (i != 2 && v.value < 0.0) }

  /** Height, water height, temperature, both volumes and water volume of one slot;
      `None` when the slot is outside the window or a value is impossible. */
  function SlotValues(floats: seq<Num>, slot: Word): Option<seq<real>> {
    if slot == 0 || |floats| < slot * 6 then None
    else
      var values := floats[6 * (slot - 1)..6 * slot];
      if exists i | 0 <= i < 6 :: BadValue(values[i], i) then None
      else Some(seq(6, i requires 0 <= i < 6 => if values[i].Finite? then values[i].value else 0.0))
  }

  /** A validated slot fails only on a bad value of its own, and its values are those of
      its own twelve registers whatever the rest of the window holds. */
  lemma SlotReadsItsRegisters(cfg: Config, m: Member, memory: seq<Register>, order: WordOrder)
    requires |memory| == 0x1_0000 && MemberOk(cfg, m) && WindowOk(m.branch)
    ensures var b := m.branch;
            var register := ProbeOf(m).register;
            && ValidWindow(Pdu(b), b.registerCount)
            && Pdu(b) <= register && register + 12 <= Pdu(b) + b.registerCount
            && (var own := Floats(memory[register..register + 12], order);
                var values := SlotValues(Floats(memory[Pdu(b)..Pdu(b) + b.registerCount], order), m.slot.slot);
                && (values.None? <==> exists i | 0 <= i < 6 :: BadValue(own[i], i))
                && (values.Some? ==> |values.value| == 6 && forall i | 0 <= i < 6 :: own[i] == Finite(values.value[i])))
  {
    hide LinkOk; hide Trim; hide Floats;
    var b, slot := m.branch, m.slot.slot;
    var window := memory[Pdu(b)..Pdu(b) + b.registerCount];
    var register := ProbeOf(m).register;
    FloatsSlice(window, order, slot - 1);
    SliceOfSlice(memory, Pdu(b), Pdu(b) + b.registerCount, 12 * (slot - 1), 12 * slot);
  }

  lemma SliceOfSlice<T>(s: seq<T>, lo: nat, hi: nat, i: nat, j: nat)
    requires lo <= hi <= |s| && i <= j <= hi - lo
    ensures s[lo..hi][i..j] == s[lo + i..lo + j]
  {
    forall k | 0 <= k < j - i ensures s[lo..hi][i..j][k] == s[lo + i..lo + j][k] {
      assert s[lo..hi][i + k] == s[lo + i + k];
    }
  }

  lemma FloatsSlice(registers: seq<Register>, order: WordOrder, k: nat)
    requires 12 * (k + 1) <= |registers|
    ensures Floats(registers, order)[6 * k..6 * (k + 1)] == Floats(registers[12 * k..12 * (k + 1)], order)
  {
    hide FloatOf; hide Ordered;
  }
}
