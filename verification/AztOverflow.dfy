/** What the 300-byte rule costs, however a stream is cut into reads. */
module AztOverflow {
  import opened Wire
  import opened Azt
  import opened AztStream
  import opened AztResync

  /** Every request that stands whole in `b`, a start byte without a whole frame behind it
      being passed over. */
  function Content(b: seq<u8>): seq<TrkRequest>
    decreases |b|, 0
  {
    var s := FirstStart(b);
    if s == |b| then [] else ContentFrom(b[s], b[s + 1..])
  }

  /** The content of a start byte and what follows it. */
  function ContentFrom(start: u8, body: seq<u8>): seq<TrkRequest>
    requires IsStart(start)
    decreases |body|, 1
  {
    match ParseBody(body)
    case Complete(consumed, normal) => Maybe(Resolve(start, normal)) + Content(body[consumed..])
    case _ => Content(body)
  }

  lemma ContentAt(b: seq<u8>)
    ensures FirstStart(b) < |b| ==> Content(b) == ContentFrom(b[FirstStart(b)], b[FirstStart(b) + 1..])
    ensures FirstStart(b) == |b| ==> Content(b) == []
  {
    hide FirstStart; hide ContentFrom; hide IsStart;
  }

  lemma ContentSkips(x: u8, b: seq<u8>)
    requires !IsStart(x)
    ensures Content([x] + b) == Content(b)
  {
    var z := [x] + b;
    assert z[1..] == b;
    assert FirstStart(z) == 1 + FirstStart(b);
    hide Content; hide ContentFrom; hide FirstStart; hide IsStart;
    ContentAt(b);
    ContentAt(z);
    var s := FirstStart(b);
    if s < |b| {
      assert z[s + 1] == b[s] && z[s + 2..] == b[s + 1..];
    }
  }

  lemma ContentStarts(x: u8, b: seq<u8>)
    requires IsStart(x)
    ensures Content([x] + b) == ContentFrom(x, b)
  {
    var z := [x] + b;
    assert z[1..] == b && FirstStart(z) == 0;
    hide Content; hide ContentFrom; hide FirstStart; hide IsStart;
    ContentAt(z);
  }

  // ── The size of what is served ─────────────────────────────────────────────

  function Size(r: TrkRequest): nat { 2 * |r.data| + (if r.addr.Some? then 2 else 1) }

  function Weight(rs: seq<TrkRequest>): nat { if rs == [] then 0 else Size(rs[0]) + Weight(rs[1..]) }

  lemma {:induction false} WeightJoins(a: seq<TrkRequest>, b: seq<TrkRequest>)
    ensures Weight(a + b) == Weight(a) + Weight(b)
    decreases |a|
  {
    hide Size;
    if a == [] {
      assert a + b == b;
    } else {
      assert (a + b)[1..] == a[1..] + b;
      WeightJoins(a[1..], b);
    }
  }

  lemma WeightOne(request: Option<TrkRequest>)
    ensures Weight(Maybe(request)) == if request.Some? then Size(request.value) else 0
  {
    if request.Some? {
      assert Maybe(request)[1..] == [];
    }
  }

  /** The most that can be served from inside a frame of `n` normal bytes. */
  function Inner(n: nat): nat { if n <= 1 then 0 else 2 * n - 3 }

  /** A frame's own request weighs more than anything inside the frame. */
  lemma RequestWeighs(start: u8, normal: seq<u8>)
    requires IsStart(start)
    ensures var w, n := Weight(Maybe(Resolve(start, normal))), |normal|;
            && w <= (if n == 0 then 0 else 2 * n - 1)
            && (Resolve(start, normal).Some? ==> Inner(n) < w)
            && (Resolve(start, normal).None? ==> Inner(n) == 0 && w == 0)
  {
    WeightOne(Resolve(start, normal));
    hide AddressOffset; hide NibbleValue; hide Weight; hide IsStart;
  }

  // ── Inside a frame ─────────────────────────────────────────────────────────

  /** The rest of a frame from one of its pairs on, and what follows the frame. */
  function PairsOn(d: seq<u8>, cs: u8, rest: seq<u8>): seq<u8> { Pairs(d) + ([ETX, ETX, cs] + rest) }

  lemma PairsOnCons(a: u8, d: seq<u8>, cs: u8, rest: seq<u8>)
    ensures PairsOn([a] + d, cs, rest) == [a] + ([Complement(a)] + PairsOn(d, cs, rest))
  {
    hide Complement; hide Pairs;
    PairsCons([a] + d);
    assert ([a] + d)[1..] == d;
  }

  lemma EndContent(cs: u8, rest: seq<u8>)
    requires !IsStart(cs)
    ensures Content(PairsOn([], cs, rest)) == Content(rest)
  {
    assert !IsStart(ETX);
    hide Content; hide IsStart;
    PairsEmpty();
    assert PairsOn([], cs, rest) == [ETX] + ([ETX] + ([cs] + rest));
    ContentSkips(cs, rest);
    ContentSkips(ETX, [cs] + rest);
    ContentSkips(ETX, [ETX] + ([cs] + rest));
  }

  /** A start byte in place of a normal byte: the frame is read one byte late. */
  lemma AtNormalByte(a: u8, d: seq<u8>, cs: u8, rest: seq<u8>)
    requires ETX !in d && cs != ETX
    ensures Content([a] + ([Complement(a)] + PairsOn(d, cs, rest))) == Content([Complement(a)] + PairsOn(d, cs, rest))
  {
    var body := [Complement(a)] + PairsOn(d, cs, rest);
    hide Content; hide IsStart; hide Complement; hide Pairs;
    if IsStart(a) {
      ContentStarts(a, body);
      assert body[0..] == body;
      ShiftedNeverParses(body, 0, [], a, d, cs, rest);
    } else {
      ContentSkips(a, body);
    }
  }

  /** A start byte in place of a complement: the rest of the frame may pass for a frame. */
  lemma AtComplement(x: u8, d: seq<u8>, cs: u8, rest: seq<u8>) returns (inner: seq<TrkRequest>, whole: bool)
    requires ETX !in d
    ensures Content([x] + PairsOn(d, cs, rest)) == inner + Content(if whole then rest else PairsOn(d, cs, rest))
    ensures Weight(inner) <= if whole && d != [] then 2 * |d| - 1 else 0
  {
    var body := PairsOn(d, cs, rest);
    inner, whole := [], false;
    if !IsStart(x) {
      ContentSkips(x, body);
    } else {
      hide Content; hide Pairs; hide Checksum; hide Resolve; hide IsStart;
      ContentStarts(x, body);
      ParseAllPairs(body, d, [ETX, ETX, cs] + rest);
      if cs == Checksum(d) {
        ParseTail(body, 2 * |d|, d, rest);
        assert body[2 * |d| + 3..] == rest;
        inner, whole := Maybe(Resolve(x, d)), true;
        RequestWeighs(x, d);
      } else {
        BadEnd(body, 2 * |d|, d, cs, rest);
      }
    }
    assert [] + Content(body) == Content(body);
  }

  lemma BadEnd(body: seq<u8>, i: nat, acc: seq<u8>, cs: u8, rest: seq<u8>)
    requires i <= |body| && body[i..] == [ETX, ETX, cs] + rest && cs != Checksum(acc)
    ensures ParseFrom(body, i, acc) == Malformed
  {
    hide Checksum;
    assert body[i] == body[i..][0] && body[i + 1] == body[i..][1] && body[i + 2] == body[i..][2];
  }

  /** Whatever is found inside a frame ends with the frame and weighs less than it. */
  lemma {:induction false} InsideFrame(d: seq<u8>, cs: u8, rest: seq<u8>) returns (inner: seq<TrkRequest>)
    requires ETX !in d && cs != ETX && !IsStart(cs)
    ensures Content(PairsOn(d, cs, rest)) == inner + Content(rest) && Weight(inner) <= Inner(|d|)
    decreases |d|
  {
    if d == [] {
      hide *;
      EndContent(cs, rest);
      inner := [];
      assert [] + Content(rest) == Content(rest);
      NoWeight();
    } else {
      var a, more := d[0], d[1..];
      assert d == [a] + more && ETX !in more;
      assert Inner(|more|) <= Inner(|d|) && (more != [] ==> 2 * |more| - 1 <= Inner(|d|));
      hide *;
      PairsOnCons(a, more, cs, rest);
      AtNormalByte(a, more, cs, rest);
      var own, whole := AtComplement(Complement(a), more, cs, rest);
      if whole {
        inner := own;
      } else {
        NothingWeighsNothing(own);
        inner := InsideFrame(more, cs, rest);
        assert [] + (inner + Content(rest)) == inner + Content(rest);
      }
    }
  }

  lemma NoWeight()
    ensures Weight([]) == 0
  {}

  lemma NothingWeighsNothing(rs: seq<TrkRequest>)
    requires Weight(rs) == 0
    ensures rs == []
  {}

  // ── Dropping a start byte ──────────────────────────────────────────────────

  /** The frame behind this start byte would be completed by `body`, and answered. */
  predicate WouldServe(start: u8, body: seq<u8>) {
    IsStart(start) && ParseBody(body).Complete? && Resolve(start, ParseBody(body).normal).Some?
  }

  lemma WholeBody(body: seq<u8>)
    requires ParseBody(body).Complete?
    ensures var p := ParseBody(body);
            && ETX !in p.normal && Checksum(p.normal) != ETX && !IsStart(Checksum(p.normal))
            && body == PairsOn(p.normal, Checksum(p.normal), body[p.consumed..])
  {
    var p := ParseBody(body);
    assert ParseFrom(body, 0, []) == p;
    ChecksumBit6(p.normal);
    hide ParseFrom; hide Pairs; hide Checksum; hide ParseBody; hide IsStart;
    ParsedIsEncoded(body, 0, []);
    assert p.normal[0..] == p.normal;
    assert body == body[0..p.consumed] + body[p.consumed..];
  }

  /** Dropping a start byte costs weight exactly when its frame would be answered, and
      changes nothing otherwise. */
  lemma DroppedStart(start: u8, body: seq<u8>)
    requires IsStart(start)
    ensures WouldServe(start, body) ==> Weight(Content(body)) < Weight(Content([start] + body))
    ensures !WouldServe(start, body) ==> Content(body) == Content([start] + body)
  {
    ContentStarts(start, body);
    hide Content; hide ParseBody; hide Resolve; hide IsStart; hide Weight; hide Inner; hide PairsOn; hide Checksum;
    if ParseBody(body).Complete? {
      var p := ParseBody(body);
      var rest := Content(body[p.consumed..]);
      WholeBody(body);
      var inner := InsideFrame(p.normal, Checksum(p.normal), body[p.consumed..]);
      RequestWeighs(start, p.normal);
      WeightJoins(inner, rest);
      WeightJoins(Maybe(Resolve(start, p.normal)), rest);
      if !WouldServe(start, body) {
        NothingWeighsNothing(inner);
      }
    }
  }

  // ── What popping makes of the content ──────────────────────────────────────

  /** During this `Pop` the 300-byte rule drops a frame that `y`, the bytes still to come,
      would have completed and that would have been answered. */
  predicate DropsRequest(x: seq<u8>, y: seq<u8>)
    decreases |x|
  {
    match ScanFront(x)
    case Overflow(rest) => WouldServe(x[FirstStart(x)], rest + y) || DropsRequest(rest, y)
    case Bad(rest) => DropsRequest(rest, y)
    case _ => false
  }

  lemma FirstStartOfSum(x: seq<u8>, y: seq<u8>)
    requires FirstStart(x) < |x|
    ensures var s := FirstStart(x);
            FirstStart(x + y) == s && (x + y)[s] == x[s] && (x + y)[s + 1..] == x[s + 1..] + y
  {
    FirstStartPrefix(x, y);
    hide FirstStart;
    DropConcat(x, y, FirstStart(x) + 1);
  }

  /** What the scan decides about the first start byte, in terms of the content. */
  lemma FrontContent(x: seq<u8>, y: seq<u8>)
    ensures ScanFront(x).Frame? ==> Content(x + y) == Maybe(ScanFront(x).request) + Content(ScanFront(x).rest + y)
    ensures ScanFront(x).Bad? ==> Content(x + y) == Content(ScanFront(x).rest + y)
    ensures ScanFront(x).Overflow? ==>
              FirstStart(x) < |x| && IsStart(x[FirstStart(x)])
              && Content(x + y) == Content([x[FirstStart(x)]] + (ScanFront(x).rest + y))
  {
    var s := FirstStart(x);
    hide Content; hide ParseFrom; hide FirstStart; hide IsStart; hide Resolve; hide ScanFront;
    if !ScanFront(x).Wait? {
      FirstStartOrWait(x);
      ScanAt(x, s);
      FirstStartOfSum(x, y);
      ContentAt(x + y);
      var body := x[s + 1..];
      ContentStarts(x[s], body + y);
      if !ParseBody(body).Incomplete? {
        ParseStable(body, y, 0, []);
        assert ParseBody(body + y) == ParseBody(body);
        if ParseBody(body).Complete? {
          DropConcat(body, y, ParseBody(body).consumed);
        }
      }
    }
  }

  /** One `Pop` keeps the content, its own result included, unless it drops a request. */
  lemma {:induction false} PopCosts(x: seq<u8>, y: seq<u8>)
    ensures var after := Maybe(Pop(x).0) + Content(Pop(x).1 + y);
            && (!DropsRequest(x, y) ==> Content(x + y) == after)
            && (DropsRequest(x, y) ==> Weight(after) < Weight(Content(x + y)))
    decreases |x|
  {
    FrontContent(x, y);
    hide ScanFront; hide Content; hide Weight; hide FirstStart; hide WouldServe; hide IsStart;
    match ScanFront(x)
    case Wait => assert [] + Content(x + y) == Content(x + y);
    case Frame(request, rest) =>
    case Overflow(rest) =>
      DroppedStart(x[FirstStart(x)], rest + y);
      PopCosts(rest, y);
    case Bad(rest) => PopCosts(rest, y);
  }

  predicate PassDrops(x: seq<u8>, y: seq<u8>)
    decreases |x|
  {
    DropsRequest(x, y) || (Pop(x).0.Some? && PassDrops(Pop(x).1, y))
  }

  lemma {:induction false} PassCosts(x: seq<u8>, y: seq<u8>)
    ensures var p := PopUntilNone(x);
            var after := p.0 + Content(p.1 + y);
            && (!PassDrops(x, y) ==> Content(x + y) == after)
            && (PassDrops(x, y) ==> Weight(after) < Weight(Content(x + y)))
    decreases |x|
  {
    hide Pop; hide PopUntilNone; hide Content; hide Weight; hide DropsRequest;
    PopCosts(x, y);
    PassStep(x);
    if Pop(x).0.Some? {
      var left, own := Pop(x).1, [Pop(x).0.value];
      PassCosts(left, y);
      var p := PopUntilNone(left);
      JoinAssociative(own, p.0, Content(p.1 + y));
      WeightJoins(own, p.0 + Content(p.1 + y));
      WeightJoins(own, Content(left + y));
    }
  }

  /** Along these reads the 300-byte rule drops a frame that the bytes still to come would
      have completed and that would have been answered. */
  predicate FeedDrops(buf: seq<u8>, chunks: seq<seq<u8>>)
    decreases |chunks|
  {
    chunks != []
    && (PassDrops(buf + chunks[0], Concat(chunks[1..])) || FeedDrops(PopUntilNone(buf + chunks[0]).1, chunks[1..]))
  }

  lemma {:induction false} FeedCosts(buf: seq<u8>, chunks: seq<seq<u8>>)
    ensures var f, whole := FeedAll(buf, chunks), Content(buf + Concat(chunks));
            && (!FeedDrops(buf, chunks) ==> f.0 + Content(f.1) == whole)
            && (FeedDrops(buf, chunks) ==> Weight(f.0 + Content(f.1)) < Weight(whole))
    decreases |chunks|
  {
    hide PopUntilNone; hide Content; hide Weight; hide PassDrops;
    if chunks == [] {
      assert buf + Concat(chunks) == buf && [] + Content(buf) == Content(buf);
    } else {
      var x, y := buf + chunks[0], Concat(chunks[1..]);
      assert buf + Concat(chunks) == x + y;
      PassCosts(x, y);
      var p := PopUntilNone(x);
      FeedCosts(p.1, chunks[1..]);
      var f := FeedAll(p.1, chunks[1..]);
      JoinAssociative(p.0, f.0, Content(f.1));
      WeightJoins(p.0, f.0 + Content(f.1));
      WeightJoins(p.0, Content(p.1 + y));
    }
  }

  /** Reads deliver, or still hold whole in the buffer, exactly the requests of the stream
      if and only if the 300-byte rule drops no frame that the bytes still to come would
      have completed and that would have been answered. */
  lemma OverflowCostsIff(chunks: seq<seq<u8>>)
    ensures FeedAll([], chunks).0 + Content(FeedAll([], chunks).1) == Content(Concat(chunks)) <==> !FeedDrops([], chunks)
  {
    hide FeedAll; hide FeedDrops; hide Content; hide Weight;
    assert [] + Concat(chunks) == Concat(chunks);
    FeedCosts([], chunks);
  }

  /** So two cuttings of one stream that drop none of them deliver or hold the same requests in order. */
  lemma CuttingsAgree(a: seq<seq<u8>>, b: seq<seq<u8>>)
    requires Concat(a) == Concat(b) && !FeedDrops([], a) && !FeedDrops([], b)
    ensures FeedAll([], a).0 + Content(FeedAll([], a).1) == FeedAll([], b).0 + Content(FeedAll([], b).1)
  {
    hide FeedAll; hide FeedDrops; hide Content;
    OverflowCostsIff(a);
    OverflowCostsIff(b);
  }
}
