/** Streams of AZT requests: cut into reads, truncated, and resynchronised. */
module AztResync {
  import opened Wire
  import opened Azt
  import opened AztStream

  /** A request handed to the builder. */
  datatype Sent = Sent(addr: nat, cmd: u8, data: seq<u8>) {
    /** Survives the wire and fits the receive buffer. */
    ghost predicate Valid() {
      ConfigAdmits(addr) && cmd != ETX && ETX !in data && |Frame()| <= MAX_ACCUM
    }

    function Frame(): seq<u8> { if addr < 256 then BuildRequest(addr, cmd, data) else [] }

    function Received(): TrkRequest { TrkRequest(Some(addr), cmd, data) }
  }

  function Stream(sent: seq<Sent>): seq<u8> {
    if sent == [] then [] else sent[0].Frame() + Stream(sent[1..])
  }

  function Received(sent: seq<Sent>): seq<TrkRequest> {
    if sent == [] then [] else [sent[0].Received()] + Received(sent[1..])
  }

  // ── Chunk independence ─────────────────────────────────────────────────────

  /** The 300-byte rule throws bytes away during this `Pop`. */
  predicate Drops(b: seq<u8>)
    decreases |b|
  {
    match ScanFront(b)
    case Overflow(_) => true
    case Bad(rest) => Drops(rest)
    case _ => false
  }

  lemma {:induction false} ParseStable(x: seq<u8>, y: seq<u8>, idx: nat, acc: seq<u8>)
    requires idx <= |x| && !ParseFrom(x, idx, acc).Incomplete?
    ensures ParseFrom(x + y, idx, acc) == ParseFrom(x, idx, acc)
    decreases |x| - idx
  {
    hide Complement; hide Checksum;
    if x[idx] != ETX && x[idx + 1] == Complement(x[idx]) {
      ParseStable(x, y, idx + 2, acc + [x[idx]]);
    }
  }

  lemma {:induction false} FirstStartPrefix(x: seq<u8>, y: seq<u8>)
    requires FirstStart(x) < |x|
    ensures FirstStart(x + y) == FirstStart(x)
    decreases |x|
  {
    hide IsStart;
    if !IsStart(x[0]) {
      assert (x + y)[1..] == x[1..] + y;
      FirstStartPrefix(x[1..], y);
    }
  }

  /** What the scan has decided does not change when more bytes follow. */
  lemma ScanPrefix(x: seq<u8>, y: seq<u8>)
    requires ScanFront(x).Frame? || ScanFront(x).Bad?
    ensures ScanFront(x).Frame? ==> ScanFront(x + y) == Frame(ScanFront(x).request, ScanFront(x).rest + y)
    ensures ScanFront(x).Bad? ==> ScanFront(x + y) == Bad(ScanFront(x).rest + y)
  {
    var s := FirstStart(x);
    assert s < |x|;
    FirstStartPrefix(x, y);
    hide FirstStart; hide Resolve; hide IsStart; hide ParseFrom; hide ScanFront;
    ScanAt(x, s);
    ScanAt(x + y, s);
    DropConcat(x, y, s + 1);
    var body := x[s + 1..];
    ParseStable(body, y, 0, []);
    assert ParseBody(body + y) == ParseBody(body);
    if ParseBody(body).Complete? {
      DropConcat(body, y, ParseBody(body).consumed);
    }
  }

  function Maybe(request: Option<TrkRequest>): seq<TrkRequest> {
    match request case Some(x) => [x] case None => []
  }

  /** Every request of a buffer, whatever frames without a command stand between them,
      and what is left when nothing more can be scanned. */
  function Serve(b: seq<u8>): (seq<TrkRequest>, seq<u8>)
    decreases |b|
  {
    match ScanFront(b)
    case Wait => ([], b)
    case Frame(request, rest) => (Maybe(request) + Serve(rest).0, Serve(rest).1)
    case Overflow(rest) => Serve(rest)
    case Bad(rest) => Serve(rest)
  }

  /** What one `Pop` takes is the first part of what there is to serve, also when more bytes follow. */
  lemma {:induction false} PopThenMore(x: seq<u8>, y: seq<u8>)
    requires !Drops(x)
    ensures Serve(x + y) == (Maybe(Pop(x).0) + Serve(Pop(x).1 + y).0, Serve(Pop(x).1 + y).1)
    decreases |x|
  {
    hide ScanFront;
    match ScanFront(x)
    case Wait => assert [] + Serve(x + y).0 == Serve(x + y).0;
    case Frame(request, rest) => ScanPrefix(x, y);
    case Bad(rest) =>
      ScanPrefix(x, y);
      PopThenMore(rest, y);
  }

  lemma {:induction false} ServeAfterPop(x: seq<u8>)
    ensures Serve(x) == (Maybe(Pop(x).0) + Serve(Pop(x).1).0, Serve(Pop(x).1).1)
    decreases |x|
  {
    hide ScanFront;
    match ScanFront(x)
    case Wait => assert [] + Serve(x).0 == Serve(x).0;
    case Frame(request, rest) =>
    case Overflow(rest) => ServeAfterPop(rest);
    case Bad(rest) => ServeAfterPop(rest);
  }

  /** One unfolding of the caller's loop. */
  lemma PassStep(x: seq<u8>)
    ensures Pop(x).0.None? ==> PopUntilNone(x) == ([], Pop(x).1)
    ensures Pop(x).0.Some? ==> |Pop(x).1| < |x|
    ensures Pop(x).0.Some? ==>
              PopUntilNone(x) == ([Pop(x).0.value] + PopUntilNone(Pop(x).1).0, PopUntilNone(Pop(x).1).1)
  {
    hide Pop;
  }

  /** A pass of the caller's loop serves a first part and leaves the rest in the buffer. */
  lemma {:induction false} ServeAfterPass(x: seq<u8>)
    ensures var p := PopUntilNone(x); Serve(x) == (p.0 + Serve(p.1).0, Serve(p.1).1)
    decreases |x|
  {
    hide Pop; hide PopUntilNone; hide Serve;
    PassStep(x);
    ServeAfterPop(x);
    if Pop(x).0.Some? {
      ServeAfterPass(Pop(x).1);
      var p := PopUntilNone(Pop(x).1);
      JoinAssociative([Pop(x).0.value], p.0, Serve(p.1).0);
    }
  }

  /** The 300-byte rule throws nothing away while the caller pops until `None`. */
  predicate PassKeeps(b: seq<u8>)
    decreases |b|
  {
    !Drops(b) && (Pop(b).0.Some? ==> PassKeeps(Pop(b).1))
  }

  lemma {:induction false} PassThenMore(x: seq<u8>, y: seq<u8>)
    requires PassKeeps(x)
    ensures var p := PopUntilNone(x); Serve(x + y) == (p.0 + Serve(p.1 + y).0, Serve(p.1 + y).1)
    decreases |x|
  {
    hide Pop; hide PopUntilNone; hide Serve; hide Drops;
    PassStep(x);
    PopThenMore(x, y);
    if Pop(x).0.Some? {
      PassThenMore(Pop(x).1, y);
      var p := PopUntilNone(Pop(x).1);
      JoinAssociative([Pop(x).0.value], p.0, Serve(p.1 + y).0);
    }
  }

  /** All requests and the final buffer when reads arrive one after another. */
  function FeedAll(buf: seq<u8>, chunks: seq<seq<u8>>): (seq<TrkRequest>, seq<u8>)
    decreases |chunks|
  {
    if chunks == [] then ([], buf)
    else
      var p := PopUntilNone(buf + chunks[0]);
      var r := FeedAll(p.1, chunks[1..]);
      (p.0 + r.0, r.1)
  }

  /** The 300-byte rule throws nothing away along these reads. */
  predicate FeedKeeps(buf: seq<u8>, chunks: seq<seq<u8>>)
    decreases |chunks|
  {
    chunks == []
    || (PassKeeps(buf + chunks[0]) && FeedKeeps(PopUntilNone(buf + chunks[0]).1, chunks[1..]))
  }

  /** Whatever frames without a command occur, nothing is lost, doubled or reordered: what
      the reads delivered, followed by what the buffer still has to serve, is what the
      whole stream has to serve. */
  lemma {:induction false} NothingLost(buf: seq<u8>, chunks: seq<seq<u8>>)
    requires FeedKeeps(buf, chunks)
    ensures var f := FeedAll(buf, chunks);
            Serve(buf + Concat(chunks)) == (f.0 + Serve(f.1).0, Serve(f.1).1)
    decreases |chunks|
  {
    hide PopUntilNone; hide PassKeeps; hide Serve;
    if chunks == [] {
      assert buf + Concat(chunks) == buf;
      JoinAssociative(Serve(buf).0, [], []);
    } else {
      var x, y := buf + chunks[0], Concat(chunks[1..]);
      assert buf + Concat(chunks) == x + y;
      var p := PopUntilNone(x);
      NothingLost(p.1, chunks[1..]);
      PassThenMore(x, y);
      var f := FeedAll(p.1, chunks[1..]);
      JoinAssociative(p.0, f.0, Serve(f.1).0);
    }
  }

  /** However a byte stream is cut into reads, the requests delivered and those still
      buffered are the same in the same order, provided the 300-byte rule throws nothing away. */
  lemma ChunkIndependence(a: seq<seq<u8>>, b: seq<seq<u8>>)
    requires Concat(a) == Concat(b) && FeedKeeps([], a) && FeedKeeps([], b)
    ensures var f, g := FeedAll([], a), FeedAll([], b);
            f.0 + Serve(f.1).0 == g.0 + Serve(g.1).0 && Serve(f.1).1 == Serve(g.1).1
  {
    hide FeedAll; hide FeedKeeps; hide Serve;
    NothingLost([], a);
    NothingLost([], b);
  }

  // ── Frames without a command ───────────────────────────────────────────────

  /** Frames without a command among what there is to scan. */
  function Commandless(b: seq<u8>): nat
    decreases |b|
  {
    match ScanFront(b)
    case Wait => 0
    case Frame(request, rest) => (if request.None? then 1 else 0) + Commandless(rest)
    case Overflow(rest) => Commandless(rest)
    case Bad(rest) => Commandless(rest)
  }

  /** A request stands behind the first frame without a command. */
  predicate RequestBehindCommandless(b: seq<u8>)
    decreases |b|
  {
    match ScanFront(b)
    case Wait => false
    case Frame(request, rest) => if request.None? then Serve(rest).0 != [] else RequestBehindCommandless(rest)
    case Overflow(rest) => RequestBehindCommandless(rest)
    case Bad(rest) => RequestBehindCommandless(rest)
  }

  /** A `Pop` that returns nothing has run out of bytes or has consumed a frame without a command. */
  lemma {:induction false} PopCounts(b: seq<u8>)
    ensures var left := Pop(b).1;
            && (Pop(b).0.Some? ==> Commandless(left) == Commandless(b)
                                   && (RequestBehindCommandless(b) <==> RequestBehindCommandless(left)))
            && (Pop(b).0.None? && Commandless(b) == 0 ==> Serve(left) == ([], left) && Pop(left) == (None, left))
            && (Pop(b).0.None? && Commandless(b) > 0 ==> Commandless(left) == Commandless(b) - 1)
            && (Pop(b).0.None? ==> (RequestBehindCommandless(b) <==> Serve(left).0 != []))
    decreases |b|
  {
    hide ScanFront;
    match ScanFront(b)
    case Wait =>
    case Frame(request, rest) =>
    case Overflow(rest) => PopCounts(rest);
    case Bad(rest) => PopCounts(rest);
  }

  lemma {:induction false} PassCounts(b: seq<u8>)
    ensures var left := PopUntilNone(b).1;
            && (Commandless(b) == 0 ==> Serve(left) == ([], left) && PopUntilNone(left) == ([], left))
            && (Commandless(b) > 0 ==> Commandless(left) == Commandless(b) - 1)
            && (RequestBehindCommandless(b) <==> Serve(left).0 != [])
    decreases |b|
  {
    hide Pop; hide Commandless; hide RequestBehindCommandless; hide Serve; hide PopUntilNone;
    PopCounts(b);
    PassStep(b);
    if Pop(b).0.Some? {
      PassCounts(Pop(b).1);
    } else {
      PassStep(Pop(b).1);
    }
  }

  /** `n` passes of the caller's loop without new bytes. */
  function Passes(b: seq<u8>, n: nat): (seq<TrkRequest>, seq<u8>)
    decreases n
  {
    if n == 0 then ([], b)
    else
      var p := PopUntilNone(b);
      (p.0 + Passes(p.1, n - 1).0, Passes(p.1, n - 1).1)
  }

  lemma {:induction false} NothingMore(b: seq<u8>, n: nat)
    requires PopUntilNone(b) == ([], b)
    ensures Passes(b, n) == ([], b)
    decreases n
  {
    hide PopUntilNone;
    if n > 0 {
      NothingMore(b, n - 1);
      assert PopUntilNone(b).0 + Passes(b, n - 1).0 == [];
    }
  }

  /** One pass more than there are frames without a command serves everything. */
  lemma {:induction false} EnoughPasses(b: seq<u8>, n: nat)
    requires n > Commandless(b)
    ensures Passes(b, n) == Serve(b)
    decreases n
  {
    hide PopUntilNone; hide Serve; hide Commandless; hide RequestBehindCommandless;
    PassCounts(b);
    ServeAfterPass(b);
    var p := PopUntilNone(b);
    if Commandless(b) == 0 {
      NothingMore(p.1, n - 1);
    } else {
      EnoughPasses(p.1, n - 1);
    }
  }

  /** The buffer in which the last of the reads is popped. */
  function LastBuffer(buf: seq<u8>, chunks: seq<seq<u8>>): seq<u8>
    requires chunks != []
    decreases |chunks|
  {
    if |chunks| == 1 then buf + chunks[0] else LastBuffer(PopUntilNone(buf + chunks[0]).1, chunks[1..])
  }

  lemma {:induction false} LastPass(buf: seq<u8>, chunks: seq<seq<u8>>)
    requires chunks != []
    ensures FeedAll(buf, chunks).1 == PopUntilNone(LastBuffer(buf, chunks)).1
    decreases |chunks|
  {
    hide PopUntilNone;
    if |chunks| > 1 {
      LastPass(PopUntilNone(buf + chunks[0]).1, chunks[1..]);
    } else {
      assert chunks[1..] == [];
    }
  }

  /** Reads have delivered every request of the stream exactly when, in the last of them,
      no request stood behind a frame without a command. */
  lemma AllDeliveredIff(chunks: seq<seq<u8>>)
    requires chunks != [] && FeedKeeps([], chunks)
    ensures FeedAll([], chunks).0 == Serve(Concat(chunks)).0 <==> !RequestBehindCommandless(LastBuffer([], chunks))
  {
    hide FeedAll; hide FeedKeeps; hide Serve; hide PopUntilNone; hide RequestBehindCommandless; hide LastBuffer; hide Commandless;
    NothingLost([], chunks);
    assert [] + Concat(chunks) == Concat(chunks);
    LastPass([], chunks);
    PassCounts(LastBuffer([], chunks));
    var f := FeedAll([], chunks);
    assert |f.0 + Serve(f.1).0| == |f.0| + |Serve(f.1).0|;
    if Serve(f.1).0 == [] {
      assert f.0 + [] == f.0;
    }
  }

  // ── Whole frames, cut anywhere ─────────────────────────────────────────────

  /** A proper prefix of a frame body is recognised as incomplete. */
  lemma {:induction false} ParseCut(body: seq<u8>, idx: nat, acc: seq<u8>, normal: seq<u8>, k: nat)
    requires ETX !in normal && k < 2 * |normal| + 3 && idx <= |body|
    requires body[idx..] == (Pairs(normal) + Tail(acc + normal))[..k]
    ensures ParseFrom(body, idx, acc) == Incomplete
    decreases |normal|
  {
    hide Complement; hide Checksum;
    var full := Pairs(normal) + Tail(acc + normal);
    assert |body| == idx + k;
    assert forall i | 0 <= i < k :: body[idx + i] == body[idx..][i] && body[idx..][i] == full[i];
    if normal != [] && k >= 2 {
      assert acc + [normal[0]] + normal[1..] == acc + normal;
      assert full == [normal[0], Complement(normal[0])] + (Pairs(normal[1..]) + Tail(acc + normal));
      assert body[idx + 2..] == (Pairs(normal[1..]) + Tail(acc + [normal[0]] + normal[1..]))[..k - 2];
      ParseCut(body, idx + 2, acc + [normal[0]], normal[1..], k - 2);
    }
  }

  lemma FrameFacts(s: Sent)
    requires s.Valid()
    ensures var (start, normal) := (SplitAddress(s.addr).0, Normal(s.addr, s.cmd, s.data));
            && s.Frame() == [DEL, start] + Pairs(normal) + Tail(normal) && IsStart(start) && ETX !in normal
            && Resolve(start, normal) == Some(s.Received())
  {
    hide SplitAddress; hide Resolve; hide Pairs; hide Checksum; hide IsStart; hide Normal;
    NormalResolves(s.addr, s.cmd, s.data);
  }

  lemma IncompleteWaits(b: seq<u8>, s: nat)
    requires FirstStart(b) == s < |b| <= MAX_ACCUM && ParseBody(b[s + 1..]) == Incomplete
    ensures !Drops(b) && Pop(b) == (None, b)
  {
    hide FirstStart; hide ParseBody; hide ScanFront;
    ScanAt(b, s);
  }

  /** The first `k + 2` bytes of a frame. */
  lemma CutBodyWaits(b: seq<u8>, start: u8, normal: seq<u8>, k: nat)
    requires IsStart(start) && ETX !in normal && k < 2 * |normal| + 3 && k + 2 <= MAX_ACCUM
    requires b == [DEL] + ([start] + (Pairs(normal) + Tail(normal))[..k])
    ensures !Drops(b) && Pop(b) == (None, b)
  {
    var body := (Pairs(normal) + Tail(normal))[..k];
    assert !IsStart(DEL);
    hide Pairs; hide Checksum; hide IsStart; hide ParseFrom;
    FirstStartIs([DEL], [start] + body);
    assert b[2..] == body && body[0..] == body && [] + normal == normal;
    ParseCut(body, 0, [], normal, k);
    IncompleteWaits(b, 1);
  }

  lemma NoStartByteWaits(b: seq<u8>)
    requires b == [] || b == [DEL]
    ensures !Drops(b) && Pop(b) == (None, b)
  {}

  /** A proper prefix of a frame waits for the rest without losing a byte. */
  lemma CutFrameWaits(s: Sent, b: seq<u8>, rest: seq<u8>)
    requires s.Valid() && b + rest == s.Frame() && rest != []
    ensures !Drops(b) && Pop(b) == (None, b)
  {
    FrameFacts(s);
    var (start, normal) := (SplitAddress(s.addr).0, Normal(s.addr, s.cmd, s.data));
    hide SplitAddress; hide Resolve; hide Pairs; hide Checksum; hide IsStart; hide Normal; hide Drops; hide Pop;
    var f := s.Frame();
    assert b == f[..|b|];
    if |b| <= 1 {
      assert f[..1] == [DEL];
      NoStartByteWaits(b);
    } else {
      assert f == [DEL] + ([start] + (Pairs(normal) + Tail(normal)));
      CutBodyWaits(b, start, normal, |b| - 2);
    }
  }

  lemma Align(b: seq<u8>, rest: seq<u8>, f: seq<u8>, more: seq<u8>)
    requires b + rest == f + more
    ensures |b| <= |f| ==> b + f[|b|..] == f
    ensures |b| >= |f| ==> b == f + b[|f|..] && b[|f|..] + rest == more
  {
    var s := b + rest;
    assert s[..|b|] == b && s[..|f|] == f && s[|f|..] == more;
    if |b| <= |f| {
      assert f[..|b|] == s[..|b|];
    } else {
      assert b[..|f|] == s[..|f|];
      assert s[|f|..] == b[|f|..] + rest;
    }
  }

  /** Popping any prefix of a stream of frames throws nothing away, and what remains buffered
      together with the bytes still to come is again a stream of whole frames. */
  lemma {:induction false} PrefixPops(sent: seq<Sent>, b: seq<u8>, rest: seq<u8>) returns (k: nat)
    requires (forall s | s in sent :: s.Valid()) && b + rest == Stream(sent)
    ensures PassKeeps(b) && k <= |sent| && PopUntilNone(b).1 + rest == Stream(sent[k..])
    ensures rest == [] ==> PopUntilNone(b).1 == []
    decreases |sent|
  {
    hide Drops; hide Pop; hide Sent.Frame; hide Sent.Valid;
    if sent == [] {
      k := 0;
      EmptyWaits();
    } else {
      var f := sent[0].Frame();
      var more := Stream(sent[1..]);
      if |b| < |f| {
        k := 0;
        Align(b, rest, f, more);
        CutFrameWaits(sent[0], b, f[|b|..]);
        assert sent[0..] == sent;
      } else {
        Align(b, rest, f, more);
        k := PrefixPops(sent[1..], b[|f|..], rest);
        FramePops(sent[0], b[|f|..]);
        assert sent[1..][k..] == sent[k + 1..];
        k := k + 1;
      }
    }
  }

  lemma EmptyWaits()
    ensures !Drops([]) && Pop([]) == (None, [])
  {}

  lemma FramePops(s: Sent, rest: seq<u8>)
    requires s.Valid()
    ensures Pop(s.Frame() + rest) == (Some(s.Received()), rest)
    ensures !Drops(s.Frame() + rest)
  {
    FrameFacts(s);
    var (start, normal) := (SplitAddress(s.addr).0, Normal(s.addr, s.cmd, s.data));
    assert NoStart([DEL]);
    hide SplitAddress; hide Resolve; hide Pairs; hide Tail; hide IsStart; hide Normal; hide ScanFront; hide NoStart;
    var body := Pairs(normal) + (Tail(normal) + rest);
    var buf := s.Frame() + rest;
    assert buf == [DEL] + ([start] + body);
    ScanWhole(buf, [DEL], start, normal, rest);
  }

  lemma {:induction false} StreamServes(sent: seq<Sent>)
    requires forall s | s in sent :: s.Valid()
    ensures Serve(Stream(sent)) == (Received(sent), [])
    decreases |sent|
  {
    hide Pop; hide Serve; hide Sent.Frame; hide Sent.Valid; hide Sent.Received;
    if sent == [] {
      NothingToServe();
    } else {
      FramePops(sent[0], Stream(sent[1..]));
      ServeAfterPop(Stream(sent));
      StreamServes(sent[1..]);
    }
  }

  lemma NothingToServe()
    ensures Serve([]) == ([], [])
  {}

  lemma {:induction false} StreamFeeds(sent: seq<Sent>, buf: seq<u8>, chunks: seq<seq<u8>>)
    requires (forall s | s in sent :: s.Valid()) && buf + Concat(chunks) == Stream(sent)
    ensures FeedKeeps(buf, chunks) && (chunks != [] ==> FeedAll(buf, chunks).1 == [])
    decreases |chunks|
  {
    hide PassKeeps; hide PopUntilNone; hide Stream; hide Sent.Valid;
    if chunks != [] {
      var x := buf + chunks[0];
      assert buf + Concat(chunks) == x + Concat(chunks[1..]);
      var k := PrefixPops(sent, x, Concat(chunks[1..]));
      StreamFeeds(sent[k..], PopUntilNone(x).1, chunks[1..]);
    }
  }

  /** Any list of admissible requests, sent back to back and read in any pieces,
      arrives complete, in order and unmixed, and leaves nothing behind. */
  lemma StreamRoundTrip(sent: seq<Sent>, chunks: seq<seq<u8>>)
    requires (forall s | s in sent :: s.Valid()) && Concat(chunks) == Stream(sent)
    ensures FeedAll([], chunks) == (Received(sent), [])
  {
    hide Stream; hide FeedKeeps; hide PopUntilNone; hide Serve; hide Received; hide Sent.Valid;
    assert [] + Concat(chunks) == Concat(chunks);
    StreamFeeds(sent, [], chunks);
    NothingLost([], chunks);
    StreamServes(sent);
    NothingToServe();
    assert FeedAll([], chunks).0 + [] == FeedAll([], chunks).0;
  }

  /** A frame that carries an address and nothing else holds no request. */
  lemma AddressOnly(addr: nat)
    requires ConfigAdmits(addr)
    ensures var (start, a) := SplitAddress(addr);
            IsStart(start) && ETX !in [a] && Resolve(start, [a]) == None
  {
    AddressRoundTrip(addr);
    hide SplitAddress; hide AddressOffset; hide NibbleValue; hide IsStart;
  }

  /** `pop_request` answers `None` after consuming such a frame: a whole request behind it
      in the same read is not delivered before the next one, in a read of its own it is. */
  lemma CommandlessDelays(addr: nat, s: Sent)
    requires ConfigAdmits(addr) && s.Valid()
    ensures var bare := Encode(SplitAddress(addr).0, [SplitAddress(addr).1]);
            && FeedAll([], [bare + s.Frame()]) == ([], s.Frame())
            && FeedAll([], [bare, s.Frame()]) == ([s.Received()], [])
            && FeedAll([], [bare + s.Frame(), []]) == ([s.Received()], [])
  {
    assert addr < 256;
    hide *;
    AddressOnly(addr);
    var (start, a) := SplitAddress(addr);
    var bare := Encode(start, [a]);
    PopEncoded(start, [a], s.Frame());
    PopEncoded(start, [a], []);
    FramePops(s, []);
    assert bare + [] == bare && s.Frame() + [] == s.Frame();
    DelayedBehind(bare, s.Frame(), s.Received());
  }

  lemma DelayedBehind(bare: seq<u8>, f: seq<u8>, request: TrkRequest)
    requires Pop(bare + f) == (None, f) && Pop(bare) == (None, []) && Pop(f) == (Some(request), [])
    ensures FeedAll([], [bare + f]) == ([], f)
    ensures FeedAll([], [bare, f]) == ([request], []) && FeedAll([], [bare + f, []]) == ([request], [])
  {
    hide *;
    PassStep(bare + f);
    PassStep(bare);
    PassStep(f);
    NothingToPop();
    OneReadIsPass(bare + f);
    TwoReads(bare, f);
    TwoReads(bare + f, []);
    assert [] + f == f && f + [] == f;
    assert [] + [request] == [request] && [request] + [] == [request];
  }

  lemma OneReadIsPass(b: seq<u8>)
    ensures FeedAll([], [b]) == PopUntilNone(b)
  {
    hide PopUntilNone;
    assert [] + b == b && [b][1..] == [];
    assert PopUntilNone(b).0 + [] == PopUntilNone(b).0;
  }

  lemma TwoReads(a: seq<u8>, b: seq<u8>)
    ensures var p := PopUntilNone(a);
            FeedAll([], [a, b]) == (p.0 + PopUntilNone(p.1 + b).0, PopUntilNone(p.1 + b).1)
  {
    hide PopUntilNone;
    var p := PopUntilNone(a);
    assert [] + a == a && [a, b][1..] == [b] && [b][1..] == [];
    assert FeedAll(p.1, [b]) == (PopUntilNone(p.1 + b).0 + [], PopUntilNone(p.1 + b).1);
    assert PopUntilNone(p.1 + b).0 + [] == PopUntilNone(p.1 + b).0;
  }

  lemma SamePop(a: seq<u8>, b: seq<u8>)
    requires Pop(a) == Pop(b)
    ensures PopUntilNone(a) == PopUntilNone(b)
  {
    hide Pop;
  }

  lemma NothingToPop()
    ensures PopUntilNone([]) == ([], [])
  {
    EmptyWaits();
  }
}
