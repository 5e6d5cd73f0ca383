/** Truncated AZT frames in the stream, and how much noise a frame survives. */
module AztTruncation {
  import opened Wire
  import opened Azt
  import opened AztStream
  import opened AztResync

  lemma PrintableFacts(b: u8)
    requires IsPrintable(b)
    ensures IsPrintable(Complement(b)) && b != ETX && !IsStart(b) && b != DEL
  {}

  /** The frame of `req`, of which only the first `kept` bytes reach the receiver. */
  datatype Segment = Segment(req: Sent, kept: nat) {
    ghost predicate Valid() {
      ConfigAdmits(req.addr) && IsPrintable(req.cmd) && AllPrintable(req.data) && 1 <= kept <= |req.Frame()|
    }

    predicate IsWhole() { kept == |req.Frame()| }

    /** Only the checksum is missing, and the next lead-in happens to equal it. */
    predicate CompletedByLeadIn() {
      req.addr < 256 && kept == |req.Frame()| - 1 && Checksum(Normal(req.addr, req.cmd, req.data)) == DEL
    }

    /** What arrives, without the lead-in byte. */
    function Core(): seq<u8> { if 1 <= kept <= |req.Frame()| then req.Frame()[1..kept] else [] }
  }

  /** The bytes of `segs` after the first lead-in; every further segment brings its own. */
  function Cores(segs: seq<Segment>): seq<u8> {
    if segs == [] then []
    else segs[0].Core() + (if |segs| == 1 then [] else [DEL] + Cores(segs[1..]))
  }

  /** Everything on the line. */
  function Line(segs: seq<Segment>): seq<u8> {
    if segs == [] then [] else [DEL] + Cores(segs)
  }

  /** The requests that must come out. */
  function Answers(segs: seq<Segment>): seq<TrkRequest> {
    if segs == [] then []
    else (if segs[0].IsWhole() || segs[0].CompletedByLeadIn() then [segs[0].req.Received()] else []) + Answers(segs[1..])
  }

  lemma {:induction false} PairsPrintable(normal: seq<u8>)
    requires AllPrintable(normal)
    ensures AllPrintable(Pairs(normal)) && ETX !in normal
    decreases |normal|
  {
    hide Complement; hide IsPrintable;
    if normal != [] {
      PrintableFacts(normal[0]);
      PairsPrintable(normal[1..]);
      assert normal == [normal[0]] + normal[1..];
    }
  }

  lemma ChecksumNoStart(normal: seq<u8>)
    ensures !IsStart(Checksum(normal)) && Checksum(normal) != ETX
  {
    var x := XorAll(ETX, normal);
    hide XorAll;
    assert x | 0x40 >= 0x40;
  }

  /** No start byte hides inside a frame body. */
  lemma BodyNoStart(normal: seq<u8>)
    requires AllPrintable(normal)
    ensures NoStart(Pairs(normal) + Tail(normal))
  {
    PairsPrintable(normal);
    ChecksumNoStart(normal);
    var p := Pairs(normal);
    hide IsPrintable; hide Pairs; hide Checksum;
    forall j | 0 <= j < |p| ensures !IsStart(p[j]) { PrintableFacts(p[j]); }
    assert !IsStart(ETX);
  }

  /** The verdict on a cut body once the next lead-in arrives: complete if only a
      checksum equal to the lead-in was missing, otherwise malformed. */
  lemma {:induction false} ParseCutThenLeadIn(body: seq<u8>, idx: nat, acc: seq<u8>, normal: seq<u8>, k: nat, z: seq<u8>)
    requires AllPrintable(normal) && k < 2 * |normal| + 3 && idx <= |body| && z != [] && z[0] != 0x00
    requires body[idx..] == (Pairs(normal) + Tail(acc + normal))[..k] + ([DEL] + z)
    ensures ParseFrom(body, idx, acc)
         == if k == 2 * |normal| + 2 && Checksum(acc + normal) == DEL then Complete(idx + k + 1, acc + normal) else Malformed
    decreases |normal|
  {
    hide Checksum; hide Pairs;
    var full := Pairs(normal) + Tail(acc + normal);
    var part := full[..k];
    assert |body| == idx + k + 1 + |z|;
    assert forall i | 0 <= i < k :: body[idx + i] == body[idx..][i] && body[idx..][i] == full[i];
    assert body[idx + k] == body[idx..][k] && body[idx..][k] == DEL;
    assert body[idx + k + 1] == body[idx..][k + 1] && body[idx..][k + 1] == z[0];
    assert Complement(DEL) == 0x00;
    if normal == [] {
      assert acc + normal == acc && Pairs(normal) == [] by { PairsEmpty(); }
    } else {
      PairsCons(normal);
      PrintableFacts(normal[0]);
      assert IsPrintable(Complement(normal[0])) ==> Complement(normal[0]) != DEL;
      if k >= 2 {
        assert acc + [normal[0]] + normal[1..] == acc + normal;
        assert full[2..] == Pairs(normal[1..]) + Tail(acc + normal);
        assert body[idx + 2..] == (Pairs(normal[1..]) + Tail(acc + [normal[0]] + normal[1..]))[..k - 2] + ([DEL] + z);
        ParseCutThenLeadIn(body, idx + 2, acc + [normal[0]], normal[1..], k - 2, z);
      }
    }
  }


  ghost predicate AllValid(segs: seq<Segment>) {
    (forall i | 0 <= i < |segs| :: segs[i].Valid()) && (segs != [] ==> segs[|segs| - 1].IsWhole())
  }

  lemma SegmentFacts(s: Segment)
    requires s.Valid()
    ensures var (start, normal) := (SplitAddress(s.req.addr).0, Normal(s.req.addr, s.req.cmd, s.req.data));
            && s.req.Frame() == [DEL] + ([start] + (Pairs(normal) + Tail(normal)))
            && IsStart(start) && start != 0x00 && AllPrintable(normal) && ETX !in normal
            && Resolve(start, normal) == Some(s.req.Received())
            && |s.req.Frame()| == 2 * |normal| + 5
  {
    var (start, normal) := (SplitAddress(s.req.addr).0, Normal(s.req.addr, s.req.cmd, s.req.data));
    AddressRoundTrip(s.req.addr);
    assert IsStart(start) ==> start != 0x00;
    assert IsPrintable(normal[0]);
    assert forall i | 0 <= i < |s.req.data| :: normal[i + 2] == s.req.data[i];
    hide SplitAddress; hide Resolve; hide Pairs; hide Checksum; hide IsStart; hide IsPrintable; hide AddressOffset; hide NibbleValue;
    assert AllPrintable(normal);
    PairsPrintable(normal);
    NormalResolves(s.req.addr, s.req.cmd, s.req.data);
    EncodedShape(start, normal, []);
  }

  lemma CoresHead(segs: seq<Segment>)
    requires segs != [] && AllValid(segs)
    ensures Cores(segs) != [] && Cores(segs)[0] != 0x00
  {
    SegmentFacts(segs[0]);
    hide Sent.Frame; hide SplitAddress; hide Pairs; hide Tail; hide Resolve; hide IsStart;
    var f := segs[0].req.Frame();
    assert f[1..segs[0].kept] != [] ==> f[1..segs[0].kept][0] == f[1];
    if segs[0].kept == 1 {
      assert !segs[0].IsWhole();
    }
  }

  lemma RestValid(segs: seq<Segment>)
    requires segs != [] && AllValid(segs)
    ensures AllValid(segs[1..]) && (!segs[0].IsWhole() ==> |segs| > 1)
  {
    hide Segment.Valid;
    assert forall i | 0 <= i < |segs[1..]| :: segs[1..][i] == segs[i + 1];
  }

  lemma NoStartConcat(a: seq<u8>, b: seq<u8>)
    requires NoStart(a) && NoStart(b)
    ensures NoStart(a + b)
  {
    hide IsStart;
  }

  lemma LeadInNoStart()
    ensures NoStart([DEL])
  {}

  lemma NoStartWaits(g: seq<u8>)
    requires NoStart(g)
    ensures PopUntilNone(g) == ([], g)
  {
    NoStartFirst(g);
    assert ScanFront(g) == Wait;
    hide FirstStart; hide ScanFront; hide NoStart;
  }

  /** A whole segment at the front answers its request and leaves the rest. */
  lemma WholeSegment(g: seq<u8>, s: Segment, r: seq<u8>)
    requires NoStart(g) && s.Valid() && s.IsWhole()
    ensures Pop(g + (s.Core() + r)) == (Some(s.req.Received()), r)
  {
    SegmentFacts(s);
    var (start, normal) := (SplitAddress(s.req.addr).0, Normal(s.req.addr, s.req.cmd, s.req.data));
    hide Sent.Frame; hide SplitAddress; hide Pairs; hide Tail; hide Resolve; hide IsStart; hide Normal; hide Pop; hide Sent.Received;
    assert s.Core() == [start] + (Pairs(normal) + Tail(normal));
    assert s.Core() + r == [start] + (Pairs(normal) + (Tail(normal) + r));
    PopWhole(g + (s.Core() + r), g, start, normal, r);
  }

  /** A cut segment at the front: either it is completed by the next lead-in, or it
      is dropped and its remains are noise in front of the next segment. */
  lemma CutSegment(g: seq<u8>, s: Segment, z: seq<u8>) returns (noise: seq<u8>)
    requires NoStart(g) && s.Valid() && !s.IsWhole() && z != [] && z[0] != 0x00
    ensures NoStart(noise)
    ensures s.CompletedByLeadIn() ==> Pop(g + (s.Core() + ([DEL] + z))) == (Some(s.req.Received()), z)
    ensures !s.CompletedByLeadIn() ==> Pop(g + (s.Core() + ([DEL] + z))) == Pop(noise + z)
  {
    SegmentFacts(s);
    var (start, normal) := (SplitAddress(s.req.addr).0, Normal(s.req.addr, s.req.cmd, s.req.data));
    assert s.CompletedByLeadIn() <==> s.kept == 2 * |normal| + 4 && Checksum(normal) == DEL;
    LeadInNoStart();
    hide Sent.Frame; hide SplitAddress; hide Pairs; hide Tail; hide Checksum; hide Resolve; hide IsStart; hide Normal; hide Pop;
    hide Sent.Received; hide Segment.CompletedByLeadIn; hide AllPrintable;
    if s.kept == 1 {
      noise := g + [DEL];
      NoStartConcat(g, [DEL]);
      assert g + (s.Core() + ([DEL] + z)) == noise + z;
    } else {
      TailLength(normal);
      var full := Pairs(normal) + Tail(normal);
      var k := s.kept - 2;
      assert s.Core() == [start] + full[..k];
      assert s.Core() + ([DEL] + z) == [start] + (full[..k] + ([DEL] + z));
      noise := CutAfterStart(g, start, normal, k, z);
    }
  }

  lemma CutAfterStart(g: seq<u8>, start: u8, normal: seq<u8>, k: nat, z: seq<u8>) returns (noise: seq<u8>)
    requires NoStart(g) && IsStart(start) && AllPrintable(normal) && k < 2 * |normal| + 3 && z != [] && z[0] != 0x00
    ensures var buf := g + ([start] + ((Pairs(normal) + Tail(normal))[..k] + ([DEL] + z)));
            && NoStart(noise)
            && if k == 2 * |normal| + 2 && Checksum(normal) == DEL then Pop(buf) == (Resolve(start, normal), z)
               else Pop(buf) == Pop(noise + z)
  {
    hide *;
    TailLength(normal);
    LeadInNoStart();
    var full := Pairs(normal) + Tail(normal);
    var body := full[..k] + ([DEL] + z);
    var buf := g + ([start] + body);
    CutBody(buf, g, start, body);
    ParseCutBody(body, normal, k, z);
    BodyNoStart(normal);
    NoStartTake(full, k);
    noise := full[..k] + [DEL];
    NoStartConcat(full[..k], [DEL]);
    BehindLeadIn(full[..k], z);
    PopStep(buf, |g|);
  }

  lemma BehindLeadIn(head: seq<u8>, z: seq<u8>)
    ensures head + [DEL] + z == head + ([DEL] + z) && (head + ([DEL] + z))[|head| + 1..] == z
  {}

  lemma CutBody(buf: seq<u8>, g: seq<u8>, start: u8, body: seq<u8>)
    requires NoStart(g) && IsStart(start) && buf == g + ([start] + body)
    ensures FirstStart(buf) == |g| < |buf| && buf[|g|] == start && buf[|g| + 1..] == body
  {
    hide IsStart;
    FirstStartIs(g, [start] + body);
  }

  lemma ParseCutBody(body: seq<u8>, normal: seq<u8>, k: nat, z: seq<u8>)
    requires AllPrintable(normal) && k < 2 * |normal| + 3 && z != [] && z[0] != 0x00
    requires body == (Pairs(normal) + Tail(normal))[..k] + ([DEL] + z)
    ensures ParseBody(body) == if k == 2 * |normal| + 2 && Checksum(normal) == DEL then Complete(k + 1, normal) else Malformed
  {
    hide Pairs; hide Checksum; hide ParseFrom; hide IsPrintable;
    assert [] + normal == normal && body[0..] == body;
    ParseCutThenLeadIn(body, 0, [], normal, k, z);
  }

  lemma NoStartTake(a: seq<u8>, k: nat)
    requires NoStart(a) && k <= |a|
    ensures NoStart(a[..k])
  {
    hide IsStart;
  }

  /** One unfolding of `Pop` at its first start byte. */
  lemma PopStep(buf: seq<u8>, s: nat)
    requires FirstStart(buf) == s < |buf|
    ensures var p := ParseBody(buf[s + 1..]);
            && (p.Complete? ==> Pop(buf) == (Resolve(buf[s], p.normal), buf[s + 1..][p.consumed..]))
            && (p.Malformed? ==> Pop(buf) == Pop(buf[s + 1..]))
            && (p.Incomplete? ==> Pop(buf) == if |buf| > MAX_ACCUM then Pop(buf[s + 1..]) else (None, buf))
  {
    hide ParseBody; hide Resolve; hide FirstStart; hide IsStart; hide ScanFront;
    ScanAt(buf, s);
  }

  /** Resynchronisation: in any mixture of whole and truncated frames that ends with
      a whole one, exactly the whole frames are answered, in order, and besides them
      only a frame that the next lead-in byte happened to complete; no request ever
      mixes bytes of two frames. */
  lemma {:induction false} Resynchronises(g: seq<u8>, segs: seq<Segment>)
    requires NoStart(g) && AllValid(segs)
    ensures PopUntilNone(g + Cores(segs)) == (Answers(segs), if segs == [] then g else [])
    decreases |segs|
  {
    hide IsStart; hide Segment.Valid; hide Segment.Core; hide Pop; hide Sent.Received; hide Segment.CompletedByLeadIn;
    if segs == [] {
      assert g + Cores(segs) == g;
      NoStartWaits(g);
    } else {
      var s := segs[0];
      RestValid(segs);
      if s.IsWhole() {
        WholeThenRest(g, segs);
      } else {
        var z := Cores(segs[1..]);
        CoresHead(segs[1..]);
        var noise := CutSegment(g, s, z);
        if s.CompletedByLeadIn() {
          Resynchronises([], segs[1..]);
          assert [] + z == z;
        } else {
          Resynchronises(noise, segs[1..]);
          SamePop(g + Cores(segs), noise + z);
          assert [] + Answers(segs[1..]) == Answers(segs[1..]);
        }
      }
    }
  }

  lemma {:induction false} WholeThenRest(g: seq<u8>, segs: seq<Segment>)
    requires NoStart(g) && AllValid(segs) && segs != [] && segs[0].IsWhole()
    ensures PopUntilNone(g + Cores(segs)) == (Answers(segs), [])
    decreases |segs|, 0
  {
    hide IsStart; hide Segment.Valid; hide Segment.Core; hide Pop; hide Sent.Received; hide Segment.CompletedByLeadIn;
    RestValid(segs);
    if |segs| == 1 {
      WholeSegment(g, segs[0], []);
      NothingToPop();
      assert segs[1..] == [];
    } else {
      WholeSegment(g, segs[0], [DEL] + Cores(segs[1..]));
      LeadInNoStart();
      Resynchronises([DEL], segs[1..]);
    }
  }

  /** The same for the line as a whole. */
  lemma LineResynchronises(segs: seq<Segment>)
    requires AllValid(segs)
    ensures PopUntilNone(Line(segs)) == (Answers(segs), [])
  {
    hide PopUntilNone; hide Cores; hide AllValid;
    if segs == [] {
      NothingToPop();
    } else {
      LeadInNoStart();
      Resynchronises([DEL], segs);
    }
  }

  // ── The noise budget ───────────────────────────────────────────────────────

  /** Behind noise, the first `k` bytes of the frame `f` hold its start byte and the first part of its body. */
  ghost predicate IsFirstPiece(g: seq<u8>, f: seq<u8>, k: nat, noise: seq<u8>, full: seq<u8>)
    requires 2 <= k < |f|
  {
    var head := g + f[..k];
    && full == f[2..] && noise == g + [DEL] && NoStart(noise) && NoStart(full)
    && FirstStart(head) == |noise| < |head| && head[|noise| + 1..] == full[..k - 2]
    && ParseBody(full[..k - 2]) == Incomplete
  }

  /** The first piece of a frame behind noise: its body is incomplete. */
  lemma FirstPiece(g: seq<u8>, s: Segment, k: nat) returns (noise: seq<u8>, full: seq<u8>)
    requires NoStart(g) && s.Valid() && 2 <= k < |s.req.Frame()|
    ensures IsFirstPiece(g, s.req.Frame(), k, noise, full)
  {
    SegmentFacts(s);
    var (start, normal) := (SplitAddress(s.req.addr).0, Normal(s.req.addr, s.req.cmd, s.req.data));
    BodyNoStart(normal);
    var f := s.req.Frame();
    hide *;
    full := Pairs(normal) + Tail(normal);
    assert f[2..] == full;
    LeadInNoStart();
    NoStartConcat(g, [DEL]);
    noise := g + [DEL];
    assert g + f[..k] == noise + ([start] + full[..k - 2]);
    CutBody(g + f[..k], noise, start, full[..k - 2]);
    assert [] + normal == normal && full[..k - 2][0..] == full[..k - 2];
    ParseCut(full[..k - 2], 0, [], normal, k - 2);
  }

  lemma WithinBudget(g: seq<u8>, s: Segment, k: nat)
    requires NoStart(g) && s.Valid() && s.IsWhole() && 2 <= k < |s.req.Frame()| && |g| + k <= MAX_ACCUM
    ensures FeedAll([], [g + s.req.Frame()[..k], s.req.Frame()[k..]]).0 == [s.req.Received()]
  {
    hide Sent.Frame; hide IsStart; hide Pop; hide Sent.Received; hide ParseBody; hide PopUntilNone; hide Segment.Valid; hide NoStart;
    var noise, full := FirstPiece(g, s, k);
    var f := s.req.Frame();
    var head := g + f[..k];
    TwoReads(head, f[k..]);
    PopStep(head, |noise|);
    JustNone(head);
    LeadByte(s);
    assert head + f[k..] == noise + (s.Core() + []);
    WholeSegment(noise, s, []);
    OneThenNothing(head + f[k..]);
  }

  lemma LeadByte(s: Segment)
    requires s.Valid()
    ensures s.req.Frame() == [DEL] + s.req.Frame()[1..]
  {}

  lemma BeyondBudget(g: seq<u8>, s: Segment, k: nat)
    requires NoStart(g) && s.Valid() && 2 <= k < |s.req.Frame()| && |g| + k > MAX_ACCUM
    ensures FeedAll([], [g + s.req.Frame()[..k], s.req.Frame()[k..]]).0 == []
  {
    hide Sent.Frame; hide IsStart; hide Pop; hide ParseBody; hide PopUntilNone; hide Segment.Valid; hide NoStart;
    var noise, full := FirstPiece(g, s, k);
    var f := s.req.Frame();
    var head, last := g + f[..k], f[k..];
    TwoReads(head, last);
    PopStep(head, |noise|);
    NoStartTake(full, k - 2);
    NoStartWaits(full[..k - 2]);
    SamePop(head, full[..k - 2]);
    assert full[..k - 2] + last == full;
    NoStartWaits(full);
  }

  /** A frame read in two pieces behind noise survives if and only if the noise and
      the first piece together stay within 300 bytes: the bound counts the noise too. */
  lemma NoiseBudget(g: seq<u8>, s: Segment, k: nat)
    requires NoStart(g) && s.Valid() && s.IsWhole() && 2 <= k < |s.req.Frame()|
    ensures FeedAll([], [g + s.req.Frame()[..k], s.req.Frame()[k..]]).0
         == if |g| + k <= 300 then [s.req.Received()] else []
  {
    if |g| + k <= MAX_ACCUM {
      WithinBudget(g, s, k);
    } else {
      BeyondBudget(g, s, k);
    }
  }

  lemma JustNone(b: seq<u8>)
    requires Pop(b) == (None, b)
    ensures PopUntilNone(b) == ([], b)
  {
    hide Pop;
  }

  lemma OneThenNothing(b: seq<u8>)
    requires Pop(b).0.Some? && Pop(b).1 == []
    ensures PopUntilNone(b).0 == [Pop(b).0.value]
  {
    hide Pop;
    NothingToPop();
  }
}
