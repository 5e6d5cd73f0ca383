/** The stream framer of the Wayne bus: garbage trimming, short and `03 FA`
    frames, and the 64-byte overflow rule. */
module WayneAccumulator {
  import opened Wire

  const MAX_BUF := 64

  predicate IsPlainAddr(b: u8) { 0x50 <= b <= 0x6F }

  predicate IsHighAddr(b: u8) { 0xD0 <= b <= 0xEF }

  predicate IsAddr(b: u8) { IsPlainAddr(b) || IsHighAddr(b) }

  predicate IsShortFrame(buf: seq<u8>) {
    |buf| >= 3 && IsAddr(buf[0]) && (buf[1] == 0x20 || buf[1] == 0x70 || buf[1] == 0xC0 || buf[1] == 0xC1)
    && buf[2] == 0xFA
  }

  ghost predicate HasAddr(buf: seq<u8>) { exists i | 0 <= i < |buf| :: IsAddr(buf[i]) }

  /** Position of the first address byte, or the length of `buf`. */
  function FirstAddr(buf: seq<u8>): (i: nat)
    ensures i <= |buf|
    ensures forall j | 0 <= j < i :: !IsAddr(buf[j])
    ensures i < |buf| ==> IsAddr(buf[i])
  {
    if buf == [] || IsAddr(buf[0]) then 0 else 1 + FirstAddr(buf[1..])
  }

  /** `b0` is a turnaround artefact in front of a real address. */
  predicate IsArtefact(buf: seq<u8>) {
    |buf| >= 2 && IsHighAddr(buf[0]) && IsPlainAddr(buf[1])
  }

  /** What `trim_leading_garbage` leaves: nothing is trimmed while no address byte is buffered. */
  function Trim(buf: seq<u8>): (t: seq<u8>)
    ensures |t| <= |buf|
    ensures HasAddr(buf) ==> t != [] && IsAddr(t[0]) && !IsArtefact(t)
    ensures !HasAddr(buf) ==> t == buf
    decreases |buf|
  {
    var i := FirstAddr(buf);
    if i == |buf| then buf
    else if IsArtefact(buf[i..]) then
      assert IsAddr(buf[i + 1..][0]);
      Trim(buf[i + 1..])
    else buf[i..]
  }

  /** Index of the `FA` of the first `03 FA` pair at or after `from`, or the length. */
  function Find03FA(buf: seq<u8>, from: nat): (p: nat)
    requires 1 <= from
    ensures p < |buf| ==> from <= p && buf[p - 1] == 0x03 && buf[p] == 0xFA
    ensures forall j | from <= j < p && j < |buf| :: !(buf[j - 1] == 0x03 && buf[j] == 0xFA)
    decreases |buf| - from
  {
    if from >= |buf| then |buf|
    else if buf[from - 1] == 0x03 && buf[from] == 0xFA then from
    else Find03FA(buf, from + 1)
  }

  datatype Cut = Wait | Emit(frame: seq<u8>, rest: seq<u8>)

  /** One round of the loop of `push_bytes`, after trimming. */
  function NextFrame(t: seq<u8>): (c: Cut)
    ensures c.Emit? ==> t == c.frame + c.rest && |c.frame| >= 2
  {
    if t == [] then Wait
    else if IsShortFrame(t) then
      assert t == t[..3] + t[3..];
      Emit(t[..3], t[3..])
    else
      var p := Find03FA(t, 1);
      if p < |t| then
        assert t == t[..p + 1] + t[p + 1..];
        Emit(t[..p + 1], t[p + 1..])
      else Wait
  }

  /** All frames the loop cuts out of `buf`, and the buffer it stops with. */
  function Drain(buf: seq<u8>): (r: (seq<seq<u8>>, seq<u8>))
    decreases |buf|
  {
    var t := Trim(buf);
    match NextFrame(t)
    case Wait => ([], t)
    case Emit(frame, rest) => var r := Drain(rest); ([frame] + r.0, r.1)
  }

  /** The frames a caller can act on. */
  ghost function Addressed(frames: seq<seq<u8>>): seq<seq<u8>> {
    if frames == [] then []
    else (if HasAddr(frames[0]) then [frames[0]] else []) + Addressed(frames[1..])
  }

  // ── The accumulator object ─────────────────────────────────────────────────

  function AfterOverflow(left: seq<u8>): seq<u8> { if |left| > MAX_BUF then [] else left }

  class FrameAccumulator {
    var buf: seq<u8>

    constructor ()
      ensures buf == []
    {
      buf := [];
    }

    method Clear()
      modifies this
      ensures buf == []
    {
      buf := [];
    }

    method TrimLeadingGarbage()
      modifies this
      ensures buf == Trim(old(buf))
    {
      while true
        invariant Trim(buf) == Trim(old(buf))
        decreases |buf|
      {
        var i := FirstAddr(buf);
        if i == |buf| {
          break;
        }
        ghost var before := buf;
        buf := buf[i..];
        if |buf| >= 2 && IsHighAddr(buf[0]) && IsPlainAddr(buf[1]) {
          buf := buf[1..];
          assert buf == before[i + 1..];
        } else {
          TrimSettled(buf);
          break;
        }
      }
    }

    /** Appends `chunk`, cuts out every complete frame, and clears an overflowing rest. */
    method PushBytes(chunk: seq<u8>) returns (out: seq<seq<u8>>)
      modifies this
      ensures out == Drain(old(buf) + chunk).0
      ensures buf == AfterOverflow(Drain(old(buf) + chunk).1)
    {
      hide Drain; hide NextFrame; hide Trim;
      buf := buf + chunk;
      out := [];
      ghost var all := Drain(buf);
      while true
        invariant all.0 == out + Drain(buf).0 && all.1 == Drain(buf).1
        decreases |buf|
      {
        ghost var before := buf;
        DrainStep(before);
        TrimLeadingGarbage();
        var c := NextFrame(buf);
        if c.Wait? {
          if |buf| > MAX_BUF {
            buf := [];
          }
          break;
        }
        out, buf := out + [c.frame], c.rest;
      }
    }
  }

  /** One unfolding of `Drain`. */
  lemma DrainStep(x: seq<u8>)
    ensures |Trim(x)| <= |x|
    ensures NextFrame(Trim(x)).Wait? ==> Drain(x) == ([], Trim(x))
    ensures NextFrame(Trim(x)).Emit? ==>
              var c := NextFrame(Trim(x));
              |c.rest| < |Trim(x)| && Drain(x) == ([c.frame] + Drain(c.rest).0, Drain(c.rest).1)
  {
    hide Trim; hide NextFrame;
  }

  lemma TrimSettled(t: seq<u8>)
    requires t != [] && IsAddr(t[0]) && !IsArtefact(t)
    ensures Trim(t) == t
  {
    assert FirstAddr(t) == 0;
    assert t[0..] == t;
  }

  // ── Chunk independence ─────────────────────────────────────────────────────

  /** What trimming makes of a buffer that starts with an address byte. */
  function TrimAddressed(z: seq<u8>): seq<u8> { if IsArtefact(z) then Trim(z[1..]) else z }

  lemma TrimAt(x: seq<u8>)
    ensures Trim(x) == if FirstAddr(x) == |x| then x else TrimAddressed(x[FirstAddr(x)..])
  {
    hide IsArtefact; hide FirstAddr; hide IsAddr; hide HasAddr;
    var i := FirstAddr(x);
    assert i < |x| ==> x[i..][1..] == x[i + 1..];
  }

  lemma TrimStep(x: seq<u8>)
    ensures var i := FirstAddr(x);
            Trim(x) == if i == |x| then x else if IsArtefact(x[i..]) then Trim(x[i + 1..]) else x[i..]
  {
    hide IsArtefact; hide FirstAddr; hide IsAddr; hide HasAddr;
  }

  lemma TrimSkipsGarbage(g: seq<u8>, y: seq<u8>)
    requires !HasAddr(g) && FirstAddr(y) < |y|
    ensures Trim(g + y) == Trim(y)
  {
    hide *;
    FirstAddrSkips(g, y);
    TrimAt(y);
    TrimAt(g + y);
    DropPrefix(g, y, FirstAddr(y));
  }

  lemma DropPrefix(g: seq<u8>, y: seq<u8>, i: nat)
    requires i <= |y|
    ensures (g + y)[|g| + i..] == y[i..]
  {}

  lemma {:induction false} FirstAddrSkips(g: seq<u8>, y: seq<u8>)
    requires !HasAddr(g)
    ensures FirstAddr(g + y) == |g| + FirstAddr(y)
    decreases |g|
  {
    if g == [] {
      assert g + y == y;
    } else {
      assert IsAddr(g[0]) ==> HasAddr(g);
      assert forall j | 0 <= j < |g[1..]| :: g[1..][j] == g[j + 1];
      assert (g + y)[1..] == g[1..] + y;
      FirstAddrSkips(g[1..], y);
    }
  }

  lemma {:induction false} FirstAddrPrefix(x: seq<u8>, y: seq<u8>)
    requires FirstAddr(x) < |x|
    ensures FirstAddr(x + y) == FirstAddr(x)
    decreases |x|
  {
    if !IsAddr(x[0]) {
      assert (x + y)[1..] == x[1..] + y;
      FirstAddrPrefix(x[1..], y);
    }
  }

  /** Trimming before or after more bytes arrive makes no difference. */
  lemma {:induction false} TrimThenAppend(x: seq<u8>, y: seq<u8>)
    ensures Trim(x + y) == Trim(Trim(x) + y)
    decreases |x|
  {
    var i := FirstAddr(x);
    hide *;
    TrimStep(x);
    if i < |x| {
      FirstAddrPrefix(x, y);
      TrimStep(x + y);
      DropConcat(x, y, i);
      DropConcat(x, y, i + 1);
      if IsArtefact(x[i..]) {
        ArtefactStays(x[i..], y);
        TrimThenAppend(x[i + 1..], y);
      } else {
        FirstIsAddr(x);
        TrimFromAddress(x[i..] + y);
        DropConcat(x[i..], y, 1);
        assert x[i..][1..] == x[i + 1..];
      }
    }
  }

  lemma ArtefactStays(x: seq<u8>, y: seq<u8>)
    requires IsArtefact(x)
    ensures IsArtefact(x + y)
  {}

  lemma FirstIsAddr(x: seq<u8>)
    requires FirstAddr(x) < |x|
    ensures x[FirstAddr(x)..] != [] && IsAddr(x[FirstAddr(x)..][0])
  {}

  /** One unfolding of `Trim` on a buffer that starts with an address byte. */
  lemma TrimFromAddress(z: seq<u8>)
    requires z != [] && IsAddr(z[0])
    ensures Trim(z) == if IsArtefact(z) then Trim(z[1..]) else z
  {
    assert FirstAddr(z) == 0 && z[0..] == z;
  }

  lemma SettledStays(t: seq<u8>, y: seq<u8>)
    requires |t| >= 2 && IsAddr(t[0]) && !IsArtefact(t)
    ensures Trim(t + y) == t + y
  {
    TrimSettled(t + y);
  }

  lemma {:induction false} FindPrefix(x: seq<u8>, y: seq<u8>, from: nat)
    requires 1 <= from && Find03FA(x, from) < |x|
    ensures Find03FA(x + y, from) == Find03FA(x, from)
    decreases |x| - from
  {
    if !(x[from - 1] == 0x03 && x[from] == 0xFA) {
      FindPrefix(x, y, from + 1);
    }
  }

  /** A frame that is complete stays the next frame when more bytes follow. */
  lemma EmitPrefix(t: seq<u8>, y: seq<u8>)
    requires t != [] && NextFrame(t).Emit?
    requires IsAddr(t[0]) ==> |t| >= 3
    ensures NextFrame(t + y) == Emit(NextFrame(t).frame, NextFrame(t).rest + y)
  {
    var c := NextFrame(t);
    assert t == c.frame + c.rest;
    assert t + y == c.frame + (c.rest + y);
    if IsShortFrame(t) {
    } else {
      FindPrefix(t, y, 1);
    }
  }

  lemma SameTrimSameDrain(a: seq<u8>, b: seq<u8>)
    requires Trim(a) == Trim(b)
    ensures Drain(a) == Drain(b)
  {
    hide Trim; hide NextFrame;
  }

  /** Garbage frames never reach a caller: draining behind them is draining without them. */
  lemma DrainSkipsGarbage(g: seq<u8>, y: seq<u8>)
    requires !HasAddr(g) && HasAddr(y)
    ensures Drain(g + y) == Drain(y)
  {
    TrimSkipsGarbage(g, y);
    assert HasAddr(g + y) by {
      var j :| 0 <= j < |y| && IsAddr(y[j]);
      assert (g + y)[|g| + j] == y[j];
    }
  }

  lemma AddressedCons(f: seq<u8>, fs: seq<seq<u8>>)
    ensures Addressed([f] + fs) == (if HasAddr(f) then [f] else []) + Addressed(fs)
  {
    hide HasAddr;
    assert ([f] + fs)[1..] == fs;
  }

  lemma {:induction false} AddressedAppend(a: seq<seq<u8>>, b: seq<seq<u8>>)
    ensures Addressed(a + b) == Addressed(a) + Addressed(b)
    decreases |a|
  {
    if a == [] {
      assert a + b == b && [] + Addressed(b) == Addressed(b);
    } else {
      var f, more := a[0], a[1..];
      assert a == [f] + more && a + b == [f] + (more + b);
      hide *;
      AddressedCons(f, more);
      AddressedCons(f, more + b);
      AddressedAppend(more, b);
      JoinAssociative(if HasAddr(f) then [f] else [], Addressed(more), Addressed(b));
    }
  }

  /** An addressed frame at the front of `x` is cut out the same way before `y` arrives. */
  lemma DrainPastFrame(x: seq<u8>, y: seq<u8>)
    requires HasAddr(x) && NextFrame(Trim(x)).Emit?
    ensures var c := NextFrame(Trim(x));
            Drain(x + y) == ([c.frame] + Drain(c.rest + y).0, Drain(c.rest + y).1)
  {
    var t := Trim(x);
    TrimThenAppend(x, y);
    assert |t| >= 3 by {
      assert IsAddr(t[0]);
    }
    SettledStays(t, y);
    EmitPrefix(t, y);
  }

  lemma JustThis(f: seq<u8>)
    ensures Addressed([f]) == if HasAddr(f) then [f] else []
  {
    hide HasAddr;
    assert [f][1..] == [];
  }

  /** Draining `x`, then the rest with `y` appended, delivers what draining `x + y` delivers. */
  lemma {:induction false} DrainInTwo(x: seq<u8>, y: seq<u8>)
    ensures var a, b, c := Drain(x), Drain(Drain(x).1 + y), Drain(x + y);
            c.1 == b.1 && Addressed(c.0) == Addressed(a.0) + Addressed(b.0)
    decreases |x|
  {
    var t := Trim(x);
    hide *;
    DrainStep(x);
    match NextFrame(t)
    case Wait =>
      TrimThenAppend(x, y);
      SameTrimSameDrain(x + y, t + y);
      NoneAddressed();
      assert [] + Addressed(Drain(t + y).0) == Addressed(Drain(t + y).0);
    case Emit(frame, rest) =>
      DrainInTwo(rest, y);
      DrainPastAny(x, y);
      AddressedAppend([frame], Drain(rest).0);
      JoinAssociative(Addressed([frame]), Addressed(Drain(rest).0), Addressed(Drain(Drain(rest).1 + y).0));
  }

  lemma NoneAddressed()
    ensures Addressed([]) == []
  {}

  /** Whatever the next frame is, its bytes can be taken away before more arrive. */
  lemma DrainPastAny(x: seq<u8>, y: seq<u8>)
    requires NextFrame(Trim(x)).Emit?
    ensures var c := NextFrame(Trim(x));
            && Drain(x + y).1 == Drain(c.rest + y).1
            && Addressed(Drain(x + y).0) == Addressed([c.frame]) + Addressed(Drain(c.rest + y).0)
  {
    var c := NextFrame(Trim(x));
    assert Trim(x) == c.frame + c.rest && (!HasAddr(x) ==> Trim(x) == x);
    hide *;
    if HasAddr(x) {
      DrainPastFrame(x, y);
      AddressedAppend([c.frame], Drain(c.rest + y).0);
    } else {
      DrainPastGarbageFrame(c.frame, c.rest, y);
      JustThis(c.frame);
      assert [] + Addressed(Drain(c.rest + y).0) == Addressed(Drain(c.rest + y).0);
    }
  }

  lemma DrainPastGarbageFrame(frame: seq<u8>, rest: seq<u8>, y: seq<u8>)
    requires !HasAddr(frame + rest) && NextFrame(frame + rest) == Emit(frame, rest)
    ensures !HasAddr(frame)
    ensures Drain(frame + rest + y).1 == Drain(rest + y).1
    ensures Addressed(Drain(frame + rest + y).0) == Addressed(Drain(rest + y).0)
  {
    var x := frame + rest;
    assert forall j | 0 <= j < |frame| :: frame[j] == x[j];
    assert forall j | 0 <= j < |rest| :: rest[j] == x[|frame| + j];
    assert x + y == frame + (rest + y);
    if HasAddr(rest + y) {
      DrainSkipsGarbage(frame, rest + y);
    } else {
      assert !HasAddr(x + y);
      EmitPrefix(x, y);
      assert Drain(x + y).0 == [frame] + Drain(rest + y).0;
      AddressedAppend([frame], Drain(rest + y).0);
    }
  }

  // ── Runs over many reads ───────────────────────────────────────────────────

  /** All frames emitted and the final buffer when `chunks` are pushed one after another. */
  function PushAll(buf: seq<u8>, chunks: seq<seq<u8>>): (seq<seq<u8>>, seq<u8>)
    decreases |chunks|
  {
    if chunks == [] then ([], buf)
    else
      var d := Drain(buf + chunks[0]);
      var r := PushAll(AfterOverflow(d.1), chunks[1..]);
      (d.0 + r.0, r.1)
  }

  /** The overflow rule fires after none of the reads. */
  predicate NeverClears(buf: seq<u8>, chunks: seq<seq<u8>>)
    decreases |chunks|
  {
    chunks == []
    || (|Drain(buf + chunks[0]).1| <= MAX_BUF && NeverClears(Drain(buf + chunks[0]).1, chunks[1..]))
  }

  /** What is left after draining contains no complete frame. */
  lemma {:induction false} DrainedIsStable(x: seq<u8>)
    ensures Drain(Drain(x).1) == ([], Drain(x).1)
    decreases |x|
  {
    var t := Trim(x);
    match NextFrame(t)
    case Wait =>
      if HasAddr(x) {
        TrimSettled(t);
      }
    case Emit(frame, rest) => DrainedIsStable(rest);
  }

  lemma {:induction false} PushAllIsDrain(buf: seq<u8>, chunks: seq<seq<u8>>)
    requires Drain(buf) == ([], buf) && NeverClears(buf, chunks)
    ensures Addressed(PushAll(buf, chunks).0) == Addressed(Drain(buf + Concat(chunks)).0)
    ensures PushAll(buf, chunks).1 == Drain(buf + Concat(chunks)).1
    decreases |chunks|
  {
    hide Drain; hide Addressed;
    if chunks == [] {
      assert buf + Concat(chunks) == buf;
    } else {
      var d := Drain(buf + chunks[0]);
      assert buf + Concat(chunks) == buf + chunks[0] + Concat(chunks[1..]);
      DrainedIsStable(buf + chunks[0]);
      PushAllIsDrain(d.1, chunks[1..]);
      DrainInTwo(buf + chunks[0], Concat(chunks[1..]));
      AddressedAppend(d.0, PushAll(d.1, chunks[1..]).0);
    }
  }

  // ── Exactly when the cutting matters ───────────────────────────────────────

  /** Every overflow along these reads discards a buffer without an address byte. */
  ghost predicate ClearsOnlyGarbage(buf: seq<u8>, chunks: seq<seq<u8>>)
    decreases |chunks|
  {
    chunks == []
    || var left := Drain(buf + chunks[0]).1;
       (|left| > MAX_BUF ==> !HasAddr(left)) && ClearsOnlyGarbage(AfterOverflow(left), chunks[1..])
  }

  /** The part of a buffer that can still become a frame. */
  function FromAddr(buf: seq<u8>): seq<u8> { buf[FirstAddr(buf)..] }

  /** What a caller has received and can still receive. */
  ghost function Delivery(r: (seq<seq<u8>>, seq<u8>)): (seq<seq<u8>>, seq<u8>) { (Addressed(r.0), FromAddr(r.1)) }

  function TotalLength(frames: seq<seq<u8>>): nat {
    if frames == [] then 0 else |frames[0]| + TotalLength(frames[1..])
  }

  /** The bytes of a delivery. */
  ghost function Weight(r: (seq<seq<u8>>, seq<u8>)): nat { TotalLength(Addressed(r.0)) + |FromAddr(r.1)| }

  lemma {:induction false} TotalAppend(a: seq<seq<u8>>, b: seq<seq<u8>>)
    ensures TotalLength(a + b) == TotalLength(a) + TotalLength(b)
    decreases |a|
  {
    if a == [] {
      assert a + b == b;
    } else {
      assert (a + b)[1..] == a[1..] + b;
      TotalAppend(a[1..], b);
    }
  }

  /** Frames in front of a result add their own weight. */
  lemma WeightPrepend(f: seq<seq<u8>>, r: (seq<seq<u8>>, seq<u8>))
    ensures Weight((f + r.0, r.1)) == TotalLength(Addressed(f)) + Weight(r)
    ensures Delivery((f + r.0, r.1)) == (Addressed(f) + Delivery(r).0, Delivery(r).1)
  {
    hide Addressed; hide FirstAddr; hide TotalLength;
    AddressedAppend(f, r.0);
    TotalAppend(Addressed(f), Addressed(r.0));
  }

  lemma OneFrameWeight(f: seq<u8>)
    ensures TotalLength(Addressed([f])) <= |f|
    ensures HasAddr(f) ==> TotalLength(Addressed([f])) == |f|
  {
    hide HasAddr;
    JustThis(f);
    assert TotalLength([f]) == |f| + TotalLength([f][1..]);
  }

  lemma FirstAddrNone(x: seq<u8>)
    ensures HasAddr(x) <==> FirstAddr(x) < |x|
  {}

  lemma NothingEmitted(t: seq<u8>)
    ensures Delivery(([], t)) == ([], FromAddr(t)) && Weight(([], t)) == |t| - FirstAddr(t)
  {}

  lemma NothingFrom(x: seq<u8>)
    ensures FromAddr(x) == [] <==> !HasAddr(x)
    ensures FromAddr([]) == []
  {
    FirstAddrNone(x);
  }

  /** Without an address byte nothing is delivered. */
  lemma {:induction false} GarbageDelivers(x: seq<u8>)
    requires !HasAddr(x)
    ensures Delivery(Drain(x)) == ([], []) && Weight(Drain(x)) == 0
    decreases |x|
  {
    DrainStep(x);
    hide Drain; hide NextFrame; hide Trim;
    match NextFrame(Trim(x))
    case Wait =>
      FirstAddrNone(x);
      NothingEmitted(x);
    case Emit(frame, rest) =>
      assert forall j | 0 <= j < |frame| :: frame[j] == x[j];
      assert forall j | 0 <= j < |rest| :: rest[j] == x[|frame| + j];
      GarbageDelivers(rest);
      JustThis(frame);
      WeightPrepend([frame], Drain(rest));
  }

  /** Garbage in front of a stream changes nothing a caller can see. */
  lemma GarbageInFront(g: seq<u8>, y: seq<u8>)
    requires !HasAddr(g)
    ensures Delivery(Drain(g + y)) == Delivery(Drain(y)) && Weight(Drain(g + y)) == Weight(Drain(y))
  {
    hide Drain; hide Delivery; hide Weight;
    if HasAddr(y) {
      DrainSkipsGarbage(g, y);
    } else {
      GarbageDelivers(y);
      GarbageDelivers(g + y);
    }
  }

  lemma {:induction false} TrimIsSuffix(x: seq<u8>)
    ensures Trim(x) == x[|x| - |Trim(x)|..]
    decreases |x|
  {
    hide IsArtefact; hide IsAddr;
    TrimStep(x);
    var i := FirstAddr(x);
    if i < |x| && IsArtefact(x[i..]) {
      TrimIsSuffix(x[i + 1..]);
    }
  }

  /** Nothing weighs more than its bytes. */
  lemma {:induction false} WeightBound(x: seq<u8>)
    ensures Weight(Drain(x)) <= |x|
    decreases |x|
  {
    DrainStep(x);
    hide Drain; hide NextFrame; hide Trim; hide Weight; hide Addressed;
    match NextFrame(Trim(x))
    case Wait => NothingEmitted(Trim(x));
    case Emit(frame, rest) =>
      WeightBound(rest);
      OneFrameWeight(frame);
      WeightPrepend([frame], Drain(rest));
  }

  /** The bytes up to the end of a `03 FA` pair whose `03` may lie before them. */
  predicate IsClosed(a: seq<u8>) {
    a == [] || (a[|a| - 1] == 0xFA && (|a| >= 2 ==> a[|a| - 2] == 0x03))
  }

  lemma ClosedSuffix(a: seq<u8>, t: seq<u8>)
    requires IsClosed(a) && |t| <= |a| && t == a[|a| - |t|..]
    ensures IsClosed(t)
  {}

  lemma ClosedEmits(t: seq<u8>)
    requires IsClosed(t) && t != [] && IsAddr(t[0])
    ensures NextFrame(t).Emit?
  {
    assert t[|t| - 1] == 0xFA;
  }

  /** The next frame of a trimmed closed stretch, and what stays of the stretch. */
  lemma ClosedRest(a: seq<u8>, t: seq<u8>) returns (frame: seq<u8>, rest: seq<u8>)
    requires IsClosed(a) && t == Trim(a) && HasAddr(a)
    ensures NextFrame(t) == Emit(frame, rest)
    ensures IsClosed(rest) && |rest| < |a| && |frame| + |rest| <= |a|
  {
    hide NextFrame; hide Trim; hide IsClosed; hide IsAddr; hide IsArtefact;
    TrimIsSuffix(a);
    ClosedSuffix(a, t);
    ClosedEmits(t);
    frame, rest := NextFrame(t).frame, NextFrame(t).rest;
    assert rest == t[|t| - |rest|..];
    ClosedSuffix(t, rest);
  }

  /** Cutting a stream behind a terminator loses at most the bytes in front of the cut. */
  lemma {:induction false} WeightBehindTerminator(a: seq<u8>, b: seq<u8>)
    requires IsClosed(a)
    ensures Weight(Drain(a + b)) <= |a| + Weight(Drain(b))
    decreases |a|
  {
    hide *;
    if HasAddr(a) {
      var frame, rest := ClosedRest(a, Trim(a));
      DrainPastFrame(a, b);
      WeightBehindTerminator(rest, b);
      OneFrameWeight(frame);
      WeightPrepend([frame], Drain(rest + b));
    } else {
      GarbageInFront(a, b);
    }
  }

  /** A buffer in which a frame is still arriving. */
  ghost predicate IsArriving(d: seq<u8>) {
    |d| >= 3 && IsAddr(d[0]) && !IsArtefact(d) && NextFrame(d).Wait?
  }

  lemma {:induction false} FindBeyond(d: seq<u8>, y: seq<u8>, from: nat)
    requires 1 <= from && Find03FA(d, from) >= |d|
    ensures Find03FA(d + y, from) >= |d|
    decreases |d| - from
  {
    if from < |d| {
      FindBeyond(d, y, from + 1);
    }
  }

  /** More bytes complete an arriving frame at the first terminator behind it, if there is one. */
  lemma ArrivingGrows(d: seq<u8>, y: seq<u8>) returns (p: nat)
    requires IsArriving(d)
    ensures |d| <= p
    ensures p < |d + y| ==> (d + y)[p - 1] == 0x03 && (d + y)[p] == 0xFA
    ensures p < |d + y| ==> var r := Drain((d + y)[p + 1..]); Drain(d + y) == ([(d + y)[..p + 1]] + r.0, r.1)
    ensures p >= |d + y| ==> Drain(d + y) == ([], d + y)
  {
    var z := d + y;
    assert z[0] == d[0] && z[1] == d[1] && z[2] == d[2];
    p := Find03FA(z, 1);
    FindBeyond(d, y, 1);
    SettledStays(d, y);
    DrainStep(z);
    hide Drain; hide Trim; hide IsArtefact; hide IsAddr; hide Find03FA;
    assert !IsShortFrame(z);
  }

  /** Discarding a frame that is still arriving always costs bytes. */
  lemma ClearLoses(d: seq<u8>, y: seq<u8>)
    requires IsArriving(d)
    ensures Weight(Drain(d + y)) > Weight(Drain(y))
  {
    var z := d + y;
    assert z[0] == d[0] && IsAddr(z[0]);
    hide *;
    var p := ArrivingGrows(d, y);
    if p < |z| {
      var frame, before, behind := CutAtTerminator(d, y, p);
      WeightBehindTerminator(before, behind);
      FrameWeighs(frame, Drain(behind));
    } else {
      ArrivingWeighs(z);
      WeightBound(y);
    }
  }

  lemma CutAtTerminator(d: seq<u8>, y: seq<u8>, p: nat) returns (frame: seq<u8>, before: seq<u8>, behind: seq<u8>)
    requires |d| >= 1 && |d| <= p < |d + y| && (d + y)[p - 1] == 0x03 && (d + y)[p] == 0xFA
    ensures frame == (d + y)[..p + 1] && frame != [] && frame[0] == d[0] && behind == (d + y)[p + 1..]
    ensures y == before + behind && IsClosed(before) && |frame| == |d| + |before|
  {
    var j := p + 1 - |d|;
    frame, before, behind := (d + y)[..p + 1], y[..j], y[j..];
    assert y[j - 1] == (d + y)[p];
    if j >= 2 {
      assert y[j - 2] == (d + y)[p - 1];
    }
  }

  lemma FrameWeighs(f: seq<u8>, r: (seq<seq<u8>>, seq<u8>))
    requires f != [] && IsAddr(f[0])
    ensures Weight(([f] + r.0, r.1)) == |f| + Weight(r)
  {
    hide Weight; hide Addressed;
    assert HasAddr(f);
    OneFrameWeight(f);
    WeightPrepend([f], r);
  }

  lemma ArrivingWeighs(z: seq<u8>)
    requires z != [] && IsAddr(z[0])
    ensures Weight(([], z)) == |z|
  {
    assert FirstAddr(z) == 0 && z[0..] == z;
  }

  /** A drained buffer that overflows and holds an address byte is a frame still arriving. */
  lemma OverflowingIsArriving(x: seq<u8>)
    requires var d := Drain(x).1; |d| > 64 && HasAddr(d)
    ensures IsArriving(Drain(x).1)
  {
    DrainedIsStable(x);
    var d := Drain(x).1;
    DrainStep(d);
    hide Drain; hide NextFrame; hide IsArtefact; hide IsAddr;
    assert Trim(d) == d;
  }

  /** What the overflow rule costs: nothing while it clears garbage only, bytes otherwise. */
  lemma {:induction false} OverflowCosts(buf: seq<u8>, chunks: seq<seq<u8>>)
    requires Drain(buf) == ([], buf)
    ensures var run, whole := PushAll(buf, chunks), Drain(buf + Concat(chunks));
            && (ClearsOnlyGarbage(buf, chunks) ==> Delivery(run) == Delivery(whole))
            && (!ClearsOnlyGarbage(buf, chunks) ==> Weight(run) < Weight(whole))
    decreases |chunks|
  {
    hide Drain; hide Weight; hide Delivery; hide HasAddr; hide IsArriving;
    if chunks == [] {
      assert buf + Concat(chunks) == buf;
    } else {
      var x, y := buf + chunks[0], Concat(chunks[1..]);
      var d := Drain(x);
      var next := AfterOverflow(d.1);
      assert buf + Concat(chunks) == x + y;
      DrainInTwo(x, y);
      AddressedAppend(d.0, Drain(d.1 + y).0);
      SameDelivery(Drain(x + y), (d.0 + Drain(d.1 + y).0, Drain(d.1 + y).1));
      DrainedIsStable(x);
      DrainEmpty();
      OverflowCosts(next, chunks[1..]);
      WeightPrepend(d.0, PushAll(next, chunks[1..]));
      WeightPrepend(d.0, Drain(d.1 + y));
      SameWeight(PushAll(next, chunks[1..]), Drain(next + y));
      if |d.1| > MAX_BUF {
        assert [] + y == y;
        if HasAddr(d.1) {
          OverflowingIsArriving(x);
          ClearLoses(d.1, y);
        } else {
          GarbageInFront(d.1, y);
        }
      }
    }
  }

  lemma SameWeight(a: (seq<seq<u8>>, seq<u8>), b: (seq<seq<u8>>, seq<u8>))
    ensures Delivery(a) == Delivery(b) ==> Weight(a) == Weight(b)
  {
    hide Addressed; hide FromAddr;
  }

  lemma SameDelivery(a: (seq<seq<u8>>, seq<u8>), b: (seq<seq<u8>>, seq<u8>))
    requires Addressed(a.0) == Addressed(b.0) && a.1 == b.1
    ensures Delivery(a) == Delivery(b) && Weight(a) == Weight(b)
  {
    hide Addressed; hide FromAddr;
  }

  /** A cutting delivers what the whole stream delivers, and keeps what it keeps from
      the first address byte on, if and only if every overflow along it discards a
      buffer without an address byte. */
  lemma CuttingHarmlessIff(chunks: seq<seq<u8>>)
    ensures Addressed(PushAll([], chunks).0) == Addressed(Drain(Concat(chunks)).0)
            && FromAddr(PushAll([], chunks).1) == FromAddr(Drain(Concat(chunks)).1)
       <==> ClearsOnlyGarbage([], chunks)
  {
    hide Drain; hide PushAll; hide Addressed; hide FromAddr; hide ClearsOnlyGarbage; hide Weight;
    DrainEmpty();
    OverflowCosts([], chunks);
    assert [] + Concat(chunks) == Concat(chunks);
    SameWeight(PushAll([], chunks), Drain(Concat(chunks)));
  }

  /** Two ways of cutting one byte stream into reads deliver the same addressed
      frames and keep the same bytes from the first address on, unless an overflow
      discards an address byte; without any overflow they leave the same buffer. */
  lemma ChunkIndependence(a: seq<seq<u8>>, b: seq<seq<u8>>)
    requires Concat(a) == Concat(b) && ClearsOnlyGarbage([], a) && ClearsOnlyGarbage([], b)
    ensures Addressed(PushAll([], a).0) == Addressed(PushAll([], b).0)
    ensures FromAddr(PushAll([], a).1) == FromAddr(PushAll([], b).1)
    ensures NeverClears([], a) && NeverClears([], b) ==> PushAll([], a).1 == PushAll([], b).1
  {
    hide Drain; hide PushAll; hide Addressed; hide FromAddr; hide ClearsOnlyGarbage; hide NeverClears;
    CuttingHarmlessIff(a);
    CuttingHarmlessIff(b);
    if NeverClears([], a) && NeverClears([], b) {
      DrainEmpty();
      PushAllIsDrain([], a);
      PushAllIsDrain([], b);
    }
  }

  /** Every emitted frame starts with an address byte or contains none at all. */
  lemma {:induction false} EmittedShape(x: seq<u8>, k: nat)
    requires k < |Drain(x).0|
    ensures var f := Drain(x).0[k]; |f| >= 2 && (IsAddr(f[0]) || !HasAddr(f))
    decreases |x|
  {
    var t := Trim(x);
    hide Trim; hide NextFrame; hide IsAddr; hide IsArtefact;
    match NextFrame(t)
    case Wait =>
    case Emit(frame, rest) =>
      if k > 0 {
        EmittedShape(rest, k - 1);
      } else {
        assert t == frame + rest;
        assert forall j | 0 <= j < |frame| :: frame[j] == t[j];
      }
  }

  /** A short frame of an address, or what a first `03 FA` ends. */
  ghost predicate IsCut(f: seq<u8>) {
    || (|f| == 3 && f[2] == 0xFA && f[1] in {0x20, 0x70, 0xC0, 0xC1} && (0x50 <= f[0] <= 0x6F || 0xD0 <= f[0] <= 0xEF))
    || (|f| >= 2 && f[|f| - 2] == 0x03 && f[|f| - 1] == 0xFA && forall j | 1 <= j < |f| - 1 :: !(f[j - 1] == 0x03 && f[j] == 0xFA))
  }

  lemma FrameIsCut(t: seq<u8>)
    requires NextFrame(t).Emit?
    ensures IsCut(NextFrame(t).frame)
  {
    if !IsShortFrame(t) {
      var p := Find03FA(t, 1);
      assert forall j | 0 <= j <= p :: t[..p + 1][j] == t[j];
    }
    hide Find03FA;
  }

  /** Every emitted frame is one short frame or ends at its first terminator. */
  lemma {:induction false} EmittedIsCut(x: seq<u8>, k: nat)
    requires k < |Drain(x).0|
    ensures IsCut(Drain(x).0[k])
    decreases |x|
  {
    var t := Trim(x);
    hide Trim; hide NextFrame; hide IsCut;
    match NextFrame(t)
    case Wait =>
    case Emit(frame, rest) =>
      FrameIsCut(t);
      if k > 0 {
        EmittedIsCut(rest, k - 1);
      }
  }

  lemma {:induction false} FindNone(x: seq<u8>, from: nat)
    requires 1 <= from <= |x| && forall j | 0 <= j < |x| :: x[j] != 0x03
    ensures Find03FA(x, from) == |x|
    decreases |x| - from
  {
    if from < |x| {
      FindNone(x, from + 1);
    }
  }

  lemma {:induction false} FindFirst(x: seq<u8>, from: nat)
    requires 1 <= from < |x| && x[|x| - 2] == 0x03 && x[|x| - 1] == 0xFA
    requires forall j | from <= j < |x| - 1 :: !(x[j - 1] == 0x03 && x[j] == 0xFA)
    ensures Find03FA(x, from) == |x| - 1
    decreases |x| - from
  {
    if from < |x| - 1 {
      FindFirst(x, from + 1);
    }
  }

  // ── Recovery of whole frames ───────────────────────────────────────────────

  /** A frame that starts at an address, no turnaround artefact, and ends at its first terminator. */
  predicate WellCut(f: seq<u8>) {
    |f| >= 3 && IsAddr(f[0]) && !IsArtefact(f)
    && if IsShortFrame(f) then |f| == 3 else Find03FA(f, 1) == |f| - 1
  }

  /** Line noise in front of the frame `f`: no address byte, except that a turnaround
      artefact may stand right before a plain address. */
  ghost predicate IsNoise(g: seq<u8>, f: seq<u8>) {
    forall j | 0 <= j < |g| :: !IsPlainAddr(g[j]) && (IsHighAddr(g[j]) ==> j == |g| - 1 && f != [] && IsPlainAddr(f[0]))
  }

  function Interleave(noise: seq<seq<u8>>, frames: seq<seq<u8>>): seq<u8>
    requires |noise| == |frames|
  {
    if frames == [] then [] else noise[0] + frames[0] + Interleave(noise[1..], frames[1..])
  }

  lemma WellCutEmits(f: seq<u8>)
    requires WellCut(f)
    ensures NextFrame(f) == Emit(f, []) && IsAddr(f[0]) && !IsArtefact(f)
  {
    assert f[..|f|] == f && f[|f|..] == [];
  }

  lemma DrainWellCutThenMore(f: seq<u8>, rest: seq<u8>)
    requires WellCut(f)
    ensures Drain(f + rest) == ([f] + Drain(rest).0, Drain(rest).1)
  {
    assert |f| >= 3;
    hide *;
    WellCutEmits(f);
    SettledStays(f, rest);
    EmitPrefix(f, rest);
    assert [] + rest == rest;
    DrainStep(f + rest);
  }

  /** An artefact in front of a real address is trimmed. */
  lemma TrimArtefact(a: u8, y: seq<u8>)
    requires IsHighAddr(a) && y != [] && IsPlainAddr(y[0])
    ensures Trim([a] + y) == Trim(y) && FirstAddr([a] + y) == 0
  {
    var z := [a] + y;
    assert IsAddr(z[0]) && IsArtefact(z);
    assert z[1..] == y;
    hide Trim; hide IsArtefact;
    TrimFromAddress(z);
  }

  lemma NoiseIsTrimmed(g: seq<u8>, y: seq<u8>)
    requires IsNoise(g, y) && y != [] && IsAddr(y[0])
    ensures Trim(g + y) == Trim(y)
  {
    assert FirstAddr(y) == 0;
    hide Trim; hide FirstAddr; hide HasAddr; hide IsNoise;
    if HasAddr(g) {
      var h, a := NoiseEndsInArtefact(g, y);
      hide *;
      JoinAssociative(h, [a], y);
      TrimArtefact(a, y);
      TrimSkipsGarbage(h, [a] + y);
    } else {
      TrimSkipsGarbage(g, y);
    }
  }

  lemma NoiseEndsInArtefact(g: seq<u8>, y: seq<u8>) returns (h: seq<u8>, a: u8)
    requires IsNoise(g, y) && HasAddr(g)
    ensures g == h + [a] && !HasAddr(h) && IsHighAddr(a) && y != [] && IsPlainAddr(y[0])
  {
    h, a := g[..|g| - 1], g[|g| - 1];
  }

  lemma DrainNoiseThenFrame(g: seq<u8>, f: seq<u8>, rest: seq<u8>)
    requires IsNoise(g, f) && WellCut(f)
    ensures Drain(g + f + rest) == ([f] + Drain(rest).0, Drain(rest).1)
  {
    assert (f + rest)[0] == f[0] && IsAddr(f[0]) && IsNoise(g, f + rest);
    hide *;
    assert g + f + rest == g + (f + rest);
    NoiseIsTrimmed(g, f + rest);
    SameTrimSameDrain(g + (f + rest), f + rest);
    DrainWellCutThenMore(f, rest);
  }

  /** Whatever noise surrounds them, well-cut frames come out whole, in order and
      alone, with no address byte left over, if and only if no overflow on the way
      discards an address byte. */
  lemma FramesRecovered(noise: seq<seq<u8>>, frames: seq<seq<u8>>, chunks: seq<seq<u8>>)
    requires |noise| == |frames| && Concat(chunks) == Interleave(noise, frames)
    requires forall i | 0 <= i < |frames| :: IsNoise(noise[i], frames[i]) && WellCut(frames[i])
    ensures Addressed(PushAll([], chunks).0) == frames && !HasAddr(PushAll([], chunks).1)
       <==> ClearsOnlyGarbage([], chunks)
  {
    hide *;
    CuttingHarmlessIff(chunks);
    DrainInterleaved(noise, frames);
    NothingFrom(PushAll([], chunks).1);
  }

  lemma {:induction false} DrainInterleaved(noise: seq<seq<u8>>, frames: seq<seq<u8>>)
    requires |noise| == |frames|
    requires forall i | 0 <= i < |frames| :: IsNoise(noise[i], frames[i]) && WellCut(frames[i])
    ensures Drain(Interleave(noise, frames)) == (frames, []) && Addressed(frames) == frames
    decreases |frames|
  {
    if frames == [] {
      DrainEmpty();
    } else {
      var f, more := frames[0], frames[1..];
      assert frames == [f] + more;
      WellCutEmits(f);
      assert HasAddr(f);
      hide IsNoise; hide WellCut; hide Drain; hide Addressed; hide HasAddr; hide IsAddr; hide NextFrame; hide IsArtefact;
      DrainInterleaved(noise[1..], more);
      DrainNoiseThenFrame(noise[0], f, Interleave(noise[1..], more));
      AddressedCons(f, more);
    }
  }

  /** A frame start of 65 bytes, one more than the buffer may keep. */
  function LongHead(): seq<u8> { [0x52] + seq(64, _ => 0x00) }

  lemma LongFrameWellCut()
    ensures WellCut(LongHead() + [0x03, 0xFA])
  {
    FindFirst(LongHead() + [0x03, 0xFA], 1);
  }

  lemma LongHeadWaits()
    ensures Drain(LongHead()) == ([], LongHead())
  {
    TrimSettled(LongHead());
    FindNone(LongHead(), 1);
  }

  lemma BareTerminator()
    ensures Drain([0x03, 0xFA]).0 == [[0x03, 0xFA]] && !HasAddr([0x03, 0xFA])
  {
    var t: seq<u8> := [0x03, 0xFA];
    assert t[..2] == t && t[2..] == [];
    assert Find03FA(t, 1) == 1;
  }

  lemma OneRead(x: seq<u8>)
    ensures PushAll([], [x]).0 == Drain(x).0
  {
    hide Drain;
    assert [] + x == x;
  }

  lemma TwoReads(a: seq<u8>, b: seq<u8>)
    requires Drain(a) == ([], a) && |a| > MAX_BUF
    ensures PushAll([], [a, b]).0 == Drain(b).0
  {
    hide Drain;
    assert [] + a == a && [a, b][1..] == [b];
    OneRead(b);
  }

  lemma DrainEmpty()
    ensures Drain([]) == ([], [])
  {}

  /** A well-cut frame on an empty line is exactly what comes out. */
  lemma DrainWellCut(x: seq<u8>)
    requires WellCut(x)
    ensures Drain(x) == ([x], [])
  {
    DrainEmpty();
    hide Drain; hide WellCut;
    DrainNoiseThenFrame([], x, []);
    assert [] + x + [] == x;
    assert [x] + [] == [x];
  }

  lemma OneWholeFrame(x: seq<u8>)
    requires WellCut(x)
    ensures Addressed(PushAll([], [x]).0) == [x]
  {
    assert HasAddr(x) by {
      assert IsAddr(x[0]);
    }
    hide PushAll; hide Drain; hide WellCut; hide Addressed; hide HasAddr;
    DrainWellCut(x);
    OneRead(x);
    JustThis(x);
  }

  /** Cutting matters once the overflow rule fires: the same 67 bytes are one
      frame in a single read and nothing at all when the terminator comes later. */
  lemma OverflowDependsOnCuts()
    ensures Addressed(PushAll([], [LongHead() + [0x03, 0xFA]]).0) == [LongHead() + [0x03, 0xFA]]
    ensures Addressed(PushAll([], [LongHead(), [0x03, 0xFA]]).0) == []
  {
    LongFrameWellCut();
    LongHeadWaits();
    BareTerminator();
    assert |LongHead()| == 65;
    hide PushAll; hide LongHead; hide HasAddr; hide WellCut; hide Drain; hide Addressed;
    OneWholeFrame(LongHead() + [0x03, 0xFA]);
    TwoReads(LongHead(), [0x03, 0xFA]);
    JustThis([0x03, 0xFA]);
  }
}
