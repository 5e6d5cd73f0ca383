/** The two 16-bit CRCs on the bus, clocked bit by bit, and what they detect.
    Word operations are named so that proofs can keep them folded. */
module Crc {
  import opened Wire

  /** `Ibm` is CRC-16 with the reflected polynomial 0xA001 (Wayne), fed low bit
      first; `Ccitt` is polynomial 0x1021 (SHELF), fed high bit first. */
  datatype Code = Ibm | Ccitt

  function Xor(a: u16, b: u16): u16 { a ^ b }

  function And(a: u16, b: u16): u16 { a & b }

  function Shr(c: u16): u16 { c >> 1 }

  function Shl(c: u16): u16 { c << 1 }

  function Shift(k: Code, c: u16): u16 { if k.Ibm? then Shr(c) else Shl(c) }

  /** The bit that the next shift pushes out of the register. */
  predicate Out(k: Code, c: u16) { if k.Ibm? then c & 1 != 0 else c & 0x8000 != 0 }

  function Feedback(k: Code, out: bool): u16 {
    if !out then 0 else if k.Ibm? then 0xA001 else 0x1021
  }

  function Clock(k: Code, c: u16): u16 { Xor(Shift(k, c), Feedback(k, Out(k, c))) }

  function Clocks(k: Code, n: nat, c: u16): u16 {
    if n == 0 then c else Clocks(k, n - 1, Clock(k, c))
  }

  /** Where an input bit, and where a whole input byte, enters the register. */
  function Inject(k: Code, bit: bool): u16 {
    if !bit then 0 else if k.Ibm? then 1 else 0x8000
  }

  function Load(k: Code, b: u8): u16 {
    if k.Ibm? then b as u16 else (b as u16) << 8
  }

  function BitStep(k: Code, c: u16, bit: bool): u16 { Clock(k, Xor(c, Inject(k, bit))) }

  function ByteStep(k: Code, c: u16, b: u8): u16 { Clocks(k, 8, Xor(c, Load(k, b))) }

  /** The register after `data`, started from `c`. */
  function CrcFrom(k: Code, c: u16, data: seq<u8>): u16
    decreases |data|
  {
    if data == [] then c else CrcFrom(k, ByteStep(k, c, data[0]), data[1..])
  }

  function BitCrc(k: Code, c: u16, bits: seq<bool>): u16
    decreases |bits|
  {
    if bits == [] then c else BitCrc(k, BitStep(k, c, bits[0]), bits[1..])
  }

  /** The bit of `b` that the code consumes first, and what is left of `b`. */
  predicate FirstBit(k: Code, b: u8) { if k.Ibm? then b & 1 != 0 else b & 0x80 != 0 }

  function RestBits(k: Code, b: u8): u8 { if k.Ibm? then b >> 1 else b << 1 }

  function BitsOf(k: Code, b: u8, n: nat): (r: seq<bool>)
    ensures |r| == n
    decreases n
  {
    if n == 0 then [] else [FirstBit(k, b)] + BitsOf(k, RestBits(k, b), n - 1)
  }

  /** All bits of `data` in transmission order. */
  function Bits(k: Code, data: seq<u8>): (r: seq<bool>)
    ensures |r| == 8 * |data|
  {
    if data == [] then [] else BitsOf(k, data[0], 8) + Bits(k, data[1..])
  }

  // ── Word algebra ───────────────────────────────────────────────────────────

  lemma XorAssoc(a: u16, b: u16, c: u16)
    ensures Xor(Xor(a, b), c) == Xor(a, Xor(b, c))
  {}

  lemma XorComm(a: u16, b: u16)
    ensures Xor(a, b) == Xor(b, a)
  {}

  lemma XorSelf(a: u16)
    ensures Xor(a, a) == 0 && Xor(a, 0) == a && Xor(0, a) == a
  {}

  lemma XorSwap(a: u16, b: u16, c: u16, d: u16)
    ensures Xor(Xor(a, b), Xor(c, d)) == Xor(Xor(a, c), Xor(b, d))
  {
    hide Xor;
    XorAssoc(a, b, Xor(c, d));
    XorAssoc(b, c, d);
    XorComm(b, c);
    XorAssoc(c, b, d);
    XorAssoc(a, c, Xor(b, d));
  }

  lemma RightXor(a: u16, b: u16)
    ensures Shr(Xor(a, b)) == Xor(Shr(a), Shr(b))
  {}

  lemma LeftXor(a: u16, b: u16)
    ensures Shl(Xor(a, b)) == Xor(Shl(a), Shl(b))
  {}

  lemma ShiftXor(k: Code, a: u16, b: u16)
    ensures Shift(k, Xor(a, b)) == Xor(Shift(k, a), Shift(k, b))
  {
    hide Xor; hide Shr; hide Shl;
    RightXor(a, b);
    LeftXor(a, b);
  }

  lemma OutXor(k: Code, a: u16, b: u16)
    ensures Out(k, Xor(a, b)) == (Out(k, a) != Out(k, b))
  {}

  lemma FeedbackXor(k: Code, s: bool, t: bool)
    ensures Feedback(k, s != t) == Xor(Feedback(k, s), Feedback(k, t))
  {
    hide Xor;
    assert Feedback(k, false) == 0;
    XorSelf(Feedback(k, true));
    XorSelf(Feedback(k, false));
    match (s, t) {
      case (true, true) =>
      case (true, false) =>
      case (false, true) =>
      case (false, false) =>
    }
  }

  lemma ClockLinear(k: Code, a: u16, b: u16)
    ensures Clock(k, Xor(a, b)) == Xor(Clock(k, a), Clock(k, b))
  {
    hide Xor; hide Shift; hide Out; hide Feedback;
    ShiftXor(k, a, b);
    OutXor(k, a, b);
    FeedbackXor(k, Out(k, a), Out(k, b));
    XorSwap(Shift(k, a), Shift(k, b), Feedback(k, Out(k, a)), Feedback(k, Out(k, b)));
  }

  lemma {:induction false} ClocksLinear(k: Code, n: nat, a: u16, b: u16)
    ensures Clocks(k, n, Xor(a, b)) == Xor(Clocks(k, n, a), Clocks(k, n, b))
    decreases n
  {
    hide Xor; hide Clock;
    if n > 0 {
      ClockLinear(k, a, b);
      ClocksLinear(k, n - 1, Clock(k, a), Clock(k, b));
    }
  }

  lemma {:induction false} CrcAppend(k: Code, c: u16, a: seq<u8>, b: seq<u8>)
    ensures CrcFrom(k, c, a + b) == CrcFrom(k, CrcFrom(k, c, a), b)
    decreases |a|
  {
    hide ByteStep;
    if a == [] {
      assert a + b == b;
    } else {
      assert (a + b)[1..] == a[1..] + b;
      CrcAppend(k, ByteStep(k, c, a[0]), a[1..], b);
    }
  }

  lemma {:induction false} BitCrcAppend(k: Code, c: u16, a: seq<bool>, b: seq<bool>)
    ensures BitCrc(k, c, a + b) == BitCrc(k, BitCrc(k, c, a), b)
    decreases |a|
  {
    hide BitStep;
    if a == [] {
      assert a + b == b;
    } else {
      assert (a + b)[1..] == a[1..] + b;
      BitCrcAppend(k, BitStep(k, c, a[0]), a[1..], b);
    }
  }

  // ── Bytes are eight bits ───────────────────────────────────────────────────

  /** Clocking a loaded byte consumes its first bit and keeps the rest loaded. */
  lemma LoadClock(k: Code, b: u8)
    ensures Clock(k, Load(k, b)) == Xor(Clock(k, Inject(k, FirstBit(k, b))), Load(k, RestBits(k, b)))
  {
    if k.Ibm? {
      if b & 1 == 0 {} else {}
    } else {
      if b & 0x80 == 0 {} else {}
    }
  }

  /** The register with `b` still loaded keeps its value when one bit of `b` is fed. */
  lemma FeedOneBit(k: Code, c: u16, b: u8)
    ensures Xor(BitStep(k, c, FirstBit(k, b)), Load(k, RestBits(k, b))) == Clock(k, Xor(c, Load(k, b)))
  {
    hide Xor; hide Clock; hide Load; hide Inject; hide FirstBit; hide RestBits;
    var i := Inject(k, FirstBit(k, b));
    LoadClock(k, b);
    ClockLinear(k, c, i);
    ClockLinear(k, c, Load(k, b));
    XorAssoc(Clock(k, c), Clock(k, i), Load(k, RestBits(k, b)));
  }

  function RestAfter(k: Code, b: u8, n: nat): u8
    decreases n
  {
    if n == 0 then b else RestAfter(k, RestBits(k, b), n - 1)
  }

  lemma EightBitsConsumed(k: Code, b: u8)
    ensures RestAfter(k, b, 8) == 0
  {
    var b1 := RestBits(k, b);
    var b2 := RestBits(k, b1);
    var b3 := RestBits(k, b2);
    var b4 := RestBits(k, b3);
    assert RestAfter(k, b, 8) == RestAfter(k, b4, 4);
    var b5 := RestBits(k, b4);
    var b6 := RestBits(k, b5);
    var b7 := RestBits(k, b6);
    assert RestAfter(k, b4, 4) == RestBits(k, b7);
    if k.Ibm? {
      assert b4 == b >> 4;
      assert RestBits(k, b7) == b4 >> 4;
    } else {
      assert b4 == b << 4;
      assert RestBits(k, b7) == b4 << 4;
    }
  }

  lemma {:induction false} FeedBits(k: Code, c: u16, b: u8, n: nat)
    ensures Xor(BitCrc(k, c, BitsOf(k, b, n)), Load(k, RestAfter(k, b, n))) == Clocks(k, n, Xor(c, Load(k, b)))
    decreases n
  {
    hide Xor; hide Clock; hide Load; hide FirstBit; hide RestBits; hide BitStep;
    if n > 0 {
      FeedOneBit(k, c, b);
      assert BitsOf(k, b, n)[1..] == BitsOf(k, RestBits(k, b), n - 1);
      FeedBits(k, BitStep(k, c, FirstBit(k, b)), RestBits(k, b), n - 1);
    }
  }

  /** A byte step is the eight bit steps of that byte. */
  lemma ByteIsEightBits(k: Code, c: u16, b: u8)
    ensures BitCrc(k, c, BitsOf(k, b, 8)) == ByteStep(k, c, b)
  {
    hide Xor; hide Clocks; hide BitCrc; hide BitsOf;
    FeedBits(k, c, b, 8);
    EightBitsConsumed(k, b);
    XorSelf(BitCrc(k, c, BitsOf(k, b, 8)));
    assert Load(k, 0) == 0;
  }

  /** The byte-wise checksum is the bit-serial division of the whole message. */
  lemma {:induction false} CrcIsBitSerial(k: Code, c: u16, data: seq<u8>)
    ensures CrcFrom(k, c, data) == BitCrc(k, c, Bits(k, data))
    decreases |data|
  {
    hide ByteStep; hide BitStep; hide BitsOf;
    if data != [] {
      ByteIsEightBits(k, c, data[0]);
      BitCrcAppend(k, c, BitsOf(k, data[0], 8), Bits(k, data[1..]));
      CrcIsBitSerial(k, ByteStep(k, c, data[0]), data[1..]);
    }
  }

  // ── Error detection ────────────────────────────────────────────────────────

  /** `d` has a set bit that `n` more shifts cannot push out. */
  predicate Live(k: Code, d: u16, n: nat)
    decreases n
  {
    if n == 0 then d != 0 else Live(k, Shift(k, d), n - 1)
  }

  /** The register cell that feedback always sets. */
  function Entry(k: Code): u16 { if k.Ibm? then 0x8000 else 1 }

  lemma {:induction false} LiveLonger(k: Code, d: u16, n: nat, m: nat)
    requires Live(k, d, n) && m <= n
    ensures Live(k, d, m)
    decreases n
  {
    if m > 0 {
      LiveLonger(k, Shift(k, d), n - 1, m - 1);
    } else if n > 0 {
      LiveLonger(k, Shift(k, d), n - 1, 0);
    }
  }

  lemma ShiftsAnd(d: u16, m: u16)
    ensures Shr(And(d, m)) == And(Shr(d), Shr(m)) && Shl(And(d, m)) == And(Shl(d), Shl(m))
  {}

  lemma ShiftAnd(k: Code, d: u16, m: u16)
    ensures Shift(k, And(d, m)) == And(Shift(k, d), Shift(k, m))
  {
    hide And; hide Shr; hide Shl;
    ShiftsAnd(d, m);
  }

  lemma {:induction false} LiveSuperset(k: Code, d: u16, m: u16, n: nat)
    requires Live(k, And(d, m), n)
    ensures Live(k, d, n)
    decreases n
  {
    if n > 0 {
      hide Shift; hide And;
      ShiftAnd(k, d, m);
      LiveSuperset(k, Shift(k, d), Shift(k, m), n - 1);
    } else {
      assert d == 0 ==> And(d, m) == 0;
    }
  }

  lemma EntryCrosses(k: Code)
    ensures Live(k, Entry(k), 15)
  {
    assert Live(Ibm, 0x2, 1) && Live(Ibm, 0x8, 3) && Live(Ibm, 0x20, 5) && Live(Ibm, 0x80, 7);
    assert Live(Ibm, 0x200, 9) && Live(Ibm, 0x800, 11) && Live(Ibm, 0x2000, 13) && Live(Ibm, 0x8000, 15);
    assert Live(Ccitt, 0x4000, 1) && Live(Ccitt, 0x1000, 3) && Live(Ccitt, 0x400, 5) && Live(Ccitt, 0x100, 7);
    assert Live(Ccitt, 0x40, 9) && Live(Ccitt, 0x10, 11) && Live(Ccitt, 0x4, 13) && Live(Ccitt, 0x1, 15);
  }

  lemma EntryLives(k: Code, d: u16, n: nat)
    requires n <= 15 && And(d, Entry(k)) != 0
    ensures Live(k, d, n)
  {
    EntryCrosses(k);
    assert And(d, Entry(k)) == Entry(k);
    LiveSuperset(k, d, Entry(k), 15);
    LiveLonger(k, d, 15, n);
  }

  lemma ClockZero(k: Code, d: u16)
    ensures Clock(k, d) == 0 <==> d == 0
  {
    if k.Ibm? {
      if d & 1 == 0 {} else {}
    } else {
      if d & 0x8000 == 0 {} else {}
    }
  }

  lemma XorZero(a: u16, b: u16)
    ensures Xor(a, b) == 0 <==> a == b
  {
    hide Xor;
    XorSelf(a);
    XorSelf(b);
    XorAssoc(a, a, b);
  }

  /** Feeding the same bit keeps two different registers different. */
  lemma BitStepInjective(k: Code, a: u16, b: u16, bit: bool)
    requires a != b
    ensures BitStep(k, a, bit) != BitStep(k, b, bit)
  {
    hide Xor; hide Clock; hide Inject;
    var i := Inject(k, bit);
    XorSwap(a, i, b, i);
    XorSelf(i);
    XorSelf(Xor(a, b));
    XorZero(a, b);
    ClockLinear(k, Xor(a, i), Xor(b, i));
    ClockZero(k, Xor(a, b));
    XorZero(Clock(k, Xor(a, i)), Clock(k, Xor(b, i)));
  }

  lemma {:induction false} SuffixInjective(k: Code, a: u16, b: u16, bits: seq<bool>)
    requires a != b
    ensures BitCrc(k, a, bits) != BitCrc(k, b, bits)
    decreases |bits|
  {
    hide BitStep;
    if bits != [] {
      BitStepInjective(k, a, b, bits[0]);
      SuffixInjective(k, BitStep(k, a, bits[0]), BitStep(k, b, bits[0]), bits[1..]);
    }
  }

  lemma FeedbackEnters(k: Code, d: u16)
    requires Out(k, d)
    ensures And(Clock(k, d), Entry(k)) != 0
  {
    if k.Ibm? {
      assert (d >> 1) & 0x8000 == 0;
    } else {
      assert (d << 1) & 1 == 0;
    }
  }

  /** A live difference stays live across one more bit, whatever is fed to either side. */
  lemma StepKeepsLive(k: Code, d: u16, bit: bool, n: nat)
    requires n < 15 && Live(k, d, n + 1)
    ensures Live(k, Clock(k, Xor(d, Inject(k, bit))), n)
  {
    var d' := Xor(d, Inject(k, bit));
    if Out(k, d') {
      hide Clock; hide Xor; hide And; hide Live;
      FeedbackEnters(k, d');
      EntryLives(k, Clock(k, d'), n);
    } else {
      hide Xor;
      assert Shift(k, Inject(k, bit)) == 0;
      ShiftXor(k, d, Inject(k, bit));
      XorSelf(Shift(k, d));
      XorSelf(Shift(k, d'));
      assert Feedback(k, false) == 0;
    }
  }

  /** How the difference of two registers evolves. */
  lemma StepDifference(k: Code, a: u16, b: u16, x: bool, y: bool)
    ensures Xor(BitStep(k, a, x), BitStep(k, b, y)) == Clock(k, Xor(Xor(a, b), Inject(k, x != y)))
  {
    hide Xor; hide Clock;
    var i, j := Inject(k, x), Inject(k, y);
    ClockLinear(k, Xor(a, i), Xor(b, j));
    XorSwap(a, i, b, j);
    XorSelf(i);
    XorSelf(j);
    assert Xor(i, j) == Inject(k, x != y);
  }

  lemma {:induction false} LiveRun(k: Code, a: u16, b: u16, u: seq<bool>, v: seq<bool>)
    requires |u| == |v| <= 15 && Live(k, Xor(a, b), |u|)
    ensures BitCrc(k, a, u) != BitCrc(k, b, v)
    decreases |u|
  {
    hide Xor; hide BitStep; hide Clock; hide Inject; hide Shift;
    if u == [] {
      XorZero(a, b);
    } else {
      StepDifference(k, a, b, u[0], v[0]);
      StepKeepsLive(k, Xor(a, b), u[0] != v[0], |u| - 1);
      LiveRun(k, BitStep(k, a, u[0]), BitStep(k, b, v[0]), u[1..], v[1..]);
    }
  }

  /** Two different windows of at most sixteen bits never leave the same register. */
  lemma {:induction false} WindowDiffers(k: Code, c: u16, u: seq<bool>, v: seq<bool>)
    requires |u| == |v| <= 16 && u != v
    ensures BitCrc(k, c, u) != BitCrc(k, c, v)
    decreases |u|
  {
    hide Xor; hide BitStep; hide Clock; hide Live;
    assert u == [u[0]] + u[1..] && v == [v[0]] + v[1..];
    if u[0] == v[0] {
      WindowDiffers(k, BitStep(k, c, u[0]), u[1..], v[1..]);
    } else {
      StepDifference(k, c, c, u[0], v[0]);
      XorSelf(c);
      XorSelf(Inject(k, true));
      FeedbackEnters(k, Inject(k, true));
      EntryLives(k, Clock(k, Inject(k, true)), |u| - 1);
      LiveRun(k, BitStep(k, c, u[0]), BitStep(k, c, v[0]), u[1..], v[1..]);
    }
  }

  /** Burst detection: changing anything inside sixteen consecutive bits of a
      message, at any bit offset, always changes its checksum. */
  lemma BurstDetected(k: Code, p: seq<bool>, u: seq<bool>, v: seq<bool>, s: seq<bool>)
    requires |u| == |v| <= 16 && u != v
    ensures BitCrc(k, 0, p + u + s) != BitCrc(k, 0, p + v + s)
  {
    var c := BitCrc(k, 0, p);
    BitCrcAppend(k, 0, p + u, s);
    BitCrcAppend(k, 0, p, u);
    BitCrcAppend(k, 0, p + v, s);
    BitCrcAppend(k, 0, p, v);
    WindowDiffers(k, c, u, v);
    SuffixInjective(k, BitCrc(k, c, u), BitCrc(k, c, v), s);
  }

  lemma {:induction false} BitsAppend(k: Code, a: seq<u8>, b: seq<u8>)
    ensures Bits(k, a + b) == Bits(k, a) + Bits(k, b)
  {
    if a == [] {
      assert a + b == b;
    } else {
      assert (a + b)[1..] == a[1..] + b;
      BitsAppend(k, a[1..], b);
    }
  }

  lemma {:induction false} ClocksInjective(k: Code, n: nat, a: u16, b: u16)
    requires Clocks(k, n, a) == Clocks(k, n, b)
    ensures a == b
    decreases n
  {
    hide Clock; hide Xor;
    if n > 0 {
      ClocksInjective(k, n - 1, Clock(k, a), Clock(k, b));
      ClockLinear(k, a, b);
      XorZero(Clock(k, a), Clock(k, b));
      ClockZero(k, Xor(a, b));
      XorZero(a, b);
    }
  }

  lemma BitsOfInjective(k: Code, a: u8, b: u8)
    requires BitsOf(k, a, 8) == BitsOf(k, b, 8)
    ensures a == b
  {
    hide Clocks; hide BitsOf; hide BitCrc;
    ByteIsEightBits(k, 0, a);
    ByteIsEightBits(k, 0, b);
    XorSelf(Load(k, a));
    XorSelf(Load(k, b));
    ClocksInjective(k, 8, Load(k, a), Load(k, b));
  }

  lemma {:induction false} BitsInjective(k: Code, a: seq<u8>, b: seq<u8>)
    requires |a| == |b| && Bits(k, a) == Bits(k, b)
    ensures a == b
    decreases |a|
  {
    if a != [] {
      assert Bits(k, a)[..8] == BitsOf(k, a[0], 8) && Bits(k, a)[8..] == Bits(k, a[1..]);
      assert Bits(k, b)[..8] == BitsOf(k, b[0], 8) && Bits(k, b)[8..] == Bits(k, b[1..]);
      BitsOfInjective(k, a[0], b[0]);
      BitsInjective(k, a[1..], b[1..]);
      assert a == [a[0]] + a[1..] && b == [b[0]] + b[1..];
    }
  }

  /** Two messages that differ only inside two adjacent bytes have different checksums. */
  lemma ByteWindowDetected(k: Code, p: seq<u8>, u: seq<u8>, v: seq<u8>, s: seq<u8>)
    requires |u| == |v| <= 2 && u != v
    ensures CrcFrom(k, 0, p + u + s) != CrcFrom(k, 0, p + v + s)
  {
    hide BitsOf; hide BitCrc; hide CrcFrom; hide Bits;
    CrcIsBitSerial(k, 0, p + u + s);
    CrcIsBitSerial(k, 0, p + v + s);
    BitsAppend(k, p + u, s);
    BitsAppend(k, p, u);
    BitsAppend(k, p + v, s);
    BitsAppend(k, p, v);
    if Bits(k, u) == Bits(k, v) {
      BitsInjective(k, u, v);
    }
    BurstDetected(k, Bits(k, p), Bits(k, u), Bits(k, v), Bits(k, s));
  }
}
