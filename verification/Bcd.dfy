/** Binary-coded decimal numbers, most significant byte first. */
module Bcd {
  import opened Wire

  const U64: nat := 0x1_0000_0000_0000_0000

  /** Two decimal digits in one byte. */
  function BcdByte(v: nat): u8
    requires v < 100
  {
    Pack(Nibble(v / 10), Nibble(v % 10))
  }

  function Tens(b: u8): nat { NibbleValue(HighNibble(b)) }

  function Ones(b: u8): nat { NibbleValue(LowNibble(b)) }

  predicate IsDecimal(b: u8) { Tens(b) <= 9 && Ones(b) <= 9 }

  function Digits(b: u8): nat { 10 * Tens(b) + Ones(b) }

  lemma ByteRoundTrip(v: nat)
    requires v < 100
    ensures IsDecimal(BcdByte(v)) && Digits(BcdByte(v)) == v
  {
    hide Nibble; hide NibbleValue; hide Pack; hide HighNibble; hide LowNibble;
    NibbleRoundTrip(v / 10);
    NibbleRoundTrip(v % 10);
    PackNibbles(Nibble(v / 10), Nibble(v % 10));
  }

  lemma DigitsRoundTrip(b: u8)
    requires IsDecimal(b)
    ensures Digits(b) < 100 && BcdByte(Digits(b)) == b
  {
    hide Nibble; hide NibbleValue; hide Pack; hide HighNibble; hide LowNibble;
    SplitNibbles(b);
    NibbleOfValue(HighNibble(b));
    NibbleOfValue(LowNibble(b));
    assert Digits(b) / 10 == Tens(b) && Digits(b) % 10 == Ones(b);
  }

  // ── Encoding ───────────────────────────────────────────────────────────────

  function Pow100(n: nat): (p: nat)
    ensures p >= 1
  {
    if n == 0 then 1 else 100 * Pow100(n - 1)
  }

  /** The last `n` digit pairs of a number. */
  function Pairs(value: nat, n: nat): (r: seq<u8>)
    ensures |r| == n
  {
    if n == 0 then [] else Pairs(value / 100, n - 1) + [BcdByte(value % 100)]
  }

  /** Fills the bytes from the back; `None` when digits are left over. */
  method Encode(value: nat, n: nat) returns (r: Option<seq<u8>>)
    requires value < U64
    ensures r == if value < Pow100(n) then Some(Pairs(value, n)) else None
  {
    hide BcdByte;
    var out := new u8[n];
    var v: nat, i := value, n;
    while i > 0
      invariant 0 <= i <= n
      invariant value < Pow100(n) <==> v < Pow100(i)
      invariant Pairs(v, i) + out[i..] == Pairs(value, n)
    {
      ghost var back := out[i..];
      i := i - 1;
      out[i] := BcdByte(v % 100);
      assert out[i..] == [BcdByte(v % 100)] + back;
      v := v / 100;
    }
    if v != 0 {
      return None;
    }
    assert out[..] == [] + out[0..];
    return Some(out[..]);
  }

  // ── Decoding ───────────────────────────────────────────────────────────────

  predicate AllDecimal(bytes: seq<u8>) { forall i | 0 <= i < |bytes| :: IsDecimal(bytes[i]) }

  /** The number the digits write down. */
  function Number(bytes: seq<u8>): nat {
    if bytes == [] then 0 else 100 * Number(bytes[..|bytes| - 1]) + Digits(bytes[|bytes| - 1])
  }

  /** A digit string's number, or `None` for a nibble above nine or beyond 64 bits. */
  function Decoded(bytes: seq<u8>): Option<nat> {
    if AllDecimal(bytes) && Number(bytes) < U64 then Some(Number(bytes)) else None
  }

  lemma {:induction false} NumberPrefix(bytes: seq<u8>, n: nat)
    requires n <= |bytes|
    ensures Number(bytes[..n]) <= Number(bytes)
    decreases |bytes| - n
  {
    hide Digits;
    if n < |bytes| {
      NumberPrefix(bytes, n + 1);
      assert bytes[..n + 1][..n] == bytes[..n];
    } else {
      assert bytes[..n] == bytes;
    }
  }

  method Decode(bytes: seq<u8>) returns (r: Option<nat>)
    ensures r == Decoded(bytes)
  {
    hide Tens; hide Ones;
    var acc, i := 0, 0;
    while i < |bytes|
      invariant 0 <= i <= |bytes| && AllDecimal(bytes[..i]) && acc == Number(bytes[..i]) && acc < U64
    {
      var hi, lo := Tens(bytes[i]), Ones(bytes[i]);
      if hi > 9 || lo > 9 {
        return None;
      }
      assert bytes[..i + 1][..i] == bytes[..i];
      NumberPrefix(bytes, i + 1);
      if acc * 100 >= U64 || acc * 100 + (hi * 10 + lo) >= U64 {
        return None;
      }
      acc := acc * 100 + (hi * 10 + lo);
      i := i + 1;
    }
    assert bytes[..i] == bytes;
    return Some(acc);
  }

  // ── Each undoes the other ──────────────────────────────────────────────────

  lemma {:induction false} NumberOfPairs(value: nat, n: nat)
    requires value < Pow100(n)
    ensures AllDecimal(Pairs(value, n)) && Number(Pairs(value, n)) == value
    decreases n
  {
    hide BcdByte; hide Tens; hide Ones; hide Digits; hide IsDecimal;
    if n > 0 {
      NumberOfPairs(value / 100, n - 1);
      ByteRoundTrip(value % 100);
      var front := Pairs(value / 100, n - 1);
      assert Pairs(value, n)[..n - 1] == front;
    }
  }

  lemma {:induction false} PairsOfNumber(bytes: seq<u8>)
    requires AllDecimal(bytes)
    ensures Number(bytes) < Pow100(|bytes|) && Pairs(Number(bytes), |bytes|) == bytes
    decreases |bytes|
  {
    hide BcdByte; hide Tens; hide Ones; hide Digits; hide IsDecimal;
    if bytes != [] {
      var last := |bytes| - 1;
      PairsOfNumber(bytes[..last]);
      DigitsRoundTrip(bytes[last]);
      assert Number(bytes) / 100 == Number(bytes[..last]) && Number(bytes) % 100 == Digits(bytes[last]);
    }
  }

  /** Every 64-bit number that fits its field is read back, and every digit string of a
      64-bit number is what that number encodes to. */
  lemma BcdBijection(value: nat, bytes: seq<u8>)
    requires value < U64
    ensures Decoded(bytes) == Some(value) <==> value < Pow100(|bytes|) && Pairs(value, |bytes|) == bytes
  {
    if value < Pow100(|bytes|) {
      NumberOfPairs(value, |bytes|);
    }
    if AllDecimal(bytes) {
      PairsOfNumber(bytes);
    }
    hide AllDecimal; hide Pairs; hide Number;
  }
}
