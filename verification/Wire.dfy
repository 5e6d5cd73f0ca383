/** Bytes, words and the small sequence facts every wire codec shares. */
module Wire {
  type u8 = bv8
  type u16 = bv16

  datatype Option<+T> = None | Some(value: T)

  /** The byte stream that a list of reads delivers. */
  function Concat(chunks: seq<seq<u8>>): seq<u8> {
    if chunks == [] then [] else chunks[0] + Concat(chunks[1..])
  }

  lemma DropConcat<T>(x: seq<T>, y: seq<T>, i: nat)
    requires i <= |x|
    ensures (x + y)[i..] == x[i..] + y
  {}

  lemma JoinAssociative<T>(a: seq<T>, b: seq<T>, c: seq<T>)
    ensures a + (b + c) == a + b + c && [] + a == a
  {}

  function Low(w: u16): u8 { (w & 0xFF) as u8 }

  function High(w: u16): u8 { (w >> 8) as u8 }

  predicate Has(b: u8, mask: u8) { b & mask != 0 }

  /** How many of the bytes have a bit of `mask`. */
  function CountWith(bytes: seq<u8>, mask: u8): nat {
    if bytes == [] then 0
    else CountWith(bytes[..|bytes| - 1], mask) + if Has(bytes[|bytes| - 1], mask) then 1 else 0
  }

  predicate IsOneBit(mask: u8) { mask in {0x01, 0x02, 0x04, 0x08, 0x10, 0x20, 0x40, 0x80} }

  // ── Texts ──────────────────────────────────────────────────────────────────

  /** The white space that Rust's and JavaScript's `trim` both remove. */
  predicate IsSpace(c: char) {
    || '\U{0009}' <= c <= '\U{000D}' || c == ' ' || c == '\U{00A0}' || c == '\U{1680}' || '\U{2000}' <= c <= '\U{200A}'
    || c == '\U{2028}' || c == '\U{2029}' || c == '\U{202F}' || c == '\U{205F}' || c == '\U{3000}'
  }

  /** Removed by Rust alone. */
  const NEXT_LINE := '\U{0085}'

  /** Removed by JavaScript alone. */
  const BYTE_ORDER_MARK := '\U{FEFF}'

  // ── Bytes as numbers (the source's `as usize` and `as u8` casts) ───────────

  function BitValue(b: u8, mask: u8, weight: nat): nat { if b & mask != 0 then weight else 0 }

  /** The number a nibble stands for; bits above the nibble are ignored. */
  function NibbleValue(x: u8): (v: nat)
    ensures v < 16
  {
    BitValue(x, 8, 8) + BitValue(x, 4, 4) + BitValue(x, 2, 2) + BitValue(x, 1, 1)
  }

  function Nibble(v: nat): (x: u8)
    requires v < 16
    ensures x & 0xF0 == 0
  {
    (if v / 8 % 2 == 1 then 8 else 0) | (if v / 4 % 2 == 1 then 4 else 0)
    | (if v / 2 % 2 == 1 then 2 else 0) | (if v % 2 == 1 then 1 else 0)
  }

  function HighNibble(b: u8): u8 { b >> 4 }

  function LowNibble(b: u8): u8 { b & 0x0F }

  function Pack(hi: u8, lo: u8): u8 { (hi << 4) | lo }

  function Value(b: u8): (v: nat)
    ensures v < 256
  {
    16 * NibbleValue(HighNibble(b)) + NibbleValue(LowNibble(b))
  }

  function Byte(v: nat): u8
    requires v < 256
  {
    Pack(Nibble(v / 16), Nibble(v % 16))
  }

  lemma NibbleRoundTrip(v: nat)
    requires v < 16
    ensures NibbleValue(Nibble(v)) == v
  {}

  lemma NibbleOfValue(x: u8)
    requires x & 0xF0 == 0
    ensures Nibble(NibbleValue(x)) == x
  {}

  lemma PackNibbles(hi: u8, lo: u8)
    requires hi & 0xF0 == 0 && lo & 0xF0 == 0
    ensures HighNibble(Pack(hi, lo)) == hi && LowNibble(Pack(hi, lo)) == lo
  {}

  lemma SplitNibbles(b: u8)
    ensures Pack(HighNibble(b), LowNibble(b)) == b
    ensures HighNibble(b) & 0xF0 == 0 && LowNibble(b) & 0xF0 == 0
  {}

  lemma ValueOfByte(v: nat)
    requires v < 256
    ensures Value(Byte(v)) == v
  {
    hide Nibble; hide NibbleValue; hide Pack; hide HighNibble; hide LowNibble;
    NibbleRoundTrip(v / 16);
    NibbleRoundTrip(v % 16);
    PackNibbles(Nibble(v / 16), Nibble(v % 16));
  }

  lemma ByteOfValue(b: u8)
    ensures Byte(Value(b)) == b
  {
    hide Nibble; hide NibbleValue; hide Pack; hide HighNibble; hide LowNibble;
    SplitNibbles(b);
    NibbleOfValue(HighNibble(b));
    NibbleOfValue(LowNibble(b));
  }
}
