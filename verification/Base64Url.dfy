/** Decoding of the middle segment of a token: base64url without padding. */
module Base64Url {
  import opened Wire

  // ── The decoder ────────────────────────────────────────────────────────────

  /** From the URL alphabet to the standard one. */
  function Standard(c: u8): u8 { if c == 0x2D then 0x2B else if c == 0x5F then 0x2F else c }

  /** Six bits, 64 for the padding sign, 255 for anything else. */
  function CodeOf(c: u8): u8 {
    if 0x41 <= c <= 0x5A then c - 0x41
    else if 0x61 <= c <= 0x7A then c - 0x61 + 26
    else if 0x30 <= c <= 0x39 then c - 0x30 + 52
    else if c == 0x2B then 62 else if c == 0x2F then 63
    else if c == 0x3D then 64 else 255
  }

  function First(a: u8, b: u8): u8 { (a << 2) | (b >> 4) }

  function Second(b: u8, c: u8): u8 { (b << 4) | (c >> 2) }

  function Third(c: u8, d: u8): u8 { (c << 6) | d }

  function Chunk(v: seq<u8>): Option<seq<u8>>
    requires |v| == 4
  {
    if v[0] == 255 || v[1] == 255 || v[2] == 255 || v[3] == 255 then None
    else Some([First(v[0], v[1])] + (if v[2] != 64 then [Second(v[1], v[2])] else [])
              + (if v[3] != 64 then [Third(v[2], v[3])] else []))
  }

  function Codes(group: seq<u8>): (v: seq<u8>)
    requires |group| == 4
    ensures |v| == 4
  {
    [CodeOf(group[0]), CodeOf(group[1]), CodeOf(group[2]), CodeOf(group[3])]
  }

  function Join(a: Option<seq<u8>>, b: Option<seq<u8>>): Option<seq<u8>> {
    if a.None? || b.None? then None else Some(a.value + b.value)
  }

  /** What groups of four decode to, one after the other. */
  function Chunks(p: seq<u8>): Option<seq<u8>> {
    if p == [] then Some([]) else if |p| < 4 then None else Join(Chunk(Codes(p[..4])), Chunks(p[4..]))
  }

  function Standardised(s: seq<u8>): (r: seq<u8>)
    ensures |r| == |s|
  {
    seq(|s|, i requires 0 <= i < |s| => Standard(s[i]))
  }

  /** The padding signs a text of this length was sent without; no text is one over. */
  function Padding(n: nat): (r: Option<seq<u8>>)
    ensures r.Some? <==> n % 4 != 1
    ensures r.Some? ==> (n + |r.value|) % 4 == 0
  {
    if n % 4 == 0 then Some([]) else if n % 4 == 2 then Some([0x3D, 0x3D]) else if n % 4 == 3 then Some([0x3D]) else None
  }

  function Decoded(s: seq<u8>): Option<seq<u8>> {
    var padding := Padding(|s|);
    if padding.None? then None else Chunks(Standardised(s) + padding.value)
  }

  method Decode(s: seq<u8>) returns (r: Option<seq<u8>>)
    ensures r == Decoded(s)
  {
    var padding := Padding(|s|);
    if padding.None? {
      return None;
    }
    var padded := Standardised(s) + padding.value;
    hide Chunks; hide Standardised; hide Padding;
    r := DecodeGroups(padded);
  }

  method DecodeGroups(padded: seq<u8>) returns (r: Option<seq<u8>>)
    ensures r == Chunks(padded)
  {
    var out, i := [], 0;
    JoinLaws([], [], Chunks(padded));
    assert padded[i..] == padded;
    while i < |padded|
      invariant 0 <= i <= |padded| && Chunks(padded) == Join(Some(out), Chunks(padded[i..]))
    {
      hide Chunk; hide Codes;
      if |padded| - i < 4 {
        return None;
      }
      DecodeStep(padded, i, out);
      hide Chunks; hide Join;
      var next := Chunk(Codes(padded[i..][..4]));
      if next.None? {
        return None;
      }
      out := out + next.value;
      i := i + 4;
    }
    Finished(padded, i, out);
    return Some(out);
  }

  lemma DecodeStep(padded: seq<u8>, i: nat, out: seq<u8>)
    requires i + 4 <= |padded|
    ensures var next := Chunk(Codes(padded[i..][..4]));
            Join(Some(out), Chunks(padded[i..]))
            == if next.None? then None else Join(Some(out + next.value), Chunks(padded[i + 4..]))
  {
    hide Chunk; hide Codes;
    var next := Chunk(Codes(padded[i..][..4]));
    assert padded[i..][4..] == padded[i + 4..];
    if next.Some? {
      JoinLaws(out, next.value, Chunks(padded[i + 4..]));
    }
  }

  lemma Finished(padded: seq<u8>, i: nat, out: seq<u8>)
    requires i == |padded|
    ensures Join(Some(out), Chunks(padded[i..])) == Some(out)
  {
    assert padded[i..] == [] && out + [] == out;
  }

  lemma JoinLaws(a: seq<u8>, b: seq<u8>, c: Option<seq<u8>>)
    ensures Join(Some(a), Join(Some(b), c)) == Join(Some(a + b), c) && Join(Some([]), c) == c
  {
    if c.Some? {
      assert a + (b + c.value) == (a + b) + c.value && [] + c.value == c.value;
    }
  }

  // ── What the decoder refuses ───────────────────────────────────────────────

  /** Letters, digits, the signs of both alphabets and the padding sign. */
  predicate IsTokenChar(c: u8) {
    || 0x41 <= c <= 0x5A || 0x61 <= c <= 0x7A || 0x30 <= c <= 0x39
    || c == 0x2B || c == 0x2F || c == 0x2D || c == 0x5F || c == 0x3D
  }

  lemma CodedIff(c: u8)
    ensures CodeOf(Standard(c)) != 255 <==> IsTokenChar(c)
    ensures CodeOf(0x3D) != 255
  {}

  ghost predicate AllCoded(p: seq<u8>) { forall i | 0 <= i < |p| :: CodeOf(p[i]) != 255 }

  lemma GroupFails(g: seq<u8>)
    requires |g| == 4
    ensures Chunk(Codes(g)).Some? <==> AllCoded(g)
  {
    hide CodeOf; hide First; hide Second; hide Third;
    assert AllCoded(g) <==> CodeOf(g[0]) != 255 && CodeOf(g[1]) != 255 && CodeOf(g[2]) != 255 && CodeOf(g[3]) != 255;
  }

  lemma {:induction false} ChunksFail(p: seq<u8>)
    requires |p| % 4 == 0
    ensures Chunks(p).Some? <==> AllCoded(p)
    decreases |p|
  {
    hide CodeOf; hide Chunk; hide Codes;
    if p != [] {
      GroupFails(p[..4]);
      ChunksFail(p[4..]);
      forall i | 0 <= i < |p| ensures p[i] == if i < 4 then p[..4][i] else p[4..][i - 4] {
      }
      assert AllCoded(p) <==> AllCoded(p[..4]) && AllCoded(p[4..]);
    }
  }

  /** A text is refused exactly when its length leaves one over a multiple of four or a
      character belongs to neither alphabet. */
  lemma DecodeFailsIff(s: seq<u8>)
    ensures Decoded(s).None? <==> |s| % 4 == 1 || exists i | 0 <= i < |s| :: !IsTokenChar(s[i])
  {
    var padding := Padding(|s|);
    if padding.Some? {
      var p := Standardised(s) + padding.value;
      ChunksFail(p);
      assert forall i | |s| <= i < |p| :: p[i] == 0x3D;
      CodedIff(0x3D);
      forall i | 0 <= i < |s| ensures CodeOf(p[i]) != 255 <==> IsTokenChar(s[i]) {
        CodedIff(s[i]);
      }
      hide CodeOf; hide Standard; hide Chunks; hide IsTokenChar;
    }
  }

  // ── The encoding of section 5 of RFC 4648, without padding ─────────────────

  function CharOf(v: u8): u8 {
    if v < 26 then v + 0x41 else if v < 52 then v + 71 else if v < 62 then v - 4 else if v == 62 then 0x2D else 0x5F
  }

  function Bits0(x: u8): u8 { x >> 2 }

  function Bits1(x: u8, y: u8): u8 { ((x & 3) << 4) | (y >> 4) }

  function Bits2(y: u8, z: u8): u8 { ((y & 15) << 2) | (z >> 6) }

  function Bits3(z: u8): u8 { z & 63 }

  function Group(x: u8, y: u8, z: u8): (g: seq<u8>)
    ensures |g| == 4
  {
    [CharOf(Bits0(x)), CharOf(Bits1(x, y)), CharOf(Bits2(y, z)), CharOf(Bits3(z))]
  }

  function Encode(bytes: seq<u8>): seq<u8> {
    if |bytes| == 0 then []
    else if |bytes| == 1 then Group(bytes[0], 0, 0)[..2]
    else if |bytes| == 2 then Group(bytes[0], bytes[1], 0)[..3]
    else Group(bytes[0], bytes[1], bytes[2]) + Encode(bytes[3..])
  }

  predicate Six(v: u8) { v < 64 }

  lemma BitsFit(x: u8, y: u8, z: u8)
    ensures Six(Bits0(x)) && Six(Bits1(x, y)) && Six(Bits2(y, z)) && Six(Bits3(z))
  {}

  lemma SixIsPlain(v: u8)
    requires Six(v)
    ensures v != 64 && v != 255
  {}

  lemma CharDecodes(v: u8)
    requires Six(v)
    ensures CodeOf(Standard(CharOf(v))) == v
  {}

  lemma BitsJoin(x: u8, y: u8, z: u8)
    ensures First(Bits0(x), Bits1(x, y)) == x && Second(Bits1(x, y), Bits2(y, z)) == y && Third(Bits2(y, z), Bits3(z)) == z
  {}

  /** The codes of an encoded group are its four six-bit parts again. */
  lemma GroupDecodes(x: u8, y: u8, z: u8)
    ensures Codes(Standardised(Group(x, y, z))) == [Bits0(x), Bits1(x, y), Bits2(y, z), Bits3(z)]
  {
    hide Bits0; hide Bits1; hide Bits2; hide Bits3; hide CharOf; hide CodeOf; hide Standard; hide Six;
    BitsFit(x, y, z);
    CharDecodes(Bits0(x));
    CharDecodes(Bits1(x, y));
    CharDecodes(Bits2(y, z));
    CharDecodes(Bits3(z));
  }

  lemma ChunkJoins(x: u8, y: u8, z: u8)
    ensures Chunk([Bits0(x), Bits1(x, y), Bits2(y, z), Bits3(z)]) == Some([x, y, z])
    ensures Chunk([Bits0(x), Bits1(x, y), Bits2(y, z), 64]) == Some([x, y])
    ensures Chunk([Bits0(x), Bits1(x, y), 64, 64]) == Some([x])
  {
    hide Bits0; hide Bits1; hide Bits2; hide Bits3; hide First; hide Second; hide Third; hide Six;
    BitsFit(x, y, z);
    BitsJoin(x, y, z);
    SixIsPlain(Bits0(x));
    SixIsPlain(Bits1(x, y));
    SixIsPlain(Bits2(y, z));
    SixIsPlain(Bits3(z));
    assert [x] + [y] + [z] == [x, y, z] && [x] + [y] + [] == [x, y] && [x] + [] + [] == [x];
  }

  lemma OneGroup(p: seq<u8>)
    requires |p| == 4
    ensures Chunks(p) == Chunk(Codes(p))
  {
    hide Chunk; hide Codes;
    assert p[..4] == p && p[4..] == [];
    var c := Chunk(Codes(p));
    if c.Some? {
      assert c.value + [] == c.value;
    }
  }

  lemma OneByte(x: u8)
    ensures Decoded(Encode([x])) == Some([x])
  {
    var g := Group(x, 0, 0);
    GroupDecodes(x, 0, 0);
    ChunkJoins(x, 0, 0);
    assert CodeOf(0x3D) == 64;
    hide Bits0; hide Bits1; hide Bits2; hide Bits3; hide Chunk; hide CharOf; hide CodeOf; hide Standard;
    var p := Standardised(g[..2]) + [0x3D, 0x3D];
    OneGroup(p);
    assert Codes(p) == Codes(Standardised(g))[..2] + [64, 64];
  }

  lemma TwoBytes(x: u8, y: u8)
    ensures Decoded(Encode([x, y])) == Some([x, y])
  {
    var g := Group(x, y, 0);
    GroupDecodes(x, y, 0);
    ChunkJoins(x, y, 0);
    assert CodeOf(0x3D) == 64;
    hide Bits0; hide Bits1; hide Bits2; hide Bits3; hide Chunk; hide CharOf; hide CodeOf; hide Standard;
    var p := Standardised(g[..3]) + [0x3D];
    OneGroup(p);
    assert Codes(p) == Codes(Standardised(g))[..3] + [64];
  }

  lemma GroupThenRest(x: u8, y: u8, z: u8, tail: seq<u8>, rest: seq<u8>)
    requires Decoded(tail) == Some(rest)
    ensures Decoded(Group(x, y, z) + tail) == Some([x, y, z] + rest)
  {
    var g := Group(x, y, z);
    GroupDecodes(x, y, z);
    ChunkJoins(x, y, z);
    hide Group; hide Bits0; hide Bits1; hide Bits2; hide Bits3; hide Chunk; hide Codes; hide Standard;
    var padding := Padding(|tail|);
    var p := Standardised(g + tail) + padding.value;
    assert p[..4] == Standardised(g) && p[4..] == Standardised(tail) + padding.value && |p| >= 4;
  }

  /** Every byte string is what decoding its unpadded encoding returns. */
  lemma {:induction false} RoundTrip(bytes: seq<u8>)
    ensures Decoded(Encode(bytes)) == Some(bytes)
    decreases |bytes|
  {
    hide Group; hide Chunks; hide Standardised;
    if |bytes| == 0 {
      NoBytes();
    } else if |bytes| == 1 {
      OneByte(bytes[0]);
      assert bytes == [bytes[0]];
    } else if |bytes| == 2 {
      TwoBytes(bytes[0], bytes[1]);
      assert bytes == [bytes[0], bytes[1]];
    } else {
      var rest := bytes[3..];
      RoundTrip(rest);
      GroupThenRest(bytes[0], bytes[1], bytes[2], Encode(rest), rest);
      hide Decoded;
      assert bytes == [bytes[0], bytes[1], bytes[2]] + rest;
    }
  }

  lemma NoBytes()
    ensures Decoded([]) == Some([])
  {
    assert Standardised([]) + [] == [];
  }
}
