/**
 ISO BMFF boxes as bytes (section 4.2 of ISO/IEC 14496-12): a 32-bit big-endian size that counts the
 8-byte header, a four-character type, and the body.
 */
module Boxes {
  import opened Frames

  const HEADER_SIZE := 8
  const MAX_BOX_SIZE := 64 * 1024 * 1024

  const MOOV: seq<Byte> := [0x6d, 0x6f, 0x6f, 0x76]
  const MOOF: seq<Byte> := [0x6d, 0x6f, 0x6f, 0x66]
  const MDAT: seq<Byte> := [0x6d, 0x64, 0x61, 0x74]

  /** binary.BigEndian.Uint32 of the first four bytes. */
  function Uint32(s: seq<Byte>): (n: nat)
    requires |s| >= 4
  {
    16777216 * (s[0] as int) + 65536 * (s[1] as int) + 256 * (s[2] as int) + s[3] as int
  }

  function PutUint32(n: nat): (s: seq<Byte>)
    ensures |s| == 4
  {
    [n / 16777216 % 256, n / 65536 % 256, n / 256 % 256, n % 256]
  }

  lemma Uint32RoundTrip(n: nat)
    requires n < 0x1_0000_0000
    ensures Uint32(PutUint32(n)) == n
  {
    var a := n / 256;
    var b := a / 256;
    assert n == a * 256 + n % 256;
    assert a == b * 256 + a % 256;
    assert b == b / 256 * 256 + b % 256;
    assert n / 65536 == b && n / 16777216 == b / 256;
  }

  lemma Uint32Inverse(s: seq<Byte>)
    requires |s| == 4
    ensures Uint32(s) < 0x1_0000_0000 && PutUint32(Uint32(s)) == s
  {
    var n := Uint32(s);
    var hi: int, mh: int, ml: int, lo: int := s[0], s[1], s[2], s[3];
    assert n / 256 == 65536 * hi + 256 * mh + ml;
    assert n / 65536 == 256 * hi + mh;
    assert n / 16777216 == hi;
  }

  datatype Box = Box(typ: seq<Byte>, body: seq<Byte>)

  /** A box every walker of this system accepts: four-byte type, total size at most 64 MB. */
  ghost predicate Fits(b: Box) {
    |b.typ| == 4 && HEADER_SIZE + |b.body| <= MAX_BOX_SIZE
  }

  function Size(b: Box): nat {
    HEADER_SIZE + |b.body|
  }

  function Encode(b: Box): (s: seq<Byte>) {
    PutUint32(Size(b)) + b.typ + b.body
  }

  function EncodeAll(bs: seq<Box>): (s: seq<Byte>) {
    if bs == [] then [] else Encode(bs[0]) + EncodeAll(bs[1..])
  }

  lemma {:induction false} EncodeAllConcat(a: seq<Box>, b: seq<Box>)
    ensures EncodeAll(a + b) == EncodeAll(a) + EncodeAll(b)
  {
    if a == [] {
      assert a + b == b;
    } else {
      assert (a + b)[1..] == a[1..] + b;
      EncodeAllConcat(a[1..], b);
    }
  }

  /** readBoxHeader at the start of `s`: fails on fewer than eight bytes. */
  datatype Header = NoHeader | Header(typ: seq<Byte>, size: nat)

  function ReadHeader(s: seq<Byte>): (h: Header)
    ensures h.NoHeader? <==> |s| < HEADER_SIZE
    ensures h.Header? ==> |h.typ| == 4
  {
    if |s| < HEADER_SIZE then NoHeader else Header(s[4..8], Uint32(s))
  }

  /** Reading the header of an encoded box gives back its type and its length in bytes. */
  lemma HeaderOfEncoded(b: Box, rest: seq<Byte>)
    requires |b.typ| == 4 && Size(b) < 0x1_0000_0000
    ensures |Encode(b)| == Size(b)
    ensures ReadHeader(Encode(b) + rest) == Header(b.typ, Size(b))
    ensures (Encode(b) + rest)[..Size(b)] == Encode(b)
    ensures (Encode(b) + rest)[Size(b)..] == rest
  {
    var s := Encode(b) + rest;
    assert s[4..8] == b.typ;
    Uint32RoundTrip(Size(b));
    assert s[..4] == PutUint32(Size(b));
  }

  /** A cut that leaves at least the header of a box still shows its type and full size. */
  lemma HeaderOfTorn(b: Box, n: nat)
    requires |b.typ| == 4 && Size(b) < 0x1_0000_0000 && n < Size(b)
    ensures |Encode(b)| == Size(b)
    ensures ReadHeader(Encode(b)[..n]) == if n < HEADER_SIZE then NoHeader else Header(b.typ, Size(b))
  {
    HeaderOfEncoded(b, []);
    var s := Encode(b);
    assert s + [] == s;
    if n >= HEADER_SIZE {
      assert s[..n][4..8] == s[4..8];
    }
  }
}
