/** The fixed 20-byte IPv4 header (section 3.1 of RFC 791) as the IP class packs it
    with Python's struct format '!BBHHHBBHII': big-endian, no options. */
module Datagram {

  type Byte = x: int | 0 <= x < 0x100
  type U16 = x: int | 0 <= x < 0x1_0000
  type Addr = x: int | 0 <= x < 0x1_0000_0000

  const HEADER_LEN := 20
  const IPPROTO_ICMP := 1
  const IPPROTO_TCP := 6

  /** Network-order encoding of a 16-bit value ('H'). */
  function Be16(x: U16): seq<Byte> {
    [x / 0x100, x % 0x100]
  }

  /** The value of two bytes in network order. */
  function Be16Value(hi: Byte, lo: Byte): U16 {
    hi * 0x100 + lo
  }

  /** Network-order encoding of a 32-bit value ('I'). */
  function Be32(x: Addr): seq<Byte> {
    Be16(x / 0x1_0000) + Be16(x % 0x1_0000)
  }

  /** The value of four bytes in network order. */
  function Be32Value(b: seq<Byte>): Addr
    requires |b| == 4
  {
    Be16Value(b[0], b[1]) * 0x1_0000 + Be16Value(b[2], b[3])
  }

  lemma Be16RoundTrip(x: U16)
    ensures |Be16(x)| == 2 && Be16Value(Be16(x)[0], Be16(x)[1]) == x
  {
  }

  lemma Be32RoundTrip(x: Addr)
    ensures |Be32(x)| == 4 && Be32Value(Be32(x)) == x
  {
    Be16RoundTrip(x / 0x1_0000);
    Be16RoundTrip(x % 0x1_0000);
  }

  /** The ten header fields in packing order. They are unbounded integers, as
      Python's are: whether they fit their widths is the question Packable asks. */
  datatype Fields = Fields(verIhl: int, dscpEcn: int, totalLength: int, identification: int,
                           flagsFragment: int, ttl: int, protocol: int, checksum: int,
                           src: int, dst: int)

  /** struct.pack raises unless every field fits its 'B', 'H' or 'I' width. */
  predicate Packable(h: Fields) {
    && 0 <= h.verIhl < 0x100
    && 0 <= h.dscpEcn < 0x100
    && 0 <= h.totalLength < 0x1_0000
    && 0 <= h.identification < 0x1_0000
    && 0 <= h.flagsFragment < 0x1_0000
    && 0 <= h.ttl < 0x100
    && 0 <= h.protocol < 0x100
    && 0 <= h.checksum < 0x1_0000
    && 0 <= h.src < 0x1_0000_0000
    && 0 <= h.dst < 0x1_0000_0000
  }

  /** struct.pack('!BBHHHBBHII', ...). */
  function Pack(h: Fields): (b: seq<Byte>)
    requires Packable(h)
    ensures |b| == HEADER_LEN
  {
    [h.verIhl, h.dscpEcn] + Be16(h.totalLength) + Be16(h.identification)
    + Be16(h.flagsFragment) + [h.ttl, h.protocol] + Be16(h.checksum)
    + Be32(h.src) + Be32(h.dst)
  }

  /** struct.unpack('!BBHHHBBHII', b[:20]). */
  function Unpack(b: seq<Byte>): (h: Fields)
    requires |b| >= HEADER_LEN
    ensures Packable(h)
  {
    Fields(b[0], b[1], Be16Value(b[2], b[3]), Be16Value(b[4], b[5]), Be16Value(b[6], b[7]),
           b[8], b[9], Be16Value(b[10], b[11]), Be32Value(b[12..16]), Be32Value(b[16..20]))
  }

  /** Unpacking a packed header gives back its fields. */
  lemma UnpackPack(h: Fields)
    requires Packable(h)
    ensures Unpack(Pack(h)) == h
  {
    var b := Pack(h);
    Be16RoundTrip(h.totalLength);
    Be16RoundTrip(h.identification);
    Be16RoundTrip(h.flagsFragment);
    Be16RoundTrip(h.checksum);
    Be32RoundTrip(h.src);
    Be32RoundTrip(h.dst);
    assert b[12..16] == Be32(h.src);
    assert b[16..20] == Be32(h.dst);
  }

  lemma Be16OfValue(hi: Byte, lo: Byte)
    ensures Be16(Be16Value(hi, lo)) == [hi, lo]
  {
  }

  lemma Be32OfValue(b: seq<Byte>)
    requires |b| == 4
    ensures Be32(Be32Value(b)) == b
  {
    var v := Be32Value(b);
    assert v / 0x1_0000 == Be16Value(b[0], b[1]);
    assert v % 0x1_0000 == Be16Value(b[2], b[3]);
    Be16OfValue(b[0], b[1]);
    Be16OfValue(b[2], b[3]);
  }

  /** Packing the fields of any 20 bytes gives back those bytes. */
  lemma PackUnpack(b: seq<Byte>)
    requires |b| == HEADER_LEN
    ensures Pack(Unpack(b)) == b
  {
    Be16OfValue(b[2], b[3]);
    Be16OfValue(b[4], b[5]);
    Be16OfValue(b[6], b[7]);
    Be16OfValue(b[10], b[11]);
    Be32OfValue(b[12..16]);
    Be32OfValue(b[16..20]);
    assert b == [b[0], b[1]] + [b[2], b[3]] + [b[4], b[5]] + [b[6], b[7]] + [b[8], b[9]]
              + [b[10], b[11]] + b[12..16] + b[16..20];
  }

  /** Lines 200-210 of buildDatagram: pack with the given checksum field, checksum
      those bytes, pack again with the result and append the segment. */
  function Seal(ck: seq<Byte> -> U16, h: Fields, segment: seq<Byte>): seq<Byte>
    requires Packable(h)
  {
    Pack(h.(checksum := ck(Pack(h)))) + segment
  }

  /** Bytes 10-11 hold the checksum of the header with those two bytes zeroed. */
  predicate ChecksumHolds(ck: seq<Byte> -> U16, d: seq<Byte>)
    requires |d| >= HEADER_LEN
  {
    Be16Value(d[10], d[11]) == ck(d[..10] + [0, 0] + d[12..HEADER_LEN])
  }

  /** A sealed datagram carries every field but the checksum unchanged, a checksum
      over its own header with the field zeroed, and the segment after the header. */
  lemma {:induction false} SealLayout(ck: seq<Byte> -> U16, h: Fields, segment: seq<Byte>)
    requires Packable(h) && h.checksum == 0
    ensures var d := Seal(ck, h, segment);
      && |d| == HEADER_LEN + |segment|
      && d[HEADER_LEN..] == segment
      && Unpack(d) == h.(checksum := ck(Pack(h)))
      && ChecksumHolds(ck, d)
  {
    var sealed := h.(checksum := ck(Pack(h)));
    var d := Seal(ck, h, segment);
    UnpackPack(sealed);
    assert d[..HEADER_LEN] == Pack(sealed);
    Be16RoundTrip(ck(Pack(h)));
    assert d[..10] + [0, 0] + d[12..HEADER_LEN] == Pack(h);
  }
}
