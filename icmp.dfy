/** The ICMP Time Exceeded message of RFC 792 as the router path of the IP class
    builds it: type, code, checksum, four unused bytes, then the start of the
    expired datagram. */
module Icmp {
  import opened Datagram

  const TIME_EXCEEDED := 0x0B
  const TTL_EXCEEDED_IN_TRANSIT := 0

  /** 8 + 4 * IHL: the datagram's header, by its own IHL, plus 64 bits of data. */
  function QuotedLength(original: seq<Byte>): nat
    requires |original| >= HEADER_LEN
  {
    8 + 4 * (original[0] % 16)
  }

  /** `datagrama[:tam]`: the slice stops at the end of a shorter datagram. */
  function Quoted(original: seq<Byte>): seq<Byte>
    requires |original| >= HEADER_LEN
  {
    var tam := QuotedLength(original);
    if tam <= |original| then original[..tam] else original
  }

  /** struct.pack('!BBHI', type, code, checksum, unused) + datagrama[:tam], once
      with a zero checksum to compute it and once with the result. */
  function TimeExceeded(ck: seq<Byte> -> U16, original: seq<Byte>): seq<Byte>
    requires |original| >= HEADER_LEN
  {
    var quoted := Quoted(original);
    var c := ck([TIME_EXCEEDED, TTL_EXCEEDED_IN_TRANSIT] + Be16(0) + [0, 0, 0, 0] + quoted);
    [TIME_EXCEEDED, TTL_EXCEEDED_IN_TRANSIT] + Be16(c) + [0, 0, 0, 0] + quoted
  }

  /** The message is type 0x0B, code 0, a checksum over the message with its
      checksum bytes zeroed, four zero bytes and the first 8 + 4 * IHL bytes of the
      expired datagram (all of it when it is shorter). */
  lemma {:induction false} TimeExceededLayout(ck: seq<Byte> -> U16, original: seq<Byte>)
    requires |original| >= HEADER_LEN
    ensures var m := TimeExceeded(ck, original);
      var tam := 8 + 4 * (original[0] % 16);
      && |m| == 8 + (if tam <= |original| then tam else |original|)
      && m[0] == 0x0B && m[1] == 0
      && m[4..8] == [0, 0, 0, 0]
      && m[8..] == (if tam <= |original| then original[..tam] else original)
      && Be16Value(m[2], m[3]) == ck(m[..2] + [0, 0] + m[4..])
  {
    var m := TimeExceeded(ck, original);
    var quoted := Quoted(original);
    var c := ck([TIME_EXCEEDED, TTL_EXCEEDED_IN_TRANSIT] + Be16(0) + [0, 0, 0, 0] + quoted);
    Be16RoundTrip(c);
    assert m[..2] + [0, 0] + m[4..] == [TIME_EXCEEDED, TTL_EXCEEDED_IN_TRANSIT] + Be16(0) + [0, 0, 0, 0] + quoted;
  }

  /** For a datagram whose IHL is five words and with at least 8 payload bytes,
      the message quotes exactly its 20-byte header and 8 payload bytes. */
  lemma QuotesHeaderAnd64Bits(ck: seq<Byte> -> U16, original: seq<Byte>)
    requires |original| >= HEADER_LEN + 8 && original[0] % 16 == 5
    ensures var m := TimeExceeded(ck, original);
      |m| == 36 && m[8..] == original[..28]
  {
    TimeExceededLayout(ck, original);
  }
}
