/** The IP class: an IPv4 network layer between a link layer that sends frames to
    next hops and a TCP receiver. It builds datagrams for outgoing segments, hands
    datagrams addressed to the local host up, forwards the others with TTL - 1 by
    the longest-prefix route, and answers an expiring TTL with ICMP Time Exceeded. */
module IpLayer {
  import opened Common
  import opened Datagram
  import opened Routing
  import Icmp

  /** The exceptions the class lets escape. */
  datatype Error =
    | TruncatedHeader  // struct.unpack of fewer than 20 bytes
    | NoAddress        // str2addr(None): a local address or next hop that is not set
    | FieldOverflow    // struct.pack of a field wider than its format

  /** A call `enlace.enviar(datagrama, next_hop)`; the next hop is None when no
      route matched. */
  datatype Frame = Frame(datagram: seq<Byte>, nextHop: Option<Addr>)

  /** A call `callback(src_addr, dst_addr, payload)`. */
  datatype Delivery = Delivery(src: Addr, dst: Addr, segment: seq<Byte>)

  /** The header of a datagram built for a local TCP segment (no prev_exec):
      version 4 and IHL 5, TTL 64, protocol 6, the identification counter. */
  function FreshFields(id: int, segmentLength: nat, src: Addr, dst: Addr): Fields {
    Fields(0x45, 0, HEADER_LEN + segmentLength, id, 0, 64, IPPROTO_TCP, 0, src, dst)
  }

  /** `ttl -= 1` of buildDatagram with prev_exec. */
  function Decremented(h: Fields): Fields {
    h.(ttl := h.ttl - 1)
  }

  /** prev_exec of a forwarded datagram: its own fields, the router's counter as
      identification and a zero checksum. */
  function RelayFields(h: Fields, id: int): Fields {
    h.(identification := id, checksum := 0)
  }

  /** prev_exec of the Time Exceeded reply: version/IHL, DSCP and flags of the
      expired datagram, length of the reply, TTL 64, protocol 1. */
  function ReplyFields(h: Fields, id: int, messageLength: nat, src: Addr, dst: Addr): Fields {
    Fields(h.verIhl, h.dscpEcn, messageLength + HEADER_LEN, id, h.flagsFragment, 64,
           IPPROTO_ICMP, 0, src, dst)
  }

  /** `self.prox` after _next_hop: the matched prefix length, or as before. */
  function ProxAfter(prox: int, m: Option<Route>): int {
    if m.Some? then m.value.cidr.len else prox
  }

  /** Where the reply goes: the source itself when the route back is a /0 entry
      (`self.prox == 0`), else the route's next hop. */
  function ReplyDestination(src: Addr, back: Option<Route>): Option<Addr> {
    match back
    case Some(e) => if e.cidr.len == 0 then Some(src) else Some(e.hop)
    case None => None
  }

  /** A datagram built for a local segment has 20 + |segment| bytes, byte 0 = 0x45,
      TTL 64, protocol 6, the counter as identification, the addresses given, a
      valid header checksum and the segment unchanged after the header. */
  lemma FreshDatagramLayout(ck: seq<Byte> -> U16, id: int, segment: seq<Byte>, src: Addr, dst: Addr)
    requires 0 <= id < 0x1_0000 && HEADER_LEN + |segment| < 0x1_0000
    ensures var d := Seal(ck, FreshFields(id, |segment|, src, dst), segment);
      var h := Unpack(d);
      && |d| == HEADER_LEN + |segment| && d[HEADER_LEN..] == segment
      && d[0] == 0x45 && h.dscpEcn == 0 && h.flagsFragment == 0
      && h.totalLength == |d| && h.identification == id
      && h.ttl == 64 && h.protocol == IPPROTO_TCP
      && h.src == src && h.dst == dst
      && ChecksumHolds(ck, d)
  {
    SealLayout(ck, FreshFields(id, |segment|, src, dst), segment);
  }

  /** A forwarded datagram keeps every field of the original except TTL, which is
      one less, identification, which is the router's counter, and the checksum,
      which is valid again; the payload is unchanged. */
  lemma RelayedDatagramLayout(ck: seq<Byte> -> U16, original: seq<Byte>, id: int)
    requires |original| >= HEADER_LEN && Unpack(original).ttl > 1 && 0 <= id < 0x1_0000
    ensures var h := Unpack(original);
      var d := Seal(ck, Decremented(RelayFields(h, id)), original[HEADER_LEN..]);
      && d[HEADER_LEN..] == original[HEADER_LEN..]
      && Unpack(d) == h.(identification := id, ttl := h.ttl - 1, checksum := Unpack(d).checksum)
      && ChecksumHolds(ck, d)
  {
    var h := Unpack(original);
    SealLayout(ck, Decremented(RelayFields(h, id)), original[HEADER_LEN..]);
  }

  /** The Time Exceeded reply is protocol 1 with TTL 63 (64 passed in, then
      decremented), its true length, the given addresses and identification, the
      expired datagram's version/IHL, DSCP and flags, a valid checksum and the
      ICMP message as payload; it differs from the expired datagram, whose TTL is
      at most 1. */
  lemma TimeExceededReplyLayout(ck: seq<Byte> -> U16, original: seq<Byte>, id: int, src: Addr, dst: Addr)
    requires |original| >= HEADER_LEN && Unpack(original).ttl <= 1 && 0 <= id < 0x1_0000
    ensures var h := Unpack(original);
      var m := Icmp.TimeExceeded(ck, original);
      var d := Seal(ck, Decremented(ReplyFields(h, id, |m|, src, dst)), m);
      var r := Unpack(d);
      && d[HEADER_LEN..] == m
      && r.protocol == IPPROTO_ICMP && r.ttl == 63
      && r.totalLength == |d| == HEADER_LEN + |m|
      && r.identification == id && r.src == src && r.dst == dst
      && r.verIhl == h.verIhl && r.dscpEcn == h.dscpEcn && r.flagsFragment == h.flagsFragment
      && ChecksumHolds(ck, d)
      && d != original
  {
    var h := Unpack(original);
    var m := Icmp.TimeExceeded(ck, original);
    Icmp.TimeExceededLayout(ck, original);
    var d := Seal(ck, Decremented(ReplyFields(h, id, |m|, src, dst)), m);
    SealLayout(ck, Decremented(ReplyFields(h, id, |m|, src, dst)), m);
    assert Unpack(d).ttl != h.ttl;
  }

  class IP {
    /** calc_checksum of the utilities module, not modelled: any function. */
    const checksum: seq<Byte> -> U16
    /** meu_endereco: None until definir_endereco_host. */
    var localAddr: Option<Addr>
    /** Whether the registered callback is a function rather than None. */
    var receiverRegistered: bool
    /** The identification counter; grows by each locally built datagram's length. */
    var id: nat
    /** tabela_encaminhamento: a dictionary, as its entries in insertion order. */
    var table: seq<Route>
    /** Prefix length of the last match of _next_hop; -1 for none yet. */
    var prox: int
    /** Every call of the link layer's send, in order. */
    ghost var sent: seq<Frame>
    /** Every call of the callback, in order. */
    ghost var delivered: seq<Delivery>

    /** The table is a dictionary whose keys are in non-increasing prefix length. */
    ghost predicate Valid()
      reads this
    {
      UniqueKeys(table) && SortedByLen(table)
    }

    constructor (checksum: seq<Byte> -> U16)
      ensures Valid()
      ensures this.checksum == checksum
      ensures localAddr == None && !receiverRegistered && id == 0 && table == [] && prox == -1
      ensures sent == [] && delivered == []
    {
      this.checksum := checksum;
      localAddr := None;
      receiverRegistered := false;
      id := 0;
      table := [];
      prox := -1;
      sent := [];
      delivered := [];
    }

    /** definir_endereco_host. */
    method SetLocalAddress(a: Addr)
      modifies this`localAddr
      ensures localAddr == Some(a)
    {
      localAddr := Some(a);
    }

    /** registrar_recebedor, for a callback that is a function (present) or None. */
    method RegisterReceiver(present: bool)
      modifies this`receiverRegistered
      ensures receiverRegistered == present
    {
      receiverRegistered := present;
    }

    /** definir_tabela_encaminhamento: clears the table, sorts the caller's list in
        place, stably, by descending prefix length, and stores its entries in that
        order. */
    method SetForwardingTable(entries: array<Route>)
      modifies this`table, entries
      ensures Valid()
      ensures entries[..] == SortByPrefix(old(entries[..]))
      ensures table == BuildTable(entries[..])
    {
      table := [];
      SortEntries(entries);
      var i := 0;
      while i < entries.Length
        invariant 0 <= i <= entries.Length
        invariant entries[..] == SortByPrefix(old(entries[..]))
        invariant table == BuildTable(entries[..i])
      {
        assert entries[..i + 1][..i] == entries[..i];
        table := Put(table, entries[i]);
        i := i + 1;
      }
      assert entries[..i] == entries[..];
      InstalledTable(old(entries[..]));
    }

    /** `tabela.sort(key = get_prefix_length, reverse = True)` on the caller's list. */
    static method SortEntries(entries: array<Route>)
      modifies entries
      ensures entries[..] == SortByPrefix(old(entries[..]))
    {
      ghost var original := entries[..];
      var sorted := SortByPrefix(entries[..]);
      SortByPrefixPermutes(entries[..]);
      assert |sorted| == entries.Length by {
        assert |multiset(sorted)| == |multiset(original)|;
      }
      for k := 0 to entries.Length
        invariant entries[..k] == sorted[..k]
      {
        entries[k] := sorted[k];
      }
      assert entries[..] == entries[..entries.Length];
    }

    /** _next_hop: the next hop of the first entry, in table order, whose CIDR
        matches the address; the matched prefix length goes to prox. */
    method NextHop(a: Addr) returns (hop: Option<Addr>)
      modifies this`prox
      ensures hop == Resolve(table, a)
      ensures prox == ProxAfter(old(prox), Lookup(table, a))
      ensures Valid() && hop.Some? ==> forall e :: e in table && Matches(e.cidr, a) ==> e.cidr.len <= prox
    {
      var t := table;
      var i := 0;
      while i < |t|
        invariant 0 <= i <= |t|
        invariant Lookup(t, a) == Lookup(t[i..], a)
      {
        var c := t[i].cidr;
        var shift := 32 - c.len;
        if ClearLow(c.addr, shift) == ClearLow(a, shift) {
          prox := c.len;
          if Valid() {
            LookupLongest(t, a);
          }
          return Some(t[i].hop);
        }
        assert t[i..][1..] == t[i + 1..];
        i := i + 1;
      }
      return None;
    }

    /** buildDatagram. Without prev the header is a fresh one and the counter grows
        by its length before packing; with prev, prev is packed with TTL - 1 and
        the counter is left alone. Packing fails when a field does not fit. */
    method BuildDatagram(segment: seq<Byte>, dest: Option<Addr>, prev: Option<Fields>)
      returns (r: Result<seq<Byte>, Error>)
      modifies this`id
      ensures prev.None? && (localAddr.None? || dest.None?) ==>
        r == Failure(NoAddress) && id == old(id)
      ensures prev.None? && localAddr.Some? && dest.Some? ==>
        && id == old(id) + HEADER_LEN + |segment|
        && (r.Success? <==> old(id) < 0x1_0000 && HEADER_LEN + |segment| < 0x1_0000)
        && (r.Success? ==> r.value == Seal(checksum, FreshFields(old(id), |segment|, localAddr.value, dest.value), segment))
        && (r.Failure? ==> r.error == FieldOverflow)
      ensures prev.Some? ==>
        && id == old(id)
        && (r.Success? <==> Packable(Decremented(prev.value)))
        && (r.Success? ==> r.value == Seal(checksum, Decremented(prev.value), segment))
        && (r.Failure? ==> r.error == FieldOverflow)
    {
      var h: Fields;
      if prev.None? {
        if localAddr.None? || dest.None? {
          return Failure(NoAddress);
        }
        h := FreshFields(id, |segment|, localAddr.value, dest.value);
        id := id + h.totalLength;
      } else {
        h := Decremented(prev.value);
      }
      if !Packable(h) {
        return Failure(FieldOverflow);
      }
      var header := Pack(h);
      var c := checksum(header);
      header := Pack(h.(checksum := c));
      r := Success(header + segment);
    }

    /** enviar: resolve the next hop, build a fresh datagram and hand it to the
        link layer, even when no route matched. */
    method Send(segment: seq<Byte>, dest: Addr) returns (r: Outcome<Error>)
      modifies this`prox, this`id, this`sent
      ensures prox == ProxAfter(old(prox), Lookup(table, dest))
      ensures localAddr.None? ==> r == Fail(NoAddress) && id == old(id) && sent == old(sent)
      ensures localAddr.Some? ==>
        && id == old(id) + HEADER_LEN + |segment|
        && (r.Pass? <==> old(id) < 0x1_0000 && HEADER_LEN + |segment| < 0x1_0000)
        && (r.Fail? ==> r.error == FieldOverflow)
        && sent == old(sent) + if r.Fail? then [] else
             [Frame(Seal(checksum, FreshFields(old(id), |segment|, localAddr.value, dest), segment),
                    Resolve(table, dest))]
    {
      var nextHop := NextHop(dest);
      var built := BuildDatagram(segment, Some(dest), None);
      if built.Failure? {
        return Fail(built.error);
      }
      sent := sent + [Frame(built.value, nextHop)];
      r := Pass;
    }

    /** __raw_recv: the link layer's entry point for every incoming datagram. */
    method Receive(d: seq<Byte>) returns (r: Outcome<Error>)
      modifies this`prox, this`id, this`sent, this`delivered
      ensures id == old(id)
      // Fewer than 20 bytes: unpacking fails and nothing happens.
      ensures |d| < HEADER_LEN ==>
        r == Fail(TruncatedHeader) && prox == old(prox) && sent == old(sent) && delivered == old(delivered)
      // Host: nothing is sent; a TCP payload goes up once if a callback is set.
      ensures |d| >= HEADER_LEN && localAddr == Some(Unpack(d).dst) ==>
        var h := Unpack(d);
        && r == Pass && prox == old(prox) && sent == old(sent)
        && delivered == old(delivered) +
             if h.protocol == IPPROTO_TCP && receiverRegistered
             then [Delivery(h.src, h.dst, d[HEADER_LEN..])] else []
      // Router, TTL > 1: forward with TTL - 1 and the counter as identification.
      ensures |d| >= HEADER_LEN && localAddr != Some(Unpack(d).dst) && Unpack(d).ttl > 1 ==>
        var h := Unpack(d);
        && delivered == old(delivered)
        && prox == ProxAfter(-1, Lookup(table, h.dst))
        && (r.Pass? <==> id < 0x1_0000)
        && (r.Fail? ==> r.error == FieldOverflow)
        && sent == old(sent) + if r.Fail? then [] else
             [Frame(Seal(checksum, Decremented(RelayFields(h, id)), d[HEADER_LEN..]), Resolve(table, h.dst))]
      // Router, TTL <= 1: one Time Exceeded reply towards the source, never the datagram.
      ensures |d| >= HEADER_LEN && localAddr != Some(Unpack(d).dst) && Unpack(d).ttl <= 1 ==>
        var h := Unpack(d);
        var back := Lookup(table, h.src);
        var dest := ReplyDestination(h.src, back);
        var m := Icmp.TimeExceeded(checksum, d);
        && delivered == old(delivered)
        && prox == ProxAfter(-1, back)
        && (r.Pass? <==> localAddr.Some? && dest.Some? && id < 0x1_0000)
        && (r.Fail? ==> r.error == if localAddr.Some? && dest.Some? then FieldOverflow else NoAddress)
        && sent == old(sent) + if r.Fail? then [] else
             [Frame(Seal(checksum, Decremented(ReplyFields(h, id, |m|, localAddr.value, dest.value)), m),
                    Resolve(table, h.src))]
    {
      if |d| < HEADER_LEN {
        return Fail(TruncatedHeader);
      }
      var h := Unpack(d);
      var payload := d[HEADER_LEN..];
      if localAddr == Some(h.dst) {
        if h.protocol == IPPROTO_TCP && receiverRegistered {
          delivered := delivered + [Delivery(h.src, h.dst, payload)];
        }
        return Pass;
      }
      prox := -1;
      var nextHop := NextHop(h.dst);
      var prev := RelayFields(h, id);
      if h.ttl > 1 {
        var built := BuildDatagram(payload, None, Some(prev));
        if built.Failure? {
          return Fail(built.error);
        }
        sent := sent + [Frame(built.value, nextHop)];
        return Pass;
      }
      prox := -1;
      nextHop := NextHop(h.src);
      var dest := nextHop;
      if prox == 0 {
        dest := Some(h.src);
      }
      if localAddr.None? || dest.None? {
        return Fail(NoAddress);
      }
      var message := Icmp.TimeExceeded(checksum, d);
      prev := ReplyFields(h, id, |message|, localAddr.value, dest.value);
      var built := BuildDatagram(message, None, Some(prev));
      if built.Failure? {
        return Fail(built.error);
      }
      sent := sent + [Frame(built.value, nextHop)];
      r := Pass;
    }
  }
}
