# IPv4 network layer (`ip.py`) in Dafny

This project models the `IP` class of `ip.py`. The class is the network layer of a
small TCP/IP stack. It sits between a link layer and a TCP receiver. It does four things:

- It builds IPv4 datagrams for outgoing TCP segments (`enviar`, `buildDatagram`). The
  header is the fixed 20-byte header of section 3.1 of RFC 791. It is packed big-endian
  with the struct format `'!BBHHHBBHII'`. The header checksum is computed over the header
  with a zero checksum field, and then the header is packed again with the result.
- It keeps a forwarding table (`definir_tabela_encaminhamento`). Installing a table sorts
  the caller's list in place, stably, by descending prefix length. The entries then go
  into a dictionary in that order.
- It looks up next hops (`_next_hop`). The first entry in table order whose CIDR agrees
  with the address under `x >> (32 - n) << (32 - n)` wins. Because of the sort, that entry
  is a longest-prefix match (section 5.2.4.3 of RFC 1812). The matched length is recorded
  in `prox`.
- It receives datagrams (`__raw_recv`):
  - A datagram addressed to the local host is handed to the registered callback, if it
    carries TCP.
  - Any other datagram is forwarded with its TTL decremented.
  - When its TTL is at most 1, an ICMP Time Exceeded message (RFC 792) goes back
    towards its source instead.

Layout:

- `common.dfy`: `Option`, `Result` and `Outcome`.
- `datagram.dfy` (module `Datagram`): byte types, big-endian encoding, the ten header
  fields, `Pack`/`Unpack` and `Seal`. `Seal` is the pack, checksum, repack step.
- `icmp.dfy` (module `Icmp`): the Time Exceeded message.
- `routing.dfy` (module `Routing`): CIDR matching, `Lookup`, the stable sort
  `SortByPrefix`, and the dictionary. The dictionary is a sequence of entries with unique
  keys, in insertion order. `Put` keeps the position of a key that is already present, as
  a Python dict does.
- `ip.dfy` (module `IpLayer`): the class `IP`. It holds the counter `id`, the table,
  `prox`, the local address and whether a callback is set. It also has two ghost logs:
  `sent` records the calls of the link layer's send, and `delivered` records the calls
  of the callback.

Modelling choices:

- Addresses are 32-bit integers. CIDRs are pre-parsed `(address, length)` pairs with
  `0 <= length <= 32`.
- `calc_checksum` is a parameter of the constructor, a total function from bytes. Its
  result is assumed to fit 16 bits, as a one's-complement checksum does; nothing else is
  assumed. That range is what keeps the second pack (ip.py:207) from raising.
- The exceptions that Python would raise are error outcomes:
  - `TruncatedHeader`: fewer than 20 bytes to unpack.
  - `NoAddress`: `str2addr(None)`, when the local address or the reply's next hop is
    unset.
  - `FieldOverflow`: `struct.pack` of a field that does not fit its width.
- The counter `self.id` grows by each locally built datagram's length and never wraps.
  So once it passes 0xFFFF, every build fails with `FieldOverflow`. On the local send
  path the counter has already grown when the pack fails. The model keeps both facts.

Where the code departs from RFC 791/792 or from usual router behaviour, the model follows the code:

- A forwarded datagram gets the router's counter as its identification. The counter is
  not bumped.
- A missing route to the destination does not stop a local send or a forward (ip.py:32,
  94, 220-227): the frame goes to the link layer with next hop `None`. A missing route back
  to the source stops the Time Exceeded reply (`str2addr(None)` at ip.py:57).
- The Time Exceeded reply leaves with TTL 63, not 64, because `buildDatagram` decrements
  the 64 it is given.
- The reply copies version/IHL, DSCP and flags from the expired datagram.
- The reply goes to the original source when the route back is a `/0` entry. Otherwise
  it goes to that route's next hop. The frame itself is always handed to the link layer
  with the route's next hop.
- Checksum validity is stated as the code computes it: bytes 10-11 equal `calc_checksum`
  of the same header with those bytes zeroed.

## Model

| member | source | states |
|---|---|---|
| `Datagram.Packable` | ip.py:201-207 | the range check whose failure makes `struct.pack` raise at ip.py:201 and 207; defined by its body, used by `IP.BuildDatagram` |
| `Datagram.Pack` | ip.py:201 | packing the ten fields with `'!BBHHHBBHII'` yields exactly 20 bytes |
| `Datagram.Seal` | ip.py:200-210 | pack, checksum the packed bytes, pack again with the result, append the segment; defined by its body, characterised by `SealLayout` |
| `Datagram.Unpack` | ip.py:36 | every field unpacked from 20 bytes fits its width, so it can be packed again |
| `Datagram.UnpackPack` | ip.py:201 | unpacking a packed header gives back all ten fields |
| `Datagram.PackUnpack` | ip.py:36 | packing the fields unpacked from 20 bytes gives back the same bytes |
| `Datagram.SealLayout` | ip.py:200-210 | the sealed datagram is 20 + \|segment\| bytes; the segment is unchanged after the header; every field but the checksum is as given; bytes 10-11 are `calc_checksum` of the header with them zeroed |
| `Icmp.TimeExceeded` | ip.py:63-85 | the Time Exceeded message bytes; defined by its body, characterised by `TimeExceededLayout` |
| `Icmp.Quoted` | ip.py:78-81 | `datagrama[:tam]` with `tam = 8 + 4·IHL`, all of the datagram when it is shorter; defined by its body, characterised by `TimeExceededLayout` |
| `Icmp.TimeExceededLayout` | ip.py:63-85 | the message is 0x0B, 0, a checksum, four zero bytes, then the first 8 + 4·IHL bytes of the expired datagram (all of it if shorter); the checksum is `calc_checksum` of the message with the checksum bytes zeroed |
| `Icmp.QuotesHeaderAnd64Bits` | ip.py:72-81 | for IHL 5 and at least 28 bytes, the message is 36 bytes and quotes exactly the 20-byte header and 8 payload bytes |
| `Routing.Matches` | ip.py:111-117 | the shift test `x >> (32-n) << (32-n)` on CIDR and address; characterised by `MatchesTopBits`, `DefaultRouteMatches`, `HostRouteMatches` |
| `Routing.Resolve` | ip.py:108-120 | the next hop of the entry `Lookup` returns, or None; defined by its body, characterised through `Lookup` and `DefaultRouteResolves` |
| `Routing.Lookup` | ip.py:108-120 | a returned entry is in the table and matches the address |
| `Routing.MatchesTopBits` | ip.py:111-117 | the shift test holds exactly when the top n bits of CIDR and address are equal |
| `Routing.DefaultRouteMatches` | ip.py:111-117 | a /0 entry matches every address |
| `Routing.HostRouteMatches` | ip.py:111-117 | a /32 entry matches only its own address |
| `Routing.LookupNone` | ip.py:108-120 | lookup finds nothing exactly when no entry matches |
| `Routing.LookupFirst` | ip.py:108-120 | lookup returns the first matching entry in table order |
| `Routing.LookupLongest` | ip.py:108-120 | on a table sorted by descending prefix length, no matching entry has a longer prefix than the one returned |
| `Routing.DefaultRouteResolves` | ip.py:108-120 | a table holding a /0 entry resolves every address |
| `Routing.PrefixLength` | ip.py:156-161 | `get_prefix_length`: the n of an entry's CIDR, the sort key; defined by its body |
| `Routing.SortByPrefix` | ip.py:147 | the stable sort by descending prefix length; defined by its body, characterised by the `SortByPrefix*` lemmas |
| `Routing.SortByPrefixSorted` | ip.py:147-161 | after sorting by `get_prefix_length` in reverse, prefix lengths are non-increasing |
| `Routing.SortByPrefixPermutes` | ip.py:147 | the sorted list is a permutation of the input |
| `Routing.SortByPrefixStable` | ip.py:147 | for each prefix length, the entries of that length come out in their original relative order, none lost or added |
| `Routing.SortByPrefixFixesSorted` | ip.py:147 | sorting an already sorted list leaves it unchanged |
| `Routing.Put` | ip.py:153 | dict assignment on an insertion-ordered sequence; defined by its body, characterised by `PutCidrs`, `PutUnique`, `PutGet` |
| `Routing.BuildTable` | ip.py:152-153 | the fill loop's result from an empty dict; defined by its body, characterised by `BuildTableContents`, `BuildTableSorted` |
| `Routing.PutCidrs` | ip.py:153 | assigning a key adds that key and keeps the others; no other entry appears |
| `Routing.PutUnique` | ip.py:153 | assigning a key keeps keys unique |
| `Routing.PutGet` | ip.py:153 | after assigning, the key maps to the new next hop and every other key is unchanged |
| `Routing.BuildTableContents` | ip.py:152-153 | the filled dictionary has unique keys, exactly the CIDRs given, each mapped to the next hop given last for it |
| `Routing.BuildTableSorted` | ip.py:152-153 | filling in sorted order keeps the keys in non-increasing prefix length |
| `Routing.SortByPrefixLastHop` | ip.py:147-153 | sorting does not change which next hop was given last for a CIDR |
| `Routing.InstalledTable` | ip.py:144-153 | the installed table depends only on the new entries: unique keys, sorted by prefix length, exactly their CIDRs, each with its last next hop |
| `Routing.LookupPut` | ip.py:108-153 | dict assignment leaves the first matching key where it was; when no key matched before, the assigned key is the first match exactly when it matches |
| `Routing.BuildTableLookup` | ip.py:108-153 | the first matching key of the filled dictionary is the CIDR of the first matching entry of the list it was filled from, and one exists exactly when the other does |
| `Routing.GetEntry` | ip.py:153 | in a dictionary with unique keys, looking up an entry's key gives that entry's next hop |
| `Routing.LookupWithLength` | ip.py:108-120 | the first match is also the first match among the entries of its own prefix length |
| `Routing.LongestMatchLen` | ip.py:108-147 | the longest prefix length among the matching entries, -1 exactly when none matches; a reference definition independent of the sort |
| `Routing.BestMatch` | ip.py:108-147 | the reference choice: the first entry, in the given order, among the matching entries of the longest matching length; None exactly when none matches; what it returns is a matching entry and no matching entry is longer |
| `Routing.InstalledResolve` | ip.py:108-153 | after installing a list, `_next_hop` gives the next hop given last for the CIDR that `BestMatch` picks from that list, and None when no entry matches; this fixes the order of equal-length keys (stable sort, then dict insertion) |
| `Routing.InstallTwice` | ip.py:130-153 | installing the same entries twice gives the same table as installing them once |
| `Routing.LongestPrefixExample` | ip.py:108-153 | with 10.0.0.0/8 via a and 10.1.0.0/16 via b, 10.1.2.3 resolves to b and 10.2.2.3 to a |
| `IpLayer.FreshFields` | ip.py:172-189 | the fields of a locally built header; defined by its body, characterised by `FreshDatagramLayout` |
| `IpLayer.RelayFields` | ip.py:38 | `prev_exec` of a forwarded datagram; defined by its body, characterised by `RelayedDatagramLayout` |
| `IpLayer.Decremented` | ip.py:198 | `ttl -= 1` on the fields of `prev_exec`; defined by its body, used by `IP.BuildDatagram` and the relay and reply layout lemmas |
| `IpLayer.ReplyFields` | ip.py:61 | `prev_exec` of the reply, with the length of ip.py:88; defined by its body, characterised by `TimeExceededReplyLayout` |
| `IpLayer.ProxAfter` | ip.py:117-120 | `self.prox` after `_next_hop`: the matched prefix length (ip.py:119), unchanged on a miss; defined by its body, used by `IP.NextHop`, `IP.Send` and `IP.Receive` |
| `IpLayer.ReplyDestination` | ip.py:47-52 | the reply's destination: the source when the route back is /0, else its next hop, None without a route; defined by its body, used by `IP.Receive` |
| `IpLayer.FreshDatagramLayout` | ip.py:172-195 | a locally built datagram is 20 + \|segment\| bytes, byte 0 = 0x45, TTL 64, protocol 6, total length 20 + \|segment\|, identification = counter, given addresses, valid checksum, segment unchanged |
| `IpLayer.RelayedDatagramLayout` | ip.py:31-41 | a forwarded datagram keeps every field except TTL (one less), identification (the router's counter) and checksum (valid again); payload unchanged |
| `IpLayer.TimeExceededReplyLayout` | ip.py:56-90 | the reply has protocol 1, TTL 63, total length 20 + message length, local source, chosen destination, the counter as identification, the original's version/IHL, DSCP and flags, a valid checksum and the ICMP message as payload; it is never the expired datagram |
| `IpLayer.IP.constructor` | ip.py:6-20 | starts with no local address, no callback, counter 0, empty table, `prox` = -1, nothing sent or delivered |
| `IpLayer.IP.SetLocalAddress` | ip.py:122-128 | the local address becomes the given one |
| `IpLayer.IP.RegisterReceiver` | ip.py:163-167 | the callback slot becomes set or unset |
| `IpLayer.IP.SetForwardingTable` | ip.py:130-153 | the caller's list is left stably sorted; the table becomes the dictionary filled from it, with nothing of the old table left, and the class invariant holds |
| `IpLayer.IP.SortEntries` | ip.py:147 | the caller's array is replaced in place by its stable descending sort |
| `IpLayer.IP.NextHop` | ip.py:97-120 | returns the next hop of the first matching entry, or None; `prox` becomes the matched length, or is unchanged when nothing matches; on a valid (sorted) table no matching entry is longer than `prox` |
| `IpLayer.IP.BuildDatagram` | ip.py:170-212 | fresh path: fails on an unset address before touching the counter; otherwise the counter grows by 20 + \|segment\|, and the build succeeds exactly when the old counter and the length fit 16 bits, giving the sealed fresh header plus segment. Path with previous fields: counter unchanged; those fields are packed with TTL − 1 |
| `IpLayer.IP.Send` | ip.py:215-227 | resolves the next hop (updating `prox`), builds a fresh datagram and, when that succeeds, sends exactly one frame to the resolved hop, which is None when no route matched |
| `IpLayer.IP.Receive` | ip.py:23-94 | short input fails. Host: nothing sent; one delivery of (src, dst, payload) exactly when the protocol is TCP and a callback is set. Router, TTL > 1: one frame with TTL − 1 and the counter as identification, to the next hop of the destination. Router, TTL ≤ 1: one Time Exceeded reply to the next hop of the source, addressed to the source when that route is /0. The counter never changes |

## Left out

- The link layer (Ethernet and ARP). Its send is recorded in the `sent` log. The
  constructor's registration of `__raw_recv` with it (ip.py:14) is I/O wiring.
- `ignore_checksum` (ip.py:15). It is never used.
- The diagnostic prints of `_next_hop` (ip.py:103-104).
- The bodies of the utility helpers (`calc_checksum`, `str2addr`, `addr2str`,
  `read_ipv4_header`). They are not part of this model. `calc_checksum` is an arbitrary
  total function, so the one's-complement property of the checksum is not proved.
- `read_ipv4_header` is taken to return the fields of the first 20 bytes, with the
  payload being everything after byte 20. Any validation it does (version, IHL, checksum)
  is not modelled.
- `str2addr(None)` is taken to raise.
- Dotted-quad text. Addresses and CIDRs are numbers. The host test `dst_addr ==
  meu_endereco` compares strings in Python. The model compares numbers, which agree for
  canonical dotted-quad text.
- The forwarding table's keys are CIDR strings in Python. Two spellings of one block,
  such as "10.0.0.0/8" and "10.0.0.0/08", are two keys there but one `Cidr` key here.
  The model therefore covers tables whose CIDRs are written canonically.
- Malformed CIDR strings and prefix lengths outside 0..32 raise in Python. Here the type
  of the prefix length excludes them.
- The callback as a function value. Only whether one is set, and the calls it would
  receive, are modelled.
- `Routing.SortByPrefix`: Python's sort is Timsort, and the model uses an insertion sort.
  A stable sort by a key has exactly one result, so the two agree on every input. The
  in-place effect on the caller's list is modelled, but the algorithm is not.
- `Datagram.SealLayout`: this lemma requires a zero checksum field in the fields given.
  Every call in ip.py passes 0 there (ip.py:38, 61, 189).
