/** The forwarding table of the IP class: CIDR matching by shifts, first-match
    lookup in insertion order, the stable sort by descending prefix length that
    turns the first match into the longest-prefix match (section 5.2.4.3 of
    RFC 1812), and the dictionary the sorted entries are stored in. */
module Routing {
  import opened Common
  import opened Datagram

  type PrefixLen = p: int | 0 <= p <= 32

  /** An address block 'x.y.z.w/n', already parsed. */
  datatype Cidr = Cidr(addr: Addr, len: PrefixLen)

  /** A forwarding entry (cidr, next_hop). */
  datatype Route = Route(cidr: Cidr, hop: Addr)

  function Pow2(k: nat): (r: nat)
    ensures r > 0
  {
    if k == 0 then 1 else 2 * Pow2(k - 1)
  }

  /** Python's `x >> k << k` on a non-negative integer. */
  function ClearLow(x: Addr, k: nat): int {
    x / Pow2(k) * Pow2(k)
  }

  /** The test of _next_hop: both addresses agree once the 32 - n low bits are
      shifted out and back in. */
  predicate Matches(c: Cidr, a: Addr) {
    ClearLow(c.addr, 32 - c.len) == ClearLow(a, 32 - c.len)
  }

  lemma MulCancel(x: int, y: int, m: int)
    requires m > 0 && x * m == y * m
    ensures x == y
  {
  }

  lemma {:induction false} Pow2Add(a: nat, b: nat)
    ensures Pow2(a + b) == Pow2(a) * Pow2(b)
  {
    if a > 0 {
      Pow2Add(a - 1, b);
    }
  }

  lemma Pow2Of32()
    ensures Pow2(32) == 0x1_0000_0000
  {
    assert Pow2(1) == 2;
    assert Pow2(2) == 4;
    Pow2Add(2, 2);
    Pow2Add(4, 4);
    Pow2Add(8, 8);
    Pow2Add(16, 16);
  }

  /** A match means the top n bits of the two addresses are equal. */
  lemma MatchesTopBits(c: Cidr, a: Addr)
    ensures Matches(c, a) <==> c.addr / Pow2(32 - c.len) == a / Pow2(32 - c.len)
  {
    var m := Pow2(32 - c.len);
    if Matches(c, a) {
      MulCancel(c.addr / m, a / m, m);
    }
  }

  /** A /0 entry matches every address. */
  lemma DefaultRouteMatches(c: Cidr, a: Addr)
    requires c.len == 0
    ensures Matches(c, a)
  {
    Pow2Of32();
  }

  /** A /32 entry matches its own address only. */
  lemma HostRouteMatches(c: Cidr, a: Addr)
    requires c.len == 32
    ensures Matches(c, a) <==> a == c.addr
  {
    assert Pow2(0) == 1;
  }

  // ---- Lookup -------------------------------------------------------------

  /** The entry _next_hop returns: the first one in table order that matches. */
  function Lookup(table: seq<Route>, a: Addr): (m: Option<Route>)
    ensures m.Some? ==> m.value in table && Matches(m.value.cidr, a)
  {
    if table == [] then None
    else if Matches(table[0].cidr, a) then Some(table[0])
    else Lookup(table[1..], a)
  }

  /** The next hop of that entry, or None. */
  function Resolve(table: seq<Route>, a: Addr): Option<Addr> {
    match Lookup(table, a)
    case Some(e) => Some(e.hop)
    case None => None
  }

  /** Lookup finds nothing exactly when no entry matches. */
  lemma {:induction false} LookupNone(table: seq<Route>, a: Addr)
    ensures Lookup(table, a).None? <==> forall e :: e in table ==> !Matches(e.cidr, a)
  {
    if table != [] && !Matches(table[0].cidr, a) {
      LookupNone(table[1..], a);
      assert forall e :: e in table ==> e == table[0] || e in table[1..];
    }
  }

  /** Lookup returns the matching entry that comes first in table order. */
  lemma {:induction false} LookupFirst(table: seq<Route>, a: Addr, j: nat)
    requires j < |table| && Matches(table[j].cidr, a)
    requires forall i :: 0 <= i < j ==> !Matches(table[i].cidr, a)
    ensures Lookup(table, a) == Some(table[j])
  {
    if j > 0 {
      assert !Matches(table[0].cidr, a);
      LookupFirst(table[1..], a, j - 1);
    }
  }

  /** The entries are in non-increasing order of prefix length. */
  predicate SortedByLen(s: seq<Route>) {
    forall i, j :: 0 <= i < j < |s| ==> s[i].cidr.len >= s[j].cidr.len
  }

  /** On a table sorted by descending prefix length the first match is a longest
      match: no matching entry has a longer prefix. */
  lemma {:induction false} LookupLongest(table: seq<Route>, a: Addr)
    requires SortedByLen(table) && Lookup(table, a).Some?
    ensures forall e :: e in table && Matches(e.cidr, a) ==> e.cidr.len <= Lookup(table, a).value.cidr.len
  {
    if !Matches(table[0].cidr, a) {
      LookupLongest(table[1..], a);
      assert forall e :: e in table ==> e == table[0] || e in table[1..];
    } else {
      assert forall e :: e in table ==> exists k :: 0 <= k < |table| && table[k] == e;
    }
  }

  /** A table holding a /0 entry resolves every address. */
  lemma DefaultRouteResolves(table: seq<Route>, a: Addr, e: Route)
    requires e in table && e.cidr.len == 0
    ensures Resolve(table, a).Some?
  {
    DefaultRouteMatches(e.cidr, a);
    LookupNone(table, a);
  }

  // ---- The stable sort by prefix length (tabela.sort) -----------------------

  /** get_prefix_length: the sort key, the n of the entry's 'x.y.z.w/n'. */
  function PrefixLength(e: Route): PrefixLen {
    e.cidr.len
  }

  /** Inserts e after every trailing entry whose key is at least e's. */
  function Insert(e: Route, t: seq<Route>): seq<Route> {
    if t == [] || PrefixLength(t[|t| - 1]) >= PrefixLength(e) then t + [e]
    else Insert(e, t[..|t| - 1]) + [t[|t| - 1]]
  }

  /** `tabela.sort(key = get_prefix_length, reverse = True)`: a stable sort by
      descending prefix length, written as an insertion sort. */
  function SortByPrefix(s: seq<Route>): seq<Route> {
    if s == [] then [] else Insert(s[|s| - 1], SortByPrefix(s[..|s| - 1]))
  }

  /** The entries of s with prefix length p, in their order in s. */
  function WithLength(s: seq<Route>, p: PrefixLen): seq<Route> {
    if s == [] then []
    else WithLength(s[..|s| - 1], p) + (if s[|s| - 1].cidr.len == p then [s[|s| - 1]] else [])
  }

  lemma {:induction false} InsertMultiset(e: Route, t: seq<Route>)
    ensures multiset(Insert(e, t)) == multiset(t) + multiset{e}
  {
    if t != [] && PrefixLength(t[|t| - 1]) < PrefixLength(e) {
      InsertMultiset(e, t[..|t| - 1]);
      assert t == t[..|t| - 1] + [t[|t| - 1]];
    }
  }

  lemma {:induction false} InsertElements(e: Route, t: seq<Route>)
    ensures forall x :: x in Insert(e, t) ==> x == e || x in t
  {
    if t != [] && PrefixLength(t[|t| - 1]) < PrefixLength(e) {
      InsertElements(e, t[..|t| - 1]);
      assert forall x :: x in t[..|t| - 1] ==> x in t;
    }
  }

  /** Appending an entry no longer than any before it keeps the order. */
  lemma SortedAppend(r: seq<Route>, last: Route)
    requires SortedByLen(r)
    requires forall x :: x in r ==> x.cidr.len >= last.cidr.len
    ensures SortedByLen(r + [last])
  {
    forall i, j | 0 <= i < j < |r| + 1
      ensures (r + [last])[i].cidr.len >= (r + [last])[j].cidr.len
    {
      if j == |r| {
        assert (r + [last])[i] == r[i];
      }
    }
  }

  /** In a sorted sequence every entry is at least as long as the last one. */
  lemma SortedLast(t: seq<Route>)
    requires SortedByLen(t) && t != []
    ensures forall x :: x in t ==> x.cidr.len >= t[|t| - 1].cidr.len
  {
    forall x | x in t
      ensures x.cidr.len >= t[|t| - 1].cidr.len
    {
      var k :| 0 <= k < |t| && t[k] == x;
    }
  }

  lemma {:induction false} InsertSorted(e: Route, t: seq<Route>)
    requires SortedByLen(t)
    ensures SortedByLen(Insert(e, t))
  {
    if t == [] {
    } else if PrefixLength(t[|t| - 1]) >= PrefixLength(e) {
      SortedLast(t);
      SortedAppend(t, e);
    } else {
      var init, last := t[..|t| - 1], t[|t| - 1];
      assert SortedByLen(init);
      InsertSorted(e, init);
      InsertElements(e, init);
      SortedLast(t);
      assert forall x :: x in init ==> x in t;
      SortedAppend(Insert(e, init), last);
    }
  }

  lemma {:induction false} InsertWithLength(e: Route, t: seq<Route>, p: PrefixLen)
    ensures WithLength(Insert(e, t), p) == WithLength(t, p) + (if e.cidr.len == p then [e] else [])
  {
    if t == [] || PrefixLength(t[|t| - 1]) >= PrefixLength(e) {
      assert (t + [e])[..|t|] == t;
    } else {
      var init, last := t[..|t| - 1], t[|t| - 1];
      InsertWithLength(e, init, p);
      var r := Insert(e, init);
      assert (r + [last])[..|r|] == r;
    }
  }

  /** The sort keeps all entries: the result is a permutation of the input. */
  lemma {:induction false} SortByPrefixPermutes(s: seq<Route>)
    ensures multiset(SortByPrefix(s)) == multiset(s)
  {
    if s != [] {
      SortByPrefixPermutes(s[..|s| - 1]);
      InsertMultiset(s[|s| - 1], SortByPrefix(s[..|s| - 1]));
      assert s == s[..|s| - 1] + [s[|s| - 1]];
    }
  }

  /** The sort puts longer prefixes first. */
  lemma {:induction false} SortByPrefixSorted(s: seq<Route>)
    ensures SortedByLen(SortByPrefix(s))
  {
    if s != [] {
      SortByPrefixSorted(s[..|s| - 1]);
      InsertSorted(s[|s| - 1], SortByPrefix(s[..|s| - 1]));
    }
  }

  /** The sort is stable: the entries of each prefix length come out exactly as
      they went in, in the same relative order. */
  lemma {:induction false} SortByPrefixStable(s: seq<Route>, p: PrefixLen)
    ensures WithLength(SortByPrefix(s), p) == WithLength(s, p)
  {
    if s != [] {
      SortByPrefixStable(s[..|s| - 1], p);
      InsertWithLength(s[|s| - 1], SortByPrefix(s[..|s| - 1]), p);
    }
  }

  /** Sorting an already sorted list changes nothing, so sorting twice is sorting once. */
  lemma {:induction false} SortByPrefixFixesSorted(s: seq<Route>)
    requires SortedByLen(s)
    ensures SortByPrefix(s) == s
  {
    if s != [] {
      var init := s[..|s| - 1];
      assert SortedByLen(init);
      SortByPrefixFixesSorted(init);
      if init != [] {
        assert s[|s| - 2].cidr.len >= s[|s| - 1].cidr.len;
      }
      assert init + [s[|s| - 1]] == s;
    }
  }

  // ---- The dictionary of sorted entries -----------------------------------

  /** Each CIDR is a key at most once. */
  predicate UniqueKeys(table: seq<Route>) {
    forall i, j :: 0 <= i < j < |table| ==> table[i].cidr != table[j].cidr
  }

  /** The CIDRs that occur in a sequence of entries. */
  function Cidrs(s: seq<Route>): set<Cidr> {
    set e | e in s :: e.cidr
  }

  /** The next hop stored for key c. */
  function Get(table: seq<Route>, c: Cidr): Option<Addr> {
    if table == [] then None
    else if table[0].cidr == c then Some(table[0].hop)
    else Get(table[1..], c)
  }

  /** `d[cidr] = next_hop`: an existing key keeps its place and takes the new
      value; a new key goes last. */
  function Put(table: seq<Route>, e: Route): seq<Route> {
    if table == [] then [e]
    else if table[0].cidr == e.cidr then [e] + table[1..]
    else [table[0]] + Put(table[1..], e)
  }

  lemma CidrsConcat(a: seq<Route>, b: seq<Route>)
    ensures Cidrs(a + b) == Cidrs(a) + Cidrs(b)
  {
    forall c | c in Cidrs(a + b)
      ensures c in Cidrs(a) + Cidrs(b)
    {
      var x :| x in a + b && x.cidr == c;
    }
    forall c | c in Cidrs(a) + Cidrs(b)
      ensures c in Cidrs(a + b)
    {
      if c in Cidrs(a) {
        var x :| x in a && x.cidr == c;
        assert x in a + b;
      } else {
        var x :| x in b && x.cidr == c;
        assert x in a + b;
      }
    }
  }

  lemma {:induction false} PutCidrs(table: seq<Route>, e: Route)
    ensures Cidrs(Put(table, e)) == Cidrs(table) + {e.cidr}
    ensures forall x :: x in Put(table, e) ==> x == e || x in table
  {
    if table == [] {
      assert Cidrs([e]) == {e.cidr};
    } else if table[0].cidr != e.cidr {
      PutCidrs(table[1..], e);
      assert table == [table[0]] + table[1..];
      CidrsConcat([table[0]], table[1..]);
      CidrsConcat([table[0]], Put(table[1..], e));
      assert Cidrs([table[0]]) == {table[0].cidr};
    } else {
      assert table == [table[0]] + table[1..];
      CidrsConcat([table[0]], table[1..]);
      CidrsConcat([e], table[1..]);
      assert Cidrs([table[0]]) == {table[0].cidr} == {e.cidr} == Cidrs([e]);
    }
  }

  lemma {:induction false} PutUnique(table: seq<Route>, e: Route)
    requires UniqueKeys(table)
    ensures UniqueKeys(Put(table, e))
  {
    if table != [] && table[0].cidr != e.cidr {
      PutUnique(table[1..], e);
      PutCidrs(table[1..], e);
      var r := Put(table[1..], e);
      forall j | 0 < j < |r| + 1
        ensures ([table[0]] + r)[j].cidr != table[0].cidr
      {
        var x := r[j - 1];
        assert x in r;
        if x != e {
          var k :| 0 <= k < |table[1..]| && table[1..][k] == x;
          assert table[k + 1] == x;
        }
      }
    }
  }

  lemma {:induction false} PutGet(table: seq<Route>, e: Route, c: Cidr)
    ensures Get(Put(table, e), c) == if c == e.cidr then Some(e.hop) else Get(table, c)
  {
    if table != [] && table[0].cidr != e.cidr {
      PutGet(table[1..], e, c);
    }
  }

  lemma {:induction false} PutSorted(table: seq<Route>, e: Route)
    requires SortedByLen(table)
    requires forall x :: x in table ==> x.cidr.len >= e.cidr.len
    ensures SortedByLen(Put(table, e))
  {
    if table != [] && table[0].cidr != e.cidr {
      var rest := table[1..];
      PutSorted(rest, e);
      PutCidrs(rest, e);
      var r := Put(rest, e);
      forall j | 0 < j < |r| + 1
        ensures ([table[0]] + r)[j].cidr.len <= table[0].cidr.len
      {
        var x := r[j - 1];
        assert x in r;
        if x != e {
          var k :| 0 <= k < |rest| && rest[k] == x;
          assert table[k + 1] == x;
        }
      }
    }
  }

  /** The loop `for endereco in tabela: d[endereco[0]] = endereco[1]` from an
      empty dictionary. */
  function BuildTable(s: seq<Route>): seq<Route> {
    if s == [] then [] else Put(BuildTable(s[..|s| - 1]), s[|s| - 1])
  }

  /** The next hop given last for c in s. */
  function LastHop(s: seq<Route>, c: Cidr): Option<Addr> {
    if s == [] then None
    else if s[|s| - 1].cidr == c then Some(s[|s| - 1].hop)
    else LastHop(s[..|s| - 1], c)
  }

  /** The filled dictionary has unique keys, exactly the CIDRs of s, and maps each
      to the next hop given last for it. */
  lemma {:induction false} BuildTableContents(s: seq<Route>)
    ensures UniqueKeys(BuildTable(s))
    ensures Cidrs(BuildTable(s)) == Cidrs(s)
    ensures forall c :: Get(BuildTable(s), c) == LastHop(s, c)
  {
    if s != [] {
      var init, last := s[..|s| - 1], s[|s| - 1];
      BuildTableContents(init);
      PutUnique(BuildTable(init), last);
      PutCidrs(BuildTable(init), last);
      forall c
        ensures Get(BuildTable(s), c) == LastHop(s, c)
      {
        PutGet(BuildTable(init), last, c);
      }
      assert s == init + [last];
      CidrsConcat(init, [last]);
      assert Cidrs([last]) == {last.cidr};
    }
  }

  /** Filling the dictionary in sorted order keeps its keys sorted. */
  lemma {:induction false} BuildTableSorted(s: seq<Route>)
    requires SortedByLen(s)
    ensures SortedByLen(BuildTable(s))
  {
    if s != [] {
      var init, last := s[..|s| - 1], s[|s| - 1];
      assert SortedByLen(init);
      BuildTableSorted(init);
      BuildTableContents(init);
      forall x | x in BuildTable(init)
        ensures x.cidr.len >= last.cidr.len
      {
        assert x.cidr in Cidrs(BuildTable(init));
        assert x.cidr in Cidrs(init);
        var y :| y in init && y.cidr == x.cidr;
        var k :| 0 <= k < |init| && init[k] == y;
        assert s[k] == y;
      }
      PutSorted(BuildTable(init), last);
    }
  }

  /** The last next hop for c is decided among the entries of c's own length. */
  lemma {:induction false} LastHopWithLength(s: seq<Route>, c: Cidr)
    ensures LastHop(s, c) == LastHop(WithLength(s, c.len), c)
  {
    if s != [] {
      var init, last := s[..|s| - 1], s[|s| - 1];
      LastHopWithLength(init, c);
      if last.cidr.len == c.len {
        var w := WithLength(init, c.len) + [last];
        assert w[..|w| - 1] == WithLength(init, c.len);
      } else {
        assert WithLength(s, c.len) == WithLength(init, c.len) + [];
        assert WithLength(init, c.len) + [] == WithLength(init, c.len);
      }
    }
  }

  /** Because the sort is stable, the next hop given last for a CIDR is the same
      before and after sorting. */
  lemma SortByPrefixLastHop(s: seq<Route>, c: Cidr)
    ensures LastHop(SortByPrefix(s), c) == LastHop(s, c)
  {
    LastHopWithLength(s, c);
    LastHopWithLength(SortByPrefix(s), c);
    SortByPrefixStable(s, c.len);
  }

  /** Two sequences with the same entries, counted, have the same CIDRs. */
  lemma CidrsOfPermutation(a: seq<Route>, b: seq<Route>)
    requires multiset(a) == multiset(b)
    ensures Cidrs(a) == Cidrs(b)
  {
    forall e | e in a ensures e in b {
      assert e in multiset(a);
    }
    forall e | e in b ensures e in a {
      assert e in multiset(b);
    }
  }

  /** What definir_tabela_encaminhamento installs for the entries s: only the
      CIDRs of s, each once, in non-increasing prefix length, each mapped to the
      next hop given last for it in s. */
  lemma InstalledTable(s: seq<Route>)
    ensures var table := BuildTable(SortByPrefix(s));
      && UniqueKeys(table)
      && SortedByLen(table)
      && Cidrs(table) == Cidrs(s)
      && forall c :: Get(table, c) == LastHop(s, c)
  {
    var sorted := SortByPrefix(s);
    SortByPrefixSorted(s);
    BuildTableSorted(sorted);
    BuildTableContents(sorted);
    SortByPrefixPermutes(s);
    CidrsOfPermutation(sorted, s);
    forall c ensures Get(BuildTable(sorted), c) == LastHop(s, c) {
      SortByPrefixLastHop(s, c);
    }
  }

  /** Installing the same entries twice leaves the same table as installing them
      once: the first install already left the caller's list sorted. */
  lemma InstallTwice(s: seq<Route>)
    ensures BuildTable(SortByPrefix(SortByPrefix(s))) == BuildTable(SortByPrefix(s))
  {
    SortByPrefixSorted(s);
    SortByPrefixFixesSorted(SortByPrefix(s));
  }

  // ---- Lookup in the installed table ----------------------------------------

  /** The longest prefix length among the entries of s that match a, or -1. */
  function LongestMatchLen(s: seq<Route>, a: Addr): (n: int)
    ensures -1 <= n <= 32
    ensures n == -1 <==> forall e :: e in s ==> !Matches(e.cidr, a)
    ensures forall e :: e in s && Matches(e.cidr, a) ==> e.cidr.len <= n
    ensures n >= 0 ==> exists e :: e in s && Matches(e.cidr, a) && e.cidr.len == n
  {
    if s == [] then -1
    else
      var rest := LongestMatchLen(s[1..], a);
      assert forall e :: e in s ==> e == s[0] || e in s[1..];
      if Matches(s[0].cidr, a) && s[0].cidr.len > rest then s[0].cidr.len else rest
  }

  /** Longest-prefix matching with ties broken by the order of s: among the
      entries of s that match a and have the longest matching prefix, the first. */
  function BestMatch(s: seq<Route>, a: Addr): (m: Option<Route>)
    ensures m.None? <==> forall e :: e in s ==> !Matches(e.cidr, a)
    ensures m.Some? ==> m.value in s && Matches(m.value.cidr, a)
    ensures m.Some? ==> forall e :: e in s && Matches(e.cidr, a) ==> e.cidr.len <= m.value.cidr.len
  {
    var n := LongestMatchLen(s, a);
    if n < 0 then None
    else
      var w := WithLength(s, n);
      WithLengthElements(s, n);
      var e :| e in s && Matches(e.cidr, a) && e.cidr.len == n;
      WithLengthHas(s, e);
      LookupNone(w, a);
      Lookup(w, a)
  }

  lemma {:induction false} WithLengthElements(s: seq<Route>, p: PrefixLen)
    ensures forall x :: x in WithLength(s, p) ==> x in s && x.cidr.len == p
  {
    if s != [] {
      WithLengthElements(s[..|s| - 1], p);
      assert forall x :: x in s[..|s| - 1] ==> x in s;
    }
  }

  lemma {:induction false} WithLengthHas(s: seq<Route>, x: Route)
    requires x in s
    ensures x in WithLength(s, x.cidr.len)
  {
    var init := s[..|s| - 1];
    if s[|s| - 1] != x {
      assert s == init + [s[|s| - 1]];
      WithLengthHas(init, x);
    }
  }

  /** Lookup in t + [e]: the first match in t, else e if it matches. */
  lemma {:induction false} LookupAppend(t: seq<Route>, e: Route, a: Addr)
    ensures Lookup(t + [e], a) ==
      if Lookup(t, a).Some? then Lookup(t, a) else if Matches(e.cidr, a) then Some(e) else None
  {
    if t == [] {
      assert ([] + [e])[1..] == [];
    } else {
      assert (t + [e])[1..] == t[1..] + [e];
      LookupAppend(t[1..], e, a);
    }
  }

  /** Dict assignment leaves the first matching key where it was; when no key
      matched, the assigned key is the first match if it matches. */
  lemma {:induction false} LookupPut(table: seq<Route>, e: Route, a: Addr)
    ensures Lookup(Put(table, e), a).Some? <==> Lookup(table, a).Some? || Matches(e.cidr, a)
    ensures Lookup(Put(table, e), a).Some? ==>
      Lookup(Put(table, e), a).value.cidr ==
        (if Lookup(table, a).Some? then Lookup(table, a).value.cidr else e.cidr)
  {
    if table == [] {
      assert [e][1..] == [];
    } else if table[0].cidr == e.cidr {
      assert ([e] + table[1..])[1..] == table[1..];
    } else {
      var r := Put(table[1..], e);
      assert ([table[0]] + r)[1..] == r;
      LookupPut(table[1..], e, a);
    }
  }

  /** The first matching key of the filled dictionary is the CIDR of the first
      matching entry of the list it was filled from. */
  lemma {:induction false} BuildTableLookup(s: seq<Route>, a: Addr)
    ensures Lookup(BuildTable(s), a).Some? <==> Lookup(s, a).Some?
    ensures Lookup(s, a).Some? ==> Lookup(BuildTable(s), a).value.cidr == Lookup(s, a).value.cidr
  {
    if s != [] {
      var init, last := s[..|s| - 1], s[|s| - 1];
      BuildTableLookup(init, a);
      LookupPut(BuildTable(init), last, a);
      assert s == init + [last];
      LookupAppend(init, last, a);
    }
  }

  /** In a dictionary with unique keys, Get finds each entry's own next hop. */
  lemma {:induction false} GetEntry(table: seq<Route>, x: Route)
    requires UniqueKeys(table) && x in table
    ensures Get(table, x.cidr) == Some(x.hop)
  {
    if table[0] != x {
      assert table[0].cidr != x.cidr by {
        var k :| 0 <= k < |table| && table[k] == x;
      }
      assert UniqueKeys(table[1..]);
      GetEntry(table[1..], x);
    }
  }

  /** The first match in s is also the first match among the entries of its own
      prefix length. */
  lemma {:induction false} LookupWithLength(s: seq<Route>, a: Addr)
    requires Lookup(s, a).Some?
    ensures Lookup(WithLength(s, Lookup(s, a).value.cidr.len), a) == Lookup(s, a)
  {
    var x := Lookup(s, a).value;
    var n := x.cidr.len;
    var init, last := s[..|s| - 1], s[|s| - 1];
    assert s == init + [last];
    LookupAppend(init, last, a);
    var w := WithLength(init, n);
    if last.cidr.len == n {
      LookupAppend(w, last, a);
    } else {
      assert WithLength(s, n) == w + [];
      assert w + [] == w;
    }
    if Lookup(init, a).Some? {
      LookupWithLength(init, a);
    } else {
      WithLengthElements(init, n);
      LookupNone(init, a);
      LookupNone(w, a);
    }
  }

  /** What _next_hop returns once definir_tabela_encaminhamento has installed s:
      the next hop given last for the CIDR that longest-prefix matching picks in
      s, ties going to the entry that comes first in s; None when nothing in s
      matches. */
  lemma InstalledResolve(s: seq<Route>, a: Addr)
    ensures Resolve(BuildTable(SortByPrefix(s)), a) ==
      match BestMatch(s, a)
      case None => None
      case Some(e) => LastHop(s, e.cidr)
  {
    var sorted := SortByPrefix(s);
    var table := BuildTable(sorted);
    SortByPrefixPermutes(s);
    assert forall e :: e in sorted <==> e in s by {
      forall e ensures e in sorted <==> e in s {
        assert e in sorted <==> e in multiset(sorted);
      }
    }
    BuildTableLookup(sorted, a);
    LookupNone(sorted, a);
    if Lookup(sorted, a).Some? {
      var x := Lookup(sorted, a).value;
      var y := Lookup(table, a).value;
      BuildTableContents(sorted);
      GetEntry(table, y);
      SortByPrefixLastHop(s, x.cidr);
      SortByPrefixSorted(s);
      LookupLongest(sorted, a);
      LookupWithLength(sorted, a);
      SortByPrefixStable(s, x.cidr.len);
      var n := LongestMatchLen(s, a);
      assert n == x.cidr.len;
    }
  }

  lemma ExampleSorted(wide: Route, narrow: Route)
    requires wide.cidr.len == 8 && narrow.cidr.len == 16
    ensures SortByPrefix([wide, narrow]) == [narrow, wide]
  {
    var s := [wide, narrow];
    assert s[..1] == [wide];
    assert SortByPrefix([wide]) == [wide] by {
      assert [wide][..0] == [];
    }
    var t := [wide];
    assert t[..0] == [];
    assert Insert(narrow, t) == Insert(narrow, []) + [wide];
  }

  lemma ExampleBuilt(wide: Route, narrow: Route)
    requires wide.cidr.len == 8 && narrow.cidr.len == 16
    ensures BuildTable([narrow, wide]) == [narrow, wide]
  {
    var sorted := [narrow, wide];
    assert sorted[..1] == [narrow];
    assert BuildTable([narrow]) == [narrow] by {
      assert [narrow][..0] == [];
    }
    assert [narrow][1..] == [];
    assert narrow.cidr != wide.cidr;
    assert Put([narrow], wide) == [narrow] + Put([], wide);
    assert BuildTable(sorted) == Put(BuildTable(sorted[..1]), wide);
  }

  lemma ExampleTable(wide: Route, narrow: Route)
    requires wide.cidr.len == 8 && narrow.cidr.len == 16
    ensures BuildTable(SortByPrefix([wide, narrow])) == [narrow, wide]
  {
    ExampleSorted(wide, narrow);
    ExampleBuilt(wide, narrow);
  }

  lemma Pow2Of16And24()
    ensures Pow2(16) == 0x1_0000 && Pow2(24) == 0x100_0000
  {
    assert Pow2(1) == 2;
    assert Pow2(2) == 4;
    Pow2Add(2, 2);
    Pow2Add(4, 4);
    Pow2Add(8, 8);
    Pow2Add(8, 16);
  }

  /** With 10.0.0.0/8 via a and 10.1.0.0/16 via b, 10.1.2.3 goes to b (the more
      specific prefix wins) and 10.2.2.3 to a. */
  lemma LongestPrefixExample(a: Addr, b: Addr)
    ensures var table := BuildTable(SortByPrefix([Route(Cidr(0x0A00_0000, 8), a),
                                                  Route(Cidr(0x0A01_0000, 16), b)]));
      Resolve(table, 0x0A01_0203) == Some(b) && Resolve(table, 0x0A02_0203) == Some(a)
  {
    var wide, narrow := Route(Cidr(0x0A00_0000, 8), a), Route(Cidr(0x0A01_0000, 16), b);
    ExampleTable(wide, narrow);
    Pow2Of16And24();
    assert Matches(narrow.cidr, 0x0A01_0203);
    assert !Matches(narrow.cidr, 0x0A02_0203);
    assert Matches(wide.cidr, 0x0A02_0203);
    LookupFirst([narrow, wide], 0x0A01_0203, 0);
    LookupFirst([narrow, wide], 0x0A02_0203, 1);
  }
}
