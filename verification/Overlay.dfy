/** Overlay address assignment for gateways and backends. */
module Overlay {
  import opened Words
  import opened Bits
  import opened Counting

  /** An overlay setting: empty or `auto`, a parsed address with prefix, or other text. */
  datatype Overlay = Auto | Host(ip: u32, prefix: u8) | Text(raw: string)

  /** A parsed IPv4 overlay network. */
  type Cidr = c: (u32, u8) | 1 <= c.1 <= 32 witness (0, 24)

  const DEFAULT_GATEWAY: Overlay := Host(0x0aff_ff01, 24)
  const OLD_DEFAULT_GATEWAY: Overlay := Host(0x0aff_ff01, 30)
  const DEFAULT_BACKEND: Overlay := Host(0x0aff_ff02, 24)
  const OLD_DEFAULT_BACKEND: Overlay := Host(0x0aff_ff02, 30)

  /** `overlay_needs_assignment`. */
  predicate Needs(o: Overlay) {
    o == Auto || o == DEFAULT_GATEWAY || o == OLD_DEFAULT_GATEWAY || o == DEFAULT_BACKEND || o == OLD_DEFAULT_BACKEND
  }

  function Size(cidr: Cidr): (n: nat)
    ensures n > 0
  {
    Pow2(32 - cidr.1)
  }

  /** `base & (MAX << bits)`: the address with its low bits cleared. */
  function Network(base: nat, bits: nat): (n: nat)
    decreases bits
  {
    if bits == 0 then base else 2 * Network(base / 2, bits - 1)
  }

  /** Host numbers stay inside the address width. */
  lemma {:induction false} NetworkBound(base: nat, bits: nat, width: nat)
    requires bits <= width && base < Pow2(width)
    ensures Network(base, bits) + Pow2(bits) <= Pow2(width)
    decreases bits
  {
    if bits > 0 {
      NetworkBound(base / 2, bits - 1, width - 1);
    }
  }

  /** Adding a host number does not change the network. */
  lemma {:induction false} NetworkOfHost(base: nat, bits: nat, host: nat)
    requires host < Pow2(bits)
    ensures Network(Network(base, bits) + host, bits) == Network(base, bits)
    decreases bits
  {
    if bits > 0 {
      NetworkOfHost(base / 2, bits - 1, host / 2);
      assert (Network(base, bits) + host) / 2 == Network(base / 2, bits - 1) + host / 2;
    }
  }

  /** Clearing the low bits rounds down to a multiple of the network's size. */
  lemma {:induction false} NetworkAligned(base: nat, bits: nat) returns (k: nat)
    ensures Network(base, bits) == k * Pow2(bits) <= base < (k + 1) * Pow2(bits)
    decreases bits
  {
    if bits == 0 {
      k := base;
    } else {
      k := NetworkAligned(base / 2, bits - 1);
      Doubled(k, Pow2(bits - 1), base);
    }
  }

  lemma Doubled(k: nat, size: nat, x: nat)
    requires k * size <= x / 2 < (k + 1) * size
    ensures 2 * (k * size) == k * (2 * size) <= x < (k + 1) * (2 * size)
  {
    assert (k + 1) * (2 * size) == 2 * ((k + 1) * size);
  }

  /** Addresses of one network are in one network of every shorter prefix. */
  lemma {:induction false} NetworkCoarser(x: nat, y: nat, bits: nat, more: nat)
    requires Network(x, bits) == Network(y, bits) && bits <= more
    ensures Network(x, more) == Network(y, more)
    decreases bits
  {
    if bits > 0 {
      NetworkCoarser(x / 2, y / 2, bits - 1, more - 1);
    }
  }

  /** `overlay_host`: the `index`-th host address, if the network has it. */
  function HostAt(cidr: Cidr, index: nat): (r: Option<Overlay>)
    ensures r.Some? ==> r.value.Host? && r.value.ip == Network(cidr.0, 32 - cidr.1) + index
  {
    if cidr.1 > 30 || index == 0 || index >= Size(cidr) - 1 then None
    else
      Pow2Widths();
      NetworkBound(cidr.0, 32 - cidr.1, 32);
      Some(Host(Network(cidr.0, 32 - cidr.1) + index, cidr.1))
  }

  /** The hosts are the addresses of the network between its first and its last: with `k` networks of its size before
      it, host `index` is address `k * size + index`. */
  lemma HostInside(cidr: Cidr, index: nat, k: nat)
    requires k * Size(cidr) <= cidr.0 < (k + 1) * Size(cidr)
    ensures HostAt(cidr, index).Some? <==> cidr.1 <= 30 && 0 < index < Size(cidr) - 1
    ensures HostAt(cidr, index).Some? ==> IsHost(HostAt(cidr, index).value, k * Size(cidr) + index, cidr.1)
  {
    var n := NetworkAligned(cidr.0, 32 - cidr.1);
    SameMultiple(n, k, Size(cidr), cidr.0);
  }

  predicate IsHost(o: Overlay, ip: int, prefix: u8) {
    o.Host? && o.ip == ip && o.prefix == prefix
  }

  lemma SameMultiple(n: nat, k: nat, size: nat, x: nat)
    requires n * size <= x < (n + 1) * size && k * size <= x < (k + 1) * size
    ensures n == k
  {
    assert n < k ==> (n + 1) * size <= k * size;
    assert k < n ==> (k + 1) * size <= n * size;
  }

  /** From the second host on, only the second can look like an address that still needs assignment. */
  lemma OnlySecondHostNeeds(cidr: Cidr, index: nat)
    requires index >= 2 && HostAt(cidr, index).Some? && Needs(HostAt(cidr, index).value)
    ensures index == 2
  {
    var bits := 32 - cidr.1;
    NetworkOfHost(cidr.0, bits, index);
    DefaultNetworks(HostAt(cidr, index).value, bits);
  }

  lemma DefaultNetworks(o: Overlay, bits: nat)
    requires Needs(o) && o.Host? && bits == 32 - o.prefix
    ensures Network(o.ip, bits) == 0x0aff_ff00 && o.ip <= 0x0aff_ff02
  {
    if o.prefix == 24 {
      assert Network(0x0aff_ff01, 8) == 0x0aff_ff00 && Network(0x0aff_ff02, 8) == 0x0aff_ff00;
    } else {
      assert Network(0x0aff_ff01, 2) == 0x0aff_ff00 && Network(0x0aff_ff02, 2) == 0x0aff_ff00;
    }
  }

  // ---- The search for a free host --------------------------------------------------------------

  /** The first free host from `index` up to `last`; the search stops where the network ends. */
  function FirstHost(cidr: Cidr, used: set<Overlay>, index: nat, last: nat): (r: Option<Overlay>)
    ensures r.Some? ==> r.value !in used && exists i :: index <= i <= last && HostAt(cidr, i) == r
    decreases last + 1 - index
  {
    if index > last then None
    else
      match HostAt(cidr, index)
      case None => None
      case Some(o) => if o !in used then Some(o) else FirstHost(cidr, used, index + 1, last)
  }

  /** The hosts from 2 up to `last`. */
  ghost function HostsUpTo(cidr: Cidr, last: nat): (s: set<Overlay>)
    requires cidr.1 <= 30 && 1 <= last < Size(cidr) - 1
    ensures |s| == last - 1
    ensures forall o :: o in s ==> o.Host? && o.ip <= Network(cidr.0, 32 - cidr.1) + last
    ensures forall i :: 2 <= i <= last ==> HostAt(cidr, i).Some? && HostAt(cidr, i).value in s
  {
    if last == 1 then {} else HostsUpTo(cidr, last - 1) + {HostAt(cidr, last).value}
  }

  lemma {:induction false} FailedSearch(cidr: Cidr, used: set<Overlay>, index: nat, last: nat, i: nat)
    requires index <= i <= last && cidr.1 <= 30 && 1 <= index && last < Size(cidr) - 1
    requires FirstHost(cidr, used, index, last).None?
    ensures HostAt(cidr, i).Some? && HostAt(cidr, i).value in used
    decreases last + 1 - index
  {
    if index < i {
      FailedSearch(cidr, used, index + 1, last, i);
    }
  }

  /** Every host the hosts set collects is one of them. */
  lemma {:induction false} HostsAreHosts(cidr: Cidr, last: nat, o: Overlay)
    requires cidr.1 <= 30 && 1 <= last < Size(cidr) - 1 && o in HostsUpTo(cidr, last)
    ensures exists i :: 2 <= i <= last && HostAt(cidr, i) == Some(o)
    decreases last
  {
    if o == HostAt(cidr, last).value && last > 1 {
      assert HostAt(cidr, last) == Some(o);
    } else {
      HostsAreHosts(cidr, last - 1, o);
    }
  }

  /** The addresses given out to backends: the hosts from the second on. */
  ghost function Hosts(cidr: Cidr): (s: set<Overlay>)
    ensures |s| == if cidr.1 <= 30 then Size(cidr) - 3 else 0
  {
    if cidr.1 > 30 then {}
    else
      SmallestSize(cidr);
      HostsUpTo(cidr, Size(cidr) - 2)
  }

  lemma SmallestSize(cidr: Cidr)
    requires cidr.1 <= 30
    ensures Size(cidr) >= 4
  {
    Pow2Grows(2, 32 - cidr.1);
    assert Pow2(2) == 4;
  }

  lemma {:induction false} Pow2Grows(a: nat, b: nat)
    requires a <= b
    ensures Pow2(a) <= Pow2(b)
    decreases b - a
  {
    if a < b {
      Pow2Grows(a, b - 1);
    }
  }

  lemma HostInHosts(cidr: Cidr, i: nat)
    requires 2 <= i && HostAt(cidr, i).Some?
    ensures HostAt(cidr, i).value in Hosts(cidr)
  {
    SmallestSize(cidr);
    assert i <= Size(cidr) - 2;
  }

  lemma HostsUpToInHosts(cidr: Cidr, last: nat)
    requires cidr.1 <= 30 && 1 <= last < Size(cidr) - 1
    ensures HostsUpTo(cidr, last) <= Hosts(cidr)
  {
    forall o | o in HostsUpTo(cidr, last)
      ensures o in Hosts(cidr)
    {
      HostsAreHosts(cidr, last, o);
      var i :| 2 <= i <= last && HostAt(cidr, i) == Some(o);
      HostInHosts(cidr, i);
    }
  }

  /** The search goes on until a host is free. */
  lemma SearchFinds(cidr: Cidr, used: set<Overlay>, last: nat)
    requires cidr.1 <= 30 && |used * Hosts(cidr)| + 2 <= last && |used * Hosts(cidr)| + 4 <= Size(cidr)
    ensures FirstHost(cidr, used, 2, last).Some?
  {
    var reach := |used * Hosts(cidr)| + 2;
    if FirstHost(cidr, used, 2, last).None? {
      FirstHostMonotone(cidr, used, 2, reach, last);
      HostsUpToInHosts(cidr, reach);
      forall o | o in HostsUpTo(cidr, reach)
        ensures o in used
      {
        HostsAreHosts(cidr, reach, o);
        var i :| 2 <= i <= reach && HostAt(cidr, i) == Some(o);
        FailedSearch(cidr, used, 2, reach, i);
      }
      SubsetSize(HostsUpTo(cidr, reach), used * Hosts(cidr));
    }
  }

  /** Pigeonhole: the bounded search finds a host exactly if not all of them are used; addresses elsewhere do not
      count. */
  lemma SearchSucceedsIff(cidr: Cidr, used: set<Overlay>, last: nat)
    requires |used * Hosts(cidr)| + 2 <= last
    ensures FirstHost(cidr, used, 2, last).Some? <==> |used * Hosts(cidr)| < |Hosts(cidr)|
    ensures FirstHost(cidr, used, 2, last).Some? ==> FirstHost(cidr, used, 2, last).value in Hosts(cidr)
  {
    var found := FirstHost(cidr, used, 2, last);
    if found.Some? {
      var i :| 2 <= i <= last && HostAt(cidr, i) == found;
      HostInHosts(cidr, i);
      SubsetSize(used * Hosts(cidr), Hosts(cidr) - {found.value});
    } else if |used * Hosts(cidr)| < |Hosts(cidr)| {
      SearchFinds(cidr, used, last);
    }
  }

  /** The search gives out `hosts`, as long as one is free. */
  ghost predicate GivesOut(cidr: Cidr, hosts: set<Overlay>) {
    forall used: set<Overlay>, last: nat :: |used * hosts| + 2 <= last ==>
      (FirstHost(cidr, used, 2, last).Some? <==> |used * hosts| < |hosts|)
      && (FirstHost(cidr, used, 2, last).Some? ==> FirstHost(cidr, used, 2, last).value in hosts)
  }

  lemma SearchGivesOutHosts(cidr: Cidr)
    ensures GivesOut(cidr, Hosts(cidr))
  {
    forall used: set<Overlay>, last: nat | |used * Hosts(cidr)| + 2 <= last
      ensures (FirstHost(cidr, used, 2, last).Some? <==> |used * Hosts(cidr)| < |Hosts(cidr)|)
      ensures FirstHost(cidr, used, 2, last).Some? ==> FirstHost(cidr, used, 2, last).value in Hosts(cidr)
    {
      SearchSucceedsIff(cidr, used, last);
    }
  }

  /** A failed search fails all the more when more is used. */
  lemma {:induction false} FailedStaysFailed(cidr: Cidr, used: set<Overlay>, again: set<Overlay>, index: nat, last: nat)
    requires used <= again && FirstHost(cidr, used, index, last).None?
    ensures FirstHost(cidr, again, index, last).None?
    decreases last + 1 - index
  {
    if index <= last && HostAt(cidr, index).Some? {
      FailedStaysFailed(cidr, used, again, index + 1, last);
    }
  }

  lemma {:induction false} FirstHostMonotone(cidr: Cidr, used: set<Overlay>, index: nat, a: nat, b: nat)
    requires a <= b && FirstHost(cidr, used, index, b).None?
    ensures FirstHost(cidr, used, index, a).None?
    decreases b + 1 - index
  {
    if index <= a && HostAt(cidr, index).Some? {
      FirstHostMonotone(cidr, used, index + 1, a, b);
    }
  }

  // ---- The assignment --------------------------------------------------------------------------

  /** The overlay settings of a configuration: gateway nodes, the local gateway, backend nodes. */
  datatype Plan = Plan(gateways: seq<Overlay>, own: Overlay, backends: seq<Overlay>)

  /** A gateway setting after assignment: the first host where one is needed and exists. */
  function GatewayValue(cidr: Cidr, o: Overlay): (r: Overlay) {
    if Needs(o) && HostAt(cidr, 1).Some? then HostAt(cidr, 1).value else o
  }

  function GatewayValues(cidr: Cidr, gs: seq<Overlay>): (r: seq<Overlay>) {
    seq(|gs|, i requires 0 <= i < |gs| => GatewayValue(cidr, gs[i]))
  }

  /** The addresses the gateways take. */
  function GatewayUse(p: Plan): (s: set<Overlay>) {
    Taken(p.gateways, p.own)
  }

  function Taken(gateways: seq<Overlay>, own: Overlay): (s: set<Overlay>) {
    (set o | o in gateways) + {own}
  }

  /** First pass over the backends: an explicit address that is taken is given up. Returns the settings and the
      addresses in use. */
  function KeepExplicit(bs: seq<Overlay>, used: set<Overlay>): (r: (seq<Overlay>, set<Overlay>))
    ensures |r.0| == |bs|
    decreases |bs|
  {
    if bs == [] then ([], used)
    else if Needs(bs[0]) then
      var (rest, all) := KeepExplicit(bs[1..], used);
      ([bs[0]] + rest, all)
    else if bs[0] in used then
      var (rest, all) := KeepExplicit(bs[1..], used);
      ([DEFAULT_BACKEND] + rest, all)
    else
      var (rest, all) := KeepExplicit(bs[1..], used + {bs[0]});
      ([bs[0]] + rest, all)
  }

  /** Second pass: every backend that needs an address gets the first free host. */
  function Place(cidr: Cidr, bs: seq<Overlay>, used: set<Overlay>, last: nat): (r: seq<Overlay>)
    ensures |r| == |bs|
    decreases |bs|
  {
    if bs == [] then []
    else
      match (if Needs(bs[0]) then FirstHost(cidr, used, 2, last) else None)
      case None => [bs[0]] + Place(cidr, bs[1..], used, last)
      case Some(o) => [o] + Place(cidr, bs[1..], used + {o}, last)
  }

  /** The gateway part of an assignment. */
  function GatewaysAssigned(cidr: Cidr, p: Plan): (q: Plan) {
    Plan(GatewayValues(cidr, p.gateways), GatewayValue(cidr, p.own), p.backends)
  }

  /** `assign_overlay_ips`. */
  function Assigned(cidr: Cidr, p: Plan): (r: Plan)
    ensures |r.gateways| == |p.gateways| && |r.backends| == |p.backends|
  {
    var q := GatewaysAssigned(cidr, p);
    var (kept, used) := KeepExplicit(q.backends, GatewayUse(q));
    q.(backends := Place(cidr, kept, used, |p.backends| + |p.gateways| + 256))
  }

  // ---- Distinct addresses ----------------------------------------------------------------------

  ghost predicate Distinct(bs: seq<Overlay>) {
    forall i, j :: 0 <= i < j < |bs| ==> bs[i] != bs[j]
  }

  /** Backend settings that need no further assignment: distinct, none a gateway's, and the second host the only one
      that can look unassigned. */
  ghost predicate WellPlaced(cidr: Cidr, bs: seq<Overlay>, use: set<Overlay>) {
    Distinct(bs) && (forall i :: 0 <= i < |bs| ==> bs[i] !in use)
    && forall i :: 0 <= i < |bs| && Needs(bs[i]) ==> HostAt(cidr, 2) == Some(bs[i])
  }

  /** Explicit settings of a list are pairwise distinct and in use. */
  ghost predicate ExplicitOwned(bs: seq<Overlay>, used: set<Overlay>) {
    (forall i :: 0 <= i < |bs| && !Needs(bs[i]) ==> bs[i] in used)
    && (forall i, j :: 0 <= i < j < |bs| && !Needs(bs[i]) ==> bs[i] != bs[j])
  }

  /** How many settings of a list still need an address. */
  function Needy(bs: seq<Overlay>): (n: nat)
    ensures n <= |bs|
    decreases |bs|
  {
    if bs == [] then 0 else (if Needs(bs[0]) then 1 else 0) + Needy(bs[1..])
  }

  /** After the first pass the explicit settings are distinct, fresh and all recorded, and each backend is counted
      once. */
  lemma {:induction false} KeepExplicitOwns(bs: seq<Overlay>, used: set<Overlay>)
    ensures var (kept, all) := KeepExplicit(bs, used);
            used <= all && ExplicitOwned(kept, all)
            && (forall i :: 0 <= i < |kept| && !Needs(kept[i]) ==> kept[i] !in used && kept[i] == bs[i])
            && (forall o :: o in all && o !in used ==> !Needs(o) && o in kept)
            && |all| + Needy(kept) == |used| + |bs|
    decreases |bs|
  {
    if bs != [] {
      var keep := !Needs(bs[0]) && bs[0] !in used;
      var next := if keep then used + {bs[0]} else used;
      KeepExplicitOwns(bs[1..], next);
      var (kept, all) := KeepExplicit(bs, used);
      assert kept[1..] == KeepExplicit(bs[1..], next).0;
      assert keep ==> kept[0] == bs[0];
    }
  }

  // ---- The second pass -------------------------------------------------------------------------

  /** What a list after the second pass owes to the one before: explicit settings as they were, or new ones not used. */
  lemma {:induction false} PlaceOwned(cidr: Cidr, bs: seq<Overlay>, used: set<Overlay>, last: nat)
    requires ExplicitOwned(bs, used)
    ensures var r := Place(cidr, bs, used, last);
            (forall i :: 0 <= i < |bs| && !Needs(bs[i]) ==> r[i] == bs[i])
            && (forall i :: 0 <= i < |bs| && Needs(bs[i]) ==> r[i] == bs[i] || r[i] !in used)
            && (forall i, j :: 0 <= i < j < |bs| && !Needs(r[i]) ==> r[i] != r[j])
    decreases |bs|
  {
    if bs != [] {
      var r := Place(cidr, bs, used, last);
      var found := if Needs(bs[0]) then FirstHost(cidr, used, 2, last) else None;
      var next := if found.Some? then used + {found.value} else used;
      PlaceOwned(cidr, bs[1..], next, last);
      assert r[1..] == Place(cidr, bs[1..], next, last);
      assert forall j :: 1 <= j < |bs| ==> r[j] == r[1..][j - 1] && bs[j] == bs[1..][j - 1];
    }
  }

  /** Every setting in need finds a host in its turn. */
  ghost predicate AllFound(cidr: Cidr, bs: seq<Overlay>, used: set<Overlay>, last: nat)
    decreases |bs|
  {
    bs == []
    || (if !Needs(bs[0]) then AllFound(cidr, bs[1..], used, last)
        else
          match FirstHost(cidr, used, 2, last)
          case None => false
          case Some(o) => AllFound(cidr, bs[1..], used + {o}, last))
  }

  lemma OneMoreHost(used: set<Overlay>, o: Overlay, hosts: set<Overlay>)
    ensures |(used + {o}) * hosts| == |used * hosts| + (if o in hosts && o !in used then 1 else 0)
  {
    if o in hosts && o !in used {
      assert (used + {o}) * hosts == used * hosts + {o};
    } else {
      assert (used + {o}) * hosts == used * hosts;
    }
  }

  /** They all do exactly if there are hosts enough beside the used ones. */
  lemma {:induction false} AllFoundIff(cidr: Cidr, bs: seq<Overlay>, used: set<Overlay>, last: nat, hosts: set<Overlay>)
    requires GivesOut(cidr, hosts) && |used * hosts| + Needy(bs) + 1 <= last
    ensures AllFound(cidr, bs, used, last) <==> |used * hosts| + Needy(bs) <= |hosts|
    decreases |bs|
  {
    if bs == [] {
      SubsetSize(used * hosts, hosts);
    } else if !Needs(bs[0]) {
      AllFoundIff(cidr, bs[1..], used, last, hosts);
    } else if FirstHost(cidr, used, 2, last).Some? {
      var o := FirstHost(cidr, used, 2, last).value;
      OneMoreHost(used, o, hosts);
      AllFoundIff(cidr, bs[1..], used + {o}, last, hosts);
    }
  }

  /** If they all do, all settings end up different, and the new ones are unused hosts. */
  lemma {:induction false} FoundDistinct(cidr: Cidr, bs: seq<Overlay>, used: set<Overlay>, last: nat)
    requires ExplicitOwned(bs, used) && AllFound(cidr, bs, used, last)
    ensures var r := Place(cidr, bs, used, last);
            Distinct(r)
            && (forall i :: 0 <= i < |bs| && !Needs(bs[i]) ==> r[i] == bs[i])
            && (forall i :: 0 <= i < |bs| && Needs(bs[i]) ==>
                  r[i] !in used && exists n :: 2 <= n && HostAt(cidr, n) == Some(r[i]))
    decreases |bs|
  {
    if bs != [] {
      var r := Place(cidr, bs, used, last);
      var next := if Needs(bs[0]) then used + {FirstHost(cidr, used, 2, last).value} else used;
      FoundDistinct(cidr, bs[1..], next, last);
      assert r[1..] == Place(cidr, bs[1..], next, last);
    }
  }

  /** If one does not, it is left as it was, with the second host used or given out before. */
  lemma {:induction false} NotFound(cidr: Cidr, bs: seq<Overlay>, used: set<Overlay>, last: nat) returns (i: nat)
    requires !AllFound(cidr, bs, used, last) && last >= 2
    ensures i < |bs| && Needs(bs[i]) && Place(cidr, bs, used, last)[i] == bs[i]
    ensures HostAt(cidr, 2).Some? ==>
              HostAt(cidr, 2).value in used
              || exists j :: 0 <= j < i && Place(cidr, bs, used, last)[j] == HostAt(cidr, 2).value
    decreases |bs|
  {
    var r := Place(cidr, bs, used, last);
    var found := if Needs(bs[0]) then FirstHost(cidr, used, 2, last) else None;
    if Needs(bs[0]) && found.None? {
      i := 0;
    } else {
      var next := if found.Some? then used + {found.value} else used;
      var k := NotFound(cidr, bs[1..], next, last);
      i := k + 1;
      var rest := Place(cidr, bs[1..], next, last);
      assert r == [r[0]] + rest;
      if HostAt(cidr, 2).Some? && HostAt(cidr, 2).value !in used {
        if HostAt(cidr, 2).value in next {
          assert r[0] == HostAt(cidr, 2).value;
        } else {
          var j :| 0 <= j < k && rest[j] == HostAt(cidr, 2).value;
          assert r[j + 1] == rest[j];
        }
      }
    }
  }

  // ---- Both passes -----------------------------------------------------------------------------

  /** What both passes make of the backends. */
  function Passed(cidr: Cidr, bs: seq<Overlay>, use: set<Overlay>, last: nat): (r: seq<Overlay>) {
    Place(cidr, KeepExplicit(bs, use).0, KeepExplicit(bs, use).1, last)
  }

  lemma FoundWellPlaced(cidr: Cidr, bs: seq<Overlay>, use: set<Overlay>, last: nat)
    requires AllFound(cidr, KeepExplicit(bs, use).0, KeepExplicit(bs, use).1, last)
    ensures WellPlaced(cidr, Passed(cidr, bs, use, last), use)
  {
    var (kept, used) := KeepExplicit(bs, use);
    KeepExplicitOwns(bs, use);
    FoundDistinct(cidr, kept, used, last);
    var r := Place(cidr, kept, used, last);
    forall i | 0 <= i < |r| && Needs(r[i])
      ensures HostAt(cidr, 2) == Some(r[i])
    {
      assert Needs(kept[i]);
      var n :| 2 <= n && HostAt(cidr, n) == Some(r[i]);
      OnlySecondHostNeeds(cidr, n);
    }
  }

  /** A backend without a host can only look like the second one, which then is a gateway's or another backend's. */
  lemma WellPlacedFound(cidr: Cidr, bs: seq<Overlay>, use: set<Overlay>, last: nat)
    requires last >= 2 && WellPlaced(cidr, Passed(cidr, bs, use, last), use)
    ensures AllFound(cidr, KeepExplicit(bs, use).0, KeepExplicit(bs, use).1, last)
  {
    var (kept, used) := KeepExplicit(bs, use);
    if !AllFound(cidr, kept, used, last) {
      KeepExplicitOwns(bs, use);
      var i := NotFound(cidr, kept, used, last);
    }
  }

  lemma PassesIff(cidr: Cidr, bs: seq<Overlay>, use: set<Overlay>, last: nat, hosts: set<Overlay>)
    requires GivesOut(cidr, hosts) && last >= |use| + |bs| + 2
    ensures var (kept, used) := KeepExplicit(bs, use);
            WellPlaced(cidr, Passed(cidr, bs, use, last), use) <==> |used * hosts| + Needy(kept) <= |hosts|
  {
    var (kept, used) := KeepExplicit(bs, use);
    KeepExplicitOwns(bs, use);
    SubsetSize(used * hosts, used);
    AllFoundIff(cidr, kept, used, last, hosts);
    if AllFound(cidr, kept, used, last) {
      FoundWellPlaced(cidr, bs, use, last);
    } else if WellPlaced(cidr, Passed(cidr, bs, use, last), use) {
      WellPlacedFound(cidr, bs, use, last);
    }
  }

  // ---- When every backend gets an address of its own -------------------------------------------

  lemma {:induction false} SeqSetSize(os: seq<Overlay>)
    ensures |set o | o in os| <= |os|
    decreases |os|
  {
    if os == [] {
      assert (set o | o in os) == {};
    } else {
      SeqSetSize(os[1..]);
      assert (set o | o in os) == (set o | o in os[1..]) + {os[0]};
    }
  }

  /** The parts of an assignment. */
  lemma AssignedParts(cidr: Cidr, p: Plan)
    ensures var q, r := GatewaysAssigned(cidr, p), Assigned(cidr, p);
            r == q.(backends := r.backends) && GatewayUse(r) == GatewayUse(q)
            && r.backends == Passed(cidr, p.backends, GatewayUse(q), |p.backends| + |p.gateways| + 256)
  {
  }

  lemma GatewayUseSize(cidr: Cidr, p: Plan)
    ensures |GatewayUse(GatewaysAssigned(cidr, p))| <= |p.gateways| + 1
  {
    SeqSetSize(GatewaysAssigned(cidr, p).gateways);
  }

  /** There are hosts for all backends left in need by the first pass, beside those in use then. */
  ghost predicate Fits(cidr: Cidr, p: Plan) {
    var (kept, used) := KeepExplicit(p.backends, GatewayUse(GatewaysAssigned(cidr, p)));
    |used * Hosts(cidr)| + Needy(kept) <= |Hosts(cidr)|
  }

  /** For every plan and every network: all backends end with addresses of their own, shared with no backend and no
      gateway, none left unassigned, if and only if there are hosts for those in need. */
  lemma AssignmentDistinctIff(cidr: Cidr, p: Plan)
    ensures var r := Assigned(cidr, p);
            WellPlaced(cidr, r.backends, GatewayUse(r)) <==> Fits(cidr, p)
  {
    AssignedParts(cidr, p);
    GatewayUseSize(cidr, p);
    SearchGivesOutHosts(cidr);
    PassesIff(cidr, p.backends, GatewayUse(GatewaysAssigned(cidr, p)), |p.backends| + |p.gateways| + 256, Hosts(cidr));
  }

  /** The first pass takes at most one host for each backend that is not left in need. */
  lemma {:induction false} KeepExplicitRoom(bs: seq<Overlay>, used: set<Overlay>, hosts: set<Overlay>)
    ensures var (kept, all) := KeepExplicit(bs, used);
            |all * hosts| + Needy(kept) <= |used * hosts| + |bs|
    decreases |bs|
  {
    if bs != [] {
      var keep := !Needs(bs[0]) && bs[0] !in used;
      var next := if keep then used + {bs[0]} else used;
      KeepExplicitRoom(bs[1..], next, hosts);
      OneMoreHost(used, bs[0], hosts);
      var (kept, all) := KeepExplicit(bs, used);
      assert kept[1..] == KeepExplicit(bs[1..], next).0;
    }
  }

  /** A bound that needs no look at the settings: a host for each backend beside those that gateways take. It holds in
      particular with gateways + backends + 4 addresses, and with what the configuration check asks for when no gateway
      sits on a backend's host. */
  lemma RoomyFits(cidr: Cidr, p: Plan)
    requires cidr.1 <= 30
    requires |GatewayUse(GatewaysAssigned(cidr, p)) * Hosts(cidr)| + |p.backends| + 3 <= Size(cidr)
    ensures Fits(cidr, p)
  {
    KeepExplicitRoom(p.backends, GatewayUse(GatewaysAssigned(cidr, p)), Hosts(cidr));
  }

  lemma SpareAddressesFit(cidr: Cidr, p: Plan)
    requires cidr.1 <= 30 && |p.gateways| + |p.backends| + 4 <= Size(cidr)
    ensures Fits(cidr, p)
  {
    var use := GatewayUse(GatewaysAssigned(cidr, p));
    GatewayUseSize(cidr, p);
    SubsetSize(use * Hosts(cidr), use);
    RoomyFits(cidr, p);
  }

  /** Two backends in a network of four addresses: only one host for both. */
  lemma CrowdedInstance() returns (cidr: Cidr, p: Plan)
    ensures var r := Assigned(cidr, p); !WellPlaced(cidr, r.backends, GatewayUse(r))
  {
    cidr, p := (0x0a00_0000, 30), Plan([], Auto, [Auto, Auto]);
    assert Pow2(2) == 4 && Size(cidr) == 4;
    var use := GatewayUse(GatewaysAssigned(cidr, p));
    assert [Auto, Auto][1..] == [Auto] && [Auto][1..] == [];
    NeedyKept(p.backends, use);
    assert Needy([Auto]) == 1 && Needy(p.backends) == 2;
    AssignmentDistinctIff(cidr, p);
  }

  lemma {:induction false} NeedyKept(bs: seq<Overlay>, used: set<Overlay>)
    requires forall i :: 0 <= i < |bs| ==> Needs(bs[i])
    ensures KeepExplicit(bs, used).0 == bs && KeepExplicit(bs, used).1 == used
    decreases |bs|
  {
    if bs != [] {
      NeedyKept(bs[1..], used);
      assert bs == [bs[0]] + bs[1..];
    }
  }

  // ---- Who keeps what --------------------------------------------------------------------------

  /** A gateway in need takes the first host, if the network has hosts; every other setting of a gateway stays. */
  lemma GatewaysTakeFirstHost(cidr: Cidr, p: Plan, k: nat, i: nat)
    requires k * Size(cidr) <= cidr.0 < (k + 1) * Size(cidr) && i < |p.gateways|
    ensures var r, first := Assigned(cidr, p), k * Size(cidr) + 1;
            (if Needs(p.gateways[i]) && cidr.1 <= 30 then IsHost(r.gateways[i], first, cidr.1)
             else r.gateways[i] == p.gateways[i])
            && if Needs(p.own) && cidr.1 <= 30 then IsHost(r.own, first, cidr.1) else r.own == p.own
  {
    HostInside(cidr, 1, k);
    if cidr.1 <= 30 {
      FourAddresses(cidr);
    }
  }

  lemma FourAddresses(cidr: Cidr)
    requires cidr.1 <= 30
    ensures Size(cidr) >= 4
  {
    assert Pow2(32 - cidr.1) == 2 * Pow2(31 - cidr.1) == 4 * Pow2(30 - cidr.1);
  }

  lemma {:induction false} KeptAt(bs: seq<Overlay>, used: set<Overlay>, i: nat)
    requires i < |bs| && !Needs(bs[i])
    ensures var (kept, all) := KeepExplicit(bs, used);
            bs[i] in all && used <= all
            && kept[i] == if bs[i] in used || exists j :: 0 <= j < i && bs[j] == bs[i] then DEFAULT_BACKEND else bs[i]
    decreases |bs|
  {
    var next := if Needs(bs[0]) then used else used + {bs[0]};
    assert bs[0] in used ==> used + {bs[0]} == used;
    KeptUse(bs[1..], next);
    if i > 0 {
      KeptAt(bs[1..], next, i - 1);
      assert forall j :: 1 <= j < i ==> bs[j] == bs[1..][j - 1];
      if exists j :: 0 <= j < i && bs[j] == bs[i] {
        var j :| 0 <= j < i && bs[j] == bs[i];
        assert j > 0 ==> bs[1..][j - 1] == bs[i];
      }
    }
  }

  lemma {:induction false} KeptUse(bs: seq<Overlay>, used: set<Overlay>)
    ensures used <= KeepExplicit(bs, used).1
    decreases |bs|
  {
    if bs != [] {
      KeptUse(bs[1..], used);
      KeptUse(bs[1..], used + {bs[0]});
    }
  }

  lemma {:induction false} PlacedAt(cidr: Cidr, bs: seq<Overlay>, used: set<Overlay>, last: nat, i: nat)
    requires i < |bs|
    ensures var r := Place(cidr, bs, used, last);
            r[i] == bs[i] || (Needs(bs[i]) && r[i] !in used)
    decreases |bs|
  {
    if i > 0 {
      var found := if Needs(bs[0]) then FirstHost(cidr, used, 2, last) else None;
      PlacedAt(cidr, bs[1..], if found.Some? then used + {found.value} else used, last, i - 1);
    }
  }

  /** A backend keeps the address it was given if and only if no gateway has it and no backend before it asks for it. */
  lemma ExplicitKeptIff(cidr: Cidr, p: Plan, i: nat)
    requires i < |p.backends| && !Needs(p.backends[i])
    ensures Assigned(cidr, p).backends[i] == p.backends[i]
       <==> p.backends[i] !in GatewayUse(Assigned(cidr, p))
            && forall j :: 0 <= j < i ==> p.backends[j] != p.backends[i]
  {
    var q := GatewaysAssigned(cidr, p);
    var (kept, used) := KeepExplicit(p.backends, GatewayUse(q));
    KeptAt(p.backends, GatewayUse(q), i);
    PlacedAt(cidr, kept, used, |p.backends| + |p.gateways| + 256, i);
  }

  // ---- Normalizing again -----------------------------------------------------------------------

  /** Explicit settings that are distinct and free pass the first pass unchanged. */
  lemma {:induction false} KeepExplicitFixed(bs: seq<Overlay>, used: set<Overlay>)
    requires forall i :: 0 <= i < |bs| && !Needs(bs[i]) ==> bs[i] !in used
    requires forall i, j :: 0 <= i < j < |bs| && !Needs(bs[i]) ==> bs[i] != bs[j]
    ensures var (kept, all) := KeepExplicit(bs, used);
            kept == bs && forall o :: o in all <==> o in used || (o in bs && !Needs(o))
    decreases |bs|
  {
    if bs != [] {
      var tail := if Needs(bs[0]) then used else used + {bs[0]};
      KeepExplicitFixed(bs[1..], tail);
      assert bs == [bs[0]] + bs[1..];
    }
  }

  /** The second pass leaves its own result alone: who found a host keeps it, and who found none finds none. */
  lemma {:induction false} PlaceFixed(cidr: Cidr, bs: seq<Overlay>, used: set<Overlay>, again: set<Overlay>, last: nat)
    requires used <= again && last >= 2 && forall o :: o in again && Needs(o) ==> o in used
    requires forall o :: o in Place(cidr, bs, used, last) && !Needs(o) ==> o in again
    ensures Place(cidr, Place(cidr, bs, used, last), again, last) == Place(cidr, bs, used, last)
    decreases |bs|
  {
    if bs != [] {
      var r := Place(cidr, bs, used, last);
      var found := if Needs(bs[0]) then FirstHost(cidr, used, 2, last) else None;
      var next := if found.Some? then used + {found.value} else used;
      var rest := Place(cidr, bs[1..], next, last);
      assert r == [r[0]] + rest && r[1..] == rest;
      if found.Some? && Needs(found.value) {
        SecondHostAgain(cidr, used, again, last);
        PlaceFixed(cidr, bs[1..], next, again + {found.value}, last);
      } else {
        if Needs(bs[0]) && found.None? {
          FailedStaysFailed(cidr, used, again, 2, last);
        }
        assert r[0] in r;
        PlaceFixed(cidr, bs[1..], next, again, last);
      }
    }
  }

  /** A host that still looks unassigned is the second one, and is found first again. */
  lemma SecondHostAgain(cidr: Cidr, used: set<Overlay>, again: set<Overlay>, last: nat)
    requires FirstHost(cidr, used, 2, last).Some? && Needs(FirstHost(cidr, used, 2, last).value)
    requires forall o :: o in again && Needs(o) ==> o in used
    ensures FirstHost(cidr, again, 2, last) == FirstHost(cidr, used, 2, last)
  {
    var o := FirstHost(cidr, used, 2, last).value;
    var n :| 2 <= n <= last && HostAt(cidr, n) == Some(o);
    OnlySecondHostNeeds(cidr, n);
  }

  /** Both passes leave their own result alone. */
  lemma PassedAgain(cidr: Cidr, bs: seq<Overlay>, use: set<Overlay>, last: nat)
    requires last >= 2
    ensures Passed(cidr, Passed(cidr, bs, use, last), use, last) == Passed(cidr, bs, use, last)
  {
    var (kept, used) := KeepExplicit(bs, use);
    var r := Passed(cidr, bs, use, last);
    KeepExplicitOwns(bs, use);
    PlaceOwned(cidr, kept, used, last);
    KeepExplicitFixed(r, use);
    var again := KeepExplicit(r, use).1;
    forall o | o in used
      ensures o in again
    {
      if o !in use {
        var i :| 0 <= i < |kept| && kept[i] == o;
        assert r[i] == o;
      }
    }
    PlaceFixed(cidr, kept, used, again, last);
  }

  /** Assigned gateways are left alone by a second pass. */
  lemma GatewaysFixed(cidr: Cidr, p: Plan, r: Plan)
    requires r.gateways == GatewaysAssigned(cidr, p).gateways && r.own == GatewaysAssigned(cidr, p).own
    ensures GatewaysAssigned(cidr, r) == r
  {
    assert GatewayValues(cidr, r.gateways) == r.gateways;
  }

  /** Backends that an assignment has placed, or could not place, stay as they are in every later one with the same
      gateways, in every network. */
  lemma PlacedBackendsStay(cidr: Cidr, p: Plan, q: Plan)
    requires q.backends == Assigned(cidr, p).backends
    requires GatewaysAssigned(cidr, q) == GatewaysAssigned(cidr, p).(backends := q.backends)
    ensures Assigned(cidr, q) == Assigned(cidr, p)
  {
    AssignedParts(cidr, p);
    AssignedParts(cidr, q);
    assert |GatewaysAssigned(cidr, q).gateways| == |q.gateways| && |GatewaysAssigned(cidr, p).gateways| == |p.gateways|;
    PassedAgain(cidr, p.backends, GatewayUse(GatewaysAssigned(cidr, p)), |p.backends| + |p.gateways| + 256);
  }

  /** Normalizing an assigned configuration again changes nothing, with or without room. */
  lemma AssignmentIdempotent(cidr: Cidr, p: Plan)
    ensures Assigned(cidr, Assigned(cidr, p)) == Assigned(cidr, p)
  {
    AssignedParts(cidr, p);
    GatewaysFixed(cidr, p, Assigned(cidr, p));
    PlacedBackendsStay(cidr, p, Assigned(cidr, p));
  }

  // ---- The configuration object ----------------------------------------------------------------

  /** The first `i` settings of `now` are what the first pass makes of `bs`, the rest is untouched. */
  ghost predicate KeptUpTo(bs: seq<Overlay>, taken: set<Overlay>, now: seq<Overlay>, used: set<Overlay>, i: nat) {
    i <= |bs| == |now| && now[i..] == bs[i..]
    && KeepExplicit(bs, taken).0 == now[..i] + KeepExplicit(bs[i..], used).0
    && KeepExplicit(bs, taken).1 == KeepExplicit(bs[i..], used).1
  }

  lemma KeepHead(bs: seq<Overlay>, used: set<Overlay>, i: nat)
    requires i < |bs|
    ensures var b := bs[i];
            var free := !Needs(b) && b !in used;
            var rest := KeepExplicit(bs[i + 1..], if free then used + {b} else used);
            KeepExplicit(bs[i..], used).0 == [if Needs(b) || free then b else DEFAULT_BACKEND] + rest.0
            && KeepExplicit(bs[i..], used).1 == rest.1
  {
    assert bs[i..][0] == bs[i] && bs[i..][1..] == bs[i + 1..];
  }

  lemma KeepStep(bs: seq<Overlay>, taken: set<Overlay>, now: seq<Overlay>, used: set<Overlay>, i: nat)
    requires i < |bs| && KeptUpTo(bs, taken, now, used, i)
    ensures now[i] == bs[i]
    ensures Needs(bs[i]) ==> KeptUpTo(bs, taken, now, used, i + 1)
    ensures !Needs(bs[i]) && bs[i] in used ==> KeptUpTo(bs, taken, now[i := DEFAULT_BACKEND], used, i + 1)
    ensures !Needs(bs[i]) && bs[i] !in used ==> KeptUpTo(bs, taken, now, used + {bs[i]}, i + 1)
  {
    KeepHead(bs, used, i);
    var free := !Needs(bs[i]) && bs[i] !in used;
    var rest := KeepExplicit(bs[i + 1..], if free then used + {bs[i]} else used).0;
    WriteNext(now, bs, i, if Needs(bs[i]) || free then bs[i] else DEFAULT_BACKEND, rest);
  }

  /** The first `i` settings of `now` are what the second pass makes of `bs`, the rest is untouched. */
  ghost predicate PlacedUpTo(
    cidr: Cidr, bs: seq<Overlay>, taken: set<Overlay>, last: nat, now: seq<Overlay>, used: set<Overlay>, i: nat) {
    i <= |bs| == |now| && now[i..] == bs[i..]
    && Place(cidr, bs, taken, last) == now[..i] + Place(cidr, bs[i..], used, last)
  }

  lemma PlaceHead(cidr: Cidr, bs: seq<Overlay>, used: set<Overlay>, last: nat, i: nat)
    requires i < |bs|
    ensures Place(cidr, bs[i..], used, last)
         == match (if Needs(bs[i]) then FirstHost(cidr, used, 2, last) else None)
            case None => [bs[i]] + Place(cidr, bs[i + 1..], used, last)
            case Some(o) => [o] + Place(cidr, bs[i + 1..], used + {o}, last)
  {
    assert bs[i..][0] == bs[i] && bs[i..][1..] == bs[i + 1..];
  }

  lemma WriteNext(now: seq<Overlay>, bs: seq<Overlay>, i: nat, o: Overlay, rest: seq<Overlay>)
    requires i < |bs| == |now| && now[i..] == bs[i..]
    ensures now[i] == bs[i] && now[i := bs[i]] == now && now[i := o][i + 1..] == bs[i + 1..]
    ensures now[..i] + ([o] + rest) == now[i := o][..i + 1] + rest
  {
    assert now[i] == now[i..][0] == bs[i..][0] == bs[i];
    assert now[i := o][i + 1..] == now[i..][1..] == bs[i..][1..] == bs[i + 1..];
  }

  lemma PlaceStep(
    cidr: Cidr, bs: seq<Overlay>, taken: set<Overlay>, last: nat, now: seq<Overlay>, used: set<Overlay>, i: nat)
    requires i < |bs| && PlacedUpTo(cidr, bs, taken, last, now, used, i)
    ensures now[i] == bs[i]
    ensures match (if Needs(bs[i]) then FirstHost(cidr, used, 2, last) else None)
            case None => PlacedUpTo(cidr, bs, taken, last, now, used, i + 1)
            case Some(o) => PlacedUpTo(cidr, bs, taken, last, now[i := o], used + {o}, i + 1)
  {
    PlaceHead(cidr, bs, used, last, i);
    match (if Needs(bs[i]) then FirstHost(cidr, used, 2, last) else None)
    case None =>
      WriteNext(now, bs, i, bs[i], Place(cidr, bs[i + 1..], used, last));
    case Some(o) =>
      WriteNext(now, bs, i, o, Place(cidr, bs[i + 1..], used + {o}, last));
  }

  class Inventory {
    var gateways: seq<Overlay>
    var own: Overlay
    var backends: seq<Overlay>

    ghost function State(): (p: Plan)
      reads this
    {
      Plan(gateways, own, backends)
    }

    constructor (p: Plan)
      ensures State() == p
    {
      gateways, own, backends := p.gateways, p.own, p.backends;
    }

    /** `assign_overlay_ips`. */
    method AssignOverlayIps(cidr: Cidr)
      modifies this
      ensures State() == Assigned(cidr, old(State()))
    {
      var used := AssignGateways(cidr);
      used := DropTaken(used);
      PlaceBackends(cidr, used);
    }

    method AssignGateways(cidr: Cidr) returns (used: set<Overlay>)
      modifies this`gateways, this`own
      ensures State() == GatewaysAssigned(cidr, old(State())) && used == GatewayUse(State())
    {
      used := {};
      var first := HostAt(cidr, 1);
      for i := 0 to |gateways|
        invariant |gateways| == |old(gateways)| && own == old(own)
        invariant forall j :: 0 <= j < i ==> gateways[j] == GatewayValue(cidr, old(gateways)[j])
        invariant forall j :: i <= j < |gateways| ==> gateways[j] == old(gateways)[j]
        invariant used == set o | o in gateways[..i]
      {
        if first.Some? && Needs(gateways[i]) {
          gateways := gateways[i := first.value];
        }
        assert gateways[..i + 1] == gateways[..i] + [gateways[i]];
        used := used + {gateways[i]};
      }
      assert gateways[..|gateways|] == gateways;
      if first.Some? && Needs(own) {
        own := first.value;
      }
      used := used + {own};
    }

    /** First loop over the backends. */
    method DropTaken(taken: set<Overlay>) returns (used: set<Overlay>)
      modifies this`backends
      ensures backends == KeepExplicit(old(backends), taken).0 && used == KeepExplicit(old(backends), taken).1
    {
      used := taken;
      ghost var bs := backends;
      assert bs[0..] == bs && bs[..0] == [];
      for i := 0 to |backends|
        invariant |backends| == |bs| && KeptUpTo(bs, taken, backends, used, i)
      {
        KeepStep(bs, taken, backends, used, i);
        if !Needs(backends[i]) {
          if backends[i] in used {
            backends := backends[i := DEFAULT_BACKEND];
          } else {
            used := used + {backends[i]};
          }
        }
      }
      assert backends[..|bs|] == backends && bs[|bs|..] == [];
    }

    /** Second loop over the backends, with the bounded search inside. */
    method PlaceBackends(cidr: Cidr, taken: set<Overlay>)
      modifies this`backends
      ensures backends == Place(cidr, old(backends), taken, |old(backends)| + |gateways| + 256)
    {
      var last := |backends| + |gateways| + 256;
      var used := taken;
      ghost var bs := backends;
      assert bs[0..] == bs && bs[..0] == [];
      for i := 0 to |backends|
        invariant |backends| == |bs| && PlacedUpTo(cidr, bs, taken, last, backends, used, i)
      {
        PlaceStep(cidr, bs, taken, last, backends, used, i);
        if Needs(backends[i]) {
          var found := FindHost(cidr, used, last);
          if found.Some? {
            used := used + {found.value};
            backends := backends[i := found.value];
          }
        }
      }
      assert backends[..|bs|] == backends && bs[|bs|..] == [];
    }
  }

  method FindHost(cidr: Cidr, used: set<Overlay>, last: nat) returns (r: Option<Overlay>)
    requires last >= 2
    ensures r == FirstHost(cidr, used, 2, last)
  {
    for index := 2 to last + 1
      invariant FirstHost(cidr, used, 2, last) == FirstHost(cidr, used, index, last)
    {
      var host := HostAt(cidr, index);
      if host.None? {
        return None;
      }
      if host.value !in used {
        return host;
      }
    }
    r := None;
  }
}
