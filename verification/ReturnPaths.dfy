/** Return-path identifiers per gateway slot, and the contract a backend demands of them. */
module ReturnPaths {
  import opened Words
  import opened Sorting
  import opened Keyed

  const MARK_BASE: u32 := 0x1000
  const TABLE_BASE: u32 := 1000
  const MAX_GATEWAY_SLOTS: u32 := 6
  const SLOT_STRIDE: u32 := 64

  datatype ReturnPath = ReturnPath(
    gateway: string, underlayIp: string, gatewayOverlayIp: string, backendOverlayIp: string,
    dscp: u32, mark: u32, table: u32)

  // ---- Identifiers -----------------------------------------------------------------------------

  function Clamped(slot: nat): (s: nat)
    ensures s < MAX_GATEWAY_SLOTS
  {
    if slot < MAX_GATEWAY_SLOTS then slot else MAX_GATEWAY_SLOTS - 1
  }

  /** `return_mark`; the three parts occupy disjoint bits, so joining them is adding them. */
  function ReturnMark(dscp: u32, slot: nat): (m: u32) {
    MARK_BASE + (Clamped(slot) + 1) * SLOT_STRIDE + dscp % SLOT_STRIDE
  }

  /** `return_table_id`. */
  function ReturnTable(dscp: u32, slot: nat): (t: u32) {
    TABLE_BASE + (Clamped(slot) + 1) * SLOT_STRIDE + dscp % SLOT_STRIDE
  }

  /** A mark, and likewise a table, tells the slot and the DSCP it was made from. */
  lemma IdsTellSlotAndDscp(d: u32, s: nat, d': u32, s': nat)
    ensures ReturnMark(d, s) == ReturnMark(d', s') <==> Clamped(s) == Clamped(s') && d % 64 == d' % 64
    ensures ReturnTable(d, s) == ReturnTable(d', s') <==> Clamped(s) == Clamped(s') && d % 64 == d' % 64
  {
    var a, b := Clamped(s) * 64 + d % 64, Clamped(s') * 64 + d' % 64;
    assert a == b <==> Clamped(s) == Clamped(s') && d % 64 == d' % 64;
  }

  /** Each of the first six slots has 64 marks and 64 tables of its own, one for each DSCP, and no slot has others. */
  lemma IdsInRange(dscp: u32, slot: nat)
    ensures 0x1040 <= ReturnMark(dscp, slot) < 0x1400 && 1064 <= ReturnTable(dscp, slot) < 1448
    ensures slot < 6 ==> 0x1040 + slot * 64 <= ReturnMark(dscp, slot) <= 0x107f + slot * 64
    ensures slot < 6 ==> 1064 + slot * 64 <= ReturnTable(dscp, slot) <= 1127 + slot * 64
    ensures ReturnMark(dscp, slot) % 64 == dscp % 64 && (ReturnTable(dscp, slot) - 1000) % 64 == dscp % 64
  {
  }

  // ---- Slots -----------------------------------------------------------------------------------

  function ByAddress(): (le: (u32, u32) -> bool) {
    (a, b) => a <= b
  }

  /** Drop repeats of the element before. */
  function Dedup(s: seq<u32>): (r: seq<u32>)
    ensures |r| <= |s|
    decreases |s|
  {
    if |s| < 2 then s
    else
      var n := |s| - 1;
      if s[n] == s[n - 1] then Dedup(s[..n]) else Dedup(s[..n]) + [s[n]]
  }

  function Position(s: seq<u32>, x: u32): (r: Option<nat>)
    ensures r.Some? ==> r.value < |s| && s[r.value] == x
    ensures r.None? ==> x !in s
    decreases |s|
  {
    if s == [] then None
    else if s[0] == x then Some(0)
    else
      match Position(s[1..], x)
      case None => None
      case Some(i) => Some(i + 1)
  }

  /** `gateway_slot`: the index in the sorted list of distinct underlay addresses; 0 for a stranger. */
  function GatewaySlot(underlays: seq<u32>, gateway: u32): (slot: nat) {
    match Position(Dedup(SortBy(underlays, ByAddress())), gateway)
    case None => 0
    case Some(i) => i
  }

  ghost predicate Increasing(s: seq<u32>) {
    forall i, j :: 0 <= i < j < |s| ==> s[i] < s[j]
  }

  lemma {:induction false} DedupIncreasing(s: seq<u32>)
    requires Sorted(s, ByAddress())
    ensures Increasing(Dedup(s)) && forall x :: x in Dedup(s) <==> x in s
    ensures s != [] ==> Dedup(s) != [] && Dedup(s)[|Dedup(s)| - 1] == s[|s| - 1]
    decreases |s|
  {
    if |s| >= 2 {
      var n := |s| - 1;
      var r := Dedup(s[..n]);
      DedupIncreasing(s[..n]);
      assert ByAddress()(s[n - 1], s[n]) && r[|r| - 1] == s[n - 1];
      assert s == s[..n] + [s[n]];
      assert s[n - 1] < s[n] ==> forall i :: 0 <= i < |r| ==> r[i] < s[n];
    }
  }

  /** The members of `underlays` below `gateway`. */
  function Below(underlays: seq<u32>, gateway: u32): (r: set<u32>) {
    set u | u in underlays && u < gateway
  }

  lemma NextBelow(s: seq<u32>, i: nat)
    requires Increasing(s) && 0 < i < |s|
    ensures Below(s, s[i]) == Below(s, s[i - 1]) + {s[i - 1]}
  {
    forall u | u in Below(s, s[i])
      ensures u in Below(s, s[i - 1]) + {s[i - 1]}
    {
      var j :| 0 <= j < |s| && s[j] == u;
      assert j < i;
    }
  }

  lemma {:induction false} IncreasingRank(s: seq<u32>, i: nat)
    requires Increasing(s) && i < |s|
    ensures |Below(s, s[i])| == i
    decreases i
  {
    if i == 0 {
      assert Below(s, s[0]) == {};
    } else {
      IncreasingRank(s, i - 1);
      NextBelow(s, i);
    }
  }

  /** A gateway's slot is the number of distinct gateways with a smaller address: it does not depend on the order of
      the list or on repeats, and different gateways have different slots. */
  lemma SlotIsRank(underlays: seq<u32>, gateway: u32)
    requires gateway in underlays
    ensures GatewaySlot(underlays, gateway) == |Below(underlays, gateway)|
  {
    var sorted := SortBy(underlays, ByAddress());
    SortBySorted(underlays, ByAddress());
    DedupIncreasing(sorted);
    forall x
      ensures x in Dedup(sorted) <==> x in underlays
    {
      assert x in multiset(sorted) <==> x in multiset(underlays);
    }
    var i := Position(Dedup(sorted), gateway).value;
    IncreasingRank(Dedup(sorted), i);
    assert Below(Dedup(sorted), gateway) == Below(underlays, gateway);
  }

  function Members(s: seq<u32>): (r: set<u32>) {
    set u | u in s
  }

  lemma RankGrows(underlays: seq<u32>, g: u32, h: u32)
    requires g in underlays && h in underlays && g < h
    ensures |Below(underlays, g)| < |Below(underlays, h)| < |Members(underlays)|
  {
    ProperSubsetSize(Below(underlays, g), Below(underlays, h), g);
    ProperSubsetSize(Below(underlays, h), Members(underlays), h);
  }

  lemma ProperSubsetSize(a: set<u32>, b: set<u32>, x: u32)
    requires a <= b && x in b && x !in a
    ensures |a| < |b|
  {
    assert b == a + (b - a) && a !! (b - a) && x in b - a;
  }

  /** Two gateways that list the same peers, in whatever order, derive different marks and tables for themselves,
      whatever DSCP each uses. Only from the seventh gateway on can two share them, and then only with equal DSCPs. */
  lemma PeersShareIdsIff(a: seq<u32>, b: seq<u32>, g: u32, h: u32, d: u32, e: u32)
    requires Members(a) == Members(b) && g in Members(a) && h in Members(a) && g != h
    ensures var shared := |Below(a, g)| >= 5 && |Below(a, h)| >= 5 && d % 64 == e % 64;
            (ReturnMark(d, GatewaySlot(a, g)) == ReturnMark(e, GatewaySlot(b, h)) <==> shared)
            && (ReturnTable(d, GatewaySlot(a, g)) == ReturnTable(e, GatewaySlot(b, h)) <==> shared)
            && (shared ==> |Members(a)| > MAX_GATEWAY_SLOTS)
  {
    assert h in Members(b);
    SlotIsRank(a, g);
    SlotIsRank(b, h);
    assert Below(a, h) == Below(b, h) by {
      assert forall u :: u in a <==> u in Members(a);
      assert forall u :: u in b <==> u in Members(b);
    }
    RankGrows(a, if g < h then g else h, if g < h then h else g);
    IdsTellSlotAndDscp(d, GatewaySlot(a, g), e, GatewaySlot(b, h));
  }

  lemma SevenPeers() returns (underlays: seq<u32>)
    ensures |underlays| == 7 && 6 in underlays && 7 in underlays && |Below(underlays, 6)| == 5
  {
    underlays := [1, 2, 3, 4, 5, 6, 7];
    assert Below(underlays, 6) == {1, 2, 3, 4, 5};
  }

  /** Of seven gateways the last two share mark and table when their DSCPs are equal. */
  lemma SeventhGatewayInstance() returns (underlays: seq<u32>, g: u32, h: u32)
    ensures |underlays| == 7 && g in underlays && h in underlays && g != h
    ensures ReturnMark(46, GatewaySlot(underlays, g)) == ReturnMark(46, GatewaySlot(underlays, h))
    ensures ReturnTable(46, GatewaySlot(underlays, g)) == ReturnTable(46, GatewaySlot(underlays, h))
  {
    underlays := SevenPeers();
    g, h := 6, 7;
    RankGrows(underlays, g, h);
    PeersShareIdsIff(underlays, underlays, g, h, 46, 46);
  }

  // ---- The contract ----------------------------------------------------------------------------

  function Dscp(p: ReturnPath): u32 { p.dscp }

  function Mark(p: ReturnPath): u32 { p.mark }

  function Table(p: ReturnPath): u32 { p.table }

  predicate InRange(p: ReturnPath) {
    1 <= p.dscp <= 63 && p.mark != 0 && p.table != 0
  }

  /** Every path can be told from every other by its DSCP, by its mark and by its table. */
  ghost predicate Contract(paths: seq<ReturnPath>) {
    (forall i :: 0 <= i < |paths| ==> InRange(paths[i]))
    && DistinctKeys(paths, Dscp) && DistinctKeys(paths, Mark) && DistinctKeys(paths, Table)
  }

  lemma ContractPush(paths: seq<ReturnPath>, p: ReturnPath)
    ensures Contract(paths + [p])
       <==> Contract(paths) && InRange(p)
            && p.dscp !in KeysOf(paths, Dscp) && p.mark !in KeysOf(paths, Mark) && p.table !in KeysOf(paths, Table)
  {
    DistinctPush(paths, p, Dscp);
    DistinctPush(paths, p, Mark);
    DistinctPush(paths, p, Table);
    var all := paths + [p];
    assert all[|paths|] == p && forall i :: 0 <= i < |paths| ==> all[i] == paths[i];
  }

  lemma {:induction false} ContractPrefix(paths: seq<ReturnPath>, n: nat)
    requires n <= |paths| && Contract(paths)
    ensures Contract(paths[..n])
    decreases |paths|
  {
    if n == |paths| {
      assert paths[..n] == paths;
    } else {
      var m := |paths| - 1;
      assert paths == paths[..m] + [paths[m]];
      ContractPush(paths[..m], paths[m]);
      ContractPrefix(paths[..m], n);
      assert paths[..m][..n] == paths[..n];
    }
  }

  lemma PushKeys(paths: seq<ReturnPath>, i: nat)
    requires i < |paths|
    ensures paths[..i + 1] == paths[..i] + [paths[i]]
    ensures KeysOf(paths[..i + 1], Dscp) == KeysOf(paths[..i], Dscp) + {paths[i].dscp}
    ensures KeysOf(paths[..i + 1], Mark) == KeysOf(paths[..i], Mark) + {paths[i].mark}
    ensures KeysOf(paths[..i + 1], Table) == KeysOf(paths[..i], Table) + {paths[i].table}
  {
    var s := paths[..i + 1];
    assert s[..i] == paths[..i] && s[i] == paths[i];
    KeysOfLast(s, Dscp);
    KeysOfLast(s, Mark);
    KeysOfLast(s, Table);
  }

  /** `validate`: one pass with three sets accepts exactly the paths of the contract. */
  method Validate(paths: seq<ReturnPath>) returns (ok: bool)
    ensures ok <==> Contract(paths)
  {
    var dscps: set<u32>, marks: set<u32>, tables: set<u32> := {}, {}, {};
    for i := 0 to |paths|
      invariant Contract(paths[..i])
      invariant dscps == KeysOf(paths[..i], Dscp) && marks == KeysOf(paths[..i], Mark)
                && tables == KeysOf(paths[..i], Table)
    {
      var path := paths[i];
      PushKeys(paths, i);
      ContractPush(paths[..i], path);
      if !(1 <= path.dscp <= 63) || path.mark == 0 || path.table == 0
         || path.dscp in dscps || path.mark in marks || path.table in tables {
        assert !Contract(paths) by {
          if Contract(paths) {
            ContractPrefix(paths, i + 1);
          }
        }
        return false;
      }
      dscps, marks, tables := dscps + {path.dscp}, marks + {path.mark}, tables + {path.table};
    }
    assert paths[..|paths|] == paths;
    ok := true;
  }

  /** A path whose identifiers some gateway slot derived from its DSCP. */
  ghost predicate Derived(p: ReturnPath) {
    exists slot: nat :: p.mark == ReturnMark(p.dscp, slot) && p.table == ReturnTable(p.dscp, slot)
  }

  lemma DerivedIdsDiffer(p: ReturnPath, q: ReturnPath)
    requires Derived(p) && Derived(q) && 1 <= p.dscp <= 63 && 1 <= q.dscp <= 63 && p.dscp != q.dscp
    ensures p.mark != q.mark && p.table != q.table
  {
    var s: nat :| p.mark == ReturnMark(p.dscp, s) && p.table == ReturnTable(p.dscp, s);
    var t: nat :| q.mark == ReturnMark(q.dscp, t) && q.table == ReturnTable(q.dscp, t);
    IdsTellSlotAndDscp(p.dscp, s, q.dscp, t);
  }

  /** Derived paths meet the contract exactly when their DSCPs are in range and pairwise distinct. */
  lemma DerivedContract(paths: seq<ReturnPath>)
    requires forall i :: 0 <= i < |paths| ==> Derived(paths[i])
    ensures Contract(paths)
       <==> DistinctKeys(paths, Dscp) && forall i :: 0 <= i < |paths| ==> 1 <= paths[i].dscp <= 63
  {
    if DistinctKeys(paths, Dscp) && forall i :: 0 <= i < |paths| ==> 1 <= paths[i].dscp <= 63 {
      forall i, j | 0 <= i < j < |paths|
        ensures paths[i].mark != paths[j].mark && paths[i].table != paths[j].table
      {
        DerivedIdsDiffer(paths[i], paths[j]);
      }
    }
  }
}
