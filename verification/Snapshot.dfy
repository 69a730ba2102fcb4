/** Combining the snapshots of several gateways into one backend configuration. */
module Snapshot {
  import opened Words
  import opened Sorting
  import opened Names
  import opened Keyed
  import opened ReturnPaths

  datatype Network = Network(
    gatewayIp: string, overlayCidr: string, vxlanDev: string, vni: u32, vxlanPort: u32, vxlanMtu: u32, dscp: u32)

  datatype GatewayNode = GatewayNode(name: string, underlayIp: string, overlayIp: string)

  datatype ConfigSnapshot = ConfigSnapshot(network: Option<Network>, gateways: seq<GatewayNode>, paths: seq<ReturnPath>)

  /** A discovery response without its nonce, which is fresh on every message. */
  datatype Response = Response(version: string, snapshot: Option<ConfigSnapshot>)

  /** A response that carries a snapshot. */
  type Loaded = r: Response | r.snapshot.Some? witness Response("", Some(ConfigSnapshot(None, [], [])))

  // ---- Combining -------------------------------------------------------------------------------

  function Present(rs: seq<Response>): (r: seq<Loaded>)
    decreases |rs|
  {
    if rs == [] then []
    else
      var n := |rs| - 1;
      if rs[n].snapshot.Some? then Present(rs[..n]) + [rs[n]] else Present(rs[..n])
  }

  /** `snapshot_gateway_key`, with the empty string for a snapshot without a network. */
  function GatewayKey(r: Loaded): (k: string) {
    if r.snapshot.value.network.Some? then r.snapshot.value.network.value.gatewayIp else ""
  }

  function ByGateway(): (le: (Loaded, Loaded) -> bool) {
    (a: Loaded, b: Loaded) => LexLe(GatewayKey(a), GatewayKey(b))
  }

  function NodeKey(g: GatewayNode): (k: (string, string)) {
    (g.underlayIp, g.name)
  }

  function PathKey(p: ReturnPath): (k: (string, string, u32, u32, u32)) {
    (p.underlayIp, p.gatewayOverlayIp, p.dscp, p.mark, p.table)
  }

  function Gateways(rs: seq<Loaded>): (r: seq<GatewayNode>)
    decreases |rs|
  {
    if rs == [] then [] else Gateways(rs[..|rs| - 1]) + rs[|rs| - 1].snapshot.value.gateways
  }

  function Paths(rs: seq<Loaded>): (r: seq<ReturnPath>)
    decreases |rs|
  {
    if rs == [] then [] else Paths(rs[..|rs| - 1]) + rs[|rs| - 1].snapshot.value.paths
  }

  function Versions(rs: seq<Loaded>): (r: seq<string>) {
    seq(|rs|, i requires 0 <= i < |rs| => rs[i].version)
  }

  function Joined(parts: seq<string>): (r: string)
    decreases |parts|
  {
    if parts == [] then "" else Joined(parts[..|parts| - 1]) + parts[|parts| - 1]
  }

  /** The result for responses already in gateway order. */
  function CombinedSorted(sorted: seq<Loaded>, digest: string -> string): (r: Option<Response>) {
    if sorted == [] then None
    else
      Some(Response(digest(Joined(SortBy(Versions(sorted), ByName()))),
                    Some(sorted[0].snapshot.value.(
                      gateways := FirstByKey(Gateways(sorted), NodeKey),
                      paths := FirstByKey(Paths(sorted), PathKey)))))
  }

  /** `combine_gateway_responses`, with the hash as a parameter. */
  function Combined(rs: seq<Response>, digest: string -> string): (r: Option<Response>) {
    CombinedSorted(Ordered(rs), digest)
  }

  /** The lists of a prefix, one response longer. */
  lemma PrefixStep(sorted: seq<Loaded>, i: nat)
    requires i < |sorted|
    ensures Versions(sorted[..i + 1]) == Versions(sorted[..i]) + [sorted[i].version]
    ensures Gateways(sorted[..i + 1]) == Gateways(sorted[..i]) + sorted[i].snapshot.value.gateways
    ensures Paths(sorted[..i + 1]) == Paths(sorted[..i]) + sorted[i].snapshot.value.paths
  {
    assert sorted[..i + 1][..i] == sorted[..i];
  }

  method CombineSorted(sorted: seq<Loaded>, digest: string -> string) returns (r: Option<Response>)
    ensures r == CombinedSorted(sorted, digest)
  {
    if sorted == [] {
      return None;
    }
    var versions, gateways, paths := CombineLists(sorted);
    var combined := sorted[0].snapshot.value.(gateways := gateways, paths := paths);
    r := Some(Response(digest(Joined(SortBy(versions, ByName()))), Some(combined)));
  }

  /** The loop over the responses, with its two sets of keys. */
  method CombineLists(sorted: seq<Loaded>)
    returns (versions: seq<string>, gateways: seq<GatewayNode>, paths: seq<ReturnPath>)
    ensures versions == Versions(sorted)
    ensures gateways == FirstByKey(Gateways(sorted), NodeKey) && paths == FirstByKey(Paths(sorted), PathKey)
  {
    versions, gateways, paths := [], [], [];
    var gatewayKeys, pathKeys := {}, {};
    for i := 0 to |sorted|
      invariant versions == Versions(sorted[..i])
      invariant gateways == FirstByKey(Gateways(sorted[..i]), NodeKey)
      invariant gatewayKeys == KeysOf(Gateways(sorted[..i]), NodeKey)
      invariant paths == FirstByKey(Paths(sorted[..i]), PathKey)
      invariant pathKeys == KeysOf(Paths(sorted[..i]), PathKey)
    {
      PrefixStep(sorted, i);
      versions := versions + [sorted[i].version];
      var snapshot := sorted[i].snapshot.value;
      gateways, gatewayKeys := AddNew(gateways, gatewayKeys, snapshot.gateways, NodeKey, Gateways(sorted[..i]));
      paths, pathKeys := AddNew(paths, pathKeys, snapshot.paths, PathKey, Paths(sorted[..i]));
    }
    assert sorted[..|sorted|] == sorted;
  }

  method CombineGatewayResponses(rs: seq<Response>, digest: string -> string) returns (r: Option<Response>)
    ensures r == Combined(rs, digest)
  {
    var present: seq<Loaded> := [];
    for i := 0 to |rs|
      invariant present == Present(rs[..i])
    {
      assert rs[..i + 1][..i] == rs[..i];
      if rs[i].snapshot.Some? {
        present := present + [rs[i]];
      }
    }
    assert rs[..|rs|] == rs;
    r := CombineSorted(SortBy(present, ByGateway()), digest);
  }

  // ---- Order of arrival ------------------------------------------------------------------------

  /** Both snapshots are of one gateway address; no network counts as the empty address. */
  predicate SameGateway(a: ConfigSnapshot, b: ConfigSnapshot) {
    if a.network.Some? && b.network.Some? then a.network.value.gatewayIp == b.network.value.gatewayIp
    else (a.network.Some? ==> a.network.value.gatewayIp == "") && (b.network.Some? ==> b.network.value.gatewayIp == "")
  }

  /** Responses that name the same gateway are the same response; in particular, distinct gateways qualify. */
  ghost predicate OnePerGateway(rs: seq<Response>) {
    forall a, b | a in rs && b in rs && a.snapshot.Some? && b.snapshot.Some?
                  && SameGateway(a.snapshot.value, b.snapshot.value)
      :: a == b
  }

  lemma {:induction false} PresentCount(rs: seq<Response>, x: Loaded)
    ensures multiset(Present(rs))[x] == multiset(rs)[x]
    decreases |rs|
  {
    if rs != [] {
      var n := |rs| - 1;
      PresentCount(rs[..n], x);
      assert rs == rs[..n] + [rs[n]];
    }
  }

  lemma PresentMember(rs: seq<Response>, x: Loaded)
    requires x in Present(rs)
    ensures x in rs
  {
    PresentCount(rs, x);
    assert x in multiset(Present(rs));
    assert x in multiset(rs);
  }

  lemma GatewayOrder()
    ensures TotalPreorder(ByGateway())
  {
    NameOrder();
    forall x, y
      ensures ByGateway()(x, y) || ByGateway()(y, x)
    {
      LexTotal(GatewayKey(x), GatewayKey(y));
    }
    forall x, y, z | ByGateway()(x, y) && ByGateway()(y, z)
      ensures ByGateway()(x, z)
    {
      LexTransitive(GatewayKey(x), GatewayKey(y), GatewayKey(z));
    }
  }

  /** The combined configuration does not depend on the order in which the responses arrived. */
  lemma CombinedForgetsOrder(a: seq<Response>, b: seq<Response>, digest: string -> string)
    requires multiset(a) == multiset(b) && OnePerGateway(a)
    ensures Combined(a, digest) == Combined(b, digest)
  {
    forall x: Loaded
      ensures multiset(Present(a))[x] == multiset(Present(b))[x]
    {
      PresentCount(a, x);
      PresentCount(b, x);
    }
    assert multiset(Present(a)) == multiset(Present(b));
    GatewayOrder();
    forall x, y | x in Present(a) && y in Present(a) && ByGateway()(x, y) && ByGateway()(y, x)
      ensures x == y
    {
      LexAntisymmetric(GatewayKey(x), GatewayKey(y));
      PresentMember(a, x);
      PresentMember(a, y);
      assert SameGateway(x.snapshot.value, y.snapshot.value);
    }
    SortForgetsOrder(Present(a), Present(b), ByGateway());
  }

  // ---- Nothing lost, nothing doubled -----------------------------------------------------------

  ghost predicate ReceivedPath(rs: seq<Response>, p: ReturnPath) {
    exists r :: r in rs && r.snapshot.Some? && p in r.snapshot.value.paths
  }

  ghost predicate ReceivedGateway(rs: seq<Response>, g: GatewayNode) {
    exists r :: r in rs && r.snapshot.Some? && g in r.snapshot.value.gateways
  }

  /** The responses in gateway order. */
  function Ordered(rs: seq<Response>): (r: seq<Loaded>) {
    SortBy(Present(rs), ByGateway())
  }

  lemma OrderedMembers(rs: seq<Response>, r: Response)
    ensures r in Ordered(rs) <==> r in rs && r.snapshot.Some?
  {
    var sorted := Ordered(rs);
    if r.snapshot.Some? {
      PresentCount(rs, r);
      assert r in sorted <==> r in multiset(sorted);
      assert r in rs <==> r in multiset(rs);
    }
  }

  lemma {:induction false} PathsMembers(rs: seq<Loaded>, p: ReturnPath)
    ensures p in Paths(rs) <==> exists r :: r in rs && p in r.snapshot.value.paths
    decreases |rs|
  {
    if rs != [] {
      var n := |rs| - 1;
      PathsMembers(rs[..n], p);
      assert rs == rs[..n] + [rs[n]];
    }
  }

  lemma {:induction false} GatewaysMembers(rs: seq<Loaded>, g: GatewayNode)
    ensures g in Gateways(rs) <==> exists r :: r in rs && g in r.snapshot.value.gateways
    decreases |rs|
  {
    if rs != [] {
      var n := |rs| - 1;
      GatewaysMembers(rs[..n], g);
      assert rs == rs[..n] + [rs[n]];
    }
  }

  lemma ReceivedPaths(rs: seq<Response>)
    ensures forall p :: p in Paths(Ordered(rs)) <==> ReceivedPath(rs, p)
  {
    forall p
      ensures p in Paths(Ordered(rs)) <==> ReceivedPath(rs, p)
    {
      PathsMembers(Ordered(rs), p);
      forall r: Response
        ensures r in Ordered(rs) <==> r in rs && r.snapshot.Some?
      {
        OrderedMembers(rs, r);
      }
    }
  }

  lemma ReceivedGateways(rs: seq<Response>)
    ensures forall g :: g in Gateways(Ordered(rs)) <==> ReceivedGateway(rs, g)
  {
    forall g
      ensures g in Gateways(Ordered(rs)) <==> ReceivedGateway(rs, g)
    {
      GatewaysMembers(Ordered(rs), g);
      forall r: Response
        ensures r in Ordered(rs) <==> r in rs && r.snapshot.Some?
      {
        OrderedMembers(rs, r);
      }
    }
  }

  /** Combining loses no gateway node and no path and doubles none; it fails only when no response has a snapshot. */
  lemma CombinedLosesNothing(rs: seq<Response>, digest: string -> string)
    ensures Combined(rs, digest).None? <==> forall r :: r in rs ==> r.snapshot.None?
    ensures Combined(rs, digest).Some? ==>
              Combined(rs, digest).value.snapshot.Some?
              && var s := Combined(rs, digest).value.snapshot.value;
                 Exactly(s.paths, (p: ReturnPath) => ReceivedPath(rs, p), PathKey)
                 && Exactly(s.gateways, (g: GatewayNode) => ReceivedGateway(rs, g), NodeKey)
  {
    var sorted := Ordered(rs);
    forall r: Response
      ensures r in sorted <==> r in rs && r.snapshot.Some?
    {
      OrderedMembers(rs, r);
    }
    assert sorted != [] ==> sorted[0] in sorted;
    ReceivedPaths(rs);
    ReceivedGateways(rs);
    FirstByKeyExactly(Paths(sorted), (p: ReturnPath) => ReceivedPath(rs, p), PathKey);
    FirstByKeyExactly(Gateways(sorted), (g: GatewayNode) => ReceivedGateway(rs, g), NodeKey);
  }

  /** Agreement on addresses, DSCP, mark and table. */
  predicate SamePath(p: ReturnPath, q: ReturnPath) {
    p.underlayIp == q.underlayIp && p.gatewayOverlayIp == q.gatewayOverlayIp
    && p.dscp == q.dscp && p.mark == q.mark && p.table == q.table
  }

  lemma ByField(paths: seq<ReturnPath>, given: ReturnPath -> bool)
    requires Exactly(paths, given, PathKey)
    ensures forall p :: given(p) ==> exists q :: q in paths && SamePath(p, q)
    ensures forall i, j :: 0 <= i < j < |paths| ==> !SamePath(paths[i], paths[j])
  {
    forall p | given(p)
      ensures exists q :: q in paths && SamePath(p, q)
    {
      var i := KeptIndex(paths, given, p);
      assert paths[i] in paths && SamePath(p, paths[i]);
    }
    forall i, j | 0 <= i < j < |paths|
      ensures !SamePath(paths[i], paths[j])
    {
      assert PathKey(paths[i]) != PathKey(paths[j]);
    }
  }

  predicate SameNode(g: GatewayNode, h: GatewayNode) {
    g.underlayIp == h.underlayIp && g.name == h.name
  }

  lemma NodesByField(nodes: seq<GatewayNode>, given: GatewayNode -> bool)
    requires Exactly(nodes, given, NodeKey)
    ensures forall g :: given(g) ==> exists h :: h in nodes && SameNode(g, h)
    ensures forall i, j :: 0 <= i < j < |nodes| ==> !SameNode(nodes[i], nodes[j])
  {
    forall g | given(g)
      ensures exists h :: h in nodes && SameNode(g, h)
    {
      var h :| h in nodes && NodeKey(h) == NodeKey(g);
      assert SameNode(g, h);
    }
    forall i, j | 0 <= i < j < |nodes|
      ensures !SameNode(nodes[i], nodes[j])
    {
      assert NodeKey(nodes[i]) != NodeKey(nodes[j]);
    }
  }

  /** Likewise every received gateway node, by address and name. */
  lemma CombinedNodesByField(rs: seq<Response>, digest: string -> string)
    requires Combined(rs, digest).Some?
    ensures Combined(rs, digest).value.snapshot.Some?
    ensures var nodes := Combined(rs, digest).value.snapshot.value.gateways;
            (forall g :: ReceivedGateway(rs, g) ==> exists h :: h in nodes && SameNode(g, h))
            && (forall g :: g in nodes ==> ReceivedGateway(rs, g))
            && forall i, j :: 0 <= i < j < |nodes| ==> !SameNode(nodes[i], nodes[j])
  {
    CombinedLosesNothing(rs, digest);
    var given := (g: GatewayNode) => ReceivedGateway(rs, g);
    NodesByField(Combined(rs, digest).value.snapshot.value.gateways, given);
    assert forall g :: given(g) == ReceivedGateway(rs, g);
  }

  /** Field by field: every received path is there, and no two that are there agree on addresses, DSCP, mark and
      table. */
  lemma CombinedPathsByField(rs: seq<Response>, digest: string -> string)
    requires Combined(rs, digest).Some?
    ensures Combined(rs, digest).value.snapshot.Some?
    ensures var paths := Combined(rs, digest).value.snapshot.value.paths;
            (forall p :: ReceivedPath(rs, p) ==> exists q :: q in paths && SamePath(p, q))
            && (forall p :: p in paths ==> ReceivedPath(rs, p))
            && forall i, j :: 0 <= i < j < |paths| ==> !SamePath(paths[i], paths[j])
  {
    CombinedLosesNothing(rs, digest);
    var given := (p: ReturnPath) => ReceivedPath(rs, p);
    ByField(Combined(rs, digest).value.snapshot.value.paths, given);
    assert forall p :: given(p) == ReceivedPath(rs, p);
  }

  // ---- Version and network ---------------------------------------------------------------------

  lemma {:induction false} JoinedAppends(a: seq<string>, b: seq<string>)
    ensures Joined(a + b) == Joined(a) + Joined(b) && forall v :: Joined([v]) == v
    decreases |b|
  {
    if b == [] {
      assert a + b == a;
    } else {
      var n := |b| - 1;
      assert (a + b)[..|a + b| - 1] == a + b[..n];
      JoinedAppends(a, b[..n]);
    }
    forall v: string
      ensures Joined([v]) == v
    {
      assert [v][..0] == [];
    }
  }

  /** How many responses with a snapshot have the version. */
  ghost function VersionCount(rs: seq<Response>, v: string): (n: nat)
    decreases |rs|
  {
    if rs == [] then 0
    else
      var last := rs[|rs| - 1];
      VersionCount(rs[..|rs| - 1], v) + (if last.snapshot.Some? && last.version == v then 1 else 0)
  }

  lemma VersionsAppend(rs: seq<Loaded>, r: Loaded)
    ensures multiset(Versions(rs + [r])) == multiset(Versions(rs)) + multiset{r.version}
  {
    assert Versions(rs + [r]) == Versions(rs) + [r.version];
  }

  lemma {:induction false} PresentVersionCount(rs: seq<Response>, v: string)
    ensures multiset(Versions(Present(rs)))[v] == VersionCount(rs, v)
    decreases |rs|
  {
    if rs != [] {
      var n := |rs| - 1;
      PresentVersionCount(rs[..n], v);
      if rs[n].snapshot.Some? {
        VersionsAppend(Present(rs[..n]), rs[n]);
      }
    }
  }

  lemma {:induction false} InsertVersions(rs: seq<Loaded>, r: Loaded, le: (Loaded, Loaded) -> bool)
    ensures multiset(Versions(Insert(rs, r, le))) == multiset(Versions(rs)) + multiset{r.version}
    decreases |rs|
  {
    VersionsAppend(rs, r);
    if rs == [] {
      assert rs + [r] == [r];
    } else if !le(rs[|rs| - 1], r) {
      var front, last := rs[..|rs| - 1], rs[|rs| - 1];
      InsertVersions(front, r, le);
      VersionsAppend(Insert(front, r, le), last);
      VersionsAppend(front, last);
      assert rs == front + [last];
    }
  }

  /** `b` has the versions of `a`, each as often. */
  ghost predicate SameVersions(a: seq<Loaded>, b: seq<Loaded>) {
    multiset(Versions(a)) == multiset(Versions(b))
  }

  lemma SortVersionsStep(front: seq<Loaded>, sorted: seq<Loaded>, last: Loaded, le: (Loaded, Loaded) -> bool)
    requires SameVersions(sorted, front)
    ensures SameVersions(Insert(sorted, last, le), front + [last])
  {
    InsertVersions(sorted, last, le);
    VersionsAppend(front, last);
  }

  lemma LastAgain(rs: seq<Loaded>)
    requires rs != []
    ensures rs[..|rs| - 1] + [rs[|rs| - 1]] == rs
  {
  }

  /** Putting the responses in order carries their versions along. */
  lemma {:induction false} SortVersions(rs: seq<Loaded>, le: (Loaded, Loaded) -> bool)
    ensures SameVersions(SortBy(rs, le), rs)
    decreases |rs|
  {
    if rs == [] {
      assert SortBy(rs, le) == rs;
    } else {
      var front, last := rs[..|rs| - 1], rs[|rs| - 1];
      SortVersions(front, le);
      var sorted := SortBy(front, le);
      SortVersionsStep(front, sorted, last, le);
      LastAgain(rs);
      assert SortBy(rs, le) == Insert(sorted, last, le);
    }
  }

  /** The first response in gateway order comes before every other. */
  lemma FirstGateway(rs: seq<Response>, r: Loaded)
    requires Ordered(rs) != [] && r in rs
    ensures LexLe(GatewayKey(Ordered(rs)[0]), GatewayKey(r))
  {
    var sorted := Ordered(rs);
    GatewayOrder();
    SortBySorted(Present(rs), ByGateway());
    OrderedMembers(rs, r);
    var i :| 0 <= i < |sorted| && sorted[i] == r;
    LexTotal(GatewayKey(r), GatewayKey(r));
    assert i > 0 ==> ByGateway()(sorted[0], sorted[i]);
  }

  /** By gateway address, with none as the empty one, `b` does not come before `a`. */
  predicate NotBefore(a: ConfigSnapshot, b: ConfigSnapshot) {
    LexLe(if a.network.Some? then a.network.value.gatewayIp else "",
          if b.network.Some? then b.network.value.gatewayIp else "")
  }

  lemma SortedVersions(rs: seq<Response>, v: string)
    ensures var versions := SortBy(Versions(Ordered(rs)), ByName());
            Sorted(versions, ByName()) && multiset(versions)[v] == VersionCount(rs, v)
  {
    NameOrder();
    SortBySorted(Versions(Ordered(rs)), ByName());
    SortVersions(Present(rs), ByGateway());
    PresentVersionCount(rs, v);
  }

  /** The combined version digests the received versions, each as often as it came, in ascending order; the network is
      that of a response no other response comes before. */
  lemma CombinedVersionAndNetwork(rs: seq<Response>, digest: string -> string)
    returns (versions: seq<string>, first: Loaded)
    requires Combined(rs, digest).Some?
    ensures forall v :: multiset(versions)[v] == VersionCount(rs, v)
    ensures forall i, j :: 0 <= i < j < |versions| ==> LexLe(versions[i], versions[j])
    ensures Combined(rs, digest).value.version == digest(Joined(versions))
    ensures first in rs && forall r: Loaded :: r in rs ==> NotBefore(first.snapshot.value, r.snapshot.value)
    ensures Combined(rs, digest).value.snapshot.Some?
            && Combined(rs, digest).value.snapshot.value.network == first.snapshot.value.network
  {
    first, versions := Ordered(rs)[0], SortBy(Versions(Ordered(rs)), ByName());
    SortedVersions(rs, "");
    forall v
      ensures multiset(versions)[v] == VersionCount(rs, v)
    {
      SortedVersions(rs, v);
    }
    forall i, j | 0 <= i < j < |versions|
      ensures LexLe(versions[i], versions[j])
    {
      assert ByName()(versions[i], versions[j]);
    }
    OrderedMembers(rs, first);
    forall r: Loaded | r in rs
      ensures NotBefore(first.snapshot.value, r.snapshot.value)
    {
      FirstGateway(rs, r);
    }
  }

  // ---- The return-path contract ----------------------------------------------------------------

  /** All DSCPs are in range and no two different paths share one. */
  ghost predicate DscpNamesPath(given: ReturnPath -> bool) {
    (forall p :: given(p) ==> 1 <= p.dscp <= 63)
    && forall p, q :: given(p) && given(q) && p.dscp == q.dscp ==> PathKey(p) == PathKey(q)
  }

  lemma KeptDscpsDistinct(paths: seq<ReturnPath>, given: ReturnPath -> bool)
    requires Exactly(paths, given, PathKey) && DscpNamesPath(given)
    ensures DistinctKeys(paths, Dscp) && forall i :: 0 <= i < |paths| ==> 1 <= paths[i].dscp <= 63
  {
    forall i | 0 <= i < |paths|
      ensures given(paths[i])
    {
      assert paths[i] in paths;
    }
    forall i, j | 0 <= i < j < |paths|
      ensures paths[i].dscp != paths[j].dscp
    {
      assert PathKey(paths[i]) != PathKey(paths[j]);
    }
  }

  lemma KeptIndex(paths: seq<ReturnPath>, given: ReturnPath -> bool, p: ReturnPath) returns (i: nat)
    requires Exactly(paths, given, PathKey) && given(p)
    ensures i < |paths| && PathKey(paths[i]) == PathKey(p)
  {
    var a :| a in paths && PathKey(a) == PathKey(p);
    i :| 0 <= i < |paths| && paths[i] == a;
  }

  lemma ContractNamesPaths(paths: seq<ReturnPath>, given: ReturnPath -> bool)
    requires Exactly(paths, given, PathKey) && Contract(paths)
    ensures DscpNamesPath(given)
  {
    forall p | given(p)
      ensures 1 <= p.dscp <= 63
    {
      var i := KeptIndex(paths, given, p);
    }
    forall p, q | given(p) && given(q) && p.dscp == q.dscp
      ensures PathKey(p) == PathKey(q)
    {
      var i := KeptIndex(paths, given, p);
      var j := KeptIndex(paths, given, q);
      assert Dscp(paths[i]) == Dscp(paths[j]);
    }
  }

  lemma ContractOfDerived(paths: seq<ReturnPath>, given: ReturnPath -> bool)
    requires Exactly(paths, given, PathKey) && forall p :: given(p) ==> Derived(p)
    ensures Contract(paths) <==> DscpNamesPath(given)
  {
    if Contract(paths) {
      ContractNamesPaths(paths, given);
    } else if DscpNamesPath(given) {
      KeptDscpsDistinct(paths, given);
      forall i | 0 <= i < |paths|
        ensures Derived(paths[i])
      {
        assert paths[i] in paths;
      }
      DerivedContract(paths);
    }
  }

  /** When every gateway derives its paths, the combined paths pass the contract exactly if all DSCPs are in range and
      no two different paths share one. */
  lemma CombinedContractIff(rs: seq<Response>, digest: string -> string)
    requires Combined(rs, digest).Some? && forall p :: ReceivedPath(rs, p) ==> Derived(p)
    ensures Combined(rs, digest).value.snapshot.Some?
    ensures Contract(Combined(rs, digest).value.snapshot.value.paths)
       <==> DscpNamesPath((p: ReturnPath) => ReceivedPath(rs, p))
  {
    CombinedLosesNothing(rs, digest);
    ContractOfDerived(Combined(rs, digest).value.snapshot.value.paths, (p: ReturnPath) => ReceivedPath(rs, p));
  }
}
