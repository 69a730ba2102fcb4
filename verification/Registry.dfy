/** The gateway's registry of backend subscriptions and their overlay assignments. */
module Registry {
  import opened Words
  import opened Names
  import opened Overlay

  /** Address 0 stands for the unspecified address. */
  datatype Subscription = Subscription(
    publicIp: u32, underlayIp: u32, streamId: string, connectedAt: u64, lastSeen: u64,
    lastVersion: string, conflicts: seq<string>)

  datatype Node = Node(name: string, publicIp: u32, underlayIp: u32, overlay: Overlay)

  datatype GatewayNode = GatewayNode(underlayIp: u32, overlay: Overlay)

  /** The part of a gateway's configuration the merge works on. */
  datatype FileConfig = FileConfig(cidr: Cidr, gateways: seq<GatewayNode>, own: Overlay, backends: seq<Node>)

  /** A discovery request; an underlay address that does not parse is `None`. */
  datatype Discovery = Discovery(
    nodeName: string, publicIp: Option<u32>, underlayIp: Option<u32>, version: string, ack: bool, responseNonce: string,
    conflicts: seq<string>)

  type Subscriptions = map<string, Subscription>
  type Nodes = map<string, Node>

  datatype State = State(subscriptions: Subscriptions, nodes: Nodes)

  const SUBSCRIPTION_TTL_SECS: u64 := 30

  // ---- Operations ------------------------------------------------------------------------------

  function PublicIp(req: Discovery): (ip: u32) {
    if req.publicIp.Some? then req.publicIp.value else 0
  }

  /** `upsert_inner`: a new registration keeps the overlay its name already has. */
  function Upsert(s: State, req: Discovery, streamId: string, now: u64): (r: State)
    ensures Inv(s) ==> Inv(r)
  {
    if req.underlayIp.None? then s
    else
      var overlay := if req.nodeName in s.nodes then s.nodes[req.nodeName].overlay else Auto;
      State(s.subscriptions[req.nodeName := Subscription(PublicIp(req), req.underlayIp.value, streamId, now, now,
                                                         req.version, req.conflicts)],
            s.nodes[req.nodeName := Node(req.nodeName, PublicIp(req), req.underlayIp.value, overlay)])
  }

  /** `touch`: only the stream that holds the registration refreshes it. */
  function Touch(s: State, name: string, streamId: string, req: Discovery, now: u64): (r: State) {
    if name !in s.subscriptions || s.subscriptions[name].streamId != streamId then s
    else
      var sub := s.subscriptions[name];
      var fullAck := req.ack && req.version != "" && req.responseNonce != "";
      s.(subscriptions := s.subscriptions[name := sub.(
          lastSeen := now,
          lastVersion := if req.version != "" then req.version else sub.lastVersion,
          conflicts := if fullAck || req.conflicts != [] then req.conflicts else sub.conflicts)])
  }

  /** `remove`: only the stream that holds the registration ends it. */
  function Remove(s: State, name: string, streamId: string): (r: State) {
    if name !in s.subscriptions || s.subscriptions[name].streamId != streamId then s
    else State(s.subscriptions - {name}, s.nodes - {name})
  }

  predicate Stale(sub: Subscription, now: u64) {
    SaturatingSub(now, sub.lastSeen) > SUBSCRIPTION_TTL_SECS
  }

  function StaleNames(s: State, now: u64): (names: set<string>) {
    set n | n in s.subscriptions && Stale(s.subscriptions[n], now)
  }

  /** `prune_expired`. */
  function Prune(s: State, now: u64): (r: State) {
    State(s.subscriptions - StaleNames(s, now), s.nodes - StaleNames(s, now))
  }

  // ---- Merging into the configuration ----------------------------------------------------------

  function GatewayUnderlays(f: FileConfig): (s: set<u32>) {
    set g | g in f.gateways && g.underlayIp != 0 :: g.underlayIp
  }

  /** The inventory without nodes that are really gateways. */
  function Retained(nodes: Nodes, f: FileConfig): (r: Nodes) {
    map n | n in nodes && (nodes[n].underlayIp == 0 || nodes[n].underlayIp !in GatewayUnderlays(f)) :: nodes[n]
  }

  function GatewayOverlays(gs: seq<GatewayNode>): (r: seq<Overlay>) {
    seq(|gs|, i requires 0 <= i < |gs| => gs[i].overlay)
  }

  function BackendOverlays(bs: seq<Node>): (r: seq<Overlay>) {
    seq(|bs|, i requires 0 <= i < |bs| => bs[i].overlay)
  }

  function PlanOf(f: FileConfig): (p: Plan) {
    Plan(GatewayOverlays(f.gateways), f.own, BackendOverlays(f.backends))
  }

  /** Normalization, as far as it concerns overlay addresses. */
  function Normalized(f: FileConfig): (r: FileConfig)
    ensures |r.backends| == |f.backends|
    ensures forall i :: 0 <= i < |f.backends| ==> r.backends[i] == f.backends[i].(overlay := r.backends[i].overlay)
  {
    var p := Assigned(f.cidr, PlanOf(f));
    f.(gateways := seq(|f.gateways|, i requires 0 <= i < |f.gateways| => f.gateways[i].(overlay := p.gateways[i])),
       own := p.own,
       backends := seq(|f.backends|, i requires 0 <= i < |f.backends| => f.backends[i].(overlay := p.backends[i])))
  }

  /** The overlay the configuration already records for a name; a later entry wins. */
  function Recorded(backends: seq<Node>, name: string, fallback: Overlay): (o: Overlay)
    decreases |backends|
  {
    if backends == [] then fallback
    else if backends[|backends| - 1].name == name then backends[|backends| - 1].overlay
    else Recorded(backends[..|backends| - 1], name, fallback)
  }

  /** A known node with the overlay the configuration records for it. */
  function Refreshed(f: FileConfig, node: Node): (r: Node) {
    node.(overlay := Recorded(f.backends, node.name, node.overlay))
  }

  /** `merge_backend_inventory`: the known nodes in the order of `names`, with the overlays the configuration
      records. */
  function MergedInventory(f: FileConfig, nodes: Nodes, names: seq<string>): (r: seq<Node>)
    requires forall n :: n in names ==> n in nodes
  {
    seq(|names|, i requires 0 <= i < |names| => Refreshed(f, nodes[names[i]]))
  }

  /** Record each node of a list under its name. */
  function Publish(nodes: Nodes, list: seq<Node>): (r: Nodes)
    decreases |list|
  {
    if list == [] then nodes else Publish(nodes, list[..|list| - 1])[list[|list| - 1].name := list[|list| - 1]]
  }

  /** Every node is stored under its own name. */
  ghost predicate Named(nodes: Nodes) {
    forall n :: n in nodes ==> nodes[n].name == n
  }

  /** Merging a non-empty inventory, visited in the order of `names`. */
  function MergeNodes(kept: Nodes, f: FileConfig, names: seq<string>): (r: (Nodes, FileConfig, bool))
    requires forall n :: n in names ==> n in kept
  {
    var desired := Normalized(f.(backends := MergedInventory(f, kept, names)));
    var nodes := Publish(kept, desired.backends);
    if f.backends == desired.backends then (nodes, f, false)
    else (nodes, Normalized(f.(backends := desired.backends)), true)
  }

  /** The part of `merge_into` that runs under one lock, after the prune: the registry, the configuration, and
      whether the configuration changed. */
  ghost function Merge(s: State, f: FileConfig): (r: (State, FileConfig, bool)) {
    var kept := Retained(s.nodes, f);
    if kept == map[] then
      if f.backends != [] || |kept| != |s.nodes| then (s.(nodes := kept), Normalized(f.(backends := [])), true)
      else (s.(nodes := kept), f, false)
    else
      AscendingElements(kept.Keys);
      var (nodes, file, changed) := MergeNodes(kept, f, Ascending(kept.Keys));
      (s.(nodes := nodes), file, changed)
  }

  // ---- Invariant -------------------------------------------------------------------------------

  /** Every node of the inventory is under its own name and has a subscription. */
  ghost predicate Inv(s: State) {
    Named(s.nodes) && s.nodes.Keys <= s.subscriptions.Keys
  }

  lemma {:induction false} PublishKeys(nodes: Nodes, list: seq<Node>)
    requires Named(nodes) && forall i :: 0 <= i < |list| ==> list[i].name in nodes
    ensures Publish(nodes, list).Keys == nodes.Keys && Named(Publish(nodes, list))
    decreases |list|
  {
    if list != [] {
      PublishKeys(nodes, list[..|list| - 1]);
    }
  }

  lemma MergeNodesKeys(kept: Nodes, f: FileConfig, names: seq<string>)
    requires Named(kept) && Enumerates(names, kept.Keys)
    ensures MergeNodes(kept, f, names).0.Keys == kept.Keys && Named(MergeNodes(kept, f, names).0)
  {
    var desired := Normalized(f.(backends := MergedInventory(f, kept, names)));
    PublishKeys(kept, desired.backends);
  }

  /** Merging publishes overlays but neither adds nor revives a name, and leaves the subscriptions alone. */
  lemma MergeNeverRevives(s: State, f: FileConfig)
    requires Inv(s)
    ensures var (t, _, _) := Merge(s, f);
            Inv(t) && t.subscriptions == s.subscriptions && t.nodes.Keys == Retained(s.nodes, f).Keys
            && t.nodes.Keys <= s.nodes.Keys
  {
    var kept := Retained(s.nodes, f);
    AscendingElements(kept.Keys);
    MergeNodesKeys(kept, f, Ascending(kept.Keys));
  }

  // ---- Settling --------------------------------------------------------------------------------

  ghost predicate DistinctNames(list: seq<Node>) {
    forall i, j :: 0 <= i < j < |list| ==> list[i].name != list[j].name
  }

  lemma {:induction false} PublishAt(nodes: Nodes, list: seq<Node>, i: nat)
    requires DistinctNames(list) && i < |list|
    ensures list[i].name in Publish(nodes, list) && Publish(nodes, list)[list[i].name] == list[i]
    decreases |list|
  {
    if i < |list| - 1 {
      PublishAt(nodes, list[..|list| - 1], i);
    }
  }

  lemma {:induction false} RecordedAt(list: seq<Node>, i: nat, fallback: Overlay)
    requires DistinctNames(list) && i < |list|
    ensures Recorded(list, list[i].name, fallback) == list[i].overlay
    decreases |list|
  {
    if i < |list| - 1 {
      RecordedAt(list[..|list| - 1], i, fallback);
    }
  }

  ghost function NamesOf(list: seq<Node>): (r: seq<string>)
    ensures |r| == |list|
  {
    seq(|list|, i requires 0 <= i < |list| => list[i].name)
  }

  /** Every entry of a list is registered as it stands. */
  ghost predicate Registered(list: seq<Node>, nodes: Nodes) {
    forall i :: 0 <= i < |list| ==> list[i].name in nodes && nodes[list[i].name] == list[i]
  }

  /** The configuration lists exactly the registered nodes, in the order of `names`. */
  ghost predicate Lists(backends: seq<Node>, nodes: Nodes, names: seq<string>) {
    NamesOf(backends) == names && Enumerates(names, nodes.Keys) && Registered(backends, nodes)
  }

  lemma ListedNames(list: seq<Node>, names: seq<string>, keys: set<string>)
    requires NamesOf(list) == names && Enumerates(names, keys)
    ensures DistinctNames(list) && forall i :: 0 <= i < |list| ==> list[i].name in keys
  {
    forall i | 0 <= i < |list|
      ensures list[i].name == names[i]
    {
      assert list[i].name == NamesOf(list)[i];
    }
  }

  /** Publishing one entry for each registered name makes registry and list agree. */
  lemma PublishLists(nodes: Nodes, list: seq<Node>, names: seq<string>)
    requires Named(nodes) && NamesOf(list) == names && Enumerates(names, nodes.Keys)
    ensures Lists(list, Publish(nodes, list), names)
  {
    ListedNames(list, names, nodes.Keys);
    PublishKeys(nodes, list);
    forall i | 0 <= i < |list|
      ensures list[i].name in Publish(nodes, list) && Publish(nodes, list)[list[i].name] == list[i]
    {
      PublishAt(nodes, list, i);
    }
  }

  /** A list and a registry that agree merge to that list. */
  lemma ListedInventory(f: FileConfig, nodes: Nodes, names: seq<string>)
    requires Named(nodes) && Lists(f.backends, nodes, names)
    ensures MergedInventory(f, nodes, names) == f.backends
  {
    var r := MergedInventory(f, nodes, names);
    ListedNames(f.backends, names, nodes.Keys);
    forall i | 0 <= i < |r|
      ensures r[i] == f.backends[i]
    {
      assert f.backends[i].name == NamesOf(f.backends)[i];
      RecordedAt(f.backends, i, nodes[f.backends[i].name].overlay);
    }
  }

  /** Publishing what is registered already changes nothing. */
  lemma {:induction false} PublishAgain(nodes: Nodes, list: seq<Node>)
    requires Registered(list, nodes)
    ensures Publish(nodes, list) == nodes
    decreases |list|
  {
    if list != [] {
      PublishAgain(nodes, list[..|list| - 1]);
    }
  }

  /** Normalizing placed backends again, in the old configuration or in the normalized one, keeps them. */
  lemma NormalizedStays(f: FileConfig)
    ensures var d := Normalized(f); Normalized(f.(backends := d.backends)) == d && Normalized(d) == d
  {
    var d := Normalized(f);
    var p, r := PlanOf(f), Assigned(f.cidr, PlanOf(f));
    var q := PlanOf(f.(backends := d.backends));
    assert q == p.(backends := r.backends);
    PlacedBackendsStay(f.cidr, p, q);
    assert PlanOf(d) == r;
    AssignmentIdempotent(f.cidr, p);
  }

  lemma SameUnderlays(f: FileConfig)
    ensures GatewayUnderlays(Normalized(f)) == GatewayUnderlays(f)
  {
    var d := Normalized(f);
    forall i | 0 <= i < |f.gateways|
      ensures d.gateways[i].underlayIp == f.gateways[i].underlayIp
              && d.gateways[i] in d.gateways && f.gateways[i] in f.gateways
    {
    }
  }

  /** The retained nodes depend only on the gateways' underlay addresses. */
  lemma RetainedAgain(kept: Nodes, nodes: Nodes, f: FileConfig, g: FileConfig)
    requires Retained(kept, f) == kept && nodes.Keys == kept.Keys && GatewayUnderlays(g) == GatewayUnderlays(f)
    requires forall n :: n in kept ==> nodes[n].underlayIp == kept[n].underlayIp
    ensures Retained(nodes, g) == nodes
  {
    forall n | n in nodes
      ensures nodes[n].underlayIp == 0 || nodes[n].underlayIp !in GatewayUnderlays(g)
    {
      assert n in Retained(kept, f);
    }
  }

  /** Registry and configuration agree and neither a normalization nor the gateway filter changes them. */
  ghost predicate Settled(nodes: Nodes, g: FileConfig, names: seq<string>) {
    Named(nodes) && Lists(g.backends, nodes, names)
    && Retained(nodes, g) == nodes && Normalized(g).backends == g.backends
  }

  lemma SettledMerge(nodes: Nodes, g: FileConfig, names: seq<string>)
    requires Settled(nodes, g, names)
    ensures MergeNodes(nodes, g, names) == (nodes, g, false)
  {
    ListedInventory(g, nodes, names);
    assert g.(backends := g.backends) == g;
    PublishAgain(nodes, g.backends);
  }

  /** The same backend, perhaps at another overlay address. */
  predicate SameNode(a: Node, b: Node) {
    a.name == b.name && a.publicIp == b.publicIp && a.underlayIp == b.underlayIp
  }

  /** Normalizing the inventory keeps each node but for its overlay address. */
  lemma DesiredNodes(kept: Nodes, f: FileConfig, names: seq<string>)
    requires Named(kept) && Enumerates(names, kept.Keys)
    ensures var d := Normalized(f.(backends := MergedInventory(f, kept, names)));
            NamesOf(d.backends) == names
            && forall i :: 0 <= i < |names| ==> SameNode(kept[names[i]], d.backends[i])
  {
  }

  lemma PublishedNode(kept: Nodes, list: seq<Node>, names: seq<string>, n: string)
    requires Enumerates(names, kept.Keys) && n in kept && NamesOf(list) == names
    requires forall i :: 0 <= i < |names| ==> SameNode(kept[names[i]], list[i])
    ensures n in Publish(kept, list) && SameNode(kept[n], Publish(kept, list)[n])
  {
    ListedNames(list, names, kept.Keys);
    var i :| 0 <= i < |names| && names[i] == n;
    assert NamesOf(list)[i] == list[i].name;
    PublishAt(kept, list, i);
  }

  /** Publishing changes no node but for its overlay address. */
  lemma MergeNodesNode(kept: Nodes, f: FileConfig, names: seq<string>, n: string)
    requires Named(kept) && Enumerates(names, kept.Keys) && n in kept
    ensures n in MergeNodes(kept, f, names).0 && SameNode(kept[n], MergeNodes(kept, f, names).0[n])
  {
    DesiredNodes(kept, f, names);
    PublishedNode(kept, Normalized(f.(backends := MergedInventory(f, kept, names))).backends, names, n);
  }

  /** What a merge publishes is settled, with the configuration it leaves. */
  lemma MergeNodesSettles(kept: Nodes, f: FileConfig, names: seq<string>)
    requires Named(kept) && Enumerates(names, kept.Keys) && Retained(kept, f) == kept
    ensures var (nodes, g, _) := MergeNodes(kept, f, names);
            Settled(nodes, g, names) && nodes.Keys == kept.Keys
  {
    var d := Normalized(f.(backends := MergedInventory(f, kept, names)));
    var nodes := Publish(kept, d.backends);
    DesiredNodes(kept, f, names);
    PublishLists(kept, d.backends, names);
    MergeNodesKeys(kept, f, names);
    NormalizedStays(f.(backends := MergedInventory(f, kept, names)));
    SameUnderlays(f.(backends := MergedInventory(f, kept, names)));
    forall n | n in kept
      ensures nodes[n].underlayIp == kept[n].underlayIp
    {
      MergeNodesNode(kept, f, names, n);
    }
    RetainedAgain(kept, nodes, f, f);
    RetainedAgain(kept, nodes, f, d);
    assert f.backends == d.backends ==> f == f.(backends := d.backends);
  }

  lemma MergeOf(s: State, f: FileConfig)
    requires Named(s.nodes) && Retained(s.nodes, f) == s.nodes && s.nodes != map[]
    ensures Enumerates(Ascending(s.nodes.Keys), s.nodes.Keys)
    ensures var (nodes, g, changed) := MergeNodes(s.nodes, f, Ascending(s.nodes.Keys));
            Merge(s, f) == (s.(nodes := nodes), g, changed)
  {
    AscendingElements(s.nodes.Keys);
  }

  /** One merge settles, with or without room in the overlay network: registry and configuration hold the same backends
      with the same addresses, and merging again changes nothing. */
  lemma MergeSettles(s: State, f: FileConfig)
    requires Inv(s)
    ensures var (t, g, _) := Merge(s, f);
            NamesOf(g.backends) == Ascending(t.nodes.Keys) && Registered(g.backends, t.nodes)
            && Merge(t, g) == (t, g, false)
  {
    var kept := Retained(s.nodes, f);
    var (t, g, _) := Merge(s, f);
    var names := Ascending(kept.Keys);
    AscendingElements(kept.Keys);
    if kept == map[] {
      assert names == [] == NamesOf(g.backends);
    } else {
      MergeNodesSettles(kept, f, names);
      SettledMerge(t.nodes, g, names);
      MergeOf(t, g);
    }
  }

  /** The overlay settings a merge starts from: the configuration's, with the retained inventory as backends. */
  ghost function MergePlan(s: State, f: FileConfig): (p: Plan) {
    var kept := Retained(s.nodes, f);
    AscendingElements(kept.Keys);
    PlanOf(f.(backends := MergedInventory(f, kept, Ascending(kept.Keys))))
  }

  /** The backend addresses a merge leaves are those of one assignment. */
  lemma MergedOverlays(s: State, f: FileConfig)
    requires Inv(s)
    ensures BackendOverlays(Merge(s, f).1.backends) == Assigned(f.cidr, MergePlan(s, f)).backends
  {
    var kept := Retained(s.nodes, f);
    var names := Ascending(kept.Keys);
    AscendingElements(kept.Keys);
    if kept == map[] {
      assert names == [] && Merge(s, f).1.backends == [];
    } else {
      var inventory := MergedInventory(f, kept, names);
      NormalizedStays(f.(backends := inventory));
      NormalizedOverlays(f.(backends := inventory));
    }
  }

  lemma NormalizedOverlays(f: FileConfig)
    ensures BackendOverlays(Normalized(f).backends) == Assigned(f.cidr, PlanOf(f)).backends
  {
  }

  /** After a merge the backends have pairwise different addresses, none a gateway's and none left unassigned, if and
      only if the overlay network has hosts for those in need. */
  lemma MergedAddressesIff(s: State, f: FileConfig)
    requires Inv(s)
    ensures var p := MergePlan(s, f);
            WellPlaced(f.cidr, BackendOverlays(Merge(s, f).1.backends), GatewayUse(Assigned(f.cidr, p)))
            <==> Fits(f.cidr, p)
  {
    MergedOverlays(s, f);
    AssignmentDistinctIff(f.cidr, MergePlan(s, f));
  }

  /** Entry `j` is the last of the list under the name. */
  ghost predicate LastNamed(list: seq<Node>, name: string, j: int) {
    0 <= j < |list| && list[j].name == name && forall i :: j < i < |list| ==> list[i].name != name
  }

  lemma {:induction false} RecordedIs(list: seq<Node>, name: string, fallback: Overlay)
    ensures (forall i :: 0 <= i < |list| ==> list[i].name != name) ==> Recorded(list, name, fallback) == fallback
    ensures forall j :: LastNamed(list, name, j) ==> Recorded(list, name, fallback) == list[j].overlay
    decreases |list|
  {
    if list != [] {
      var front := list[..|list| - 1];
      RecordedIs(front, name, fallback);
      forall j | LastNamed(list, name, j)
        ensures Recorded(list, name, fallback) == list[j].overlay
      {
        assert j < |front| ==> LastNamed(front, name, j);
      }
    }
  }

  /** A merge starts from the address the configuration last recorded for a backend, and from the registry's only for
      one the configuration does not know. */
  lemma MergeStartsFromRecorded(s: State, f: FileConfig, i: nat)
    requires Inv(s) && i < |Ascending(Retained(s.nodes, f).Keys)|
    ensures var name, from := Ascending(Retained(s.nodes, f).Keys)[i], MergePlan(s, f).backends;
            i < |from| && name in s.nodes
            && ((forall j :: 0 <= j < |f.backends| ==> f.backends[j].name != name) ==> from[i] == s.nodes[name].overlay)
            && (forall j :: LastNamed(f.backends, name, j) ==> from[i] == f.backends[j].overlay)
  {
    var kept := Retained(s.nodes, f);
    AscendingElements(kept.Keys);
    var name := Ascending(kept.Keys)[i];
    RecordedIs(f.backends, name, kept[name].overlay);
  }

  /** A merge that reports no change leaves the configuration alone, and one that changes the list reports it. */
  lemma MergeReportsChange(s: State, f: FileConfig)
    requires Inv(s)
    ensures var (_, g, changed) := Merge(s, f);
            (!changed ==> g == f) && (g.backends != f.backends ==> changed)
  {
    var kept := Retained(s.nodes, f);
    AscendingElements(kept.Keys);
  }

  // ---- Runs ------------------------------------------------------------------------------------

  datatype Event =
    | UpsertEvent(req: Discovery, streamId: string, now: u64)
    | TouchEvent(name: string, streamId: string, req: Discovery, now: u64)
    | RemoveEvent(name: string, streamId: string)
    | PruneEvent(now: u64)
    | MergeEvent(file: FileConfig)

  ghost function Step(s: State, e: Event): (r: State)
    requires Inv(s)
  {
    match e
    case UpsertEvent(req, streamId, now) => Upsert(s, req, streamId, now)
    case TouchEvent(name, streamId, req, now) => Touch(s, name, streamId, req, now)
    case RemoveEvent(name, streamId) => Remove(s, name, streamId)
    case PruneEvent(now) => Prune(s, now)
    case MergeEvent(file) => Merge(s, file).0
  }

  lemma StepKeeps(s: State, e: Event)
    requires Inv(s)
    ensures Inv(Step(s, e))
  {
    if e.MergeEvent? {
      MergeNeverRevives(s, e.file);
    }
  }

  ghost function Run(s: State, es: seq<Event>): (r: State)
    requires Inv(s)
    ensures Inv(r)
    decreases |es|
  {
    if es == [] then s
    else
      StepKeeps(s, es[0]);
      Run(Step(s, es[0]), es[1..])
  }

  /** In every interleaving, a node in the inventory has a subscription. */
  lemma InventoryIsSubscribed(es: seq<Event>)
    ensures var s := Run(State(map[], map[]), es);
            s.nodes.Keys <= s.subscriptions.Keys && Named(s.nodes)
  {
    assert Inv(Run(State(map[], map[]), es));
  }

  predicate Registers(e: Event, name: string) {
    e.UpsertEvent? && e.req.nodeName == name && e.req.underlayIp.Some?
  }

  /** Once a backend is gone, nothing but a new registration brings it back: no merge, no late message. */
  lemma {:induction false} GoneStaysGone(s: State, es: seq<Event>, name: string)
    requires Inv(s) && name !in s.subscriptions
    requires forall i :: 0 <= i < |es| ==> !Registers(es[i], name)
    ensures name !in Run(s, es).subscriptions && name !in Run(s, es).nodes
    decreases |es|
  {
    if es != [] {
      StepKeeps(s, es[0]);
      assert !Registers(es[0], name);
      if es[0].MergeEvent? {
        MergeNeverRevives(s, es[0].file);
      }
      GoneStaysGone(Step(s, es[0]), es[1..], name);
    }
  }

  /** The event does not end the registration that `streamId` holds: other streams may try, and prunes must find it
      fresh. */
  ghost predicate Spares(s: State, e: Event, name: string, streamId: string) {
    !Registers(e, name)
    && (e.RemoveEvent? && e.name == name ==> e.streamId != streamId)
    && (name in s.subscriptions && e.PruneEvent? ==> !Stale(s.subscriptions[name], e.now))
  }

  ghost predicate AllSpare(s: State, es: seq<Event>, name: string, streamId: string)
    requires Inv(s)
    decreases |es|
  {
    es == [] ||
    (Spares(s, es[0], name, streamId) && (StepKeeps(s, es[0]); AllSpare(Step(s, es[0]), es[1..], name, streamId)))
  }

  /** A registration outlives every message of older streams: only its own stream, its silence or a newer registration
      ends it. */
  lemma {:induction false} RegistrationSurvives(s: State, es: seq<Event>, name: string, streamId: string)
    requires Inv(s) && name in s.subscriptions && s.subscriptions[name].streamId == streamId
    requires AllSpare(s, es, name, streamId)
    ensures name in Run(s, es).subscriptions && Run(s, es).subscriptions[name].streamId == streamId
    ensures var a, b := s.subscriptions[name], Run(s, es).subscriptions[name];
            a.underlayIp == b.underlayIp && a.publicIp == b.publicIp && a.connectedAt == b.connectedAt
    decreases |es|
  {
    if es != [] {
      StepKeeps(s, es[0]);
      if es[0].MergeEvent? {
        MergeNeverRevives(s, es[0].file);
      }
      RegistrationSurvives(Step(s, es[0]), es[1..], name, streamId);
    }
  }

  /** No gateway of the configuration has the address; the unspecified address is never a gateway's. */
  predicate NoGateway(f: FileConfig, underlay: u32) {
    underlay == 0 || forall g :: g in f.gateways ==> g.underlayIp != underlay
  }

  /** The address is not one a merge of the run takes for a gateway's. */
  predicate NeverGateway(es: seq<Event>, underlay: u32) {
    forall i :: 0 <= i < |es| && es[i].MergeEvent? ==> NoGateway(es[i].file, underlay)
  }

  lemma MergeNode(s: State, f: FileConfig, name: string)
    requires Inv(s) && name in s.nodes
    ensures var t, u := Merge(s, f).0, s.nodes[name].underlayIp;
            (name in t.nodes <==> NoGateway(f, u)) && (name in t.nodes ==> SameNode(s.nodes[name], t.nodes[name]))
  {
    MergeNeverRevives(s, f);
    var kept := Retained(s.nodes, f);
    if name in kept {
      AscendingElements(kept.Keys);
      MergeNodesNode(kept, f, Ascending(kept.Keys), name);
    }
  }

  /** An event that spares a registration keeps its node, with its address, unless a merge takes it for a gateway. */
  lemma StepNode(s: State, e: Event, name: string, streamId: string)
    requires Inv(s) && name in s.nodes && s.subscriptions[name].streamId == streamId && Spares(s, e, name, streamId)
    ensures var t, u := Step(s, e), s.nodes[name].underlayIp;
            (name in t.nodes <==> NeverGateway([e], u)) && (name in t.nodes ==> SameNode(s.nodes[name], t.nodes[name]))
  {
    var u := s.nodes[name].underlayIp;
    assert NeverGateway([e], u) <==> (e.MergeEvent? ==> NoGateway(e.file, u)) by {
      assert [e][0] == e;
    }
    if e.MergeEvent? {
      MergeNode(s, e.file, name);
    }
  }

  /** A node that is out of the inventory stays out until its backend registers again. */
  lemma {:induction false} DroppedStaysDropped(s: State, es: seq<Event>, name: string)
    requires Inv(s) && name !in s.nodes && forall i :: 0 <= i < |es| ==> !Registers(es[i], name)
    ensures name !in Run(s, es).nodes
    decreases |es|
  {
    if es != [] {
      StepKeeps(s, es[0]);
      assert !Registers(es[0], name);
      if es[0].MergeEvent? {
        MergeNeverRevives(s, es[0].file);
      }
      DroppedStaysDropped(Step(s, es[0]), es[1..], name);
    }
  }

  lemma {:induction false} SparedNotRegistered(s: State, es: seq<Event>, name: string, streamId: string, i: nat)
    requires Inv(s) && AllSpare(s, es, name, streamId) && i < |es|
    ensures !Registers(es[i], name)
    decreases |es|
  {
    if i > 0 {
      StepKeeps(s, es[0]);
      SparedNotRegistered(Step(s, es[0]), es[1..], name, streamId, i - 1);
    }
  }

  lemma NeverGatewayFirst(es: seq<Event>, u: u32)
    requires es != []
    ensures NeverGateway(es, u) <==> NeverGateway([es[0]], u) && NeverGateway(es[1..], u)
  {
    assert [es[0]][0] == es[0] && forall i :: 1 <= i < |es| ==> es[i] == es[1..][i - 1];
  }

  /** As long as its registration is spared, a node stays in the inventory if and only if no merge finds its underlay
      address among the gateways. */
  lemma {:induction false} NodeSurvivesIff(s: State, es: seq<Event>, name: string, streamId: string)
    requires Inv(s) && name in s.nodes && s.subscriptions[name].streamId == streamId
    requires AllSpare(s, es, name, streamId)
    ensures name in Run(s, es).nodes <==> NeverGateway(es, s.nodes[name].underlayIp)
    ensures name in Run(s, es).nodes ==> SameNode(s.nodes[name], Run(s, es).nodes[name])
    decreases |es|
  {
    if es != [] {
      var t := Step(s, es[0]);
      StepKeeps(s, es[0]);
      StepNode(s, es[0], name, streamId);
      NeverGatewayFirst(es, s.nodes[name].underlayIp);
      if name in t.nodes {
        SparedStream(s, es[0], name, streamId);
        NodeSurvivesIff(t, es[1..], name, streamId);
      } else {
        forall i | 0 <= i < |es[1..]|
          ensures !Registers(es[1..][i], name)
        {
          SparedNotRegistered(s, es, name, streamId, i + 1);
        }
        DroppedStaysDropped(t, es[1..], name);
      }
    }
  }

  lemma SparedStream(s: State, e: Event, name: string, streamId: string)
    requires Inv(s) && name in s.subscriptions && s.subscriptions[name].streamId == streamId
             && Spares(s, e, name, streamId)
    ensures name in Step(s, e).subscriptions && Step(s, e).subscriptions[name].streamId == streamId
  {
    if e.MergeEvent? {
      MergeNeverRevives(s, e.file);
    }
  }

  // ---- From registration to configuration ------------------------------------------------------

  /** A registration puts the backend into the inventory, at the overlay address its name had or at none yet. */
  lemma RegistrationEnters(s: State, req: Discovery, streamId: string, now: u64)
    requires Inv(s) && req.underlayIp.Some?
    ensures var t, name := Upsert(s, req, streamId, now), req.nodeName;
            name in t.subscriptions && t.subscriptions[name].streamId == streamId
            && t.subscriptions[name].lastSeen == t.subscriptions[name].connectedAt == now
            && name in t.nodes && t.nodes[name].name == name
            && t.nodes[name].underlayIp == t.subscriptions[name].underlayIp == req.underlayIp.value
            && t.nodes[name].publicIp == t.subscriptions[name].publicIp
            && t.nodes[name].publicIp == (if req.publicIp.Some? then req.publicIp.value else 0)
            && t.nodes[name].overlay == (if name in s.nodes then s.nodes[name].overlay else Auto)
            && t.subscriptions - {name} == s.subscriptions - {name} && t.nodes - {name} == s.nodes - {name}
  {
  }

  /** The backend is in the list, with its addresses. */
  ghost predicate Listed(backends: seq<Node>, name: string, publicIp: u32, underlay: u32) {
    exists i :: 0 <= i < |backends| && backends[i].name == name && backends[i].publicIp == publicIp
                && backends[i].underlayIp == underlay
  }

  /** A merge lists exactly the nodes it keeps. */
  lemma MergeLists(s: State, f: FileConfig, name: string)
    requires Inv(s)
    ensures (exists i :: 0 <= i < |Merge(s, f).1.backends| && Merge(s, f).1.backends[i].name == name)
       <==> name in s.nodes && NoGateway(f, s.nodes[name].underlayIp)
    ensures name in s.nodes && NoGateway(f, s.nodes[name].underlayIp) ==>
              Listed(Merge(s, f).1.backends, name, s.nodes[name].publicIp, s.nodes[name].underlayIp)
  {
    var (t, g, _) := Merge(s, f);
    MergeSettles(s, f);
    MergeNeverRevives(s, f);
    AscendingElements(t.nodes.Keys);
    forall i | 0 <= i < |g.backends|
      ensures g.backends[i].name == Ascending(t.nodes.Keys)[i]
    {
      assert NamesOf(g.backends)[i] == g.backends[i].name;
    }
    if name in s.nodes {
      MergeNode(s, f, name);
      if name in t.nodes {
        var i :| 0 <= i < |Ascending(t.nodes.Keys)| && Ascending(t.nodes.Keys)[i] == name;
        assert g.backends[i].name == name && t.nodes[name] == g.backends[i];
      }
    }
  }

  /** The list a merge writes is in ascending order of names, each once. */
  lemma MergeListsInOrder(s: State, f: FileConfig, i: nat, j: nat)
    requires Inv(s) && i < j < |Merge(s, f).1.backends|
    ensures var a, b := Merge(s, f).1.backends[i].name, Merge(s, f).1.backends[j].name;
            LexLe(a, b) && a != b
  {
    var (t, g, _) := Merge(s, f);
    MergeSettles(s, f);
    AscendingElements(t.nodes.Keys);
    AscendingSorted(t.nodes.Keys);
    assert NamesOf(g.backends)[i] == g.backends[i].name && NamesOf(g.backends)[j] == g.backends[j].name;
  }

  /** After a registration and any events that spare it, the backend is subscribed with the address it gave, and it is
      in the inventory, and in the configuration the next merge writes, if and only if no merge took that address for a
      gateway's. */
  lemma RegisteredIsListedIff(s: State, req: Discovery, streamId: string, now: u64, es: seq<Event>, f: FileConfig)
    requires Inv(s) && req.underlayIp.Some?
    requires AllSpare(Upsert(s, req, streamId, now), es, req.nodeName, streamId)
    ensures var r, name, u := Run(Upsert(s, req, streamId, now), es), req.nodeName, req.underlayIp.value;
            name in r.subscriptions && r.subscriptions[name].streamId == streamId
            && r.subscriptions[name].underlayIp == u
            && (name in r.nodes <==> NeverGateway(es, u))
            && (name in r.nodes ==> r.nodes[name].name == name && r.nodes[name].underlayIp == u)
            && ((exists i :: 0 <= i < |Merge(r, f).1.backends| && Merge(r, f).1.backends[i].name == name)
                <==> NeverGateway(es, u) && NoGateway(f, u))
            && (NeverGateway(es, u) && NoGateway(f, u) ==>
                  Listed(Merge(r, f).1.backends, name, PublicIp(req), u))
  {
    var t, name := Upsert(s, req, streamId, now), req.nodeName;
    RegistrationEnters(s, req, streamId, now);
    RegistrationSurvives(t, es, name, streamId);
    NodeSurvivesIff(t, es, name, streamId);
    MergeLists(Run(t, es), f, name);
  }

  /** A removal ends exactly the registration of the stream that asks for it. */
  lemma RemovalEndsIff(s: State, name: string, streamId: string, other: string)
    requires Inv(s)
    ensures var t := Remove(s, name, streamId);
            (other in t.subscriptions <==> other in s.subscriptions
                                           && !(other == name && s.subscriptions[name].streamId == streamId))
            && (other in t.nodes <==> other in s.nodes && other in t.subscriptions)
            && (other in t.subscriptions ==> t.subscriptions[other] == s.subscriptions[other])
            && (other in t.nodes ==> t.nodes[other] == s.nodes[other])
  {
  }

  /** Reported conflicts are cleared only by a full acknowledgement without any. */
  lemma ConflictsClearedIff(s: State, name: string, streamId: string, req: Discovery, now: u64)
    requires name in s.subscriptions && s.subscriptions[name].streamId == streamId
    ensures var a, b := s.subscriptions[name], Touch(s, name, streamId, req, now).subscriptions[name];
            (a.conflicts != [] ==>
               (b.conflicts == [] <==> req.ack && req.version != "" && req.responseNonce != "" && req.conflicts == []))
            && (req.conflicts != [] ==> b.conflicts == req.conflicts)
            && b.lastVersion == (if req.version == "" then a.lastVersion else req.version)
  {
  }

  // ---- Heartbeats ------------------------------------------------------------------------------

  /** From a registration or heartbeat at `last` on, no prune comes more than 30 seconds after the latest heartbeat of
      the stream, and neither the stream nor a newer registration ends it. */
  ghost predicate Beats(es: seq<Event>, name: string, streamId: string, last: u64)
    decreases |es|
  {
    es == []
    || (var e := es[0];
        !Registers(e, name)
        && (e.RemoveEvent? && e.name == name ==> e.streamId != streamId)
        && (e.PruneEvent? ==> e.now - last <= 30)
        && Beats(es[1..], name, streamId,
                 if e.TouchEvent? && e.name == name && e.streamId == streamId then e.now else last))
  }

  /** A backend whose heartbeats come in time keeps its registration. */
  lemma {:induction false} BeatingIsSpared(s: State, es: seq<Event>, name: string, streamId: string, last: u64)
    requires Inv(s) && name in s.subscriptions && s.subscriptions[name].streamId == streamId
    requires s.subscriptions[name].lastSeen == last && Beats(es, name, streamId, last)
    ensures AllSpare(s, es, name, streamId)
    decreases |es|
  {
    if es != [] {
      var t := Step(s, es[0]);
      StepKeeps(s, es[0]);
      SparedStream(s, es[0], name, streamId);
      if es[0].MergeEvent? {
        MergeNeverRevives(s, es[0].file);
      }
      BeatingIsSpared(t, es[1..], name, streamId, t.subscriptions[name].lastSeen);
    }
  }

  /** A heartbeat restarts the 30 seconds: a later prune removes the backend exactly if more have passed since. */
  lemma HeartbeatRestarts(s: State, name: string, streamId: string, req: Discovery, now: u64, later: u64)
    requires Inv(s) && name in s.subscriptions && s.subscriptions[name].streamId == streamId
    ensures name in Prune(Touch(s, name, streamId, req, now), later).subscriptions <==> later - now <= 30
  {
  }

  /** A backend that registers and then keeps its heartbeats at most 30 seconds before each prune is listed by the next
      merge if and only if no merge took its address for a gateway's. */
  lemma BeatingIsListedIff(s: State, req: Discovery, streamId: string, now: u64, es: seq<Event>, f: FileConfig)
    requires Inv(s) && req.underlayIp.Some?
    requires Beats(es, req.nodeName, streamId, now)
    ensures var backends, u := Merge(Run(Upsert(s, req, streamId, now), es), f).1.backends, req.underlayIp.value;
            ((exists i :: 0 <= i < |backends| && backends[i].name == req.nodeName)
             <==> NeverGateway(es, u) && NoGateway(f, u))
            && (NeverGateway(es, u) && NoGateway(f, u) ==> Listed(backends, req.nodeName, PublicIp(req), u))
  {
    RegistrationEnters(s, req, streamId, now);
    BeatingIsSpared(Upsert(s, req, streamId, now), es, req.nodeName, streamId, now);
    RegisteredIsListedIff(s, req, streamId, now, es, f);
  }

  // ---- The object ------------------------------------------------------------------------------

  class BackendRegistry {
    var subscriptions: Subscriptions
    var nodes: Nodes

    ghost function Value(): (s: State)
      reads this
    {
      State(subscriptions, nodes)
    }

    ghost predicate Valid()
      reads this
    {
      Inv(Value())
    }

    constructor ()
      ensures Valid() && Value() == State(map[], map[])
    {
      subscriptions, nodes := map[], map[];
    }

    method UpsertBackend(req: Discovery, streamId: string, now: u64)
      requires Valid()
      modifies this
      ensures Valid() && Value() == Upsert(old(Value()), req, streamId, now)
    {
      if req.underlayIp.None? {
        return;
      }
      subscriptions := subscriptions[
        req.nodeName := Subscription(PublicIp(req), req.underlayIp.value, streamId, now, now,
                                     req.version, req.conflicts)];
      var overlay := if req.nodeName in nodes then nodes[req.nodeName].overlay else Auto;
      nodes := nodes[req.nodeName := Node(req.nodeName, PublicIp(req), req.underlayIp.value, overlay)];
    }

    method TouchBackend(name: string, streamId: string, req: Discovery, now: u64)
      requires Valid()
      modifies this`subscriptions
      ensures Valid() && Value() == Touch(old(Value()), name, streamId, req, now)
    {
      if name !in subscriptions || subscriptions[name].streamId != streamId {
        return;
      }
      var sub := subscriptions[name].(lastSeen := now);
      if req.version != "" {
        sub := sub.(lastVersion := req.version);
      }
      if (req.ack && req.version != "" && req.responseNonce != "") || req.conflicts != [] {
        sub := sub.(conflicts := req.conflicts);
      }
      subscriptions := subscriptions[name := sub];
    }

    method RemoveBackend(name: string, streamId: string)
      requires Valid()
      modifies this
      ensures Valid() && Value() == Remove(old(Value()), name, streamId)
    {
      if name in subscriptions && subscriptions[name].streamId == streamId {
        subscriptions := subscriptions - {name};
        nodes := nodes - {name};
      }
    }

    /** `prune_expired`: one pass over the subscriptions. */
    method PruneExpired(now: u64) returns (removed: set<string>)
      requires Valid()
      modifies this
      ensures Valid() && Value() == Prune(old(Value()), now) && removed == StaleNames(old(Value()), now)
    {
      removed := {};
      var todo := subscriptions.Keys;
      while todo != {}
        invariant todo <= old(subscriptions).Keys
        invariant removed == StaleNames(old(Value()), now) - todo
        invariant subscriptions == old(subscriptions) - removed && nodes == old(nodes) - removed
        decreases todo
      {
        var name :| name in todo;
        todo := todo - {name};
        if SaturatingSub(now, subscriptions[name].lastSeen) > SUBSCRIPTION_TTL_SECS {
          subscriptions := subscriptions - {name};
          nodes := nodes - {name};
          removed := removed + {name};
        }
      }
    }

    /** The part of `merge_into` that runs under one lock. */
    method MergeInto(f: FileConfig) returns (file: FileConfig, changed: bool)
      requires Valid()
      modifies this`nodes
      ensures Valid() && (Value(), file, changed) == Merge(old(Value()), f)
    {
      MergeNeverRevives(Value(), f);
      var before := |nodes|;
      nodes := Retained(nodes, f);
      if nodes == map[] {
        if f.backends != [] || |nodes| != before {
          return Normalized(f.(backends := [])), true;
        }
        return f, false;
      }
      var inventory := Inventory(f);
      var desired := Normalized(f.(backends := inventory));
      changed := f.backends != desired.backends;
      PublishAll(desired.backends);
      file := if changed then Normalized(f.(backends := desired.backends)) else f;
    }

    method PublishAll(list: seq<Node>)
      modifies this`nodes
      ensures nodes == Publish(old(nodes), list)
    {
      for i := 0 to |list|
        invariant nodes == Publish(old(nodes), list[..i])
      {
        assert list[..i + 1][..i] == list[..i];
        nodes := nodes[list[i].name := list[i]];
      }
      assert list[..|list|] == list;
    }

    /** `merge_backend_inventory` on the retained nodes. */
    method Inventory(f: FileConfig) returns (r: seq<Node>)
      ensures Enumerates(Ascending(nodes.Keys), nodes.Keys)
      ensures r == MergedInventory(f, nodes, Ascending(nodes.Keys))
    {
      var names := SortedNames(nodes.Keys);
      AscendingElements(nodes.Keys);
      r := InventoryIn(f, nodes, names);
    }
  }

  method InventoryIn(f: FileConfig, known: Nodes, names: seq<string>) returns (r: seq<Node>)
    requires forall n :: n in names ==> n in known
    ensures r == MergedInventory(f, known, names)
  {
    r := [];
    for i := 0 to |names|
      invariant |r| == i && forall j :: 0 <= j < i ==> r[j] == Refreshed(f, known[names[j]])
    {
      var node := known[names[i]];
      r := r + [node.(overlay := Recorded(f.backends, node.name, node.overlay))];
    }
  }
}
