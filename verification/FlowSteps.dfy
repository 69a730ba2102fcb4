/** What one packet, one sweep or one reconfiguration does to the state of the gateway datapath. */
module FlowSteps {
  import opened Words
  import opened Tables
  import opened Counting
  import opened FlowKeys
  import opened TargetSelect
  import opened Replication

  const FLOW_MAP_CAPACITY: nat := 1_048_576

  type Listeners = map<ListenerKey, ListenerValue>

  datatype Gateway = Gateway(
    flows: Flows, active: Loads, listeners: Listeners, targets: Targets, buckets: Buckets, cursors: seq<u32>)

  /** Header rewrite handed to the NAT helper: the old values drive the incremental checksums. */
  datatype Rewrite = Rewrite(oldAddress: u32, newAddress: u32, oldPort: u16, newPort: u16)

  datatype Verdict =
    | Pass
    | ToTarget(out: Packet, rewrite: Rewrite, slot: SlotKey)
    | ToClient(out: Packet, rewrite: Rewrite)

  function RewriteDestination(p: Packet, rw: Rewrite): (r: Packet) {
    p.(dst := rw.newAddress, dport := rw.newPort)
  }

  function RewriteSource(p: Packet, rw: Rewrite): (r: Packet) {
    p.(src := rw.newAddress, sport := rw.newPort)
  }

  /** `adjust_active_flows` with delta +1. */
  function Raised(active: Loads, slot: SlotKey): (r: Loads) {
    var current := GetOr0(active, slot);
    active[slot := if current == U32_MAX then current else current + 1]
  }

  /** `adjust_active_flows` with delta -1; a counter that reaches zero is removed. */
  function Lowered(active: Loads, slot: SlotKey): (r: Loads) {
    var next := SaturatingSub(GetOr0(active, slot), 1);
    if next == 0 then active - {slot} else active[slot := next]
  }

  function Touched(v: FlowValue, now: u64): (r: FlowValue) {
    v.(lastSeenNs := now)
  }

  /** Write both directions of a flow. */
  function PutPair(flows: Flows, k: FlowKey, r: FlowKey, v: FlowValue): (m: Flows) {
    flows[k := v][r := v]
  }

  function ViewOf(g: Gateway): (v: View) {
    View(g.targets, g.buckets, g.active, g.cursors)
  }

  function ListenerKeyOf(p: Packet): (k: ListenerKey) {
    ListenerKey(p.dst, SwapBytes(p.dport), p.proto)
  }

  /** The selector's answer for a packet that has no live flow. */
  function ChosenTarget(g: Gateway, p: Packet, packetHash: u32): (r: u32) {
    var lk := ListenerKeyOf(p);
    if lk !in g.listeners then MAX_TARGETS_PER_LISTENER
    else
      var listener := g.listeners[lk];
      Select(ViewOf(g), KeyOf(p), listener, if listener.select == SELECT_HASH then packetHash else 0)
  }

  /** The part of `try_native_dnat_ingress` after the flow lookup, with the selector's answer given. */
  function OpenFlow(g: Gateway, p: Packet, now: u64, targetId: u32): (r: (Gateway, Verdict)) {
    var lk := ListenerKeyOf(p);
    if lk !in g.listeners || g.listeners[lk].targetCount == 0 then (g, Pass)
    else
      var listener := g.listeners[lk];
      var g1 := g.(cursors := CursorsAfter(g.cursors, listener));
      var slot := SlotKey(listener.listenerId, targetId);
      if targetId >= MAX_TARGETS_PER_LISTENER || !Usable(g.targets, listener.listenerId, targetId) then (g1, Pass)
      else
        var target := g.targets[slot];
        var reverse := KeyOf(Packet(target.address, p.src, target.port, p.sport, p.proto));
        var v := FlowValue(listener.listenerId, targetId, p.dst, target.address, SwapBytes(p.dport), target.port,
                           listener.timeoutSecs, now);
        var rw := Rewrite(p.dst, target.address, p.dport, target.port);
        (g1.(flows := PutPair(g.flows, KeyOf(p), reverse, v), active := Raised(g.active, slot)),
         ToTarget(RewriteDestination(p, rw), rw, slot))
  }

  /** Remove both directions of a flow and release its slot. */
  function CloseFlow(g: Gateway, k: FlowKey, r: FlowKey, v: FlowValue): (h: Gateway) {
    g.(flows := g.flows - {k, r}, active := Lowered(g.active, SlotOf(v)))
  }

  /** The state once an expired flow of the packet has been dropped. */
  function AfterExpiry(g: Gateway, k: FlowKey, now: u64): (h: Gateway) {
    if k in g.flows && FlowExpired(g.flows[k], now) then CloseFlow(g, k, ReverseFor(k, g.flows[k]), g.flows[k]) else g
  }

  /** `try_native_dnat_ingress` on a parsed packet, with the selector's answer given. */
  function IngressWith(g: Gateway, p: Packet, now: u64, targetId: u32): (r: (Gateway, Verdict)) {
    var k := KeyOf(p);
    if k in g.flows && !FlowExpired(g.flows[k], now) then
      var v := g.flows[k];
      var rw := Rewrite(v.vip, v.target, p.dport, v.targetPort);
      (g.(flows := PutPair(g.flows, k, ReverseFor(k, v), Touched(v, now))),
       ToTarget(RewriteDestination(p, rw), rw, SlotOf(v)))
    else OpenFlow(AfterExpiry(g, k, now), p, now, targetId)
  }

  /** `try_native_dnat_ingress` on a parsed packet. */
  function Ingress(g: Gateway, p: Packet, now: u64, packetHash: u32): (r: (Gateway, Verdict)) {
    IngressWith(g, p, now, ChosenTarget(AfterExpiry(g, KeyOf(p), now), p, packetHash))
  }

  /** `try_native_dnat_return` on a parsed packet. */
  function Return(g: Gateway, p: Packet, now: u64): (r: (Gateway, Verdict)) {
    var k := KeyOf(p);
    if k !in g.flows then (g, Pass)
    else
      var v := g.flows[k];
      if FlowExpired(v, now) then (CloseFlow(g, k, ForwardFor(k, v), v), Pass)
      else
        var rw := Rewrite(v.target, v.vip, p.sport, SwapBytes(v.vipPort));
        (g.(flows := PutPair(g.flows, k, ForwardFor(k, v), Touched(v, now))),
         ToClient(RewriteSource(p, rw), rw))
  }

  function Unexpired(flows: Flows, now: u64): (m: Flows) {
    map k | k in flows && !FlowExpired(flows[k], now) :: flows[k]
  }

  /** The distinct flows, named by their canonical pair, that load one slot. */
  function PairsOn(flows: Flows, slot: SlotKey): (s: set<(FlowKey, FlowKey)>) {
    set k | k in flows && SlotOf(flows[k]) == slot :: CanonicalPair(k, flows[k])
  }

  /** The slots that carry at least one entry. */
  function LoadedSlots(flows: Flows): (s: set<SlotKey>) {
    set k | k in flows :: SlotOf(flows[k])
  }

  /** Number of flows on a slot, saturating. */
  function LoadOn(flows: Flows, slot: SlotKey): (n: u32) {
    if |PairsOn(flows, slot)| <= U32_MAX then |PairsOn(flows, slot)| else U32_MAX
  }

  /** The recount of `sweep_flows_inner`: each flow is counted once, on the slot it loads. */
  function Recount(flows: Flows): (r: Loads) {
    map slot | slot in LoadedSlots(flows) :: LoadOn(flows, slot)
  }

  lemma UnexpiredSize(flows: Flows, now: u64)
    ensures |Unexpired(flows, now)| <= |flows|
  {
    SubsetSize(Unexpired(flows, now).Keys, flows.Keys);
  }

  /** `sweep_flows_inner`. */
  function Sweep(g: Gateway, now: u64, refreshLoads: bool): (h: Gateway) {
    var live := Unexpired(g.flows, now);
    g.(flows := live, active := if refreshLoads then Recount(live) else g.active)
  }

  /** Replacing the configuration maps leaves flows, counters and cursors alone. */
  function Reconfigure(g: Gateway, listeners: Listeners, targets: Targets, buckets: Buckets): (h: Gateway) {
    g.(listeners := listeners, targets := targets, buckets := buckets)
  }

  /** One flow, replicated by the peer in both directions. */
  function Upsert(g: Gateway, k: FlowKey, v: FlowValue): (h: Gateway) {
    g.(flows := ApplyAll(g.flows, PairOf(k, v)))
  }

  datatype Event =
    | IngressEvent(p: Packet, now: u64, packetHash: u32)
    | ReturnEvent(p: Packet, now: u64)
    | SweepEvent(now: u64, refreshLoads: bool)
    | ReconfigureEvent(listeners: Listeners, targets: Targets, buckets: Buckets)
    | UpsertEvent(key: FlowKey, value: FlowValue)

  function Step(g: Gateway, e: Event): (h: Gateway) {
    match e
    case IngressEvent(p, now, packetHash) => Ingress(g, p, now, packetHash).0
    case ReturnEvent(p, now) => Return(g, p, now).0
    case SweepEvent(now, refresh) => Sweep(g, now, refresh)
    case ReconfigureEvent(listeners, targets, buckets) => Reconfigure(g, listeners, targets, buckets)
    case UpsertEvent(key, value) => Upsert(g, key, value)
  }
}
