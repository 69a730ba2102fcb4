/** Keys and values of the shared flow map, and how the two directions of a flow name each other. */
module FlowKeys {
  import opened Words
  import opened Tables

  /** Ports are in network byte order. */
  datatype FlowKey = FlowKey(src: u32, dst: u32, sport: u16, dport: u16, proto: u8)

  /** `vipPort` is in network byte order, `targetPort` in host byte order. */
  datatype FlowValue = FlowValue(
    listenerId: u32, targetId: u32, vip: u32, target: u32, vipPort: u16, targetPort: u16,
    timeoutSecs: u32, lastSeenNs: u64)

  type Flows = map<FlowKey, FlowValue>

  /** A parsed TCP or UDP packet; ports in host byte order. */
  datatype Packet = Packet(src: u32, dst: u32, sport: u16, dport: u16, proto: u8)

  function KeyOf(p: Packet): (k: FlowKey) {
    FlowKey(p.src, p.dst, SwapBytes(p.sport), SwapBytes(p.dport), p.proto)
  }

  /** Every field of a packet is in its key. */
  lemma KeysTellPackets(p: Packet, q: Packet)
    ensures KeyOf(p) == KeyOf(q) <==> p == q
  {
    SwapBytesInvolutive(p.sport);
    SwapBytesInvolutive(q.sport);
    SwapBytesInvolutive(p.dport);
    SwapBytesInvolutive(q.dport);
  }

  /** `NativeFlowKey::reverse_for`. */
  function ReverseFor(k: FlowKey, v: FlowValue): (r: FlowKey) {
    FlowKey(v.target, k.src, SwapBytes(v.targetPort), k.sport, k.proto)
  }

  /** `NativeFlowKey::forward_for`. */
  function ForwardFor(k: FlowKey, v: FlowValue): (r: FlowKey) {
    FlowKey(k.dst, v.vip, k.dport, v.vipPort, k.proto)
  }

  /** The key names the listener the value was created for. */
  predicate ForwardShaped(k: FlowKey, v: FlowValue) {
    k.dst == v.vip && k.dport == v.vipPort
  }

  /** The key is a packet from the target the value was created for. */
  predicate ReverseShaped(k: FlowKey, v: FlowValue) {
    k.src == v.target && k.sport == SwapBytes(v.targetPort)
  }

  /** The two directions undo each other exactly on keys of the right shape. */
  lemma DirectionsInverse(k: FlowKey, v: FlowValue)
    ensures ForwardFor(ReverseFor(k, v), v) == k <==> ForwardShaped(k, v)
    ensures ReverseFor(ForwardFor(k, v), v) == k <==> ReverseShaped(k, v)
    ensures ReverseShaped(ReverseFor(k, v), v) && ForwardShaped(ForwardFor(k, v), v)
  {
  }

  /** `flow_expired`: idle for longer than the timeout copied from the listener; zero means never. */
  predicate FlowExpired(v: FlowValue, now: u64) {
    v.lastSeenNs != 0 && v.timeoutSecs != 0
    && SaturatingSub(now, v.lastSeenNs) > v.timeoutSecs * 1_000_000_000
  }

  predicate TupleLessEq(a: FlowKey, b: FlowKey) {
    if a.src != b.src then a.src < b.src
    else if a.dst != b.dst then a.dst < b.dst
    else if a.sport != b.sport then a.sport < b.sport
    else if a.dport != b.dport then a.dport < b.dport
    else a.proto <= b.proto
  }

  function Ordered(a: FlowKey, b: FlowKey): (r: (FlowKey, FlowKey)) {
    if TupleLessEq(a, b) then (a, b) else (b, a)
  }

  /** `canonical_flow_pair`: one name for a flow, whichever of its two entries it is computed from. */
  function CanonicalPair(k: FlowKey, v: FlowValue): (r: (FlowKey, FlowKey)) {
    if ReverseShaped(k, v) then Ordered(ForwardFor(k, v), k) else Ordered(k, ReverseFor(k, v))
  }

  function SlotOf(v: FlowValue): (s: SlotKey) {
    SlotKey(v.listenerId, v.targetId)
  }
}
