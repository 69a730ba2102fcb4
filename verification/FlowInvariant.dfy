/** The pairing of the two directions of every flow, and the per-slot counters, over every step. */
module FlowInvariant {
  import opened Words
  import opened Tables
  import opened Counting
  import opened FlowKeys
  import opened Replication
  import opened FlowSteps

  /** The addresses of the deployment: every VIP and every backend endpoint that is ever configured. */
  datatype Net = Net(vips: set<u32>, endpoints: set<(u32, u16)>)

  /** A client sends from neither a VIP nor a backend endpoint. */
  predicate FromClient(net: Net, k: FlowKey) {
    k.src !in net.vips && (k.src, SwapBytes(k.sport)) !in net.endpoints
  }

  predicate ForwardEntry(net: Net, k: FlowKey, v: FlowValue) {
    k.dst in net.vips && FromClient(net, k) && ForwardShaped(k, v) && (v.target, v.targetPort) in net.endpoints
  }

  predicate ReverseEntry(net: Net, k: FlowKey, v: FlowValue) {
    k.dst !in net.vips && ReverseShaped(k, v) && ForwardEntry(net, ForwardFor(k, v), v)
  }

  /** Each entry has the shape of its direction, and a reverse entry has its forward entry with the same value. */
  ghost predicate EntryOk(net: Net, flows: Flows, k: FlowKey)
    requires k in flows
  {
    var v := flows[k];
    if k.dst in net.vips then ForwardEntry(net, k, v)
    else ReverseEntry(net, k, v) && ForwardFor(k, v) in flows && flows[ForwardFor(k, v)] == v
  }

  ghost predicate Paired(net: Net, flows: Flows) {
    forall k :: k in flows ==> EntryOk(net, flows, k)
  }

  ghost predicate Configured(net: Net, listeners: Listeners, targets: Targets) {
    (forall k :: k in listeners ==> k.vip in net.vips)
    && (forall s :: s in targets ==> (targets[s].address, targets[s].port) in net.endpoints)
  }

  ghost predicate Inv(net: Net, g: Gateway) {
    Paired(net, g.flows) && Configured(net, g.listeners, g.targets) && |g.flows| <= FLOW_MAP_CAPACITY
  }

  /** Same flow, possibly seen at another time. */
  predicate SameFlow(v: FlowValue, w: FlowValue) {
    w.listenerId == v.listenerId && w.targetId == v.targetId && w.vip == v.vip && w.target == v.target
    && w.vipPort == v.vipPort && w.targetPort == v.targetPort && w.timeoutSecs == v.timeoutSecs
  }

  /** Both directions of the flow hold the same value. */
  predicate TwoWay(g: Gateway, k: FlowKey) {
    k in g.flows && ReverseFor(k, g.flows[k]) in g.flows && g.flows[ReverseFor(k, g.flows[k])] == g.flows[k]
  }

  /** A replicated pair does not leave an entry without its partner: a fresh one does not move a two-way flow to another
      backend, and the reverse half of an outdated one is not taken on its own. */
  predicate KeepsPairing(g: Gateway, k: FlowKey, v: FlowValue) {
    if Applies(Local(g.flows, k), v) then
      TwoWay(g, k) ==> (v.target, v.targetPort) == (g.flows[k].target, g.flows[k].targetPort)
    else
      v == g.flows[k] || !Applies(Local(g.flows, ReverseFor(k, v)), v)
  }

  /** Hypotheses on the environment: where packets come from, which replicated pairs arrive, and room in the flow
      map. */
  ghost predicate Admissible(net: Net, g: Gateway, e: Event) {
    match e
    case IngressEvent(p, _, _) => FromClient(net, KeyOf(p)) && |g.flows| + 2 <= FLOW_MAP_CAPACITY
    case ReturnEvent(p, _) => KeyOf(p) in g.flows ==> p.dst !in net.vips
    case SweepEvent(_, _) => true
    case ReconfigureEvent(listeners, targets, _) => Configured(net, listeners, targets)
    case UpsertEvent(k, v) => ForwardEntry(net, k, v) && KeepsPairing(g, k, v) && |g.flows| + 2 <= FLOW_MAP_CAPACITY
  }

  // ---- Counters --------------------------------------------------------------------------------

  /** The live forward entries that load one slot. */
  ghost function ForwardsOn(net: Net, flows: Flows, slot: SlotKey): (s: set<FlowKey>) {
    set k | k in flows && k.dst in net.vips && SlotOf(flows[k]) == slot
  }

  ghost predicate CountersExact(net: Net, g: Gateway) {
    forall slot :: GetOr0(g.active, slot) == |ForwardsOn(net, g.flows, slot)|
  }

  /** No counter is below the number of flows it stands for, so no decrement saturates. */
  ghost predicate CountersCover(net: Net, g: Gateway) {
    forall slot :: GetOr0(g.active, slot) >= |ForwardsOn(net, g.flows, slot)|
  }

  lemma ForwardsBound(net: Net, flows: Flows, slot: SlotKey)
    ensures |ForwardsOn(net, flows, slot)| <= |flows|
  {
    SubsetSize(ForwardsOn(net, flows, slot), flows.Keys);
  }

  // ---- Writing and removing a pair -------------------------------------------------------------

  /** Writing both directions of a new or refreshed flow keeps the pairing. */
  lemma PutPairPaired(net: Net, flows: Flows, k: FlowKey, v: FlowValue)
    requires Paired(net, flows) && ForwardEntry(net, k, v)
    requires k in flows ==> SameFlow(flows[k], v)
    ensures Paired(net, PutPair(flows, k, ReverseFor(k, v), v))
  {
    var r := ReverseFor(k, v);
    var m := PutPair(flows, k, r, v);
    DirectionsInverse(k, v);
    forall j | j in m
      ensures EntryOk(net, m, j)
    {
      if j != k && j != r {
        assert EntryOk(net, flows, j);
        DirectionsInverse(j, flows[j]);
      }
    }
  }

  /** Removing both directions of a flow keeps the pairing, also when its reverse key is shared. */
  lemma DropPairPaired(net: Net, flows: Flows, k: FlowKey)
    requires Paired(net, flows) && k in flows && k.dst in net.vips
    ensures Paired(net, flows - {k, ReverseFor(k, flows[k])})
  {
    var r := ReverseFor(k, flows[k]);
    var m := flows - {k, r};
    assert EntryOk(net, flows, k);
    forall j | j in m
      ensures EntryOk(net, m, j)
    {
      assert EntryOk(net, flows, j);
      DirectionsInverse(j, flows[j]);
    }
  }

  /** A reverse entry and its forward entry name each other. */
  lemma ReverseNamesForward(net: Net, flows: Flows, r: FlowKey) returns (k: FlowKey)
    requires Paired(net, flows) && r in flows && r.dst !in net.vips
    ensures k == ForwardFor(r, flows[r]) && k in flows && flows[k] == flows[r]
    ensures k.dst in net.vips && ForwardEntry(net, k, flows[k]) && ReverseFor(k, flows[k]) == r && k != r
  {
    assert EntryOk(net, flows, r);
    k := ForwardFor(r, flows[r]);
    DirectionsInverse(r, flows[r]);
  }

  /** What a new or refreshed flow adds to the forward entries of a slot. */
  lemma PutPairForwards(net: Net, flows: Flows, k: FlowKey, v: FlowValue, slot: SlotKey)
    requires ForwardEntry(net, k, v)
    requires k in flows ==> SlotOf(flows[k]) == SlotOf(v)
    requires ReverseFor(k, v) in flows ==> ReverseFor(k, v).dst !in net.vips
    ensures ForwardsOn(net, PutPair(flows, k, ReverseFor(k, v), v), slot)
         == ForwardsOn(net, flows, slot) + (if SlotOf(v) == slot then {k} else {})
  {
  }

  lemma DropPairForwards(net: Net, flows: Flows, k: FlowKey, slot: SlotKey)
    requires k in flows && ForwardEntry(net, k, flows[k])
    ensures ForwardsOn(net, flows - {k, ReverseFor(k, flows[k])}, slot) == ForwardsOn(net, flows, slot) - {k}
    ensures k in ForwardsOn(net, flows, slot) <==> SlotOf(flows[k]) == slot
  {
  }

  // ---- Steps -----------------------------------------------------------------------------------

  /** Expiring a flow, from either direction, keeps the invariant and the counters. */
  lemma CloseFlowKeeps(net: Net, g: Gateway, k: FlowKey)
    requires Inv(net, g) && k in g.flows && k.dst in net.vips
    ensures var h := CloseFlow(g, k, ReverseFor(k, g.flows[k]), g.flows[k]);
            Inv(net, h) && k !in h.flows && |h.flows| <= |g.flows|
            && (CountersExact(net, g) ==> CountersExact(net, h))
            && (CountersCover(net, g) ==> CountersCover(net, h))
  {
    var v := g.flows[k];
    var h := CloseFlow(g, k, ReverseFor(k, v), v);
    assert EntryOk(net, g.flows, k);
    DropPairPaired(net, g.flows, k);
    SubsetSize(h.flows.Keys, g.flows.Keys);
    ClosedCounters(net, g, h, k);
  }

  lemma ClosedCounters(net: Net, g: Gateway, h: Gateway, k: FlowKey)
    requires k in g.flows && ForwardEntry(net, k, g.flows[k])
    requires h.flows == g.flows - {k, ReverseFor(k, g.flows[k])} && h.active == Lowered(g.active, SlotOf(g.flows[k]))
    ensures CountersExact(net, g) ==> CountersExact(net, h)
    ensures CountersCover(net, g) ==> CountersCover(net, h)
  {
    forall slot
      ensures |ForwardsOn(net, h.flows, slot)|
           == |ForwardsOn(net, g.flows, slot)| - (if slot == SlotOf(g.flows[k]) then 1 else 0)
    {
      DropPairForwards(net, g.flows, k, slot);
    }
  }

  /** Opening a flow for a key that is not in the table keeps the invariant and the counters, whatever the selector
      said. */
  lemma OpenFlowKeeps(net: Net, g: Gateway, p: Packet, now: u64, targetId: u32)
    requires Inv(net, g) && FromClient(net, KeyOf(p)) && KeyOf(p) !in g.flows
    requires |g.flows| + 2 <= FLOW_MAP_CAPACITY
    ensures var h := OpenFlow(g, p, now, targetId).0;
            Inv(net, h) && (CountersExact(net, g) ==> CountersExact(net, h))
            && (CountersCover(net, g) ==> CountersCover(net, h))
  {
    var k := KeyOf(p);
    var (h, verdict) := OpenFlow(g, p, now, targetId);
    if verdict.ToTarget? {
      var slot := verdict.slot;
      var v := h.flows[k];
      assert p.dst in net.vips by { assert ListenerKeyOf(p).vip in net.vips; }
      assert g.targets[slot].address == v.target && g.targets[slot].port == v.targetPort;
      assert h.flows == PutPair(g.flows, k, ReverseFor(k, v), v);
      PutPairPaired(net, g.flows, k, v);
      SubsetSize(h.flows.Keys, g.flows.Keys + {k, ReverseFor(k, v)});
      OpenedCounters(net, g, h, k, v);
    }
  }

  lemma OpenedCounters(net: Net, g: Gateway, h: Gateway, k: FlowKey, v: FlowValue)
    requires Inv(net, g) && k !in g.flows && ForwardEntry(net, k, v)
    requires h.flows == PutPair(g.flows, k, ReverseFor(k, v), v) && h.active == Raised(g.active, SlotOf(v))
    requires |g.flows| + 2 <= FLOW_MAP_CAPACITY
    ensures CountersExact(net, g) ==> CountersExact(net, h)
    ensures CountersCover(net, g) ==> CountersCover(net, h)
  {
    forall slot
      ensures |ForwardsOn(net, h.flows, slot)|
           == |ForwardsOn(net, g.flows, slot)| + (if slot == SlotOf(v) then 1 else 0)
      ensures |ForwardsOn(net, g.flows, slot)| < U32_MAX
    {
      PutPairForwards(net, g.flows, k, v, slot);
      ForwardsBound(net, g.flows, slot);
    }
  }

  /** Refreshing a flow keeps the invariant and leaves every count as it is. */
  lemma RefreshKeeps(net: Net, g: Gateway, k: FlowKey, now: u64)
    requires Inv(net, g) && k in g.flows && k.dst in net.vips
    ensures var v := Touched(g.flows[k], now);
            var m := PutPair(g.flows, k, ReverseFor(k, v), v);
            Paired(net, m) && forall slot :: ForwardsOn(net, m, slot) == ForwardsOn(net, g.flows, slot)
  {
    assert EntryOk(net, g.flows, k);
    var v := Touched(g.flows[k], now);
    PutPairPaired(net, g.flows, k, v);
    forall slot {
      PutPairForwards(net, g.flows, k, v, slot);
    }
  }

  /** A client packet keeps the invariant, the exact counters and the covering counters, whatever the selector said. */
  lemma IngressKeeps(net: Net, g: Gateway, p: Packet, now: u64, targetId: u32)
    requires Inv(net, g) && FromClient(net, KeyOf(p)) && |g.flows| + 2 <= FLOW_MAP_CAPACITY
    ensures var h := IngressWith(g, p, now, targetId).0;
            Inv(net, h) && (CountersExact(net, g) ==> CountersExact(net, h))
            && (CountersCover(net, g) ==> CountersCover(net, h))
  {
    var k := KeyOf(p);
    if k !in g.flows {
      OpenFlowKeeps(net, g, p, now, targetId);
    } else {
      ClientKeyIsForward(net, g.flows, k);
      var v := g.flows[k];
      if FlowExpired(v, now) {
        CloseFlowKeeps(net, g, k);
        OpenFlowKeeps(net, AfterExpiry(g, k, now), p, now, targetId);
      } else {
        RefreshKeeps(net, g, k, now);
        var h := IngressWith(g, p, now, targetId).0;
        SubsetSize(h.flows.Keys, g.flows.Keys + {k, ReverseFor(k, v)});
      }
    }
  }

  /** A key a client can send never hits a reverse entry. */
  lemma ClientKeyIsForward(net: Net, flows: Flows, k: FlowKey)
    requires Paired(net, flows) && k in flows && FromClient(net, k)
    ensures k.dst in net.vips && ForwardEntry(net, k, flows[k])
  {
    assert EntryOk(net, flows, k);
    SwapBytesInvolutive(flows[k].targetPort);
  }

  /** Seen from the forward entry, a reply closes or refreshes the flow just as a client packet would. */
  lemma ReturnActsOnForward(net: Net, g: Gateway, p: Packet, now: u64) returns (k: FlowKey)
    requires Inv(net, g) && KeyOf(p) in g.flows && p.dst !in net.vips
    ensures k in g.flows && k.dst in net.vips && ForwardEntry(net, k, g.flows[k])
    ensures g.flows[k] == g.flows[KeyOf(p)] && ReverseFor(k, g.flows[k]) == KeyOf(p)
    ensures var v := g.flows[k];
            Return(g, p, now).0 == if FlowExpired(v, now) then CloseFlow(g, k, ReverseFor(k, v), v)
                                   else g.(flows := PutPair(g.flows, k, ReverseFor(k, v), Touched(v, now)))
  {
    var r := KeyOf(p);
    k := ReverseNamesForward(net, g.flows, r);
    var v := g.flows[k];
    if FlowExpired(v, now) {
      assert {r, k} == {k, r};
    } else {
      var w := Touched(v, now);
      assert g.flows[r := w][k := w] == g.flows[k := w][r := w];
    }
  }

  /** A backend packet keeps the invariant, the exact counters and the covering counters. */
  lemma ReturnKeeps(net: Net, g: Gateway, p: Packet, now: u64)
    requires Inv(net, g) && Admissible(net, g, ReturnEvent(p, now))
    ensures var h := Return(g, p, now).0;
            Inv(net, h) && (CountersExact(net, g) ==> CountersExact(net, h))
            && (CountersCover(net, g) ==> CountersCover(net, h))
  {
    if KeyOf(p) in g.flows {
      var k := ReturnActsOnForward(net, g, p, now);
      if FlowExpired(g.flows[k], now) {
        CloseFlowKeeps(net, g, k);
      } else {
        RefreshKeeps(net, g, k, now);
        assert Return(g, p, now).0.flows.Keys == g.flows.Keys;
      }
    }
  }

  /** Any sweep keeps the invariant: a reverse entry never outlives its forward entry. */
  lemma SweepPaired(net: Net, g: Gateway, now: u64, refreshLoads: bool)
    requires Inv(net, g)
    ensures Inv(net, Sweep(g, now, refreshLoads))
  {
    var live := Unexpired(g.flows, now);
    UnexpiredSize(g.flows, now);
    forall k | k in live
      ensures EntryOk(net, live, k)
    {
      assert EntryOk(net, g.flows, k);
    }
  }

  // ---- The recount -----------------------------------------------------------------------------

  /** The canonical pair of a forward entry is its key with the reverse key, so it determines the key. */
  lemma ForwardPairInjective(net: Net, a: FlowKey, v: FlowValue, b: FlowKey, w: FlowValue)
    requires ForwardEntry(net, a, v) && ForwardEntry(net, b, w)
    requires CanonicalPair(a, v) == CanonicalPair(b, w)
    ensures a == b
  {
    SwapBytesInvolutive(v.targetPort);
    SwapBytesInvolutive(w.targetPort);
  }

  /** Both entries of a flow have the same canonical pair. */
  lemma PairOfReverse(net: Net, flows: Flows, r: FlowKey)
    requires Paired(net, flows) && r in flows && r.dst !in net.vips
    ensures var k := ForwardFor(r, flows[r]);
            k in flows && SlotOf(flows[k]) == SlotOf(flows[r])
            && CanonicalPair(k, flows[k]) == CanonicalPair(r, flows[r])
  {
    var k := ReverseNamesForward(net, flows, r);
    SwapBytesInvolutive(flows[k].targetPort);
  }

  /** Counting canonical pairs over both directions counts the forward entries. */
  lemma PairsCountForwards(net: Net, flows: Flows, slot: SlotKey)
    requires Paired(net, flows)
    ensures |PairsOn(flows, slot)| == |ForwardsOn(net, flows, slot)|
  {
    var fs := ForwardsOn(net, flows, slot);
    var image := set k | k in fs :: CanonicalPair(k, flows[k]);
    forall x | x in PairsOn(flows, slot)
      ensures x in image
    {
      var k :| k in flows && SlotOf(flows[k]) == slot && x == CanonicalPair(k, flows[k]);
      if k.dst !in net.vips {
        PairOfReverse(net, flows, k);
        assert EntryOk(net, flows, k);
        assert ForwardFor(k, flows[k]) in fs;
      }
    }
    assert image == PairsOn(flows, slot);
    InjectiveImageSize(net, flows, fs);
  }

  lemma {:induction false} InjectiveImageSize(net: Net, flows: Flows, fs: set<FlowKey>)
    requires Paired(net, flows)
    requires forall k :: k in fs ==> k in flows && k.dst in net.vips
    ensures |set k | k in fs :: CanonicalPair(k, flows[k])| == |fs|
    decreases |fs|
  {
    var image := set k | k in fs :: CanonicalPair(k, flows[k]);
    if k :| k in fs {
      var rest := fs - {k};
      InjectiveImageSize(net, flows, rest);
      var sub := set j | j in rest :: CanonicalPair(j, flows[j]);
      forall j | j in rest
        ensures CanonicalPair(j, flows[j]) != CanonicalPair(k, flows[k])
      {
        assert EntryOk(net, flows, j) && EntryOk(net, flows, k);
        if CanonicalPair(j, flows[j]) == CanonicalPair(k, flows[k]) {
          ForwardPairInjective(net, j, flows[j], k, flows[k]);
        }
      }
      assert image == sub + {CanonicalPair(k, flows[k])};
    } else {
      assert image == {};
    }
  }

  /** After a refreshing sweep every counter is exact, whatever it was before. */
  lemma RefreshingSweepExact(net: Net, g: Gateway, now: u64)
    requires Inv(net, g)
    ensures CountersExact(net, Sweep(g, now, true))
  {
    SweepPaired(net, g, now, true);
    UnexpiredSize(g.flows, now);
    var live := Unexpired(g.flows, now);
    forall slot
      ensures GetOr0(Recount(live), slot) == |ForwardsOn(net, live, slot)|
    {
      PairsCountForwards(net, live, slot);
      ForwardsBound(net, live, slot);
      if slot !in LoadedSlots(live) {
        assert ForwardsOn(net, live, slot) == {};
      }
    }
  }

  /** A sweep without the recount keeps the counters covering, since entries only leave. */
  lemma PlainSweepCovers(net: Net, g: Gateway, now: u64)
    requires Inv(net, g) && CountersCover(net, g)
    ensures CountersCover(net, Sweep(g, now, false))
  {
    var live := Unexpired(g.flows, now);
    forall slot
      ensures |ForwardsOn(net, live, slot)| <= |ForwardsOn(net, g.flows, slot)|
    {
      SubsetSize(ForwardsOn(net, live, slot), ForwardsOn(net, g.flows, slot));
    }
  }

  /** A sweep without the recount leaves exact counters exact, exactly when it expires no forward entry. */
  lemma PlainSweepExactIff(net: Net, g: Gateway, now: u64)
    requires Inv(net, g) && CountersExact(net, g)
    ensures CountersExact(net, Sweep(g, now, false))
       <==> forall k :: k in g.flows && k.dst in net.vips ==> !FlowExpired(g.flows[k], now)
  {
    var live := Unexpired(g.flows, now);
    if k :| k in g.flows && k.dst in net.vips && FlowExpired(g.flows[k], now) {
      var slot := SlotOf(g.flows[k]);
      assert k in ForwardsOn(net, g.flows, slot);
      SubsetSize(ForwardsOn(net, live, slot), ForwardsOn(net, g.flows, slot) - {k});
      assert GetOr0(g.active, slot) != |ForwardsOn(net, live, slot)|;
    } else {
      forall slot
        ensures ForwardsOn(net, live, slot) == ForwardsOn(net, g.flows, slot)
      {
      }
    }
  }
}
