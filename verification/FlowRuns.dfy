/** Safety of the flow table over whole runs: pairing, counters, affinity and restored replies. */
module FlowRuns {
  import opened Words
  import opened Tables
  import opened FlowKeys
  import opened TargetSelect
  import opened FlowSteps
  import opened Replication
  import opened FlowInvariant
  import opened ReplicatedFlows

  ghost function Run(g: Gateway, es: seq<Event>): (h: Gateway)
    decreases |es|
  {
    if es == [] then g else Run(Step(g, es[0]), es[1..])
  }

  ghost predicate AdmissibleRun(net: Net, g: Gateway, es: seq<Event>)
    decreases |es|
  {
    es == [] || (Admissible(net, g, es[0]) && AdmissibleRun(net, Step(g, es[0]), es[1..]))
  }

  /** Every admissible step keeps the invariant. */
  lemma StepKeeps(net: Net, g: Gateway, e: Event)
    requires Inv(net, g) && Admissible(net, g, e)
    ensures Inv(net, Step(g, e))
  {
    match e
    case IngressEvent(p, now, packetHash) =>
      IngressKeeps(net, g, p, now, ChosenTarget(AfterExpiry(g, KeyOf(p), now), p, packetHash));
    case ReturnEvent(p, now) => ReturnKeeps(net, g, p, now);
    case SweepEvent(now, refresh) => SweepPaired(net, g, now, refresh);
    case ReconfigureEvent(listeners, targets, buckets) =>
    case UpsertEvent(k, v) => UpsertKeeps(net, g, k, v);
  }

  /** Over any admissible run the table stays paired. */
  lemma {:induction false} RunKeeps(net: Net, g: Gateway, es: seq<Event>)
    requires Inv(net, g) && AdmissibleRun(net, g, es)
    ensures Inv(net, Run(g, es))
    decreases |es|
  {
    if es != [] {
      StepKeeps(net, g, es[0]);
      RunKeeps(net, Step(g, es[0]), es[1..]);
    }
  }

  // ---- Counters over runs ----------------------------------------------------------------------

  /** The event leaves exact counters exact: a sweep recounts or expires no client flow, and a replicated pair is of a
      flow that is already counted. */
  ghost predicate KeepsCounts(net: Net, g: Gateway, e: Event) {
    match e
    case SweepEvent(now, refresh) =>
      refresh || forall k :: k in g.flows && k.dst in net.vips ==> !FlowExpired(g.flows[k], now)
    case UpsertEvent(k, v) => Counted(g, k, v)
    case _ => true
  }

  /** Exactly these events keep exact counters exact. */
  lemma StepExactIff(net: Net, g: Gateway, e: Event)
    requires Inv(net, g) && Admissible(net, g, e) && CountersExact(net, g)
    ensures CountersExact(net, Step(g, e)) <==> KeepsCounts(net, g, e)
  {
    match e
    case IngressEvent(p, now, packetHash) =>
      IngressKeeps(net, g, p, now, ChosenTarget(AfterExpiry(g, KeyOf(p), now), p, packetHash));
    case ReturnEvent(p, now) => ReturnKeeps(net, g, p, now);
    case SweepEvent(now, refresh) =>
      if refresh {
        RefreshingSweepExact(net, g, now);
      } else {
        PlainSweepExactIff(net, g, now);
      }
    case ReconfigureEvent(listeners, targets, buckets) =>
    case UpsertEvent(k, v) => UpsertExactIff(net, g, k, v);
  }

  /** No counter falls below its flows, whatever the sweeps do, while replicated pairs are of counted flows. */
  lemma StepCovers(net: Net, g: Gateway, e: Event)
    requires Inv(net, g) && Admissible(net, g, e) && CountersCover(net, g)
    requires e.UpsertEvent? ==> Counted(g, e.key, e.value)
    ensures CountersCover(net, Step(g, e))
  {
    match e
    case IngressEvent(p, now, packetHash) =>
      IngressKeeps(net, g, p, now, ChosenTarget(AfterExpiry(g, KeyOf(p), now), p, packetHash));
    case ReturnEvent(p, now) => ReturnKeeps(net, g, p, now);
    case SweepEvent(now, refresh) =>
      if refresh {
        RefreshingSweepExact(net, g, now);
      } else {
        PlainSweepCovers(net, g, now);
      }
    case ReconfigureEvent(listeners, targets, buckets) =>
    case UpsertEvent(k, v) => UpsertCovers(net, g, k, v);
  }

  ghost predicate RunKeepsCounts(net: Net, g: Gateway, es: seq<Event>)
    decreases |es|
  {
    es == [] || (KeepsCounts(net, g, es[0]) && RunKeepsCounts(net, Step(g, es[0]), es[1..]))
  }

  /** Every replicated pair of the run is of a flow already counted. */
  ghost predicate AllCounted(g: Gateway, es: seq<Event>)
    decreases |es|
  {
    es == [] || ((es[0].UpsertEvent? ==> Counted(g, es[0].key, es[0].value)) && AllCounted(Step(g, es[0]), es[1..]))
  }

  lemma {:induction false} RunStaysExact(net: Net, g: Gateway, es: seq<Event>)
    requires Inv(net, g) && AdmissibleRun(net, g, es) && CountersExact(net, g) && RunKeepsCounts(net, g, es)
    ensures CountersExact(net, Run(g, es))
    decreases |es|
  {
    if es != [] {
      StepKeeps(net, g, es[0]);
      StepExactIff(net, g, es[0]);
      RunStaysExact(net, Step(g, es[0]), es[1..]);
    }
  }

  lemma {:induction false} RunStaysCovering(net: Net, g: Gateway, es: seq<Event>)
    requires Inv(net, g) && AdmissibleRun(net, g, es) && CountersCover(net, g) && AllCounted(g, es)
    ensures CountersCover(net, Run(g, es))
    decreases |es|
  {
    if es != [] {
      StepKeeps(net, g, es[0]);
      StepCovers(net, g, es[0]);
      RunStaysCovering(net, Step(g, es[0]), es[1..]);
    }
  }

  lemma {:induction false} RunSplits(net: Net, g: Gateway, before: seq<Event>, after: seq<Event>)
    requires AdmissibleRun(net, g, before + after)
    ensures AdmissibleRun(net, g, before) && AdmissibleRun(net, Run(g, before), after)
    ensures Run(g, before + after) == Run(Run(g, before), after)
    decreases |before|
  {
    if before == [] {
      assert before + after == after;
    } else {
      assert (before + after)[1..] == before[1..] + after;
      RunSplits(net, Step(g, before[0]), before[1..], after);
    }
  }

  /** Whatever the counters were, they are exact from a recounting sweep on, until the next replicated pair of a flow
      not yet counted or the next plain sweep that expires a client flow. */
  lemma ExactSinceRecount(net: Net, g: Gateway, before: seq<Event>, now: u64, after: seq<Event>)
    requires Inv(net, g) && AdmissibleRun(net, g, before + ([SweepEvent(now, true)] + after))
    requires RunKeepsCounts(net, Sweep(Run(g, before), now, true), after)
    ensures CountersExact(net, Run(g, before + ([SweepEvent(now, true)] + after)))
  {
    var tail := [SweepEvent(now, true)] + after;
    RunSplits(net, g, before, tail);
    RunKeeps(net, g, before);
    var mid := Run(g, before);
    assert tail[0] == SweepEvent(now, true) && tail[1..] == after;
    StepKeeps(net, mid, tail[0]);
    RefreshingSweepExact(net, mid, now);
    RunStaysExact(net, Sweep(mid, now, true), after);
  }

  /** A freshly attached datapath: configured, with empty flow and counter maps. */
  predicate Attached(g: Gateway) {
    g.flows == map[] && g.active == map[]
  }

  lemma AttachedExact(net: Net, g: Gateway)
    requires Attached(g) && Configured(net, g.listeners, g.targets)
    ensures Inv(net, g) && CountersExact(net, g)
  {
    forall slot
      ensures ForwardsOn(net, g.flows, slot) == {}
    {
    }
  }

  /** Every reachable state is paired. No counter is below its flows while replicated pairs are of counted flows, and
      all are exact while, besides, every sweep recounts or finds no client flow expired. */
  lemma ReachableStates(net: Net, g: Gateway, es: seq<Event>)
    requires Attached(g) && Configured(net, g.listeners, g.targets) && AdmissibleRun(net, g, es)
    ensures Inv(net, Run(g, es))
    ensures AllCounted(g, es) ==> CountersCover(net, Run(g, es))
    ensures RunKeepsCounts(net, g, es) ==> CountersExact(net, Run(g, es))
  {
    AttachedExact(net, g);
    RunKeeps(net, g, es);
    if AllCounted(g, es) {
      RunStaysCovering(net, g, es);
    }
    if RunKeepsCounts(net, g, es) {
      RunStaysExact(net, g, es);
    }
  }

  /** No counter is stored that counts nothing. */
  ghost predicate NoZeros(active: Loads) {
    forall slot :: slot in active ==> active[slot] > 0
  }

  lemma IngressNoZeros(g: Gateway, p: Packet, now: u64, targetId: u32)
    requires NoZeros(g.active)
    ensures NoZeros(IngressWith(g, p, now, targetId).0.active)
  {
  }

  lemma RecountNoZeros(flows: Flows)
    ensures NoZeros(Recount(flows))
  {
    forall slot | slot in LoadedSlots(flows)
      ensures LoadOn(flows, slot) > 0
    {
      var k :| k in flows && SlotOf(flows[k]) == slot;
      assert CanonicalPair(k, flows[k]) in PairsOn(flows, slot);
    }
  }

  lemma StepNoZeros(g: Gateway, e: Event)
    requires NoZeros(g.active)
    ensures NoZeros(Step(g, e).active)
  {
    match e
    case IngressEvent(p, now, packetHash) =>
      IngressNoZeros(g, p, now, ChosenTarget(AfterExpiry(g, KeyOf(p), now), p, packetHash));
    case ReturnEvent(p, now) =>
    case SweepEvent(now, refresh) => RecountNoZeros(Unexpired(g.flows, now));
    case ReconfigureEvent(listeners, targets, buckets) =>
    case UpsertEvent(k, v) =>
  }

  /** In every run the counter map holds only slots that are counted. */
  lemma {:induction false} NoZeroCounters(g: Gateway, es: seq<Event>)
    requires NoZeros(g.active)
    ensures NoZeros(Run(g, es).active)
    decreases |es|
  {
    if es != [] {
      StepNoZeros(g, es[0]);
      NoZeroCounters(Step(g, es[0]), es[1..]);
    }
  }

  // ---- Affinity --------------------------------------------------------------------------------

  /** The event does not find the flow idle beyond its timeout, nor replace it by another one from the peer. */
  ghost predicate FreshAt(g: Gateway, e: Event, k: FlowKey) {
    k in g.flows ==>
      match e
      case IngressEvent(_, now, _) => !FlowExpired(g.flows[k], now)
      case ReturnEvent(_, now) => !FlowExpired(g.flows[k], now)
      case SweepEvent(now, _) => !FlowExpired(g.flows[k], now)
      case ReconfigureEvent(_, _, _) => true
      case UpsertEvent(key, value) => key == k && Applies(Local(g.flows, k), value) ==> SameFlow(g.flows[k], value)
  }

  ghost predicate StaysFresh(g: Gateway, es: seq<Event>, k: FlowKey)
    decreases |es|
  {
    es == [] || (FreshAt(g, es[0], k) && StaysFresh(Step(g, es[0]), es[1..], k))
  }

  ghost predicate ForwardFlow(net: Net, g: Gateway, k: FlowKey) {
    k in g.flows && k.dst in net.vips
  }

  /** Writing a pair for a client flow `j` does not disturb another forward entry. */
  lemma PutPairKeepsOthers(net: Net, flows: Flows, j: FlowKey, v: FlowValue, k: FlowKey)
    requires j.src !in net.vips && k in flows && k.dst in net.vips
    ensures var m := PutPair(flows, j, ReverseFor(j, v), v);
            k in m && m[k] == if k == j then v else flows[k]
  {
  }

  /** What a client packet does to the flow map: drop the expired pair, then perhaps write one. */
  lemma IngressFlows(g: Gateway, p: Packet, now: u64, targetId: u32) returns (v: FlowValue)
    requires IngressWith(g, p, now, targetId).1.ToTarget?
    ensures var k := KeyOf(p);
            IngressWith(g, p, now, targetId).0.flows == PutPair(AfterExpiry(g, k, now).flows, k, ReverseFor(k, v), v)
    ensures KeyOf(p) in g.flows && !FlowExpired(g.flows[KeyOf(p)], now) ==> v == Touched(g.flows[KeyOf(p)], now)
  {
    v := IngressWith(g, p, now, targetId).0.flows[KeyOf(p)];
    var k := KeyOf(p);
    if k in g.flows && !FlowExpired(g.flows[k], now) {
      v := Touched(g.flows[k], now);
    } else {
      var slot := IngressWith(g, p, now, targetId).1.slot;
      var target := g.targets[slot];
      v := FlowValue(slot.listenerId, slot.targetId, p.dst, target.address, SwapBytes(p.dport), target.port,
                     g.listeners[ListenerKeyOf(p)].timeoutSecs, now);
    }
  }

  lemma AfterExpiryKeepsFlow(net: Net, g: Gateway, j: FlowKey, now: u64, k: FlowKey)
    requires j.src !in net.vips && ForwardFlow(net, g, k) && !FlowExpired(g.flows[k], now)
    ensures var m := AfterExpiry(g, j, now).flows;
            k in m && m[k] == g.flows[k]
  {
  }

  /** A client packet of any flow leaves every other fresh flow, and its own, where they were going. */
  lemma IngressKeepsFlow(net: Net, g: Gateway, p: Packet, now: u64, targetId: u32, k: FlowKey)
    requires FromClient(net, KeyOf(p)) && ForwardFlow(net, g, k) && !FlowExpired(g.flows[k], now)
    ensures var h := IngressWith(g, p, now, targetId).0;
            ForwardFlow(net, h, k) && SameFlow(g.flows[k], h.flows[k])
  {
    var j := KeyOf(p);
    AfterExpiryKeepsFlow(net, g, j, now, k);
    if IngressWith(g, p, now, targetId).1.ToTarget? {
      var v := IngressFlows(g, p, now, targetId);
      PutPairKeepsOthers(net, AfterExpiry(g, j, now).flows, j, v, k);
    }
  }

  lemma ReturnKeepsFlow(net: Net, g: Gateway, p: Packet, now: u64, k: FlowKey)
    requires Inv(net, g) && Admissible(net, g, ReturnEvent(p, now))
    requires ForwardFlow(net, g, k) && !FlowExpired(g.flows[k], now)
    ensures var h := Return(g, p, now).0;
            ForwardFlow(net, h, k) && SameFlow(g.flows[k], h.flows[k])
  {
    if KeyOf(p) in g.flows {
      var j := ReturnActsOnForward(net, g, p, now);
    }
  }

  lemma UpsertKeepsFlow(net: Net, g: Gateway, j: FlowKey, v: FlowValue, k: FlowKey)
    requires ForwardEntry(net, j, v) && ForwardFlow(net, g, k) && FreshAt(g, UpsertEvent(j, v), k)
    ensures var h := Upsert(g, j, v);
            ForwardFlow(net, h, k) && SameFlow(g.flows[k], h.flows[k])
  {
    UpsertAt(net, g, j, v);
    assert Local(Upsert(g, j, v).flows, k).Some?;
  }

  /** No event on another flow, no sweep, no reconfiguration and no replica changes where a fresh flow goes. */
  lemma StepKeepsFlow(net: Net, g: Gateway, e: Event, k: FlowKey)
    requires Inv(net, g) && Admissible(net, g, e) && ForwardFlow(net, g, k) && FreshAt(g, e, k)
    ensures ForwardFlow(net, Step(g, e), k) && SameFlow(g.flows[k], Step(g, e).flows[k])
  {
    match e
    case IngressEvent(p, now, packetHash) =>
      IngressKeepsFlow(net, g, p, now, ChosenTarget(AfterExpiry(g, KeyOf(p), now), p, packetHash), k);
    case ReturnEvent(p, now) => ReturnKeepsFlow(net, g, p, now, k);
    case SweepEvent(now, refresh) =>
    case ReconfigureEvent(listeners, targets, buckets) =>
    case UpsertEvent(j, v) => UpsertKeepsFlow(net, g, j, v, k);
  }

  /** Over any admissible run, a flow that never idles out keeps the backend chosen when it was created. */
  lemma {:induction false} RunKeepsFlow(net: Net, g: Gateway, es: seq<Event>, k: FlowKey)
    requires Inv(net, g) && AdmissibleRun(net, g, es)
    requires ForwardFlow(net, g, k) && StaysFresh(g, es, k)
    ensures ForwardFlow(net, Run(g, es), k) && SameFlow(g.flows[k], Run(g, es).flows[k])
    decreases |es|
  {
    if es != [] {
      StepKeepsFlow(net, g, es[0], k);
      StepKeeps(net, g, es[0]);
      RunKeepsFlow(net, Step(g, es[0]), es[1..], k);
    }
  }

  /** Every later packet of the flow goes to that backend, and its checksums are updated from the fields it carries. */
  lemma AffinityOverRuns(net: Net, g: Gateway, es: seq<Event>, p: Packet, now: u64, packetHash: u32)
    requires Inv(net, g) && AdmissibleRun(net, g, es)
    requires FromClient(net, KeyOf(p)) && KeyOf(p) in g.flows
    requires StaysFresh(g, es + [IngressEvent(p, now, packetHash)], KeyOf(p))
    ensures var v := g.flows[KeyOf(p)];
            var verdict := Ingress(Run(g, es), p, now, packetHash).1;
            verdict == ToTarget(Packet(p.src, v.target, p.sport, v.targetPort, p.proto),
                                Rewrite(p.dst, v.target, p.dport, v.targetPort), SlotOf(v))
  {
    var k := KeyOf(p);
    ClientKeyIsForward(net, g.flows, k);
    StaysFreshSplit(g, es, IngressEvent(p, now, packetHash), k);
    RunKeepsFlow(net, g, es, k);
    RunKeeps(net, g, es);
  }

  lemma {:induction false} StaysFreshSplit(g: Gateway, es: seq<Event>, e: Event, k: FlowKey)
    requires StaysFresh(g, es + [e], k)
    ensures StaysFresh(g, es, k) && FreshAt(Run(g, es), e, k)
    decreases |es|
  {
    if es == [] {
      assert es + [e] == [e];
    } else {
      assert (es + [e])[1..] == es[1..] + [e];
      StaysFreshSplit(Step(g, es[0]), es[1..], e, k);
    }
  }

  // ---- Replies ---------------------------------------------------------------------------------

  /** The key of a packet travelling the other way. */
  function Mirror(k: FlowKey): (m: FlowKey) {
    FlowKey(k.dst, k.src, k.dport, k.sport, k.proto)
  }

  /** The packet belongs to no live flow. */
  predicate OpensFlow(g: Gateway, p: Packet, now: u64) {
    KeyOf(p) !in g.flows || FlowExpired(g.flows[KeyOf(p)], now)
  }

  /** The first packet of a flow is forwarded exactly when its listener's selector answers, and then to a usable target
      of that listener, from the client's own address and port; otherwise it passes and no flow is opened. */
  lemma NewFlowForwardedIff(g: Gateway, p: Packet, now: u64, packetHash: u32)
    requires OpensFlow(g, p, now)
    ensures var base := AfterExpiry(g, KeyOf(p), now);
            var chosen := ChosenTarget(base, p, packetHash);
            var (h, verdict) := Ingress(g, p, now, packetHash);
            (verdict.ToTarget? <==> chosen < MAX_TARGETS_PER_LISTENER)
            && (verdict.ToTarget? ==>
                  ListenerKeyOf(p) in g.listeners
                  && verdict.slot == SlotKey(g.listeners[ListenerKeyOf(p)].listenerId, chosen)
                  && Usable(g.targets, verdict.slot.listenerId, verdict.slot.targetId)
                  && chosen < SlotCount(g.listeners[ListenerKeyOf(p)])
                  && verdict.out ==
                     Packet(p.src, g.targets[verdict.slot].address, p.sport, g.targets[verdict.slot].port, p.proto)
                  && verdict.rewrite ==
                     Rewrite(p.dst, g.targets[verdict.slot].address, p.dport, g.targets[verdict.slot].port)
                  && h.active == Raised(base.active, verdict.slot))
            && (!verdict.ToTarget? ==> verdict == Pass && h.flows == base.flows && h.active == base.active)
  {
    var base := AfterExpiry(g, KeyOf(p), now);
    if ListenerKeyOf(p) in g.listeners {
      var listener := g.listeners[ListenerKeyOf(p)];
      SelectSound(ViewOf(base), KeyOf(p), listener, if listener.select == SELECT_HASH then packetHash else 0);
    }
  }

  /** A new flow of a configured listener is served whenever the listener's selector always answers. */
  lemma ServedListenerForwards(g: Gateway, p: Packet, now: u64, packetHash: u32)
    requires OpensFlow(g, p, now) && ListenerKeyOf(p) in g.listeners
    requires Serves(ViewOf(AfterExpiry(g, KeyOf(p), now)), g.listeners[ListenerKeyOf(p)])
    ensures Ingress(g, p, now, packetHash).1.ToTarget?
  {
    NewFlowForwardedIff(g, p, now, packetHash);
  }

  /** In every state, a translated reply is the exact mirror image of a live client flow. */
  lemma RepliesMirrorLiveFlows(net: Net, g: Gateway, p: Packet, now: u64)
    requires Inv(net, g) && Admissible(net, g, ReturnEvent(p, now)) && Return(g, p, now).1.ToClient?
    ensures var verdict := Return(g, p, now).1;
            exists k :: ForwardFlow(net, g, k) && ReverseFor(k, g.flows[k]) == KeyOf(p)
                        && KeyOf(verdict.out) == Mirror(k)
                        && verdict.rewrite.oldAddress == p.src && verdict.rewrite.oldPort == p.sport
  {
    var k := ReturnActsOnForward(net, g, p, now);
    SwapBytesInvolutive(g.flows[k].vipPort);
    assert KeyOf(Return(g, p, now).1.out) == Mirror(k);
  }

  /** No other live flow has the same reverse key. */
  ghost predicate Sole(net: Net, g: Gateway, k: FlowKey)
    requires k in g.flows
  {
    forall j :: ForwardFlow(net, g, j) && ReverseFor(j, g.flows[j]) == ReverseFor(k, g.flows[k]) ==> j == k
  }

  ghost predicate AlwaysSole(net: Net, g: Gateway, es: seq<Event>, k: FlowKey)
    decreases |es|
  {
    k in g.flows && Sole(net, g, k) && (es == [] || AlwaysSole(net, Step(g, es[0]), es[1..], k))
  }

  /** A reply is restored to the flow exactly when the flow's reverse entry is still its own. */
  lemma ReplyRestoredIff(net: Net, g: Gateway, k: FlowKey, p: Packet, now: u64)
    requires Inv(net, g) && ForwardFlow(net, g, k) && !FlowExpired(g.flows[k], now)
    requires KeyOf(p) == ReverseFor(k, g.flows[k])
    ensures var verdict := Return(g, p, now).1;
            (verdict.ToClient? && KeyOf(verdict.out) == Mirror(k)) <==> TwoWay(g, k)
  {
    assert EntryOk(net, g.flows, k);
    DirectionsInverse(k, g.flows[k]);
    SwapBytesInvolutive(g.flows[k].vipPort);
    if KeyOf(p) in g.flows {
      var j := ReturnActsOnForward(net, g, p, now);
      SwapBytesInvolutive(g.flows[j].vipPort);
    }
  }

  /** A client packet that is forwarded leaves its flow two-way, whoever shared the reverse key before. */
  lemma ForwardedIsTwoWay(net: Net, g: Gateway, p: Packet, now: u64, targetId: u32)
    requires Inv(net, g) && FromClient(net, KeyOf(p)) && IngressWith(g, p, now, targetId).1.ToTarget?
    ensures TwoWay(IngressWith(g, p, now, targetId).0, KeyOf(p))
  {
    var k := KeyOf(p);
    if k in g.flows {
      ClientKeyIsForward(net, g.flows, k);
    }
  }

  /** Writing the pair of another flow with another reverse key leaves a two-way flow alone. */
  lemma PutPairKeepsTwoWay(net: Net, flows: Flows, j: FlowKey, v: FlowValue, k: FlowKey, r: FlowKey)
    requires k in flows && r in flows && flows[r] == flows[k]
    requires k != j && r != j && k != ReverseFor(j, v) && r != ReverseFor(j, v)
    ensures var m := PutPair(flows, j, ReverseFor(j, v), v);
            k in m && r in m && m[r] == m[k] == flows[k]
  {
  }

  /** Dropping another expired flow does not touch a two-way flow that shares its reverse key with none. */
  lemma AfterExpiryKeepsTwoWay(net: Net, g: Gateway, j: FlowKey, now: u64, k: FlowKey)
    requires Paired(net, g.flows) && FromClient(net, j) && ForwardFlow(net, g, k) && !FlowExpired(g.flows[k], now)
    requires TwoWay(g, k) && Sole(net, g, k)
    ensures var m := AfterExpiry(g, j, now).flows;
            var r := ReverseFor(k, g.flows[k]);
            k in m && r in m && m[k] == g.flows[k] && m[r] == g.flows[k]
  {
    assert EntryOk(net, g.flows, k);
    if j in g.flows {
      ClientKeyIsForward(net, g.flows, j);
    }
  }

  /** A forwarded packet of another flow. */
  lemma OtherIngressKeepsTwoWay(net: Net, g: Gateway, p: Packet, now: u64, targetId: u32, k: FlowKey)
    requires Inv(net, g) && FromClient(net, KeyOf(p)) && KeyOf(p) != k && |g.flows| + 2 <= FLOW_MAP_CAPACITY
    requires ForwardFlow(net, g, k) && !FlowExpired(g.flows[k], now) && TwoWay(g, k) && Sole(net, g, k)
    requires var (h, verdict) := IngressWith(g, p, now, targetId);
             verdict.ToTarget? && k in h.flows && SameFlow(g.flows[k], h.flows[k]) && Sole(net, h, k)
    ensures TwoWay(IngressWith(g, p, now, targetId).0, k)
  {
    var j := KeyOf(p);
    var r := ReverseFor(k, g.flows[k]);
    var h := IngressWith(g, p, now, targetId).0;
    assert EntryOk(net, g.flows, k);
    AfterExpiryKeepsTwoWay(net, g, j, now, k);
    var v := IngressFlows(g, p, now, targetId);
    IngressKeeps(net, g, p, now, targetId);
    ClientKeyIsForward(net, h.flows, j);
    assert ForwardFlow(net, h, j) && ReverseFor(j, v) != r;
    PutPairKeepsTwoWay(net, AfterExpiry(g, j, now).flows, j, v, k, r);
  }

  lemma IngressKeepsTwoWay(net: Net, g: Gateway, p: Packet, now: u64, targetId: u32, k: FlowKey)
    requires Inv(net, g) && FromClient(net, KeyOf(p)) && |g.flows| + 2 <= FLOW_MAP_CAPACITY
    requires ForwardFlow(net, g, k) && !FlowExpired(g.flows[k], now) && TwoWay(g, k) && Sole(net, g, k)
    requires var h := IngressWith(g, p, now, targetId).0;
             ForwardFlow(net, h, k) && SameFlow(g.flows[k], h.flows[k]) && Sole(net, h, k)
    ensures TwoWay(IngressWith(g, p, now, targetId).0, k)
  {
    AfterExpiryKeepsTwoWay(net, g, KeyOf(p), now, k);
    if IngressWith(g, p, now, targetId).1.ToTarget? {
      if KeyOf(p) == k {
        ForwardedIsTwoWay(net, g, p, now, targetId);
      } else {
        OtherIngressKeepsTwoWay(net, g, p, now, targetId, k);
      }
    }
  }

  lemma ReturnKeepsTwoWay(net: Net, g: Gateway, p: Packet, now: u64, k: FlowKey)
    requires Inv(net, g) && Admissible(net, g, ReturnEvent(p, now))
    requires ForwardFlow(net, g, k) && !FlowExpired(g.flows[k], now) && TwoWay(g, k) && Sole(net, g, k)
    ensures TwoWay(Return(g, p, now).0, k)
  {
    assert EntryOk(net, g.flows, k);
    if KeyOf(p) in g.flows {
      var j := ReturnActsOnForward(net, g, p, now);
    }
  }

  lemma UpsertKeepsTwoWay(net: Net, g: Gateway, j: FlowKey, v: FlowValue, k: FlowKey)
    requires Inv(net, g) && Admissible(net, g, UpsertEvent(j, v)) && ForwardFlow(net, g, k)
    requires FreshAt(g, UpsertEvent(j, v), k) && TwoWay(g, k) && Sole(net, g, k)
    requires k in Upsert(g, j, v).flows && Sole(net, Upsert(g, j, v), k)
    ensures TwoWay(Upsert(g, j, v), k)
  {
    var h := Upsert(g, j, v);
    var r := ReverseFor(k, g.flows[k]);
    assert EntryOk(net, g.flows, k);
    UpsertAt(net, g, j, v);
    assert Local(h.flows, k) == Some(h.flows[k]) && Local(g.flows, r) == Some(g.flows[k]);
    assert Local(h.flows, j).Some? && ForwardFlow(net, h, j);
    assert Local(h.flows, r) == Some(h.flows[k]);
  }

  /** While no other flow shares the reverse key, nothing takes the reverse entry away. */
  lemma StepKeepsTwoWay(net: Net, g: Gateway, e: Event, k: FlowKey)
    requires Inv(net, g) && Admissible(net, g, e) && ForwardFlow(net, g, k) && FreshAt(g, e, k)
    requires TwoWay(g, k) && Sole(net, g, k)
    requires k in Step(g, e).flows && Sole(net, Step(g, e), k)
    ensures TwoWay(Step(g, e), k)
  {
    StepKeepsFlow(net, g, e, k);
    match e
    case IngressEvent(p, now, packetHash) =>
      IngressKeepsTwoWay(net, g, p, now, ChosenTarget(AfterExpiry(g, KeyOf(p), now), p, packetHash), k);
    case ReturnEvent(p, now) => ReturnKeepsTwoWay(net, g, p, now, k);
    case SweepEvent(now, refresh) =>
    case ReconfigureEvent(listeners, targets, buckets) =>
    case UpsertEvent(j, v) => UpsertKeepsTwoWay(net, g, j, v, k);
  }

  lemma {:induction false} RunKeepsTwoWay(net: Net, g: Gateway, es: seq<Event>, k: FlowKey)
    requires Inv(net, g) && AdmissibleRun(net, g, es)
    requires ForwardFlow(net, g, k) && StaysFresh(g, es, k) && TwoWay(g, k) && AlwaysSole(net, g, es, k)
    ensures TwoWay(Run(g, es), k)
    decreases |es|
  {
    if es != [] {
      StepKeepsFlow(net, g, es[0], k);
      StepKeepsTwoWay(net, g, es[0], k);
      StepKeeps(net, g, es[0]);
      RunKeepsTwoWay(net, Step(g, es[0]), es[1..], k);
    }
  }

  /** Every reply to a live flow that shares its reverse key with nobody leaves from the VIP and port the client
      used. */
  lemma RepliesRestoredOverRuns(net: Net, g: Gateway, es: seq<Event>, k: FlowKey, p: Packet, now: u64)
    requires Inv(net, g) && AdmissibleRun(net, g, es)
    requires ForwardFlow(net, g, k) && StaysFresh(g, es + [ReturnEvent(p, now)], k)
    requires TwoWay(g, k) && AlwaysSole(net, g, es, k)
    requires KeyOf(p) == ReverseFor(k, g.flows[k])
    ensures var verdict := Return(Run(g, es), p, now).1;
            verdict.ToClient? && KeyOf(verdict.out) == Mirror(k)
  {
    StaysFreshSplit(g, es, ReturnEvent(p, now), k);
    RunKeepsFlow(net, g, es, k);
    RunKeepsTwoWay(net, g, es, k);
    RunKeeps(net, g, es);
    ReplyRestoredIff(net, Run(g, es), k, p, now);
  }

  // ---- Why the hypotheses are there ------------------------------------------------------------

  /** When two live flows share a reverse key, a reply follows whichever of them sent last. */
  lemma SharedReverseKeyFollowsLastSender(net: Net, g: Gateway, k: FlowKey, p: Packet, reply: Packet, now: u64,
                                          packetHash: u32)
    requires Inv(net, g) && Admissible(net, g, IngressEvent(p, now, packetHash))
    requires ForwardFlow(net, g, k) && KeyOf(p) in g.flows && KeyOf(p) != k
    requires !FlowExpired(g.flows[KeyOf(p)], now)
    requires ReverseFor(KeyOf(p), g.flows[KeyOf(p)]) == ReverseFor(k, g.flows[k]) == KeyOf(reply)
    ensures var verdict := Return(Ingress(g, p, now, packetHash).0, reply, now).1;
            verdict.ToClient? && KeyOf(verdict.out) == Mirror(KeyOf(p)) != Mirror(k)
  {
    var j := KeyOf(p);
    var h := Ingress(g, p, now, packetHash).0;
    ClientKeyIsForward(net, g.flows, j);
    var targetId := ChosenTarget(AfterExpiry(g, j, now), p, packetHash);
    ForwardedIsTwoWay(net, g, p, now, targetId);
    IngressKeeps(net, g, p, now, targetId);
    ReplyRestoredIff(net, h, j, reply, now);
  }

  /** A listener with one usable slot. */
  predicate OneSlot(g: Gateway, p: Packet) {
    ListenerKeyOf(p) in g.listeners
    && var l := g.listeners[ListenerKeyOf(p)];
       l.targetCount == 1 && l.weightTotal == 1 && l.select == SELECT_RR && Usable(g.targets, l.listenerId, 0)
  }

  function OnlyTarget(g: Gateway, p: Packet): (t: TargetValue)
    requires OneSlot(g, p)
  {
    g.targets[SlotKey(g.listeners[ListenerKeyOf(p)].listenerId, 0)]
  }

  /** Opening a flow towards the only slot of a round-robin listener. */
  lemma OnlySlotChosen(g: Gateway, p: Packet, packetHash: u32)
    requires OneSlot(g, p)
    ensures ChosenTarget(g, p, packetHash) == 0
  {
  }

  /** What the first packet of a flow does there. */
  lemma OnlySlotOpens(g: Gateway, p: Packet, now: u64) returns (v: FlowValue)
    requires OneSlot(g, p) && KeyOf(p) !in g.flows
    ensures v.vip == p.dst && v.vipPort == SwapBytes(p.dport) && v.lastSeenNs == now
    ensures v.target == OnlyTarget(g, p).address && v.targetPort == OnlyTarget(g, p).port
    ensures v.timeoutSecs == g.listeners[ListenerKeyOf(p)].timeoutSecs
    ensures var h := Step(g, IngressEvent(p, now, 0));
            h.flows == PutPair(g.flows, KeyOf(p), ReverseFor(KeyOf(p), v), v)
            && h.listeners == g.listeners && h.targets == g.targets
  {
    var l, t := g.listeners[ListenerKeyOf(p)], OnlyTarget(g, p);
    v := FlowValue(l.listenerId, 0, p.dst, t.address, SwapBytes(p.dport), t.port, l.timeoutSecs, now);
    OnlySlotChosen(g, p, 0);
  }

  /** A run of two steps. */
  lemma TwoSteps(net: Net, g: Gateway, d: Event, e: Event)
    requires Admissible(net, g, d) && Admissible(net, Step(g, d), e)
    ensures AdmissibleRun(net, g, [d, e]) && Run(g, [d, e]) == Step(Step(g, d), e)
  {
    assert [d, e][1..] == [e] && [e][1..] == [];
    assert Run(Step(g, d), [e]) == Step(Step(g, d), e);
    assert AdmissibleRun(net, Step(g, d), [e]);
  }

  /** A live reply to the first of two flows leaves as a reply of the second. */
  ghost predicate ReplyGoesAstray(h: Gateway, p1: Packet, p2: Packet, reply: Packet) {
    KeyOf(p1) in h.flows && ReverseFor(KeyOf(p1), h.flows[KeyOf(p1)]) == KeyOf(reply)
    && !FlowExpired(h.flows[KeyOf(p1)], 3)
    && Return(h, reply, 3).1.ToClient?
    && KeyOf(Return(h, reply, 3).1.out) == Mirror(KeyOf(p2)) != Mirror(KeyOf(p1))
  }

  /** One client port, two VIPs in front of one backend: the reply to the first connection leaves from the second
      VIP. */
  lemma TwoVipsOneBackend(net: Net, g: Gateway, p1: Packet, p2: Packet, reply: Packet)
    requires Attached(g) && OneSlot(g, p1) && OneSlot(g, p2) && p2 == p1.(dst := p2.dst) && p1.dst != p2.dst
    requires FromClient(net, KeyOf(p1)) && p1.src != p1.dst && p1.src != p2.dst
    requires var t, u := OnlyTarget(g, p1), OnlyTarget(g, p2);
             (t.address, t.port) == (u.address, u.port)
             && reply == Packet(t.address, p1.src, t.port, p1.sport, p1.proto)
    ensures AdmissibleRun(net, g, [IngressEvent(p1, 1, 0), IngressEvent(p2, 2, 0)])
    ensures ReplyGoesAstray(Run(g, [IngressEvent(p1, 1, 0), IngressEvent(p2, 2, 0)]), p1, p2, reply)
  {
    var e1, e2 := IngressEvent(p1, 1, 0), IngressEvent(p2, 2, 0);
    BothOpen(g, p1, p2, reply);
    TwoSteps(net, g, e1, e2);
  }

  lemma BothOpen(g: Gateway, p1: Packet, p2: Packet, reply: Packet)
    requires g.flows == map[] && OneSlot(g, p1) && OneSlot(g, p2) && p2 == p1.(dst := p2.dst) && p1.dst != p2.dst
    requires p1.src != p1.dst && p1.src != p2.dst
    requires var t, u := OnlyTarget(g, p1), OnlyTarget(g, p2);
             (t.address, t.port) == (u.address, u.port)
             && reply == Packet(t.address, p1.src, t.port, p1.sport, p1.proto)
    ensures |Step(g, IngressEvent(p1, 1, 0)).flows| <= 2
    ensures ReplyGoesAstray(Step(Step(g, IngressEvent(p1, 1, 0)), IngressEvent(p2, 2, 0)), p1, p2, reply)
  {
    var v1 := OnlySlotOpens(g, p1, 1);
    var g1 := Step(g, IngressEvent(p1, 1, 0));
    OnePair(g.flows, KeyOf(p1), KeyOf(reply), v1);
    var v2 := OnlySlotOpens(g1, p2, 2);
    SharedAfter(Step(g1, IngressEvent(p2, 2, 0)), p1, p2, reply, v1, v2);
  }

  lemma OnePair(flows: Flows, k: FlowKey, r: FlowKey, v: FlowValue)
    requires flows == map[]
    ensures |PutPair(flows, k, r, v)| <= 2 && PutPair(flows, k, r, v).Keys == {k, r}
  {
    var m := PutPair(flows, k, r, v);
    assert |m| == |m.Keys| && m.Keys == {k, r};
  }

  /** Both flows in the table, under one reverse key. */
  lemma SharedAfter(h: Gateway, p1: Packet, p2: Packet, reply: Packet, v1: FlowValue, v2: FlowValue)
    requires p2 == p1.(dst := p2.dst) && p1.dst != p2.dst && p1.src != p1.dst && p1.src != p2.dst
    requires h.flows == PutPair(PutPair(map[], KeyOf(p1), KeyOf(reply), v1), KeyOf(p2), KeyOf(reply), v2)
    requires v1.lastSeenNs == 1 && v2.lastSeenNs == 2 && v2.vip == p2.dst && v2.vipPort == SwapBytes(p2.dport)
    requires ReverseFor(KeyOf(p1), v1) == KeyOf(reply) && reply.dst == p1.src && reply.dport == p1.sport
    requires reply.proto == p1.proto
    ensures ReplyGoesAstray(h, p1, p2, reply)
  {
    SharedReply(h, p2, reply, 3);
  }

  /** There is such a gateway. */
  lemma SharedReverseKeyInstance() returns (net: Net, g: Gateway, p1: Packet, p2: Packet, reply: Packet)
    ensures Attached(g) && Configured(net, g.listeners, g.targets)
    ensures AdmissibleRun(net, g, [IngressEvent(p1, 1, 0), IngressEvent(p2, 2, 0)])
    ensures ReplyGoesAstray(Run(g, [IngressEvent(p1, 1, 0), IngressEvent(p2, 2, 0)]), p1, p2, reply)
  {
    net := Net({1, 2}, {(10, 8080)});
    p1, p2 := Packet(20, 1, 40000, 80, 6), Packet(20, 2, 40000, 80, 6);
    reply := Packet(10, 20, 8080, 40000, 6);
    var listeners: Listeners := map[ListenerKeyOf(p1) := ListenerValue(1, 1, 1, SELECT_RR, 60),
                                    ListenerKeyOf(p2) := ListenerValue(2, 1, 1, SELECT_RR, 60)];
    var targets: Targets := map[SlotKey(1, 0) := TargetValue(10, 8080, 1, 1),
                                SlotKey(2, 0) := TargetValue(10, 8080, 1, 1)];
    g := Gateway(map[], map[], listeners, targets, map[], []);
    TwoVipsOneBackend(net, g, p1, p2, reply);
  }

  /** A reply that finds the flow's own value is restored. */
  lemma SharedReply(h: Gateway, p: Packet, reply: Packet, now: u64)
    requires KeyOf(reply) in h.flows && !FlowExpired(h.flows[KeyOf(reply)], now)
    requires var v := h.flows[KeyOf(reply)];
             v.vip == p.dst && v.vipPort == SwapBytes(p.dport) && reply.dst == p.src && reply.dport == p.sport
             && reply.proto == p.proto
    ensures Return(h, reply, now).1.ToClient? && KeyOf(Return(h, reply, now).1.out) == Mirror(KeyOf(p))
  {
    SwapBytesInvolutive(p.dport);
  }

  /** The key of a packet from a backend endpoint to itself. */
  function StrayKey(v: FlowValue, proto: u8): (k: FlowKey) {
    FlowKey(v.target, v.target, SwapBytes(v.targetPort), SwapBytes(v.targetPort), proto)
  }

  /** What the ingress hook makes of a packet with a live flow. */
  lemma LiveIngress(g: Gateway, p: Packet, now: u64, packetHash: u32)
    requires KeyOf(p) in g.flows && !FlowExpired(g.flows[KeyOf(p)], now)
    ensures var v := g.flows[KeyOf(p)];
            var (h, verdict) := Ingress(g, p, now, packetHash);
            verdict.ToTarget? && verdict.out == Packet(p.src, v.target, p.sport, v.targetPort, p.proto)
            && h.flows == PutPair(g.flows, KeyOf(p), ReverseFor(KeyOf(p), v), Touched(v, now))
  {
  }

  /** The ingress hook sends a live packet back to where it came from if and only if the packet is a reply; and if and
      only if it is one, the table ends with an unpaired entry, from the backend endpoint to itself. */
  lemma ReplyAtIngressIff(net: Net, g: Gateway, p: Packet, now: u64, packetHash: u32)
    requires Inv(net, g) && KeyOf(p) in g.flows && !FlowExpired(g.flows[KeyOf(p)], now)
    ensures var (h, verdict) := Ingress(g, p, now, packetHash);
            verdict.ToTarget?
            && ((verdict.out.dst == p.src && verdict.out.dport == p.sport) <==> p.dst !in net.vips)
            && (!Paired(net, h.flows) <==> p.dst !in net.vips)
            && (p.dst !in net.vips ==> StrayKey(g.flows[KeyOf(p)], p.proto) in h.flows)
  {
    var k, v := KeyOf(p), g.flows[KeyOf(p)];
    var h := Ingress(g, p, now, packetHash).0;
    LiveIngress(g, p, now, packetHash);
    assert EntryOk(net, g.flows, k);
    SwapBytesInvolutive(p.sport);
    SwapBytesInvolutive(v.targetPort);
    if p.dst in net.vips {
      RefreshKeeps(net, g, k, now);
    } else {
      var stray := StrayKey(v, p.proto);
      assert ReverseFor(k, v) == stray && h.flows[stray] == Touched(v, now);
      assert !EntryOk(net, h.flows, stray);
    }
  }

  /** An expired reply takes its reverse entry and the listener lookup finds nothing for it. */
  lemma ExpiredReplyIngress(net: Net, g: Gateway, p: Packet, now: u64, packetHash: u32)
    requires Inv(net, g) && KeyOf(p) in g.flows && FlowExpired(g.flows[KeyOf(p)], now) && p.dst !in net.vips
    ensures var v := g.flows[KeyOf(p)];
            var (h, verdict) := Ingress(g, p, now, packetHash);
            verdict == Pass && h.active == Lowered(g.active, SlotOf(v))
            && h.flows == g.flows - {KeyOf(p), StrayKey(v, p.proto)}
  {
    assert EntryOk(net, g.flows, KeyOf(p));
    assert ListenerKeyOf(p) !in g.listeners;
  }

  /** An expired reply at the ingress hook is passed on, and the counter of its flow falls below its flows: the forward
      entry stays, to be counted down once more when it expires itself. */
  lemma ExpiredReplyUncounts(net: Net, g: Gateway, p: Packet, now: u64, packetHash: u32)
    requires Inv(net, g) && CountersExact(net, g) && KeyOf(p) in g.flows
    requires FlowExpired(g.flows[KeyOf(p)], now) && p.dst !in net.vips
    ensures var (h, verdict) := Ingress(g, p, now, packetHash);
            verdict == Pass && !CountersCover(net, h) && ForwardFor(KeyOf(p), g.flows[KeyOf(p)]) in h.flows
  {
    var r, v := KeyOf(p), g.flows[KeyOf(p)];
    var h := Ingress(g, p, now, packetHash).0;
    var slot := SlotOf(v);
    var k := ReverseNamesForward(net, g.flows, r);
    ExpiredReplyIngress(net, g, p, now, packetHash);
    StrayAbsent(net, g, v, p.proto);
    assert ForwardsOn(net, h.flows, slot) == ForwardsOn(net, g.flows, slot) && k in ForwardsOn(net, g.flows, slot);
    assert GetOr0(h.active, slot) == |ForwardsOn(net, g.flows, slot)| - 1;
  }

  /** No table that is paired has an entry from a backend endpoint to itself. */
  lemma StrayAbsent(net: Net, g: Gateway, v: FlowValue, proto: u8)
    requires Paired(net, g.flows) && (v.target, v.targetPort) in net.endpoints
    ensures StrayKey(v, proto) !in g.flows
  {
    var stray := StrayKey(v, proto);
    SwapBytesInvolutive(v.targetPort);
    assert stray in g.flows ==> EntryOk(net, g.flows, stray);
  }

  /** A reply that is still live at the ingress hook leaves the counts alone, unless a backend address is a VIP. */
  lemma LiveReplyCounts(net: Net, g: Gateway, p: Packet, now: u64, packetHash: u32)
    requires Inv(net, g) && CountersExact(net, g) && KeyOf(p) in g.flows && p.dst !in net.vips
    requires !FlowExpired(g.flows[KeyOf(p)], now) && forall e :: e in net.endpoints ==> e.0 !in net.vips
    ensures CountersExact(net, Ingress(g, p, now, packetHash).0)
  {
    var v := g.flows[KeyOf(p)];
    var h := Ingress(g, p, now, packetHash).0;
    LiveIngress(g, p, now, packetHash);
    var k := ReverseNamesForward(net, g.flows, KeyOf(p));
    assert (v.target, v.targetPort) in net.endpoints;
    forall slot
      ensures ForwardsOn(net, h.flows, slot) == ForwardsOn(net, g.flows, slot)
    {
    }
  }

  /** The ingress hook keeps exact counters exact, for every packet that has an entry, if and only if the packet is not
      an expired reply. */
  lemma IngressExactIff(net: Net, g: Gateway, p: Packet, now: u64, packetHash: u32)
    requires Inv(net, g) && CountersExact(net, g) && KeyOf(p) in g.flows && |g.flows| + 2 <= FLOW_MAP_CAPACITY
    requires forall e :: e in net.endpoints ==> e.0 !in net.vips
    ensures CountersExact(net, Ingress(g, p, now, packetHash).0)
       <==> p.dst in net.vips || !FlowExpired(g.flows[KeyOf(p)], now)
  {
    if p.dst in net.vips {
      assert EntryOk(net, g.flows, KeyOf(p));
      IngressKeeps(net, g, p, now, ChosenTarget(AfterExpiry(g, KeyOf(p), now), p, packetHash));
    } else if FlowExpired(g.flows[KeyOf(p)], now) {
      ExpiredReplyUncounts(net, g, p, now, packetHash);
    } else {
      LiveReplyCounts(net, g, p, now, packetHash);
    }
  }

  /** It happens: one client packet, and the backend's answer at the ingress hook. */
  lemma ReplyAtIngressInstance() returns (net: Net, g: Gateway, p: Packet, reply: Packet)
    ensures Attached(g) && Configured(net, g.listeners, g.targets) && AdmissibleRun(net, g, [IngressEvent(p, 1, 0)])
    ensures var h := Run(g, [IngressEvent(p, 1, 0)]);
            Return(h, reply, 2).1.ToClient? && KeyOf(Return(h, reply, 2).1.out) == Mirror(KeyOf(p))
            && Ingress(h, reply, 2, 0).1.ToTarget? && Ingress(h, reply, 2, 0).1.out.dst == reply.src
            && !Paired(net, Ingress(h, reply, 2, 0).0.flows)
  {
    net := Net({1}, {(10, 8080)});
    p, reply := Packet(20, 1, 40000, 80, 6), Packet(10, 20, 8080, 40000, 6);
    g := SmallGateway(p);
    var v := FirstFlow(net, g, p);
    var h := Run(g, [IngressEvent(p, 1, 0)]);
    ReplyAtIngressIff(net, h, reply, 2, 0);
    SharedReply(h, p, reply, 2);
  }

  /** A fresh datapath after its first client packet. */
  lemma FirstFlow(net: Net, g: Gateway, p: Packet) returns (v: FlowValue)
    requires Attached(g) && Configured(net, g.listeners, g.targets) && OneSlot(g, p) && FromClient(net, KeyOf(p))
    ensures AdmissibleRun(net, g, [IngressEvent(p, 1, 0)])
    ensures v.lastSeenNs == 1 && v.target == OnlyTarget(g, p).address && v.targetPort == OnlyTarget(g, p).port
    ensures v.timeoutSecs == g.listeners[ListenerKeyOf(p)].timeoutSecs
    ensures var h := Run(g, [IngressEvent(p, 1, 0)]);
            Inv(net, h) && CountersExact(net, h)
            && h.flows == PutPair(map[], KeyOf(p), ReverseFor(KeyOf(p), v), v) && ForwardEntry(net, KeyOf(p), v)
  {
    var e := IngressEvent(p, 1, 0);
    assert [e][1..] == [];
    v := OnlySlotOpens(g, p, 1);
    AttachedExact(net, g);
    StepKeeps(net, g, e);
    StepExactIff(net, g, e);
    ClientKeyIsForward(net, Step(g, e).flows, KeyOf(p));
  }

  /** A peer's fresher copy with another backend leaves the old reverse entry unpaired, and a flow only the peer knows
      is not counted. */
  lemma ReplicaAfterFirst(net: Net, h: Gateway, k: FlowKey, v: FlowValue, moved: FlowValue, other: FlowKey)
    requires Inv(net, h) && CountersExact(net, h) && h.flows == PutPair(map[], k, ReverseFor(k, v), v)
    requires ForwardEntry(net, k, v) && ForwardEntry(net, k, moved) && ForwardEntry(net, other, moved)
    requires moved.lastSeenNs > v.lastSeenNs && moved.target != v.target && other != k
    ensures !Paired(net, Upsert(h, k, moved).flows)
    ensures Paired(net, Upsert(h, other, moved).flows) && !CountersExact(net, Upsert(h, other, moved))
  {
    UpsertPairedIff(net, h, k, moved);
    UpsertPairedIff(net, h, other, moved);
    UpsertExactIff(net, h, other, moved);
  }

  /** It happens. */
  lemma ReplicationInstance() returns (net: Net, g: Gateway, p: Packet, moved: FlowValue, other: FlowKey)
    ensures Attached(g) && Configured(net, g.listeners, g.targets) && AdmissibleRun(net, g, [IngressEvent(p, 1, 0)])
    ensures var h := Run(g, [IngressEvent(p, 1, 0)]);
            !Paired(net, Upsert(h, KeyOf(p), moved).flows)
            && Paired(net, Upsert(h, other, moved).flows) && !CountersExact(net, Upsert(h, other, moved))
  {
    net := Net({1}, {(10, 8080), (11, 8080)});
    p := Packet(20, 1, 40000, 80, 6);
    g := SmallGateway(p);
    moved, other := FlowValue(1, 1, 1, 11, SwapBytes(80), 8080, 60, 2), KeyOf(p.(src := 21));
    var v := FirstFlow(net, g, p);
    ReplicaAfterFirst(net, Run(g, [IngressEvent(p, 1, 0)]), KeyOf(p), v, moved, other);
  }

  /** A gateway with one VIP, one backend and one client's packet. */
  function SmallGateway(p: Packet): (g: Gateway) {
    Gateway(map[], map[], map[ListenerKeyOf(p) := ListenerValue(1, 1, 1, SELECT_RR, 60)],
            map[SlotKey(1, 0) := TargetValue(10, 8080, 1, 1)], map[], [])
  }

  /** When the first flow has idled out, a sweep without a recount leaves its counter too high, and the backend's late
      answer at the ingress hook leaves it too low. */
  lemma ExpiryInstance() returns (net: Net, p: Packet, reply: Packet, late: u64)
    ensures Attached(SmallGateway(p)) && AdmissibleRun(net, SmallGateway(p), [IngressEvent(p, 1, 0)])
    ensures var h := Run(SmallGateway(p), [IngressEvent(p, 1, 0)]);
            CountersExact(net, h) && !CountersExact(net, Sweep(h, late, false))
            && Ingress(h, reply, late, 0).1 == Pass && !CountersCover(net, Ingress(h, reply, late, 0).0)
  {
    net := Net({1}, {(10, 8080)});
    p, reply := Packet(20, 1, 40000, 80, 6), Packet(10, 20, 8080, 40000, 6);
    late := 70_000_000_000;
    var g := SmallGateway(p);
    var v := FirstFlow(net, g, p);
    var h := Run(g, [IngressEvent(p, 1, 0)]);
    assert KeyOf(p) in h.flows && FlowExpired(h.flows[KeyOf(p)], late);
    PlainSweepExactIff(net, h, late);
    ExpiredReplyUncounts(net, h, reply, late, 0);
  }
}
