/** How long a flow lives: every packet and every reply restarts its timeout, and silence ends it. */
module FlowLifetime {
  import opened Words
  import opened FlowKeys
  import opened FlowSteps
  import opened Replication
  import opened FlowInvariant
  import opened ReplicatedFlows
  import opened FlowRuns

  /** More than the timeout has passed since the last use; a timeout or a last use of zero never ends. */
  predicate Idle(timeoutSecs: u32, last: u64, now: u64) {
    timeoutSecs != 0 && last != 0 && now - last > timeoutSecs * 1_000_000_000
  }

  /** Both entries of a flow hold `v`, last seen at `now`. */
  predicate SeenAt(flows: Flows, k: FlowKey, r: FlowKey, v: FlowValue, now: u64) {
    k in flows && r in flows && flows[k] == flows[r] && SameFlow(v, flows[k]) && flows[k].lastSeenNs == now
  }

  ghost predicate LivesFrom(v: FlowValue, last: u64) {
    forall later: u64 :: FlowExpired(v, later) <==> Idle(v.timeoutSecs, last, later)
  }

  /** A client packet of a live flow marks both entries as seen now, and leaves everything else about them alone. */
  lemma PacketRestartsTimeout(g: Gateway, p: Packet, now: u64, packetHash: u32)
    requires KeyOf(p) in g.flows && !FlowExpired(g.flows[KeyOf(p)], now)
    ensures var k, v, m := KeyOf(p), g.flows[KeyOf(p)], Ingress(g, p, now, packetHash).0.flows;
            SeenAt(m, k, ReverseFor(k, v), v, now) && LivesFrom(m[k], now)
            && m - {k, ReverseFor(k, v)} == g.flows - {k, ReverseFor(k, v)}
  {
  }

  /** So does a reply that is translated. */
  lemma ReplyRestartsTimeout(g: Gateway, p: Packet, now: u64)
    requires Return(g, p, now).1.ToClient?
    ensures KeyOf(p) in g.flows
    ensures var r, v, m := KeyOf(p), g.flows[KeyOf(p)], Return(g, p, now).0.flows;
            SeenAt(m, ForwardFor(r, v), r, v, now) && LivesFrom(m[r], now)
            && m - {r, ForwardFor(r, v)} == g.flows - {r, ForwardFor(r, v)}
  {
  }

  /** A new flow lives from its first packet on, by the timeout of its listener. */
  lemma OpeningStartsTimeout(g: Gateway, p: Packet, now: u64, packetHash: u32)
    requires OpensFlow(g, p, now) && Ingress(g, p, now, packetHash).1.ToTarget?
    ensures ListenerKeyOf(p) in g.listeners
    ensures var k, m := KeyOf(p), Ingress(g, p, now, packetHash).0.flows;
            k in m && SeenAt(m, k, ReverseFor(k, m[k]), m[k], now) && LivesFrom(m[k], now)
            && m[k].timeoutSecs == g.listeners[ListenerKeyOf(p)].timeoutSecs
  {
  }

  /** The next packet of the flow repeats the verdict exactly if it comes within the timeout; a later one finds the flow
      closed and has a target chosen anew. */
  lemma NextPacketIff(net: Net, g: Gateway, p: Packet, now: u64, packetHash: u32, later: u64, laterHash: u32)
    requires Inv(net, g) && FromClient(net, KeyOf(p)) && Ingress(g, p, now, packetHash).1.ToTarget?
    ensures var (h, verdict) := Ingress(g, p, now, packetHash);
            var k := KeyOf(p);
            k in h.flows
            && if Idle(h.flows[k].timeoutSecs, now, later) then
                 var closed := CloseFlow(h, k, ReverseFor(k, h.flows[k]), h.flows[k]);
                 Ingress(h, p, later, laterHash) == OpenFlow(closed, p, later, ChosenTarget(closed, p, laterHash))
               else Ingress(h, p, later, laterHash).1 == verdict
  {
    FirstVerdict(net, g, p, now, packetHash);
    var h := Ingress(g, p, now, packetHash).0;
    var v := h.flows[KeyOf(p)];
    if Idle(v.timeoutSecs, now, later) {
      IdleReopens(h, p, later, laterHash);
    } else {
      LiveVerdict(h, p, later, laterHash, v, now);
    }
  }

  lemma IdleReopens(g: Gateway, p: Packet, now: u64, packetHash: u32)
    requires KeyOf(p) in g.flows && FlowExpired(g.flows[KeyOf(p)], now)
    ensures var k := KeyOf(p);
            var closed := CloseFlow(g, k, ReverseFor(k, g.flows[k]), g.flows[k]);
            Ingress(g, p, now, packetHash) == OpenFlow(closed, p, now, ChosenTarget(closed, p, packetHash))
  {
  }

  lemma LiveVerdict(g: Gateway, p: Packet, now: u64, packetHash: u32, v: FlowValue, last: u64)
    requires KeyOf(p) in g.flows && SameFlow(v, g.flows[KeyOf(p)]) && g.flows[KeyOf(p)].lastSeenNs == last
    requires !Idle(v.timeoutSecs, last, now) && v.vip == p.dst
    ensures Ingress(g, p, now, packetHash).1
         == ToTarget(Packet(p.src, v.target, p.sport, v.targetPort, p.proto),
                     Rewrite(p.dst, v.target, p.dport, v.targetPort), SlotOf(v))
  {
  }

  /** The verdict on a forwarded client packet says what its entry says. */
  lemma FirstVerdict(net: Net, g: Gateway, p: Packet, now: u64, packetHash: u32)
    requires Inv(net, g) && FromClient(net, KeyOf(p)) && Ingress(g, p, now, packetHash).1.ToTarget?
    ensures var (h, verdict) := Ingress(g, p, now, packetHash);
            KeyOf(p) in h.flows
            && var v := h.flows[KeyOf(p)];
               v.lastSeenNs == now && v.vip == p.dst
               && verdict == ToTarget(Packet(p.src, v.target, p.sport, v.targetPort, p.proto),
                                      Rewrite(p.dst, v.target, p.dport, v.targetPort), SlotOf(v))
  {
    if KeyOf(p) in g.flows {
      ClientKeyIsForward(net, g.flows, KeyOf(p));
    }
  }

  // ---- Over runs -------------------------------------------------------------------------------

  /** A client packet of the flow, or a reply to it while the reverse entry is its own. */
  predicate Uses(g: Gateway, e: Event, k: FlowKey) {
    match e
    case IngressEvent(p, _, _) => KeyOf(p) == k
    case ReturnEvent(p, _) => TwoWay(g, k) && KeyOf(p) == ReverseFor(k, g.flows[k])
    case _ => false
  }

  /** When the flow was last used, after the event: now, at the time a fresher copy from the peer gives, or as
      before. */
  function LastUse(g: Gateway, e: Event, k: FlowKey, last: u64): (r: u64) {
    match e
    case IngressEvent(_, now, _) => if Uses(g, e, k) then now else last
    case ReturnEvent(_, now) => if Uses(g, e, k) then now else last
    case UpsertEvent(key, value) => if key == k && value.lastSeenNs > last then value.lastSeenNs else last
    case _ => last
  }

  /** A use of the flow, or a sweep, comes within the timeout, and a fresher copy from the peer is of the same flow. */
  predicate InTime(g: Gateway, e: Event, k: FlowKey, v: FlowValue, last: u64) {
    match e
    case IngressEvent(_, now, _) => Uses(g, e, k) ==> !Idle(v.timeoutSecs, last, now)
    case ReturnEvent(_, now) => Uses(g, e, k) ==> !Idle(v.timeoutSecs, last, now)
    case SweepEvent(now, _) => !Idle(v.timeoutSecs, last, now)
    case ReconfigureEvent(_, _, _) => true
    case UpsertEvent(key, value) => key == k && value.lastSeenNs > last ==> SameFlow(v, value)
  }

  /** Consecutive uses of the flow are at most its timeout apart, and so is every sweep from the use before it. */
  ghost predicate Busy(g: Gateway, es: seq<Event>, k: FlowKey, v: FlowValue, last: u64)
    decreases |es|
  {
    es == [] || (InTime(g, es[0], k, v, last) && Busy(Step(g, es[0]), es[1..], k, v, LastUse(g, es[0], k, last)))
  }

  /** The table holds the flow, last used at `last`. */
  ghost predicate Tracks(net: Net, g: Gateway, k: FlowKey, v: FlowValue, last: u64) {
    ForwardFlow(net, g, k) && SameFlow(v, g.flows[k]) && g.flows[k].lastSeenNs == last
  }

  /** Dropping an expired flow leaves every other forward entry. */
  lemma OtherExpiryTracks(net: Net, g: Gateway, j: FlowKey, now: u64, k: FlowKey)
    requires j.src !in net.vips && ForwardFlow(net, g, k) && j != k
    ensures k in AfterExpiry(g, j, now).flows && AfterExpiry(g, j, now).flows[k] == g.flows[k]
  {
  }

  lemma IngressTracks(net: Net, g: Gateway, p: Packet, now: u64, targetId: u32, k: FlowKey, v: FlowValue, last: u64)
    requires FromClient(net, KeyOf(p)) && Tracks(net, g, k, v, last)
    requires KeyOf(p) == k ==> !Idle(v.timeoutSecs, last, now)
    ensures Tracks(net, IngressWith(g, p, now, targetId).0, k, v, if KeyOf(p) == k then now else last)
  {
    var j := KeyOf(p);
    if j != k {
      OtherExpiryTracks(net, g, j, now, k);
      if IngressWith(g, p, now, targetId).1.ToTarget? {
        var w := IngressFlows(g, p, now, targetId);
        PutPairKeepsOthers(net, AfterExpiry(g, j, now).flows, j, w, k);
      }
    }
  }

  lemma ReturnTracks(net: Net, g: Gateway, p: Packet, now: u64, k: FlowKey, v: FlowValue, last: u64)
    requires Inv(net, g) && Admissible(net, g, ReturnEvent(p, now)) && Tracks(net, g, k, v, last)
    requires InTime(g, ReturnEvent(p, now), k, v, last)
    ensures Tracks(net, Return(g, p, now).0, k, v, LastUse(g, ReturnEvent(p, now), k, last))
  {
    if KeyOf(p) in g.flows {
      var j := ReturnActsOnForward(net, g, p, now);
      assert j == k <==> Uses(g, ReturnEvent(p, now), k) by {
        if Uses(g, ReturnEvent(p, now), k) {
          assert EntryOk(net, g.flows, k);
          DirectionsInverse(k, g.flows[k]);
          DirectionsInverse(j, g.flows[j]);
        }
      }
    }
  }

  lemma UpsertTracks(net: Net, g: Gateway, j: FlowKey, w: FlowValue, k: FlowKey, v: FlowValue, last: u64)
    requires ForwardEntry(net, j, w) && Tracks(net, g, k, v, last) && InTime(g, UpsertEvent(j, w), k, v, last)
    ensures Tracks(net, Upsert(g, j, w), k, v, LastUse(g, UpsertEvent(j, w), k, last))
  {
    UpsertAt(net, g, j, w);
    assert Local(Upsert(g, j, w).flows, k).Some?;
  }

  lemma StepTracks(net: Net, g: Gateway, e: Event, k: FlowKey, v: FlowValue, last: u64)
    requires Inv(net, g) && Admissible(net, g, e) && Tracks(net, g, k, v, last) && InTime(g, e, k, v, last)
    ensures Tracks(net, Step(g, e), k, v, LastUse(g, e, k, last))
  {
    match e
    case IngressEvent(p, now, packetHash) =>
      IngressTracks(net, g, p, now, ChosenTarget(AfterExpiry(g, KeyOf(p), now), p, packetHash), k, v, last);
    case ReturnEvent(p, now) => ReturnTracks(net, g, p, now, k, v, last);
    case SweepEvent(now, refresh) =>
    case ReconfigureEvent(listeners, targets, buckets) =>
    case UpsertEvent(j, w) => UpsertTracks(net, g, j, w, k, v, last);
  }

  /** A busy flow is there when its next event comes, and that comes in time. */
  lemma {:induction false} BusyTracks(net: Net, g: Gateway, es: seq<Event>, e: Event,
                                      k: FlowKey, v: FlowValue, last: u64)
    returns (latest: u64)
    requires Inv(net, g) && AdmissibleRun(net, g, es) && Tracks(net, g, k, v, last) && Busy(g, es + [e], k, v, last)
    ensures Tracks(net, Run(g, es), k, v, latest) && InTime(Run(g, es), e, k, v, latest)
    decreases |es|
  {
    if es == [] {
      assert es + [e] == [e];
      latest := last;
    } else {
      assert (es + [e])[1..] == es[1..] + [e];
      StepTracks(net, g, es[0], k, v, last);
      StepKeeps(net, g, es[0]);
      latest := BusyTracks(net, Step(g, es[0]), es[1..], e, k, v, LastUse(g, es[0], k, last));
    }
  }

  /** Whatever else happens, reconfigurations included, as long as a flow's packets and replies are never further apart
      than its timeout, every packet gets exactly the verdict of the first. */
  lemma BusyFlowKeepsBackend(net: Net, g: Gateway, p: Packet, now: u64, packetHash: u32,
                             es: seq<Event>, later: u64, laterHash: u32)
    requires Inv(net, g) && FromClient(net, KeyOf(p)) && |g.flows| + 2 <= FLOW_MAP_CAPACITY
    requires Ingress(g, p, now, packetHash).1.ToTarget? && KeyOf(p) in Ingress(g, p, now, packetHash).0.flows
    requires var h := Ingress(g, p, now, packetHash).0;
             AdmissibleRun(net, h, es)
             && Busy(h, es + [IngressEvent(p, later, laterHash)], KeyOf(p), h.flows[KeyOf(p)], now)
    ensures Ingress(Run(Ingress(g, p, now, packetHash).0, es), p, later, laterHash).1
         == Ingress(g, p, now, packetHash).1
  {
    var k := KeyOf(p);
    var (h, verdict) := Ingress(g, p, now, packetHash);
    var v := h.flows[k];
    IngressKeeps(net, g, p, now, ChosenTarget(AfterExpiry(g, k, now), p, packetHash));
    ClientKeyIsForward(net, h.flows, k);
    FirstVerdict(net, g, p, now, packetHash);
    var latest := BusyTracks(net, h, es, IngressEvent(p, later, laterHash), k, v, now);
    LiveVerdict(Run(h, es), p, later, laterHash, v, latest);
  }
}
