/** Where the first packet of a flow goes: from the configured listeners through the selectors to the verdict. */
module NewFlows {
  import opened Words
  import opened Tables
  import opened Bits
  import opened FlowKeys
  import opened Selection
  import opened TargetSelect
  import opened BucketChoice
  import opened Sync
  import opened ListenerIds
  import opened FlowSteps
  import opened FlowRuns

  // ---- The listener map ------------------------------------------------------------------------

  /** A listener with its id. */
  type Bound = (u32, Listener)

  function KeyFor(l: Listener): (k: ListenerKey) {
    ListenerKey(l.vip, SwapBytes(l.port), l.proto)
  }

  /** Listener `i` answers for VIP, port and protocol, and no later one does. */
  ghost predicate AnswersFor(ids: seq<Bound>, i: int, vip: u32, port: u16, proto: u8) {
    0 <= i < |ids| && ids[i].1.vip == vip && ids[i].1.port == port && ids[i].1.proto == proto
    && forall j :: i < j < |ids| ==> (ids[j].1.vip, ids[j].1.port, ids[j].1.proto) != (vip, port, proto)
  }

  /** The listener map holds the last listener of each key and nothing else. */
  ghost predicate ListenersSynced(listeners: Listeners, ids: seq<Bound>) {
    forall vip: u32, port: u16, proto: u8 ::
      var k := ListenerKey(vip, SwapBytes(port), proto);
      (k in listeners <==> exists i :: AnswersFor(ids, i, vip, port, proto))
      && forall i :: AnswersFor(ids, i, vip, port, proto) ==>
           k in listeners && listeners[k] == ListenerValueOf(ids[i].0, ids[i].1.config)
  }

  /** `sync_listener_map`: write every listener, then remove what is not desired. */
  method SyncListeners(existing: Listeners, ids: seq<Bound>) returns (listeners: Listeners)
    ensures ListenersSynced(listeners, ids)
  {
    listeners := existing;
    var desired: Listeners := map[];
    for i := 0 to |ids|
      invariant ListenersSynced(desired, ids[..i])
      invariant forall k :: k in desired ==> k in listeners && listeners[k] == desired[k]
    {
      var (id, l) := ids[i];
      SyncedOneMore(desired, ids, i);
      desired := desired[KeyFor(l) := ListenerValueOf(id, l.config)];
      listeners := listeners[KeyFor(l) := ListenerValueOf(id, l.config)];
    }
    assert ids[..|ids|] == ids;
    listeners := Replace(listeners, desired);
  }

  lemma SyncedOneMore(desired: Listeners, ids: seq<Bound>, i: nat)
    requires i < |ids| && ListenersSynced(desired, ids[..i])
    ensures ListenersSynced(desired[KeyFor(ids[i].1) := ListenerValueOf(ids[i].0, ids[i].1.config)], ids[..i + 1])
  {
    var l, upto := ids[i].1, ids[..i + 1];
    var next := desired[KeyFor(l) := ListenerValueOf(ids[i].0, l.config)];
    forall vip: u32, port: u16, proto: u8
      ensures var k := ListenerKey(vip, SwapBytes(port), proto);
              (k in next <==> exists j :: AnswersFor(upto, j, vip, port, proto))
              && forall j :: AnswersFor(upto, j, vip, port, proto) ==>
                   k in next && next[k] == ListenerValueOf(upto[j].0, upto[j].1.config)
    {
      var k := ListenerKey(vip, SwapBytes(port), proto);
      SwapBytesInvolutive(port);
      SwapBytesInvolutive(l.port);
      if (l.vip, l.port, l.proto) == (vip, port, proto) {
        assert AnswersFor(upto, i, vip, port, proto);
        assert forall j :: AnswersFor(upto, j, vip, port, proto) ==> j == i;
      } else {
        OtherAnswers(ids, i, vip, port, proto);
        assert k in next <==> k in desired;
      }
    }
  }

  lemma OtherAnswers(ids: seq<Bound>, i: nat, vip: u32, port: u16, proto: u8)
    requires i < |ids| && (ids[i].1.vip, ids[i].1.port, ids[i].1.proto) != (vip, port, proto)
    ensures forall j :: AnswersFor(ids[..i + 1], j, vip, port, proto) <==> AnswersFor(ids[..i], j, vip, port, proto)
  {
    var upto, before := ids[..i + 1], ids[..i];
    forall j
      ensures AnswersFor(upto, j, vip, port, proto) <==> AnswersFor(before, j, vip, port, proto)
    {
      assert upto[i] == ids[i] && forall m :: 0 <= m < i ==> upto[m] == before[m];
    }
  }

  /** A packet finds a listener exactly if one is configured for its VIP, port and protocol, and then with all that
      listener's slots, its selector and its timeout. */
  lemma PacketFindsListener(g: Gateway, ids: seq<Bound>, p: Packet)
    requires ListenersSynced(g.listeners, ids)
    ensures ListenerKeyOf(p) in g.listeners <==> exists i :: AnswersFor(ids, i, p.dst, p.dport, p.proto)
    ensures forall i :: AnswersFor(ids, i, p.dst, p.dport, p.proto) && FitsSlots(ids[i].1.config) ==>
              ListenerKeyOf(p) in g.listeners
              && var found, l := g.listeners[ListenerKeyOf(p)], ids[i].1.config;
                 found.listenerId == ids[i].0 && found.select == l.select
                 && SlotCount(found) == found.targetCount == |l.targets|
                 && found.timeoutSecs == if l.select == 3 then 3 * 60 * 60 else l.inactiveTimeoutSecs
  {
  }

  /** A packet for which no listener is configured passes and changes nothing. */
  lemma StrangersPass(g: Gateway, ids: seq<Bound>, p: Packet, now: u64, packetHash: u32)
    requires ListenersSynced(g.listeners, ids) && KeyOf(p) !in g.flows
    requires forall i :: 0 <= i < |ids| ==>
               (ids[i].1.vip, ids[i].1.port, ids[i].1.proto) != (p.dst, p.dport, p.proto)
    ensures Ingress(g, p, now, packetHash) == (g, Pass)
  {
    PacketFindsListener(g, ids, p);
  }

  // ---- What the selectors do for a new flow ----------------------------------------------------

  /** The listener whose targets a new flow is for. */
  predicate NewFlow(g: Gateway, p: Packet, now: u64, listener: ListenerValue) {
    OpensFlow(g, p, now) && ListenerKeyOf(p) in g.listeners && g.listeners[ListenerKeyOf(p)] == listener
    && Eligible(listener)
  }

  /** The slot number of a forwarded packet, or none. */
  function Slot(verdict: Verdict): (t: u32) {
    if verdict.ToTarget? then verdict.slot.targetId else MAX_TARGETS_PER_LISTENER
  }

  /** The counters as the selector sees them: an expired flow of the packet has been released. */
  function LoadsFor(g: Gateway, p: Packet, now: u64): (active: Loads) {
    AfterExpiry(g, KeyOf(p), now).active
  }

  lemma SlotIsChosen(g: Gateway, p: Packet, now: u64, packetHash: u32, listener: ListenerValue)
    requires NewFlow(g, p, now, listener)
    ensures var view := View(g.targets, g.buckets, LoadsFor(g, p, now), g.cursors);
            Slot(Ingress(g, p, now, packetHash).1)
            == Select(view, KeyOf(p), listener, if listener.select == SELECT_HASH then packetHash else 0)
  {
    NewFlowForwardedIff(g, p, now, packetHash);
    var view := View(g.targets, g.buckets, LoadsFor(g, p, now), g.cursors);
    SelectSound(view, KeyOf(p), listener, if listener.select == SELECT_HASH then packetHash else 0);
  }

  /** `lc`: a new flow goes to a usable target that no usable target undercuts in flows, or passes when all are full. */
  lemma NewFlowLeastLoaded(g: Gateway, p: Packet, now: u64, packetHash: u32, listener: ListenerValue)
    requires NewFlow(g, p, now, listener) && listener.select == SELECT_LC
    requires NoSkip(CursorOf(g.cursors, listener.listenerId), SlotCount(listener))
    ensures var slot, loads := Slot(Ingress(g, p, now, packetHash).1), LoadsFor(g, p, now);
            if AnyOpen(g.targets, loads, listener.listenerId, SlotCount(listener))
            then IsLeastLoaded(g.targets, loads, listener.listenerId, SlotCount(listener), slot)
            else slot == MAX_TARGETS_PER_LISTENER
  {
    SlotIsChosen(g, p, now, packetHash, listener);
    LeastConnectionsChoice(View(g.targets, g.buckets, LoadsFor(g, p, now), g.cursors), KeyOf(p), listener, 0);
  }

  /** `hash`: a new flow goes to the slot its packet hash names, or to the lowest usable one. */
  lemma NewFlowByHash(g: Gateway, p: Packet, now: u64, packetHash: u32, listener: ListenerValue)
    requires NewFlow(g, p, now, listener) && listener.select == SELECT_HASH
    ensures var count := SlotCount(listener);
            Preferred(g.targets, listener.listenerId, count, [packetHash % count],
                      Slot(Ingress(g, p, now, packetHash).1))
  {
    SlotIsChosen(g, p, now, packetHash, listener);
    HashChoice(View(g.targets, g.buckets, LoadsFor(g, p, now), g.cursors), KeyOf(p), listener, packetHash);
  }

  /** `persist`: a new flow goes where the octets of the client address say, whatever its ports and whatever the
      load. */
  lemma NewFlowByClient(g: Gateway, p: Packet, now: u64, packetHash: u32, listener: ListenerValue,
                        a: u8, b: u8, c: u8, d: u8)
    requires NewFlow(g, p, now, listener) && listener.select == SELECT_PERSIST
    requires p.src == a * 0x100_0000 + b * 0x1_0000 + c * 0x100 + d
    ensures var count := SlotCount(listener);
            Preferred(g.targets, listener.listenerId, count, [Xor(d, a) % count, Xor(c, b) % count],
                      Slot(Ingress(g, p, now, packetHash).1))
  {
    SlotIsChosen(g, p, now, packetHash, listener);
    PersistChoice(View(g.targets, g.buckets, LoadsFor(g, p, now), g.cursors), KeyOf(p), listener, 0, a, b, c, d);
  }

  // ---- Consistent hashing ----------------------------------------------------------------------

  /** The maps hold listener `i`, which answers for the packet, hashes consistently and has a serving target. */
  ghost predicate Hashed(g: Gateway, ids: seq<Bound>, i: nat, p: Packet) {
    ListenersSynced(g.listeners, ids) && AnswersFor(ids, i, p.dst, p.dport, p.proto)
    && var (id, l) := ids[i];
       ListenerSynced(g.targets, g.buckets, id, l.config) && l.config.select == SELECT_CONSISTENT_HASH
       && AnyServing(l.config) && RawWeight(l.config, 0) % M32 != 0
  }

  lemma ConsistentDispatch(view: View, key: FlowKey, listener: ListenerValue, packetHash: u32, count: u32)
    requires Eligible(listener) && listener.select == SELECT_CONSISTENT_HASH && SlotCount(listener) == count
    ensures Select(view, key, listener, packetHash)
         == SelectConsistent(view.targets, view.buckets, listener.listenerId, count, key)
  {
  }

  lemma ServingListener(id: u32, l: ConfigListener)
    requires FitsSlots(l) && AnyServing(l) && RawWeight(l, 0) % M32 != 0
    ensures var listener := ListenerValueOf(id, l);
            Eligible(listener) && listener.listenerId == id && listener.select == l.select
            && SlotCount(listener) == |l.targets|
  {
  }

  /** On synced maps the selector itself answers the usable target of maximal score, for every flow. */
  lemma ConsistentChoice(view: View, key: FlowKey, id: u32, l: ConfigListener, packetHash: u32)
    requires ListenerSynced(view.targets, view.buckets, id, l) && l.select == SELECT_CONSISTENT_HASH
    requires AnyServing(l) && RawWeight(l, 0) % M32 != 0
    ensures var slot, score := Select(view, key, ListenerValueOf(id, l), packetHash), ScoreFor(BucketOf(key));
            slot < |l.targets| && Usable(view.targets, id, slot)
            && (forall t: u32 :: t < |l.targets| && Usable(view.targets, id, t) ==>
                  score(view.targets[SlotKey(id, t)]) <= score(view.targets[SlotKey(id, slot)]))
            && IdentityOf(view.targets[SlotKey(id, slot)]) == BackendFor(view.targets, view.buckets, id, l, key)
  {
    ServingListener(id, l);
    ConsistentDispatch(view, key, ListenerValueOf(id, l), packetHash, |l.targets|);
    LookupIsArgMax(view.targets, view.buckets, id, l, key);
  }

  /** `consistent_hash`: a new flow is forwarded to the usable target of maximal score in the bucket of the flow. */
  lemma NewFlowByScore(g: Gateway, ids: seq<Bound>, i: nat, p: Packet, now: u64, packetHash: u32)
    requires Hashed(g, ids, i, p) && OpensFlow(g, p, now)
    ensures var (id, l) := ids[i];
            var verdict, score := Ingress(g, p, now, packetHash).1, ScoreFor(BucketOf(KeyOf(p)));
            verdict.ToTarget? && verdict.slot.listenerId == id && verdict.slot.targetId < |l.config.targets|
            && Usable(g.targets, id, verdict.slot.targetId)
            && (forall t: u32 :: t < |l.config.targets| && Usable(g.targets, id, t) ==>
                  score(g.targets[SlotKey(id, t)]) <= score(g.targets[verdict.slot]))
            && (verdict.out.dst, verdict.out.dport)
               == BackendFor(g.targets, g.buckets, id, l.config, KeyOf(p))
  {
    var (id, l) := ids[i];
    var listener := ListenerValueOf(id, l.config);
    ServingListener(id, l.config);
    assert NewFlow(g, p, now, listener);
    SlotIsChosen(g, p, now, packetHash, listener);
    ConsistentChoice(View(g.targets, g.buckets, LoadsFor(g, p, now), g.cursors), KeyOf(p), id, l.config, 0);
    NewFlowForwardedIff(g, p, now, packetHash);
  }

  /** Two gateways that offer the same backends send the first packet of a client's flow to the same backend, under
      whatever VIP, listener id, slots, load and packet hash each of them sees it. */
  lemma GatewaysForwardAlike(g: Gateway, ids: seq<Bound>, i: nat, p: Packet, now: u64, hash: u32,
                             h: Gateway, jds: seq<Bound>, j: nat, q: Packet, nowH: u64, hashH: u32)
    requires Hashed(g, ids, i, p) && OpensFlow(g, p, now) && Hashed(h, jds, j, q) && OpensFlow(h, q, nowH)
    requires Serving(ids[i].1.config) == Serving(jds[j].1.config) && q == p.(dst := q.dst)
    ensures Ingress(g, p, now, hash).1.ToTarget? && Ingress(h, q, nowH, hashH).1.ToTarget?
    ensures Ingress(g, p, now, hash).1.out == Ingress(h, q, nowH, hashH).1.out
  {
    NewFlowByScore(g, ids, i, p, now, hash);
    NewFlowByScore(h, jds, j, q, nowH, hashH);
    NewFlowForwardedIff(g, p, now, hash);
    NewFlowForwardedIff(h, q, nowH, hashH);
    GatewaysAgree(g.targets, g.buckets, ids[i].0, ids[i].1.config, KeyOf(p),
                  h.targets, h.buckets, jds[j].0, jds[j].1.config, KeyOf(q));
  }
}
