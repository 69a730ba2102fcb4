/** The gateway datapath as the object that owns the maps. */
module Datapath {
  import opened Words
  import opened Tables
  import opened FlowKeys
  import opened Selection
  import opened TargetSelect
  import opened FlowSteps
  import opened Replication
  import F = FlowInvariant

  /** Entries that name the same flow load the same slot. */
  ghost predicate LoadsAgree(flows: Flows) {
    forall j, k :: j in flows && k in flows && CanonicalPair(j, flows[j]) == CanonicalPair(k, flows[k])
      ==> SlotOf(flows[j]) == SlotOf(flows[k])
  }

  /** The forward entry of the flow an entry belongs to. */
  ghost function ForwardOf(net: F.Net, flows: Flows, k: FlowKey): (f: FlowKey)
    requires F.Paired(net, flows) && k in flows
    ensures f in flows && F.ForwardEntry(net, f, flows[f]) && flows[f] == flows[k]
    ensures CanonicalPair(f, flows[f]) == CanonicalPair(k, flows[k])
  {
    assert F.EntryOk(net, flows, k);
    if k.dst in net.vips then k
    else
      F.PairOfReverse(net, flows, k);
      ForwardFor(k, flows[k])
  }

  /** In every reachable flow map, entries that name the same flow load the same slot. */
  lemma PairedLoadsAgree(net: F.Net, flows: Flows)
    requires F.Paired(net, flows)
    ensures LoadsAgree(flows)
  {
    forall j, k | j in flows && k in flows && CanonicalPair(j, flows[j]) == CanonicalPair(k, flows[k])
      ensures SlotOf(flows[j]) == SlotOf(flows[k])
    {
      var a, b := ForwardOf(net, flows, j), ForwardOf(net, flows, k);
      F.ForwardPairInjective(net, a, flows[a], b, flows[b]);
    }
  }

  ghost function AllPairs(flows: Flows): (s: set<(FlowKey, FlowKey)>) {
    set k | k in flows :: CanonicalPair(k, flows[k])
  }

  /** Counting one more entry: a flow already seen changes nothing, a new one adds one to its slot. */
  lemma RecountOneMore(flows: Flows, k: FlowKey, v: FlowValue)
    requires k !in flows && LoadsAgree(flows[k := v])
    ensures Recount(flows[k := v])
         == if CanonicalPair(k, v) in AllPairs(flows) then Recount(flows) else Raised(Recount(flows), SlotOf(v))
  {
    var m := flows[k := v];
    var expected :=
      if CanonicalPair(k, v) in AllPairs(flows) then Recount(flows) else Raised(Recount(flows), SlotOf(v));
    forall slot
      ensures slot in Recount(m) <==> slot in expected
      ensures slot in expected && slot in Recount(m) ==> Recount(m)[slot] == expected[slot]
    {
      RecountAt(flows, k, v, slot);
    }
  }

  lemma RecountAt(flows: Flows, k: FlowKey, v: FlowValue, slot: SlotKey)
    requires k !in flows && LoadsAgree(flows[k := v])
    ensures var m := flows[k := v];
            var isNew := CanonicalPair(k, v) !in AllPairs(flows);
            (slot in LoadedSlots(m) <==> slot in LoadedSlots(flows) || slot == SlotOf(v))
            && (slot == SlotOf(v) && !isNew ==> slot in LoadedSlots(flows))
            && (slot !in LoadedSlots(flows) ==> LoadOn(flows, slot) == 0)
            && LoadOn(m, slot) == if isNew && slot == SlotOf(v) && LoadOn(flows, slot) < U32_MAX
                                  then LoadOn(flows, slot) + 1 else LoadOn(flows, slot)
  {
    PairsWithOneMore(flows, k, v, slot);
    SeenPairLoadsSlot(flows, k, v);
    assert CanonicalPair(k, v) in PairsOn(flows, SlotOf(v)) <==> CanonicalPair(k, v) in AllPairs(flows);
  }

  /** A flow seen before was counted on the slot it loads now. */
  lemma SeenPairLoadsSlot(flows: Flows, k: FlowKey, v: FlowValue)
    requires k !in flows && LoadsAgree(flows[k := v])
    ensures CanonicalPair(k, v) in AllPairs(flows) ==>
              CanonicalPair(k, v) in PairsOn(flows, SlotOf(v)) && SlotOf(v) in LoadedSlots(flows)
  {
    var m, pair := flows[k := v], CanonicalPair(k, v);
    if pair in AllPairs(flows) {
      var j :| j in flows && CanonicalPair(j, flows[j]) == pair;
      assert m[j] == flows[j] && m[k] == v;
      assert SlotOf(m[j]) == SlotOf(m[k]);
    }
  }

  lemma PairsWithOneMore(flows: Flows, k: FlowKey, v: FlowValue, slot: SlotKey)
    requires k !in flows
    ensures var m := flows[k := v];
            PairsOn(m, slot) == PairsOn(flows, slot) + (if slot == SlotOf(v) then {CanonicalPair(k, v)} else {})
            && (slot in LoadedSlots(m) <==> slot in LoadedSlots(flows) || slot == SlotOf(v))
            && (slot !in LoadedSlots(flows) ==> PairsOn(flows, slot) == {})
  {
    var m := flows[k := v];
    assert m[k] == v && forall j :: j in flows ==> j in m && m[j] == flows[j];
  }

  class Datapath {
    var flows: Flows
    var active: Loads
    var listeners: Listeners
    var targets: Targets
    var buckets: Buckets
    const cursors: array<u32>

    ghost function State(): (g: Gateway)
      reads this, cursors
    {
      Gateway(flows, active, listeners, targets, buckets, cursors[..])
    }

    constructor ()
      ensures fresh(cursors) && cursors.Length == LISTENER_ID_CAPACITY
      ensures flows == map[] && active == map[] && listeners == map[] && targets == map[] && buckets == map[]
    {
      flows, active, listeners, targets, buckets := map[], map[], map[], map[], map[];
      cursors := new u32[LISTENER_ID_CAPACITY](_ => 0);
    }

    method AdjustActiveFlows(slot: SlotKey, delta: int)
      requires delta == 1 || delta == -1
      modifies this`active
      ensures active == if delta == 1 then Raised(old(active), slot) else Lowered(old(active), slot)
    {
      var current := GetOr0(active, slot);
      var next: u32 := if delta < 0 then SaturatingSub(current, 1)
                       else if current == U32_MAX then current else current + 1;
      if next == 0 {
        active := active - {slot};
      } else {
        active := active[slot := next];
      }
    }

    method TakeCursor(listenerId: u32) returns (cursor: u32)
      modifies cursors
      ensures cursor == CursorOf(old(cursors[..]), listenerId)
      ensures cursors[..] == Bumped(old(cursors[..]), listenerId)
    {
      var index := CursorIndex(listenerId);
      if index < cursors.Length {
        cursor := cursors[index];
        cursors[index] := (cursor + 1) % M32;
      } else {
        cursor := 0;
      }
    }

    method SelectTarget(key: FlowKey, listener: ListenerValue, packetHash: u32) returns (targetId: u32)
      modifies cursors
      ensures targetId == Select(old(ViewOf(State())), key, listener, packetHash)
      ensures cursors[..] == CursorsAfter(old(cursors[..]), listener)
    {
      if listener.targetCount == 0 || listener.weightTotal == 0 {
        return MAX_TARGETS_PER_LISTENER;
      }
      var count := SlotCount(listener);
      var id := listener.listenerId;
      if listener.select == SELECT_PRIORITY {
        var cursor := TakeCursor(id);
        targetId := WalkWeights(targets, id, listener.weightTotal, count, cursor);
      } else if listener.select == SELECT_HASH {
        targetId := SlotOrFirst(packetHash % count, id, count);
      } else if listener.select == SELECT_PERSIST {
        var primary := PersistPrimary(key.src, count);
        if Usable(targets, id, primary) {
          return primary;
        }
        targetId := SlotOrFirst(PersistSecondary(key.src, count), id, count);
      } else if listener.select == SELECT_CONSISTENT_HASH {
        var bucket := BucketKey(id, BucketOf(key));
        if bucket in buckets {
          targetId := SlotOrFirst(buckets[bucket], id, count);
        } else {
          targetId := FindFirstUsable(targets, id, count);
        }
      } else if listener.select == SELECT_LC {
        var cursor := TakeCursor(id);
        targetId := ScanLeastConnections(targets, active, id, cursor, count);
      } else {
        var cursor := TakeCursor(id);
        targetId := RotateRoundRobin(targets, id, cursor, count);
      }
    }

    method SlotOrFirst(slot: u32, id: u32, count: u32) returns (targetId: u32)
      requires count <= MAX_TARGETS_PER_LISTENER
      ensures targetId == PreferSlot(targets, id, count, slot)
    {
      if slot < count && Usable(targets, id, slot) {
        return slot;
      }
      targetId := FindFirstUsable(targets, id, count);
    }

    method OpenFlowFor(p: Packet, now: u64, packetHash: u32) returns (verdict: Verdict)
      modifies this`flows, this`active, cursors
      ensures (State(), verdict) == OpenFlow(old(State()), p, now, ChosenTarget(old(State()), p, packetHash))
    {
      var lk := ListenerKeyOf(p);
      if lk !in listeners {
        return Pass;
      }
      var listener := listeners[lk];
      if listener.targetCount == 0 {
        return Pass;
      }
      var targetId := SelectTarget(KeyOf(p), listener, if listener.select == SELECT_HASH then packetHash else 0);
      if targetId >= MAX_TARGETS_PER_LISTENER {
        return Pass;
      }
      var slot := SlotKey(listener.listenerId, targetId);
      if slot !in targets {
        return Pass;
      }
      var target := targets[slot];
      if target.flags % 2 == 0 || target.weight == 0 {
        return Pass;
      }
      var reverse := KeyOf(Packet(target.address, p.src, target.port, p.sport, p.proto));
      var value := FlowValue(listener.listenerId, targetId, p.dst, target.address, SwapBytes(p.dport), target.port,
                             listener.timeoutSecs, now);
      flows := flows[KeyOf(p) := value];
      flows := flows[reverse := value];
      AdjustActiveFlows(slot, 1);
      var rw := Rewrite(p.dst, target.address, p.dport, target.port);
      verdict := ToTarget(RewriteDestination(p, rw), rw, slot);
    }

    method IngressPacket(p: Packet, now: u64, packetHash: u32) returns (verdict: Verdict)
      modifies this`flows, this`active, cursors
      ensures (State(), verdict) == Ingress(old(State()), p, now, packetHash)
    {
      var key := KeyOf(p);
      if key in flows {
        var existing := flows[key];
        var reverse := ReverseFor(key, existing);
        if !FlowExpired(existing, now) {
          var refreshed := existing.(lastSeenNs := now);
          flows := flows[key := refreshed];
          flows := flows[reverse := refreshed];
          var rw := Rewrite(existing.vip, existing.target, p.dport, existing.targetPort);
          return ToTarget(RewriteDestination(p, rw), rw, SlotOf(existing));
        }
        flows := flows - {key};
        flows := flows - {reverse};
        assert flows == old(flows) - {key, reverse};
        AdjustActiveFlows(SlotOf(existing), -1);
      }
      verdict := OpenFlowFor(p, now, packetHash);
    }

    method ReturnPacket(p: Packet, now: u64) returns (verdict: Verdict)
      modifies this`flows, this`active
      ensures (State(), verdict) == Return(old(State()), p, now)
    {
      var key := KeyOf(p);
      if key !in flows {
        return Pass;
      }
      var flow := flows[key];
      var forward := ForwardFor(key, flow);
      if FlowExpired(flow, now) {
        flows := flows - {key};
        flows := flows - {forward};
        assert flows == old(flows) - {key, forward};
        AdjustActiveFlows(SlotOf(flow), -1);
        return Pass;
      }
      var refreshed := flow.(lastSeenNs := now);
      flows := flows[key := refreshed];
      flows := flows[forward := refreshed];
      var rw := Rewrite(flow.target, flow.vip, p.sport, SwapBytes(flow.vipPort));
      verdict := ToClient(RewriteSource(p, rw), rw);
    }

    /** One pass over the flow map in no particular order, then the removals and the recount. */
    method SweepFlows(now: u64, refreshLoads: bool) returns (expired: set<FlowKey>)
      modifies this`flows, this`active
      ensures flows == Unexpired(old(flows), now)
      ensures expired == old(flows).Keys - flows.Keys
      ensures !refreshLoads ==> active == old(active)
      ensures refreshLoads && LoadsAgree(flows) ==> State() == Sweep(old(State()), now, true)
    {
      expired := {};
      var loads: Loads := map[];
      var seen: set<(FlowKey, FlowKey)> := {};
      var todo := flows.Keys;
      ghost var live := Unexpired(flows, now);
      ghost var done: Flows := map[];
      while todo != {}
        invariant todo <= flows.Keys && flows == old(flows) && active == old(active)
        invariant expired == flows.Keys - live.Keys - todo
        invariant done.Keys == live.Keys - todo && forall k :: k in done ==> done[k] == live[k]
        invariant refreshLoads ==> seen == AllPairs(done)
        invariant refreshLoads && LoadsAgree(live) ==> loads == Recount(done)
        decreases todo
      {
        var key :| key in todo;
        todo := todo - {key};
        var value := flows[key];
        if FlowExpired(value, now) {
          expired := expired + {key};
        } else {
          if refreshLoads {
            var pair := CanonicalPair(key, value);
            SeenSoFar(live, done, key);
            if pair !in seen {
              seen := seen + {pair};
              loads := Raised(loads, SlotOf(value));
            }
          }
          done := done[key := value];
        }
      }
      assert done == live;
      RemoveFlows(expired);
      assert flows == live;
      if refreshLoads {
        ReplaceActiveFlows(loads);
      }
    }

    method RemoveFlows(keys: set<FlowKey>)
      modifies this`flows
      ensures flows == old(flows) - keys
    {
      var todo := keys;
      while todo != {}
        invariant todo <= keys && flows == old(flows) - (keys - todo)
        decreases todo
      {
        var key :| key in todo;
        todo := todo - {key};
        flows := flows - {key};
      }
    }

    /** `replace_active_flows`: prune counters without load, then write the rest. */
    method ReplaceActiveFlows(loads: Loads)
      modifies this`active
      ensures active == loads
    {
      var existing := active.Keys;
      while existing != {}
        invariant forall s :: s in active && s !in loads ==> s in existing
        decreases existing
      {
        var slot :| slot in existing;
        existing := existing - {slot};
        if slot !in loads {
          active := active - {slot};
        }
      }
      var todo := loads.Keys;
      while todo != {}
        invariant todo <= loads.Keys && active.Keys <= loads.Keys
        invariant forall s :: s in loads && s !in todo ==> s in active && active[s] == loads[s]
        decreases todo
      {
        var slot :| slot in todo;
        todo := todo - {slot};
        active := active[slot := loads[slot]];
      }
    }

    /** `upsert_flows`; every entry is accepted, applied or not. */
    method UpsertFlows(entries: seq<Entry>) returns (accepted: nat)
      modifies this`flows
      ensures flows == ApplyAll(old(flows), entries) && accepted == |entries|
    {
      accepted := 0;
      for i := 0 to |entries|
        invariant accepted == i && flows == ApplyAll(old(flows), entries[..i])
      {
        var (key, value) := entries[i];
        if Applies(Local(flows, key), value) {
          flows := flows[key := value];
        }
        accepted := accepted + 1;
        assert entries[..i + 1][..i] == entries[..i];
      }
      assert entries[..|entries|] == entries;
    }
  }

  /** The next entry of the pass, in terms of the entries already counted. */
  lemma SeenSoFar(live: Flows, done: Flows, key: FlowKey)
    requires key in live && key !in done
    requires forall k :: k in done ==> k in live && done[k] == live[k]
    ensures var value := live[key];
            AllPairs(done[key := value]) == AllPairs(done) + {CanonicalPair(key, value)}
            && (LoadsAgree(live) ==>
                  Recount(done[key := value])
                  == if CanonicalPair(key, value) in AllPairs(done) then Recount(done)
                     else Raised(Recount(done), SlotOf(value)))
  {
    var value := live[key];
    var m := done[key := value];
    assert m[key] == value && forall j :: j in done ==> m[j] == done[j];
    if LoadsAgree(live) {
      RecountOneMore(done, key, value);
    }
  }
}
