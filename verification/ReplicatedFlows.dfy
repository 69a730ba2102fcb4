/** What replicated pairs do to the pairing and to the counters of the receiving gateway. */
module ReplicatedFlows {
  import opened Words
  import opened Tables
  import opened Counting
  import opened FlowKeys
  import opened Replication
  import opened FlowSteps
  import opened FlowInvariant

  /** The two halves of a pair are applied or not independently of each other. */
  lemma UpsertAt(net: Net, g: Gateway, k: FlowKey, v: FlowValue)
    requires ForwardEntry(net, k, v)
    ensures var r, m := ReverseFor(k, v), Upsert(g, k, v).flows;
            r != k && r.dst !in net.vips
            && Local(m, k) == (if Applies(Local(g.flows, k), v) then Some(v) else Local(g.flows, k))
            && Local(m, r) == (if Applies(Local(g.flows, r), v) then Some(v) else Local(g.flows, r))
            && (forall j :: j != k && j != r ==> Local(m, j) == Local(g.flows, j))
            && m.Keys <= g.flows.Keys + {k, r}
  {
    TwoUpserts(g.flows, (k, v), (ReverseFor(k, v), v));
  }

  /** A reverse entry other than the flow's own keeps its partner through a write to the flow's forward entry. */
  lemma OtherReverseUnaffected(net: Net, g: Gateway, k: FlowKey, j: FlowKey)
    requires Paired(net, g.flows) && j in g.flows && j.dst !in net.vips
    requires ForwardFor(j, g.flows[j]) == k
    ensures TwoWay(g, k) && j == ReverseFor(k, g.flows[k])
  {
    var f := ReverseNamesForward(net, g.flows, j);
  }

  lemma KeepsPairingSuffices(net: Net, g: Gateway, k: FlowKey, v: FlowValue)
    requires Paired(net, g.flows) && ForwardEntry(net, k, v) && KeepsPairing(g, k, v)
    ensures Paired(net, Upsert(g, k, v).flows)
  {
    var r, m := ReverseFor(k, v), Upsert(g, k, v).flows;
    UpsertAt(net, g, k, v);
    DirectionsInverse(k, v);
    forall j | j in m
      ensures EntryOk(net, m, j)
    {
      assert Local(m, j) == Some(m[j]);
      if j == k {
        assert k in g.flows ==> EntryOk(net, g.flows, k);
      } else if j == r && Applies(Local(g.flows, r), v) {
        assert m[r] == v && Local(m, k) == Some(v);
      } else {
        assert Local(g.flows, j) == Some(m[j]);
        UntouchedEntryOk(net, g, k, v, j);
      }
    }
  }

  lemma UntouchedEntryOk(net: Net, g: Gateway, k: FlowKey, v: FlowValue, j: FlowKey)
    requires Paired(net, g.flows) && ForwardEntry(net, k, v) && KeepsPairing(g, k, v)
    requires j != k && j in g.flows && Local(Upsert(g, k, v).flows, j) == Some(g.flows[j])
    requires j == ReverseFor(k, v) ==> !Applies(Local(g.flows, j), v)
    ensures j in Upsert(g, k, v).flows && EntryOk(net, Upsert(g, k, v).flows, j)
  {
    UpsertAt(net, g, k, v);
    assert EntryOk(net, g.flows, j);
    if j.dst !in net.vips {
      var f := ReverseNamesForward(net, g.flows, j);
      if f == k {
        OtherReverseUnaffected(net, g, k, j);
        assert !Applies(Local(g.flows, k), v);
      }
      assert Local(Upsert(g, k, v).flows, f) == Some(g.flows[f]);
    }
  }

  /** A replicated pair keeps every entry paired if and only if, being fresh, it does not move a two-way flow to another
      backend, or, being outdated, its reverse half is not taken on its own. */
  lemma UpsertPairedIff(net: Net, g: Gateway, k: FlowKey, v: FlowValue)
    requires Paired(net, g.flows) && ForwardEntry(net, k, v)
    ensures Paired(net, Upsert(g, k, v).flows) <==> KeepsPairing(g, k, v)
  {
    if KeepsPairing(g, k, v) {
      KeepsPairingSuffices(net, g, k, v);
    } else {
      var r, m := ReverseFor(k, v), Upsert(g, k, v).flows;
      UpsertAt(net, g, k, v);
      DirectionsInverse(k, v);
      assert k in g.flows && EntryOk(net, g.flows, k);
      var stale := if Applies(Local(g.flows, k), v) then ReverseFor(k, g.flows[k]) else r;
      SwapBytesInvolutive(v.targetPort);
      SwapBytesInvolutive(g.flows[k].targetPort);
      DirectionsInverse(k, g.flows[k]);
      assert Local(m, stale) == Some(if Applies(Local(g.flows, k), v) then g.flows[k] else v);
      assert !EntryOk(net, m, stale);
    }
  }

  /** What an unpaired reverse entry costs: after a fresh pair has moved a two-way flow, a reply of the backend it left
      writes its own copy over the forward entry, and the flow goes back there. */
  lemma StaleReplyMovesFlow(net: Net, g: Gateway, k: FlowKey, v: FlowValue, reply: Packet, now: u64)
    requires Paired(net, g.flows) && TwoWay(g, k) && ForwardEntry(net, k, v) && Applies(Local(g.flows, k), v)
    requires (v.target, v.targetPort) != (g.flows[k].target, g.flows[k].targetPort)
    requires KeyOf(reply) == ReverseFor(k, g.flows[k]) && !FlowExpired(g.flows[k], now)
    ensures var h := Upsert(g, k, v);
            var after := Return(h, reply, now).0.flows;
            k in h.flows && h.flows[k] == v && k in after && after[k] == Touched(g.flows[k], now)
  {
    var u := g.flows[k];
    UpsertAt(net, g, k, v);
    assert EntryOk(net, g.flows, k);
    SwapBytesInvolutive(v.targetPort);
    SwapBytesInvolutive(u.targetPort);
    DirectionsInverse(k, u);
    var h := Upsert(g, k, v);
    assert Local(h.flows, k) == Some(v) && Local(h.flows, KeyOf(reply)) == Some(u);
  }

  // ---- Counters --------------------------------------------------------------------------------

  /** The pair leaves every count as it is: outdated, or of a flow that is already counted on that slot. */
  predicate Counted(g: Gateway, k: FlowKey, v: FlowValue) {
    Applies(Local(g.flows, k), v) ==> k in g.flows && SlotOf(g.flows[k]) == SlotOf(v)
  }

  lemma UpsertForwards(net: Net, g: Gateway, k: FlowKey, v: FlowValue, slot: SlotKey)
    requires ForwardEntry(net, k, v)
    ensures ForwardsOn(net, Upsert(g, k, v).flows, slot)
         == if Applies(Local(g.flows, k), v)
            then ForwardsOn(net, g.flows, slot) - {k} + (if SlotOf(v) == slot then {k} else {})
            else ForwardsOn(net, g.flows, slot)
  {
    UpsertAt(net, g, k, v);
    var m := Upsert(g, k, v).flows;
    forall j: FlowKey | j.dst in net.vips
      ensures j != k ==> Local(m, j) == Local(g.flows, j)
      ensures j in m <==> Local(m, j).Some?
      ensures j in g.flows <==> Local(g.flows, j).Some?
    {
    }
  }

  lemma CountedForwards(net: Net, g: Gateway, k: FlowKey, v: FlowValue, slot: SlotKey)
    requires ForwardEntry(net, k, v) && Counted(g, k, v)
    ensures ForwardsOn(net, Upsert(g, k, v).flows, slot) == ForwardsOn(net, g.flows, slot)
  {
    UpsertForwards(net, g, k, v, slot);
  }

  /** Exact counters stay exact under a replicated pair if and only if it is outdated or the flow is already counted on
      the same slot. */
  lemma UpsertExactIff(net: Net, g: Gateway, k: FlowKey, v: FlowValue)
    requires CountersExact(net, g) && ForwardEntry(net, k, v)
    ensures CountersExact(net, Upsert(g, k, v)) <==> Counted(g, k, v)
  {
    var h := Upsert(g, k, v);
    if Counted(g, k, v) {
      forall slot
        ensures ForwardsOn(net, h.flows, slot) == ForwardsOn(net, g.flows, slot)
      {
        CountedForwards(net, g, k, v, slot);
      }
    } else {
      var slot := SlotOf(v);
      UpsertForwards(net, g, k, v, slot);
      assert k !in ForwardsOn(net, g.flows, slot);
      assert |ForwardsOn(net, h.flows, slot)| == |ForwardsOn(net, g.flows, slot)| + 1;
      assert GetOr0(h.active, slot) == |ForwardsOn(net, g.flows, slot)|;
    }
  }

  lemma UpsertCovers(net: Net, g: Gateway, k: FlowKey, v: FlowValue)
    requires CountersCover(net, g) && ForwardEntry(net, k, v) && Counted(g, k, v)
    ensures CountersCover(net, Upsert(g, k, v))
  {
    forall slot
      ensures ForwardsOn(net, Upsert(g, k, v).flows, slot) == ForwardsOn(net, g.flows, slot)
    {
      CountedForwards(net, g, k, v, slot);
    }
  }

  /** An admissible pair keeps the invariant. */
  lemma UpsertKeeps(net: Net, g: Gateway, k: FlowKey, v: FlowValue)
    requires Inv(net, g) && Admissible(net, g, UpsertEvent(k, v))
    ensures Inv(net, Upsert(g, k, v))
  {
    var h := Upsert(g, k, v);
    UpsertPairedIff(net, g, k, v);
    UpsertAt(net, g, k, v);
    SubsetSize(h.flows.Keys, g.flows.Keys + {k, ReverseFor(k, v)});
  }
}
