# edge-lb: a verified model of the load balancer's core

edge-lb is a layer-4 load balancer. A gateway rewrites client packets to a
backend inside the kernel (eBPF), keeps both directions of every flow in one
map, and gets the backend's replies back through a marked return path. User
space programs fill the kernel maps, replicate flows to a second gateway,
discover backends and elect the active gateway.

This project models that core in Dafny and proves what it is meant to
guarantee:

- **Flow datapath** (`FlowKeys`, `FlowSteps`, `FlowInvariant`, `FlowRuns`,
  `FlowLifetime`, `FairRuns`, `Datapath`, `Replication`, `ReplicatedFlows`): the flow map with its
  forward and reverse entries and the per-target counters, as a state machine
  over client packets, replies, sweeps, reconfigurations and replicated pairs.
  Each event is one step. `Datapath` is the same thing as an object whose methods loop and
  update in place.
- **Target selection** (`Tables`, `Selection`, `TargetSelect`, `Rendezvous`,
  `BucketChoice`, `Sync`, `ListenerIds`, `NewFlows`): the six selectors, the 64-bit
  rendezvous hash, the map synchronisation that fills the tables, and what they
  make of the first packet of a flow.
- **Packets** (`Checksum`, `PacketEdit`, `BackendReturn`): DSCP marking, the
  redirect rewrite, and the backend's table of learned requests.
- **Control plane** (`Overlay`, `Registry`, `ReturnPaths`, `Snapshot`,
  `PortMap`, `Pairing`, `Election`): overlay addresses, backend registration,
  combined snapshots and the return-path contract, the port map update, and
  active/backup HA.
- `Words`, `Bits`, `Counting`, `Sorting`, `Names` and `Keyed` are the
  mathematics these rest on.

Machine integers are the subset types of `Words`; wrap-around, saturation and
truncation are written out where the code has them. Exclusive or and shifts
are defined on integers in `Bits`. Clocks, hash values, random nonces, parsed
configuration and the outcome of kernel and network calls are parameters.

Flow events are admissible when they come from the network the gateway is
attached to: a client packet does not carry a VIP or a backend endpoint as its
source, a reply does not carry a VIP as its destination, configured listeners
and targets belong to the network, the flow map has room for one more pair, and
a replicated pair is a client flow of the network that keeps the table paired
(the condition `UpsertPairedIff` proves exact).

## What turned out not to hold

Where a natural guarantee fails, the project shows it and proves the exact
condition under which it holds.

- A sweep that does not recount leaves the counters of expired flows too high:
  `PlainSweepExactIff`. Such a sweep never takes them below the truth
  (`PlainSweepCovers`), and a recounting sweep repairs them
  (`RefreshingSweepExact`).
- A replicated pair is not counted, so counters fall behind unless the flow was
  already counted on that slot (`UpsertExactIff`); a fresh pair that moves a
  two-way flow to another backend, or an outdated one whose reverse half is
  taken alone, leaves an entry without its partner (`UpsertPairedIff`,
  `ReplicationInstance`). A reply on such a reverse entry takes the flow back
  to the backend it left (`StaleReplyMovesFlow`).
- Two flows of one client that reach the same backend through two VIPs share a
  reverse key; replies follow whoever sent last (`ReplyRestoredIff`,
  `SharedReverseKeyFollowsLastSender`, `TwoVipsOneBackend`,
  `SharedReverseKeyInstance`).
- A live backend reply that arrives at the ingress hook is sent back to the
  backend and leaves a stray entry in the table (`ReplyAtIngressIff`,
  `ReplyAtIngressInstance`). An expired one is passed on and leaves no entry,
  but counts its flow down while the forward entry stays, so the counter falls
  below its flows (`ExpiredReplyUncounts`, `IngressExactIff`,
  `ExpiryInstance`). Runs exclude both by taking client packets from clients.
- Round robin and least connections skip a slot when the 32-bit cursor wraps
  and the slot count does not divide 2^32 (`RoundRobinCompleteIff`,
  `RoundRobinVisitsEachOnceIff`, `LeastConnectionsCompleteIff`).
- Weights above 65535 are stored truncated but summed in full, so some picks
  find no target (`SyncedWeightsNeverMissIff`, `ClampedWeightInstance`).
- Replicated entries that tie for the latest time make the result depend on
  order (`OrderIrrelevantIff`, `TiesMakeOrderMatter`).
- A failed checksum store sends a broken header on, unless the TOS byte was
  already the wanted one (`MarkedIntactIff`).
- In an overlay network without hosts for all backends in need, some are left
  at a default address: `AssignmentDistinctIff`, `CrowdedInstance`,
  `MergedAddressesIff`. Even so, normalizing and merging settle at once
  (`AssignmentIdempotent`, `MergeSettles`).
- From the seventh gateway on, two gateways can derive the same mark and table
  (`PeersShareIdsIff`, `SeventhGatewayInstance`).
- Two masters with equal revisions stay both master
  (`EqualRevisionsStayDual`), and a preferred gateway that names neither node
  makes both of them master right after pairing (`PairedMastersIff`).

## Model

| member | source | states |
|---|---|---|
| `Rendezvous.Mix64Injective` | edge-lb-common/src/lib.rs:189-195 | the 64-bit mixer, with its shifts and odd multiplications modulo 2^64, never sends two values to one |
| `Rendezvous.ScoreInjective` | edge-lb-common/src/lib.rs:202-236 | for a fixed bucket, equal scores mean equal target address and port: no ties between different backends |
| `Rendezvous.ScoreTellsBucket` | edge-lb-common/src/lib.rs:230-236 | a backend scores differently in every bucket |
| `Rendezvous.FlowHashInjective` | edge-lb-common/src/lib.rs:213-219 | two clients with the same ports and protocol never share the 32-bit flow hash |
| `Rendezvous.FlowHashTellsPorts` | edge-lb-common/src/lib.rs:213-219 | nor do two flows of one client with different ports |
| `TargetSelect.BucketsBalanced` | edge-lb-common/src/lib.rs:213-224 | each of the 1024 buckets gets exactly 2^22 of the 2^32 client addresses for any ports, and exactly 2^22 of the 2^32 port pairs of any client |
| `BucketChoice.ChooseBest` | edge-lb/src/linux/native_dnat.rs:633-647 | the scan returns the first slot of maximal score, or none for no candidates |
| `BucketChoice.WinnerIgnoresOrder` | edge-lb-common/src/lib.rs:543-570 | the winning backend depends only on the set of candidates, not on slots or their order |
| `BucketChoice.MinimalDisruption` | edge-lb-common/src/lib.rs:573-641 | adding or removing one backend changes a bucket's winner only to or from that backend |
| `Sync.SyncTargets` | edge-lb/src/linux/native_dnat.rs:510-556 | the target map ends with exactly the configured slots of every listener and nothing else; it fails exactly when a listener has too many targets |
| `Sync.SyncBuckets` | edge-lb/src/linux/native_dnat.rs:558-588 | the bucket map ends with exactly the desired entries, or is untouched when a listener does not fit |
| `Sync.BuildBuckets` | edge-lb/src/linux/native_dnat.rs:590-631 | every consistent-hash listener with a serving target has all its buckets filled with their winners, and no other bucket exists |
| `Sync.FillBuckets` | edge-lb/src/linux/native_dnat.rs:600-629 | one listener's buckets are filled with their winners and no other listener's bucket changes |
| `Sync.LookupIsArgMax` | edge-lb-ebpf/src/main.rs:577-598 | after a sync the bucket lookup answers without fallback, with the usable target of maximal score, for every flow |
| `Sync.GatewaysAgree` | edge-lb/src/linux/native_dnat.rs:590-647 | two gateways with the same serving backends, in any slots and under any VIP and listener id, send a client's flow to the same backend |
| `Sync.HealthChangeMovesOnlyItsFlows` | edge-lb/src/linux/native_dnat.rs:590-647 | when one target's health changes, a flow either keeps its backend or moves to or from that target |
| `Sync.SyncedWeightsNeverMissIff` | edge-lb/src/linux/native_dnat.rs:471-477 | after a sync every weighted pick finds a target exactly when the 32-bit total does not exceed the clamped weights; without overflow, exactly when no serving weight exceeds 65535 |
| `Sync.ClampedWeightInstance` | edge-lb/src/linux/native_dnat.rs:471-477 | one target of weight 65536 makes some pick miss |
| `Sync.SyncedWeightedFairness` | edge-lb/src/linux/native_dnat.rs:533-542 | over any run of as many picks as the total weight, across the cursor wrap too if the total divides 2^32, each target is picked exactly as often as its configured weight says, and an unhealthy one never |
| `Selection.FindFirstUsable` | edge-lb-ebpf/src/main.rs:551-563 | the scan finds the lowest usable slot, or none exists |
| `Selection.RotateRoundRobin` | edge-lb-ebpf/src/main.rs:527-549 | the loop over wrapped candidates answers as the specified rotation |
| `Selection.RoundRobinCompleteIff` | edge-lb-ebpf/src/main.rs:527-549 | round robin finds a usable slot for every target table if and only if the cursor does not wrap within one turn or the count divides 2^32 |
| `Selection.RoundRobinVisitsEachOnceIff` | edge-lb-ebpf/src/main.rs:527-549 | with all slots usable, one turn of consecutive cursors, wrapping or not, picks each slot exactly once if and only if the turn does not wrap or the count divides 2^32 |
| `Selection.WalkWeights` | edge-lb-ebpf/src/main.rs:458-485 | the loop that subtracts weights answers as the specified walk |
| `Selection.WeightedNeverMissesIff` | edge-lb-ebpf/src/main.rs:458-485 | no hash misses if and only if the stored total is at most the sum of the stored usable weights |
| `Selection.WeightedFairness` | edge-lb-ebpf/src/main.rs:513-525 | over any total-weight consecutive picks that do not wrap, or wrap with a total dividing 2^32, each slot is picked exactly its weight number of times |
| `Selection.ScanLeastConnections` | edge-lb-ebpf/src/main.rs:600-639 | the scan answers as the specified minimum search |
| `Selection.LeastConnectionsMinimal` | edge-lb-ebpf/src/main.rs:600-639 | without a skipped slot the answer is a usable slot of minimal load, or none when every usable slot is saturated |
| `Selection.LeastConnectionsCompleteIff` | edge-lb-ebpf/src/main.rs:600-639 | the minimum is found for every table and load if and only if the cursor skips no slot |
| `TargetSelect.SelectSound` | edge-lb-ebpf/src/main.rs:419-456 | whatever the selector, cursor, hash and bucket table, the answer is a usable slot of the listener or none |
| `TargetSelect.SelectComplete` | edge-lb-ebpf/src/main.rs:419-456 | which condition on cursor and totals makes each selector answer whenever a target is usable |
| `TargetSelect.NoWeightNoAnswer` | edge-lb-ebpf/src/main.rs:424-433 | a listener without targets or without weight gets no answer |
| `TargetSelect.LeastConnectionsChoice` | edge-lb-ebpf/src/main.rs:419-456 | the `lc` code answers a usable slot no usable slot undercuts, or none when all are saturated |
| `TargetSelect.HashChoice` | edge-lb-ebpf/src/main.rs:487-496 | the `hash` code answers the slot the packet hash names, or the lowest usable one |
| `TargetSelect.PersistChoice` | edge-lb-ebpf/src/main.rs:498-511 | the `persist` code answers by the octets of the client address: outer two, then inner two, then the lowest usable slot |
| `TargetSelect.PersistIgnoresTheRest` | edge-lb-ebpf/src/main.rs:498-511 | nothing but client address and targets counts for `persist` |
| `TargetSelect.RoundRobinChoice` | edge-lb-ebpf/src/main.rs:527-549 | round robin and unknown codes answer the usable slot the rotation reaches first |
| `TargetSelect.WeightedChoice` | edge-lb-ebpf/src/main.rs:513-525 | the `priority` code answers the slot whose share of the total the cursor falls into |
| `NewFlows.SyncListeners` | edge-lb/src/linux/native_dnat.rs:451-508 | the listener map ends with the last listener of each VIP, port and protocol and nothing else |
| `NewFlows.PacketFindsListener` | edge-lb/src/linux/native_dnat.rs:464-493 | a packet finds a listener exactly if one is configured for its VIP, port and protocol, with its id, all its slots, its selector and its timeout |
| `NewFlows.StrangersPass` | edge-lb-ebpf/src/main.rs:196-205 | a packet for which no listener is configured passes and changes nothing |
| `NewFlows.NewFlowLeastLoaded` | edge-lb-ebpf/src/main.rs:600-639 | under `lc` a new flow goes to a usable target of minimal load, or passes when all are full |
| `NewFlows.NewFlowByHash` | edge-lb-ebpf/src/main.rs:487-496 | under `hash` a new flow goes to the slot of its packet hash, or to the lowest usable one |
| `NewFlows.NewFlowByClient` | edge-lb-ebpf/src/main.rs:498-511 | under `persist` a new flow goes where the octets of the client address say |
| `NewFlows.ConsistentChoice` | edge-lb-ebpf/src/main.rs:577-598 | on synced maps the selector itself answers the usable target of maximal score |
| `NewFlows.NewFlowByScore` | edge-lb-ebpf/src/main.rs:577-598 | under `consistent_hash` a new flow is forwarded to that target |
| `NewFlows.GatewaysForwardAlike` | edge-lb/src/linux/native_dnat.rs:590-647 | two gateways that offer the same backends send the first packet of a client's flow to the same backend address and port, whatever VIP, ids, slots, loads and hashes they see |
| `FairRuns.CursorCountsTurns` | edge-lb-ebpf/src/main.rs:513-536 | over every run a cursor counts exactly its own listener's selections modulo 2^32, whatever else happens |
| `FairRuns.PicksFollowCursor` | edge-lb-ebpf/src/main.rs:513-549 | under a fixed configuration the answers a listener gives in a run are those of consecutive cursors |
| `FairRuns.WeightedSharesOverRuns` | edge-lb-ebpf/src/main.rs:513-525 | in any run, as many consecutive weighted selections of a listener as its total weight give each target exactly its weight, interleaved with any other traffic, sweeps and replication |
| `FairRuns.RoundRobinSharesOverRunsIff` | edge-lb-ebpf/src/main.rs:527-549 | in any run, one turn of round-robin selections gives each of the usable slots exactly one new flow if and only if the cursor passes the turn without a skip |
| `ListenerIds.FindId` | edge-lb/src/linux/native_dnat.rs:782-799 | the probe loop returns the first free id from the home position, around the ring |
| `ListenerIds.ProbeSucceeds` | edge-lb/src/linux/native_dnat.rs:769-800 | while fewer than 4096 ids are in use the probe finds one, so the exhaustion error cannot occur |
| `ListenerIds.StableAssignments` | edge-lb/src/linux/native_dnat.rs:769-800 | fails exactly above 4096 listeners; otherwise every listener gets an id in 1..4096 and no two share one |
| `ListenerIds.AssignmentsForgetOrder` | edge-lb/src/linux/native_dnat.rs:769-823 | listeners with distinct keys get the same ids in whatever order they are given |
| `ListenerIds.NoCollisionKeepsHome` | edge-lb/src/linux/native_dnat.rs:769-800 | listeners that start probing at different ids get those ids, whatever other listeners there are |
| `ListenerIds.ProtocolsStartApart` | edge-lb/src/linux/native_dnat.rs:810-823 | a TCP and a UDP listener on one VIP and port never start probing at the same id |
| `ListenerIds.CursorsInBounds` | edge-lb-ebpf/src/main.rs:513-536 | every listener's round-robin counter lies in the counter array and is its own |
| `ListenerIds.AssignedIdsDistinct` | edge-lb/src/linux/native_dnat.rs:451-508 | assigned ids meet what the map synchronisation relies on |
| `FlowKeys.DirectionsInverse` | edge-lb-common/src/lib.rs:154-179 | the forward key of a reverse key is the flow's key again, and the other way round |
| `FlowKeys.KeysTellPackets` | edge-lb-ebpf/src/main.rs:373-382 | every field of a packet is in its flow key |
| `FlowInvariant.IngressKeeps` | edge-lb-ebpf/src/main.rs:123-271 | a client packet keeps pairing, exact counters and covering counters, through refresh, expiry and creation |
| `FlowInvariant.ReturnKeeps` | edge-lb-ebpf/src/main.rs:299-371 | a reply keeps them too |
| `FlowInvariant.SweepPaired` | edge-lb/src/linux/native_dnat.rs:851-887 | a sweep never leaves a reverse entry without its forward entry |
| `FlowInvariant.PairsCountForwards` | edge-lb/src/linux/native_dnat.rs:965-982 | counting canonical pairs over both directions counts each forward entry once |
| `FlowInvariant.RefreshingSweepExact` | edge-lb/src/linux/native_dnat.rs:851-887 | after a recounting sweep each counter is the number of live forward entries of its target |
| `FlowInvariant.PlainSweepCovers` | edge-lb/src/linux/native_dnat.rs:851-887 | without the recount no counter falls below the number of live flows |
| `FlowInvariant.PlainSweepExactIff` | edge-lb/src/linux/native_dnat.rs:851-887 | without the recount exact counters stay exact if and only if no client flow expired |
| `FlowRuns.ReachableStates` | edge-lb-ebpf/src/main.rs:641-659 | in every run from an empty flow map, replication included, all entries are paired; while replicated pairs are of counted flows no counter is below its flows, so the saturating decrement never saturates, and while besides no plain sweep expires a flow all counters are exact |
| `FlowRuns.StepExactIff` | edge-lb-ebpf/src/main.rs:641-659 | exactly which events keep exact counters exact: all but a plain sweep that expires a client flow and a replicated pair of a flow not counted on that slot |
| `FlowRuns.ExactSinceRecount` | edge-lb/src/linux/native_dnat.rs:851-887 | whatever happened before, counters are exact from a recounting sweep on until the next such event |
| `FlowRuns.NoZeroCounters` | edge-lb-ebpf/src/main.rs:651-658 | in every run the counter map holds only slots that are counted |
| `FlowRuns.NewFlowForwardedIff` | edge-lb-ebpf/src/main.rs:196-270 | the first packet of a flow is forwarded exactly when the selector answers, to a usable target of its own listener, counted once, with its checksums updated from the fields it carries; otherwise it passes and leaves flows and counters alone |
| `FlowRuns.ServedListenerForwards` | edge-lb-ebpf/src/main.rs:196-270 | a listener whose selector always answers forwards every new flow |
| `FlowRuns.AffinityOverRuns` | edge-lb-ebpf/src/main.rs:157-189 | across any events, reconfigurations and replicated refreshes included, every packet of a flow that has not idled out goes to the target chosen at its creation |
| `FlowLifetime.PacketRestartsTimeout` | edge-lb-ebpf/src/main.rs:157-164 | a client packet of a live flow marks both entries as seen now, leaves their other fields and all other entries alone, and lets them live for the timeout in seconds from now, no longer |
| `FlowLifetime.ReplyRestartsTimeout` | edge-lb-ebpf/src/main.rs:354-358 | so does a translated reply |
| `FlowLifetime.OpeningStartsTimeout` | edge-lb-ebpf/src/main.rs:236-257 | a new flow lives from its first packet on, by the timeout of its listener |
| `FlowLifetime.NextPacketIff` | edge-lb-ebpf/src/main.rs:157-195 | the next packet repeats the verdict exactly if it comes within the timeout; a later one finds the flow closed and a target is chosen anew |
| `FlowLifetime.BusyFlowKeepsBackend` | edge-lb-ebpf/src/main.rs:157-189 | as long as a flow's packets and replies are never further apart than its timeout, every packet gets exactly the verdict of the first, over any run with other traffic, sweeps, reconfigurations and replicas |
| `FlowRuns.RepliesRestoredOverRuns` | edge-lb-ebpf/src/main.rs:331-370 | as long as no other live flow shares its reverse key, each reply of the flow leaves from the VIP and listener port to the original client, after any run |
| `FlowRuns.RepliesMirrorLiveFlows` | edge-lb-ebpf/src/main.rs:331-370 | a translated reply is always the exact mirror image of some live client flow |
| `FlowRuns.ReplyRestoredIff` | edge-lb-ebpf/src/main.rs:331-370 | a reply returns to its flow's client if and only if the reverse entry still carries that flow |
| `FlowRuns.ForwardedIsTwoWay` | edge-lb-ebpf/src/main.rs:236-267 | a forwarded client packet leaves its own flow able to receive replies |
| `FlowRuns.SharedReverseKeyFollowsLastSender` | edge-lb-ebpf/src/main.rs:157-189 | of two live flows with one reverse key, the one that sent last gets the replies and the other does not |
| `FlowRuns.TwoVipsOneBackend` | edge-lb-ebpf/src/main.rs:236-267 | two packets of one client port to two VIPs in front of one backend always lead there, from a fresh datapath on |
| `FlowRuns.SharedReverseKeyInstance` | edge-lb-ebpf/src/main.rs:236-267 | such a gateway exists |
| `FlowRuns.ReplyAtIngressIff` | edge-lb-ebpf/src/main.rs:157-189 | a live packet at the ingress hook is sent back to its sender if and only if it is a reply, and if and only if it is one the table ends with an unpaired entry from the backend endpoint to itself |
| `FlowRuns.ReplyAtIngressInstance` | edge-lb/src/linux/native_dnat.rs:288-305 | one client packet and the backend's answer at the ingress hook get there |
| `FlowRuns.ExpiredReplyUncounts` | edge-lb-ebpf/src/main.rs:190-195 | an expired reply at the ingress hook is passed on and takes its counter below the flows, the forward entry staying |
| `FlowRuns.IngressExactIff` | edge-lb-ebpf/src/main.rs:123-271 | for every packet with an entry, and no backend on a VIP, the ingress hook keeps exact counters exact if and only if the packet is not an expired reply |
| `FlowRuns.ExpiryInstance` | edge-lb/src/linux/native_dnat.rs:851-887 | one client packet and its expiry get to a counter too high by a plain sweep, and to one too low by the late answer |
| `Datapath.Datapath.IngressPacket` | edge-lb-ebpf/src/main.rs:123-271 | the imperative ingress program takes exactly the specified step, verdict and maps |
| `Datapath.Datapath.SelectTarget` | edge-lb-ebpf/src/main.rs:419-456 | the imperative selector answers and moves the cursor as specified |
| `Datapath.Datapath.ReturnPacket` | edge-lb-ebpf/src/main.rs:299-371 | the imperative return program takes exactly the specified step |
| `Datapath.Datapath.AdjustActiveFlows` | edge-lb-ebpf/src/main.rs:641-659 | one saturating step of one counter; a missing counter counts as zero and one that reaches zero is removed |
| `Datapath.Datapath.TakeCursor` | edge-lb-ebpf/src/main.rs:513-536 | reads the listener's own counter and advances it by one, wrapping at 2^32, and touches no other |
| `Datapath.Datapath.OpenFlowFor` | edge-lb-ebpf/src/main.rs:196-270 | creation writes both entries, raises the chosen target's counter once and rewrites the packet as specified, or changes no flow when no target answers |
| `Datapath.Datapath.RemoveFlows` | edge-lb/src/linux/native_dnat.rs:851-887 | removes exactly the given keys |
| `Datapath.Datapath.SweepFlows` | edge-lb/src/linux/native_dnat.rs:851-887 | one pass in any order removes exactly the expired entries, and its recount is the specified one on every map where entries of a flow agree on their slot |
| `Datapath.PairedLoadsAgree` | edge-lb/src/linux/native_dnat.rs:965-982 | on every reachable flow map, entries of a flow agree on their slot |
| `Datapath.Datapath.ReplaceActiveFlows` | edge-lb/src/linux/native_dnat.rs:988-1013 | the counter map ends as exactly the given counts: stale counters removed, the others written |
| `Datapath.Datapath.UpsertFlows` | edge-lb/src/linux/native_dnat.rs:894-912 | the replication loop applies its entries in order, each only if it is new or strictly fresher than the local copy |
| `Replication.UpsertKeepsFreshest` | edge-lb/src/linux/native_dnat.rs:934-942 | after any batch a key holds an entry that no received or local entry for it outdates |
| `Replication.UpsertReachesMaximum` | edge-lb/src/linux/native_dnat.rs:894-912 | a key's last-seen time never decreases and ends at the maximum of what was there and what came |
| `Replication.OrderIrrelevantIff` | edge-lb/src/linux/native_dnat.rs:894-912 | every order, batching and repetition of the received entries gives the same map if and only if, for each key, all received entries of maximal time that beat the local copy are equal |
| `Replication.UpsertBatches` | edge-lb/src/linux/native_dnat.rs:894-912 | how the entries are split into batches does not matter |
| `Replication.TiesMakeOrderMatter` | edge-lb/src/linux/native_dnat.rs:934-942 | two different entries with one timestamp end differently in the two orders |
| `ReplicatedFlows.UpsertPairedIff` | edge-lb/src/linux/native_dnat.rs:894-912 | a replicated pair keeps all entries paired if and only if, being fresh, it does not move a two-way flow to another backend, or, being outdated, its reverse half is not taken on its own |
| `ReplicatedFlows.UpsertExactIff` | edge-lb/src/linux/native_dnat.rs:894-912 | exact counters stay exact under a replicated pair if and only if it is outdated or the flow is already counted on the same slot |
| `ReplicatedFlows.StaleReplyMovesFlow` | edge-lb-ebpf/src/main.rs:331-370 | after a fresh pair moved a two-way flow, a reply of the backend it left writes the old backend over the forward entry |
| `FlowRuns.ReplicationInstance` | edge-lb/src/linux/native_dnat.rs:894-912 | one client packet and one pair from the peer get to an unpaired entry, or to a counter too low |
| `Checksum.TwoFoldsSuffice` | edge-lb-ebpf/src/redirect_packet.rs:30-40 | two folds of the plain sum are the one's complement sum, for up to 65536 words |
| `Checksum.IncrementalUpdate` | edge-lb-ebpf/src/main.rs:740-745 | changing one half-word and the checksum incrementally neither breaks an intact header nor repairs a broken one |
| `PacketEdit.MarkDscp` | edge-lb-ebpf/src/main.rs:677-734 | exactly the IPv4 TCP and UDP packets to a marked port are marked and every other frame is left alone; a failed first store leaves the frame, a failed second one the new TOS with the old checksum, and a change is counted only if both succeed |
| `PacketEdit.MarkingChangesOnlyTos` | edge-lb-ebpf/src/main.rs:714-730 | marking sets the DSCP, keeps the ECN bits and changes no byte but TOS and checksum |
| `PacketEdit.MarkingKeepsChecksum` | edge-lb-ebpf/src/main.rs:714-730 | an IPv4 header, options included, is intact after marking exactly if it was before |
| `PacketEdit.MarkedIntactIff` | edge-lb-ebpf/src/main.rs:714-730 | for every outcome of the two stores, an intact header goes out intact if and only if the first failed, the second succeeded, or the TOS byte was the wanted one already |
| `PacketEdit.MarkedIffPortListed` | edge-lb-ebpf/src/main.rs:693-730 | for every frame assembled from MAC addresses, an IPv4 header of any legal length, two ports and the rest: it is marked if and only if the second port is listed, with the configured DSCP, or 46 without a usable one, and its old ECN bits |
| `PacketEdit.OnlyFramesAreMarked` | edge-lb-ebpf/src/main.rs:677-707 | a frame that is changed is one of these |
| `PacketEdit.ChecksumOk` | edge-lb-ebpf/src/redirect_packet.rs:30-40 | the summing loop accepts exactly the headers whose one's complement sum is all ones |
| `PacketEdit.Transmit` | edge-lb-ebpf/src/redirect_packet.rs:54-77 | when all writes succeed the frame is the specified one, and success is reported only then |
| `PacketEdit.Forward` | edge-lb-ebpf/src/redirect.rs:48-137 | a packet is passed on untouched exactly if it is not admitted; an admitted one is redirected rewritten, or dropped after a failed write, never passed on half-edited |
| `PacketEdit.AdmittedIff` | edge-lb-common/src/redirect.rs:47-76 | byte by byte: a packet is admitted if and only if it is plain and intact, from a foreign unicast address, and its route is well formed, not expired, and for its address, port, interface and DSCP, with a hop and room left |
| `PacketEdit.TransmitPreserves` | edge-lb-ebpf/src/redirect_packet.rs:54-77 | TTL one lower, new MAC addresses, header intact exactly if it was, and no other byte changed |
| `PacketEdit.ReadHeader` | edge-lb-ebpf/src/redirect_packet.rs:5-42 | a header is returned exactly for a plain, whole, intact IPv4 packet |
| `PacketEdit.ReadableIff` | edge-lb-ebpf/src/redirect_packet.rs:5-42 | byte by byte, which headers those are |
| `PacketEdit.ForwardReturn` | edge-lb-ebpf/src/return_redirect.rs:28-108 | replies are redirected, passed on or dropped under the same all-or-nothing rule |
| `PacketEdit.ReturnAdmittedIff` | edge-lb-ebpf/src/return_redirect.rs:28-108 | a reply is admitted if and only if its header can be read, with a hop left and unicast addresses, and its route is leased, on another interface, without VLAN, between two stations |
| `BackendReturn.SteeredExactlyByLatestRequest` | edge-lb-ebpf/src/backend_redirect.rs:64-149 | over every run, by index: a reply is steered by a contract if and only if the last request with swapped addresses and ports, equal protocol and a complete contract in force for its DSCP is less than three hours old, and that contract was the one in force |
| `BackendReturn.UnannouncedNeverSteered` | edge-lb-ebpf/src/backend_redirect.rs:101-149 | a packet that answers no request, address by address and port by port, is never redirected |
| `BackendReturn.Table.Ingress` | edge-lb-ebpf/src/backend_redirect.rs:64-99 | the imperative learner updates the table as specified |
| `BackendReturn.Table.Egress` | edge-lb-ebpf/src/backend_redirect.rs:101-149 | the imperative steering reads and forgets as specified |
| `Overlay.FindHost` | edge-lb/src/config/normalize.rs:296-304 | the bounded search returns the first free host, stopping where the network ends |
| `Overlay.HostInside` | edge-lb/src/config/overlay.rs:58-78 | the hosts are the addresses strictly between the first and the last of the network the base address lies in |
| `Overlay.SearchSucceedsIff` | edge-lb/src/config/normalize.rs:291-304 | the bounded search finds a host exactly if not all hosts from the second on are used; addresses elsewhere do not count |
| `Overlay.AssignmentDistinctIff` | edge-lb/src/config/normalize.rs:263-306 | for every plan and network, each backend ends with an address of its own, shared with no backend and no gateway, if and only if the hosts not in use after the first pass are enough for the backends in need |
| `Overlay.CrowdedInstance` | edge-lb/src/config/normalize.rs:291-305 | two backends in a network of four addresses do not both get one |
| `Overlay.GatewaysTakeFirstHost` | edge-lb/src/config/normalize.rs:264-281 | a gateway in need takes the first host, if the network has hosts; other gateway settings stay |
| `Overlay.ExplicitKeptIff` | edge-lb/src/config/normalize.rs:283-305 | a backend keeps the address it was given if and only if no gateway has it and no backend before it asks for it |
| `Overlay.RoomyFits` | edge-lb/src/config/overlay.rs:80-92 | a host for each backend beside those gateways take is enough, which is the room the configuration check asks for when no gateway sits on a backend's host |
| `Overlay.SpareAddressesFit` | edge-lb/src/config/overlay.rs:80-92 | four addresses more than gateways and backends together are always enough |
| `Overlay.AssignmentIdempotent` | edge-lb/src/config/normalize.rs:263-306 | normalizing again changes no assignment, with or without room |
| `Overlay.PlacedBackendsStay` | edge-lb/src/config/normalize.rs:263-306 | backends that were placed, or could not be, stay as they are even if the gateways are still unassigned |
| `Overlay.OnlySecondHostNeeds` | edge-lb/src/config/overlay.rs:43-51 | of all hosts given out, only the second can look like an address that still needs assignment |
| `Overlay.Inventory.AssignOverlayIps` | edge-lb/src/config/normalize.rs:263-306 | the three in-place loops compute the specified assignment |
| `Overlay.Inventory.AssignGateways` | edge-lb/src/config/normalize.rs:264-281 | gateways that need an address get the first host, and the addresses in use are collected |
| `Overlay.Inventory.DropTaken` | edge-lb/src/config/normalize.rs:283-289 | an explicit address already taken is given up, every other explicit one is kept and recorded |
| `Overlay.Inventory.PlaceBackends` | edge-lb/src/config/normalize.rs:291-305 | each backend in need gets the first free host in turn |
| `Registry.InventoryIsSubscribed` | edge-lb/src/control/registry.rs:40-45 | in every interleaving of registration, heartbeat, removal, pruning and merging, each node of the inventory has a subscription |
| `Registry.RegistrationSurvives` | edge-lb/src/control/registry.rs:177-204 | a registration outlives every late message of older streams; only its own stream, its silence or a newer registration ends it |
| `Registry.NodeSurvivesIff` | edge-lb/src/control/registry.rs:58-90 | meanwhile its node stays in the inventory if and only if no merge finds its underlay address among the gateways |
| `Registry.RegistrationEnters` | edge-lb/src/control/registry.rs:128-175 | a registration puts the backend into the inventory under its name and addresses, at the overlay address the name had or none, and touches nobody else |
| `Registry.RegisteredIsListedIff` | edge-lb/src/control/registry.rs:58-90 | after a registration and any events that spare it, the backend is in the inventory, and in the configuration the next merge writes, with the address it gave, if and only if no merge took that address for a gateway's |
| `Registry.MergeListsInOrder` | edge-lb/src/control/registry.rs:248-268 | the list a merge writes is in ascending order of names, each once |
| `Registry.HeartbeatRestarts` | edge-lb/src/control/registry.rs:177-192 | after a heartbeat a prune removes the backend exactly if more than 30 seconds have passed since |
| `Registry.BeatingIsListedIff` | edge-lb/src/control/registry.rs:177-192 | a backend whose heartbeats come in time stays registered, and the next merge lists it under the same condition |
| `Registry.RemovalEndsIff` | edge-lb/src/control/registry.rs:194-204 | a removal ends exactly the registration of the stream that asks for it, subscription and node |
| `Registry.ConflictsClearedIff` | edge-lb/src/control/registry.rs:177-192 | reported conflicts are cleared only by a full acknowledgement without any |
| `Registry.GoneStaysGone` | edge-lb/src/control/registry.rs:58-90 | a removed backend does not come back, by merge or late message, before it registers again |
| `Registry.MergeNeverRevives` | edge-lb/src/control/registry.rs:58-90 | a merge keeps exactly the names that are not gateways and leaves the subscriptions alone |
| `Registry.MergeSettles` | edge-lb/src/control/registry.rs:58-90 | one merge makes registry and configuration list the same backends by name with the same addresses, and the next merge changes nothing, with or without room in the overlay network |
| `Registry.MergedAddressesIff` | edge-lb/src/control/registry.rs:58-90 | after a merge the addresses are pairwise different and none a gateway's if and only if the network has hosts for those in need |
| `Registry.MergeStartsFromRecorded` | edge-lb/src/control/registry.rs:248-268 | a merge starts from the address the configuration last recorded for a backend, and from the registry's only for one it does not know |
| `Registry.MergeReportsChange` | edge-lb/src/control/registry.rs:58-90 | a merge that reports no change leaves the configuration alone, and one that changes the list reports it |
| `Registry.BackendRegistry.UpsertBackend` | edge-lb/src/control/registry.rs:128-175 | a request without a usable underlay address changes nothing; any other replaces the registration and keeps the overlay the name has |
| `Registry.BackendRegistry.TouchBackend` | edge-lb/src/control/registry.rs:177-192 | only the current stream refreshes, and only a full acknowledgement clears conflicts |
| `Registry.BackendRegistry.RemoveBackend` | edge-lb/src/control/registry.rs:194-204 | only the current stream removes, subscription and node together |
| `Registry.BackendRegistry.PruneExpired` | edge-lb/src/control/registry.rs:221-234 | one pass removes exactly the subscriptions silent for more than 30 seconds, with their nodes |
| `Registry.BackendRegistry.MergeInto` | edge-lb/src/control/registry.rs:58-90 | the merge loops compute the specified registry, configuration and changed flag |
| `Registry.BackendRegistry.Inventory` | edge-lb/src/control/registry.rs:248-268 | the inventory holds each known node once, by name, with the overlay the configuration records |
| `ReturnPaths.IdsTellSlotAndDscp` | edge-lb/src/config/model.rs:183-193 | equal marks, and equal tables, mean equal clamped slot and equal DSCP |
| `ReturnPaths.IdsInRange` | edge-lb/src/config/model.rs:158-193 | each of the six slots has 64 marks and 64 tables of its own within the derived ranges |
| `ReturnPaths.SlotIsRank` | edge-lb/src/config/model.rs:198-209 | a gateway's slot is the number of distinct smaller addresses, whatever the order and repetition of the list |
| `ReturnPaths.PeersShareIdsIff` | edge-lb/src/config/model.rs:183-209 | two gateways with the same peers share a mark or table only past the sixth and with equal DSCPs |
| `ReturnPaths.SeventhGatewayInstance` | edge-lb/src/config/model.rs:183-209 | of seven gateways the last two share mark and table |
| `ReturnPaths.Validate` | edge-lb/src/config/return_contract.rs:9-41 | one pass accepts exactly the lists whose DSCPs, marks and tables are in range and pairwise distinct |
| `ReturnPaths.DerivedContract` | edge-lb/src/config/return_contract.rs:9-41 | derived paths pass exactly when their DSCPs are in 1..63 and pairwise distinct |
| `Snapshot.CombineGatewayResponses` | edge-lb/src/control/snapshot.rs:110-171 | the loops with their key sets compute the specified combination, or fail when no response has a snapshot |
| `Snapshot.CombinedForgetsOrder` | edge-lb/src/control/snapshot.rs:119-123 | with one response per gateway the combined response does not depend on the order of arrival |
| `Snapshot.CombinedLosesNothing` | edge-lb/src/control/snapshot.rs:135-163 | every received gateway node and path is there up to its key, none twice, and nothing else |
| `Snapshot.CombinedPathsByField` | edge-lb/src/control/snapshot.rs:148-160 | every received path is there by addresses, DSCP, mark and table, and no two agree on all of them |
| `Snapshot.CombinedNodesByField` | edge-lb/src/control/snapshot.rs:142-147 | likewise every received gateway node by address and name |
| `Snapshot.CombinedVersionAndNetwork` | edge-lb/src/control/snapshot.rs:119-168 | the version digests all received versions, each as often as it came, in ascending order; the network is that of the response with the least gateway address |
| `Snapshot.CombinedContractIff` | edge-lb/src/control/snapshot.rs:110-171 | the combined derived paths pass the return-path contract exactly if all DSCPs are in range and no two different paths share one |
| `PortMap.Validate` | edge-lb/src/linux/dscp.rs:265-282 | accepts exactly a DSCP below 64 with at most 16 different ports in 1..65535 |
| `PortMap.Kernel.WritePorts` | edge-lb/src/linux/dscp.rs:284-314 | after every single write the keys contain all common ports and lie within old and new; success leaves exactly the new ports; a failed insert that rolls back leaves exactly the old keys; without faults it succeeds while there is room for all old and new ports, and it succeeds only if there was room for the last new one |
| `PortMap.Kernel.InsertMissing` | edge-lb/src/linux/dscp.rs:291-309 | inserts every port not already stored as 1 and knows which keys it added |
| `PortMap.Kernel.Rollback` | edge-lb/src/linux/dscp.rs:297-303 | removes only what was inserted, and reports whether all of it went |
| `PortMap.Kernel.RemoveOthers` | edge-lb/src/linux/dscp.rs:310-313 | removes only ports no longer wanted, up to the first failure |
| `PortMap.CapacityDecides` | edge-lb/src/linux/dscp.rs:289-291 | with the map's capacity the conditions for success and for failure meet: an update with new ports succeeds exactly if old and new ports together are at most 32 |
| `PortMap.CapacityIsRoom` | edge-lb/src/linux/dscp.rs:289-291 | a capacity of 32 is room for any update between two sets of at most 16 |
| `PortMap.BetweenFits` | edge-lb/src/linux/dscp.rs:289-291 | no reader ever finds more than 32 keys |
| `Pairing.PairingAgrees` | edge-lb/src/runtime/ha.rs:506-555 | for every configuration both sides accept, both record the same active gateway: the preferred one, or else the asking gateway if its index is 0 and the other one otherwise |
| `Pairing.ReceiverAcceptsIff` | edge-lb/src/runtime/ha.rs:506-537 | what the asking side accepts, the other accepts exactly if the asking side's own addresses are well formed |
| `Pairing.AcceptedPair` | edge-lb/src/runtime/ha.rs:526-591 | an accepted pairing is of two named gateways with addresses, DSCPs and networks of their own, no address in both, on one overlay, and enables the configuration with exactly that peer |
| `Pairing.ValidPairSymmetric` | edge-lb/src/runtime/ha.rs:557-591 | both sides judge the pair of identities alike |
| `Pairing.OverlapsIff` | edge-lb/src/runtime/ha.rs:683-695 | two networks are found to overlap exactly if some address is in both |
| `Pairing.PairedPathsPass` | edge-lb/src/runtime/ha.rs:557-591 | what accepted gateways derive from their DSCPs passes the return-path contract together exactly if both DSCPs are in range |
| `Election.PairedMastersIff` | edge-lb/src/config/mod.rs:181-256 | with the same key on both nodes exactly one is master if and only if the key names one of them; otherwise both are |
| `Election.StartupNeverDual` | edge-lb/src/runtime/bfd.rs:402-432 | from agreeing records, no run of down elections with reachable control planes and no peer seen up makes both nodes master |
| `Election.DownElectionDualIff` | edge-lb/src/runtime/bfd.rs:256-357 | by whom agreeing records name: exactly when one completed down election on each node leaves both master |
| `Election.OnlyDownPromotes` | edge-lb/src/runtime/bfd.rs:402-432 | in every run without a down session nobody becomes master, and one still negotiating changes nothing |
| `Election.LaterPromotionOutranks` | edge-lb/src/runtime/bfd.rs:311-357 | a gateway that becomes master by a clock past its peer's revision outranks the peer |
| `Election.LowerRevisionYields` | edge-lb/src/runtime/bfd.rs:276-310 | in every healthy run the master with the higher revision stays, and the other is master no longer once it has adopted |
| `Election.EqualRevisionsStayDual` | edge-lb/src/runtime/bfd.rs:468-494 | equal revisions never resolve while the session is healthy |
| `Election.DoubleMastershipResolvesIff` | edge-lb/src/runtime/bfd.rs:456-494 | a healthy run in which both nodes can adopt ends with exactly one master, the one of higher revision, if and only if the revisions differ |

## Left out

- Parsing and I/O: packets, configuration files, JSON and protocol messages reach the model already parsed; the HTTP API, the UI, the CLI, the database and netlink are not modelled.
- Concurrency inside the kernel: each packet program and each sweep is one step, so lost updates of the non-atomic counters and interleavings inside one program are not modelled.
- Eviction: the flow map and the learned-request table are LRU maps in the kernel; the model stays within capacity and never evicts.
- IPv6: addresses are IPv4; the code takes IPv6 for underlay addresses in places.
- Transport checksums: the kernel helpers that fix layer 3 and 4 checksums on address rewriting are represented by the rewrite they are given, not by their effect on bytes.
- Statistics, ring-buffer flow events and logging.
- Redirect neighbour resolution, lease renewal and attachment of programs to interfaces.
- BFD packet coding, HMAC, the session state machine and its timers; SHA-256 is a parameter.
- HA role effects: binding the VIP, gratuitous ARP and hooks succeed or fail as a parameter of an election event.
- Manual and coordinated switchover, and the peer's answer to it beyond its own record.
- Normalization beyond overlay addresses: role sections, defaults, the local node entry and the legacy single-backend entry; overlay networks of prefix 0.
- Flow deletion messages of the replication protocol.
- Visiting order: loops over sets and maps take keys in an arbitrary order where the code takes them in key or hash order; the results do not depend on it.
- The two locks of a registry merge: pruning and merging are separate steps of a run, as they lock separately; the inside of each is one step.
- NewFlows.SyncListeners: does not model a full kernel map; the source's insert fails while more than 4096 old and new listeners are in the map.
- Sync.SyncTargets: does not model a full kernel map; the source's insert fails beyond 16384 targets.
- Sync.SyncBuckets: does not model a full kernel map; the source's insert fails beyond 262144 buckets.
- Partial replication: the two halves of a replicated flow arrive together in a run; a half alone is covered only by the laws of `Replication`.
- Health between two maps: one observation of target health fills listener, target and bucket maps; the source observes anew for each map (edge-lb/src/linux/native_dnat.rs:461, 520, 572), so a change in between makes a bucket lookup fall back until the next sync.
