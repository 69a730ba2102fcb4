/** From configured listeners to the datapath maps, and what the selectors then do. */
module Sync {
  import opened Words
  import opened Tables
  import opened FlowKeys
  import opened Selection
  import opened TargetSelect
  import opened BucketChoice

  /** A configured target; `active` is its configured state joined with the observed health. */
  datatype ConfigTarget = ConfigTarget(address: u32, port: u16, weight: u32, active: bool)

  datatype ConfigListener = ConfigListener(select: u32, inactiveTimeoutSecs: u32, targets: seq<ConfigTarget>)

  /** A listener with the id it was assigned. */
  type Assigned = (u32, ConfigListener)

  const DEFAULT_PERSIST_TIMEOUT_SECS: u32 := 10_800

  /** The value stored for a target: the weight is clamped to 16 bits. */
  function Stored(t: ConfigTarget): (v: TargetValue) {
    TargetValue(t.address, t.port, if t.weight < 0xffff then t.weight else 0xffff, 1)
  }

  ghost predicate DistinctIds(ids: seq<Assigned>) {
    forall i, j :: 0 <= i < j < |ids| ==> ids[i].0 != ids[j].0
  }

  /** `validate_listener_target_count`. */
  predicate FitsSlots(l: ConfigListener) {
    |l.targets| <= MAX_TARGETS_PER_LISTENER
  }

  // ---- Targets ---------------------------------------------------------------------------------

  /** What the target map holds for the first `count` targets of one listener. */
  ghost predicate TargetsMatch(targets: Targets, id: u32, l: ConfigListener, count: nat) {
    forall t: u32 :: (SlotKey(id, t) in targets <==> t < count && t < |l.targets| && l.targets[t].active)
                  && (SlotKey(id, t) in targets ==> targets[SlotKey(id, t)] == Stored(l.targets[t]))
  }

  /** The target map holds the active targets of the listeners and nothing else. */
  ghost predicate TargetsSynced(targets: Targets, ids: seq<Assigned>) {
    (forall i :: 0 <= i < |ids| ==> TargetsMatch(targets, ids[i].0, ids[i].1, |ids[i].1.targets|))
    && (forall k :: k in targets ==> exists i :: 0 <= i < |ids| && ids[i].0 == k.listenerId)
  }

  /** `sync_target_map`: write every active target, then remove what is not desired; too many targets fail. */
  method SyncTargets(existing: Targets, ids: seq<Assigned>) returns (ok: bool, targets: Targets)
    requires DistinctIds(ids)
    ensures ok <==> forall i :: 0 <= i < |ids| ==> FitsSlots(ids[i].1)
    ensures ok ==> TargetsSynced(targets, ids)
  {
    targets := existing;
    var desired: Targets := map[];
    for i := 0 to |ids|
      invariant forall j :: 0 <= j < i ==> FitsSlots(ids[j].1)
      invariant TargetsSynced(desired, ids[..i])
      invariant forall k :: k in desired ==> k in targets && targets[k] == desired[k]
    {
      var (id, l) := ids[i];
      if !FitsSlots(l) {
        return false, targets;
      }
      UnusedId(desired, ids, i);
      ghost var before := desired;
      for t := 0 to |l.targets|
        invariant TargetsMatch(desired, id, l, t)
        invariant forall k: SlotKey :: k.listenerId != id ==>
                    (k in desired <==> k in before) && (k in before ==> k in desired && desired[k] == before[k])
        invariant forall k :: k in desired ==> k in targets && targets[k] == desired[k]
      {
        if l.targets[t].active {
          desired := desired[SlotKey(id, t) := Stored(l.targets[t])];
          targets := targets[SlotKey(id, t) := Stored(l.targets[t])];
        }
      }
      SyncedOneMore(before, desired, ids, i);
    }
    assert ids[..|ids|] == ids;
    targets := Replace(targets, desired);
    ok := true;
  }

  /** No earlier listener wrote under the next listener's id. */
  lemma UnusedId(targets: Targets, ids: seq<Assigned>, i: nat)
    requires i < |ids| && DistinctIds(ids) && TargetsSynced(targets, ids[..i])
    ensures TargetsMatch(targets, ids[i].0, ids[i].1, 0)
  {
    forall k | k in targets
      ensures k.listenerId != ids[i].0
    {
      var j :| 0 <= j < |ids[..i]| && ids[..i][j].0 == k.listenerId;
      assert ids[j].0 != ids[i].0;
    }
  }

  lemma OwnerGrows(ids: seq<Assigned>, i: nat, id: u32)
    requires i < |ids|
    requires id == ids[i].0 || exists j :: 0 <= j < |ids[..i]| && ids[..i][j].0 == id
    ensures var upto := ids[..i + 1];
            exists j :: 0 <= j < |upto| && upto[j].0 == id
  {
    var upto := ids[..i + 1];
    if id == ids[i].0 {
      assert upto[i].0 == id;
    } else {
      var j :| 0 <= j < |ids[..i]| && ids[..i][j].0 == id;
      assert upto[j].0 == id;
    }
  }

  lemma SyncedOneMore(before: Targets, after: Targets, ids: seq<Assigned>, i: nat)
    requires i < |ids| && DistinctIds(ids) && TargetsSynced(before, ids[..i])
    requires TargetsMatch(after, ids[i].0, ids[i].1, |ids[i].1.targets|)
    requires forall k: SlotKey :: k.listenerId != ids[i].0 ==>
               (k in after <==> k in before) && (k in before ==> k in after && after[k] == before[k])
    ensures TargetsSynced(after, ids[..i + 1])
  {
    var upto := ids[..i + 1];
    forall j | 0 <= j < |upto|
      ensures TargetsMatch(after, upto[j].0, upto[j].1, |upto[j].1.targets|)
    {
      if j < i {
        assert ids[..i][j] == upto[j] == ids[j];
        assert TargetsMatch(before, ids[j].0, ids[j].1, |ids[j].1.targets|);
        assert ids[j].0 != ids[i].0;
      }
    }
    forall k | k in after
      ensures exists j :: 0 <= j < |upto| && upto[j].0 == k.listenerId
    {
      OwnerGrows(ids, i, k.listenerId);
    }
  }

  // ---- Buckets ---------------------------------------------------------------------------------

  /** The slots that compete for buckets, from slot `t` on. */
  function CandidatesFrom(l: ConfigListener, t: nat): (cs: Candidates)
    requires t <= |l.targets| <= MAX_TARGETS_PER_LISTENER
    ensures forall i :: 0 <= i < |cs| ==>
              t <= cs[i].0 < |l.targets| && cs[i].1 == Stored(l.targets[cs[i].0])
              && l.targets[cs[i].0].active && l.targets[cs[i].0].weight != 0
    decreases |l.targets| - t
  {
    if t == |l.targets| then []
    else
      var rest := CandidatesFrom(l, t + 1);
      if l.targets[t].active && l.targets[t].weight != 0 then [(t, Stored(l.targets[t]))] + rest else rest
  }

  lemma {:induction false} CandidatesComplete(l: ConfigListener, t: nat, s: nat)
    requires t <= s < |l.targets| <= MAX_TARGETS_PER_LISTENER
    requires l.targets[s].active && l.targets[s].weight != 0
    ensures (s, Stored(l.targets[s])) in CandidatesFrom(l, t)
    decreases |l.targets| - t
  {
    if t < s {
      CandidatesComplete(l, t + 1, s);
    }
  }

  /** The loop of `desired_consistent_hash_buckets` that collects the candidates. */
  method CollectCandidates(l: ConfigListener) returns (cs: Candidates)
    requires FitsSlots(l)
    ensures cs == CandidatesFrom(l, 0)
  {
    cs := [];
    for t := 0 to |l.targets|
      invariant cs + CandidatesFrom(l, t) == CandidatesFrom(l, 0)
    {
      if l.targets[t].active && l.targets[t].weight != 0 {
        assert cs + CandidatesFrom(l, t) == (cs + [(t, Stored(l.targets[t]))]) + CandidatesFrom(l, t + 1);
        cs := cs + [(t, Stored(l.targets[t]))];
      }
    }
    assert cs + [] == cs;
  }

  /** The bucket map holds, for the buckets below `count`, the best candidate under the bucket's score and nothing
      else. */
  ghost predicate FilledBy(buckets: Buckets, id: u32, scores: u32 -> TargetValue -> u64, cs: Candidates, count: nat)
    requires cs != []
  {
    forall b: u32 :: (BucketKey(id, b) in buckets <==> b < count)
                  && (BucketKey(id, b) in buckets ==> buckets[BucketKey(id, b)] == cs[ArgMax(scores(b), cs)].0)
  }

  /** What the bucket map holds for one listener. */
  ghost predicate BucketsMatch(buckets: Buckets, id: u32, l: ConfigListener)
    requires FitsSlots(l)
  {
    var cs := CandidatesFrom(l, 0);
    if l.select != SELECT_CONSISTENT_HASH || cs == [] then forall k :: k in buckets ==> k.listenerId != id
    else FilledBy(buckets, id, ScoreFor, cs, CONSISTENT_HASH_BUCKETS)
  }

  /** The entries of other listeners are left alone. */
  ghost predicate SameElsewhere(before: Buckets, after: Buckets, id: u32) {
    forall k: BucketKey :: k.listenerId != id ==>
      (k in after <==> k in before) && (k in before && k in after ==> after[k] == before[k])
  }

  method FillFrom(buckets: Buckets, id: u32, scores: u32 -> TargetValue -> u64, cs: Candidates) returns (r: Buckets)
    requires cs != [] && forall k :: k in buckets ==> k.listenerId != id
    ensures FilledBy(r, id, scores, cs, CONSISTENT_HASH_BUCKETS) && SameElsewhere(buckets, r, id)
  {
    r := buckets;
    for b := 0 to CONSISTENT_HASH_BUCKETS
      invariant FilledBy(r, id, scores, cs, b) && SameElsewhere(buckets, r, id)
    {
      var slot := ChooseBest(scores(b), cs);
      if slot.Some? {
        r := r[BucketKey(id, b) := slot.value];
      }
    }
  }

  /** `desired_consistent_hash_buckets` for one listener. */
  method FillBuckets(buckets: Buckets, id: u32, l: ConfigListener) returns (r: Buckets)
    requires FitsSlots(l) && forall k :: k in buckets ==> k.listenerId != id
    ensures BucketsMatch(r, id, l) && SameElsewhere(buckets, r, id)
  {
    if l.select != SELECT_CONSISTENT_HASH {
      return buckets;
    }
    var cs := CollectCandidates(l);
    if cs == [] {
      return buckets;
    }
    r := FillFrom(buckets, id, ScoreFor, cs);
  }

  /** The bucket map holds the winners of every consistent-hash listener. */
  ghost predicate BucketsSynced(buckets: Buckets, ids: seq<Assigned>) {
    (forall i :: 0 <= i < |ids| ==> FitsSlots(ids[i].1) && BucketsMatch(buckets, ids[i].0, ids[i].1))
    && (forall k :: k in buckets ==> exists i :: 0 <= i < |ids| && ids[i].0 == k.listenerId)
  }

  /** `desired_consistent_hash_buckets`. */
  method BuildBuckets(ids: seq<Assigned>) returns (r: Option<Buckets>)
    requires DistinctIds(ids)
    ensures r.Some? <==> forall i :: 0 <= i < |ids| ==> FitsSlots(ids[i].1)
    ensures r.Some? ==> BucketsSynced(r.value, ids)
  {
    var desired: Buckets := map[];
    for i := 0 to |ids|
      invariant forall j :: 0 <= j < i ==> FitsSlots(ids[j].1)
      invariant BucketsSynced(desired, ids[..i])
    {
      if !FitsSlots(ids[i].1) {
        return None;
      }
      UnusedBucketId(desired, ids, i);
      var next := FillBuckets(desired, ids[i].0, ids[i].1);
      BucketsOneMore(desired, next, ids, i);
      desired := next;
    }
    assert ids[..|ids|] == ids;
    r := Some(desired);
  }

  /** Writing every desired entry and then removing the others leaves exactly the desired map. */
  method Replace<K, V>(existing: map<K, V>, desired: map<K, V>) returns (r: map<K, V>)
    ensures r == desired
  {
    r := existing + desired;
    r := map k | k in r && k in desired :: r[k];
  }

  /** `sync_consistent_hash_bucket_map`. */
  method SyncBuckets(existing: Buckets, ids: seq<Assigned>) returns (ok: bool, buckets: Buckets)
    requires DistinctIds(ids)
    ensures ok <==> forall i :: 0 <= i < |ids| ==> FitsSlots(ids[i].1)
    ensures if ok then BucketsSynced(buckets, ids) else buckets == existing
  {
    var desired := BuildBuckets(ids);
    if desired.None? {
      return false, existing;
    }
    buckets := Replace(existing, desired.value);
    ok := true;
  }

  lemma UnusedBucketId(buckets: Buckets, ids: seq<Assigned>, i: nat)
    requires i < |ids| && DistinctIds(ids) && BucketsSynced(buckets, ids[..i])
    ensures forall k :: k in buckets ==> k.listenerId != ids[i].0
  {
    forall k | k in buckets
      ensures k.listenerId != ids[i].0
    {
      var j :| 0 <= j < |ids[..i]| && ids[..i][j].0 == k.listenerId;
      assert ids[j].0 != ids[i].0;
    }
  }

  lemma BucketsOneMore(before: Buckets, after: Buckets, ids: seq<Assigned>, i: nat)
    requires i < |ids| && DistinctIds(ids) && BucketsSynced(before, ids[..i])
    requires FitsSlots(ids[i].1) && BucketsMatch(after, ids[i].0, ids[i].1) && SameElsewhere(before, after, ids[i].0)
    ensures BucketsSynced(after, ids[..i + 1])
  {
    var upto := ids[..i + 1];
    forall j | 0 <= j < |upto|
      ensures FitsSlots(upto[j].1) && BucketsMatch(after, upto[j].0, upto[j].1)
    {
      assert upto[j] == ids[j];
      if j < i {
        EarlierMatch(before, after, ids, i, j);
      }
    }
    forall k | k in after
      ensures exists j :: 0 <= j < |upto| && upto[j].0 == k.listenerId
    {
      OwnerGrows(ids, i, k.listenerId);
    }
  }

  lemma EarlierMatch(before: Buckets, after: Buckets, ids: seq<Assigned>, i: nat, j: nat)
    requires j < i < |ids| && DistinctIds(ids) && BucketsSynced(before, ids[..i])
    requires SameElsewhere(before, after, ids[i].0)
    ensures FitsSlots(ids[j].1) && BucketsMatch(after, ids[j].0, ids[j].1)
  {
    assert ids[..i][j] == ids[j];
    MatchElsewhere(before, after, ids[i].0, ids[j].0, ids[j].1);
  }

  lemma MatchElsewhere(before: Buckets, after: Buckets, changed: u32, id: u32, l: ConfigListener)
    requires SameElsewhere(before, after, changed) && id != changed && FitsSlots(l) && BucketsMatch(before, id, l)
    ensures BucketsMatch(after, id, l)
  {
  }

  // ---- Consistent hashing after a sync ---------------------------------------------------------

  /** The maps of one listener as a sync leaves them. */
  ghost predicate ListenerSynced(targets: Targets, buckets: Buckets, id: u32, l: ConfigListener) {
    FitsSlots(l) && TargetsMatch(targets, id, l, |l.targets|) && BucketsMatch(buckets, id, l)
  }

  /** Some target is active with a weight. */
  predicate AnyServing(l: ConfigListener) {
    exists t :: 0 <= t < |l.targets| && l.targets[t].active && l.targets[t].weight != 0
  }

  lemma UsableIffServing(targets: Targets, id: u32, l: ConfigListener, t: u32)
    requires TargetsMatch(targets, id, l, |l.targets|) && t < |l.targets|
    ensures Usable(targets, id, t) <==> l.targets[t].active && l.targets[t].weight != 0
    ensures Usable(targets, id, t) ==> targets[SlotKey(id, t)] == Stored(l.targets[t])
  {
  }

  /** The best candidate is a usable slot, and no usable slot scores higher. */
  lemma BestCandidateIsBestSlot(targets: Targets, id: u32, l: ConfigListener, score: TargetValue -> u64)
    requires FitsSlots(l) && TargetsMatch(targets, id, l, |l.targets|) && AnyServing(l)
    ensures var cs := CandidatesFrom(l, 0);
            cs != []
            && var slot := cs[ArgMax(score, cs)].0;
            slot < |l.targets| && Usable(targets, id, slot)
            && targets[SlotKey(id, slot)] == cs[ArgMax(score, cs)].1
            && forall t: u32 :: t < |l.targets| && Usable(targets, id, t) ==>
                 score(targets[SlotKey(id, t)]) <= score(targets[SlotKey(id, slot)])
  {
    var cs := CandidatesFrom(l, 0);
    var s :| 0 <= s < |l.targets| && l.targets[s].active && l.targets[s].weight != 0;
    CandidatesComplete(l, 0, s);
    var slot := cs[ArgMax(score, cs)].0;
    UsableIffServing(targets, id, l, slot);
    forall t: u32 | t < |l.targets| && Usable(targets, id, t)
      ensures score(targets[SlotKey(id, t)]) <= score(targets[SlotKey(id, slot)])
    {
      UsableIffServing(targets, id, l, t);
      CandidatesComplete(l, 0, t);
      var i :| 0 <= i < |cs| && cs[i] == (t as u32, Stored(l.targets[t]));
    }
  }

  /** After a sync the constant-time lookup finds the highest-scoring usable slot and never falls back. */
  lemma LookupIsArgMax(targets: Targets, buckets: Buckets, id: u32, l: ConfigListener, key: FlowKey)
    requires ListenerSynced(targets, buckets, id, l) && l.select == SELECT_CONSISTENT_HASH && AnyServing(l)
    ensures var slot := SelectConsistent(targets, buckets, id, |l.targets|, key);
            var score := ScoreFor(BucketOf(key));
            BucketKey(id, BucketOf(key)) in buckets && buckets[BucketKey(id, BucketOf(key))] == slot
            && slot < |l.targets| && Usable(targets, id, slot)
            && (forall t: u32 :: t < |l.targets| && Usable(targets, id, t) ==>
                  score(targets[SlotKey(id, t)]) <= score(targets[SlotKey(id, slot)]))
            && CandidatesFrom(l, 0) != []
            && IdentityOf(targets[SlotKey(id, slot)]) == WinnerOf(score, CandidatesFrom(l, 0))
  {
    BestCandidateIsBestSlot(targets, id, l, ScoreFor(BucketOf(key)));
    assert BucketKey(id, BucketOf(key)) in buckets;
  }

  /** The backend a synced gateway sends a client flow to. */
  ghost function BackendFor(targets: Targets, buckets: Buckets, id: u32, l: ConfigListener, key: FlowKey): (i: Identity)
    requires ListenerSynced(targets, buckets, id, l) && l.select == SELECT_CONSISTENT_HASH && AnyServing(l)
  {
    LookupIsArgMax(targets, buckets, id, l, key);
    IdentityOf(targets[SlotKey(id, SelectConsistent(targets, buckets, id, |l.targets|, key))])
  }

  /** The backends a listener currently offers. */
  ghost function Serving(l: ConfigListener): (s: set<Identity>) {
    set t | 0 <= t < |l.targets| && l.targets[t].active && l.targets[t].weight != 0
          :: (l.targets[t].address, l.targets[t].port)
  }

  lemma ServingAreCandidates(l: ConfigListener)
    requires FitsSlots(l)
    ensures Identities(CandidatesFrom(l, 0)) == Serving(l)
    ensures AnyServing(l) ==> CandidatesFrom(l, 0) != []
  {
    var cs := CandidatesFrom(l, 0);
    forall x | x in Serving(l)
      ensures x in Identities(cs)
    {
      var t :| 0 <= t < |l.targets| && l.targets[t].active && l.targets[t].weight != 0
               && x == (l.targets[t].address, l.targets[t].port);
      CandidatesComplete(l, 0, t);
      var i :| 0 <= i < |cs| && cs[i] == (t as u32, Stored(l.targets[t]));
      assert IdentityOf(cs[i].1) == x;
    }
    if AnyServing(l) {
      var t :| 0 <= t < |l.targets| && l.targets[t].active && l.targets[t].weight != 0;
      CandidatesComplete(l, 0, t);
    }
  }

  /** Two gateways that offer the same backends, in any order and behind any VIP, send a client flow to the same one. */
  lemma GatewaysAgree(targets1: Targets, buckets1: Buckets, id1: u32, l1: ConfigListener, key1: FlowKey,
                      targets2: Targets, buckets2: Buckets, id2: u32, l2: ConfigListener, key2: FlowKey)
    requires ListenerSynced(targets1, buckets1, id1, l1) && ListenerSynced(targets2, buckets2, id2, l2)
    requires l1.select == l2.select == SELECT_CONSISTENT_HASH && AnyServing(l1) && AnyServing(l2)
    requires Serving(l1) == Serving(l2)
    requires key2 == key1.(dst := key2.dst)
    ensures BackendFor(targets1, buckets1, id1, l1, key1) == BackendFor(targets2, buckets2, id2, l2, key2)
  {
    LookupIsArgMax(targets1, buckets1, id1, l1, key1);
    LookupIsArgMax(targets2, buckets2, id2, l2, key2);
    ServingAreCandidates(l1);
    ServingAreCandidates(l2);
    WinnerIgnoresOrder(BucketOf(key1), CandidatesFrom(l1, 0), CandidatesFrom(l2, 0));
  }

  /** A target that turns healthy takes over only the flows it wins; one that fails gives up only those it had. */
  lemma HealthChangeMovesOnlyItsFlows(targets1: Targets, buckets1: Buckets, id: u32, down: ConfigListener, key: FlowKey,
                                      targets2: Targets, buckets2: Buckets, up: ConfigListener, t: nat)
    requires ListenerSynced(targets1, buckets1, id, down) && ListenerSynced(targets2, buckets2, id, up)
    requires down.select == SELECT_CONSISTENT_HASH && AnyServing(down)
    requires t < |down.targets| && down.targets[t].weight != 0
    requires up == down.(targets := down.targets[t := down.targets[t].(active := true)])
    ensures AnyServing(up)
    ensures var moved := (down.targets[t].address, down.targets[t].port);
            BackendFor(targets2, buckets2, id, up, key) == moved
            || BackendFor(targets2, buckets2, id, up, key) == BackendFor(targets1, buckets1, id, down, key)
  {
    var moved := (down.targets[t].address, down.targets[t].port);
    assert up.targets[t].active;
    assert Serving(up) == Serving(down) + {moved} by {
      ServingGrows(down, up, t);
    }
    LookupIsArgMax(targets1, buckets1, id, down, key);
    LookupIsArgMax(targets2, buckets2, id, up, key);
    ServingAreCandidates(down);
    ServingAreCandidates(up);
    MinimalDisruption(BucketOf(key), CandidatesFrom(up, 0), CandidatesFrom(down, 0), moved);
  }

  lemma ServingGrows(down: ConfigListener, up: ConfigListener, t: nat)
    requires t < |down.targets| && down.targets[t].weight != 0
    requires up == down.(targets := down.targets[t := down.targets[t].(active := true)])
    ensures Serving(up) == Serving(down) + {(down.targets[t].address, down.targets[t].port)}
  {
    var moved := (down.targets[t].address, down.targets[t].port);
    forall x | x in Serving(down)
      ensures x in Serving(up)
    {
      var s :| 0 <= s < |down.targets| && down.targets[s].active && down.targets[s].weight != 0
               && x == (down.targets[s].address, down.targets[s].port);
      assert up.targets[s].active && (up.targets[s].address, up.targets[s].port) == x;
    }
    assert (up.targets[t].address, up.targets[t].port) == moved;
  }

  // ---- Weights after a sync --------------------------------------------------------------------

  /** Sum of the configured weights of the active targets from `t` on. */
  function RawWeight(l: ConfigListener, t: nat): (w: nat)
    requires t <= |l.targets|
    decreases |l.targets| - t
  {
    if t == |l.targets| then 0
    else (if l.targets[t].active then l.targets[t].weight else 0) + RawWeight(l, t + 1)
  }

  /** The listener value a sync writes; the total is summed in 32 bits from the unclamped weights. */
  function ListenerValueOf(id: u32, l: ConfigListener): (v: ListenerValue)
  {
    ListenerValue(id, |l.targets| % M32, RawWeight(l, 0) % M32, l.select,
                  if l.select == SELECT_PERSIST then DEFAULT_PERSIST_TIMEOUT_SECS else l.inactiveTimeoutSecs)
  }

  /** No active weight is clamped. */
  predicate WeightsFit(l: ConfigListener, t: nat) {
    forall s :: t <= s < |l.targets| && l.targets[s].active ==> l.targets[s].weight <= 0xffff
  }

  /** Sum of the weights as stored, of the active targets from `t` on. */
  function ClampedWeight(l: ConfigListener, t: nat): (w: nat)
    requires t <= |l.targets|
    decreases |l.targets| - t
  {
    if t == |l.targets| then 0
    else (if l.targets[t].active then Stored(l.targets[t]).weight else 0) + ClampedWeight(l, t + 1)
  }

  lemma {:induction false} SyncedWeightSum(targets: Targets, id: u32, l: ConfigListener, t: u32)
    requires FitsSlots(l) && TargetsMatch(targets, id, l, |l.targets|) && t <= |l.targets|
    ensures WeightSum(targets, id, t, |l.targets|) == ClampedWeight(l, t)
    decreases |l.targets| - t
  {
    if t < |l.targets| {
      SyncedWeightSum(targets, id, l, t + 1);
      UsableIffServing(targets, id, l, t);
    }
  }

  /** The stored weights add up to the configured ones exactly when none was clamped, and to less otherwise. */
  lemma {:induction false} ClampedVersusRaw(l: ConfigListener, t: nat)
    requires t <= |l.targets|
    ensures ClampedWeight(l, t) <= RawWeight(l, t) && ClampedWeight(l, t) <= 0xffff * (|l.targets| - t)
    ensures ClampedWeight(l, t) == RawWeight(l, t) <==> WeightsFit(l, t)
    decreases |l.targets| - t
  {
    if t < |l.targets| {
      ClampedVersusRaw(l, t + 1);
    }
  }

  /** After a sync, weighted round robin never misses exactly when the total, summed in 32 bits, does not exceed the
      clamped weights; as long as that sum does not overflow, exactly when no active weight exceeds 65535. */
  lemma SyncedWeightsNeverMissIff(targets: Targets, id: u32, l: ConfigListener)
    requires FitsSlots(l) && TargetsMatch(targets, id, l, |l.targets|)
    requires ListenerValueOf(id, l).weightTotal > 0
    ensures var never := forall hash: u32 ::
              WeightedPick(targets, id, ListenerValueOf(id, l).weightTotal, |l.targets|, hash)
              < MAX_TARGETS_PER_LISTENER;
            (never <==> RawWeight(l, 0) % M32 <= ClampedWeight(l, 0))
            && (RawWeight(l, 0) <= U32_MAX ==> (never <==> WeightsFit(l, 0)))
  {
    ClampedVersusRaw(l, 0);
    NeverMissesTotal(targets, id, l, ListenerValueOf(id, l).weightTotal);
  }

  lemma NeverMissesTotal(targets: Targets, id: u32, l: ConfigListener, total: u32)
    requires FitsSlots(l) && TargetsMatch(targets, id, l, |l.targets|) && total > 0
    ensures (forall hash: u32 :: WeightedPick(targets, id, total, |l.targets|, hash) < MAX_TARGETS_PER_LISTENER)
       <==> total <= ClampedWeight(l, 0)
  {
    SyncedWeightSum(targets, id, l, 0);
    WeightedNeverMissesIff(targets, id, total, |l.targets|);
  }

  /** With weights that fit, any total-many consecutive picks, across the wrap too if the total divides 2^32, give each
      active target exactly its configured weight. */
  lemma SyncedWeightedFairness(targets: Targets, id: u32, l: ConfigListener, start: u32, t: u32)
    requires FitsSlots(l) && TargetsMatch(targets, id, l, |l.targets|) && WeightsFit(l, 0)
    requires ListenerValueOf(id, l).weightTotal > 0 && NoSkip(start, ListenerValueOf(id, l).weightTotal)
             && t < |l.targets|
    ensures var total := ListenerValueOf(id, l).weightTotal;
            total == RawWeight(l, 0)
            && Shares(targets, id, total, |l.targets|, start, t)
               == if l.targets[t].active then l.targets[t].weight else 0
  {
    FittingTotal(id, l);
    FittingShares(targets, id, l, ListenerValueOf(id, l).weightTotal, start, t);
  }

  /** The total of weights that fit is exact. */
  lemma FittingTotal(id: u32, l: ConfigListener)
    requires FitsSlots(l) && WeightsFit(l, 0)
    ensures ListenerValueOf(id, l).weightTotal == RawWeight(l, 0) == ClampedWeight(l, 0)
  {
    ClampedVersusRaw(l, 0);
    SmallMod(RawWeight(l, 0));
  }

  lemma SmallMod(n: nat)
    requires n < M32
    ensures n % M32 == n
  {
  }

  lemma FittingShares(targets: Targets, id: u32, l: ConfigListener, total: u32, start: u32, t: u32)
    requires FitsSlots(l) && TargetsMatch(targets, id, l, |l.targets|) && WeightsFit(l, 0)
    requires 0 < total == ClampedWeight(l, 0) && NoSkip(start, total) && t < |l.targets|
    ensures Shares(targets, id, total, |l.targets|, start, t) == if l.targets[t].active then l.targets[t].weight else 0
  {
    SyncedWeightSum(targets, id, l, 0);
    WeightedFairness(targets, id, total, |l.targets|, start, t);
    UsableIffServing(targets, id, l, t);
  }

  /** One target of weight 65536: the stored total exceeds the stored weight by one, and one cursor in 65536 misses. */
  lemma ClampedWeightInstance() returns (targets: Targets, l: ConfigListener)
    ensures FitsSlots(l) && TargetsMatch(targets, 1, l, |l.targets|) && ListenerValueOf(1, l).weightTotal == 0x1_0000
    ensures exists hash: u32 ::
              WeightedPick(targets, 1, ListenerValueOf(1, l).weightTotal, |l.targets|, hash) == MAX_TARGETS_PER_LISTENER
  {
    l := ConfigListener(SELECT_PRIORITY, 60, [ConfigTarget(10, 8080, 0x1_0000, true)]);
    targets := map[SlotKey(1, 0) := Stored(l.targets[0])];
    assert RawWeight(l, 1) == 0;
    SyncedWeightsNeverMissIff(targets, 1, l);
    assert !WeightsFit(l, 0);
  }
}
