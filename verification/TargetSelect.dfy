/** Dispatch over the selectors, with the per-listener rotation cursors. */
module TargetSelect {
  import opened Words
  import opened Tables
  import opened Bits
  import opened FlowKeys
  import opened Rendezvous
  import opened Selection

  /** Everything a selector reads. */
  datatype View = View(targets: Targets, buckets: Buckets, active: Loads, cursors: seq<u32>)

  /** Array index of a listener's cursor: ids start at one. */
  function CursorIndex(listenerId: u32): (i: u32) {
    SaturatingSub(listenerId, 1)
  }

  /** A missing array element reads as zero. */
  function CursorOf(cursors: seq<u32>, listenerId: u32): (c: u32) {
    if CursorIndex(listenerId) < |cursors| then cursors[CursorIndex(listenerId)] else 0
  }

  function Bumped(cursors: seq<u32>, listenerId: u32): (r: seq<u32>)
    ensures |r| == |cursors|
  {
    if CursorIndex(listenerId) < |cursors|
    then cursors[CursorIndex(listenerId) := (CursorOf(cursors, listenerId) + 1) % M32]
    else cursors
  }

  function SlotCount(listener: ListenerValue): (n: u32)
    ensures n <= MAX_TARGETS_PER_LISTENER && n <= listener.targetCount
  {
    if listener.targetCount < MAX_TARGETS_PER_LISTENER then listener.targetCount else MAX_TARGETS_PER_LISTENER
  }

  predicate Eligible(listener: ListenerValue) {
    listener.targetCount != 0 && listener.weightTotal != 0
  }

  predicate UsesCursor(listener: ListenerValue) {
    Eligible(listener)
    && listener.select != SELECT_HASH && listener.select != SELECT_PERSIST
    && listener.select != SELECT_CONSISTENT_HASH
  }

  function CursorsAfter(cursors: seq<u32>, listener: ListenerValue): (r: seq<u32>)
    ensures |r| == |cursors|
  {
    if UsesCursor(listener) then Bumped(cursors, listener.listenerId) else cursors
  }

  /** A preferred slot, with the first usable slot behind it. */
  function PreferSlot(targets: Targets, listenerId: u32, count: u32, slot: u32): (r: u32)
    requires count <= MAX_TARGETS_PER_LISTENER
  {
    if slot < count && Usable(targets, listenerId, slot) then slot
    else FirstUsable(targets, listenerId, count, 0)
  }

  function PersistPrimary(client: u32, count: u32): (r: u32)
    requires count > 0
  {
    Xor(client % 256, client / 0x100_0000 % 256) % count
  }

  function PersistSecondary(client: u32, count: u32): (r: u32)
    requires count > 0
  {
    Xor(client / 0x100 % 256, client / 0x1_0000 % 256) % count
  }

  function SelectPersist(targets: Targets, listenerId: u32, count: u32, client: u32): (r: u32)
    requires 0 < count <= MAX_TARGETS_PER_LISTENER
  {
    if Usable(targets, listenerId, PersistPrimary(client, count)) then PersistPrimary(client, count)
    else PreferSlot(targets, listenerId, count, PersistSecondary(client, count))
  }

  function BucketOf(key: FlowKey): (b: u32) {
    FlowBucket(key.src, key.sport, key.dport, key.proto)
  }

  /** The client addresses that bring a flow into a bucket, its ports and protocol given. */
  ghost function Clients(key: FlowKey, bucket: u32): (s: set<int>) {
    set x | 0 <= x < M32 && BucketOf(key.(src := x)) == bucket
  }

  /** The pairs of ports, as one 32-bit word, that bring a flow of the client into a bucket. */
  ghost function PortPairs(key: FlowKey, bucket: u32): (s: set<int>) {
    set x | 0 <= x < M32 && BucketOf(key.(sport := x / 0x1_0000, dport := x % 0x1_0000)) == bucket
  }

  lemma BucketOfPorts(key: FlowKey, x: u32)
    ensures BucketOf(key.(sport := x / 0x1_0000, dport := x % 0x1_0000))
         == FlowHash(0x811c_9dc5, key.src, x, key.proto) % 1024
  {
    assert x / 0x1_0000 * 0x1_0000 + x % 0x1_0000 == x;
  }

  lemma BucketOfClient(key: FlowKey, x: u32, ports: u32)
    requires ports == key.sport * 0x1_0000 + key.dport
    ensures BucketOf(key.(src := x)) == FlowHash(0x811c_9dc5, x, ports, key.proto) % 1024
  {
    assert ports / 0x1_0000 == key.sport && ports % 0x1_0000 == key.dport;
    BucketOfPorts(key.(src := x), ports);
  }

  lemma ClientSetBalanced(key: FlowKey, bucket: u32, ports: u32)
    requires bucket < CONSISTENT_HASH_BUCKETS && ports == key.sport * 0x1_0000 + key.dport
    ensures |Clients(key, bucket)| == 0x40_0000
  {
    forall x: u32 {
      BucketOfClient(key, x, ports);
    }
    ClientsBalanced(0x811c_9dc5, ports, key.proto, bucket, Clients(key, bucket));
  }

  lemma PortPairsBalanced(key: FlowKey, bucket: u32)
    requires bucket < CONSISTENT_HASH_BUCKETS
    ensures |PortPairs(key, bucket)| == 0x40_0000
  {
    forall x: u32 {
      BucketOfPorts(key, x);
    }
    PortsBalanced(0x811c_9dc5, key.src, key.proto, bucket, PortPairs(key, bucket));
  }

  /** The buckets are perfectly balanced: each gets exactly 2^22 of the 2^32 clients, and exactly 2^22 of a client's
      2^32 pairs of ports. */
  lemma BucketsBalanced(key: FlowKey, bucket: u32)
    requires bucket < CONSISTENT_HASH_BUCKETS
    ensures |Clients(key, bucket)| == 0x40_0000 && |PortPairs(key, bucket)| == 0x40_0000
  {
    ClientSetBalanced(key, bucket, key.sport * 0x1_0000 + key.dport);
    PortPairsBalanced(key, bucket);
  }

  function SelectConsistent(targets: Targets, buckets: Buckets, listenerId: u32, count: u32, key: FlowKey): (r: u32)
    requires count <= MAX_TARGETS_PER_LISTENER
  {
    var bucket := BucketKey(listenerId, BucketOf(key));
    if bucket in buckets then PreferSlot(targets, listenerId, count, buckets[bucket])
    else FirstUsable(targets, listenerId, count, 0)
  }

  /** `select_target`. */
  function Select(view: View, key: FlowKey, listener: ListenerValue, packetHash: u32): (r: u32) {
    if !Eligible(listener) then MAX_TARGETS_PER_LISTENER
    else
      var count, id := SlotCount(listener), listener.listenerId;
      var cursor := CursorOf(view.cursors, id);
      if listener.select == SELECT_PRIORITY then WeightedPick(view.targets, id, listener.weightTotal, count, cursor)
      else if listener.select == SELECT_HASH then PreferSlot(view.targets, id, count, packetHash % count)
      else if listener.select == SELECT_PERSIST then SelectPersist(view.targets, id, count, key.src)
      else if listener.select == SELECT_CONSISTENT_HASH then
        SelectConsistent(view.targets, view.buckets, id, count, key)
      else if listener.select == SELECT_LC then LeastConnections(view.targets, view.active, id, cursor, count)
      else RoundRobin(view.targets, id, cursor, count, 0)
  }

  /** A slot number that names a usable slot, or none. */
  ghost predicate SlotOrNone(targets: Targets, listenerId: u32, count: u32, r: u32) {
    r == MAX_TARGETS_PER_LISTENER || (r < count && Usable(targets, listenerId, r))
  }

  lemma PersistSound(targets: Targets, listenerId: u32, count: u32, client: u32)
    requires 0 < count <= MAX_TARGETS_PER_LISTENER
    ensures SlotOrNone(targets, listenerId, count, SelectPersist(targets, listenerId, count, client))
  {
  }

  lemma ConsistentSound(targets: Targets, buckets: Buckets, listenerId: u32, count: u32, key: FlowKey)
    requires count <= MAX_TARGETS_PER_LISTENER
    ensures SlotOrNone(targets, listenerId, count, SelectConsistent(targets, buckets, listenerId, count, key))
  {
  }

  lemma WeightedSound(targets: Targets, listenerId: u32, total: u32, count: u32, cursor: u32)
    requires 0 < count <= MAX_TARGETS_PER_LISTENER
    ensures SlotOrNone(targets, listenerId, count, WeightedPick(targets, listenerId, total, count, cursor))
  {
  }

  /** Whatever the selector, the cursor and the bucket table say, the answer is a usable slot or none. */
  lemma SelectSound(view: View, key: FlowKey, listener: ListenerValue, packetHash: u32)
    ensures SlotOrNone(view.targets, listener.listenerId, SlotCount(listener), Select(view, key, listener, packetHash))
  {
    if Eligible(listener) {
      var count, id := SlotCount(listener), listener.listenerId;
      var cursor := CursorOf(view.cursors, id);
      if listener.select == SELECT_PRIORITY {
        WeightedSound(view.targets, id, listener.weightTotal, count, cursor);
      } else if listener.select == SELECT_PERSIST {
        PersistSound(view.targets, id, count, key.src);
      } else if listener.select == SELECT_CONSISTENT_HASH {
        ConsistentSound(view.targets, view.buckets, id, count, key);
      } else if listener.select == SELECT_LC {
        LeastConnectionsSound(view.targets, view.active, id, cursor, count);
      }
    }
  }

  /** Some selector answer exists: what a selector promises when a backend is healthy. */
  ghost predicate Serves(view: View, listener: ListenerValue) {
    forall key: FlowKey, packetHash: u32 :: Select(view, key, listener, packetHash) < MAX_TARGETS_PER_LISTENER
  }

  /** A healthy slot is found by every selector that does not depend on the wrap of its cursor or on stored totals. */
  lemma SelectComplete(view: View, listener: ListenerValue)
    requires Eligible(listener) && AnyUsable(view.targets, listener.listenerId, SlotCount(listener))
    requires var cursor := CursorOf(view.cursors, listener.listenerId);
             if listener.select == SELECT_PRIORITY
             then listener.weightTotal <= WeightSum(view.targets, listener.listenerId, 0, SlotCount(listener))
             else if listener.select == SELECT_LC
             then NoSkip(cursor, SlotCount(listener))
                  && AnyOpen(view.targets, view.active, listener.listenerId, SlotCount(listener))
             else UsesCursor(listener) ==> NoSkip(cursor, SlotCount(listener))
    ensures Serves(view, listener)
  {
    var id, count := listener.listenerId, SlotCount(listener);
    var cursor := CursorOf(view.cursors, id);
    var t: u32 :| t < count && Usable(view.targets, id, t);
    if listener.select == SELECT_PRIORITY {
      WeightedNeverMissesIff(view.targets, id, listener.weightTotal, count);
    } else if listener.select == SELECT_LC {
      LeastConnectionsMinimal(view.targets, view.active, id, cursor, count);
    } else if UsesCursor(listener) {
      RoundRobinCompleteIff(cursor, count);
    }
  }

  // ---- What each selector code chooses ---------------------------------------------------------

  /** `r` is the lowest usable slot, or none is usable. */
  ghost predicate LowestUsable(targets: Targets, listenerId: u32, count: u32, r: u32) {
    if AnyUsable(targets, listenerId, count)
    then r < count && Usable(targets, listenerId, r) && forall t: u32 :: t < r ==> !Usable(targets, listenerId, t)
    else r == MAX_TARGETS_PER_LISTENER
  }

  /** `r` is the first of the slots in order of preference that is usable, and the lowest usable slot behind them. */
  ghost predicate Preferred(targets: Targets, listenerId: u32, count: u32, slots: seq<u32>, r: u32) {
    (exists i :: 0 <= i < |slots| && r == slots[i] && Usable(targets, listenerId, r)
                 && forall j :: 0 <= j < i ==> !Usable(targets, listenerId, slots[j]))
    || ((forall i :: 0 <= i < |slots| ==> !Usable(targets, listenerId, slots[i]))
        && LowestUsable(targets, listenerId, count, r))
  }

  /** A listener without targets or without weight gets no answer, whatever its selector. */
  lemma NoWeightNoAnswer(view: View, key: FlowKey, listener: ListenerValue, packetHash: u32)
    requires listener.targetCount == 0 || listener.weightTotal == 0
    ensures Select(view, key, listener, packetHash) == MAX_TARGETS_PER_LISTENER
  {
  }

  /** `lc` answers a usable slot that no usable slot undercuts. */
  lemma LeastConnectionsChoice(view: View, key: FlowKey, listener: ListenerValue, packetHash: u32)
    requires Eligible(listener) && listener.select == SELECT_LC
    requires NoSkip(CursorOf(view.cursors, listener.listenerId), SlotCount(listener))
    ensures var count, r := SlotCount(listener), Select(view, key, listener, packetHash);
            if AnyOpen(view.targets, view.active, listener.listenerId, count)
            then IsLeastLoaded(view.targets, view.active, listener.listenerId, count, r)
            else r == MAX_TARGETS_PER_LISTENER
  {
    var id := listener.listenerId;
    LeastConnectionsMinimal(view.targets, view.active, id, CursorOf(view.cursors, id), SlotCount(listener));
  }

  /** `hash` answers the slot the packet hash names, or the lowest usable one. */
  lemma HashChoice(view: View, key: FlowKey, listener: ListenerValue, packetHash: u32)
    requires Eligible(listener) && listener.select == SELECT_HASH
    ensures var count := SlotCount(listener);
            Preferred(view.targets, listener.listenerId, count, [packetHash % count],
                      Select(view, key, listener, packetHash))
  {
    var targets, id, count := view.targets, listener.listenerId, SlotCount(listener);
    var slots, r := [packetHash % count], Select(view, key, listener, packetHash);
    if Usable(targets, id, slots[0]) {
      assert r == slots[0];
    } else {
      FirstIsLowest(targets, id, count);
    }
  }

  lemma FirstIsLowest(targets: Targets, listenerId: u32, count: u32)
    requires count <= MAX_TARGETS_PER_LISTENER
    ensures LowestUsable(targets, listenerId, count, FirstUsable(targets, listenerId, count, 0))
  {
  }

  /** `persist` answers by the octets of the client address `a.b.c.d`: the slot of the outer two, then that of the inner
      two, then the lowest usable one. Nothing else about the packet or the gateway counts. */
  lemma PersistChoice(view: View, key: FlowKey, listener: ListenerValue, packetHash: u32, a: u8, b: u8, c: u8, d: u8)
    requires Eligible(listener) && listener.select == SELECT_PERSIST
    requires key.src == a * 0x100_0000 + b * 0x1_0000 + c * 0x100 + d
    ensures var count := SlotCount(listener);
            Preferred(view.targets, listener.listenerId, count, [Xor(d, a) % count, Xor(c, b) % count],
                      Select(view, key, listener, packetHash))
  {
    var targets, id, count := view.targets, listener.listenerId, SlotCount(listener);
    var slots, r := [Xor(d, a) % count, Xor(c, b) % count], Select(view, key, listener, packetHash);
    Octets(key.src, a, b, c, d);
    assert PersistPrimary(key.src, count) == slots[0] && PersistSecondary(key.src, count) == slots[1];
    if Usable(targets, id, slots[0]) {
      assert r == slots[0];
    } else if Usable(targets, id, slots[1]) {
      assert r == slots[1];
    } else {
      FirstIsLowest(targets, id, count);
    }
  }

  lemma Octets(x: u32, a: u8, b: u8, c: u8, d: u8)
    requires x == a * 0x100_0000 + b * 0x1_0000 + c * 0x100 + d
    ensures x % 256 == d && x / 0x100 % 256 == c && x / 0x1_0000 % 256 == b && x / 0x100_0000 % 256 == a
  {
    assert x / 0x100 == a * 0x1_0000 + b * 0x100 + c;
    assert x / 0x1_0000 == a * 0x100 + b;
    assert x / 0x100_0000 == a;
  }

  /** Same targets and same client address, same answer. */
  lemma PersistIgnoresTheRest(v: View, w: View, k: FlowKey, l: FlowKey, listener: ListenerValue, h: u32, i: u32)
    requires listener.select == SELECT_PERSIST && v.targets == w.targets && k.src == l.src
    ensures Select(v, k, listener, h) == Select(w, l, listener, i)
  {
  }

  /** Step `n` of the rotation is the first to reach a usable slot. */
  ghost predicate FirstReached(targets: Targets, listenerId: u32, cursor: u32, count: u32, n: u32)
    requires count > 0
  {
    n < count && Usable(targets, listenerId, Candidate(cursor, n, count))
    && forall m: u32 :: m < n ==> !Usable(targets, listenerId, Candidate(cursor, m, count))
  }

  lemma {:induction false} RotationStops(targets: Targets, listenerId: u32, cursor: u32, count: u32, offset: u32)
    requires 0 < count <= MAX_TARGETS_PER_LISTENER && offset <= count
    requires forall m: u32 :: m < offset ==> !Usable(targets, listenerId, Candidate(cursor, m, count))
    ensures var r := RoundRobin(targets, listenerId, cursor, count, offset);
            if r == MAX_TARGETS_PER_LISTENER
            then forall m: u32 :: m < count ==> !Usable(targets, listenerId, Candidate(cursor, m, count))
            else exists n: u32 ::
                   FirstReached(targets, listenerId, cursor, count, n) && r == Candidate(cursor, n, count)
    decreases count - offset
  {
    if offset < count {
      if Usable(targets, listenerId, Candidate(cursor, offset, count)) {
        assert FirstReached(targets, listenerId, cursor, count, offset);
      } else {
        RotationStops(targets, listenerId, cursor, count, offset + 1);
      }
    }
  }

  /** Round robin, and every unknown selector, answers the usable slot the rotation reaches first. */
  lemma RoundRobinChoice(view: View, key: FlowKey, listener: ListenerValue, packetHash: u32)
    requires UsesCursor(listener) && listener.select != SELECT_PRIORITY && listener.select != SELECT_LC
    ensures var targets, id, count := view.targets, listener.listenerId, SlotCount(listener);
            var cursor, r := CursorOf(view.cursors, id), Select(view, key, listener, packetHash);
            if r == MAX_TARGETS_PER_LISTENER
            then forall m: u32 :: m < count ==> !Usable(targets, id, Candidate(cursor, m, count))
            else exists n: u32 :: FirstReached(targets, id, cursor, count, n) && r == Candidate(cursor, n, count)
  {
    var id := listener.listenerId;
    RotationStops(view.targets, id, CursorOf(view.cursors, id), SlotCount(listener), 0);
  }

  /** Weighted round robin answers the slot whose share of the total the cursor falls into. */
  lemma WeightedChoice(view: View, key: FlowKey, listener: ListenerValue, packetHash: u32, t: u32)
    requires Eligible(listener) && listener.select == SELECT_PRIORITY && t < SlotCount(listener)
    ensures var targets, id := view.targets, listener.listenerId;
            var turn := CursorOf(view.cursors, id) % listener.weightTotal;
            Select(view, key, listener, packetHash) == t
            <==> WeightSum(targets, id, 0, t) <= turn < WeightSum(targets, id, 0, t) + WeightOf(targets, id, t)
  {
    var id := listener.listenerId;
    var turn := CursorOf(view.cursors, id) % listener.weightTotal;
    WalkInterval(view.targets, id, SlotCount(listener), 0, turn, t);
  }
}
