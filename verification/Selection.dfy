/** The target selectors of the ingress classifier. */
module Selection {
  import opened Words
  import opened Tables
  import opened Counting

  ghost predicate AnyUsable(targets: Targets, listenerId: u32, count: nat) {
    exists t: u32 :: t < count && Usable(targets, listenerId, t)
  }

  // ---- Fallback: first usable slot -------------------------------------------------------------

  /** `first_usable_target`, from slot `index` on. */
  function FirstUsable(targets: Targets, listenerId: u32, count: u32, index: u32): (r: u32)
    requires index <= count <= MAX_TARGETS_PER_LISTENER
    ensures r == MAX_TARGETS_PER_LISTENER || (index <= r < count && Usable(targets, listenerId, r))
    ensures forall t: u32 :: index <= t < count && Usable(targets, listenerId, t) ==> r <= t
    decreases count - index
  {
    if index == count then MAX_TARGETS_PER_LISTENER
    else if Usable(targets, listenerId, index) then index
    else FirstUsable(targets, listenerId, count, index + 1)
  }

  method FindFirstUsable(targets: Targets, listenerId: u32, count: u32) returns (r: u32)
    requires count <= MAX_TARGETS_PER_LISTENER
    ensures r == FirstUsable(targets, listenerId, count, 0)
  {
    var index: u32 := 0;
    while index < MAX_TARGETS_PER_LISTENER
      invariant index <= count
      invariant FirstUsable(targets, listenerId, count, 0) == FirstUsable(targets, listenerId, count, index)
    {
      if index >= count {
        break;
      }
      if Usable(targets, listenerId, index) {
        return index;
      }
      index := index + 1;
    }
    return MAX_TARGETS_PER_LISTENER;
  }

  // ---- Round robin -----------------------------------------------------------------------------

  /** A 32-bit counter `n` steps later. */
  function Later(c: int, n: int): (r: u32) {
    (c + n) % M32
  }

  /** `cursor.wrapping_add(offset) % count`. */
  function Candidate(cursor: u32, offset: nat, count: u32): (r: u32)
    requires count > 0
    ensures r < count
  {
    Later(cursor, offset) % count
  }

  /** The rotation of `select_round_robin`, from `offset` on. */
  function RoundRobin(targets: Targets, listenerId: u32, cursor: u32, count: u32, offset: u32): (r: u32)
    requires 0 < count <= MAX_TARGETS_PER_LISTENER && offset <= count
    ensures r == MAX_TARGETS_PER_LISTENER || (r < count && Usable(targets, listenerId, r))
    decreases count - offset
  {
    if offset == count then MAX_TARGETS_PER_LISTENER
    else
      var candidate := Candidate(cursor, offset, count);
      if Usable(targets, listenerId, candidate) then candidate
      else RoundRobin(targets, listenerId, cursor, count, offset + 1)
  }

  method RotateRoundRobin(targets: Targets, listenerId: u32, cursor: u32, count: u32) returns (r: u32)
    requires 0 < count <= MAX_TARGETS_PER_LISTENER
    ensures r == RoundRobin(targets, listenerId, cursor, count, 0)
  {
    var offset: u32 := 0;
    while offset < MAX_TARGETS_PER_LISTENER
      invariant offset <= count
      invariant RoundRobin(targets, listenerId, cursor, count, 0)
                == RoundRobin(targets, listenerId, cursor, count, offset)
    {
      if offset >= count {
        break;
      }
      var candidate := Candidate(cursor, offset, count);
      if Usable(targets, listenerId, candidate) {
        return candidate;
      }
      offset := offset + 1;
    }
    return MAX_TARGETS_PER_LISTENER;
  }

  /** The rotation passes the 2^32 boundary harmlessly: it does not reach it, or `count` divides 2^32. */
  predicate NoSkip(cursor: u32, count: u32)
    requires count > 0
  {
    cursor + count <= M32 || M32 % count == 0
  }

  /** Without a skip, some offset of the rotation reaches slot `t`. */
  lemma OffsetOf(cursor: u32, count: u32, t: u32) returns (offset: u32)
    requires 0 < count && t < count && NoSkip(cursor, count)
    ensures offset < count && Candidate(cursor, offset, count) == t
  {
    var q, r := cursor / count, cursor % count;
    offset := if r <= t then t - r else t + count - r;
    var k := if r <= t then q else q + 1;
    assert cursor + offset == k * count + t by {
      assert cursor == q * count + r;
      assert (q + 1) * count == q * count + count;
    }
    DivModUnique(cursor + offset, count, k, t);
    if cursor + offset >= M32 {
      WrapKeepsRemainder(cursor + offset, count);
    }
  }

  lemma WrapKeepsRemainder(a: nat, count: u32)
    requires 0 < count && M32 % count == 0 && M32 <= a < 2 * M32
    ensures a % M32 % count == a % count
  {
    var w := M32 / count;
    assert M32 == w * count;
    ModPeriod(a - M32, count, w);
    DivModUnique(a, M32, 1, a - M32);
  }

  lemma {:induction false} RoundRobinFinds(
    targets: Targets, listenerId: u32, cursor: u32, count: u32, offset: u32, hit: u32)
    requires 0 < count <= MAX_TARGETS_PER_LISTENER && offset <= hit < count
    requires Usable(targets, listenerId, Candidate(cursor, hit, count))
    ensures RoundRobin(targets, listenerId, cursor, count, offset) < count
    decreases count - offset
  {
    if offset < hit {
      RoundRobinFinds(targets, listenerId, cursor, count, offset + 1, hit);
    }
  }

  /** Past the boundary with a `count` that does not divide 2^32, one slot is never tried. */
  lemma SkippedSlot(cursor: u32, count: u32) returns (s: u32)
    requires 0 < count && !NoSkip(cursor, count)
    ensures s < count && forall offset: nat :: offset < count ==> Candidate(cursor, offset, count) != s
  {
    var k, r := M32 - cursor, M32 % count;
    s := if r - k >= 0 then count - 1 else count - k + r - 1;
    forall offset: nat | offset < count
      ensures Candidate(cursor, offset, count) != s
    {
      if offset < k {
        BeforeWrap(cursor, count, offset);
      } else {
        DivModUnique(cursor + offset, M32, 1, offset - k);
        DivModUnique(offset - k, count, 0, offset - k);
      }
    }
  }

  /** The candidates short of the boundary count down from `2^32 % count`. */
  lemma BeforeWrap(cursor: u32, count: u32, offset: nat)
    requires 0 < count && offset < count && cursor + offset < M32 <= cursor + count
    ensures var j, r := M32 - cursor - offset, M32 % count;
            Candidate(cursor, offset, count) == if j <= r then r - j else r - j + count
  {
    var j, r := M32 - cursor - offset, M32 % count;
    var w := M32 / count;
    assert M32 == w * count + r;
    DivModUnique(cursor + offset, M32, 0, cursor + offset);
    if j <= r {
      DivModUnique(cursor + offset, count, w, r - j);
    } else {
      assert (w - 1) * count == w * count - count;
      DivModUnique(cursor + offset, count, w - 1, r - j + count);
    }
  }

  lemma {:induction false} RoundRobinMisses(
    targets: Targets, listenerId: u32, cursor: u32, count: u32, offset: u32)
    requires 0 < count <= MAX_TARGETS_PER_LISTENER && offset <= count
    requires forall o: nat :: offset <= o < count ==> !Usable(targets, listenerId, Candidate(cursor, o, count))
    ensures RoundRobin(targets, listenerId, cursor, count, offset) == MAX_TARGETS_PER_LISTENER
    decreases count - offset
  {
    if offset < count {
      RoundRobinMisses(targets, listenerId, cursor, count, offset + 1);
    }
  }

  /** Whatever the health of the slots, a usable one is found if there is one. */
  ghost predicate RoundRobinComplete(cursor: u32, count: u32)
    requires 0 < count <= MAX_TARGETS_PER_LISTENER
  {
    forall targets: Targets, listenerId: u32 :: AnyUsable(targets, listenerId, count) ==>
      RoundRobin(targets, listenerId, cursor, count, 0) < count
  }

  /** Round robin never overlooks the only healthy backend, exactly when its rotation cannot skip. */
  lemma RoundRobinCompleteIff(cursor: u32, count: u32)
    requires 0 < count <= MAX_TARGETS_PER_LISTENER
    ensures RoundRobinComplete(cursor, count) <==> NoSkip(cursor, count)
  {
    if NoSkip(cursor, count) {
      forall targets: Targets, listenerId: u32 | AnyUsable(targets, listenerId, count)
        ensures RoundRobin(targets, listenerId, cursor, count, 0) < count
      {
        var t: u32 :| t < count && Usable(targets, listenerId, t);
        var offset := OffsetOf(cursor, count, t);
        RoundRobinFinds(targets, listenerId, cursor, count, 0, offset);
      }
    } else {
      var s := SkippedSlot(cursor, count);
      var only: Targets := map[SlotKey(1, s) := TargetValue(0, 0, 1, 1)];
      assert Usable(only, 1, s);
      RoundRobinMisses(only, 1, cursor, count, 0);
      assert AnyUsable(only, 1, count);
    }
  }

  /** Without a skip, wrapped cursors have the remainders of unwrapped ones. */
  lemma LaterRemainder(start: u32, n: u32, j: nat)
    requires 0 < n && j < n && NoSkip(start, n)
    ensures Later(start, j) % n == (start + j) % n
  {
    if start + j >= M32 {
      WrapKeepsRemainder(start + j, n);
    }
  }

  /** How many of `count` consecutive picks, cursor wrap included, are slot `t`. */
  ghost function Visits(targets: Targets, listenerId: u32, start: u32, count: u32, t: u32): (n: nat)
    requires 0 < count <= MAX_TARGETS_PER_LISTENER
  {
    Count(j => 0 <= j && RoundRobin(targets, listenerId, Later(start, j), count, 0) == t, 0, count)
  }

  /** With every slot usable, a pick is the first candidate. */
  lemma PickIsCandidate(targets: Targets, listenerId: u32, start: u32, count: u32, j: nat)
    requires 0 < count <= MAX_TARGETS_PER_LISTENER && j < count
    requires forall s: u32 :: s < count ==> Usable(targets, listenerId, s)
    ensures RoundRobin(targets, listenerId, Later(start, j), count, 0) == Candidate(start, j, count)
  {
    var c := Later(start, j);
    DivModUnique(c, M32, 0, c);
    assert Candidate(c, 0, count) == Candidate(start, j, count);
  }

  lemma VisitsOnce(targets: Targets, listenerId: u32, start: u32, count: u32, t: u32)
    requires 0 < count <= MAX_TARGETS_PER_LISTENER && t < count && NoSkip(start, count)
    requires forall s: u32 :: s < count ==> Usable(targets, listenerId, s)
    ensures Visits(targets, listenerId, start, count, t) == 1
  {
    var pick := j => 0 <= j && RoundRobin(targets, listenerId, Later(start, j), count, 0) == t;
    forall j | 0 <= j < count
      ensures pick(j) == ((start + j) % count == t)
    {
      PickIsCandidate(targets, listenerId, start, count, j);
      LaterRemainder(start, count, j);
    }
    CountResidue(pick, start, count, t);
  }

  /** With every slot usable, `count` consecutive picks, across the wrap of the cursor too, visit each slot exactly once
      if and only if the rotation cannot skip. */
  lemma RoundRobinVisitsEachOnceIff(targets: Targets, listenerId: u32, start: u32, count: u32)
    requires 0 < count <= MAX_TARGETS_PER_LISTENER
    requires forall s: u32 :: s < count ==> Usable(targets, listenerId, s)
    ensures (forall t: u32 :: t < count ==> Visits(targets, listenerId, start, count, t) == 1) <==> NoSkip(start, count)
  {
    if NoSkip(start, count) {
      forall t: u32 | t < count
        ensures Visits(targets, listenerId, start, count, t) == 1
      {
        VisitsOnce(targets, listenerId, start, count, t);
      }
    } else {
      var s := SkippedSlot(start, count);
      forall j | 0 <= j < count
        ensures RoundRobin(targets, listenerId, Later(start, j), count, 0) != s
      {
        PickIsCandidate(targets, listenerId, start, count, j);
      }
      CountNone(j => 0 <= j && RoundRobin(targets, listenerId, Later(start, j), count, 0) == s, 0, count);
      assert Visits(targets, listenerId, start, count, s) == 0;
    }
  }

  // ---- Weighted round robin --------------------------------------------------------------------

  /** Weight a slot contributes: zero when it is absent or unusable. */
  function WeightOf(targets: Targets, listenerId: u32, t: u32): (w: nat) {
    if Usable(targets, listenerId, t) then targets[SlotKey(listenerId, t)].weight else 0
  }

  /** Sum of the contributed weights of slots `lo` up to `hi`. */
  function WeightSum(targets: Targets, listenerId: u32, lo: u32, hi: u32): (w: nat)
    requires lo <= hi
    decreases hi - lo
  {
    if lo == hi then 0
    else WeightOf(targets, listenerId, lo) + WeightSum(targets, listenerId, lo + 1, hi)
  }

  /** The walk of `select_weighted_hash` from slot `index` with `cursor` still to spend. */
  function WeightedWalk(targets: Targets, listenerId: u32, count: u32, index: u32, cursor: nat): (r: u32)
    requires index <= count <= MAX_TARGETS_PER_LISTENER
    ensures r == MAX_TARGETS_PER_LISTENER || (r < count && Usable(targets, listenerId, r))
    decreases count - index
  {
    if index == count then MAX_TARGETS_PER_LISTENER
    else if Usable(targets, listenerId, index) && cursor < WeightOf(targets, listenerId, index) then index
    else WeightedWalk(targets, listenerId, count, index + 1, cursor - WeightOf(targets, listenerId, index))
  }

  function WeightedPick(targets: Targets, listenerId: u32, weightTotal: u32, count: u32, hash: u32): (r: u32)
    requires count <= MAX_TARGETS_PER_LISTENER
    ensures r == MAX_TARGETS_PER_LISTENER || (r < count && Usable(targets, listenerId, r))
  {
    if weightTotal == 0 then MAX_TARGETS_PER_LISTENER
    else WeightedWalk(targets, listenerId, count, 0, hash % weightTotal)
  }

  method WalkWeights(targets: Targets, listenerId: u32, weightTotal: u32, count: u32, hash: u32) returns (r: u32)
    requires count <= MAX_TARGETS_PER_LISTENER
    ensures r == WeightedPick(targets, listenerId, weightTotal, count, hash)
  {
    if weightTotal == 0 {
      return MAX_TARGETS_PER_LISTENER;
    }
    var cursor := hash % weightTotal;
    var index: u32 := 0;
    while index < MAX_TARGETS_PER_LISTENER
      invariant index <= count && cursor >= 0
      invariant WeightedPick(targets, listenerId, weightTotal, count, hash)
             == WeightedWalk(targets, listenerId, count, index, cursor)
    {
      if index >= count {
        break;
      }
      var key := SlotKey(listenerId, index);
      if key in targets && targets[key].flags % 2 == 1 && targets[key].weight > 0 {
        if cursor < targets[key].weight {
          return index;
        }
        cursor := cursor - targets[key].weight;
      }
      index := index + 1;
    }
    return MAX_TARGETS_PER_LISTENER;
  }

  /** The walk stops at `t` exactly for the cursors in the interval `t` owns. */
  lemma {:induction false} WalkInterval(
    targets: Targets, listenerId: u32, count: u32, index: u32, cursor: nat, t: u32)
    requires index <= t < count <= MAX_TARGETS_PER_LISTENER
    ensures WeightedWalk(targets, listenerId, count, index, cursor) == t <==>
            WeightSum(targets, listenerId, index, t) <= cursor
              < WeightSum(targets, listenerId, index, t) + WeightOf(targets, listenerId, t)
    decreases count - index
  {
    var w := WeightOf(targets, listenerId, index);
    if index < t && cursor >= w {
      WalkInterval(targets, listenerId, count, index + 1, cursor - w, t);
    } else if index == t && cursor >= w {
      WalkAfter(targets, listenerId, count, index + 1, cursor - w);
    }
  }

  /** A walk that starts at `index` never returns an earlier slot. */
  lemma {:induction false} WalkAfter(targets: Targets, listenerId: u32, count: u32, index: u32, cursor: nat)
    requires index <= count <= MAX_TARGETS_PER_LISTENER
    ensures WeightedWalk(targets, listenerId, count, index, cursor) >= index
    decreases count - index
  {
    if index < count && cursor >= WeightOf(targets, listenerId, index) {
      WalkAfter(targets, listenerId, count, index + 1, cursor - WeightOf(targets, listenerId, index));
    }
  }

  /** The walk misses exactly when the cursor is beyond the weights there are. */
  lemma {:induction false} WalkMissesIff(targets: Targets, listenerId: u32, count: u32, index: u32, cursor: nat)
    requires index <= count <= MAX_TARGETS_PER_LISTENER
    ensures WeightedWalk(targets, listenerId, count, index, cursor) == MAX_TARGETS_PER_LISTENER <==>
            cursor >= WeightSum(targets, listenerId, index, count)
    decreases count - index
  {
    if index < count && cursor >= WeightOf(targets, listenerId, index) {
      WalkMissesIff(targets, listenerId, count, index + 1, cursor - WeightOf(targets, listenerId, index));
    }
  }

  lemma {:induction false} WeightSumSplit(targets: Targets, listenerId: u32, lo: u32, mid: u32, hi: u32)
    requires lo <= mid <= hi
    ensures WeightSum(targets, listenerId, lo, hi)
         == WeightSum(targets, listenerId, lo, mid) + WeightSum(targets, listenerId, mid, hi)
    decreases mid - lo
  {
    if lo < mid {
      WeightSumSplit(targets, listenerId, lo + 1, mid, hi);
    }
  }

  /** No cursor value makes the weighted selector miss, exactly when the stored total does not exceed the stored
      weights. */
  lemma WeightedNeverMissesIff(targets: Targets, listenerId: u32, weightTotal: u32, count: u32)
    requires 0 < weightTotal && count <= MAX_TARGETS_PER_LISTENER
    ensures (forall hash: u32 :: WeightedPick(targets, listenerId, weightTotal, count, hash) < MAX_TARGETS_PER_LISTENER)
       <==> weightTotal <= WeightSum(targets, listenerId, 0, count)
  {
    var s := WeightSum(targets, listenerId, 0, count);
    if weightTotal <= s {
      forall hash: u32
        ensures WeightedPick(targets, listenerId, weightTotal, count, hash) < MAX_TARGETS_PER_LISTENER
      {
        WalkMissesIff(targets, listenerId, count, 0, hash % weightTotal);
      }
    } else {
      var hash: u32 := s;
      DivModUnique(s, weightTotal, 0, s);
      WalkMissesIff(targets, listenerId, count, 0, s);
      assert WeightedPick(targets, listenerId, weightTotal, count, hash) == MAX_TARGETS_PER_LISTENER;
    }
  }

  /** How many of `weightTotal` consecutive picks, cursor wrap included, are slot `t`. */
  ghost function Shares(targets: Targets, listenerId: u32, weightTotal: u32, count: u32, start: u32, t: u32): (n: nat)
    requires count <= MAX_TARGETS_PER_LISTENER
  {
    Count(j => 0 <= j && WeightedPick(targets, listenerId, weightTotal, count, Later(start, j)) == t, 0, weightTotal)
  }

  /** Over any `weightTotal` consecutive picks whose cursors do not wrap, or wrap with a total that divides 2^32, each
      slot is chosen exactly its weight number of times. */
  lemma WeightedFairness(targets: Targets, listenerId: u32, weightTotal: u32, count: u32, start: u32, t: u32)
    requires 0 < weightTotal == WeightSum(targets, listenerId, 0, count)
    requires t < count <= MAX_TARGETS_PER_LISTENER && NoSkip(start, weightTotal)
    ensures Shares(targets, listenerId, weightTotal, count, start, t) == WeightOf(targets, listenerId, t)
  {
    var pick := j => 0 <= j && WeightedPick(targets, listenerId, weightTotal, count, Later(start, j)) == t;
    var remainder := (c: int) => WeightedWalk(targets, listenerId, count, 0, c % weightTotal) == t;
    var walk := c => c >= 0 && WeightedWalk(targets, listenerId, count, 0, c) == t;
    forall j | 0 <= j < weightTotal
      ensures pick(j) == remainder(j + start)
    {
      LaterRemainder(start, weightTotal, j);
    }
    CountShift(pick, remainder, 0, weightTotal, start);
    CountMod(remainder, walk, start, weightTotal);
    WalkShare(targets, listenerId, weightTotal, count, t);
  }

  lemma WalkShare(targets: Targets, listenerId: u32, weightTotal: u32, count: u32, t: u32)
    requires weightTotal == WeightSum(targets, listenerId, 0, count) && t < count <= MAX_TARGETS_PER_LISTENER
    ensures Count(c => c >= 0 && WeightedWalk(targets, listenerId, count, 0, c) == t, 0, weightTotal)
         == WeightOf(targets, listenerId, t)
  {
    var walk := c => c >= 0 && WeightedWalk(targets, listenerId, count, 0, c) == t;
    var a := WeightSum(targets, listenerId, 0, t);
    var b := a + WeightOf(targets, listenerId, t);
    WeightSumSplit(targets, listenerId, 0, t, count);
    forall c | 0 <= c < weightTotal
      ensures walk(c) <==> a <= c < b
    {
      WalkInterval(targets, listenerId, count, 0, c, t);
    }
    CountInterval(walk, 0, a, b, weightTotal);
  }

  // ---- Least connections -----------------------------------------------------------------------

  /** The scan of `select_least_connections` from `index` on, with the best slot so far. */
  function LeastScan(targets: Targets, active: Loads, listenerId: u32, cursor: u32, count: u32,
                     index: u32, best: u32, bestLoad: u32): (r: u32)
    requires 0 < count <= MAX_TARGETS_PER_LISTENER && index <= count
    decreases count - index
  {
    if index == count then best
    else
      var candidate := Candidate(cursor, index, count);
      var load := GetOr0(active, SlotKey(listenerId, candidate));
      if Usable(targets, listenerId, candidate) && load < bestLoad
      then LeastScan(targets, active, listenerId, cursor, count, index + 1, candidate, load)
      else LeastScan(targets, active, listenerId, cursor, count, index + 1, best, bestLoad)
  }

  function LeastConnections(targets: Targets, active: Loads, listenerId: u32, cursor: u32, count: u32): (r: u32)
    requires 0 < count <= MAX_TARGETS_PER_LISTENER
  {
    LeastScan(targets, active, listenerId, cursor, count, 0, MAX_TARGETS_PER_LISTENER, U32_MAX)
  }

  method ScanLeastConnections(targets: Targets, active: Loads, listenerId: u32, cursor: u32, count: u32)
    returns (best: u32)
    requires 0 < count <= MAX_TARGETS_PER_LISTENER
    ensures best == LeastConnections(targets, active, listenerId, cursor, count)
  {
    best := MAX_TARGETS_PER_LISTENER;
    var bestLoad: u32 := U32_MAX;
    var index: u32 := 0;
    while index < MAX_TARGETS_PER_LISTENER
      invariant index <= MAX_TARGETS_PER_LISTENER
      invariant LeastConnections(targets, active, listenerId, cursor, count)
             == LeastScan(targets, active, listenerId, cursor, count,
                          if index < count then index else count, best, bestLoad)
    {
      if index < count {
        var candidate := Candidate(cursor, index, count);
        var key := SlotKey(listenerId, candidate);
        if key in targets && targets[key].flags % 2 == 1 && targets[key].weight > 0 {
          var load := GetOr0(active, key);
          if load < bestLoad {
            best := candidate;
            bestLoad := load;
          }
        }
      }
      index := index + 1;
    }
  }

  /** `best` is what a scan may hold: nothing yet, or a usable slot with its own load. */
  ghost predicate Held(targets: Targets, active: Loads, listenerId: u32, count: u32, best: u32, bestLoad: u32) {
    (best == MAX_TARGETS_PER_LISTENER && bestLoad == U32_MAX)
    || (best < count && Usable(targets, listenerId, best) && GetOr0(active, SlotKey(listenerId, best)) == bestLoad)
  }

  /** Every slot the scan still visits is no lighter than the result. */
  lemma {:induction false} LeastScanMinimal(targets: Targets, active: Loads, listenerId: u32, cursor: u32, count: u32,
                                            index: u32, best: u32, bestLoad: u32) returns (load: u32)
    requires 0 < count <= MAX_TARGETS_PER_LISTENER && index <= count
    requires Held(targets, active, listenerId, count, best, bestLoad)
    ensures load <= bestLoad
    ensures Held(targets, active, listenerId, count,
                 LeastScan(targets, active, listenerId, cursor, count, index, best, bestLoad), load)
    ensures forall o: nat :: index <= o < count && Usable(targets, listenerId, Candidate(cursor, o, count)) ==>
              load <= GetOr0(active, SlotKey(listenerId, Candidate(cursor, o, count)))
    decreases count - index
  {
    if index == count {
      load := bestLoad;
    } else {
      var candidate := Candidate(cursor, index, count);
      var l := GetOr0(active, SlotKey(listenerId, candidate));
      if Usable(targets, listenerId, candidate) && l < bestLoad {
        load := LeastScanMinimal(targets, active, listenerId, cursor, count, index + 1, candidate, l);
      } else {
        load := LeastScanMinimal(targets, active, listenerId, cursor, count, index + 1, best, bestLoad);
      }
    }
  }

  lemma LeastConnectionsSound(targets: Targets, active: Loads, listenerId: u32, cursor: u32, count: u32)
    requires 0 < count <= MAX_TARGETS_PER_LISTENER
    ensures var r := LeastConnections(targets, active, listenerId, cursor, count);
            r == MAX_TARGETS_PER_LISTENER || (r < count && Usable(targets, listenerId, r))
  {
    var load := LeastScanMinimal(targets, active, listenerId, cursor, count, 0, MAX_TARGETS_PER_LISTENER, U32_MAX);
  }

  /** Least connections returns a usable slot no other usable slot undercuts, unless none is below the saturated
      load. */
  lemma LeastConnectionsMinimal(targets: Targets, active: Loads, listenerId: u32, cursor: u32, count: u32)
    requires 0 < count <= MAX_TARGETS_PER_LISTENER && NoSkip(cursor, count)
    ensures var r := LeastConnections(targets, active, listenerId, cursor, count);
            if AnyOpen(targets, active, listenerId, count) then IsLeastLoaded(targets, active, listenerId, count, r)
            else r == MAX_TARGETS_PER_LISTENER
  {
    var r := LeastConnections(targets, active, listenerId, cursor, count);
    var load := LeastScanMinimal(targets, active, listenerId, cursor, count, 0, MAX_TARGETS_PER_LISTENER, U32_MAX);
    forall t: u32 | t < count && Usable(targets, listenerId, t)
      ensures load <= GetOr0(active, SlotKey(listenerId, t))
    {
      var offset := OffsetOf(cursor, count, t);
    }
    LeastScanStrict(targets, active, listenerId, cursor, count, 0, MAX_TARGETS_PER_LISTENER, U32_MAX);
  }

  /** A slot replaces the initial "none" only with a load strictly below the saturated one. */
  lemma {:induction false} LeastScanStrict(targets: Targets, active: Loads, listenerId: u32, cursor: u32, count: u32,
                                           index: u32, best: u32, bestLoad: u32)
    requires 0 < count <= MAX_TARGETS_PER_LISTENER && index <= count
    requires Held(targets, active, listenerId, count, best, bestLoad)
    requires best < count ==> bestLoad < U32_MAX
    ensures var r := LeastScan(targets, active, listenerId, cursor, count, index, best, bestLoad);
            r < count ==> GetOr0(active, SlotKey(listenerId, r)) < U32_MAX
    decreases count - index
  {
    if index < count {
      var candidate := Candidate(cursor, index, count);
      var l := GetOr0(active, SlotKey(listenerId, candidate));
      if Usable(targets, listenerId, candidate) && l < bestLoad {
        LeastScanStrict(targets, active, listenerId, cursor, count, index + 1, candidate, l);
      } else {
        LeastScanStrict(targets, active, listenerId, cursor, count, index + 1, best, bestLoad);
      }
    }
  }

  lemma {:induction false} LeastScanMisses(targets: Targets, active: Loads, listenerId: u32,
                                           cursor: u32, count: u32, index: u32)
    requires 0 < count <= MAX_TARGETS_PER_LISTENER && index <= count
    requires forall o: nat :: index <= o < count ==> !Usable(targets, listenerId, Candidate(cursor, o, count))
    ensures LeastScan(targets, active, listenerId, cursor, count, index, MAX_TARGETS_PER_LISTENER, U32_MAX)
         == MAX_TARGETS_PER_LISTENER
    decreases count - index
  {
    if index < count {
      LeastScanMisses(targets, active, listenerId, cursor, count, index + 1);
    }
  }

  /** Some usable slot is below the saturated load. */
  ghost predicate AnyOpen(targets: Targets, active: Loads, listenerId: u32, count: u32) {
    exists t: u32 :: t < count && Usable(targets, listenerId, t) && GetOr0(active, SlotKey(listenerId, t)) < U32_MAX
  }

  /** `r` is a usable slot of minimal load. */
  ghost predicate IsLeastLoaded(targets: Targets, active: Loads, listenerId: u32, count: u32, r: u32) {
    r < count && Usable(targets, listenerId, r)
    && forall t: u32 :: t < count && Usable(targets, listenerId, t) ==>
         GetOr0(active, SlotKey(listenerId, r)) <= GetOr0(active, SlotKey(listenerId, t))
  }

  /** Whatever the health and the loads, the result is a least loaded usable slot if one is below saturation. */
  ghost predicate LeastConnectionsComplete(cursor: u32, count: u32)
    requires 0 < count <= MAX_TARGETS_PER_LISTENER
  {
    forall targets: Targets, active: Loads, listenerId: u32 :: AnyOpen(targets, active, listenerId, count) ==>
      IsLeastLoaded(targets, active, listenerId, count, LeastConnections(targets, active, listenerId, cursor, count))
  }

  /** Least connections balances correctly, exactly when its rotation cannot skip a slot. */
  lemma LeastConnectionsCompleteIff(cursor: u32, count: u32)
    requires 0 < count <= MAX_TARGETS_PER_LISTENER
    ensures LeastConnectionsComplete(cursor, count) <==> NoSkip(cursor, count)
  {
    if NoSkip(cursor, count) {
      forall targets: Targets, active: Loads, listenerId: u32 | AnyOpen(targets, active, listenerId, count)
        ensures IsLeastLoaded(targets, active, listenerId, count,
                              LeastConnections(targets, active, listenerId, cursor, count))
      {
        LeastConnectionsMinimal(targets, active, listenerId, cursor, count);
      }
    } else {
      var s := SkippedSlot(cursor, count);
      var only: Targets := map[SlotKey(1, s) := TargetValue(0, 0, 1, 1)];
      var idle: Loads := map[];
      assert Usable(only, 1, s);
      assert AnyOpen(only, idle, 1, count);
      LeastScanMisses(only, idle, 1, cursor, count, 0);
    }
  }
}
