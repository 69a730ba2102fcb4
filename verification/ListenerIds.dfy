/** Stable listener ids by open addressing. */
module ListenerIds {
  import opened Words
  import opened Tables
  import opened Bits
  import opened Counting
  import opened Rendezvous
  import opened Sorting
  import opened TargetSelect
  import opened Sync

  /** A listener with its lookup key in host byte order. */
  datatype Listener = Listener(vip: u32, port: u16, proto: u8, config: ConfigListener)

  /** `listener_sort_key`, compared as a tuple. */
  predicate KeyLessEq(a: Listener, b: Listener) {
    if a.vip != b.vip then a.vip < b.vip
    else if a.port != b.port then a.port < b.port
    else a.proto <= b.proto
  }

  function ByKey(): (le: (Listener, Listener) -> bool) {
    (a, b) => KeyLessEq(a, b)
  }

  lemma KeyOrder()
    ensures TotalPreorder(ByKey())
  {
  }

  ghost predicate DistinctKeys(ls: seq<Listener>) {
    forall i, j :: 0 <= i < j < |ls| ==> (ls[i].vip, ls[i].port, ls[i].proto) != (ls[j].vip, ls[j].port, ls[j].proto)
  }

  function Fnv(bytes: seq<u8>, hash: u32): (r: u32)
    decreases |bytes|
  {
    if bytes == [] then hash else Fnv(bytes[1..], Xor32(hash, bytes[0]) * FNV32 % M32)
  }

  /** `stable_listener_id`: where probing starts. */
  function HomeId(l: Listener): (id: u32)
    ensures 1 <= id <= LISTENER_ID_CAPACITY
  {
    Fnv([l.vip / 0x100_0000, l.vip / 0x1_0000 % 256, l.vip / 0x100 % 256, l.vip % 256,
         l.port / 256, l.port % 256, l.proto], 0x811c_9dc5) % LISTENER_ID_CAPACITY + 1
  }

  /** The `n`-th id tried from `home` on, wrapping from the last id to 1. */
  function Tried(home: u32, n: nat): (r: u32)
    requires 1 <= home <= LISTENER_ID_CAPACITY
    ensures 1 <= r <= LISTENER_ID_CAPACITY
  {
    (home - 1 + n) % LISTENER_ID_CAPACITY + 1
  }

  /** The probing order: one full round. */
  function Round(home: u32): (ids: seq<u32>)
    requires 1 <= home <= LISTENER_ID_CAPACITY
    ensures |ids| == LISTENER_ID_CAPACITY && forall n :: 0 <= n < |ids| ==> ids[n] == Tried(home, n)
  {
    seq(LISTENER_ID_CAPACITY, n requires 0 <= n => Tried(home, n))
  }

  function FirstFree(used: set<u32>, ids: seq<u32>): (r: Option<u32>)
    ensures r.Some? ==> r.value in ids && r.value !in used
    ensures r.None? ==> forall id :: id in ids ==> id in used
    decreases |ids|
  {
    if ids == [] then None
    else if ids[0] !in used then Some(ids[0])
    else FirstFree(used, ids[1..])
  }

  /** The ids from 1 to `n`. */
  ghost function IdsUpTo(n: nat): (s: set<u32>)
    requires n <= LISTENER_ID_CAPACITY
    ensures |s| == n && forall i: u32 :: i in s <==> 1 <= i <= n
  {
    if n == 0 then {} else IdsUpTo(n - 1) + {n as u32}
  }

  /** One round tries every id. */
  lemma RoundReaches(home: u32, i: u32)
    requires 1 <= home <= LISTENER_ID_CAPACITY && 1 <= i <= LISTENER_ID_CAPACITY
    ensures i in Round(home)
  {
    var n := if i >= home then i - home else i - home + LISTENER_ID_CAPACITY;
    assert Round(home)[n] == i;
  }

  /** Pigeonhole: while fewer ids are used than there are, probing succeeds. */
  lemma ProbeSucceeds(used: set<u32>, home: u32, n: nat)
    requires 1 <= home <= LISTENER_ID_CAPACITY && |used| < n == LISTENER_ID_CAPACITY
    ensures FirstFree(used, Round(home)).Some?
  {
    if FirstFree(used, Round(home)) == None {
      forall i: u32 | 1 <= i <= n
        ensures i in used
      {
        RoundReaches(home, i);
      }
      SubsetSize(IdsUpTo(n), used);
    }
  }

  /** The inner loop of `stable_listener_assignments`, walking the probing order `round`. */
  method FindId(used: set<u32>, home: u32, ghost round: seq<u32>) returns (r: Option<u32>)
    requires 1 <= home <= LISTENER_ID_CAPACITY && |round| == LISTENER_ID_CAPACITY
    requires forall n :: 0 <= n < |round| ==> round[n] == Tried(home, n)
    ensures r == FirstFree(used, round)
  {
    var id := home;
    var attempt := 0;
    while attempt < LISTENER_ID_CAPACITY
      invariant 0 <= attempt <= |round| && id == Tried(home, attempt)
      invariant FirstFree(used, round) == FirstFree(used, round[attempt..])
    {
      DropOne(used, round, attempt);
      TriedNext(home, attempt);
      if id !in used {
        return Some(id);
      }
      id := id + 1;
      if id > LISTENER_ID_CAPACITY {
        id := 1;
      }
      attempt := attempt + 1;
    }
    r := None;
  }

  lemma TriedNext(home: u32, n: nat)
    requires 1 <= home <= LISTENER_ID_CAPACITY
    ensures Tried(home, n + 1) == if Tried(home, n) + 1 > LISTENER_ID_CAPACITY then 1 else Tried(home, n) + 1
  {
  }

  lemma DropOne(used: set<u32>, ids: seq<u32>, n: nat)
    requires n < |ids|
    ensures FirstFree(used, ids[n..]) == if ids[n] !in used then Some(ids[n]) else FirstFree(used, ids[n + 1..])
  {
    assert ids[n..][0] == ids[n] && ids[n..][1..] == ids[n + 1..];
  }

  /** Where each listener starts to probe. */
  type Homes = f: Listener -> u32 | forall l :: 1 <= f(l) <= LISTENER_ID_CAPACITY witness (l: Listener) => 1

  /** Ids for listeners in processing order, given the ids taken so far; a listener without a free id is skipped. */
  function AssignFrom(home: Homes, ls: seq<Listener>, used: set<u32>): (out: seq<(u32, Listener)>)
    decreases |ls|
  {
    if ls == [] then []
    else
      match FirstFree(used, Round(home(ls[0])))
      case None => AssignFrom(home, ls[1..], used)
      case Some(id) => [(id, ls[0])] + AssignFrom(home, ls[1..], used + {id})
  }

  /** `stable_listener_assignments`, before the capacity checks. */
  function Assignments(ls: seq<Listener>): (out: seq<(u32, Listener)>) {
    AssignFrom(HomeId, SortBy(ls, ByKey()), {})
  }

  ghost predicate Injective(out: seq<(u32, Listener)>, used: set<u32>) {
    (forall i :: 0 <= i < |out| ==> 1 <= out[i].0 <= LISTENER_ID_CAPACITY && out[i].0 !in used)
    && (forall i, j :: 0 <= i < j < |out| ==> out[i].0 != out[j].0)
  }

  /** Within capacity every listener gets an id of its own, in order, wherever probing starts. */
  lemma {:induction false} AssignComplete(home: Homes, ls: seq<Listener>, used: set<u32>)
    requires |used| + |ls| <= LISTENER_ID_CAPACITY
    ensures var out := AssignFrom(home, ls, used);
            |out| == |ls| && Injective(out, used) && forall i :: 0 <= i < |ls| ==> out[i].1 == ls[i]
    decreases |ls|
  {
    if ls != [] {
      ProbeSucceeds(used, home(ls[0]), LISTENER_ID_CAPACITY);
      var id := FirstFree(used, Round(home(ls[0]))).value;
      AssignComplete(home, ls[1..], used + {id});
    }
  }

  /** The outer loop of `stable_listener_assignments`. */
  method AssignInOrder(home: Homes, ordered: seq<Listener>) returns (out: seq<(u32, Listener)>)
    ensures out == AssignFrom(home, ordered, {})
  {
    var used: set<u32> := {};
    out := [];
    for i := 0 to |ordered|
      invariant out + AssignFrom(home, ordered[i..], used) == AssignFrom(home, ordered, {})
    {
      var id := FindId(used, home(ordered[i]), Round(home(ordered[i])));
      AssignStep(home, ordered, i, used);
      if id.Some? {
        Regroup(out, (id.value, ordered[i]), AssignFrom(home, ordered[i + 1..], used + {id.value}));
        used := used + {id.value};
        out := out + [(id.value, ordered[i])];
      }
    }
    assert out + [] == out;
  }

  /** `stable_listener_assignments`. */
  method StableAssignments(ls: seq<Listener>) returns (r: Option<seq<(u32, Listener)>>)
    ensures r.None? <==> |ls| > LISTENER_ID_CAPACITY
    ensures r.Some? ==> r.value == Assignments(ls) && Injective(r.value, {})
    ensures r.Some? ==> |r.value| == |ls| && forall i :: 0 <= i < |ls| ==> r.value[i].1 == SortBy(ls, ByKey())[i]
  {
    if |ls| > LISTENER_ID_CAPACITY {
      return None;
    }
    var ordered := SortBy(ls, ByKey());
    AssignComplete(HomeId, ordered, {});
    var out := AssignInOrder(HomeId, ordered);
    if |out| != |ls| {
      return None;
    }
    r := Some(out);
  }

  lemma Regroup<T>(a: seq<T>, x: T, b: seq<T>)
    ensures a + ([x] + b) == (a + [x]) + b
  {
  }

  lemma AssignStep(home: Homes, ls: seq<Listener>, i: nat, used: set<u32>)
    requires i < |ls|
    ensures AssignFrom(home, ls[i..], used)
         == match FirstFree(used, Round(home(ls[i])))
            case None => AssignFrom(home, ls[i + 1..], used)
            case Some(id) => [(id, ls[i])] + AssignFrom(home, ls[i + 1..], used + {id})
  {
    assert ls[i..][0] == ls[i] && ls[i..][1..] == ls[i + 1..];
  }

  /** The ids depend on the set of listeners, not on the order of the configuration. */
  lemma AssignmentsForgetOrder(a: seq<Listener>, b: seq<Listener>)
    requires multiset(a) == multiset(b) && DistinctKeys(a)
    ensures Assignments(a) == Assignments(b)
  {
    KeyOrder();
    forall x, y | x in a && y in a && KeyLessEq(x, y) && KeyLessEq(y, x)
      ensures x == y
    {
      var i :| 0 <= i < |a| && a[i] == x;
      var j :| 0 <= j < |a| && a[j] == y;
      assert i == j;
    }
    SortForgetsOrder(a, b, ByKey());
  }

  /** Listeners that start probing at different ids get those ids, whatever other listeners there are and in whatever
      order they come. */
  lemma {:induction false} NoCollisionKeepsHome(home: Homes, ls: seq<Listener>, used: set<u32>)
    requires forall i :: 0 <= i < |ls| ==> home(ls[i]) !in used
    requires forall i, j :: 0 <= i < j < |ls| ==> home(ls[i]) != home(ls[j])
    ensures var out := AssignFrom(home, ls, used);
            |out| == |ls| && forall i :: 0 <= i < |ls| ==> out[i] == (home(ls[i]), ls[i])
    decreases |ls|
  {
    if ls != [] {
      var round := Round(home(ls[0]));
      assert round[0] == home(ls[0]);
      NoCollisionKeepsHome(home, ls[1..], used + {home(ls[0])});
    }
  }

  lemma {:induction false} FnvLast(bytes: seq<u8>, b: u8, hash: u32)
    ensures Fnv(bytes + [b], hash) == Xor32(Fnv(bytes, hash), b) * FNV32 % M32
    decreases |bytes|
  {
    if bytes == [] {
      assert (bytes + [b])[1..] == [];
    } else {
      assert (bytes + [b])[1..] == bytes[1..] + [b];
      FnvLast(bytes[1..], b, Xor32(hash, bytes[0]) * FNV32 % M32);
    }
  }

  /** A last byte that differs leaves hashes that differ modulo 4096. */
  lemma LastByteTells(state: u32, a: u8, b: u8)
    requires Xor32(state, a) * FNV32 % M32 % 4096 == Xor32(state, b) * FNV32 % M32 % 4096
    ensures a == b
  {
    var x, y := Xor32(state, a), Xor32(state, b);
    Pow2Byte(0);
    NearWords(state, a, b, 8);
    var m, n := x * FNV32 / M32, y * FNV32 / M32;
    var p, q := x * FNV32 % M32 / 4096, y * FNV32 % M32 / 4096;
    var e := (m - n) * 0x10_0000 + p - q;
    assert (x - y) * FNV32 == e * 4096;
    OddTimes(x - y, e);
    XorCancel(state, a, b);
  }

  /** The multiplier is odd, so it does not make a small difference a multiple of 4096. */
  lemma OddTimes(d: int, e: int)
    requires -256 < d < 256 && d * FNV32 == e * 4096
    ensures d == 0
  {
    assert d * 403 == (e - d * 4096) * 4096;
    assert d == ((e - d * 4096) * 1179 - d * 116) * 4096;
  }

  lemma NearWords(state: u32, a: u8, b: u8, eight: nat)
    requires Pow2(eight) == 256
    ensures -256 < Xor32(state, a) - Xor32(state, b) < 256
  {
    ByteIsShort(state, a, eight);
    ByteIsShort(state, b, eight);
    SameHighPart(Xor(state, a), Xor(state, b), eight);
  }

  lemma ByteIsShort(state: u32, a: u8, eight: nat)
    requires Pow2(eight) == 256
    ensures Shr(Xor(state, a), eight) == Shr(state, eight)
  {
    ShrXor(state, a, eight);
    ShrSmall(a, eight);
    XorZero(Shr(state, eight));
  }

  /** The bytes of the listener key before the protocol. */
  function Prefix(l: Listener): (bytes: seq<u8>) {
    [l.vip / 0x100_0000, l.vip / 0x1_0000 % 256, l.vip / 0x100 % 256, l.vip % 256, l.port / 256, l.port % 256]
  }

  lemma HomeOf(l: Listener, seed: u32)
    requires seed == 0x811c_9dc5
    ensures HomeId(l) == Xor32(Fnv(Prefix(l), seed), l.proto) * FNV32 % M32 % 4096 + 1
  {
    FnvLast(Prefix(l), l.proto, seed);
    assert Prefix(l) + [l.proto] == [l.vip / 0x100_0000, l.vip / 0x1_0000 % 256, l.vip / 0x100 % 256, l.vip % 256,
                                     l.port / 256, l.port % 256, l.proto];
  }

  /** A TCP and a UDP listener on one VIP and port never start probing at the same id. */
  lemma ProtocolsStartApart(l: Listener, proto: u8)
    requires proto != l.proto
    ensures HomeId(l.(proto := proto)) != HomeId(l)
  {
    var other := l.(proto := proto);
    HomeOf(l, 0x811c_9dc5);
    HomeOf(other, 0x811c_9dc5);
    if HomeId(other) == HomeId(l) {
      LastByteTells(Fnv(Prefix(l), 0x811c_9dc5), l.proto, proto);
    }
  }

  /** Every assigned id has a rotation cursor of its own inside the counter array. */
  lemma CursorsInBounds(ls: seq<Listener>, i: nat, j: nat)
    requires |ls| <= LISTENER_ID_CAPACITY && i < |Assignments(ls)| && j < |Assignments(ls)|
    ensures CursorIndex(Assignments(ls)[i].0) < LISTENER_ID_CAPACITY
    ensures CursorIndex(Assignments(ls)[i].0) == CursorIndex(Assignments(ls)[j].0) ==> i == j
  {
    var ordered := SortBy(ls, ByKey());
    AssignComplete(HomeId, ordered, {});
  }

  /** The assignment as the map synchronisation consumes it. */
  function ForSync(out: seq<(u32, Listener)>): (ids: seq<Assigned>) {
    seq(|out|, i requires 0 <= i < |out| => (out[i].0, out[i].1.config))
  }

  /** Assigned ids never make two listeners share map entries. */
  lemma AssignedIdsDistinct(ls: seq<Listener>)
    requires |ls| <= LISTENER_ID_CAPACITY
    ensures DistinctIds(ForSync(Assignments(ls)))
  {
    AssignComplete(HomeId, SortBy(ls, ByKey()), {});
  }
}
