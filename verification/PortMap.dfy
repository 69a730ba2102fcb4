/** Updating the set of marked ports in a kernel map that is read while it changes. */
module PortMap {
  import opened Words
  import opened Counting

  const MAX_PORTS: nat := 16
  const CAPACITY: nat := 32

  datatype Outcome = Done | ReadFailed | InsertFailed(rolledBack: bool) | RemoveFailed

  function PortSet(ports: seq<u32>): (s: set<u32>) {
    set p | p in ports
  }

  ghost predicate Acceptable(dscp: u32, ports: seq<u32>) {
    dscp < 64 && |PortSet(ports)| <= MAX_PORTS && forall p :: p in ports ==> 1 <= p <= 65535
  }

  /** `validate`. */
  method Validate(dscp: u32, ports: seq<u32>) returns (ok: bool)
    ensures ok <==> Acceptable(dscp, ports)
  {
    if dscp >= 64 || |PortSet(ports)| > MAX_PORTS {
      return false;
    }
    for i := 0 to |ports|
      invariant forall j :: 0 <= j < i ==> 1 <= ports[j] <= 65535
    {
      if ports[i] == 0 || ports[i] > 65535 {
        assert ports[i] in ports;
        return false;
      }
    }
    ok := true;
  }

  /** What a reader may see while the keys `before` are replaced by `desired`. */
  ghost predicate Between(keys: set<u32>, before: set<u32>, desired: set<u32>) {
    (forall k :: k in before && k in desired ==> k in keys) && (forall k :: k in keys ==> k in before || k in desired)
  }

  /** A reader never finds more keys than the map reserves room for. */
  lemma BetweenFits(keys: set<u32>, before: set<u32>, desired: set<u32>)
    requires Between(keys, before, desired) && |before| <= MAX_PORTS && |desired| <= MAX_PORTS
    ensures |keys| <= CAPACITY
  {
    assert keys <= before + desired;
    SubsetSize(keys, before + desired);
  }

  /** A map with these keys takes one more. */
  predicate HasRoom(keys: set<u32>) {
    |keys| < CAPACITY
  }

  /** There is room for another key until all of `before` and `desired` are in. */
  ghost predicate RoomForBoth(room: set<u32> -> bool, before: set<u32>, desired: set<u32>) {
    forall s :: s < before + desired ==> room(s)
  }

  /** The reserved capacity is room enough for two full port sets. */
  lemma CapacityIsRoom(before: set<u32>, desired: set<u32>)
    requires |before| <= MAX_PORTS && |desired| <= MAX_PORTS
    ensures RoomForBoth(HasRoom, before, desired)
  {
    CapacityDecides(before, desired);
  }

  /** There was room for the last of the new ports. */
  ghost predicate RoomForLast(room: set<u32> -> bool, before: set<u32>, after: set<u32>) {
    after <= before || exists k :: k in after && k !in before && room(after - {k})
  }

  /** With the kernel's capacity both conditions say that the old and the new ports fit together, or nothing is new. */
  lemma CapacityDecides(before: set<u32>, desired: set<u32>)
    ensures |before + desired| <= CAPACITY ==> RoomForBoth(HasRoom, before, desired)
    ensures RoomForLast(HasRoom, before, before + desired) ==> desired <= before || |before + desired| <= CAPACITY
  {
    var all := before + desired;
    forall s | s < all && |all| <= CAPACITY
      ensures HasRoom(s)
    {
      var k :| k in all && k !in s;
      SubsetSize(s + {k}, all);
    }
    if k :| k in all && k !in before && HasRoom(all - {k}) {
      assert all == all - {k} + {k};
    }
  }

  /** `existing` with the given ports stored as 1. */
  function Stored(existing: map<u32, u32>, ports: set<u32>): (r: map<u32, u32>) {
    map k | k in existing.Keys + ports :: if k in ports then 1 else existing[k]
  }

  /** A state of an update: some desired ports are stored, and then either some of the new ones are rolled back or,
      with all desired ports stored, some others are removed. */
  ghost predicate Stage(now: map<u32, u32>, existing: map<u32, u32>, desired: set<u32>,
                        done: set<u32>, gone: set<u32>) {
    done <= desired && now == Stored(existing, done) - gone
    && (gone <= done - existing.Keys || (done == desired && gone <= existing.Keys - desired))
  }

  lemma StageBetween(now: map<u32, u32>, existing: map<u32, u32>, desired: set<u32>, done: set<u32>, gone: set<u32>)
    requires Stage(now, existing, desired, done, gone)
    ensures now.Keys == existing.Keys + done - gone && Between(now.Keys, existing.Keys, desired)
  {
    assert now.Keys == existing.Keys + done - gone;
  }

  /** Values are the old ones, or 1 for a desired port. */
  ghost predicate ValuesKept(now: map<u32, u32>, before: map<u32, u32>, desired: set<u32>) {
    forall k :: k in now ==> (k in before && now[k] == before[k]) || (k in desired && now[k] == 1)
  }

  lemma StoreOne(now: map<u32, u32>, existing: map<u32, u32>, done: set<u32>, port: u32)
    requires now == Stored(existing, done)
    ensures now[port := 1] == Stored(existing, done + {port})
    ensures port in existing && existing[port] == 1 ==> now == Stored(existing, done + {port})
  {
  }

  /** Until all desired ports are in, the stored ones are fewer than all. */
  lemma StoredWithin(existing: map<u32, u32>, done: set<u32>, desired: set<u32>, port: u32)
    requires done <= desired && port in desired
    ensures port !in Stored(existing, done) ==> Stored(existing, done).Keys < existing.Keys + desired
  {
    assert Stored(existing, done).Keys == existing.Keys + done;
  }

  lemma LastRoom(room: set<u32> -> bool, before: set<u32>, keys: set<u32>, port: u32)
    requires before <= keys && RoomForLast(room, before, keys)
    ensures port in keys || room(keys) ==> RoomForLast(room, before, keys + {port})
  {
    if port in keys {
      assert keys + {port} == keys;
    } else {
      assert keys + {port} - {port} == keys;
    }
  }

  lemma RemoveOne(now: map<u32, u32>, stored: map<u32, u32>, gone: set<u32>, port: u32)
    requires now == stored - gone && port in stored && port !in gone
    ensures port in now && now - {port} == stored - (gone + {port})
  {
  }

  // ---- The map ---------------------------------------------------------------------------------

  /** A bounded kernel hash map whose calls may fail: call number `n` fails if `faults(n)`. */
  class Kernel {
    var entries: map<u32, u32>
    var calls: nat
    /** Whether a map with the given keys takes another one. */
    const room: set<u32> -> bool
    const faults: nat -> bool
    /** Every key set the map has had after a write, oldest first. */
    ghost var seen: seq<set<u32>>

    constructor (room: set<u32> -> bool, faults: nat -> bool)
      ensures entries == map[] && seen == [] && this.room == room && this.faults == faults
    {
      this.room, this.faults := room, faults;
      entries, calls, seen := map[], 0, [];
    }

    /** Reading all entries. */
    method Read() returns (ok: bool, all: map<u32, u32>)
      modifies this`calls
      ensures calls == old(calls) + 1 && ok == !faults(old(calls)) && (ok ==> all == entries)
    {
      ok, all := !faults(calls), entries;
      calls := calls + 1;
    }

    /** Insertion fails on a fault, or for want of room. */
    method Insert(key: u32, value: u32) returns (ok: bool)
      modifies this
      ensures calls == old(calls) + 1
      ensures ok == (!faults(old(calls)) && (key in old(entries) || room(old(entries).Keys)))
      ensures entries == (if ok then old(entries)[key := value] else old(entries))
      ensures seen == old(seen) + [entries.Keys]
    {
      ok := !faults(calls) && (key in entries || room(entries.Keys));
      calls := calls + 1;
      if ok {
        entries := entries[key := value];
      }
      seen := seen + [entries.Keys];
    }

    /** Removal fails on a fault, or for an absent key. */
    method Remove(key: u32) returns (ok: bool)
      modifies this
      ensures calls == old(calls) + 1
      ensures ok == (!faults(old(calls)) && key in old(entries))
      ensures entries == (if ok then old(entries) - {key} else old(entries))
      ensures seen == old(seen) + [entries.Keys]
    {
      ok := !faults(calls) && key in entries;
      calls := calls + 1;
      if ok {
        entries := entries - {key};
      }
      seen := seen + [entries.Keys];
    }

    ghost predicate Reliable() {
      forall n :: !faults(n)
    }

    /** All key sets seen since a point in time lie between the old and the desired set. */
    ghost predicate SeenBetween(since: seq<set<u32>>, before: set<u32>, desired: set<u32>)
      reads this
    {
      since <= seen && forall i :: |since| <= i < |seen| ==> Between(seen[i], before, desired)
    }

    /** `write_ports`: insert what is missing, then remove what is left over. Ends with the desired ports, or says at
        which step it failed and what is then left. Without faults it can fail only for want of room. */
    method WritePorts(ports: seq<u32>) returns (r: Outcome)
      modifies this
      ensures SeenBetween(old(seen), old(entries).Keys, PortSet(ports))
      ensures ValuesKept(entries, old(entries), PortSet(ports))
      ensures r.Done? ==> entries == map p | p in PortSet(ports) :: 1
      ensures r.ReadFailed? ==> entries == old(entries)
      ensures r == InsertFailed(true) ==> entries.Keys == old(entries).Keys
      ensures r == InsertFailed(false) ==> old(entries).Keys <= entries.Keys
      ensures r.RemoveFailed? ==> PortSet(ports) <= entries.Keys
      ensures Reliable() ==> r.Done? || r == InsertFailed(true)
      ensures Reliable() && RoomForBoth(room, old(entries).Keys, PortSet(ports)) ==> r.Done?
      ensures r.Done? ==> RoomForLast(room, old(entries).Keys, old(entries).Keys + PortSet(ports))
    {
      var desired := PortSet(ports);
      var readable, existing := Read();
      if !readable {
        return ReadFailed;
      }
      var ok, inserted, done := InsertMissing(existing, desired);
      if ok {
        assert entries.Keys == existing.Keys + desired;
        var removed, gone := RemoveOthers(existing, desired);
        StageBetween(entries, existing, desired, desired, gone);
        r := if removed then Done else RemoveFailed;
      } else {
        var rolledBack, gone := Rollback(inserted, existing, desired, done);
        StageBetween(entries, existing, desired, done, gone);
        r := InsertFailed(rolledBack);
      }
    }

    /** Every desired port that is not already stored with 1 is inserted; stops at the first failure. */
    method InsertMissing(existing: map<u32, u32>, desired: set<u32>)
      returns (ok: bool, inserted: set<u32>, ghost done: set<u32>)
      requires entries == existing
      modifies this
      ensures SeenBetween(old(seen), existing.Keys, desired)
      ensures Stage(entries, existing, desired, done, {}) && inserted == done - existing.Keys
      ensures ok ==> done == desired && RoomForLast(room, existing.Keys, entries.Keys)
      ensures Reliable() && RoomForBoth(room, existing.Keys, desired) ==> ok
    {
      inserted, done := {}, {};
      var todo := desired;
      assert existing == Stored(existing, {});
      while todo != {}
        invariant SeenBetween(old(seen), existing.Keys, desired)
        invariant todo <= desired && done == desired - todo && inserted == done - existing.Keys
        invariant entries == Stored(existing, done) && RoomForLast(room, existing.Keys, entries.Keys)
        decreases todo
      {
        var port :| port in todo;
        todo := todo - {port};
        StoreOne(entries, existing, done, port);
        StoredWithin(existing, done, desired, port);
        ok := StorePort(port, existing);
        StageBetween(entries, existing, desired, if ok then done + {port} else done, {});
        if !ok {
          return;
        }
        if port !in existing {
          inserted := inserted + {port};
        }
        done := done + {port};
      }
      ok := true;
    }

    /** One round of the insertion loop. */
    method StorePort(port: u32, existing: map<u32, u32>) returns (ok: bool)
      requires existing.Keys <= entries.Keys && RoomForLast(room, existing.Keys, entries.Keys)
      modifies this
      ensures ok ==> RoomForLast(room, existing.Keys, entries.Keys)
      ensures if ok && !(port in existing && existing[port] == 1) then entries == old(entries)[port := 1]
              else entries == old(entries)
      ensures seen == old(seen) || seen == old(seen) + [entries.Keys]
      ensures !ok && Reliable() ==> port !in entries && !room(entries.Keys)
    {
      if port in existing && existing[port] == 1 {
        return true;
      }
      LastRoom(room, existing.Keys, entries.Keys, port);
      ghost var keys := entries.Keys;
      ok := Insert(port, 1);
      assert ok ==> entries.Keys == keys + {port};
    }

    /** Remove what was inserted; a failure is noted and the rest goes on. */
    method Rollback(inserted: set<u32>, existing: map<u32, u32>, desired: set<u32>, ghost done: set<u32>)
      returns (all: bool, ghost gone: set<u32>)
      requires Stage(entries, existing, desired, done, {}) && inserted == done - existing.Keys
      modifies this
      ensures SeenBetween(old(seen), existing.Keys, desired)
      ensures Stage(entries, existing, desired, done, gone) && gone <= inserted
      ensures all ==> gone == inserted
      ensures Reliable() ==> all
    {
      all, gone := true, {};
      var todo := inserted;
      ghost var stored := Stored(existing, done);
      while todo != {}
        invariant SeenBetween(old(seen), existing.Keys, desired)
        invariant todo <= inserted && gone <= inserted - todo && entries == stored - gone
        invariant all ==> gone == inserted - todo
        invariant Reliable() ==> all
        decreases todo
      {
        var port :| port in todo;
        todo := todo - {port};
        RemoveOne(entries, stored, gone, port);
        var removed := Remove(port);
        gone := if removed then gone + {port} else gone;
        StageBetween(entries, existing, desired, done, gone);
        all := all && removed;
      }
    }

    /** Remove every port that is no longer desired; stops at the first failure. */
    method RemoveOthers(existing: map<u32, u32>, desired: set<u32>) returns (ok: bool, ghost gone: set<u32>)
      requires Stage(entries, existing, desired, desired, {})
      modifies this
      ensures SeenBetween(old(seen), existing.Keys, desired)
      ensures Stage(entries, existing, desired, desired, gone) && gone <= existing.Keys - desired
      ensures ok ==> entries == map p | p in desired :: 1
      ensures Reliable() ==> ok
    {
      gone := {};
      var todo := existing.Keys - desired;
      ghost var stored := Stored(existing, desired);
      while todo != {}
        invariant SeenBetween(old(seen), existing.Keys, desired)
        invariant todo <= existing.Keys - desired && gone == existing.Keys - desired - todo && entries == stored - gone
        decreases todo
      {
        var port :| port in todo;
        todo := todo - {port};
        RemoveOne(entries, stored, gone, port);
        var removed := Remove(port);
        StageBetween(entries, existing, desired, desired, if removed then gone + {port} else gone);
        if !removed {
          return false, gone;
        }
        gone := gone + {port};
      }
      ok := true;
    }
  }
}
