/** Records of the native datapath maps. */
module Tables {
  import opened Words

  const MAX_TARGETS_PER_LISTENER: u32 := 64
  const CONSISTENT_HASH_BUCKETS: u32 := 1024
  const LISTENER_ID_CAPACITY: u32 := 4096

  const SELECT_RR: u32 := 0
  const SELECT_HASH: u32 := 1
  const SELECT_PRIORITY: u32 := 2
  const SELECT_PERSIST: u32 := 3
  const SELECT_LC: u32 := 4
  const SELECT_CONSISTENT_HASH: u32 := 5

  /** `port` is in network byte order. */
  datatype ListenerKey = ListenerKey(vip: u32, port: u16, proto: u8)

  /** The listener fields the datapath reads. */
  datatype ListenerValue = ListenerValue(
    listenerId: u32, targetCount: u32, weightTotal: u32, select: u32, timeoutSecs: u32)

  /** Key of one target slot; also the key of its active-flow counter. */
  datatype SlotKey = SlotKey(listenerId: u32, targetId: u32)

  /** `port` is in host byte order. */
  datatype TargetValue = TargetValue(address: u32, port: u16, weight: u16, flags: u32)

  datatype BucketKey = BucketKey(listenerId: u32, bucket: u32)

  type Targets = map<SlotKey, TargetValue>
  type Loads = map<SlotKey, u32>
  type Buckets = map<BucketKey, u32>

  /** `target_slot_is_usable`. */
  predicate Usable(targets: Targets, listenerId: u32, targetId: u32) {
    var key := SlotKey(listenerId, targetId);
    key in targets && targets[key].flags % 2 == 1 && targets[key].weight > 0
  }
}
