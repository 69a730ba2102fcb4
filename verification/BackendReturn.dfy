/** The backend's reply-learning table: requests teach where their replies must go. */
module BackendReturn {
  import opened Words
  import opened PacketEdit

  const FLOW_TTL_NS: u64 := 10_800_000_000_000

  /** A parsed TCP or UDP packet with its DSCP. */
  datatype BackendPacket = BackendPacket(src: u32, dst: u32, sport: u16, dport: u16, proto: u8, dscp: u8)

  datatype ReplyKey = ReplyKey(src: u32, dst: u32, sport: u16, dport: u16, proto: u8)

  /** The return contract of one DSCP value. */
  datatype Contract = Contract(ifindex: u32, sourceMac: Mac, destinationMac: Mac)

  datatype ReplyFlow = ReplyFlow(expiresNs: u64, contract: Contract)

  type Contracts = map<u8, Contract>

  predicate Complete(c: Contract) {
    c.ifindex != 0 && UnicastMac(c.sourceMac) && UnicastMac(c.destinationMac)
  }

  /** The key a packet is looked up by on egress. */
  function KeyOf(p: BackendPacket): (k: ReplyKey) {
    ReplyKey(p.src, p.dst, p.sport, p.dport, p.proto)
  }

  /** The key of the reply to a request. */
  function ReplyTo(p: BackendPacket): (k: ReplyKey) {
    ReplyKey(p.dst, p.src, p.dport, p.sport, p.proto)
  }

  /** What a request teaches under the contracts in force, if anything. */
  function Lesson(contracts: Contracts, p: BackendPacket, now: u64): (f: Option<ReplyFlow>) {
    if p.dscp !in contracts || !Complete(contracts[p.dscp]) then None
    else Some(ReplyFlow(if now + FLOW_TTL_NS <= U64_MAX then now + FLOW_TTL_NS else U64_MAX, contracts[p.dscp]))
  }

  datatype Backend = Backend(contracts: Contracts, flows: map<ReplyKey, ReplyFlow>)

  /** `ingress`. */
  function Learn(b: Backend, p: BackendPacket, now: u64): (r: Backend) {
    match Lesson(b.contracts, p, now)
    case None => b
    case Some(flow) => b.(flows := b.flows[ReplyTo(p) := flow])
  }

  /** The lookup of `egress`: the contract to steer a packet by, and the table afterwards. */
  function Steer(b: Backend, p: BackendPacket, now: u64): (r: (Backend, Option<Contract>)) {
    var k := KeyOf(p);
    if k !in b.flows then (b, None)
    else if b.flows[k].expiresNs <= now then (b.(flows := b.flows - {k}), None)
    else if !Complete(b.flows[k].contract) then (b, None)
    else (b, Some(b.flows[k].contract))
  }

  datatype Event =
    | Request(p: BackendPacket, now: u64)
    | Reply(p: BackendPacket, now: u64)
    | NewContracts(contracts: Contracts)

  function Step(b: Backend, e: Event): (r: Backend) {
    match e
    case Request(p, now) => Learn(b, p, now)
    case Reply(p, now) => Steer(b, p, now).0
    case NewContracts(contracts) => b.(contracts := contracts)
  }

  function Run(b: Backend, es: seq<Event>): (r: Backend)
    decreases |es|
  {
    if es == [] then b else Step(Run(b, es[..|es| - 1]), es[|es| - 1])
  }

  // ---- The history a reply should be judged by -------------------------------------------------

  /** The contracts in force after a history. */
  function InForce(initial: Contracts, es: seq<Event>): (c: Contracts)
    decreases |es|
  {
    if es == [] then initial
    else if es[|es| - 1].NewContracts? then es[|es| - 1].contracts
    else InForce(initial, es[..|es| - 1])
  }

  /** What the latest request that taught anything about this reply taught. */
  function Latest(initial: Contracts, es: seq<Event>, k: ReplyKey): (f: Option<ReplyFlow>)
    decreases |es|
  {
    if es == [] then None
    else
      var before, last := es[..|es| - 1], es[|es| - 1];
      if last.Request? && ReplyTo(last.p) == k && Lesson(InForce(initial, before), last.p, last.now).Some?
      then Lesson(InForce(initial, before), last.p, last.now)
      else Latest(initial, before, k)
  }

  /** No event happens after `now`, and the clock does not run back. */
  ghost predicate Ordered(es: seq<Event>, now: u64)
    decreases |es|
  {
    es == []
    || (var last := es[|es| - 1];
        if last.NewContracts? then Ordered(es[..|es| - 1], now)
        else last.now <= now && Ordered(es[..|es| - 1], last.now))
  }

  /** The table agrees with the history, except that it may have forgotten what has expired by `now`. */
  ghost predicate Remembers(b: Backend, initial: Contracts, es: seq<Event>, k: ReplyKey, now: u64) {
    if k in b.flows then Latest(initial, es, k) == Some(b.flows[k])
    else Latest(initial, es, k).None? || Latest(initial, es, k).value.expiresNs <= now
  }

  lemma {:induction false} TableRemembers(initial: Contracts, es: seq<Event>, k: ReplyKey, now: u64)
    requires Ordered(es, now)
    ensures var b := Run(Backend(initial, map[]), es);
            b.contracts == InForce(initial, es) && Remembers(b, initial, es, k, now)
            && (k in b.flows ==> Complete(b.flows[k].contract))
    decreases |es|
  {
    if es != [] {
      var before, last := es[..|es| - 1], es[|es| - 1];
      TableRemembers(initial, before, k, if last.NewContracts? then now else last.now);
    }
  }

  lemma SteeredByLatest(initial: Contracts, es: seq<Event>, p: BackendPacket, now: u64)
    requires Ordered(es, now)
    ensures var latest := Latest(initial, es, KeyOf(p));
            Steer(Run(Backend(initial, map[]), es), p, now).1
            == if latest.Some? && latest.value.expiresNs > now then Some(latest.value.contract) else None
  {
    TableRemembers(initial, es, KeyOf(p), now);
  }

  // ---- The same by index -----------------------------------------------------------------------

  /** Event `i` is a request from whom `p` goes to, to whom it comes from, over the same ports and protocol, and a
      contract with interface and addresses was in force for its DSCP. */
  ghost predicate Announces(initial: Contracts, es: seq<Event>, i: int, p: BackendPacket) {
    0 <= i < |es| && es[i].Request?
    && es[i].p.src == p.dst && es[i].p.dst == p.src && es[i].p.sport == p.dport && es[i].p.dport == p.sport
    && es[i].p.proto == p.proto
    && var contracts := InForce(initial, es[..i]);
       es[i].p.dscp in contracts
       && var c := contracts[es[i].p.dscp];
          c.ifindex != 0 && OneStation(c.sourceMac) && OneStation(c.destinationMac)
  }

  /** Event `i` is the last that announces `p`. */
  ghost predicate LastAnnounces(initial: Contracts, es: seq<Event>, i: int, p: BackendPacket) {
    Announces(initial, es, i, p) && forall j :: i < j < |es| ==> !Announces(initial, es, j, p)
  }

  /** The contract a request was learned under. */
  ghost function ContractAt(initial: Contracts, es: seq<Event>, i: int): (c: Contract)
    requires 0 <= i < |es| && es[i].Request? && es[i].p.dscp in InForce(initial, es[..i])
  {
    InForce(initial, es[..i])[es[i].p.dscp]
  }

  function Min(a: int, b: int): (m: int) {
    if a < b then a else b
  }

  lemma AnnouncesEarlier(initial: Contracts, es: seq<Event>, p: BackendPacket)
    requires es != []
    ensures var before := es[..|es| - 1];
            forall i :: 0 <= i < |before| ==> (Announces(initial, es, i, p) <==> Announces(initial, before, i, p))
                                              && es[..i] == before[..i] && es[i] == before[i]
  {
    var before := es[..|es| - 1];
    forall i | 0 <= i < |before|
      ensures Announces(initial, es, i, p) <==> Announces(initial, before, i, p)
      ensures es[..i] == before[..i] && es[i] == before[i]
    {
      assert es[..i] == before[..i];
    }
  }

  lemma CompleteIff(c: Contract)
    ensures Complete(c) <==> c.ifindex != 0 && OneStation(c.sourceMac) && OneStation(c.destinationMac)
  {
    StationIffUnicast(c.sourceMac);
    StationIffUnicast(c.destinationMac);
  }

  /** What the last event of a history teaches about a reply. */
  lemma AnnouncesLast(initial: Contracts, es: seq<Event>, p: BackendPacket)
    requires es != []
    ensures var n := |es| - 1;
            Latest(initial, es, KeyOf(p))
            == if Announces(initial, es, n, p)
               then Some(ReplyFlow(Min(es[n].now + 10_800_000_000_000, U64_MAX), ContractAt(initial, es, n)))
               else Latest(initial, es[..n], KeyOf(p))
  {
    var n := |es| - 1;
    if es[n].Request? && es[n].p.dscp in InForce(initial, es[..n]) {
      CompleteIff(InForce(initial, es[..n])[es[n].p.dscp]);
    }
  }

  /** `latest` is the lesson of event `last`, the last that announces the reply; there is none if no event does. */
  ghost predicate Explains(initial: Contracts, es: seq<Event>, p: BackendPacket, last: int, latest: Option<ReplyFlow>) {
    match latest
    case None => forall i :: !Announces(initial, es, i, p)
    case Some(flow) =>
      LastAnnounces(initial, es, last, p)
      && flow == ReplyFlow(Min(es[last].now + 10_800_000_000_000, U64_MAX), ContractAt(initial, es, last))
  }

  lemma StillExplains(initial: Contracts, es: seq<Event>, p: BackendPacket, last: int, latest: Option<ReplyFlow>)
    requires es != [] && Explains(initial, es[..|es| - 1], p, last, latest) && !Announces(initial, es, |es| - 1, p)
    ensures Explains(initial, es, p, last, latest)
  {
    AnnouncesEarlier(initial, es, p);
  }

  lemma {:induction false} LatestAnnounced(initial: Contracts, es: seq<Event>, p: BackendPacket) returns (last: int)
    ensures Explains(initial, es, p, last, Latest(initial, es, KeyOf(p)))
    decreases |es|
  {
    last := -1;
    if es != [] {
      var n := |es| - 1;
      last := LatestAnnounced(initial, es[..n], p);
      AnnouncesLast(initial, es, p);
      if Announces(initial, es, n, p) {
        last := n;
      } else {
        StillExplains(initial, es, p, last, Latest(initial, es[..n], KeyOf(p)));
      }
    }
  }

  /** A reply is steered by a contract exactly if the last request it answers is less than three hours old and came
      while that contract was in force for the DSCP of the request. */
  lemma SteeredExactlyByLatestRequest(initial: Contracts, es: seq<Event>, p: BackendPacket, now: u64, c: Contract)
    requires Ordered(es, now)
    ensures Steer(Run(Backend(initial, map[]), es), p, now).1 == Some(c)
       <==> exists i :: LastAnnounces(initial, es, i, p) && Min(es[i].now + 10_800_000_000_000, U64_MAX) > now
                        && ContractAt(initial, es, i) == c
  {
    SteeredByLatest(initial, es, p, now);
    var last := LatestAnnounced(initial, es, p);
    forall i | LastAnnounces(initial, es, i, p)
      ensures i == last
    {
    }
  }

  /** A packet no request has announced is never redirected. */
  lemma UnannouncedNeverSteered(initial: Contracts, es: seq<Event>, p: BackendPacket, now: u64)
    requires Ordered(es, now)
    requires forall i :: 0 <= i < |es| && es[i].Request? ==>
               (es[i].p.src, es[i].p.dst, es[i].p.sport, es[i].p.dport, es[i].p.proto)
               != (p.dst, p.src, p.dport, p.sport, p.proto)
    ensures Steer(Run(Backend(initial, map[]), es), p, now).1.None?
  {
    var steered := Steer(Run(Backend(initial, map[]), es), p, now).1;
    if steered.Some? {
      SteeredExactlyByLatestRequest(initial, es, p, now, steered.value);
    }
  }

  // ---- The object ------------------------------------------------------------------------------

  /** What happens to an egress packet. */
  datatype Outcome = Untouched | OnSameDevice(macs: seq<u8>) | Redirected(ifindex: u32, macs: seq<u8>) | Dropped

  class Table {
    var contracts: Contracts
    var flows: map<ReplyKey, ReplyFlow>

    ghost function State(): (b: Backend)
      reads this
    {
      Backend(contracts, flows)
    }

    constructor (initial: Contracts)
      ensures State() == Backend(initial, map[])
    {
      contracts, flows := initial, map[];
    }

    method Ingress(p: BackendPacket, now: u64)
      modifies this`flows
      ensures State() == Learn(old(State()), p, now)
    {
      if p.dscp !in contracts {
        return;
      }
      var contract := contracts[p.dscp];
      if contract.ifindex == 0 || !UnicastMac(contract.sourceMac) || !UnicastMac(contract.destinationMac) {
        return;
      }
      var expires: u64 := if now + FLOW_TTL_NS <= U64_MAX then now + FLOW_TTL_NS else U64_MAX;
      flows := flows[ReplyTo(p) := ReplyFlow(expires, contract)];
    }

    /** `egress` with the outcome of the two foreign calls given. */
    method Egress(p: BackendPacket, now: u64, ifindex: u32, storeOk: bool, redirectOk: bool) returns (outcome: Outcome)
      modifies this`flows
      ensures State() == Steer(old(State()), p, now).0
      ensures match Steer(old(State()), p, now).1
              case None => outcome == Untouched
              case Some(c) =>
                outcome == if !storeOk then Dropped
                           else if ifindex == c.ifindex then OnSameDevice(c.destinationMac + c.sourceMac)
                           else if redirectOk then Redirected(c.ifindex, c.destinationMac + c.sourceMac)
                           else Dropped
    {
      var key := KeyOf(p);
      if key !in flows {
        return Untouched;
      }
      var flow := flows[key];
      if flow.expiresNs <= now {
        flows := flows - {key};
        return Untouched;
      }
      if flow.contract.ifindex == 0 || !UnicastMac(flow.contract.sourceMac)
         || !UnicastMac(flow.contract.destinationMac) {
        return Untouched;
      }
      var macs := flow.contract.destinationMac + flow.contract.sourceMac;
      if !storeOk {
        return Dropped;
      }
      if ifindex == flow.contract.ifindex {
        return OnSameDevice(macs);
      }
      outcome := if redirectOk then Redirected(flow.contract.ifindex, macs) else Dropped;
    }
  }
}
