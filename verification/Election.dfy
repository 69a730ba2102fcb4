/** The active/backup election of two paired gateways, over whole runs of reconciliations. */
module Election {
  import opened Words

  /** A gateway as both nodes' gateway lists know it. */
  datatype Gateway = Gateway(name: string, underlay: u32)

  /** One node: itself, the gateway its active record resolves to, and the record's revision. */
  datatype Node = Node(self: Gateway, active: Gateway, revision: int)

  datatype Cluster = Cluster(a: Node, b: Node)

  datatype Session = Up | Down | Negotiating

  /** How far a switch of the active gateway got: not at all, up to notifying the peer, or to the end. */
  datatype Effect = Failed | PeerNotified | Done

  /** One reconciliation: on node `a` or `b`, with what that node observes. `answers`: the peer's status is obtained;
      `reachable`: the peer's control plane accepts a connection; `clock` and `peerClock` time the record writes. */
  datatype Event = Event(
    onA: bool, session: Session, peerWasUp: bool, reachable: bool, answers: bool,
    effect: Effect, clock: int, peerClock: int)

  predicate Is(g: Gateway, h: Gateway) {
    g.name == h.name || g.underlay == h.underlay
  }

  predicate Master(n: Node) {
    Is(n.active, n.self)
  }

  /** A record write takes a revision later than the last. */
  function Write(n: Node, active: Gateway, clock: int): (r: Node)
    ensures r.revision > n.revision
  {
    n.(active := active, revision := if clock > n.revision then clock else n.revision + 1)
  }

  /** `should_promote_local`. */
  predicate ShouldPromote(
    local: string, preferred: Option<string>, session: Session, peerWasUp: bool, activeIsPeer: bool, reachable: bool)
  {
    session.Down?
    && (peerWasUp
        || (activeIsPeer && !reachable && preferred != Some(local))
        || (!activeIsPeer && preferred == Some(local)))
  }

  /** `peer_status_is_newer_master`, on the status the peer reports. */
  predicate NewerMaster(peer: Node, revision: int) {
    Master(peer) && peer.active.name == peer.self.name && peer.revision > revision
  }

  /** `reconcile_election`: the node and its peer afterwards. */
  function Reconcile(me: Node, peer: Node, preferred: Option<string>, e: Event): (r: (Node, Node)) {
    var activeIsPeer := Is(me.active, peer.self);
    var reachable := activeIsPeer && !e.peerWasUp && e.reachable;
    if e.session.Up? && Master(me) && e.answers && NewerMaster(peer, me.revision) then
      (if e.effect.Done? then Write(me, peer.self, e.clock) else me,
       if e.effect.Failed? then peer else Write(peer, peer.self, e.peerClock))
    else if ShouldPromote(me.self.name, preferred, e.session, e.peerWasUp, activeIsPeer, reachable) && !Master(me) then
      (if e.effect.Done? then Write(me, me.self, e.clock) else me, peer)
    else (me, peer)
  }

  function Step(c: Cluster, preferred: Option<string>, e: Event): (r: Cluster) {
    if e.onA then
      var (a, b) := Reconcile(c.a, c.b, preferred, e);
      Cluster(a, b)
    else
      var (b, a) := Reconcile(c.b, c.a, preferred, e);
      Cluster(a, b)
  }

  function Run(c: Cluster, preferred: Option<string>, es: seq<Event>): (r: Cluster)
    decreases |es|
  {
    if es == [] then c else Run(Step(c, preferred, es[0]), preferred, es[1..])
  }

  /** Two different gateways, and an active gateway that matches one of them by name or address is that gateway. */
  predicate Coherent(c: Cluster) {
    !Is(c.a.self, c.b.self)
    && (Is(c.a.active, c.a.self) ==> c.a.active == c.a.self) && (Is(c.a.active, c.b.self) ==> c.a.active == c.b.self)
    && (Is(c.b.active, c.b.self) ==> c.b.active == c.b.self) && (Is(c.b.active, c.a.self) ==> c.b.active == c.a.self)
  }

  lemma StepCoherent(c: Cluster, preferred: Option<string>, e: Event)
    requires Coherent(c)
    ensures Coherent(Step(c, preferred, e))
    ensures Step(c, preferred, e).a.self == c.a.self && Step(c, preferred, e).b.self == c.b.self
  {
  }

  // ---- Elections while the session is down -----------------------------------------------------

  /** A session that never came up, with the peer's control plane still reachable. */
  predicate Startup(e: Event) {
    e.session.Down? && !e.peerWasUp && e.reachable
  }

  /** The records agree, or only the preferred gateway has moved, away from a third one. */
  predicate Calm(c: Cluster, preferred: Option<string>) {
    c.a.active == c.b.active
    || (Master(c.a) && !Is(c.b.active, c.a.self) && !Master(c.b) && preferred == Some(c.a.self.name))
    || (Master(c.b) && !Is(c.a.active, c.b.self) && !Master(c.a) && preferred == Some(c.b.self.name))
  }

  lemma StartupStepCalm(c: Cluster, preferred: Option<string>, e: Event)
    requires Coherent(c) && Calm(c, preferred) && Startup(e)
    ensures Calm(Step(c, preferred, e), preferred)
  {
  }

  /** From agreeing records, no run of such elections makes both gateways master. */
  lemma {:induction false} StartupNeverDual(c: Cluster, preferred: Option<string>, es: seq<Event>)
    requires Coherent(c) && Calm(c, preferred) && forall i :: 0 <= i < |es| ==> Startup(es[i])
    ensures var r := Run(c, preferred, es); Coherent(r) && Calm(r, preferred) && !(Master(r.a) && Master(r.b))
    decreases |es|
  {
    if es != [] {
      StepCoherent(c, preferred, es[0]);
      StartupStepCalm(c, preferred, es[0]);
      StartupNeverDual(Step(c, preferred, es[0]), preferred, es[1..]);
    }
  }

  /** When both nodes complete one election with the session down, starting from agreeing records, who can end up master
      beside whom depends on whom the records name. If they name one of the two, both are master exactly if the other
      saw its peer up, or finds it unreachable without being the preferred one itself. If they name a third gateway,
      both are exactly if one saw its peer up and the other did too or is the preferred one. */
  lemma DownElectionDualIff(c: Cluster, preferred: Option<string>, x: Event, y: Event)
    requires Coherent(c) && c.a.active == c.b.active
    requires x.session.Down? && x.effect.Done? && x.onA && y.session.Down? && y.effect.Done? && !y.onA
    ensures var r := Run(c, preferred, [x, y]);
            var dual := Master(r.a) && Master(r.b);
            (Master(c.a) ==> (dual <==> y.peerWasUp || (!y.reachable && preferred != Some(c.b.self.name))))
            && (Master(c.b) ==> (dual <==> x.peerWasUp || (!x.reachable && preferred != Some(c.a.self.name))))
            && (!Master(c.a) && !Master(c.b) ==>
                  (dual <==> (x.peerWasUp && (y.peerWasUp || preferred == Some(c.b.self.name)))
                             || (y.peerWasUp && preferred == Some(c.a.self.name))))
  {
    var d := Step(c, preferred, x);
    assert [x, y][1..] == [y] && [y][1..] == [];
    assert Run(c, preferred, [x, y]) == Run(d, preferred, [y]) == Step(d, preferred, y);
  }

  // ---- Sessions that are not down --------------------------------------------------------------

  lemma StepNotDown(c: Cluster, preferred: Option<string>, e: Event)
    requires Coherent(c) && !e.session.Down?
    ensures e.session.Negotiating? ==> Step(c, preferred, e) == c
    ensures Master(Step(c, preferred, e).a) ==> Master(c.a)
    ensures Master(Step(c, preferred, e).b) ==> Master(c.b)
  {
  }

  /** Only a session that is down makes a gateway master; one still negotiating changes nothing at all. */
  lemma {:induction false} OnlyDownPromotes(c: Cluster, preferred: Option<string>, es: seq<Event>)
    requires Coherent(c) && forall i :: 0 <= i < |es| ==> !es[i].session.Down?
    ensures var r := Run(c, preferred, es);
            (Master(r.a) ==> Master(c.a)) && (Master(r.b) ==> Master(c.b))
            && ((forall i :: 0 <= i < |es| ==> es[i].session.Negotiating?) ==> r == c)
    decreases |es|
  {
    if es != [] {
      StepNotDown(c, preferred, es[0]);
      StepCoherent(c, preferred, es[0]);
      OnlyDownPromotes(Step(c, preferred, es[0]), preferred, es[1..]);
    }
  }

  /** A gateway that becomes master by a clock past its peer's revision outranks the peer, so it is the one to stay when
      the session is healthy again. */
  lemma LaterPromotionOutranks(c: Cluster, preferred: Option<string>, e: Event)
    requires Coherent(c) && e.onA && !Master(c.a) && e.clock > c.b.revision
    requires Master(Step(c, preferred, e).a)
    ensures var r := Step(c, preferred, e);
            r.b == c.b && r.a.revision > r.b.revision && r.a.revision > c.a.revision && r.a.active == c.a.self
  {
  }

  // ---- Two masters under a healthy session -----------------------------------------------------

  /** The events of a healthy session. */
  predicate Healthy(es: seq<Event>) {
    forall i :: 0 <= i < |es| ==> es[i].session.Up?
  }

  /** The later master `b` is there to stay, and an earlier master `a` has the lower revision. */
  predicate Yielding(c: Cluster) {
    Master(c.b) && (Master(c.a) ==> c.a.revision < c.b.revision)
  }

  /** The event makes `a` see the peer's status and complete the switch. */
  predicate AdoptsOnA(e: Event) {
    e.onA && e.answers && e.effect.Done?
  }

  lemma HealthyStep(c: Cluster, preferred: Option<string>, e: Event)
    requires Coherent(c) && Yielding(c) && e.session.Up?
    ensures Coherent(Step(c, preferred, e)) && Yielding(Step(c, preferred, e))
    ensures AdoptsOnA(e) || !Master(c.a) ==> !Master(Step(c, preferred, e).a)
  {
  }

  /** In every run of a healthy session the master with the higher revision stays master, and the other is no longer
      master once it has adopted the peer's state. */
  lemma {:induction false} LowerRevisionYields(c: Cluster, preferred: Option<string>, es: seq<Event>)
    requires Coherent(c) && Yielding(c) && Healthy(es)
    ensures var r := Run(c, preferred, es);
            Coherent(r) && Yielding(r)
            && (!Master(c.a) || (exists i :: 0 <= i < |es| && AdoptsOnA(es[i])) ==> !Master(r.a))
    decreases |es|
  {
    if es != [] {
      HealthyStep(c, preferred, es[0]);
      LowerRevisionYields(Step(c, preferred, es[0]), preferred, es[1..]);
      if i :| 0 <= i < |es| && AdoptsOnA(es[i]) && i > 0 {
        assert es[i] == es[1..][i - 1];
      }
    }
  }

  /** Two masters with equal revisions stay both master for as long as the session is healthy. */
  lemma {:induction false} EqualRevisionsStayDual(c: Cluster, preferred: Option<string>, es: seq<Event>)
    requires Coherent(c) && Master(c.a) && Master(c.b) && c.a.revision == c.b.revision && Healthy(es)
    ensures Run(c, preferred, es) == c
    decreases |es|
  {
    if es != [] {
      EqualRevisionsStayDual(c, preferred, es[1..]);
    }
  }

  function Swapped(c: Cluster): (r: Cluster) {
    Cluster(c.b, c.a)
  }

  function Flipped(es: seq<Event>): (r: seq<Event>) {
    seq(|es|, i requires 0 <= i < |es| => es[i].(onA := !es[i].onA))
  }

  /** The two nodes follow the same rules. */
  lemma {:induction false} RunSwaps(c: Cluster, preferred: Option<string>, es: seq<Event>)
    ensures Run(Swapped(c), preferred, Flipped(es)) == Swapped(Run(c, preferred, es))
    decreases |es|
  {
    if es != [] {
      RunSwaps(Step(c, preferred, es[0]), preferred, es[1..]);
      assert Flipped(es)[1..] == Flipped(es[1..]);
    }
  }

  predicate AdoptsOnB(e: Event) {
    !e.onA && e.answers && e.effect.Done?
  }

  /** A healthy run in which both nodes manage to adopt ends a double mastership with exactly one master, the one with
      the higher revision; with equal revisions it never ends. */
  lemma DoubleMastershipResolvesIff(c: Cluster, preferred: Option<string>, es: seq<Event>)
    requires Coherent(c) && Master(c.a) && Master(c.b) && Healthy(es)
    requires (exists i :: 0 <= i < |es| && AdoptsOnA(es[i])) && (exists i :: 0 <= i < |es| && AdoptsOnB(es[i]))
    ensures var r := Run(c, preferred, es);
            (c.a.revision < c.b.revision ==> !Master(r.a) && Master(r.b))
            && (c.a.revision > c.b.revision ==> Master(r.a) && !Master(r.b))
            && (Master(r.a) != Master(r.b) <==> c.a.revision != c.b.revision)
  {
    if c.a.revision < c.b.revision {
      LowerRevisionYields(c, preferred, es);
    } else if c.a.revision > c.b.revision {
      var i :| 0 <= i < |es| && AdoptsOnB(es[i]);
      assert AdoptsOnA(Flipped(es)[i]);
      LowerRevisionYields(Swapped(c), preferred, Flipped(es));
      RunSwaps(c, preferred, es);
    } else {
      EqualRevisionsStayDual(c, preferred, es);
    }
  }

  // ---- From pairing to mastership --------------------------------------------------------------

  /** The gateway a record names: the first match by name or address text, else the one at the node's own gateway
      address, else the first of the list. */
  function Resolve(gateways: seq<Gateway>, key: string, home: u32, text: u32 -> string): (g: Option<Gateway>)
    ensures g.Some? ==> g.value in gateways
  {
    var named := Find(gateways, (g: Gateway) => Names(g, key, text));
    var own := Find(gateways, (g: Gateway) => g.underlay == home);
    if named.Some? then named else if own.Some? then own else Find(gateways, (g: Gateway) => true)
  }

  function Find(gateways: seq<Gateway>, p: Gateway -> bool): (g: Option<Gateway>)
    ensures g.Some? ==> g.value in gateways && p(g.value)
    ensures g.None? ==> forall h :: h in gateways ==> !p(h)
    decreases |gateways|
  {
    if gateways == [] then None
    else if p(gateways[0]) then Some(gateways[0])
    else Find(gateways[1..], p)
  }

  /** The key names a gateway. */
  predicate Names(g: Gateway, key: string, text: u32 -> string) {
    key != "" && (g.name == key || text(g.underlay) == key)
  }

  /** Two paired gateways that each list both, in any order, with themselves at their own gateway address, and hold the
      same key: exactly one is master if and only if the key names one of them. With a key that names neither, both
      are. */
  lemma PairedMastersIff(
    a: Gateway, b: Gateway, listA: seq<Gateway>, listB: seq<Gateway>, key: string, text: u32 -> string)
    requires !Is(a, b) && (forall g :: g in listA <==> g in {a, b}) && (forall g :: g in listB <==> g in {a, b})
    requires !(Names(a, key, text) && Names(b, key, text))
    ensures var atA := Resolve(listA, key, a.underlay, text);
            var atB := Resolve(listB, key, b.underlay, text);
            atA.Some? && atB.Some?
            && (atA == atB <==> Names(a, key, text) || Names(b, key, text))
            && ((atA.value == a) != (atB.value == b) <==> Names(a, key, text) || Names(b, key, text))
            && (!Names(a, key, text) && !Names(b, key, text) ==> atA.value == a && atB.value == b)
  {
    assert a in listA && b in listA && a in listB && b in listB;
  }
}
