/** What the rotating selectors share out over whole runs of the datapath. */
module FairRuns {
  import opened Words
  import opened Tables
  import opened Counting
  import opened FlowKeys
  import opened Selection
  import opened TargetSelect
  import opened FlowSteps
  import opened FlowRuns

  /** The event makes a selector of the listener with cursor `i` take its next turn. */
  predicate TakesTurn(g: Gateway, e: Event, i: nat) {
    e.IngressEvent? && OpensFlow(g, e.p, e.now) && ListenerKeyOf(e.p) in g.listeners
    && UsesCursor(g.listeners[ListenerKeyOf(e.p)]) && CursorIndex(g.listeners[ListenerKeyOf(e.p)].listenerId) == i
  }

  function Turns(g: Gateway, es: seq<Event>, i: nat): (n: nat)
    decreases |es|
  {
    if es == [] then 0 else (if TakesTurn(g, es[0], i) then 1 else 0) + Turns(Step(g, es[0]), es[1..], i)
  }

  lemma IngressCursors(g: Gateway, p: Packet, now: u64, targetId: u32)
    ensures IngressWith(g, p, now, targetId).0.cursors
         == if OpensFlow(g, p, now) && ListenerKeyOf(p) in g.listeners
            then CursorsAfter(g.cursors, g.listeners[ListenerKeyOf(p)]) else g.cursors
  {
  }

  lemma CursorsAfterAt(cursors: seq<u32>, listener: ListenerValue, i: nat)
    requires i < |cursors|
    ensures CursorsAfter(cursors, listener)[i]
         == if UsesCursor(listener) && CursorIndex(listener.listenerId) == i then Later(cursors[i], 1) else cursors[i]
  {
  }

  /** The cursors after an event, before looking at any one of them. */
  function NextCursors(g: Gateway, e: Event): (r: seq<u32>)
    ensures |r| == |g.cursors|
  {
    if e.IngressEvent? && OpensFlow(g, e.p, e.now) && ListenerKeyOf(e.p) in g.listeners
    then CursorsAfter(g.cursors, g.listeners[ListenerKeyOf(e.p)]) else g.cursors
  }

  lemma StepCursors(g: Gateway, e: Event)
    ensures Step(g, e).cursors == NextCursors(g, e)
  {
    if e.IngressEvent? {
      IngressCursors(g, e.p, e.now, ChosenTarget(AfterExpiry(g, KeyOf(e.p), e.now), e.p, e.packetHash));
    }
  }

  lemma NextCursorAt(g: Gateway, e: Event, i: nat)
    requires i < |g.cursors|
    ensures NextCursors(g, e)[i] == if TakesTurn(g, e, i) then Later(g.cursors[i], 1) else g.cursors[i]
  {
    if e.IngressEvent? && ListenerKeyOf(e.p) in g.listeners {
      CursorsAfterAt(g.cursors, g.listeners[ListenerKeyOf(e.p)], i);
    }
  }

  lemma StepMovesCursor(g: Gateway, e: Event, i: nat)
    requires i < |g.cursors|
    ensures |Step(g, e).cursors| == |g.cursors|
    ensures Step(g, e).cursors[i] == if TakesTurn(g, e, i) then Later(g.cursors[i], 1) else g.cursors[i]
  {
    StepCursors(g, e);
    NextCursorAt(g, e, i);
  }

  /** Over every run a cursor counts exactly the turns of its own listener, so consecutive turns see consecutive
      cursors, whatever packets, replies, sweeps and reconfigurations come between. */
  lemma {:induction false} CursorCountsTurns(g: Gateway, es: seq<Event>, i: nat)
    requires i < |g.cursors|
    ensures i < |Run(g, es).cursors| && Run(g, es).cursors[i] == Later(g.cursors[i], Turns(g, es, i))
    decreases |es|
  {
    if es != [] {
      var h := Step(g, es[0]);
      StepMovesCursor(g, es[0], i);
      CursorCountsTurns(h, es[1..], i);
      LaterTwice(g.cursors[i], if TakesTurn(g, es[0], i) then 1 else 0, Turns(h, es[1..], i));
    }
  }

  lemma LaterTwice(c: int, m: int, n: int)
    ensures Later(Later(c, m), n) == Later(c, m + n)
  {
    var q := (c + m) / M32;
    assert c + m + n == Later(c, m) + n + q * M32;
    ModPeriod(Later(c, m) + n, M32, q);
  }

  // ---- Observing a run -------------------------------------------------------------------------

  /** What `answer` gives at each turn of a run, in order. */
  ghost function Observed<S, E>(
    step: (S, E) -> S, turn: (S, E) -> bool, answer: (S, E) -> u32, s: S, es: seq<E>): (r: seq<u32>)
    decreases |es|
  {
    if es == [] then []
    else (if turn(s, es[0]) then [answer(s, es[0])] else []) + Observed(step, turn, answer, step(s, es[0]), es[1..])
  }

  /** `pick` at `n` consecutive cursors. */
  ghost function Consecutive(pick: u32 -> u32, c: u32, n: nat): (r: seq<u32>) {
    seq<u32>(n, j requires 0 <= j < n => pick(Later(c, j)))
  }

  lemma ConsecutiveNext(pick: u32 -> u32, c: u32, n: nat)
    ensures Consecutive(pick, c, n + 1) == [pick(c)] + Consecutive(pick, Later(c, 1), n)
  {
    var whole, rest := Consecutive(pick, c, n + 1), Consecutive(pick, Later(c, 1), n);
    forall j | 0 <= j < n
      ensures whole[j + 1] == rest[j]
    {
      LaterTwice(c, 1, j);
    }
    assert Later(c, 0) == c;
  }

  /** Every event keeps `ok`, moves the cursor by one exactly at a turn, and at a turn answers by the cursor. */
  ghost predicate Counts<S(!new), E(!new)>(
    step: (S, E) -> S, turn: (S, E) -> bool, answer: (S, E) -> u32,
    ok: S -> bool, fits: E -> bool, cursor: S -> u32, pick: u32 -> u32)
  {
    forall s, e :: ok(s) && fits(e) ==>
      ok(step(s, e)) && cursor(step(s, e)) == Later(cursor(s), if turn(s, e) then 1 else 0)
      && (turn(s, e) ==> answer(s, e) == pick(cursor(s)))
  }

  lemma {:induction false} ObservedConsecutive<S(!new), E(!new)>(
    step: (S, E) -> S, turn: (S, E) -> bool, answer: (S, E) -> u32,
    ok: S -> bool, fits: E -> bool, cursor: S -> u32, pick: u32 -> u32, s: S, es: seq<E>)
    requires Counts(step, turn, answer, ok, fits, cursor, pick)
    requires ok(s) && forall j :: 0 <= j < |es| ==> fits(es[j])
    ensures var r := Observed(step, turn, answer, s, es); r == Consecutive(pick, cursor(s), |r|)
    decreases |es|
  {
    if es != [] {
      var t := step(s, es[0]);
      assert fits(es[0]) && ok(t);
      ObservedConsecutive(step, turn, answer, ok, fits, cursor, pick, t, es[1..]);
      var rest := Observed(step, turn, answer, t, es[1..]);
      if turn(s, es[0]) {
        ConsecutiveNext(pick, cursor(s), |rest|);
      } else {
        assert Later(cursor(s), 0) == cursor(s);
      }
    }
  }

  // ---- The picks of one listener ---------------------------------------------------------------

  /** The selector's answer to a client packet. */
  function Answer(g: Gateway, e: Event): (r: u32) {
    if e.IngressEvent? then ChosenTarget(AfterExpiry(g, KeyOf(e.p), e.now), e.p, e.packetHash) else 0
  }

  /** The selector's answers at the turns of cursor `i`, in order. */
  ghost function Picks(g: Gateway, es: seq<Event>, i: nat): (r: seq<u32>) {
    Observed(Step, (s: Gateway, e: Event) => TakesTurn(s, e, i), Answer, g, es)
  }

  /** What a rotating selector answers at a cursor. */
  function PickAt(targets: Targets, listener: ListenerValue, cursor: u32): (r: u32)
    requires Eligible(listener)
  {
    if listener.select == SELECT_PRIORITY
    then WeightedPick(targets, listener.listenerId, listener.weightTotal, SlotCount(listener), cursor)
    else RoundRobin(targets, listener.listenerId, cursor, SlotCount(listener), 0)
  }

  /** `lk` is a listener that rotates by cursor `i`, and no other listener uses that cursor. */
  predicate Rotates(g: Gateway, lk: ListenerKey, i: nat) {
    lk in g.listeners && UsesCursor(g.listeners[lk]) && g.listeners[lk].select != SELECT_LC
    && CursorIndex(g.listeners[lk].listenerId) == i < |g.cursors|
    && forall k :: k in g.listeners && CursorIndex(g.listeners[k].listenerId) == i ==> k == lk
  }

  predicate FixedConfiguration(es: seq<Event>) {
    forall j :: 0 <= j < |es| ==> !es[j].ReconfigureEvent?
  }

  lemma IngressKeepsConfiguration(g: Gateway, p: Packet, now: u64, targetId: u32)
    ensures IngressWith(g, p, now, targetId).0.listeners == g.listeners
    ensures IngressWith(g, p, now, targetId).0.targets == g.targets
  {
  }

  lemma StepKeepsConfiguration(g: Gateway, e: Event)
    requires !e.ReconfigureEvent?
    ensures Step(g, e).listeners == g.listeners && Step(g, e).targets == g.targets
  {
    match e
    case IngressEvent(p, now, packetHash) =>
      IngressKeepsConfiguration(g, p, now, ChosenTarget(AfterExpiry(g, KeyOf(p), now), p, packetHash));
    case ReturnEvent(p, now) =>
    case SweepEvent(now, refresh) =>
    case UpsertEvent(k, v) =>
  }

  /** The selector's answer at a turn depends on the cursor only. */
  lemma AnswerAtCursor(g: Gateway, e: Event, lk: ListenerKey, i: nat)
    requires Rotates(g, lk, i) && TakesTurn(g, e, i)
    ensures Answer(g, e) == PickAt(g.targets, g.listeners[lk], g.cursors[i])
  {
  }

  /** The state still has the configuration the listener's picks depend on. */
  predicate SameService(g: Gateway, targets: Targets, listeners: Listeners, lk: ListenerKey, i: nat) {
    g.targets == targets && g.listeners == listeners && Rotates(g, lk, i)
  }

  lemma ServiceStep(g: Gateway, e: Event, targets: Targets, listeners: Listeners, lk: ListenerKey, i: nat)
    requires SameService(g, targets, listeners, lk, i) && !e.ReconfigureEvent?
    ensures SameService(Step(g, e), targets, listeners, lk, i)
    ensures Step(g, e).cursors[i] == Later(g.cursors[i], if TakesTurn(g, e, i) then 1 else 0)
    ensures TakesTurn(g, e, i) ==> Answer(g, e) == PickAt(targets, listeners[lk], g.cursors[i])
  {
    StepKeepsConfiguration(g, e);
    StepMovesCursor(g, e, i);
    if TakesTurn(g, e, i) {
      AnswerAtCursor(g, e, lk, i);
    }
  }

  function PickOf(targets: Targets, listener: ListenerValue): (pick: u32 -> u32)
    requires Eligible(listener)
  {
    (c: u32) => PickAt(targets, listener, c)
  }

  /** Under a fixed configuration the answers of a listener are those of consecutive cursors. */
  lemma PicksFollowCursor(g: Gateway, es: seq<Event>, lk: ListenerKey, i: nat)
    requires Rotates(g, lk, i) && FixedConfiguration(es)
    ensures Picks(g, es, i) == Consecutive(PickOf(g.targets, g.listeners[lk]), g.cursors[i], |Picks(g, es, i)|)
  {
    var targets, listeners := g.targets, g.listeners;
    var turn := (s: Gateway, e: Event) => TakesTurn(s, e, i);
    var ok := (s: Gateway) => SameService(s, targets, listeners, lk, i);
    var fits := (e: Event) => !e.ReconfigureEvent?;
    var cursor := (s: Gateway) => if i < |s.cursors| then s.cursors[i] else 0;
    var pick := PickOf(targets, listeners[lk]);
    forall s: Gateway, e: Event | ok(s) && fits(e)
      ensures ok(Step(s, e)) && cursor(Step(s, e)) == Later(cursor(s), if turn(s, e) then 1 else 0)
      ensures turn(s, e) ==> Answer(s, e) == pick(cursor(s))
    {
      ServiceStep(s, e, targets, listeners, lk, i);
    }
    ObservedConsecutive(Step, turn, Answer, ok, fits, cursor, pick, g, es);
  }

  // ---- Shares ----------------------------------------------------------------------------------

  /** How often `t` is picked. */
  ghost function Share(picks: seq<u32>, t: u32): (n: nat) {
    Count(j => 0 <= j < |picks| && picks[j] == t, 0, |picks|)
  }

  lemma ShareOfConsecutive(pick: u32 -> u32, c: u32, n: nat, t: u32, at: int -> bool)
    requires forall j :: 0 <= j < n ==> at(j) == (pick(Later(c, j)) == t)
    ensures Share(Consecutive(pick, c, n), t) == Count(at, 0, n)
  {
    var picks := Consecutive(pick, c, n);
    CountSame(j => 0 <= j < |picks| && picks[j] == t, at, 0, n);
  }

  /** In any run under a fixed configuration, `weight_total` consecutive turns of a weighted listener, up to the wrap of
      its cursor or across it with a total that divides 2^32, give each target exactly its weight, whatever else the
      gateway does in between. */
  lemma WeightedSharesOverRuns(g: Gateway, es: seq<Event>, lk: ListenerKey, i: nat, t: u32)
    requires Rotates(g, lk, i) && FixedConfiguration(es) && g.listeners[lk].select == SELECT_PRIORITY
    requires var l := g.listeners[lk];
             t < SlotCount(l) && l.weightTotal == WeightSum(g.targets, l.listenerId, 0, SlotCount(l))
             && |Picks(g, es, i)| == l.weightTotal && NoSkip(g.cursors[i], l.weightTotal)
    ensures Share(Picks(g, es, i), t) == WeightOf(g.targets, g.listeners[lk].listenerId, t)
  {
    var l, targets, start := g.listeners[lk], g.targets, g.cursors[i];
    PicksFollowCursor(g, es, lk, i);
    WeightedTurns(targets, l, start, t);
  }

  lemma WeightedTurns(targets: Targets, l: ListenerValue, start: u32, t: u32)
    requires Eligible(l) && l.select == SELECT_PRIORITY && t < SlotCount(l) && NoSkip(start, l.weightTotal)
    requires l.weightTotal == WeightSum(targets, l.listenerId, 0, SlotCount(l))
    ensures Share(Consecutive(PickOf(targets, l), start, l.weightTotal), t) == WeightOf(targets, l.listenerId, t)
  {
    WeightedFairness(targets, l.listenerId, l.weightTotal, SlotCount(l), start, t);
    ShareOfConsecutive(PickOf(targets, l), start, l.weightTotal, t,
                       j => 0 <= j &&
                            WeightedPick(targets, l.listenerId, l.weightTotal, SlotCount(l), Later(start, j)) == t);
  }

  /** Likewise, as many consecutive turns of a round-robin listener as it has slots, all usable, give each slot exactly
      one if and only if the cursor passes the turn without a skip. */
  lemma RoundRobinSharesOverRunsIff(g: Gateway, es: seq<Event>, lk: ListenerKey, i: nat)
    requires Rotates(g, lk, i) && FixedConfiguration(es) && g.listeners[lk].select != SELECT_PRIORITY
    requires var l := g.listeners[lk];
             |Picks(g, es, i)| == SlotCount(l)
             && forall s: u32 :: s < SlotCount(l) ==> Usable(g.targets, l.listenerId, s)
    ensures var l := g.listeners[lk];
            (forall t: u32 :: t < SlotCount(l) ==> Share(Picks(g, es, i), t) == 1)
            <==> NoSkip(g.cursors[i], SlotCount(l))
  {
    var l, targets, start := g.listeners[lk], g.targets, g.cursors[i];
    PicksFollowCursor(g, es, lk, i);
    RoundRobinVisitsEachOnceIff(targets, l.listenerId, start, SlotCount(l));
    forall t: u32 | t < SlotCount(l)
      ensures Share(Picks(g, es, i), t) == Visits(targets, l.listenerId, start, SlotCount(l), t)
    {
      RotationTurns(targets, l, start, t);
    }
  }

  lemma RotationTurns(targets: Targets, l: ListenerValue, start: u32, t: u32)
    requires Eligible(l) && l.select != SELECT_PRIORITY
    ensures Share(Consecutive(PickOf(targets, l), start, SlotCount(l)), t)
         == Visits(targets, l.listenerId, start, SlotCount(l), t)
  {
    ShareOfConsecutive(PickOf(targets, l), start, SlotCount(l), t,
                       j => 0 <= j && RoundRobin(targets, l.listenerId, Later(start, j), SlotCount(l), 0) == t);
  }
}
