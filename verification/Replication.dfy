/** Last-writer-wins replication of flow entries from the HA peer. */
module Replication {
  import opened Words
  import opened FlowKeys

  type Entry = (FlowKey, FlowValue)

  /** `flow_apply_applies`: new, or strictly fresher than the local copy. */
  predicate Applies(local: Option<FlowValue>, replica: FlowValue) {
    local.None? || replica.lastSeenNs > local.value.lastSeenNs
  }

  function Local(flows: Flows, k: FlowKey): (v: Option<FlowValue>) {
    if k in flows then Some(flows[k]) else None
  }

  function Apply(flows: Flows, e: Entry): (m: Flows) {
    if Applies(Local(flows, e.0), e.1) then flows[e.0 := e.1] else flows
  }

  /** `upsert_flows` on an attached datapath. */
  function ApplyAll(flows: Flows, es: seq<Entry>): (m: Flows)
    decreases |es|
  {
    if es == [] then flows else Apply(ApplyAll(flows, es[..|es| - 1]), es[|es| - 1])
  }

  /** Both directions of one flow as the peer sends them. */
  function PairOf(k: FlowKey, v: FlowValue): (es: seq<Entry>) {
    [(k, v), (ReverseFor(k, v), v)]
  }

  /** `v` is a freshest value for `k` among the table and the entries, the table winning ties. */
  ghost predicate Freshest(flows: Flows, es: seq<Entry>, k: FlowKey, v: FlowValue) {
    && ((k in flows && v == flows[k]) || (k, v) in es)
    && (k in flows ==> flows[k].lastSeenNs <= v.lastSeenNs && (flows[k].lastSeenNs == v.lastSeenNs ==> v == flows[k]))
    && (forall i :: 0 <= i < |es| && es[i].0 == k ==> es[i].1.lastSeenNs <= v.lastSeenNs)
  }

  /** After any upserts, a key is present exactly if it was local or received, and holds a freshest value: time never
      runs back. */
  lemma {:induction false} UpsertKeepsFreshest(flows: Flows, es: seq<Entry>, k: FlowKey)
    ensures var m := ApplyAll(flows, es);
            (k in m <==> k in flows || exists i :: 0 <= i < |es| && es[i].0 == k)
            && (k in m ==> Freshest(flows, es, k, m[k]))
    decreases |es|
  {
    if es != [] {
      var n := |es| - 1;
      var front, last := es[..n], es[n];
      UpsertKeepsFreshest(flows, front, k);
      var before, m := ApplyAll(flows, front), ApplyAll(flows, es);
      assert es == front + [last];
      assert forall i :: 0 <= i < n ==> es[i] == front[i];
      if last.0 == k {
        assert k in m && es[n].0 == k;
        if k !in before || last.1.lastSeenNs > before[k].lastSeenNs {
          assert (k, m[k]) == last && last in es;
        }
      }
      if exists i :: 0 <= i < |es| && es[i].0 == k {
        var i :| 0 <= i < |es| && es[i].0 == k;
        assert i < n ==> front[i].0 == k;
      }
    }
  }

  /** A key's recorded time ends at the maximum of the local and the received times. */
  lemma UpsertReachesMaximum(flows: Flows, es: seq<Entry>, k: FlowKey)
    requires k in ApplyAll(flows, es)
    ensures var t := ApplyAll(flows, es)[k].lastSeenNs;
            (k in flows ==> flows[k].lastSeenNs <= t)
            && (forall i :: 0 <= i < |es| && es[i].0 == k ==> es[i].1.lastSeenNs <= t)
            && ((k in flows && flows[k].lastSeenNs == t)
                || exists i :: 0 <= i < |es| && es[i].0 == k && es[i].1.lastSeenNs == t)
  {
    UpsertKeepsFreshest(flows, es, k);
    var v := ApplyAll(flows, es)[k];
    if !(k in flows && v == flows[k]) {
      var i :| 0 <= i < |es| && es[i] == (k, v);
    }
  }

  /** Sending a batch in pieces is sending it at once. */
  lemma {:induction false} UpsertBatches(flows: Flows, first: seq<Entry>, second: seq<Entry>)
    ensures ApplyAll(ApplyAll(flows, first), second) == ApplyAll(flows, first + second)
    decreases |second|
  {
    if second == [] {
      assert first + second == first;
    } else {
      var n := |second| - 1;
      UpsertBatches(flows, first, second[..n]);
      assert (first + second)[..|first + second| - 1] == first + second[..n];
    }
  }

  lemma TwoUpserts(flows: Flows, a: Entry, b: Entry)
    ensures ApplyAll(flows, [a, b]) == Apply(Apply(flows, a), b)
  {
    assert [a, b][..1] == [a];
    assert [a][..0] == [];
    assert ApplyAll(flows, [a]) == Apply(flows, a);
  }

  // ---- Order of arrival ------------------------------------------------------------------------

  /** The same entries, in any order and number. */
  ghost predicate SameEntries(here: seq<Entry>, there: seq<Entry>) {
    forall e :: e in here <==> e in there
  }

  /** However the entries are ordered and repeated, the table ends the same. */
  ghost predicate OrderIrrelevant(flows: Flows, here: seq<Entry>) {
    forall there :: SameEntries(here, there) ==> ApplyAll(flows, there) == ApplyAll(flows, here)
  }

  /** `v` beats the local copy of `k` and no received entry of `k` is later. */
  ghost predicate Wins(flows: Flows, es: seq<Entry>, k: FlowKey, v: FlowValue) {
    (k, v) in es && Applies(Local(flows, k), v)
    && forall w :: (k, w) in es ==> w.lastSeenNs <= v.lastSeenNs
  }

  /** No key has two different winners. */
  ghost predicate WinnersAgree(flows: Flows, es: seq<Entry>) {
    forall k, v, w :: Wins(flows, es, k, v) && Wins(flows, es, k, w) ==> v == w
  }

  /** The final value of a key is the local one, or a winner. */
  lemma FinalWins(flows: Flows, es: seq<Entry>, k: FlowKey)
    ensures var m := ApplyAll(flows, es);
            if exists v :: Wins(flows, es, k, v) then k in m && Wins(flows, es, k, m[k])
            else Local(m, k) == Local(flows, k)
  {
    UpsertKeepsFreshest(flows, es, k);
    var m := ApplyAll(flows, es);
    if v :| Wins(flows, es, k, v) {
      var i :| 0 <= i < |es| && es[i] == (k, v);
    }
    if k in m && Local(m, k) != Local(flows, k) {
      forall w | (k, w) in es
        ensures w.lastSeenNs <= m[k].lastSeenNs
      {
        var j :| 0 <= j < |es| && es[j] == (k, w);
      }
      assert Wins(flows, es, k, m[k]);
    }
  }

  lemma SameWinners(flows: Flows, here: seq<Entry>, there: seq<Entry>, k: FlowKey, v: FlowValue)
    requires SameEntries(here, there)
    ensures Wins(flows, here, k, v) <==> Wins(flows, there, k, v)
  {
  }

  lemma AgreeingWinnersSuffice(flows: Flows, here: seq<Entry>, there: seq<Entry>)
    requires WinnersAgree(flows, here) && SameEntries(here, there)
    ensures ApplyAll(flows, there) == ApplyAll(flows, here)
  {
    var a, b := ApplyAll(flows, here), ApplyAll(flows, there);
    forall k
      ensures Local(a, k) == Local(b, k)
    {
      FinalWins(flows, here, k);
      FinalWins(flows, there, k);
      forall v
        ensures Wins(flows, here, k, v) <==> Wins(flows, there, k, v)
      {
        SameWinners(flows, here, there, k, v);
      }
    }
    assert forall k :: k in a <==> Local(a, k).Some?;
    assert forall k :: k in b <==> Local(b, k).Some?;
  }

  /** A winner that arrives first stays. */
  lemma FirstWinnerStays(flows: Flows, es: seq<Entry>, k: FlowKey, v: FlowValue)
    requires Wins(flows, es, k, v)
    ensures SameEntries(es, [(k, v)] + es)
    ensures var m := ApplyAll(flows, [(k, v)] + es); k in m && m[k] == v
  {
    var first := flows[k := v];
    assert ApplyAll(flows, [(k, v)]) == first by {
      assert [(k, v)][..0] == [];
    }
    UpsertBatches(flows, [(k, v)], es);
    FinalWins(first, es, k);
  }

  /** The merged table is independent of order, batching and repetition if and only if, for every key, all received
      entries of maximal time that beat the local copy are the same. */
  lemma OrderIrrelevantIff(flows: Flows, here: seq<Entry>)
    ensures OrderIrrelevant(flows, here) <==> WinnersAgree(flows, here)
  {
    if WinnersAgree(flows, here) {
      forall there | SameEntries(here, there)
        ensures ApplyAll(flows, there) == ApplyAll(flows, here)
      {
        AgreeingWinnersSuffice(flows, here, there);
      }
    }
    if OrderIrrelevant(flows, here) {
      forall k, v, w | Wins(flows, here, k, v) && Wins(flows, here, k, w)
        ensures v == w
      {
        FirstWinnerStays(flows, here, k, v);
        FirstWinnerStays(flows, here, k, w);
      }
    }
  }

  /** Two entries for one key that tie in time but differ: the one that arrives first stays. */
  lemma TiesMakeOrderMatter(flows: Flows, k: FlowKey, v: FlowValue, w: FlowValue)
    requires v != w && v.lastSeenNs == w.lastSeenNs && Applies(Local(flows, k), v)
    ensures ApplyAll(flows, [(k, v), (k, w)]) != ApplyAll(flows, [(k, w), (k, v)])
  {
    TwoUpserts(flows, (k, v), (k, w));
    TwoUpserts(flows, (k, w), (k, v));
    assert Apply(Apply(flows, (k, v)), (k, w))[k] == v;
    assert Apply(Apply(flows, (k, w)), (k, v))[k] == w;
  }
}
