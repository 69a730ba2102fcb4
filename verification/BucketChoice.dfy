/** Which backend wins a consistent-hash bucket. */
module BucketChoice {
  import opened Words
  import opened Tables
  import opened Rendezvous

  /** A candidate slot with the value stored for it. */
  type Candidates = seq<(u32, TargetValue)>

  /** What the score sees of a target. */
  type Identity = (u32, u16)

  function IdentityOf(t: TargetValue): (i: Identity) {
    (t.address, t.port)
  }

  ghost function Identities(cs: Candidates): (s: set<Identity>) {
    set i | 0 <= i < |cs| :: IdentityOf(cs[i].1)
  }

  /** Position of the first candidate with the highest score. */
  function ArgMax(score: TargetValue -> u64, cs: Candidates): (w: nat)
    requires cs != []
    ensures w < |cs|
    ensures forall i :: 0 <= i < |cs| ==> score(cs[i].1) <= score(cs[w].1)
    ensures forall i :: 0 <= i < w ==> score(cs[i].1) < score(cs[w].1)
  {
    if |cs| == 1 then 0
    else
      var last := |cs| - 1;
      var w := ArgMax(score, cs[..last]);
      if score(cs[last].1) > score(cs[w].1) then last else w
  }

  /** `choose_consistent_hash_bucket_target`, for any score. */
  method ChooseBest(score: TargetValue -> u64, cs: Candidates) returns (selected: Option<u32>)
    ensures selected == if cs == [] then None else Some(cs[ArgMax(score, cs)].0)
  {
    selected := None;
    var bestScore: u64 := 0;
    for i := 0 to |cs|
      invariant selected.None? <==> i == 0
      invariant i > 0 ==> selected == Some(cs[ArgMax(score, cs[..i])].0)
      invariant i > 0 ==> bestScore == score(cs[ArgMax(score, cs[..i])].1)
    {
      assert cs[..i + 1][..i] == cs[..i];
      var s := score(cs[i].1);
      if selected.None? || s > bestScore {
        selected := Some(cs[i].0);
        bestScore := s;
      }
    }
    assert cs[..|cs|] == cs;
  }

  function ScoreFor(bucket: u32): (f: TargetValue -> u64) {
    (t: TargetValue) => Score(bucket, t.address, t.port)
  }

  /** Equal scores mean the same backend, and the same backend always scores the same. */
  ghost predicate Separates(score: TargetValue -> u64) {
    forall t, u :: score(t) == score(u) <==> IdentityOf(t) == IdentityOf(u)
  }

  /** The bucket score tells any two backends apart. */
  lemma ScoreSeparates(bucket: u32)
    ensures Separates(ScoreFor(bucket))
  {
    var score := ScoreFor(bucket);
    forall t, u
      ensures score(t) == score(u) <==> IdentityOf(t) == IdentityOf(u)
    {
      if score(t) == score(u) {
        ScoreInjective(bucket, t.address, t.port, u.address, u.port);
      }
    }
  }

  ghost function WinnerOf(score: TargetValue -> u64, cs: Candidates): (i: Identity)
    requires cs != []
    ensures i in Identities(cs)
  {
    IdentityOf(cs[ArgMax(score, cs)].1)
  }

  /** A winner that stays a candidate keeps winning, whoever else leaves. */
  lemma WinnerSurvives(score: TargetValue -> u64, all: Candidates, rest: Candidates)
    requires Separates(score) && all != [] && rest != []
    requires Identities(rest) <= Identities(all)
    requires WinnerOf(score, all) in Identities(rest)
    ensures WinnerOf(score, rest) == WinnerOf(score, all)
  {
    var a, r := all[ArgMax(score, all)].1, rest[ArgMax(score, rest)].1;
    var i :| 0 <= i < |rest| && IdentityOf(rest[i].1) == IdentityOf(a);
    assert IdentityOf(r) in Identities(rest);
    var j :| 0 <= j < |all| && IdentityOf(all[j].1) == IdentityOf(r);
    assert score(a) == score(rest[i].1) <= score(r) == score(all[j].1) <= score(a);
  }

  /** The winning backend depends on the set of candidate addresses only: not on slot order, slot numbers or weights. */
  lemma WinnerIgnoresOrder(bucket: u32, here: Candidates, there: Candidates)
    requires here != [] && there != []
    requires Identities(here) == Identities(there)
    ensures WinnerOf(ScoreFor(bucket), here) == WinnerOf(ScoreFor(bucket), there)
  {
    ScoreSeparates(bucket);
    WinnerSurvives(ScoreFor(bucket), here, there);
  }

  /** Losing a backend moves only the buckets it owned; gaining one moves only the buckets it wins. */
  lemma MinimalDisruption(bucket: u32, larger: Candidates, smaller: Candidates, changed: Identity)
    requires larger != [] && smaller != []
    requires Identities(larger) == Identities(smaller) + {changed}
    ensures var score := ScoreFor(bucket);
            WinnerOf(score, larger) == changed || WinnerOf(score, larger) == WinnerOf(score, smaller)
  {
    ScoreSeparates(bucket);
    ChangedOrKept(ScoreFor(bucket), larger, smaller, changed);
  }

  lemma ChangedOrKept(score: TargetValue -> u64, larger: Candidates, smaller: Candidates, changed: Identity)
    requires Separates(score) && larger != [] && smaller != []
    requires Identities(larger) == Identities(smaller) + {changed}
    ensures WinnerOf(score, larger) == changed || WinnerOf(score, larger) == WinnerOf(score, smaller)
  {
    if WinnerOf(score, larger) != changed {
      WinnerSurvives(score, larger, smaller);
    }
  }
}
