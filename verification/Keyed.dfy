/** Lists whose entries carry a key: distinct keys, and keeping the first entry of each. */
module Keyed {

  function KeysOf<T, K>(s: seq<T>, key: T -> K): (r: set<K>) {
    set i | 0 <= i < |s| :: key(s[i])
  }

  function FirstByKey<T, K(==)>(s: seq<T>, key: T -> K): (r: seq<T>)
    decreases |s|
  {
    if s == [] then []
    else
      var n := |s| - 1;
      if key(s[n]) in KeysOf(s[..n], key) then FirstByKey(s[..n], key) else FirstByKey(s[..n], key) + [s[n]]
  }

  ghost predicate DistinctKeys<T, K(!new)>(s: seq<T>, key: T -> K) {
    forall i, j :: 0 <= i < j < |s| ==> key(s[i]) != key(s[j])
  }

  lemma KeysOfLast<T, K>(s: seq<T>, key: T -> K)
    requires s != []
    ensures KeysOf(s, key) == KeysOf(s[..|s| - 1], key) + {key(s[|s| - 1])}
  {
    var n := |s| - 1;
    forall k | k in KeysOf(s, key)
      ensures k in KeysOf(s[..n], key) + {key(s[n])}
    {
      var i :| 0 <= i < |s| && key(s[i]) == k;
      assert i < n ==> key(s[..n][i]) == k;
    }
    forall k | k in KeysOf(s[..n], key)
      ensures k in KeysOf(s, key)
    {
      var i :| 0 <= i < n && key(s[..n][i]) == k;
      assert key(s[i]) == k;
    }
  }

  lemma DistinctPush<T, K(!new)>(s: seq<T>, x: T, key: T -> K)
    ensures DistinctKeys(s + [x], key) <==> DistinctKeys(s, key) && key(x) !in KeysOf(s, key)
  {
    var t := s + [x];
    forall i | 0 <= i < |s|
      ensures key(t[i]) in KeysOf(s, key) && t[i] == s[i]
    {
      assert key(s[i]) in KeysOf(s, key);
    }
    assert t[|s|] == x;
    if DistinctKeys(t, key) {
      forall i, j | 0 <= i < j < |s|
        ensures key(s[i]) != key(s[j])
      {
        assert key(t[i]) != key(t[j]);
      }
    }
  }

  /** The kept entries are entries of the list, have its keys, and have each key once. */
  lemma {:induction false} FirstByKeyExact<T, K(!new)>(s: seq<T>, key: T -> K)
    ensures DistinctKeys(FirstByKey(s, key), key)
    ensures KeysOf(FirstByKey(s, key), key) == KeysOf(s, key)
    ensures forall x :: x in FirstByKey(s, key) ==> x in s
    decreases |s|
  {
    if s != [] {
      var n := |s| - 1;
      FirstByKeyExact(s[..n], key);
      KeysOfLast(s, key);
      var r := FirstByKey(s[..n], key);
      if key(s[n]) !in KeysOf(s[..n], key) {
        KeysOfLast(r + [s[n]], key);
        assert (r + [s[n]])[..|r|] == r;
        forall i | 0 <= i < |r|
          ensures key(r[i]) != key(s[n])
        {
          assert key(r[i]) in KeysOf(r, key);
        }
      }
    }
  }

  /** Append the entries whose keys are new. */
  method AddNew<T, K(==)>(kept: seq<T>, seen: set<K>, items: seq<T>, key: T -> K, ghost before: seq<T>)
    returns (all: seq<T>, keys: set<K>)
    requires kept == FirstByKey(before, key) && seen == KeysOf(before, key)
    ensures all == FirstByKey(before + items, key) && keys == KeysOf(before + items, key)
  {
    all, keys := kept, seen;
    assert before + items[..0] == before;
    for i := 0 to |items|
      invariant all == FirstByKey(before + items[..i], key) && keys == KeysOf(before + items[..i], key)
    {
      ghost var done := before + items[..i + 1];
      assert done[..|done| - 1] == before + items[..i] && done[|done| - 1] == items[i];
      KeysOfLast(done, key);
      if key(items[i]) !in keys {
        all := all + [items[i]];
        keys := keys + {key(items[i])};
      }
    }
    assert items[..|items|] == items;
  }

  /** A list holds exactly the given entries up to their keys: only such entries, each key among them, none twice. */
  ghost predicate Exactly<T(!new), K(!new)>(kept: seq<T>, given: T -> bool, key: T -> K) {
    DistinctKeys(kept, key) && (forall x :: x in kept ==> given(x))
    && (forall x :: given(x) ==> exists y :: y in kept && key(y) == key(x))
  }

  lemma FirstByKeyExactly<T(!new), K(!new)>(s: seq<T>, given: T -> bool, key: T -> K)
    requires forall x :: x in s <==> given(x)
    ensures Exactly(FirstByKey(s, key), given, key)
  {
    FirstByKeyExact(s, key);
    var kept := FirstByKey(s, key);
    forall x | given(x)
      ensures exists y :: y in kept && key(y) == key(x)
    {
      var i :| 0 <= i < |s| && s[i] == x;
      assert key(s[i]) in KeysOf(kept, key);
      var j :| 0 <= j < |kept| && key(kept[j]) == key(x);
      assert kept[j] in kept;
    }
  }
}
