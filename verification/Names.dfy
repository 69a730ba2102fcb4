/** Strings in the order the standard collections keep them. */
module Names {
  import opened Sorting

  /** Lexicographic order. */
  predicate LexLe(a: string, b: string)
    decreases |a|
  {
    a == [] || (b != [] && (a[0] < b[0] || (a[0] == b[0] && LexLe(a[1..], b[1..]))))
  }

  lemma {:induction false} LexTotal(a: string, b: string)
    ensures LexLe(a, b) || LexLe(b, a)
    decreases |a|
  {
    if a != [] && b != [] && a[0] == b[0] {
      LexTotal(a[1..], b[1..]);
    }
  }

  lemma {:induction false} LexTransitive(a: string, b: string, c: string)
    requires LexLe(a, b) && LexLe(b, c)
    ensures LexLe(a, c)
    decreases |a|
  {
    if a != [] && a[0] == b[0] && b[0] == c[0] {
      LexTransitive(a[1..], b[1..], c[1..]);
    }
  }

  lemma {:induction false} LexAntisymmetric(a: string, b: string)
    requires LexLe(a, b) && LexLe(b, a)
    ensures a == b
    decreases |a|
  {
    if a != [] {
      LexAntisymmetric(a[1..], b[1..]);
      assert a == [a[0]] + a[1..] && b == [b[0]] + b[1..];
    }
  }

  function ByName(): (le: (string, string) -> bool) {
    (a, b) => LexLe(a, b)
  }

  lemma NameOrder()
    ensures TotalPreorder(ByName())
    ensures forall a, b :: LexLe(a, b) && LexLe(b, a) ==> a == b
  {
    forall a, b
      ensures LexLe(a, b) || LexLe(b, a)
    {
      LexTotal(a, b);
    }
    forall a, b, c | LexLe(a, b) && LexLe(b, c)
      ensures LexLe(a, c)
    {
      LexTransitive(a, b, c);
    }
    forall a, b | LexLe(a, b) && LexLe(b, a)
      ensures a == b
    {
      LexAntisymmetric(a, b);
    }
  }

  /** Some enumeration of a set. */
  ghost function Enumerate(s: set<string>): (r: seq<string>)
    ensures multiset(r) == multiset(s)
  {
    if s == {} then [] else
      var x :| x in s;
      assert multiset(s) == multiset(s - {x}) + multiset{x};
      [x] + Enumerate(s - {x})
  }

  /** The elements of a set in ascending order, as an ordered map iterates its keys. */
  ghost function Ascending(s: set<string>): (r: seq<string>) {
    SortBy(Enumerate(s), ByName())
  }

  /** Every element of a set, once. */
  ghost predicate Enumerates(names: seq<string>, s: set<string>) {
    |names| == |s| && (forall x :: x in names <==> x in s)
    && forall i, j :: 0 <= i < j < |names| ==> names[i] != names[j]
  }

  lemma NoRepeat(r: seq<string>, s: set<string>, i: nat, j: nat)
    requires multiset(r) == multiset(s) && i < j < |r|
    ensures r[i] != r[j]
  {
    var a, b := r[..j], r[j..];
    assert r == a + b;
    assert r[i] in a && r[j] == b[0];
    assert multiset(r) == multiset(a) + multiset(b);
    assert multiset(s)[r[i]] <= 1;
  }

  lemma AscendingElements(s: set<string>)
    ensures Enumerates(Ascending(s), s)
  {
    var r := Ascending(s);
    assert |r| == |multiset(r)| == |multiset(s)|;
    forall x
      ensures x in r <==> x in s
    {
      assert x in r <==> x in multiset(r);
      assert x in s <==> x in multiset(s);
    }
    forall i, j | 0 <= i < j < |r|
      ensures r[i] != r[j]
    {
      NoRepeat(r, s, i, j);
    }
  }

  lemma AscendingSorted(s: set<string>)
    ensures forall i, j :: 0 <= i < j < |Ascending(s)| ==> LexLe(Ascending(s)[i], Ascending(s)[j])
  {
    NameOrder();
    SortBySorted(Enumerate(s), ByName());
    forall i, j | 0 <= i < j < |Ascending(s)|
      ensures LexLe(Ascending(s)[i], Ascending(s)[j])
    {
      assert ByName()(Ascending(s)[i], Ascending(s)[j]);
    }
  }

  /** Iterating an ordered map: pick the keys in any order, then sort. */
  method SortedNames(s: set<string>) returns (r: seq<string>)
    ensures r == Ascending(s)
  {
    r := [];
    var todo := s;
    while todo != {}
      invariant todo <= s && multiset(r) == multiset(s - todo)
      decreases todo
    {
      var x :| x in todo;
      todo := todo - {x};
      assert s - todo == (s - (todo + {x})) + {x};
      r := r + [x];
    }
    assert s - todo == s;
    ghost var any := Enumerate(s);
    NameOrder();
    SortForgetsOrder(r, any, ByName());
    r := SortBy(r, ByName());
  }
}
