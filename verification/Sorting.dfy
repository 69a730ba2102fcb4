/** Stable insertion sort, standing for the library sort, and when its result is unique. */
module Sorting {

  ghost predicate TotalPreorder<T(!new)>(le: (T, T) -> bool) {
    (forall x, y :: le(x, y) || le(y, x))
    && (forall x, y, z :: le(x, y) && le(y, z) ==> le(x, z))
  }

  ghost predicate Sorted<T>(s: seq<T>, le: (T, T) -> bool) {
    forall i, j :: 0 <= i < j < |s| ==> le(s[i], s[j])
  }

  /** No two different elements compare equal. */
  ghost predicate NoTies<T>(s: seq<T>, le: (T, T) -> bool) {
    forall x, y :: x in s && y in s && le(x, y) && le(y, x) ==> x == y
  }

  /** Insert before the first element that is strictly greater. */
  function Insert<T>(s: seq<T>, x: T, le: (T, T) -> bool): (r: seq<T>)
    ensures |r| == |s| + 1 && multiset(r) == multiset(s) + multiset{x}
  {
    if s == [] then [x]
    else if le(s[|s| - 1], x) then s + [x]
    else
      var r := Insert(s[..|s| - 1], x, le) + [s[|s| - 1]];
      assert s == s[..|s| - 1] + [s[|s| - 1]];
      r
  }

  function SortBy<T>(s: seq<T>, le: (T, T) -> bool): (r: seq<T>)
    ensures |r| == |s| && multiset(r) == multiset(s)
  {
    if s == [] then []
    else
      assert s == s[..|s| - 1] + [s[|s| - 1]];
      Insert(SortBy(s[..|s| - 1], le), s[|s| - 1], le)
  }

  lemma SortedAppend<T>(s: seq<T>, z: T, le: (T, T) -> bool)
    requires Sorted(s, le) && forall y :: y in s ==> le(y, z)
    ensures Sorted(s + [z], le)
  {
    forall i, j | 0 <= i < j < |s + [z]|
      ensures le((s + [z])[i], (s + [z])[j])
    {
      assert s[i] in s;
    }
  }

  lemma InsertMembers<T>(s: seq<T>, x: T, le: (T, T) -> bool, y: T)
    requires y in Insert(s, x, le)
    ensures y == x || y in s
  {
    assert y in multiset(Insert(s, x, le));
  }

  lemma {:induction false} InsertSorted<T(!new)>(s: seq<T>, x: T, le: (T, T) -> bool)
    requires TotalPreorder(le) && Sorted(s, le)
    ensures Sorted(Insert(s, x, le), le)
    decreases |s|
  {
    if s != [] {
      var n := |s| - 1;
      if le(s[n], x) {
        forall y | y in s
          ensures le(y, x)
        {
          var i :| 0 <= i < |s| && s[i] == y;
          assert i < n ==> le(s[i], s[n]);
        }
        SortedAppend(s, x, le);
      } else {
        InsertSorted(s[..n], x, le);
        forall y | y in Insert(s[..n], x, le)
          ensures le(y, s[n])
        {
          InsertMembers(s[..n], x, le, y);
        }
        SortedAppend(Insert(s[..n], x, le), s[n], le);
      }
    }
  }

  lemma {:induction false} SortBySorted<T(!new)>(s: seq<T>, le: (T, T) -> bool)
    requires TotalPreorder(le)
    ensures Sorted(SortBy(s, le), le)
    decreases |s|
  {
    if s != [] {
      SortBySorted(s[..|s| - 1], le);
      InsertSorted(SortBy(s[..|s| - 1], le), s[|s| - 1], le);
    }
  }

  lemma SameLength<T>(a: seq<T>, b: seq<T>)
    requires multiset(a) == multiset(b)
    ensures |a| == |b|
  {
    assert |multiset(a)| == |a| && |multiset(b)| == |b|;
  }

  lemma FrontsMatch<T>(a: seq<T>, b: seq<T>)
    requires a != [] && b != [] && multiset(a) == multiset(b) && a[|a| - 1] == b[|b| - 1]
    ensures multiset(a[..|a| - 1]) == multiset(b[..|b| - 1])
  {
    DropLast(a);
    DropLast(b);
  }

  lemma DropLast<T>(s: seq<T>)
    requires s != []
    ensures multiset(s[..|s| - 1]) == multiset(s) - multiset{s[|s| - 1]}
  {
    assert s == s[..|s| - 1] + [s[|s| - 1]];
  }

  lemma Rebuild<T>(a: seq<T>, b: seq<T>)
    requires a != [] && b != [] && a[..|a| - 1] == b[..|b| - 1] && a[|a| - 1] == b[|b| - 1]
    ensures a == b
  {
    assert a == a[..|a| - 1] + [a[|a| - 1]] && b == b[..|b| - 1] + [b[|b| - 1]];
  }

  lemma SameLast<T(!new)>(a: seq<T>, b: seq<T>, le: (T, T) -> bool)
    requires TotalPreorder(le) && Sorted(a, le) && Sorted(b, le) && a != [] && b != []
    requires multiset(a) == multiset(b) && NoTies(a, le)
    ensures a[|a| - 1] == b[|b| - 1]
  {
    var x, y := a[|a| - 1], b[|b| - 1];
    assert x in multiset(b) && y in multiset(a);
    LastIsGreatest(a, le, y);
    LastIsGreatest(b, le, x);
  }

  lemma FrontKeeps<T(!new)>(s: seq<T>, le: (T, T) -> bool)
    requires s != [] && Sorted(s, le)
    ensures Sorted(s[..|s| - 1], le) && (NoTies(s, le) ==> NoTies(s[..|s| - 1], le))
  {
    assert forall x :: x in s[..|s| - 1] ==> x in s;
  }

  /** Without ties there is only one sorted arrangement. */
  lemma {:induction false} SortedUnique<T(!new)>(a: seq<T>, b: seq<T>, le: (T, T) -> bool)
    requires TotalPreorder(le) && Sorted(a, le) && Sorted(b, le)
    requires multiset(a) == multiset(b) && NoTies(a, le)
    ensures a == b
    decreases |a|
  {
    SameLength(a, b);
    if a != [] {
      SameLast(a, b, le);
      FrontsMatch(a, b);
      FrontKeeps(a, le);
      FrontKeeps(b, le);
      SortedUnique(a[..|a| - 1], b[..|b| - 1], le);
      Rebuild(a, b);
    }
  }

  lemma LastIsGreatest<T(!new)>(s: seq<T>, le: (T, T) -> bool, x: T)
    requires TotalPreorder(le) && Sorted(s, le) && x in s
    ensures le(x, s[|s| - 1])
  {
    assert le(x, x);
  }

  /** Sorting forgets the arrival order when nothing ties. */
  lemma SortForgetsOrder<T(!new)>(a: seq<T>, b: seq<T>, le: (T, T) -> bool)
    requires TotalPreorder(le) && multiset(a) == multiset(b) && NoTies(a, le)
    ensures SortBy(a, le) == SortBy(b, le)
  {
    SortBySorted(a, le);
    SortBySorted(b, le);
    var s := SortBy(a, le);
    forall x | x in s
      ensures x in a
    {
      assert x in multiset(s);
    }
    SortedUnique(s, SortBy(b, le), le);
  }
}
