/** Counting: integers of an interval that satisfy a predicate, and sizes of sets. */
module Counting {

  ghost function Count(p: int -> bool, lo: int, hi: int): (n: nat)
    decreases hi - lo
  {
    if lo >= hi then 0
    else Count(p, lo, hi - 1) + (if p(hi - 1) then 1 else 0)
  }

  lemma {:induction false} CountSplit(p: int -> bool, lo: int, mid: int, hi: int)
    requires lo <= mid <= hi
    ensures Count(p, lo, hi) == Count(p, lo, mid) + Count(p, mid, hi)
    decreases hi - mid
  {
    if mid < hi {
      CountSplit(p, lo, mid, hi - 1);
    }
  }

  lemma {:induction false} CountAll(p: int -> bool, lo: int, hi: int)
    requires lo <= hi
    requires forall i :: lo <= i < hi ==> p(i)
    ensures Count(p, lo, hi) == hi - lo
    decreases hi - lo
  {
    if lo < hi {
      CountAll(p, lo, hi - 1);
    }
  }

  lemma {:induction false} CountNone(p: int -> bool, lo: int, hi: int)
    requires forall i :: lo <= i < hi ==> !p(i)
    ensures Count(p, lo, hi) == 0
    decreases hi - lo
  {
    if lo < hi {
      CountNone(p, lo, hi - 1);
    }
  }

  /** Within one period, a predicate that selects exactly one interval is counted by its length. */
  lemma CountInterval(p: int -> bool, lo: int, a: int, b: int, hi: int)
    requires lo <= a <= b <= hi
    requires forall i :: lo <= i < hi ==> (p(i) <==> a <= i < b)
    ensures Count(p, lo, hi) == b - a
  {
    CountSplit(p, lo, a, hi);
    CountSplit(p, a, b, hi);
    CountNone(p, lo, a);
    CountAll(p, a, b);
    CountNone(p, b, hi);
  }

  /** A window one period long counts the same wherever it starts. */
  lemma {:induction false} CountPeriodic(p: int -> bool, start: nat, period: nat)
    requires period > 0
    requires forall i :: 0 <= i < start ==> p(i) == p(i + period)
    ensures Count(p, start, start + period) == Count(p, 0, period)
  {
    if start > 0 {
      CountPeriodic(p, start - 1, period);
      CountSplit(p, start - 1, start, start - 1 + period);
      CountSplit(p, start, start - 1 + period, start + period);
      assert p(start - 1) == p(start - 1 + period);
    }
  }

  lemma Scale(e: int, n: int)
    requires n > 0
    ensures e >= 1 ==> e * n >= n
    ensures e <= -1 ==> e * n <= 0 - n
  {
  }

  /** Quotient and remainder are unique. */
  lemma DivModUnique(a: int, n: int, q: int, r: int)
    requires 0 <= r < n && a == q * n + r
    ensures a / n == q && a % n == r
  {
    var e := a / n - q;
    assert e * n == r - a % n by {
      assert a == (a / n) * n + a % n;
      assert e * n == (a / n) * n - q * n;
    }
    Scale(e, n);
  }

  /** Adding whole periods does not change a remainder. */
  lemma ModPeriod(a: int, n: int, k: int)
    requires n > 0
    ensures (a + k * n) % n == a % n
  {
    var q, r := a / n, a % n;
    assert a + k * n == (q + k) * n + r by {
      assert (q + k) * n == q * n + k * n;
    }
    DivModUnique(a + k * n, n, q + k, r);
  }

  lemma {:induction false} CountSame(p: int -> bool, q: int -> bool, lo: int, hi: int)
    requires forall i :: lo <= i < hi ==> p(i) == q(i)
    ensures Count(p, lo, hi) == Count(q, lo, hi)
    decreases hi - lo
  {
    if lo < hi {
      CountSame(p, q, lo, hi - 1);
    }
  }

  /** Counting a shifted predicate over the shifted interval. */
  lemma {:induction false} CountShift(p: int -> bool, q: int -> bool, lo: int, hi: int, d: int)
    requires forall i :: lo <= i < hi ==> p(i) == q(i + d)
    ensures Count(p, lo, hi) == Count(q, lo + d, hi + d)
    decreases hi - lo
  {
    if lo < hi {
      CountShift(p, q, lo, hi - 1, d);
    }
  }

  /** Any `n` consecutive integers meet each residue once, so they count like one full period. */
  lemma CountMod(p: int -> bool, q: int -> bool, start: nat, n: nat)
    requires n > 0
    requires forall c :: 0 <= c < start + n ==> p(c) == q(c % n)
    ensures Count(p, start, start + n) == Count(q, 0, n)
  {
    forall i | 0 <= i < start
      ensures p(i) == p(i + n)
    {
      ModPeriod(i, n, 1);
    }
    CountPeriodic(p, start, n);
    forall c | 0 <= c < n
      ensures p(c) == q(c)
    {
      DivModUnique(c, n, 0, c);
    }
    CountSame(p, q, 0, n);
  }

  /** Of `n` consecutive integers exactly one has a given residue. */
  lemma CountResidue(p: int -> bool, start: nat, n: nat, t: nat)
    requires t < n && forall j :: 0 <= j < n ==> p(j) == ((start + j) % n == t)
    ensures Count(p, 0, n) == 1
  {
    var residue := (c: int) => c % n == t;
    var slot := (s: int) => s == t;
    CountShift(p, residue, 0, n, start);
    CountMod(residue, slot, start, n);
    CountInterval(slot, 0, t, t + 1, n);
  }

  // ---- Sets ------------------------------------------------------------------------------------

  lemma {:induction false} SubsetSize<T>(a: set<T>, b: set<T>)
    requires a <= b
    ensures |a| <= |b|
  {
    if x :| x in a {
      SubsetSize(a - {x}, b - {x});
    }
  }

  // ---- Injective functions ---------------------------------------------------------------------

  /** The set of the first `n` numbers. */
  lemma {:induction false} Range(n: nat) returns (s: set<int>)
    ensures |s| == n && forall x :: x in s <==> 0 <= x < n
  {
    if n == 0 {
      s := {};
    } else {
      s := Range(n - 1);
      s := s + {n - 1};
    }
  }

  lemma SameSizeSubset<T>(a: set<T>, b: set<T>)
    requires a <= b && |a| == |b|
    ensures a == b
  {
    assert b == a + (b - a);
    if b - a != {} {
      var x := Member(b - a);
      SubsetSize(a, b - {x});
    }
  }

  lemma Member<T>(s: set<T>) returns (x: T)
    requires s != {}
    ensures x in s
  {
    x :| x in s;
  }

  ghost predicate InjectiveOn(f: int -> int, s: set<int>) {
    forall x, y :: x in s && y in s && f(x) == f(y) ==> x == y
  }

  ghost function Image(f: int -> int, s: set<int>): (t: set<int>) {
    set x | x in s :: f(x)
  }

  lemma {:induction false} ImageSize(f: int -> int, s: set<int>)
    requires InjectiveOn(f, s)
    ensures |Image(f, s)| == |s|
    decreases |s|
  {
    if s == {} {
      assert Image(f, s) == {};
    } else {
      var x := Member(s);
      var rest := s - {x};
      ImageSize(f, rest);
      assert Image(f, s) == Image(f, rest) + {f(x)};
      assert f(x) !in Image(f, rest);
    }
  }

  /** A function that maps a set injectively into itself reaches all of it. */
  lemma OntoItself(f: int -> int, s: set<int>)
    requires InjectiveOn(f, s) && Image(f, s) <= s
    ensures Image(f, s) == s
  {
    ImageSize(f, s);
    SameSizeSubset(Image(f, s), s);
  }

  /** Then a part of the set has as many preimages as elements. */
  lemma PreimageSize(f: int -> int, s: set<int>, part: set<int>, pre: set<int>)
    requires InjectiveOn(f, s) && Image(f, s) <= s && part <= s
    requires forall x :: x in pre <==> x in s && f(x) in part
    ensures |pre| == |part|
  {
    OntoItself(f, s);
    forall y | y in part
      ensures y in Image(f, pre)
    {
      assert y in Image(f, s);
    }
    assert Image(f, pre) == part;
    ImageSize(f, pre);
  }

  lemma InPeriod(q: nat, periods: nat, n: nat, b: nat)
    requires q < periods && b < n
    ensures 0 <= q * n + b < periods * n && (q * n + b) % n == b && (q * n + b) / n == q
  {
    DivModUnique(q * n + b, n, q, b);
    PeriodEnds(q, periods - q - 1, n);
  }

  lemma PeriodEnds(q: nat, d: nat, n: nat)
    ensures q * n + n <= (q + 1 + d) * n
  {
    assert (q + 1 + d) * n == q * n + n + d * n;
  }

  lemma PeriodOf(y: nat, periods: nat, n: nat)
    requires n > 0 && y < periods * n
    ensures y / n < periods && y == y / n * n + y % n
  {
    var q := y / n;
    assert q >= periods ==> q * n >= periods * n;
  }

  /** A residue class has one element in each period. */
  lemma ResidueClassSize(periods: nat, n: nat, b: nat, members: set<int>)
    requires b < n && forall y :: y in members <==> 0 <= y < periods * n && y % n == b
    ensures |members| == periods
  {
    var numbers := Range(periods);
    var f := q => q * n + b;
    forall y | y in members
      ensures y in Image(f, numbers)
    {
      PeriodOf(y, periods, n);
      assert f(y / n) == y;
    }
    forall q | q in numbers
      ensures f(q) in members && f(q) / n == q
    {
      InPeriod(q, periods, n, b);
    }
    assert Image(f, numbers) == members;
    ImageSize(f, numbers);
  }
}
