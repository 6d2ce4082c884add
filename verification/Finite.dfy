/** Counting facts about finite sets, and induction in single steps. */
module Finite {
  lemma {:induction false} SubsetSize<T>(s: set<T>, t: set<T>)
    requires s <= t
    ensures |s| <= |t|
  {
    if s != {} {
      var x :| x in s;
      SubsetSize(s - {x}, t - {x});
    }
  }

  lemma {:induction false} FewerMembers<T>(s: set<T>, list: seq<T>)
    requires forall x | x in s :: x in list
    ensures |s| <= |list|
  {
    if list == [] {
      assert s == {};
    } else {
      FewerMembers(s - {list[0]}, list[1..]);
      SubsetSize(s, s - {list[0]} + {list[0]});
    }
  }

  lemma TakeAway<T>(all: set<T>, gone: set<T>, more: set<T>)
    requires more <= all - gone
    ensures |all - (gone + more)| == |all - gone| - |more|
  {
    assert all - (gone + more) == (all - gone) - more;
  }

  lemma Member<T>(s: set<T>) returns (x: T)
    requires s != {}
    ensures x in s
  {
    x :| x in s;
  }

  lemma {:induction false} InjectiveImage(s: set<int>, f: seq<int>)
    requires forall i | i in s :: 0 <= i < |f|
    requires forall i, j | i in s && j in s && f[i] == f[j] :: i == j
    ensures |set i | i in s :: f[i]| == |s|
  {
    if s != {} {
      var i := Member(s);
      InjectiveImage(s - {i}, f);
      assert (set k | k in s :: f[k]) == (set k | k in s - {i} :: f[k]) + {f[i]};
    }
  }

  predicate NoDuplicates<T(==)>(s: seq<T>) {
    forall i, j | 0 <= i < j < |s| :: s[i] != s[j]
  }

  lemma {:induction false} CountOnce<T>(s: seq<T>, x: T)
    requires NoDuplicates(s)
    ensures multiset(s)[x] <= 1
  {
    if s != [] {
      var front, last := s[..|s| - 1], s[|s| - 1];
      assert s == front + [last];
      CountOnce(front, x);
      if x == last {
        assert x !in front;
      }
    }
  }

  lemma SameSizeSubset<T>(a: multiset<T>, b: multiset<T>)
    requires a <= b && |a| == |b|
    ensures a == b
  {
    assert b == a + (b - a);
  }

  /** Without repetitions, the same members are the same multiset. */
  lemma SameMembersOnce<T>(s: seq<T>, t: seq<T>)
    requires NoDuplicates(s) && NoDuplicates(t) && forall x :: x in s <==> x in t
    ensures multiset(s) == multiset(t) && |s| == |t|
  {
    forall x ensures multiset(s)[x] == multiset(t)[x] {
      CountOnce(s, x);
      CountOnce(t, x);
      assert x in s <==> multiset(s)[x] > 0;
      assert x in t <==> multiset(t)[x] > 0;
    }
    assert |s| == |multiset(s)| && |t| == |multiset(t)|;
  }

  function Filter<T(!new)>(keep: T -> bool, xs: seq<T>): (r: seq<T>)
    ensures forall x :: x in r <==> x in xs && keep(x)
  {
    if xs == [] then []
    else if keep(xs[0]) then [xs[0]] + Filter(keep, xs[1..])
    else Filter(keep, xs[1..])
  }

  /** Filtering keeps the order and the repetitions of what it keeps. */
  lemma {:induction false} FilterSplits<T(!new)>(keep: T -> bool, xs: seq<T>, ys: seq<T>)
    ensures Filter(keep, xs + ys) == Filter(keep, xs) + Filter(keep, ys)
  {
    if xs == [] {
      assert xs + ys == ys;
    } else {
      FilterSplits(keep, xs[1..], ys);
      assert (xs + ys)[1..] == xs[1..] + ys;
    }
  }

  lemma {:induction false} Stepwise(good: nat -> bool, n: nat)
    requires good(0) && forall k: nat | k < n && good(k) :: good(k + 1)
    ensures good(n)
  {
    if n > 0 {
      Stepwise(good, n - 1);
    }
  }
}
