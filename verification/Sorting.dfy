/** Ordering by an optional price key, absent prices last. Equal keys may come in either order. */
module Sorting {
  import opened Wrappers

  predicate NotAfter(a: Option<real>, b: Option<real>) {
    b.None? || (a.Some? && a.value <= b.value)
  }

  ghost predicate SortedBy<T>(key: T -> Option<real>, s: seq<T>) {
    forall i, j | 0 <= i < j < |s| :: NotAfter(key(s[i]), key(s[j]))
  }

  /** Where x goes in a sorted sequence. */
  method InsertBy<T>(key: T -> Option<real>, s: seq<T>, x: T) returns (r: seq<T>)
    requires SortedBy(key, s)
    ensures SortedBy(key, r) && multiset(r) == multiset(s) + multiset{x}
  {
    var i := |s|;
    while i > 0 && !NotAfter(key(s[i - 1]), key(x))
      invariant 0 <= i <= |s|
      invariant forall k | i <= k < |s| :: NotAfter(key(x), key(s[k]))
    {
      i := i - 1;
    }
    r := s[..i] + [x] + s[i..];
    Inserted(key, s, x, i);
  }

  lemma Inserted<T>(key: T -> Option<real>, s: seq<T>, x: T, i: nat)
    requires SortedBy(key, s) && i <= |s|
    requires i > 0 ==> NotAfter(key(s[i - 1]), key(x))
    requires forall k | i <= k < |s| :: NotAfter(key(x), key(s[k]))
    ensures SortedBy(key, s[..i] + [x] + s[i..])
    ensures multiset(s[..i] + [x] + s[i..]) == multiset(s) + multiset{x}
  {
    var r := s[..i] + [x] + s[i..];
    forall a, b | 0 <= a < b < |r| ensures NotAfter(key(r[a]), key(r[b])) {
      if a < i - 1 && b == i {
        assert NotAfter(key(s[a]), key(s[i - 1]));
      }
    }
    Inserts(s, x, i);
  }

  lemma Inserts<T>(s: seq<T>, x: T, i: nat)
    requires i <= |s|
    ensures multiset(s[..i] + [x] + s[i..]) == multiset(s) + multiset{x}
  {
    assert s == s[..i] + s[i..];
  }

  method SortBy<T>(key: T -> Option<real>, s: seq<T>) returns (r: seq<T>)
    ensures SortedBy(key, r) && multiset(r) == multiset(s)
  {
    r := [];
    for i := 0 to |s|
      invariant SortedBy(key, r) && multiset(r) == multiset(s[..i])
    {
      r := InsertBy(key, r, s[i]);
      assert s[..i + 1] == s[..i] + [s[i]];
    }
    assert s[..|s|] == s;
  }

  lemma SameMembers<T>(s: seq<T>, t: seq<T>)
    requires multiset(s) == multiset(t)
    ensures |s| == |t| && forall x :: x in s <==> x in t
  {
    assert |multiset(s)| == |s| && |multiset(t)| == |t|;
    assert forall x :: x in s <==> x in multiset(s);
    assert forall x :: x in t <==> x in multiset(t);
  }
}
