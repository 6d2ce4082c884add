/** Sums of real numbers. */
module Sums {
  function Sum(xs: seq<real>): real {
    if xs == [] then 0.0 else Sum(xs[..|xs| - 1]) + xs[|xs| - 1]
  }

  lemma {:induction false} SumLess(xs: seq<real>, ys: seq<real>)
    requires |xs| == |ys| > 0 && forall i | 0 <= i < |xs| :: xs[i] < ys[i]
    ensures Sum(xs) < Sum(ys)
  {
    var n := |xs| - 1;
    if n > 0 {
      SumLess(xs[..n], ys[..n]);
    }
  }

  lemma {:induction false} SumAtMost(xs: seq<real>, ys: seq<real>)
    requires |xs| == |ys| && forall i | 0 <= i < |xs| :: xs[i] <= ys[i]
    ensures Sum(xs) <= Sum(ys)
  {
    if xs != [] {
      var n := |xs| - 1;
      SumAtMost(xs[..n], ys[..n]);
    }
  }

  function Raised(xs: seq<real>, d: real): (r: seq<real>)
    ensures |r| == |xs| && forall i | 0 <= i < |xs| :: r[i] == xs[i] + d
  {
    seq(|xs|, i requires 0 <= i < |xs| => xs[i] + d)
  }

  lemma OneMore(n: nat, d: real)
    ensures (n + 1) as real * d == n as real * d + d
  {
  }

  lemma {:induction false} SumRaised(xs: seq<real>, d: real)
    ensures Sum(Raised(xs, d)) == Sum(xs) + |xs| as real * d
  {
    if xs != [] {
      var n := |xs| - 1;
      SumRaised(xs[..n], d);
      assert Raised(xs, d)[..n] == Raised(xs[..n], d);
      OneMore(n, d);
    }
  }

  /** Raising every term by an equal share of a surplus raises the sum by the surplus. */
  lemma SumShared(xs: seq<real>, surplus: real)
    requires |xs| > 0
    ensures Sum(Raised(xs, surplus / |xs| as real)) == Sum(xs) + surplus
  {
    SumRaised(xs, surplus / |xs| as real);
    Cancel(|xs|, surplus);
  }

  lemma Cancel(n: nat, surplus: real)
    requires n > 0
    ensures n as real * (surplus / n as real) == surplus
    ensures surplus > 0.0 ==> surplus / n as real > 0.0
  {
  }

  /** Each term plus an equal share of what is left under the limit; a single term may take it all. */
  function Shares(xs: seq<real>, limit: real): (r: seq<real>)
    ensures |r| == |xs|
  {
    if |xs| == 0 then [] else if |xs| == 1 then [limit] else Raised(xs, (limit - Sum(xs)) / |xs| as real)
  }

  /** The shares add up to the limit and leave room above every term. */
  lemma SharesSplit(xs: seq<real>, limit: real)
    requires |xs| > 0 && Sum(xs) < limit
    ensures Sum(Shares(xs, limit)) == limit
    ensures forall i | 0 <= i < |xs| :: xs[i] < Shares(xs, limit)[i]
  {
    if |xs| == 1 {
      assert xs[..0] == [] && [limit][..0] == [];
    } else {
      SumShared(xs, limit - Sum(xs));
      Cancel(|xs|, limit - Sum(xs));
    }
  }

  lemma OneShare(xs: seq<real>, limit: real)
    requires |xs| == 1
    ensures Shares(xs, limit)[0] == xs[0] + (limit - Sum(xs)) / 1.0
  {
    assert xs[..0] == [];
  }

  lemma OneOfMany(xs: seq<real>, limit: real, i: nat)
    requires i < |xs| && |xs| != 1
    ensures Shares(xs, limit)[i] == xs[i] + (limit - Sum(xs)) / |xs| as real
  {
  }

  /** Every term has the same room. */
  lemma ShareOf(xs: seq<real>, limit: real, i: nat)
    requires i < |xs|
    ensures Shares(xs, limit)[i] == xs[i] + (limit - Sum(xs)) / |xs| as real
  {
    if |xs| == 1 {
      OneShare(xs, limit);
      assert |xs| as real == 1.0;
    } else {
      OneOfMany(xs, limit, i);
    }
  }

  /** Terms below their shares add up to less than the limit. */
  lemma SharesBound(xs: seq<real>, limit: real, ys: seq<real>)
    requires |ys| == |xs| > 0 && Sum(xs) < limit
    requires forall i | 0 <= i < |xs| :: ys[i] < Shares(xs, limit)[i]
    ensures Sum(ys) < limit
  {
    SharesSplit(xs, limit);
    SumLess(ys, Shares(xs, limit));
  }

  /** Terms below an equal split of the limit add up to less than the limit. */
  lemma BelowSplit(xs: seq<real>, limit: real)
    requires |xs| > 0 && forall i | 0 <= i < |xs| :: xs[i] < limit / |xs| as real
    ensures Sum(xs) < limit
  {
    var zeros := seq(|xs|, _ => 0.0);
    SumZeros(zeros);
    SumShared(zeros, limit);
    SumLess(xs, Raised(zeros, limit / |xs| as real));
  }

  lemma {:induction false} SumZeros(xs: seq<real>)
    requires forall i | 0 <= i < |xs| :: xs[i] == 0.0
    ensures Sum(xs) == 0.0
  {
    if xs != [] {
      SumZeros(xs[..|xs| - 1]);
    }
  }
}
