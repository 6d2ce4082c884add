/**
 The order a single-node pass visits its candidates in (`SortCandidates` and `shuffleCandidates` in
 pkg/controllers/disruption/singlenodeconsolidation.go, `sortCandidates` in consolidation.go): by
 savings ratio, interleaved by pool, with the pools first that the last pass did not get to.
 */
module Ordering {
  import opened Candidates
  import opened Wrappers
  import opened Finite
  import opened Sorting
  import opened Walk

  function SavingsRatio(c: Candidate): real
    requires c.disruption > 0.0
  {
    c.price / c.disruption
  }

  /** Draining a node always costs something. */
  predicate Positive(cs: seq<Candidate>) {
    forall c | c in cs :: c.disruption > 0.0
  }

  ghost predicate Descending(cs: seq<Candidate>)
    requires Positive(cs)
  {
    forall i, j | 0 <= i < j < |cs| :: SavingsRatio(cs[i]) >= SavingsRatio(cs[j])
  }

  function ByRatio(): Candidate -> Option<real> {
    (c: Candidate) => if c.disruption > 0.0 then Some(-SavingsRatio(c)) else None
  }

  method SortByRatio(cs: seq<Candidate>) returns (sorted: seq<Candidate>)
    requires Positive(cs)
    ensures multiset(sorted) == multiset(cs) && Positive(sorted) && Descending(sorted)
  {
    sorted := SortBy(ByRatio(), cs);
    SameMembers(sorted, cs);
    forall i, j | 0 <= i < j < |sorted| ensures SavingsRatio(sorted[i]) >= SavingsRatio(sorted[j]) {
      assert NotAfter(ByRatio()(sorted[i]), ByRatio()(sorted[j]));
    }
  }

  // The pools

  /** Pools in visiting order: the unseen ones, in any order, before the rest, in any order. */
  ghost predicate UnseenFirst(pools: seq<string>, unseen: set<string>, current: set<string>) {
    && NoDuplicates(pools) && |unseen| <= |pools| && (forall p :: p in pools <==> p in unseen || p in current)
    && forall p :: p in pools[..|unseen|] <==> p in unseen
  }

  method List(s: set<string>) returns (r: seq<string>)
    ensures NoDuplicates(r) && |r| == |s| && forall x :: x in r <==> x in s
  {
    r := [];
    var rest := s;
    while rest != {}
      invariant rest <= s && NoDuplicates(r) && |r| + |rest| == |s|
      invariant forall x :: x in r <==> x in s && x !in rest
    {
      var x :| x in rest;
      r, rest := r + [x], rest - {x};
    }
  }

  method OrderPools(unseen: set<string>, current: set<string>) returns (pools: seq<string>)
    ensures UnseenFirst(pools, unseen, current)
  {
    var first := List(unseen);
    var others := List(current - unseen);
    pools := first + others;
    assert pools[..|unseen|] == first;
    forall i, j | 0 <= i < j < |pools| ensures pools[i] != pools[j] {
      if i < |first| <= j {
        assert pools[i] in first && pools[j] in others;
      }
    }
  }

  // The whole order

  /** How an order came about: the sorted candidates, the pools, and the visits of the interleaving. */
  datatype Shuffle = Shuffle(sorted: seq<Candidate>, pools: seq<string>, visits: seq<Visit>) {
    function End(): Visit {
      Visit(Longest(Groups(sorted, pools)), 0)
    }
  }

  ghost predicate Shuffles(sh: Shuffle, cs: seq<Candidate>, unseen: set<string>, order: seq<Candidate>) {
    && multiset(sh.sorted) == multiset(cs) && Positive(sh.sorted) && Descending(sh.sorted)
    && UnseenFirst(sh.pools, unseen, Pools(cs))
    && Interleaved(sh, order)
  }

  ghost predicate Interleaved(sh: Shuffle, order: seq<Candidate>) {
    Visits(Groups(sh.sorted, sh.pools), sh.visits, order, sh.End())
  }

  /** `SortCandidates` up to the coverage cycle. */
  method SortAndShuffle(cs: seq<Candidate>, unseen: set<string>) returns (order: seq<Candidate>, ghost sh: Shuffle)
    requires Positive(cs)
    ensures Shuffles(sh, cs, unseen, order)
  {
    var sorted := SortByRatio(cs);
    var pools := OrderPools(unseen, Pools(cs));
    ghost var visits;
    order, visits := Interleave(Groups(sorted, pools));
    sh := Shuffle(sorted, pools, visits);
  }

  /** The order is of the same candidates. */
  lemma ShufflePermutes(sh: Shuffle, cs: seq<Candidate>, unseen: set<string>, order: seq<Candidate>)
    requires DistinctIDs(cs) && Shuffles(sh, cs, unseen, order)
    ensures multiset(order) == multiset(cs) && |order| == |cs| && IDs(order) == IDs(cs) && DistinctIDs(order)
  {
    SameMembers(sh.sorted, cs);
    DistinctCandidates(cs);
    PermutedDistinct(cs, sh.sorted);
    InterleavePermutes(sh.sorted, sh.pools, order, sh.visits);
    SameMembers(order, cs);
    PermutedIDs(cs, order);
  }

  lemma DistinctCandidates(cs: seq<Candidate>)
    requires DistinctIDs(cs)
    ensures NoDuplicates(cs)
  {
  }

  lemma PermutedDistinct(cs: seq<Candidate>, other: seq<Candidate>)
    requires NoDuplicates(cs) && multiset(other) == multiset(cs)
    ensures NoDuplicates(other)
  {
    forall i, j | 0 <= i < j < |other| ensures other[i] != other[j] {
      CountOnce(cs, other[i]);
      assert other == other[..j] + other[j..] && other[i] in other[..j] && other[j] in other[j..];
      assert multiset(other) == multiset(other[..j]) + multiset(other[j..]);
    }
  }

  lemma PermutedIDs(cs: seq<Candidate>, other: seq<Candidate>)
    requires DistinctIDs(cs) && multiset(other) == multiset(cs)
    ensures DistinctIDs(other) && IDs(other) == IDs(cs)
  {
    DistinctCandidates(cs);
    PermutedDistinct(cs, other);
    SameMembers(other, cs);
    forall i, j | 0 <= i < j < |other| ensures other[i].providerID != other[j].providerID {
      assert other[i] in cs && other[j] in cs;
    }
  }

  // Ranks

  /** The place of a candidate within its pool. */
  function Rank(cs: seq<Candidate>, i: nat): nat
    requires i < |cs|
  {
    |PoolOf(cs[..i], cs[i].pool)|
  }

  predicate RanksInOrder(cs: seq<Candidate>, i: nat, j: nat)
    requires i < |cs| && j < |cs|
  {
    Rank(cs, i) <= Rank(cs, j)
  }

  ghost predicate Ranked(cs: seq<Candidate>) {
    forall i: nat, j: nat | i < j < |cs| :: RanksInOrder(cs, i, j)
  }

  lemma PoolOfNext(cs: seq<Candidate>, pool: string, i: nat)
    requires i < |cs|
    ensures PoolOf(cs[..i + 1], pool) == PoolOf(cs[..i], pool) + if cs[i].pool == pool then [cs[i]] else []
  {
    assert cs[..i + 1][..i] == cs[..i];
  }

  /** The visits to a pool are of its first n candidates. */
  ghost predicate FirstVisits(visits: seq<Visit>, q: nat, n: nat) {
    forall k: nat :: Visit(k, q) in visits <==> k < n
  }

  lemma FirstVisitsNext(visits: seq<Visit>, v: Visit, q: nat, n: nat)
    requires FirstVisits(visits, q, n) && (v.pool == q ==> v.rank == n)
    ensures FirstVisits(visits + [v], q, if v.pool == q then n + 1 else n)
  {
    forall k: nat ensures Visit(k, q) in visits + [v] <==> k < if v.pool == q then n + 1 else n {
      assert Visit(k, q) in visits + [v] <==> Visit(k, q) in visits || Visit(k, q) == v;
    }
  }

  /** A visit comes after those to better candidates of the same pool, and only once. */
  lemma EarlierVisits(groups: seq<seq<Candidate>>, visits: seq<Visit>, order: seq<Candidate>, end: Visit, i: nat,
                      k: nat)
    requires Visits(groups, visits, order, end) && i < |visits| && k <= visits[i].rank
    ensures Visit(k, visits[i].pool) in visits[..i] <==> k < visits[i].rank
  {
    var u := Visit(k, visits[i].pool);
    assert Exists(groups, visits[i]) && Before(visits[i], end);
    assert Exists(groups, u) && Before(u, end) && u in visits;
    var j :| 0 <= j < |visits| && visits[j] == u;
    assert k < visits[i].rank ==> Before(u, visits[i]) && j < i;
  }

  lemma NextVisit(groups: seq<seq<Candidate>>, visits: seq<Visit>, order: seq<Candidate>, end: Visit, i: nat, n: nat)
    requires Visits(groups, visits, order, end) && i < |visits| && FirstVisits(visits[..i], visits[i].pool, n)
    ensures visits[i].rank == n
  {
    EarlierVisits(groups, visits, order, end, i, visits[i].rank);
    if n < visits[i].rank {
      EarlierVisits(groups, visits, order, end, i, n);
    }
  }

  lemma {:induction false} VisitsCount(sh: Shuffle, order: seq<Candidate>, i: nat, q: nat)
    requires NoDuplicates(sh.pools) && Interleaved(sh, order) && i <= |order| && q < |sh.pools|
    ensures FirstVisits(sh.visits[..i], q, |PoolOf(order[..i], sh.pools[q])|)
  {
    if i > 0 {
      VisitsCount(sh, order, i - 1, q);
      VisitsCountStep(sh, order, i - 1, q);
    }
  }

  lemma VisitsCountStep(sh: Shuffle, order: seq<Candidate>, i: nat, q: nat)
    requires NoDuplicates(sh.pools) && Interleaved(sh, order) && i < |order| && q < |sh.pools|
    requires FirstVisits(sh.visits[..i], q, |PoolOf(order[..i], sh.pools[q])|)
    ensures FirstVisits(sh.visits[..i + 1], q, |PoolOf(order[..i + 1], sh.pools[q])|)
  {
    VisitTo(sh, order, i, q, |PoolOf(order[..i], sh.pools[q])|);
    VisitsCountNext(sh.visits, order, i, q, sh.pools[q]);
  }

  lemma VisitTo(sh: Shuffle, order: seq<Candidate>, i: nat, q: nat, n: nat)
    requires NoDuplicates(sh.pools) && Interleaved(sh, order) && i < |order| && q < |sh.pools|
    requires FirstVisits(sh.visits[..i], q, n)
    ensures sh.visits[i].pool == q <==> order[i].pool == sh.pools[q]
    ensures sh.visits[i].pool == q ==> sh.visits[i].rank == n
  {
    VisitPool(sh, order, i);
    if sh.visits[i].pool == q {
      NextVisit(Groups(sh.sorted, sh.pools), sh.visits, order, sh.End(), i, n);
    }
  }

  lemma VisitsCountNext(visits: seq<Visit>, order: seq<Candidate>, i: nat, q: nat, pool: string)
    requires i < |order| == |visits| && FirstVisits(visits[..i], q, |PoolOf(order[..i], pool)|)
    requires visits[i].pool == q <==> order[i].pool == pool
    requires visits[i].pool == q ==> visits[i].rank == |PoolOf(order[..i], pool)|
    ensures FirstVisits(visits[..i + 1], q, |PoolOf(order[..i + 1], pool)|)
  {
    PoolOfNext(order, pool, i);
    FirstVisitsNext(visits[..i], visits[i], q, |PoolOf(order[..i], pool)|);
    assert visits[..i + 1] == visits[..i] + [visits[i]];
  }

  lemma VisitPool(sh: Shuffle, order: seq<Candidate>, i: nat)
    requires Interleaved(sh, order) && i < |order|
    ensures sh.visits[i].pool < |sh.pools| && order[i].pool == sh.pools[sh.visits[i].pool]
    ensures sh.visits[i].rank < |PoolOf(sh.sorted, order[i].pool)|
    ensures order[i] == PoolOf(sh.sorted, order[i].pool)[sh.visits[i].rank]
  {
    var v := sh.visits[i];
    assert Exists(Groups(sh.sorted, sh.pools), v) && order[i] == Groups(sh.sorted, sh.pools)[v.pool][v.rank];
    assert order[i] in PoolOf(sh.sorted, sh.pools[v.pool]);
  }

  lemma RankIs(sh: Shuffle, order: seq<Candidate>, i: nat)
    requires NoDuplicates(sh.pools) && Interleaved(sh, order) && i < |order|
    ensures Rank(order, i) == sh.visits[i].rank
  {
    VisitPool(sh, order, i);
    VisitsCount(sh, order, i, sh.visits[i].pool);
    NextVisit(Groups(sh.sorted, sh.pools), sh.visits, order, sh.End(), i, Rank(order, i));
  }

  /** Whatever order the pools come in, a candidate stands behind all of smaller rank, in any pool. */
  lemma RanksRise(sh: Shuffle, order: seq<Candidate>)
    requires NoDuplicates(sh.pools) && Interleaved(sh, order)
    ensures Ranked(order)
  {
    forall i: nat, j: nat | i < j < |order| ensures RanksInOrder(order, i, j) {
      RankIs(sh, order, i);
      RankIs(sh, order, j);
      assert Before(sh.visits[i], sh.visits[j]);
    }
  }

  lemma {:induction false} PoolOfDescends(cs: seq<Candidate>, pool: string)
    requires Positive(cs) && Descending(cs)
    ensures Positive(PoolOf(cs, pool)) && Descending(PoolOf(cs, pool))
  {
    if cs != [] {
      var front, last := cs[..|cs| - 1], cs[|cs| - 1];
      assert forall c | c in front :: c in cs && c.disruption > 0.0;
      PoolOfDescends(front, pool);
      LastIsLeast(cs);
      assert forall c | c in PoolOf(front, pool) :: c in front;
    }
  }

  lemma LastIsLeast(cs: seq<Candidate>)
    requires cs != [] && Positive(cs) && Descending(cs)
    ensures cs[|cs| - 1].disruption > 0.0
    ensures forall c | c in cs[..|cs| - 1] :: c.disruption > 0.0 && SavingsRatio(c) >= SavingsRatio(cs[|cs| - 1])
  {
    forall c | c in cs[..|cs| - 1] ensures c.disruption > 0.0 && SavingsRatio(c) >= SavingsRatio(cs[|cs| - 1]) {
      var i :| 0 <= i < |cs| - 1 && cs[i] == c;
      assert cs[i] in cs;
    }
    assert cs[|cs| - 1] in cs;
  }

  /** Within a pool the order is by savings ratio. */
  lemma PoolDescends(sh: Shuffle, cs: seq<Candidate>, unseen: set<string>, order: seq<Candidate>, i: nat, j: nat)
    requires Shuffles(sh, cs, unseen, order) && i < j < |order| && order[i].pool == order[j].pool
    ensures order[i].disruption > 0.0 && order[j].disruption > 0.0
    ensures SavingsRatio(order[i]) >= SavingsRatio(order[j])
  {
    VisitPool(sh, order, i);
    VisitPool(sh, order, j);
    var group := PoolOf(sh.sorted, order[i].pool);
    assert Before(sh.visits[i], sh.visits[j]);
    assert sh.visits[i].pool == sh.visits[j].pool;
    PoolOfDescends(sh.sorted, order[i].pool);
    assert group[sh.visits[i].rank] in group && group[sh.visits[j].rank] in group;
  }

  ghost predicate StrictlyDescending(cs: seq<Candidate>)
    requires Positive(cs)
  {
    forall i, j | 0 <= i < j < |cs| :: SavingsRatio(cs[i]) > SavingsRatio(cs[j])
  }

  lemma StrictlyLeast(cs: seq<Candidate>, c: Candidate)
    requires c in cs && Positive(cs) && StrictlyDescending(cs)
    ensures var last := cs[|cs| - 1];
            last in cs && (c == last || SavingsRatio(c) > SavingsRatio(last))
  {
    var i :| 0 <= i < |cs| && cs[i] == c;
  }

  lemma SameLast(cs: seq<Candidate>, other: seq<Candidate>)
    requires cs != [] && Positive(cs) && Positive(other) && StrictlyDescending(cs) && Descending(other)
    requires |other| == |cs| && forall c :: c in other <==> c in cs
    ensures other[|cs| - 1] == cs[|cs| - 1]
  {
    var n := |cs| - 1;
    assert other == other[..n] + [other[n]];
    assert other[n] in other && cs[n] in other;
    assert cs[n] == other[n] || cs[n] in other[..n];
    StrictlyLeast(cs, other[n]);
    LastIsLeast(other);
  }

  lemma FrontOf(cs: seq<Candidate>)
    requires cs != []
    ensures multiset(cs[..|cs| - 1]) == multiset(cs) - multiset{cs[|cs| - 1]}
  {
    assert cs == cs[..|cs| - 1] + [cs[|cs| - 1]];
  }

  lemma DropLast(cs: seq<Candidate>, other: seq<Candidate>)
    requires |cs| == |other| > 0 && multiset(other) == multiset(cs) && other[|cs| - 1] == cs[|cs| - 1]
    ensures multiset(other[..|cs| - 1]) == multiset(cs[..|cs| - 1])
  {
    FrontOf(cs);
    FrontOf(other);
  }

  lemma FrontDescends(cs: seq<Candidate>)
    requires cs != [] && Positive(cs)
    ensures Positive(cs[..|cs| - 1])
    ensures Descending(cs) ==> Descending(cs[..|cs| - 1])
    ensures StrictlyDescending(cs) ==> StrictlyDescending(cs[..|cs| - 1])
  {
    assert forall c | c in cs[..|cs| - 1] :: c in cs;
  }

  /** Without ties there is one sorted order. */
  lemma {:induction false} SortedUnique(cs: seq<Candidate>, other: seq<Candidate>)
    requires Positive(cs) && Positive(other) && StrictlyDescending(cs) && Descending(other)
    requires multiset(other) == multiset(cs)
    ensures other == cs
  {
    SameMembers(other, cs);
    if cs != [] {
      var n := |cs| - 1;
      SameLast(cs, other);
      DropLast(cs, other);
      FrontDescends(cs);
      FrontDescends(other);
      SortedUnique(cs[..n], other[..n]);
      assert cs == cs[..n] + [cs[n]] && other == other[..n] + [other[n]];
    }
  }

  /** With one pool and no ties, every pass has the candidates in the same order. */
  lemma OnePoolOrder(sh: Shuffle, cs: seq<Candidate>, unseen: set<string>, order: seq<Candidate>)
    requires DistinctIDs(cs) && Positive(cs) && StrictlyDescending(cs) && Shuffles(sh, cs, unseen, order)
    requires forall a, b | a in cs && b in cs :: a.pool == b.pool
    ensures order == cs
  {
    ShufflePermutes(sh, cs, unseen, order);
    SameMembers(order, cs);
    forall i, j | 0 <= i < j < |order| ensures SavingsRatio(order[i]) >= SavingsRatio(order[j]) {
      assert order[i] in cs && order[j] in cs;
      PoolDescends(sh, cs, unseen, order, i, j);
    }
    SortedUnique(cs, order);
  }

  /** Candidates of the same pool with a better ratio take up ranks before it. */
  lemma BetterOutrank(sh: Shuffle, cs: seq<Candidate>, unseen: set<string>, order: seq<Candidate>, i: nat,
                      better: set<Candidate>)
    requires DistinctIDs(cs) && Shuffles(sh, cs, unseen, order) && i < |order| && order[i].disruption > 0.0
    requires forall c | c in better ::
               c in cs && c.pool == order[i].pool && c.disruption > 0.0 && SavingsRatio(c) > SavingsRatio(order[i])
    ensures |better| <= Rank(order, i)
  {
    ShufflePermutes(sh, cs, unseen, order);
    SameMembers(order, cs);
    var ahead := PoolOf(order[..i], order[i].pool);
    forall c | c in better ensures c in ahead {
      var j :| 0 <= j < |order| && order[j] == c;
      if j > i {
        PoolDescends(sh, cs, unseen, order, i, j);
      }
      assert order[j] in order[..i];
    }
    FewerMembers(better, ahead);
  }

  /** As long as the visits are to best candidates, each is to a later pool. */
  lemma {:induction false} FirstRound(groups: seq<seq<Candidate>>, visits: seq<Visit>, order: seq<Candidate>,
                                      end: Visit, i: nat)
    requires Visits(groups, visits, order, end) && i < |visits| && visits[i].rank == 0
    ensures i <= visits[i].pool
  {
    if i > 0 {
      assert Before(visits[i - 1], visits[i]);
      FirstRound(groups, visits, order, end, i - 1);
    }
  }

  lemma UnseenAt(pools: seq<string>, unseen: set<string>, current: set<string>, pool: string) returns (q: nat)
    requires UnseenFirst(pools, unseen, current) && pool in unseen
    ensures q < |unseen| <= |pools| && pools[q] == pool
  {
    assert pool in pools[..|unseen|];
    q :| 0 <= q < |unseen| && pools[q] == pool;
  }

  lemma FirstVisit(sh: Shuffle, order: seq<Candidate>, q: nat) returns (i: nat)
    requires Interleaved(sh, order) && q < |sh.pools| && PoolOf(sh.sorted, sh.pools[q]) != []
    ensures i < |order| && i <= q && order[i].pool == sh.pools[q]
  {
    var groups, v := Groups(sh.sorted, sh.pools), Visit(0, q);
    assert groups[q] in groups;
    assert Exists(groups, v) && Before(v, sh.End()) && v in sh.visits;
    i :| 0 <= i < |sh.visits| && sh.visits[i] == v;
    FirstRound(groups, sh.visits, order, sh.End(), i);
    VisitPool(sh, order, i);
  }

  /** The best candidate of an unseen pool stands among the first ones, as many as there are unseen pools. */
  lemma FirstOfPool(sh: Shuffle, cs: seq<Candidate>, unseen: set<string>, order: seq<Candidate>, pool: string)
    returns (i: nat)
    requires Shuffles(sh, cs, unseen, order) && pool in unseen && pool in Pools(cs)
    ensures i < |order| && i < |unseen| && order[i].pool == pool
  {
    var c :| c in cs && c.pool == pool;
    SameMembers(sh.sorted, cs);
    assert c in PoolOf(sh.sorted, pool);
    var q := UnseenAt(sh.pools, unseen, Pools(cs), pool);
    i := FirstVisit(sh, order, q);
  }
}
