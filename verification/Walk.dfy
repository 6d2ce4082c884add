/**
 The single-node walk (pkg/controllers/disruption/singlenodeconsolidation.go): the order candidates
 are visited in, and where a pass resumes when an earlier one timed out. What a pass proposes is in
 SingleNode, what passes reach together is in Coverage.
 */
module Walk {
  import opened Candidates
  import opened Finite

  predicate DistinctIDs(cs: seq<Candidate>) {
    forall i, j | 0 <= i < j < |cs| :: cs[i].providerID != cs[j].providerID
  }

  // Interleaving pools

  /** The candidates of one pool in their sorted order; `lo.GroupBy`. */
  function PoolOf(cs: seq<Candidate>, pool: string): (r: seq<Candidate>)
    ensures forall c :: c in r <==> c in cs && c.pool == pool
  {
    if cs == [] then []
    else
      var front := PoolOf(cs[..|cs| - 1], pool);
      if cs[|cs| - 1].pool == pool then front + [cs[|cs| - 1]] else front
  }

  /** A visit: the candidate of rank `rank` in the pool at position `pool` of the pool order. */
  datatype Visit = Visit(rank: nat, pool: nat)

  predicate Before(a: Visit, b: Visit) {
    a.rank < b.rank || (a.rank == b.rank && a.pool < b.pool)
  }

  predicate Exists(groups: seq<seq<Candidate>>, v: Visit) {
    v.pool < |groups| && v.rank < |groups[v.pool]|
  }

  /** The visits made before reaching v, in order, each of an existing candidate. */
  ghost predicate Visits(groups: seq<seq<Candidate>>, visits: seq<Visit>, result: seq<Candidate>, end: Visit) {
    && |visits| == |result|
    && (forall i | 0 <= i < |visits| ::
          Exists(groups, visits[i]) && Before(visits[i], end) && result[i] == groups[visits[i].pool][visits[i].rank])
    && (forall i, j | 0 <= i < j < |visits| :: Before(visits[i], visits[j]))
    && (forall v | Exists(groups, v) && Before(v, end) :: v in visits)
  }

  lemma VisitOne(groups: seq<seq<Candidate>>, visits: seq<Visit>, result: seq<Candidate>, v: Visit)
    requires Visits(groups, visits, result, v) && Exists(groups, v)
    ensures Visits(groups, visits + [v], result + [groups[v.pool][v.rank]], Visit(v.rank, v.pool + 1))
  {
    var more, end := visits + [v], Visit(v.rank, v.pool + 1);
    forall u | Exists(groups, u) && Before(u, end) ensures u in more {
      if u != v {
        assert u in visits;
      }
    }
  }

  lemma SkipOne(groups: seq<seq<Candidate>>, visits: seq<Visit>, result: seq<Candidate>, v: Visit)
    requires Visits(groups, visits, result, v) && !Exists(groups, v)
    ensures Visits(groups, visits, result, Visit(v.rank, v.pool + 1))
  {
    forall u | Exists(groups, u) && Before(u, Visit(v.rank, v.pool + 1)) ensures u in visits {
      assert u != v;
    }
  }

  lemma NextRank(groups: seq<seq<Candidate>>, visits: seq<Visit>, result: seq<Candidate>, rank: nat)
    requires Visits(groups, visits, result, Visit(rank, |groups|))
    ensures Visits(groups, visits, result, Visit(rank + 1, 0))
  {
    forall u | Exists(groups, u) && Before(u, Visit(rank + 1, 0)) ensures u in visits {
      assert Before(u, Visit(rank, |groups|));
    }
  }

  function Longest(groups: seq<seq<Candidate>>): (n: nat)
    ensures forall g | g in groups :: |g| <= n
  {
    if groups == [] then 0
    else
      var n := Longest(groups[..|groups| - 1]);
      if |groups[|groups| - 1]| > n then |groups[|groups| - 1]| else n
  }

  /**
   The interleaving loop of `shuffleCandidates`: every candidate of every pool exactly once, rank by
   rank, pools in order within a rank.
   */
  method Interleave(groups: seq<seq<Candidate>>) returns (result: seq<Candidate>, ghost visits: seq<Visit>)
    ensures Visits(groups, visits, result, Visit(Longest(groups), 0))
  {
    result, visits := [], [];
    var n := Longest(groups);
    for i := 0 to n
      invariant Visits(groups, visits, result, Visit(i, 0))
    {
      for j := 0 to |groups|
        invariant Visits(groups, visits, result, Visit(i, j))
      {
        if i < |groups[j]| {
          VisitOne(groups, visits, result, Visit(i, j));
          result, visits := result + [groups[j][i]], visits + [Visit(i, j)];
        } else {
          SkipOne(groups, visits, result, Visit(i, j));
        }
      }
      NextRank(groups, visits, result, i);
    }
  }

  /** The pools in visiting order, each with its candidates; unseen pools come first. */
  function Groups(cs: seq<Candidate>, pools: seq<string>): (r: seq<seq<Candidate>>)
    ensures |r| == |pools| && forall i | 0 <= i < |pools| :: r[i] == PoolOf(cs, pools[i])
  {
    seq(|pools|, i requires 0 <= i < |pools| => PoolOf(cs, pools[i]))
  }

  lemma {:induction false} PoolOfDistinct(cs: seq<Candidate>, pool: string)
    requires NoDuplicates(cs)
    ensures NoDuplicates(PoolOf(cs, pool))
  {
    if cs != [] {
      PoolOfDistinct(cs[..|cs| - 1], pool);
      assert cs[|cs| - 1] !in cs[..|cs| - 1];
    }
  }

  lemma InterleaveDistinct(cs: seq<Candidate>, pools: seq<string>, result: seq<Candidate>, visits: seq<Visit>,
                           end: Visit)
    requires NoDuplicates(cs) && NoDuplicates(pools)
    requires Visits(Groups(cs, pools), visits, result, end)
    ensures NoDuplicates(result) && forall c | c in result :: c in cs
  {
    var groups := Groups(cs, pools);
    forall i | 0 <= i < |result| ensures result[i] in cs && result[i].pool == pools[visits[i].pool] {
      assert result[i] in groups[visits[i].pool];
    }
    forall i, j | 0 <= i < j < |result| ensures result[i] != result[j] {
      PoolOfDistinct(cs, pools[visits[i].pool]);
    }
  }

  lemma InterleaveCovers(cs: seq<Candidate>, pools: seq<string>, result: seq<Candidate>, visits: seq<Visit>,
                         c: Candidate)
    requires Visits(Groups(cs, pools), visits, result, Visit(Longest(Groups(cs, pools)), 0))
    requires c in cs && c.pool in pools
    ensures c in result
  {
    var groups := Groups(cs, pools);
    var p :| 0 <= p < |pools| && pools[p] == c.pool;
    var r :| 0 <= r < |groups[p]| && groups[p][r] == c;
    assert groups[p] in groups;
    var v := Visit(r, p);
    assert Exists(groups, v) && v in visits;
    var i :| 0 <= i < |visits| && visits[i] == v;
    assert result[i] == c;
  }

  /** The walk order is a permutation of the candidates, whatever order the pools come in. */
  lemma InterleavePermutes(cs: seq<Candidate>, pools: seq<string>, result: seq<Candidate>, visits: seq<Visit>)
    requires NoDuplicates(cs) && NoDuplicates(pools) && forall c | c in cs :: c.pool in pools
    requires Visits(Groups(cs, pools), visits, result, Visit(Longest(Groups(cs, pools)), 0))
    ensures multiset(result) == multiset(cs)
  {
    InterleaveDistinct(cs, pools, result, visits, Visit(Longest(Groups(cs, pools)), 0));
    forall c | c in cs ensures c in result {
      InterleaveCovers(cs, pools, result, visits, c);
    }
    SameMembersOnce(result, cs);
  }

  // The coverage cycle

  function Without(cs: seq<Candidate>, ids: set<string>): (r: seq<Candidate>)
    ensures forall c :: c in r <==> c in cs && c.providerID !in ids
  {
    if cs == [] then []
    else
      var front := Without(cs[..|cs| - 1], ids);
      if cs[|cs| - 1].providerID in ids then front else front + [cs[|cs| - 1]]
  }

  /** What the cycle remembers when a pass begins: live candidates only, nothing once all are reached. */
  function Live(evaluated: set<string>, cs: seq<Candidate>): set<string> {
    var live := evaluated * IDs(cs);
    if |live| >= |cs| then {} else live
  }

  /** `resumeCoverageCycle`: candidates not reached yet come first, in their order. */
  function Resumed(evaluated: set<string>, cs: seq<Candidate>): seq<Candidate> {
    var live := Live(evaluated, cs);
    Without(cs, live) + Without(cs, IDs(cs) - live)
  }

  lemma {:induction false} WithoutDistinct(cs: seq<Candidate>, ids: set<string>)
    requires DistinctIDs(cs)
    ensures DistinctIDs(Without(cs, ids))
  {
    if cs != [] {
      WithoutDistinct(cs[..|cs| - 1], ids);
      assert forall c | c in cs[..|cs| - 1] :: c.providerID != cs[|cs| - 1].providerID;
    }
  }

  lemma {:induction false} IDCount(cs: seq<Candidate>)
    requires DistinctIDs(cs)
    ensures |IDs(cs)| == |cs|
  {
    if cs != [] {
      var front, last := cs[..|cs| - 1], cs[|cs| - 1];
      IDCount(front);
      assert IDs(cs) == IDs(front) + {last.providerID} by {
        assert cs == front + [last];
      }
      assert last.providerID !in IDs(front);
    }
  }

  /** Resuming only reorders: unreached candidates first, everything once. */
  lemma ResumedPermutes(evaluated: set<string>, cs: seq<Candidate>)
    requires DistinctIDs(cs)
    ensures multiset(Resumed(evaluated, cs)) == multiset(cs)
    ensures DistinctIDs(Resumed(evaluated, cs))
    ensures |Without(cs, Live(evaluated, cs))| == |IDs(cs) - Live(evaluated, cs)|
  {
    var live := Live(evaluated, cs);
    var front, back := Without(cs, live), Without(cs, IDs(cs) - live);
    WithoutDistinct(cs, live);
    WithoutDistinct(cs, IDs(cs) - live);
    var r := Resumed(evaluated, cs);
    forall i, j | 0 <= i < j < |r| ensures r[i].providerID != r[j].providerID {
      if i < |front| <= j {
        assert r[i] in front && r[j] in back;
      }
    }
    forall c ensures c in r <==> c in cs {
      assert c in cs ==> c.providerID in IDs(cs);
    }
    SameMembersOnce(r, cs);
    IDCount(front);
    assert IDs(front) == IDs(cs) - live;
  }
}
