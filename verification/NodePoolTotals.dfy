/**
 The denominators of balanced scoring (pkg/controllers/disruption/balanced.go:38-102): a pool's cost
 and the disruption cost of all its nodes, candidates or not.
 */
module NodePoolTotals {
  import opened Candidates
  import opened Wrappers
  import opened Balanced

  const BASE_DISRUPTION := 1.0

  /** A node of the cluster: its pool label, if any, and its own disruption cost. */
  datatype StateNode = StateNode(name: string, pool: Option<string>, disruption: real)

  /** The candidate recorded under a node name, the last one if there are several. */
  function Named(cs: seq<Candidate>, name: string): Option<Candidate> {
    if cs == [] then None
    else if cs[|cs| - 1].name == name then Some(cs[|cs| - 1])
    else Named(cs[..|cs| - 1], name)
  }

  /** A candidate's cost is taken from its pods, any other node's from the cluster state. */
  function NodeCost(cs: seq<Candidate>, n: StateNode): real {
    if Named(cs, n.name).Some? then Named(cs, n.name).value.disruption else n.disruption
  }

  function NodesTotal(nodes: seq<StateNode>, cs: seq<Candidate>, pool: string): real {
    if nodes == [] then 0.0
    else
      var n := nodes[|nodes| - 1];
      NodesTotal(nodes[..|nodes| - 1], cs, pool) + if n.pool == Some(pool) then NodeCost(cs, n) else 0.0
  }

  /** `clusterCost` is the cluster's own record of what each pool costs, when there is one. */
  function TotalsOf(cs: seq<Candidate>, nodes: seq<StateNode>, clusterCost: Option<string -> real>,
                    pool: string): Totals
  {
    Totals(if clusterCost.Some? && clusterCost.value(pool) > 0.0 then clusterCost.value(pool)
           else PoolTotal(cs, pool, Price()),
           NodesTotal(nodes, cs, pool))
  }

  method CandidatesByName(cs: seq<Candidate>) returns (byName: map<string, Candidate>)
    ensures forall name :: Named(cs, name) == if name in byName then Some(byName[name]) else None
  {
    byName := map[];
    for i := 0 to |cs|
      invariant forall name :: Named(cs[..i], name) == if name in byName then Some(byName[name]) else None
    {
      assert cs[..i + 1][..i] == cs[..i];
      byName := byName[cs[i].name := cs[i]];
    }
    assert cs[..|cs|] == cs;
  }

  method DisruptionByPool(cs: seq<Candidate>, nodes: seq<StateNode>) returns (costs: map<string, real>)
    ensures forall pool :: NodesTotal(nodes, cs, pool) == if pool in costs then costs[pool] else 0.0
  {
    var byName := CandidatesByName(cs);
    costs := map[];
    for i := 0 to |nodes|
      invariant forall pool :: NodesTotal(nodes[..i], cs, pool) == if pool in costs then costs[pool] else 0.0
    {
      var n := nodes[i];
      assert nodes[..i + 1][..i] == nodes[..i];
      if n.pool.None? {
        continue;
      }
      var cost := n.disruption;
      if n.name in byName {
        cost := byName[n.name].disruption;
      }
      assert cost == NodeCost(cs, n);
      var pool := n.pool.value;
      costs := costs[pool := (if pool in costs then costs[pool] else 0.0) + cost];
    }
    assert nodes[..|nodes|] == nodes;
  }

  method ComputeNodePoolTotals(cs: seq<Candidate>, nodes: seq<StateNode>, clusterCost: Option<string -> real>)
    returns (totals: map<string, Totals>)
    ensures totals == map pool | pool in Pools(cs) :: TotalsOf(cs, nodes, clusterCost, pool)
  {
    var fallback := SumByPool(cs, Price());
    var disruption := DisruptionByPool(cs, nodes);
    totals := map[];
    var left := fallback.Keys;
    while left != {}
      invariant left <= Pools(cs)
      invariant totals == map pool | pool in Pools(cs) - left :: TotalsOf(cs, nodes, clusterCost, pool)
    {
      var pool :| pool in left;
      left := left - {pool};
      var cost := fallback[pool];
      if clusterCost.Some? && clusterCost.value(pool) > 0.0 {
        cost := clusterCost.value(pool);
      }
      totals := totals[pool := Totals(cost, if pool in disruption then disruption[pool] else 0.0)];
    }
  }

  lemma {:induction false} NamedIs(cs: seq<Candidate>, name: string)
    ensures Named(cs, name).Some? ==> Named(cs, name).value in cs && Named(cs, name).value.name == name
    ensures forall c | c in cs && c.name == name :: Named(cs, name).Some?
  {
    if cs != [] {
      NamedIs(cs[..|cs| - 1], name);
    }
  }

  ghost predicate Draining(cs: seq<Candidate>, nodes: seq<StateNode>) {
    && (forall c | c in cs :: c.disruption >= BASE_DISRUPTION)
    && (forall n | n in nodes :: n.disruption >= BASE_DISRUPTION)
  }

  lemma {:induction false} NodesTotalCovers(nodes: seq<StateNode>, cs: seq<Candidate>, pool: string)
    requires Draining(cs, nodes)
    ensures NodesTotal(nodes, cs, pool) >= 0.0
    ensures forall n | n in nodes && n.pool == Some(pool) ::
              NodesTotal(nodes, cs, pool) >= NodeCost(cs, n) >= BASE_DISRUPTION
  {
    if nodes != [] {
      var last := nodes[|nodes| - 1];
      NodesTotalCovers(nodes[..|nodes| - 1], cs, pool);
      NamedIs(cs, last.name);
    }
  }

  lemma {:induction false} PoolTotalCovers(cs: seq<Candidate>, pool: string)
    requires forall c | c in cs :: c.price >= 0.0
    ensures PoolTotal(cs, pool, Price()) >= 0.0
    ensures forall c | c in cs && c.pool == pool :: PoolTotal(cs, pool, Price()) >= c.price
  {
    if cs != [] {
      PoolTotalCovers(cs[..|cs| - 1], pool);
    }
  }

  /** Disruption adds up node by node. */
  lemma {:induction false} NodesTotalSplits(xs: seq<StateNode>, ys: seq<StateNode>, cs: seq<Candidate>, pool: string)
    ensures NodesTotal(xs + ys, cs, pool) == NodesTotal(xs, cs, pool) + NodesTotal(ys, cs, pool)
  {
    if ys == [] {
      assert xs + ys == xs;
    } else {
      var n := |ys| - 1;
      NodesTotalSplits(xs, ys[..n], cs, pool);
      assert (xs + ys)[..|xs| + n] == xs + ys[..n];
    }
  }

  /** A pool costs what the cluster tracks for it, or what its candidates cost when nothing is tracked. */
  lemma PoolCostIs(cs: seq<Candidate>, nodes: seq<StateNode>, clusterCost: Option<string -> real>, pool: string)
    ensures clusterCost.Some? && clusterCost.value(pool) > 0.0 ==>
              TotalsOf(cs, nodes, clusterCost, pool).cost == clusterCost.value(pool)
    ensures clusterCost.None? || clusterCost.value(pool) <= 0.0 ==>
              TotalsOf(cs, nodes, clusterCost, pool).cost == PoolTotal(cs, pool, Price())
  {
  }

  /** A pool with a candidate among its nodes has at least the base disruption cost. */
  lemma PoolIsDraining(cs: seq<Candidate>, nodes: seq<StateNode>, clusterCost: Option<string -> real>, c: Candidate,
                       n: StateNode)
    requires Draining(cs, nodes) && c in cs && n in nodes && n.name == c.name && n.pool == Some(c.pool)
    ensures TotalsOf(cs, nodes, clusterCost, c.pool).disruption >= BASE_DISRUPTION
  {
    NodesTotalCovers(nodes, cs, c.pool);
  }

  /** Under computed totals, the pruning test decides the delete of any candidate with a price. */
  lemma PruningDecidesDelete(move: Move, c: Candidate, balanced: string -> bool, cs: seq<Candidate>,
                             nodes: seq<StateNode>,
                             clusterCost: Option<string -> real>)
    requires ForOne(move, c) && move.replacements == 0
    requires c in cs && c.price > 0.0 && forall d | d in cs :: d.price >= 0.0
    ensures var totals := map pool | pool in Pools(cs) :: TotalsOf(cs, nodes, clusterCost, pool);
            CanPassThreshold(c, balanced, totals) <==> MoveApproved(move, balanced, totals)
  {
    var totals := map pool | pool in Pools(cs) :: TotalsOf(cs, nodes, clusterCost, pool);
    PoolTotalCovers(cs, c.pool);
    assert c.pool in Pools(cs);
    assert totals[c.pool].cost > 0.0;
    PruningExact(move, c, balanced, totals);
  }

  /** Every candidate but the i-th is of another pool and another node than c. */
  ghost predicate Elsewhere(cs: seq<Candidate>, c: Candidate, i: nat) {
    forall j: nat | j < |cs| && j != i :: cs[j].pool != c.pool && cs[j].name != c.name
  }

  /** c is the only candidate of its pool. */
  ghost predicate OnlyCandidate(cs: seq<Candidate>, c: Candidate) {
    exists i: nat :: i < |cs| && cs[i] == c && Elsewhere(cs, c, i)
  }

  /** n is the only node of its pool. */
  ghost predicate OnlyNode(nodes: seq<StateNode>, n: StateNode) {
    exists i: nat :: i < |nodes| && nodes[i] == n && forall j: nat | j < |nodes| && j != i :: nodes[j].pool != n.pool
  }

  lemma {:induction false} OnlyCandidateTotal(cs: seq<Candidate>, c: Candidate)
    requires OnlyCandidate(cs, c)
    ensures PoolTotal(cs, c.pool, Price()) == c.price && Named(cs, c.name) == Some(c)
  {
    var i: nat :| i < |cs| && cs[i] == c && Elsewhere(cs, c, i);
    var front := cs[..|cs| - 1];
    if i == |cs| - 1 {
      PoolTotalElsewhere(front, c.pool, Price());
    } else {
      assert front[i] == c;
      OnlyCandidateTotal(front, c);
    }
  }

  lemma {:induction false} NodesElsewhere(nodes: seq<StateNode>, cs: seq<Candidate>, pool: string)
    requires forall n | n in nodes :: n.pool != Some(pool)
    ensures NodesTotal(nodes, cs, pool) == 0.0
  {
    if nodes != [] {
      NodesElsewhere(nodes[..|nodes| - 1], cs, pool);
    }
  }

  lemma {:induction false} OnlyNodeTotal(nodes: seq<StateNode>, n: StateNode, cs: seq<Candidate>, pool: string)
    requires OnlyNode(nodes, n) && n.pool == Some(pool)
    ensures NodesTotal(nodes, cs, pool) == NodeCost(cs, n)
  {
    var i: nat :| i < |nodes| && nodes[i] == n && forall j: nat | j < |nodes| && j != i :: nodes[j].pool != n.pool;
    var front := nodes[..|nodes| - 1];
    if i == |nodes| - 1 {
      NodesElsewhere(front, cs, pool);
    } else {
      assert front[i] == n;
      OnlyNodeTotal(front, n, cs, pool);
    }
  }

  /** The one node of a pool has all of the pool's cost and all of its disruption. */
  lemma OneNodeEvenShare(cs: seq<Candidate>, nodes: seq<StateNode>, clusterCost: Option<string -> real>, c: Candidate,
                         n: StateNode)
    requires OnlyCandidate(cs, c) && OnlyNode(nodes, n) && n.name == c.name && n.pool == Some(c.pool)
    requires c.price > 0.0 && c.disruption > 0.0 && (clusterCost.Some? ==> clusterCost.value(c.pool) in {0.0, c.price})
    ensures EvenShare(c, TotalsOf(cs, nodes, clusterCost, c.pool))
  {
    OnlyCandidateTotal(cs, c);
    OnlyNodeTotal(nodes, n, cs, c.pool);
  }
}
