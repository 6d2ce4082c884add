/**
 Disruption budgets: how many nodes of a pool may still be disrupted
 (`BuildDisruptionBudgetMapping` in pkg/controllers/disruption/helpers.go) and the check of a
 command's candidates against them (`validateCandidates` in
 pkg/controllers/disruption/validation.go).
 */
module Budgets {
  import opened Candidates
  import opened Finite

  /** A node of the cluster state; `counted` when it is managed, initialised and not yet terminating. */
  datatype Node = Node(pool: string, counted: bool, ready: bool, deleting: bool)

  type Nodes = map<string, Node>

  /** Allowed disruptions of a pool, given its node count: the budget schedules are an oracle. */
  type Allowance = (string, nat) -> nat

  predicate InPool(nodes: Nodes, id: string, pool: string) {
    id in nodes && nodes[id].counted && nodes[id].pool == pool
  }

  /** Not ready, or on its way out. */
  predicate IsDisrupting(nodes: Nodes, marked: set<string>, id: string)
    requires id in nodes
  {
    !nodes[id].ready || nodes[id].deleting || id in marked
  }

  ghost function PoolNodes(nodes: Nodes, pool: string): set<string> {
    set id | id in nodes && InPool(nodes, id, pool)
  }

  ghost function PoolDisrupting(nodes: Nodes, marked: set<string>, pool: string): set<string> {
    set id | id in nodes && InPool(nodes, id, pool) && IsDisrupting(nodes, marked, id)
  }

  function Lookup(m: map<string, int>, key: string): int {
    if key in m then m[key] else 0
  }

  ghost function Budget(nodes: Nodes, marked: set<string>, allowed: Allowance, pool: string): nat {
    var left := allowed(pool, |PoolNodes(nodes, pool)|) - |PoolDisrupting(nodes, marked, pool)|;
    if left > 0 then left else 0
  }

  /** m counts, per pool, the members outside `rest`; either all of them or only the disrupting ones. */
  ghost predicate Tallies(m: map<string, int>, nodes: Nodes, marked: set<string>, all: bool, rest: set<string>) {
    forall p :: Lookup(m, p) == |(if all then PoolNodes(nodes, p) else PoolDisrupting(nodes, marked, p)) - rest|
  }

  lemma Uncover(s: set<string>, rest: set<string>, id: string)
    requires id in rest
    ensures |s - (rest - {id})| == |s - rest| + if id in s then 1 else 0
  {
    assert s - (rest - {id}) == (s - rest) + if id in s then {id} else {};
  }

  lemma TallyOne(m: map<string, int>, nodes: Nodes, marked: set<string>, all: bool, rest: set<string>, id: string)
    requires Tallies(m, nodes, marked, all, rest) && id in rest && id in nodes
    ensures var n := nodes[id];
            var hit := n.counted && (all || IsDisrupting(nodes, marked, id));
            Tallies(if hit then m[n.pool := Lookup(m, n.pool) + 1] else m, nodes, marked, all, rest - {id})
  {
    forall p {
      Uncover(if all then PoolNodes(nodes, p) else PoolDisrupting(nodes, marked, p), rest, id);
    }
  }

  /** The counting loop of `BuildDisruptionBudgetMapping`, in any order of the nodes. */
  method CountNodes(nodes: Nodes, marked: set<string>) returns (total: map<string, int>, disrupting: map<string, int>)
    ensures Tallies(total, nodes, marked, true, {}) && Tallies(disrupting, nodes, marked, false, {})
  {
    total, disrupting := map[], map[];
    var rest := nodes.Keys;
    while rest != {}
      invariant rest <= nodes.Keys
      invariant Tallies(total, nodes, marked, true, rest) && Tallies(disrupting, nodes, marked, false, rest)
    {
      var id :| id in rest;
      var n := nodes[id];
      TallyOne(total, nodes, marked, true, rest, id);
      TallyOne(disrupting, nodes, marked, false, rest, id);
      if n.counted {
        total := total[n.pool := Lookup(total, n.pool) + 1];
        if IsDisrupting(nodes, marked, id) {
          disrupting := disrupting[n.pool := Lookup(disrupting, n.pool) + 1];
        }
      }
      rest := rest - {id};
    }
  }

  lemma TalliedBudget(total: map<string, int>, disrupting: map<string, int>, nodes: Nodes, marked: set<string>,
                      allowed: Allowance, pool: string)
    requires Tallies(total, nodes, marked, true, {}) && Tallies(disrupting, nodes, marked, false, {})
    ensures Lookup(total, pool) >= 0
    ensures var left := allowed(pool, Lookup(total, pool)) - Lookup(disrupting, pool);
            Budget(nodes, marked, allowed, pool) == if left > 0 then left else 0
  {
    assert PoolNodes(nodes, pool) - {} == PoolNodes(nodes, pool);
    assert PoolDisrupting(nodes, marked, pool) - {} == PoolDisrupting(nodes, marked, pool);
  }

  /** The listed pools map to their budgets, any other pool reads as zero. */
  ghost predicate Maps(budget: map<string, int>, nodes: Nodes, marked: set<string>, pools: seq<string>,
                       allowed: Allowance)
  {
    forall p :: Lookup(budget, p) == if p in pools then Budget(nodes, marked, allowed, p) else 0
  }

  lemma MapsNext(budget: map<string, int>, nodes: Nodes, marked: set<string>, pools: seq<string>, allowed: Allowance,
                 i: nat)
    requires i < |pools| && Maps(budget, nodes, marked, pools[..i], allowed)
    ensures Maps(budget[pools[i] := Budget(nodes, marked, allowed, pools[i])], nodes, marked, pools[..i + 1], allowed)
  {
    assert pools[..i + 1] == pools[..i] + [pools[i]];
  }

  method BuildDisruptionBudgetMapping(nodes: Nodes, marked: set<string>, pools: seq<string>, allowed: Allowance)
    returns (budget: map<string, int>)
    ensures Maps(budget, nodes, marked, pools, allowed)
  {
    var total, disrupting := CountNodes(nodes, marked);
    budget := map[];
    for i := 0 to |pools|
      invariant Maps(budget, nodes, marked, pools[..i], allowed)
    {
      var p := pools[i];
      TalliedBudget(total, disrupting, nodes, marked, allowed, p);
      MapsNext(budget, nodes, marked, pools, allowed, i);
      var left := allowed(p, Lookup(total, p)) - Lookup(disrupting, p);
      budget := budget[p := if left > 0 then left else 0];
    }
    assert pools[..|pools|] == pools;
  }

  // Checking candidates

  function CandidateNames(cs: seq<Candidate>): set<string> {
    set c | c in cs :: c.name
  }

  /** `mapCandidates`: the current form of the proposed candidates. */
  function MapCandidates(proposed: seq<Candidate>, current: seq<Candidate>): (r: seq<Candidate>)
    ensures forall c :: c in r <==> c in current && c.name in CandidateNames(proposed)
  {
    if current == [] then []
    else
      var rest := MapCandidates(proposed, current[1..]);
      if current[0].name in CandidateNames(proposed) then [current[0]] + rest else rest
  }

  function CountPool(cs: seq<Candidate>, pool: string): nat {
    if cs == [] then 0 else CountPool(cs[..|cs| - 1], pool) + if cs[|cs| - 1].pool == pool then 1 else 0
  }

  ghost predicate Affordable(cs: seq<Candidate>, budget: map<string, int>) {
    forall p :: CountPool(cs, p) == 0 || CountPool(cs, p) <= Lookup(budget, p)
  }

  lemma {:induction false} CountPrefix(cs: seq<Candidate>, i: nat, pool: string)
    requires i <= |cs|
    ensures CountPool(cs[..i], pool) <= CountPool(cs, pool)
    decreases |cs|
  {
    if i < |cs| {
      CountPrefix(cs[..|cs| - 1], i, pool);
      assert cs[..|cs| - 1][..i] == cs[..i];
    } else {
      assert cs[..i] == cs;
    }
  }

  /** What is left of the budgets after the candidates so far. */
  ghost predicate Left(left: map<string, int>, budget: map<string, int>, cs: seq<Candidate>) {
    forall p :: Lookup(left, p) == Lookup(budget, p) - CountPool(cs, p) && Lookup(left, p) >= 0
  }

  lemma SpendOne(left: map<string, int>, budget: map<string, int>, cs: seq<Candidate>, i: nat)
    requires i < |cs| && Left(left, budget, cs[..i]) && Lookup(left, cs[i].pool) != 0
    ensures Left(left[cs[i].pool := Lookup(left, cs[i].pool) - 1], budget, cs[..i + 1])
  {
    assert cs[..i + 1][..i] == cs[..i];
    var less := left[cs[i].pool := Lookup(left, cs[i].pool) - 1];
    forall p ensures Lookup(less, p) == Lookup(budget, p) - CountPool(cs[..i + 1], p) && Lookup(less, p) >= 0 {
      assert Lookup(left, p) == Lookup(budget, p) - CountPool(cs[..i], p);
    }
  }

  lemma Overspent(left: map<string, int>, budget: map<string, int>, cs: seq<Candidate>, i: nat)
    requires i < |cs| && Left(left, budget, cs[..i]) && Lookup(left, cs[i].pool) == 0
    ensures !Affordable(cs, budget)
  {
    assert cs[..i + 1][..i] == cs[..i];
    CountPrefix(cs, i + 1, cs[i].pool);
  }

  lemma AllSpent(left: map<string, int>, budget: map<string, int>, cs: seq<Candidate>)
    requires Left(left, budget, cs)
    ensures Affordable(cs, budget)
  {
    forall p ensures CountPool(cs, p) <= Lookup(budget, p) {
      assert Lookup(left, p) >= 0;
    }
  }

  /**
   The loop of `validateCandidates`: no candidate is nominated, and no pool's candidates exceed its
   budget together.
   */
  method WithinBudgets(cs: seq<Candidate>, nominated: set<string>, budget: map<string, int>) returns (ok: bool)
    requires forall p | p in budget :: budget[p] >= 0
    ensures ok <==> (forall i | 0 <= i < |cs| :: cs[i].providerID !in nominated) && Affordable(cs, budget)
  {
    var left := budget;
    for i := 0 to |cs|
      invariant forall k | 0 <= k < i :: cs[k].providerID !in nominated
      invariant Left(left, budget, cs[..i])
    {
      if cs[i].providerID in nominated {
        return false;
      }
      if Lookup(left, cs[i].pool) == 0 {
        Overspent(left, budget, cs, i);
        return false;
      }
      SpendOne(left, budget, cs, i);
      left := left[cs[i].pool := Lookup(left, cs[i].pool) - 1];
    }
    assert cs[..|cs|] == cs;
    AllSpent(left, budget, cs);
    return true;
  }

  // What acceptance buys

  predicate DistinctNames(cs: seq<Candidate>) {
    forall i, j | 0 <= i < j < |cs| :: cs[i].name != cs[j].name
  }

  lemma {:induction false} NameCount(cs: seq<Candidate>)
    ensures |CandidateNames(cs)| <= |cs|
    ensures DistinctNames(cs) ==> |CandidateNames(cs)| == |cs|
  {
    if cs != [] {
      var front, last := cs[..|cs| - 1], cs[|cs| - 1];
      NameCount(front);
      assert CandidateNames(cs) == CandidateNames(front) + {last.name} by {
        assert cs == front + [last];
      }
      if DistinctNames(cs) {
        assert last.name !in CandidateNames(front);
      }
    }
  }

  lemma {:induction false} MappedDistinct(proposed: seq<Candidate>, current: seq<Candidate>)
    requires DistinctNames(current)
    ensures DistinctNames(MapCandidates(proposed, current))
  {
    if current != [] {
      assert forall i | 0 <= i < |current[1..]| :: current[1..][i] == current[i + 1];
      MappedDistinct(proposed, current[1..]);
    }
  }

  ghost function NamedIn(proposed: seq<Candidate>): Candidate -> bool {
    (c: Candidate) => c.name in CandidateNames(proposed)
  }

  lemma {:induction false} MappedIsFilter(proposed: seq<Candidate>, current: seq<Candidate>)
    ensures MapCandidates(proposed, current) == Filter(NamedIn(proposed), current)
  {
    if current != [] {
      MappedIsFilter(proposed, current[1..]);
    }
  }

  /** The current forms stay in their order. */
  lemma MappedSplits(proposed: seq<Candidate>, xs: seq<Candidate>, ys: seq<Candidate>)
    ensures MapCandidates(proposed, xs + ys) == MapCandidates(proposed, xs) + MapCandidates(proposed, ys)
  {
    MappedIsFilter(proposed, xs);
    MappedIsFilter(proposed, ys);
    MappedIsFilter(proposed, xs + ys);
    FilterSplits(NamedIn(proposed), xs, ys);
  }

  /** If no candidate was dropped, the current forms name exactly the proposed nodes. */
  lemma MappedNames(proposed: seq<Candidate>, current: seq<Candidate>)
    requires DistinctNames(current) && |MapCandidates(proposed, current)| == |proposed|
    ensures CandidateNames(MapCandidates(proposed, current)) == CandidateNames(proposed)
  {
    var mapped := MapCandidates(proposed, current);
    MappedDistinct(proposed, current);
    NameCount(mapped);
    NameCount(proposed);
    var extra := CandidateNames(proposed) - CandidateNames(mapped);
    assert CandidateNames(proposed) == CandidateNames(mapped) + extra;
  }

  /** Candidates speak of the nodes they name: the same name is the same provider ID and pool. */
  ghost predicate Describes(nodes: Nodes, cs: seq<Candidate>, ds: seq<Candidate>) {
    && (forall c, d | c in cs && d in ds && c.name == d.name :: c.providerID == d.providerID && c.pool == d.pool)
    && forall d | d in ds :: d.providerID in nodes && nodes[d.providerID].pool == d.pool
  }

  ghost function PoolIDs(cs: seq<Candidate>, pool: string): set<string> {
    set c | c in cs && c.pool == pool :: c.providerID
  }

  lemma {:induction false} PoolIDsCount(cs: seq<Candidate>, pool: string)
    ensures |PoolIDs(cs, pool)| <= CountPool(cs, pool)
  {
    if cs != [] {
      var front, last := cs[..|cs| - 1], cs[|cs| - 1];
      PoolIDsCount(front, pool);
      assert PoolIDs(cs, pool) == PoolIDs(front, pool) + if last.pool == pool then {last.providerID} else {} by {
        assert cs == front + [last];
      }
    }
  }

  /** One more node of a set, or none. */
  lemma OneElement(small: set<string>, large: set<string>, id: string, more: bool)
    requires id !in small && forall x :: x in large <==> x in small || (more && x == id)
    ensures |large| == |small| + if more then 1 else 0
  {
    assert large == if more then small + {id} else small;
  }

  /**
   What counts as a disruption: a counted node of the pool that is not ready, is going away or is
   marked. A healthy node that becomes any of these adds one to its own pool's count and to no other.
   */
  lemma BecomingDisrupted(nodes: Nodes, marked: set<string>, id: string, next: Node, mark: bool, pool: string)
    requires id in nodes && nodes[id].ready && !nodes[id].deleting && id !in marked
    requires next.pool == nodes[id].pool && next.counted == nodes[id].counted
    ensures var disrupted := !next.ready || next.deleting || mark;
            && |PoolNodes(nodes[id := next], pool)| == |PoolNodes(nodes, pool)|
            && |PoolDisrupting(nodes[id := next], if mark then marked + {id} else marked, pool)| ==
               |PoolDisrupting(nodes, marked, pool)|
               + if nodes[id].counted && nodes[id].pool == pool && disrupted then 1 else 0
  {
    var after := nodes[id := next];
    assert PoolNodes(after, pool) == PoolNodes(nodes, pool);
    OneElement(PoolDisrupting(nodes, marked, pool),
               PoolDisrupting(after, if mark then marked + {id} else marked, pool), id,
               nodes[id].counted && nodes[id].pool == pool && (!next.ready || next.deleting || mark));
  }

  /** The budget fills a pool up to its allowance, and leaves nothing to a pool that is beyond it. */
  lemma BudgetFills(nodes: Nodes, marked: set<string>, allowed: Allowance, pool: string)
    ensures var limit, now := allowed(pool, |PoolNodes(nodes, pool)|), |PoolDisrupting(nodes, marked, pool)|;
            Budget(nodes, marked, allowed, pool) + now == if now < limit then limit else now
  {
  }

  /** Marking nodes adds at most the newly marked ones to what a pool is disrupting. */
  lemma MarkingAdds(nodes: Nodes, marked: set<string>, ids: set<string>, pool: string, more: set<string>)
    requires forall id | id in ids && InPool(nodes, id, pool) :: id in more
    ensures |PoolDisrupting(nodes, marked + ids, pool)| <= |PoolDisrupting(nodes, marked, pool)| + |more|
  {
    var was := PoolDisrupting(nodes, marked, pool);
    SubsetSize(PoolDisrupting(nodes, marked + ids, pool), was + more);
    assert |was + more| <= |was| + |more|;
  }

  /**
   After a validated command's candidates are marked, every pool it touches is within the
   allowance that validation saw, and every other pool is as it was.
   */
  lemma MarkingWithinBudget(nodes: Nodes, marked: set<string>, ids: set<string>, mapped: seq<Candidate>,
                            allowed: Allowance, pool: string)
    requires Describes(nodes, [], mapped) && ids <= IDs(mapped)
    requires CountPool(mapped, pool) == 0 || CountPool(mapped, pool) <= Budget(nodes, marked, allowed, pool)
    ensures var now := |PoolDisrupting(nodes, marked + ids, pool)|;
            if CountPool(mapped, pool) > 0 then now <= allowed(pool, |PoolNodes(nodes, pool)|)
            else now == |PoolDisrupting(nodes, marked, pool)|
  {
    PoolIDsCount(mapped, pool);
    MarkingAdds(nodes, marked, ids, pool, PoolIDs(mapped, pool));
    SubsetSize(PoolDisrupting(nodes, marked, pool), PoolDisrupting(nodes, marked + ids, pool));
  }
}
