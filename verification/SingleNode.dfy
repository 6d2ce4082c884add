/**
 The state a single-node pass keeps, and its candidate walk (`ComputeCommands` in
 pkg/controllers/disruption/singlenodeconsolidation.go). What a simulation finds is an oracle.
 */
module SingleNode {
  import opened Candidates
  import opened Walk
  import opened Ordering
  import opened Budgets

  datatype Outcome = CandidateTimeout | ComputeError | NoOp | Move(approved: bool)

  /**
   What the walk sees of a candidate: whether the pass has expired when it gets there, whether its
   best score can pass, whether a cached negative stands in for the simulation, and the outcome.
   */
  datatype Look = Look(expired: bool, canPass: bool, cachedNegative: bool, outcome: Outcome)

  predicate InBounds(held: seq<nat>, n: nat) {
    forall a | 0 <= a < |held| :: held[a] < n
  }

  function CountHeld(cs: seq<Candidate>, held: seq<nat>, pool: string): nat
    requires InBounds(held, |cs|)
  {
    if held == [] then 0
    else CountHeld(cs, held[..|held| - 1], pool) + if cs[held[|held| - 1]].pool == pool then 1 else 0
  }

  /** Two proposals may be held together. */
  predicate Apart(earlier: Candidate, later: Candidate) {
    earlier.providerID != later.providerID && (earlier.pool == later.pool ==> !earlier.balanced)
  }

  predicate PairAt(cs: seq<Candidate>, held: seq<nat>, a: nat, b: nat)
    requires InBounds(held, |cs|) && a < |held| && b < |held|
  {
    held[a] < held[b] && Apart(cs[held[a]], cs[held[b]])
  }

  ghost predicate Pairwise(cs: seq<Candidate>, held: seq<nat>)
    requires InBounds(held, |cs|)
  {
    forall a: nat, b: nat | a < b < |held| :: PairAt(cs, held, a, b)
  }

  /** Proposals in walk order, no node twice, and at most one from a Balanced pool. */
  ghost predicate Proposals(cs: seq<Candidate>, held: seq<nat>, bound: nat) {
    bound <= |cs| && InBounds(held, bound) && Pairwise(cs, held)
  }

  ghost predicate WithinBudget(cs: seq<Candidate>, held: seq<nat>, budget: map<string, int>)
    requires InBounds(held, |cs|)
  {
    forall p :: CountHeld(cs, held, p) <= Lookup(budget, p)
  }

  ghost predicate BudgetLeft(left: map<string, int>, budget: map<string, int>, cs: seq<Candidate>, held: seq<nat>)
    requires InBounds(held, |cs|)
  {
    forall p :: Lookup(left, p) == Lookup(budget, p) - CountHeld(cs, held, p) && Lookup(left, p) >= 0
  }

  // What the walk holds

  function ClaimedBy(cs: seq<Candidate>, held: seq<nat>): set<string>
    requires InBounds(held, |cs|)
  {
    if held == [] then {} else ClaimedBy(cs, held[..|held| - 1]) + {cs[held[|held| - 1]].providerID}
  }

  function BalancedPools(cs: seq<Candidate>, held: seq<nat>): set<string>
    requires InBounds(held, |cs|)
  {
    if held == [] then {}
    else
      var c := cs[held[|held| - 1]];
      BalancedPools(cs, held[..|held| - 1]) + if c.balanced then {c.pool} else {}
  }

  /** Candidate k neither repeats a claimed node, nor a Balanced pool, nor exceeds its pool's budget. */
  predicate Open(cs: seq<Candidate>, budget: map<string, int>, earlier: seq<nat>, k: nat)
    requires k < |cs| && InBounds(earlier, |cs|)
  {
    && cs[k].providerID !in ClaimedBy(cs, earlier) && cs[k].pool !in BalancedPools(cs, earlier)
    && CountHeld(cs, earlier, cs[k].pool) < Lookup(budget, cs[k].pool)
  }

  predicate Wins(look: Look) {
    !look.cachedNegative && look.outcome.Move? && look.outcome.approved
  }

  /** The proposals of the first n candidates: each approved move that is open when it is reached. */
  function HeldUpTo(cs: seq<Candidate>, looks: seq<Look>, budget: map<string, int>, n: nat): (r: seq<nat>)
    requires n <= |cs| == |looks|
    ensures InBounds(r, n)
  {
    if n == 0 then []
    else
      var k, earlier := n - 1, HeldUpTo(cs, looks, budget, n - 1);
      if looks[k].canPass && Open(cs, budget, earlier, k) && Wins(looks[k]) then earlier + [k] else earlier
  }

  /** Candidate k is brought to a verdict when the walk gets to it. */
  predicate HasVerdict(cs: seq<Candidate>, looks: seq<Look>, budget: map<string, int>, k: nat)
    requires k < |cs| == |looks|
  {
    looks[k].canPass && Open(cs, budget, HeldUpTo(cs, looks, budget, k), k)
  }

  /** The candidates among the first n that are brought to a verdict. */
  function VerdictsUpTo(cs: seq<Candidate>, looks: seq<Look>, budget: map<string, int>, n: nat): set<string>
    requires n <= |cs| == |looks|
  {
    if n == 0 then {}
    else
      var seen := if HasVerdict(cs, looks, budget, n - 1) then {cs[n - 1].providerID} else {};
      VerdictsUpTo(cs, looks, budget, n - 1) + seen
  }

  lemma {:induction false} VerdictIff(cs: seq<Candidate>, looks: seq<Look>, budget: map<string, int>, n: nat,
                                      id: string)
    requires n <= |cs| == |looks|
    ensures id in VerdictsUpTo(cs, looks, budget, n) <==>
            exists k: nat :: k < n && cs[k].providerID == id && HasVerdict(cs, looks, budget, k)
  {
    if n > 0 {
      VerdictIff(cs, looks, budget, n - 1, id);
    }
  }

  lemma {:induction false} Claims(cs: seq<Candidate>, held: seq<nat>, a: nat)
    requires InBounds(held, |cs|) && a < |held|
    ensures cs[held[a]].providerID in ClaimedBy(cs, held)
    ensures cs[held[a]].balanced ==> cs[held[a]].pool in BalancedPools(cs, held)
  {
    if a < |held| - 1 {
      Claims(cs, held[..|held| - 1], a);
    }
  }

  lemma {:induction false} ClaimedIff(cs: seq<Candidate>, held: seq<nat>, id: string, pool: string)
    requires InBounds(held, |cs|)
    ensures id in ClaimedBy(cs, held) <==> exists k :: k in held && cs[k].providerID == id
    ensures pool in BalancedPools(cs, held) <==> exists k :: k in held && cs[k].balanced && cs[k].pool == pool
  {
    if held != [] {
      var n := |held| - 1;
      ClaimedIff(cs, held[..n], id, pool);
      assert held == held[..n] + [held[n]];
      assert forall k :: k in held <==> k in held[..n] || k == held[n];
    }
  }

  ghost function HeldOf(cs: seq<Candidate>, held: seq<nat>, pool: string): set<nat>
    requires InBounds(held, |cs|)
  {
    set a: nat | a < |held| && cs[held[a]].pool == pool
  }

  lemma {:induction false} CountHeldIs(cs: seq<Candidate>, held: seq<nat>, pool: string)
    requires InBounds(held, |cs|)
    ensures CountHeld(cs, held, pool) == |HeldOf(cs, held, pool)|
  {
    if held != [] {
      var n := |held| - 1;
      CountHeldIs(cs, held[..n], pool);
      assert HeldOf(cs, held, pool) ==
             HeldOf(cs, held[..n], pool) + if cs[held[n]].pool == pool then {n} else {};
    }
  }

  /** What stands in the way of a proposal for k: an earlier one for its node or Balanced pool, or a spent budget. */
  ghost predicate InTheWay(cs: seq<Candidate>, budget: map<string, int>, earlier: seq<nat>, k: nat)
    requires k < |cs| && InBounds(earlier, |cs|)
  {
    || (exists j :: j in earlier && cs[j].providerID == cs[k].providerID)
    || (exists j :: j in earlier && cs[j].balanced && cs[j].pool == cs[k].pool)
    || |HeldOf(cs, earlier, cs[k].pool)| >= Lookup(budget, cs[k].pool)
  }

  lemma OpenIff(cs: seq<Candidate>, budget: map<string, int>, earlier: seq<nat>, k: nat)
    requires k < |cs| && InBounds(earlier, |cs|)
    ensures Open(cs, budget, earlier, k) <==> !InTheWay(cs, budget, earlier, k)
  {
    ClaimedIff(cs, earlier, cs[k].providerID, cs[k].pool);
    CountHeldIs(cs, earlier, cs[k].pool);
  }

  lemma CountOneMore(cs: seq<Candidate>, held: seq<nat>, k: nat, pool: string)
    requires InBounds(held, |cs|) && k < |cs|
    ensures CountHeld(cs, held + [k], pool) == CountHeld(cs, held, pool) + if cs[k].pool == pool then 1 else 0
  {
    assert (held + [k])[..|held|] == held;
  }

  lemma ProposeOne(cs: seq<Candidate>, budget: map<string, int>, earlier: seq<nat>, k: nat)
    requires k < |cs| && Proposals(cs, earlier, k) && Open(cs, budget, earlier, k)
    ensures Proposals(cs, earlier + [k], k + 1)
  {
    var held := earlier + [k];
    forall a: nat, b: nat | a < b < |held| ensures PairAt(cs, held, a, b) {
      if b < |earlier| {
        assert PairAt(cs, earlier, a, b);
      } else {
        Claims(cs, earlier, a);
      }
    }
  }

  lemma ProposalsWiden(cs: seq<Candidate>, held: seq<nat>, bound: nat)
    requires Proposals(cs, held, bound) && bound < |cs|
    ensures Proposals(cs, held, bound + 1)
  {
  }

  lemma SpendOne(cs: seq<Candidate>, budget: map<string, int>, earlier: seq<nat>, k: nat)
    requires k < |cs| && InBounds(earlier, |cs|) && WithinBudget(cs, earlier, budget) && Open(cs, budget, earlier, k)
    ensures WithinBudget(cs, earlier + [k], budget)
  {
    forall p ensures CountHeld(cs, earlier + [k], p) <= Lookup(budget, p) {
      CountOneMore(cs, earlier, k, p);
    }
  }

  /** What the walk holds claims no node twice and makes one proposal per Balanced pool. */
  lemma {:induction false} HeldProposals(cs: seq<Candidate>, looks: seq<Look>, budget: map<string, int>, n: nat)
    requires n <= |cs| == |looks|
    ensures Proposals(cs, HeldUpTo(cs, looks, budget, n), n)
  {
    if n > 0 {
      HeldProposals(cs, looks, budget, n - 1);
      ProposalsNext(cs, looks, budget, n - 1);
    }
  }

  lemma ProposalsNext(cs: seq<Candidate>, looks: seq<Look>, budget: map<string, int>, k: nat)
    requires k < |cs| == |looks| && Proposals(cs, HeldUpTo(cs, looks, budget, k), k)
    ensures Proposals(cs, HeldUpTo(cs, looks, budget, k + 1), k + 1)
  {
    var earlier := HeldUpTo(cs, looks, budget, k);
    if looks[k].canPass && Open(cs, budget, earlier, k) && Wins(looks[k]) {
      ProposeOne(cs, budget, earlier, k);
    } else {
      ProposalsWiden(cs, earlier, k);
    }
  }

  /** The candidate can pass and its move, found by this pass's own simulation, is approved; nothing is in the way. */
  ghost predicate Proposed(cs: seq<Candidate>, looks: seq<Look>, budget: map<string, int>, k: nat)
    requires k < |cs| == |looks|
  {
    && looks[k].canPass && !looks[k].cachedNegative && looks[k].outcome == Move(true)
    && !InTheWay(cs, budget, HeldUpTo(cs, looks, budget, k), k)
  }

  lemma HeldNext(cs: seq<Candidate>, looks: seq<Look>, budget: map<string, int>, n: nat)
    requires n < |cs| == |looks|
    ensures HeldUpTo(cs, looks, budget, n + 1) ==
            HeldUpTo(cs, looks, budget, n) + if Proposed(cs, looks, budget, n) then [n] else []
  {
    OpenIff(cs, budget, HeldUpTo(cs, looks, budget, n), n);
  }

  /** Exactly these candidates are held. */
  lemma {:induction false} HeldIff(cs: seq<Candidate>, looks: seq<Look>, budget: map<string, int>, n: nat, k: nat)
    requires n <= |cs| == |looks|
    ensures k in HeldUpTo(cs, looks, budget, n) <==> k < n && Proposed(cs, looks, budget, k)
  {
    if n > 0 {
      HeldIff(cs, looks, budget, n - 1, k);
      HeldNext(cs, looks, budget, n - 1);
    }
  }

  /** And which come to a verdict: the same, whatever the simulation finds. */
  lemma HasVerdictIff(cs: seq<Candidate>, looks: seq<Look>, budget: map<string, int>, k: nat)
    requires k < |cs| == |looks|
    ensures HasVerdict(cs, looks, budget, k) <==>
            looks[k].canPass && !InTheWay(cs, budget, HeldUpTo(cs, looks, budget, k), k)
  {
    OpenIff(cs, budget, HeldUpTo(cs, looks, budget, k), k);
  }

  /** What the walk holds stays within every pool's budget. */
  lemma {:induction false} HeldWithinBudget(cs: seq<Candidate>, looks: seq<Look>, budget: map<string, int>, n: nat)
    requires n <= |cs| == |looks| && forall p | p in budget :: budget[p] >= 0
    ensures WithinBudget(cs, HeldUpTo(cs, looks, budget, n), budget)
  {
    if n > 0 {
      HeldWithinBudget(cs, looks, budget, n - 1);
      var earlier := HeldUpTo(cs, looks, budget, n - 1);
      if HeldUpTo(cs, looks, budget, n) != earlier {
        SpendOne(cs, budget, earlier, n - 1);
      }
    }
  }

  /** In a pass that holds nothing, every candidate whose score and budget allow it is brought to a verdict. */
  lemma {:induction false} UnhinderedVerdicts(cs: seq<Candidate>, looks: seq<Look>, budget: map<string, int>, n: nat)
    requires n <= |cs| == |looks| && HeldUpTo(cs, looks, budget, n) == []
    requires forall k | 0 <= k < n :: looks[k].canPass && Lookup(budget, cs[k].pool) > 0
    ensures VerdictsUpTo(cs, looks, budget, n) == IDs(cs[..n])
  {
    if n > 0 {
      UnhinderedVerdicts(cs, looks, budget, n - 1);
      assert HasVerdict(cs, looks, budget, n - 1);
      NextID(cs, n - 1);
    }
  }

  // The bookkeeping of the walk

  /** Proposals held, what is left of the budgets, and what the proposals claim. */
  datatype Holding = Holding(held: seq<nat>, left: map<string, int>, claimed: set<string>, balancedHeld: set<string>)

  ghost predicate Keeps(cs: seq<Candidate>, budget: map<string, int>, h: Holding) {
    && InBounds(h.held, |cs|) && BudgetLeft(h.left, budget, cs, h.held)
    && h.claimed == ClaimedBy(cs, h.held) && h.balancedHeld == BalancedPools(cs, h.held)
  }

  /** What holding a proposal for candidate k does to the bookkeeping. */
  function Hold(cs: seq<Candidate>, h: Holding, k: nat): Holding
    requires k < |cs|
  {
    Holding(h.held + [k], h.left[cs[k].pool := Lookup(h.left, cs[k].pool) - 1], h.claimed + {cs[k].providerID},
            if cs[k].balanced then h.balancedHeld + {cs[k].pool} else h.balancedHeld)
  }

  lemma HoldKeeps(cs: seq<Candidate>, budget: map<string, int>, h: Holding, k: nat)
    requires k < |cs| && Keeps(cs, budget, h) && Open(cs, budget, h.held, k)
    ensures Keeps(cs, budget, Hold(cs, h, k))
  {
    var next := Hold(cs, h, k);
    assert next.held[..|h.held|] == h.held;
    forall p
      ensures Lookup(next.left, p) == Lookup(budget, p) - CountHeld(cs, next.held, p) && Lookup(next.left, p) >= 0
    {
      CountOneMore(cs, h.held, k, p);
      assert Lookup(h.left, p) == Lookup(budget, p) - CountHeld(cs, h.held, p);
    }
  }

  /** The bookkeeping decides whether a candidate is open. */
  lemma OpenIs(cs: seq<Candidate>, budget: map<string, int>, h: Holding, k: nat)
    requires k < |cs| && Keeps(cs, budget, h)
    ensures Open(cs, budget, h.held, k) <==>
            cs[k].providerID !in h.claimed && cs[k].pool !in h.balancedHeld && Lookup(h.left, cs[k].pool) != 0
  {
    assert Lookup(h.left, cs[k].pool) == Lookup(budget, cs[k].pool) - CountHeld(cs, h.held, cs[k].pool);
  }

  /** Where the walk is after n candidates: its bookkeeping, and what it has reached since it began. */
  ghost predicate At(cs: seq<Candidate>, looks: seq<Look>, budget: map<string, int>, h: Holding,
                     began: set<string>, evaluated: set<string>, n: nat)
    requires n <= |cs| == |looks|
  {
    && Keeps(cs, budget, h) && h.held == HeldUpTo(cs, looks, budget, n)
    && evaluated == began + VerdictsUpTo(cs, looks, budget, n)
  }

  lemma AtStart(cs: seq<Candidate>, looks: seq<Look>, budget: map<string, int>, began: set<string>)
    requires |cs| == |looks| && forall p | p in budget :: budget[p] >= 0
    ensures At(cs, looks, budget, Holding([], budget, {}, {}), began, began, 0)
  {
  }

  lemma AtNext(cs: seq<Candidate>, looks: seq<Look>, budget: map<string, int>, h: Holding, next: Holding, verdict: bool,
               began: set<string>, evaluated: set<string>, n: nat)
    requires n < |cs| == |looks| && At(cs, looks, budget, h, began, evaluated, n)
    requires Keeps(cs, budget, next)
    requires verdict <==> looks[n].canPass && Open(cs, budget, h.held, n)
    requires next.held == if verdict && Wins(looks[n]) then h.held + [n] else h.held
    ensures At(cs, looks, budget, next, began, if verdict then evaluated + {cs[n].providerID} else evaluated, n + 1)
  {
    var seen := if verdict then {cs[n].providerID} else {};
    assert VerdictsUpTo(cs, looks, budget, n + 1) == VerdictsUpTo(cs, looks, budget, n) + seen;
  }

  /** One candidate of the walk: skipped, brought to a verdict, or held as a proposal. */
  method Consider(cs: seq<Candidate>, k: nat, look: Look, ghost budget: map<string, int>, h: Holding)
    returns (next: Holding, verdict: bool)
    requires k < |cs| && Keeps(cs, budget, h)
    ensures Keeps(cs, budget, next)
    ensures verdict <==> look.canPass && Open(cs, budget, h.held, k)
    ensures next.held == if verdict && Wins(look) then h.held + [k] else h.held
  {
    var c := cs[k];
    OpenIs(cs, budget, h, k);
    if c.providerID in h.claimed || c.pool in h.balancedHeld || Lookup(h.left, c.pool) == 0 || !look.canPass {
      return h, false;
    }
    if look.cachedNegative || !look.outcome.Move? || !look.outcome.approved {
      return h, true;
    }
    HoldKeeps(cs, budget, h, k);
    return Hold(cs, h, k), true;
  }

  /** The pass had not expired when it came to any of its first n candidates. */
  predicate InTime(looks: seq<Look>, n: nat) {
    n <= |looks| && forall k: nat | k < n :: !looks[k].expired
  }

  lemma InTimeNext(looks: seq<Look>, n: nat)
    requires InTime(looks, n) && n < |looks| && !looks[n].expired
    ensures InTime(looks, n + 1)
  {
  }

  /** The pools a walk has not come to after n candidates. */
  function Unseen(cs: seq<Candidate>, n: nat): set<string>
    requires n <= |cs|
  {
    if n == 0 then Pools(cs) else Unseen(cs, n - 1) - {cs[n - 1].pool}
  }

  lemma {:induction false} UnseenIs(cs: seq<Candidate>, n: nat)
    requires n <= |cs|
    ensures Unseen(cs, n) == Pools(cs) - Pools(cs[..n])
  {
    if n > 0 {
      UnseenIs(cs, n - 1);
      PoolsNext(cs, n - 1);
    }
  }

  class SingleNodeConsolidation {
    var evaluatedThisCycle: set<string>
    var previouslyUnseenNodePools: set<string>

    /** `SortCandidates`: by ratio, interleaved with the unseen pools first, and resumed. */
    method SortCandidates(cs: seq<Candidate>)
      returns (r: seq<Candidate>, ghost order: seq<Candidate>, ghost sh: Shuffle)
      requires Positive(cs)
      modifies this`evaluatedThisCycle
      ensures Shuffles(sh, cs, previouslyUnseenNodePools, order)
      ensures r == Resumed(old(evaluatedThisCycle), order)
      ensures evaluatedThisCycle == Live(old(evaluatedThisCycle), order)
    {
      var shuffled;
      shuffled, sh := SortAndShuffle(cs, previouslyUnseenNodePools);
      order := shuffled;
      r := ResumeCoverageCycle(shuffled);
    }

    method ResumeCoverageCycle(cs: seq<Candidate>) returns (r: seq<Candidate>)
      modifies this`evaluatedThisCycle
      ensures r == Resumed(old(evaluatedThisCycle), cs)
      ensures evaluatedThisCycle == Live(old(evaluatedThisCycle), cs)
    {
      if evaluatedThisCycle == {} {
        ResumedFromNothing(cs);
        return cs;
      }
      evaluatedThisCycle := evaluatedThisCycle * IDs(cs);
      if evaluatedThisCycle == {} || |evaluatedThisCycle| >= |cs| {
        evaluatedThisCycle := {};
        ResumedFromNothing(cs);
        return cs;
      }
      return Without(cs, evaluatedThisCycle) + Without(cs, IDs(cs) - evaluatedThisCycle);
    }

    /** One step of the walk, with the node marked as reached when it comes to a verdict. */
    method Visit(cs: seq<Candidate>, n: nat, looks: seq<Look>, ghost budget: map<string, int>, h: Holding,
                 ghost began: set<string>)
      returns (next: Holding)
      requires n < |cs| == |looks| && At(cs, looks, budget, h, began, evaluatedThisCycle, n)
      modifies this`evaluatedThisCycle
      ensures At(cs, looks, budget, next, began, evaluatedThisCycle, n + 1)
      ensures |next.held| <= |h.held| + 1
    {
      var verdict;
      next, verdict := Consider(cs, n, looks[n], budget, h);
      AtNext(cs, looks, budget, h, next, verdict, began, evaluatedThisCycle, n);
      if verdict {
        evaluatedThisCycle := evaluatedThisCycle + {cs[n].providerID};
      }
    }

    /** The candidate loop, up to where it stops and why. */
    method WalkUntilStopped(cs: seq<Candidate>, budget: map<string, int>, looks: seq<Look>, maxCommands: int)
      returns (held: seq<nat>, unseen: set<string>, timedOut: bool, depth: nat)
      requires |looks| == |cs| && forall p | p in budget :: budget[p] >= 0
      modifies this`evaluatedThisCycle
      ensures depth <= |cs| && held == HeldUpTo(cs, looks, budget, depth) && unseen == Unseen(cs, depth)
      ensures |held| <= 1 || |held| <= maxCommands
      ensures InTime(looks, depth)
      ensures if timedOut then depth < |cs| && looks[depth].expired
              else depth == |cs| || (held != [] && |held| >= maxCommands)
      ensures evaluatedThisCycle == old(evaluatedThisCycle) + VerdictsUpTo(cs, looks, budget, depth)
    {
      var h := Holding([], budget, {}, {});
      ghost var began := evaluatedThisCycle;
      unseen, depth, timedOut := Pools(cs), 0, false;
      AtStart(cs, looks, budget, began);
      while depth < |cs| && (h.held == [] || |h.held| < maxCommands)
        invariant depth <= |cs| && At(cs, looks, budget, h, began, evaluatedThisCycle, depth)
        invariant unseen == Unseen(cs, depth) && (|h.held| <= 1 || |h.held| <= maxCommands)
        invariant InTime(looks, depth)
      {
        if looks[depth].expired {
          timedOut := true;
          break;
        }
        InTimeNext(looks, depth);
        unseen := unseen - {cs[depth].pool};
        h := Visit(cs, depth, looks, budget, h, began);
        depth := depth + 1;
      }
      held := h.held;
    }

    /**
     The walk. `held` lists the positions of the proposals it carries out, `depth` the position it
     stopped at. A pass that times out keeps what it has reached; any other pass resets the cycle. The
     pools it did not get to are recorded when it times out or holds nothing.
     */
    method WalkCandidates(cs: seq<Candidate>, budget: map<string, int>, looks: seq<Look>, maxCommands: int)
      returns (held: seq<nat>, timedOut: bool, depth: nat)
      requires |looks| == |cs| && forall p | p in budget :: budget[p] >= 0
      modifies this
      ensures depth <= |cs| && held == HeldUpTo(cs, looks, budget, depth)
      ensures |held| <= 1 || |held| <= maxCommands
      ensures InTime(looks, depth)
      ensures if timedOut then depth < |cs| && looks[depth].expired
              else depth == |cs| || (held != [] && |held| >= maxCommands)
      ensures evaluatedThisCycle ==
              if timedOut then old(evaluatedThisCycle) + VerdictsUpTo(cs, looks, budget, depth) else {}
      ensures previouslyUnseenNodePools ==
              if timedOut || held == [] then Pools(cs) - Pools(cs[..depth]) else old(previouslyUnseenNodePools)
    {
      var unseen;
      held, unseen, timedOut, depth := WalkUntilStopped(cs, budget, looks, maxCommands);
      UnseenIs(cs, depth);
      if !timedOut {
        evaluatedThisCycle := {};
      }
      if timedOut || held == [] {
        previouslyUnseenNodePools := unseen;
      }
    }
  }

  /** Nothing reached yet leaves the order as it is. */
  lemma ResumedFromNothing(cs: seq<Candidate>)
    ensures Resumed({}, cs) == cs
    ensures forall e: set<string> | e * IDs(cs) == {} || |e * IDs(cs)| >= |cs| ::
              Live(e, cs) == {} && Resumed(e, cs) == cs
  {
    WithoutNothing(cs);
    WithoutAll(cs, IDs(cs));
    assert IDs(cs) - {} == IDs(cs);
    assert Live({}, cs) == {};
  }

  lemma {:induction false} WithoutNothing(cs: seq<Candidate>)
    ensures Without(cs, {}) == cs
  {
    if cs != [] {
      WithoutNothing(cs[..|cs| - 1]);
    }
  }

  lemma {:induction false} WithoutAll(cs: seq<Candidate>, ids: set<string>)
    requires IDs(cs) <= ids
    ensures Without(cs, ids) == []
  {
    if cs != [] {
      assert forall c | c in cs[..|cs| - 1] :: c in cs;
      WithoutAll(cs[..|cs| - 1], ids);
      assert cs[|cs| - 1] in cs;
    }
  }
}
