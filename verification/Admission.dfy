/**
 Batched admission (`admitProposals` in pkg/controllers/disruption/singlenodeconsolidation.go):
 held proposals are validated and started one at a time, so each validation sees the marks of the
 commands started before it.
 */
module Admission {
  import opened Candidates
  import opened Wrappers
  import opened Budgets
  import opened QueueModel
  import opened Queue
  import opened Finite
  import opened Requirements
  import Matching
  import Revalidation

  // Milliseconds.
  const COMMAND_VALIDATION_DELAY: int := 15 * 1000
  const COMMAND_ADMISSION_RESERVE: int := 20 * 1000

  function AdmissionBudget(proposals: nat): (r: int)
    ensures r == 15000 + 20000 * proposals
  {
    COMMAND_VALIDATION_DELAY + proposals * COMMAND_ADMISSION_RESERVE
  }

  /** A command that is held: its candidates, its replacements, and the claim each of these would launch. */
  datatype Proposal = Proposal(cid: CommandID, candidates: seq<Candidate>, replacements: seq<Replacement>,
                               claims: seq<Revalidation.SimulatedClaim>)

  /**
   What a check of the candidates reads: the current candidates, absent when listing them fails,
   whether the budgets could be built, and the nominated nodes.
   */
  datatype Reading = Reading(current: Option<seq<Candidate>>, budgets: bool, nominated: set<string>)

  /**
   What one attempt reads: the clock, the candidates before and after the re-simulation, what that
   returned, and the replies to starting.
   */
  datatype Attempt = Attempt(
    now: int,
    before: Reading,
    simulated: Revalidation.Simulation,
    after: Reading,
    created: int,
    written: seq<bool>,
    names: Option<seq<string>>)

  /** Candidate lists name each node once, and a name keeps its provider ID and pool during the batch. */
  ghost predicate Fits(nodes: Nodes, p: Proposal, a: Attempt) {
    && p.candidates != [] && |a.written| == |p.candidates| && |p.claims| == |p.replacements|
    && (a.before.current.Some? ==> DistinctNames(a.before.current.value))
    && (a.after.current.Some? ==>
        DistinctNames(a.after.current.value) && Describes(nodes, p.candidates, a.after.current.value))
  }

  datatype Validation = Valid | Invalid | Error

  /**
   The simulation bears the proposal out: every pod schedules, as many claims are needed as the
   proposal launches, and its claims can be given distinct simulated ones that they stand in for.
   */
  ghost predicate BornOut(p: Proposal, results: Revalidation.Simulation, reservationKey: string) {
    && results.Simulated? && results.allNonPendingPodsScheduled && |results.newNodeClaims| == |p.claims|
    && exists a ::
         Matching.Assignment(Revalidation.Table(p.claims, results.newNodeClaims, reservationKey), |p.claims|, a)
  }

  /** None is nominated, and no pool's candidates exceed what its budget has left. */
  ghost predicate StillGood(nodes: Nodes, marked: set<string>, pools: seq<string>, allowed: Allowance,
                            mapped: seq<Candidate>, nominated: set<string>)
  {
    && (forall i | 0 <= i < |mapped| :: mapped[i].providerID !in nominated)
    && forall pool :: CountPool(mapped, pool) == 0
                      || (pool in pools && CountPool(mapped, pool) <= Budget(nodes, marked, allowed, pool))
  }

  /**
   One check of the candidates: a read that fails is an error, a candidate that has changed or cannot
   be afforded is not.
   */
  ghost function Checked(nodes: Nodes, marked: set<string>, pools: seq<string>, allowed: Allowance,
                         proposed: seq<Candidate>, reading: Reading): Validation
  {
    if reading.current.None? then Error
    else
      var mapped := MapCandidates(proposed, reading.current.value);
      if |mapped| != |proposed| then Invalid
      else if !reading.budgets then Error
      else if StillGood(nodes, marked, pools, allowed, mapped, reading.nominated) then Valid
      else Invalid
  }

  /** Candidates, then the command, then the candidates again. */
  ghost function Verdict(nodes: Nodes, marked: set<string>, pools: seq<string>, allowed: Allowance,
                         reservationKey: string, p: Proposal, a: Attempt): Validation
  {
    var first := Checked(nodes, marked, pools, allowed, p.candidates, a.before);
    if !first.Valid? then first
    else if p.candidates == [] then Invalid
    else if a.simulated.Failed? then Error
    else if !BornOut(p, a.simulated, reservationKey) then Invalid
    else Checked(nodes, marked, pools, allowed, MapCandidates(p.candidates, a.before.current.value), a.after)
  }

  /** A check that could not be made: the candidates or, with all of them still there, the budgets were not read. */
  ghost predicate Unread(proposed: seq<Candidate>, reading: Reading) {
    reading.current.None?
    || (|MapCandidates(proposed, reading.current.value)| == |proposed| && !reading.budgets)
  }

  /** A check that passes: all candidates are still there, none is nominated, and the budgets allow them. */
  ghost predicate Clears(nodes: Nodes, marked: set<string>, pools: seq<string>, allowed: Allowance,
                         proposed: seq<Candidate>, reading: Reading)
  {
    && reading.current.Some? && reading.budgets
    && var mapped := MapCandidates(proposed, reading.current.value);
       && |mapped| == |proposed| && (forall c | c in mapped :: c.providerID !in reading.nominated)
       && forall pool ::
            CountPool(mapped, pool) == 0
            || (pool in pools && CountPool(mapped, pool) <= Budget(nodes, marked, allowed, pool))
  }

  lemma CheckedIs(nodes: Nodes, marked: set<string>, pools: seq<string>, allowed: Allowance, proposed: seq<Candidate>,
                  reading: Reading)
    ensures Checked(nodes, marked, pools, allowed, proposed, reading).Valid? <==>
            Clears(nodes, marked, pools, allowed, proposed, reading)
    ensures Checked(nodes, marked, pools, allowed, proposed, reading).Error? <==> Unread(proposed, reading)
  {
    if reading.current.Some? {
      var mapped := MapCandidates(proposed, reading.current.value);
      assert (forall i | 0 <= i < |mapped| :: mapped[i].providerID !in reading.nominated) <==>
             forall c | c in mapped :: c.providerID !in reading.nominated;
    }
  }

  /** When a proposal is valid and when its validation errs, in terms of the two readings and the simulation. */
  lemma VerdictIff(nodes: Nodes, marked: set<string>, pools: seq<string>, allowed: Allowance, reservationKey: string,
                   p: Proposal, a: Attempt)
    requires p.candidates != []
    ensures Verdict(nodes, marked, pools, allowed, reservationKey, p, a).Valid? <==>
            && Clears(nodes, marked, pools, allowed, p.candidates, a.before) && BornOut(p, a.simulated, reservationKey)
            && Clears(nodes, marked, pools, allowed, MapCandidates(p.candidates, a.before.current.value), a.after)
    ensures Verdict(nodes, marked, pools, allowed, reservationKey, p, a).Error? <==>
            || Unread(p.candidates, a.before)
            || (Clears(nodes, marked, pools, allowed, p.candidates, a.before)
                && (a.simulated.Failed?
                    || (BornOut(p, a.simulated, reservationKey)
                        && Unread(MapCandidates(p.candidates, a.before.current.value), a.after))))
  {
    CheckedIs(nodes, marked, pools, allowed, p.candidates, a.before);
    if a.before.current.Some? {
      CheckedIs(nodes, marked, pools, allowed, MapCandidates(p.candidates, a.before.current.value), a.after);
    }
  }

  /** `ConsolidationValidator.validateCandidates`, with the reads it starts from. */
  method ValidateCandidates(nodes: Nodes, marked: set<string>, pools: seq<string>, allowed: Allowance,
                            proposed: seq<Candidate>, reading: Reading)
    returns (v: Validation, mapped: seq<Candidate>)
    ensures v == Checked(nodes, marked, pools, allowed, proposed, reading)
    ensures v.Valid? ==> mapped == MapCandidates(proposed, reading.current.value)
  {
    mapped := [];
    if reading.current.None? {
      return Error, [];
    }
    mapped := MapCandidates(proposed, reading.current.value);
    if |mapped| != |proposed| {
      return Invalid, mapped;
    }
    if !reading.budgets {
      return Error, mapped;
    }
    var budget := BuildDisruptionBudgetMapping(nodes, marked, pools, allowed);
    assert forall pool | pool in budget :: budget[pool] == Lookup(budget, pool);
    var ok := WithinBudgets(mapped, reading.nominated, budget);
    return if ok then Valid else Invalid, mapped;
  }

  /** `ConsolidationValidator.isValid`. */
  method Validate(nodes: Nodes, marked: set<string>, pools: seq<string>, allowed: Allowance, reservationKey: string,
                  p: Proposal, a: Attempt)
    returns (v: Validation)
    ensures v == Verdict(nodes, marked, pools, allowed, reservationKey, p, a)
    ensures v.Valid? ==> BornOut(p, a.simulated, reservationKey)
  {
    var first, mapped := ValidateCandidates(nodes, marked, pools, allowed, p.candidates, a.before);
    if !first.Valid? {
      return first;
    }
    var verdict := Revalidation.ValidateCommand(|mapped|, p.claims, a.simulated, reservationKey);
    if verdict == Revalidation.SimulationFailed {
      return Error;
    }
    if verdict != Revalidation.Accepted {
      return Invalid;
    }
    var again, _ := ValidateCandidates(nodes, marked, pools, allowed, mapped, a.after);
    return again;
  }

  function ToCommand(p: Proposal, a: Attempt): Command {
    Command(a.created, p.candidates, p.replacements, false)
  }

  /** Starting a command marks known nodes among its candidates, and only if it starts. */
  lemma StartedMarks(s: State, p: Proposal, a: Attempt)
    requires |a.written| == |p.candidates|
    ensures var t := Started(s, p.cid, ToCommand(p, a), a.written, a.names);
            && t.nodes == s.nodes && s.marked <= t.marked
            && t.marked - s.marked <= IDs(p.candidates)
  {
    assert IDs(MarkedCandidates(p.candidates, a.written)) <= IDs(p.candidates);
  }

  /** The names agree, so the candidates that were validated are the candidates that are started. */
  lemma SameCandidateIDs(nodes: Nodes, p: Proposal, after: seq<Candidate>, mapped: seq<Candidate>)
    requires Describes(nodes, p.candidates, after)
    requires CandidateNames(mapped) == CandidateNames(p.candidates) && forall c | c in mapped :: c in after
    ensures IDs(p.candidates) <= IDs(mapped)
    ensures forall pool :: CountPool(mapped, pool) > 0 <==> exists c :: c in p.candidates && c.pool == pool
  {
    forall pool | CountPool(mapped, pool) > 0 ensures exists c :: c in p.candidates && c.pool == pool {
      var d := SomeCounted(mapped, pool);
      assert d.name in CandidateNames(mapped);
      var c :| c in p.candidates && c.name == d.name;
      assert c.pool == pool;
    }
    forall c | c in p.candidates ensures c.providerID in IDs(mapped) && CountPool(mapped, c.pool) > 0 {
      assert c.name in CandidateNames(mapped);
      var d :| d in mapped && d.name == c.name;
      assert d.pool == c.pool;
      Counted(mapped, d);
    }
  }

  lemma {:induction false} SomeCounted(cs: seq<Candidate>, pool: string) returns (c: Candidate)
    requires CountPool(cs, pool) > 0
    ensures c in cs && c.pool == pool
  {
    c := cs[|cs| - 1];
    if c.pool != pool {
      c := SomeCounted(cs[..|cs| - 1], pool);
    }
  }

  lemma {:induction false} Counted(cs: seq<Candidate>, c: Candidate)
    requires c in cs
    ensures CountPool(cs, c.pool) > 0
  {
    if cs[|cs| - 1] != c {
      Counted(cs[..|cs| - 1], c);
    }
  }

  ghost function Limit(nodes: Nodes, allowed: Allowance, pool: string): nat {
    allowed(pool, |PoolNodes(nodes, pool)|)
  }

  /**
   Right after a validated command starts, every pool it touches is within the allowance its
   validation saw, and no other pool has changed.
   */
  lemma StartWithinBudget(nodes: Nodes, s: State, pools: seq<string>, allowed: Allowance, reservationKey: string,
                          p: Proposal, a: Attempt, pool: string)
    requires Fits(nodes, p, a) && Verdict(nodes, s.marked, pools, allowed, reservationKey, p, a).Valid?
    ensures var t := Started(s, p.cid, ToCommand(p, a), a.written, a.names);
            var now := |PoolDisrupting(nodes, t.marked, pool)|;
            if exists c :: c in p.candidates && c.pool == pool then now <= Limit(nodes, allowed, pool)
            else now == |PoolDisrupting(nodes, s.marked, pool)|
  {
    var first := MapCandidates(p.candidates, a.before.current.value);
    var mapped := MapCandidates(first, a.after.current.value);
    MappedNames(p.candidates, a.before.current.value);
    MappedNames(first, a.after.current.value);
    var t := Started(s, p.cid, ToCommand(p, a), a.written, a.names);
    StartedMarks(s, p, a);
    SameCandidateIDs(nodes, p, a.after.current.value, mapped);
    var ids := t.marked - s.marked;
    assert t.marked == s.marked + ids;
    MarkingWithinBudget(nodes, s.marked, ids, mapped, allowed, pool);
  }

  /** Pools are within their limit, or no worse than they were. */
  ghost predicate NotOverspent(nodes: Nodes, allowed: Allowance, before: set<string>, after: set<string>) {
    forall pool :: var now := |PoolDisrupting(nodes, after, pool)|;
      now <= Limit(nodes, allowed, pool) || now == |PoolDisrupting(nodes, before, pool)|
  }

  /** Every pool a started proposal touches is within its limit. */
  ghost predicate WithinLimits(nodes: Nodes, allowed: Allowance, marked: set<string>, proposals: seq<Proposal>,
                               admitted: seq<nat>)
  {
    forall k, c | k in admitted && k < |proposals| && c in proposals[k].candidates ::
      |PoolDisrupting(nodes, marked, c.pool)| <= Limit(nodes, allowed, c.pool)
  }

  lemma StepWithinLimits(nodes: Nodes, allowed: Allowance, start: set<string>, before: set<string>, after: set<string>,
                         proposals: seq<Proposal>, admitted: seq<nat>, i: nat)
    requires i < |proposals|
    requires NotOverspent(nodes, allowed, start, before) && WithinLimits(nodes, allowed, before, proposals, admitted)
    requires NotOverspent(nodes, allowed, before, after)
    requires forall c | c in proposals[i].candidates ::
               |PoolDisrupting(nodes, after, c.pool)| <= Limit(nodes, allowed, c.pool)
    ensures NotOverspent(nodes, allowed, start, after)
    ensures WithinLimits(nodes, allowed, after, proposals, admitted + [i])
  {
    forall k, c | k in admitted + [i] && k < |proposals| && c in proposals[k].candidates
      ensures |PoolDisrupting(nodes, after, c.pool)| <= Limit(nodes, allowed, c.pool)
    {
      if k in admitted {
        assert |PoolDisrupting(nodes, before, c.pool)| <= Limit(nodes, allowed, c.pool);
      }
    }
  }

  predicate Ascending(positions: seq<nat>, bound: nat) {
    && (forall x | 0 <= x < |positions| :: positions[x] < bound)
    && (forall x, y | 0 <= x < y < |positions| :: positions[x] < positions[y])
  }

  /** What a batch is run on. */
  datatype Inputs = Inputs(nodes: Nodes, pools: seq<string>, allowed: Allowance, proposals: seq<Proposal>,
                           attempts: seq<Attempt>, deadline: int, reservationKey: string)

  ghost predicate AllFit(x: Inputs) {
    |x.attempts| == |x.proposals| && forall i | 0 <= i < |x.proposals| :: Fits(x.nodes, x.proposals[i], x.attempts[i])
  }

  /** How far a batch has got: the queue, the positions of the proposals started, and whether it was given up. */
  datatype Batch = Batch(state: State, admitted: seq<nat>, failed: bool)

  /** The first proposal is always attempted, the rest while the reserve lasts. */
  predicate InTime(x: Inputs, i: nat)
    requires i < |x.attempts|
  {
    i == 0 || x.attempts[i].now + COMMAND_ADMISSION_RESERVE < x.deadline
  }

  ghost function VerdictAt(x: Inputs, s: State, i: nat): Validation
    requires i < |x.proposals| == |x.attempts|
  {
    Verdict(x.nodes, s.marked, x.pools, x.allowed, x.reservationKey, x.proposals[i], x.attempts[i])
  }

  /** One proposal: validated against the marks of those started before it, then started. */
  ghost function Attempted(x: Inputs, b: Batch, i: nat): Batch
    requires AllFit(x) && i < |x.proposals|
  {
    var p, a := x.proposals[i], x.attempts[i];
    match VerdictAt(x, b.state, i)
    case Error => b.(failed := true)
    case Invalid => b
    case Valid =>
      var cmd := ToCommand(p, a);
      var ok := !QueueModel.HasAny(b.state, IDs(cmd.candidates)) && Launches(cmd, a.written, a.names);
      Batch(Started(b.state, p.cid, cmd, a.written, a.names), if ok then b.admitted + [i] else b.admitted, !ok)
  }

  ghost function Step(x: Inputs, b: Batch, i: nat): Batch
    requires AllFit(x) && i < |x.proposals|
  {
    if InTime(x, i) then Attempted(x, b, i) else b
  }

  ghost function StepOf(x: Inputs): (Batch, nat) -> Batch {
    (b: Batch, i: nat) => if AllFit(x) && i < |x.proposals| then Step(x, b, i) else b
  }

  /** A batch from its start, proposal by proposal; it is given up at the first error. */
  ghost predicate Trace(step: (Batch, nat) -> Batch, s: State, bs: seq<Batch>) {
    && 0 < |bs| && bs[0] == Batch(s, [], false)
    && forall i: nat | i < |bs| - 1 :: !bs[i].failed && bs[i + 1] == step(bs[i], i)
  }

  lemma {:induction false} Invariant(step: (Batch, nat) -> Batch, good: (Batch, nat) -> bool, s: State, bs: seq<Batch>,
                                     n: nat)
    requires Trace(step, s, bs) && n < |bs| && good(bs[0], 0)
    requires forall b: Batch, i: nat | i < |bs| - 1 && good(b, i) :: good(step(b, i), i + 1)
    ensures good(bs[n], n)
  {
    if n > 0 {
      Invariant(step, good, s, bs, n - 1);
      assert bs[n] == step(bs[n - 1], n - 1);
    }
  }

  lemma TraceGrows(step: (Batch, nat) -> Batch, s: State, bs: seq<Batch>, next: Batch)
    requires Trace(step, s, bs) && !bs[|bs| - 1].failed && next == step(bs[|bs| - 1], |bs| - 1)
    ensures Trace(step, s, bs + [next])
  {
    var more := bs + [next];
    assert forall i: nat | i < |bs| :: more[i] == bs[i];
  }

  /** Every pool keeps to its allowance, as far as the batch is concerned, and proposals are admitted in walk order. */
  ghost predicate Kept(x: Inputs, start: set<string>, b: Batch, n: nat) {
    && NotOverspent(x.nodes, x.allowed, start, b.state.marked)
    && WithinLimits(x.nodes, x.allowed, b.state.marked, x.proposals, b.admitted)
    && Ascending(b.admitted, n)
  }

  lemma StartKeeps(x: Inputs, start: set<string>, b: Batch, i: nat)
    requires AllFit(x) && i < |x.proposals| && Kept(x, start, b, i)
    requires VerdictAt(x, b.state, i).Valid?
    ensures var p, a := x.proposals[i], x.attempts[i];
            var t := Started(b.state, p.cid, ToCommand(p, a), a.written, a.names);
            Kept(x, start, Batch(t, b.admitted + [i], false), i + 1)
  {
    var p, a := x.proposals[i], x.attempts[i];
    forall pool {
      StartWithinBudget(x.nodes, b.state, x.pools, x.allowed, x.reservationKey, p, a, pool);
    }
    var t := Started(b.state, p.cid, ToCommand(p, a), a.written, a.names);
    StepWithinLimits(x.nodes, x.allowed, start, b.state.marked, t.marked, x.proposals, b.admitted, i);
    AscendOne(b.admitted, i);
  }

  lemma AscendOne(positions: seq<nat>, i: nat)
    requires Ascending(positions, i)
    ensures Ascending(positions + [i], i + 1)
  {
  }

  lemma KeptFewer(x: Inputs, start: set<string>, t: State, admitted: seq<nat>, i: nat)
    requires Kept(x, start, Batch(t, admitted + [i], false), i + 1)
    ensures Kept(x, start, Batch(t, admitted, true), i + 1)
  {
    assert forall k | 0 <= k < |admitted| :: admitted[k] == (admitted + [i])[k];
  }

  lemma KeptLonger(x: Inputs, start: set<string>, b: Batch, failed: bool, n: nat)
    requires Kept(x, start, b, n)
    ensures Kept(x, start, b.(failed := failed), n + 1)
  {
  }

  lemma AttemptKeeps(x: Inputs, start: set<string>, b: Batch, i: nat)
    requires AllFit(x) && i < |x.proposals| && Kept(x, start, b, i)
    ensures Kept(x, start, Attempted(x, b, i), i + 1)
  {
    var v := VerdictAt(x, b.state, i);
    if v.Valid? {
      var p, a := x.proposals[i], x.attempts[i];
      StartKeeps(x, start, b, i);
      KeptFewer(x, start, Started(b.state, p.cid, ToCommand(p, a), a.written, a.names), b.admitted, i);
    } else {
      KeptLonger(x, start, b, v.Error? || b.failed, i);
      assert Attempted(x, b, i) == b.(failed := v.Error? || b.failed);
    }
  }

  lemma StepKeeps(x: Inputs, start: set<string>, b: Batch, i: nat)
    requires AllFit(x) && i < |x.proposals| && Kept(x, start, b, i)
    ensures Kept(x, start, Step(x, b, i), i + 1)
  {
    if InTime(x, i) {
      AttemptKeeps(x, start, b, i);
    } else {
      KeptLonger(x, start, b, b.failed, i);
      assert b == b.(failed := b.failed);
    }
  }

  /**
   Whatever is admitted, disrupting nodes never exceed a pool's allowance unless they already did,
   and no pool that an admitted command touches exceeds it at all.
   */
  lemma TraceKeeps(x: Inputs, s: State, bs: seq<Batch>, n: nat)
    requires AllFit(x) && Trace(StepOf(x), s, bs) && n < |bs| <= |x.proposals| + 1
    ensures Kept(x, s.marked, bs[n], n)
  {
    var step := StepOf(x);
    var good: (Batch, nat) -> bool := (b: Batch, i: nat) => Kept(x, s.marked, b, i);
    KeptAtStart(x, s);
    forall b: Batch, i: nat | i < |bs| - 1 && good(b, i) ensures good(step(b, i), i + 1) {
      StepKeeps(x, s.marked, b, i);
      assert step(b, i) == Step(x, b, i);
    }
    Invariant(step, good, s, bs, n);
    assert good(bs[n], n);
  }

  lemma KeptAtStart(x: Inputs, s: State)
    ensures Kept(x, s.marked, Batch(s, [], false), 0)
  {
  }

  // What is admitted

  /** Proposal k is tried: it is the first, or the reserve of twenty seconds is left before the deadline. */
  ghost predicate Tried(x: Inputs, k: nat)
    requires k < |x.attempts|
  {
    k == 0 || x.attempts[k].now + 20000 < x.deadline
  }

  /** Nothing it names is in flight, and its start goes through. */
  ghost predicate Starts(x: Inputs, s: State, k: nat)
    requires AllFit(x) && k < |x.proposals|
  {
    var p, a := x.proposals[k], x.attempts[k];
    (forall c | c in p.candidates :: c.providerID !in s.inFlight) && Launches(ToCommand(p, a), a.written, a.names)
  }

  lemma StepAdmits(x: Inputs, b: Batch, i: nat)
    requires AllFit(x) && i < |x.proposals| && !b.failed
    ensures var t := Step(x, b, i);
            var starts := Tried(x, i) && VerdictAt(x, b.state, i).Valid? && Starts(x, b.state, i);
            && t.admitted == b.admitted + (if starts then [i] else [])
            && (t.failed <==> Tried(x, i) && !VerdictAt(x, b.state, i).Invalid? && !starts)
            && (!Tried(x, i) || !VerdictAt(x, b.state, i).Valid? ==> t.state == b.state)
  {
    var p := x.proposals[i];
    assert QueueModel.HasAny(b.state, IDs(p.candidates)) <==>
           exists c :: c in p.candidates && c.providerID in b.state.inFlight;
  }

  /**
   Exactly which proposals a batch admits: those tried in time that were valid against the marks of the
   commands before them and whose start went through.
   */
  lemma {:induction false} AdmittedIff(x: Inputs, s: State, bs: seq<Batch>, n: nat, k: nat)
    requires AllFit(x) && Trace(StepOf(x), s, bs) && n < |bs| <= |x.proposals| + 1
    ensures k in bs[n].admitted <==>
            && k < n && Tried(x, k) && VerdictAt(x, bs[k].state, k).Valid? && Starts(x, bs[k].state, k)
  {
    if n > 0 {
      AdmittedIff(x, s, bs, n - 1, k);
      assert bs[n] == StepOf(x)(bs[n - 1], n - 1) == Step(x, bs[n - 1], n - 1);
      StepAdmits(x, bs[n - 1], n - 1);
    }
  }

  /** A batch is given up exactly where validation errs or a valid proposal does not start. */
  lemma GivenUpIff(x: Inputs, s: State, bs: seq<Batch>, n: nat)
    requires AllFit(x) && Trace(StepOf(x), s, bs) && 0 < n < |bs| <= |x.proposals| + 1
    ensures bs[n].failed <==>
            && Tried(x, n - 1)
            && (VerdictAt(x, bs[n - 1].state, n - 1).Error?
                || (VerdictAt(x, bs[n - 1].state, n - 1).Valid? && !Starts(x, bs[n - 1].state, n - 1)))
  {
    assert bs[n] == StepOf(x)(bs[n - 1], n - 1) == Step(x, bs[n - 1], n - 1);
    StepAdmits(x, bs[n - 1], n - 1);
  }

  /** So no command is started that its own re-simulation did not bear out, nor one whose candidates did not clear. */
  lemma AdmittedBornOut(x: Inputs, s: State, bs: seq<Batch>, n: nat, k: nat)
    requires AllFit(x) && Trace(StepOf(x), s, bs) && n < |bs| <= |x.proposals| + 1 && k in bs[n].admitted
    ensures k < |x.proposals| && k < |bs| && BornOut(x.proposals[k], x.attempts[k].simulated, x.reservationKey)
    ensures Clears(x.nodes, bs[k].state.marked, x.pools, x.allowed, x.proposals[k].candidates, x.attempts[k].before)
  {
    AdmittedIff(x, s, bs, n, k);
    VerdictIff(x.nodes, bs[k].state.marked, x.pools, x.allowed, x.reservationKey, x.proposals[k], x.attempts[k]);
  }

  /** What the queue then holds: the command under its own ID, with its creation time and the names of its claims. */
  lemma AdmittedCommand(x: Inputs, s: State, bs: seq<Batch>, n: nat, k: nat)
    requires AllFit(x) && Trace(StepOf(x), s, bs) && n < |bs| <= |x.proposals| + 1 && k in bs[n].admitted
    ensures k < n && k < |x.proposals|
    ensures var p, a, t := x.proposals[k], x.attempts[k], bs[k + 1].state;
            && p.cid in t.active && p.cid in t.commands && a.names.Some?
            && var cmd := t.commands[p.cid];
               && cmd.created == a.created && !cmd.succeeded
               && |cmd.replacements| == |p.replacements| == |a.names.value|
               && (forall i | 0 <= i < |cmd.replacements| :: cmd.replacements[i].name == a.names.value[i])
               && (forall c | c in cmd.candidates :: c in p.candidates)
  {
    AdmittedIff(x, s, bs, n, k);
    assert bs[k + 1] == StepOf(x)(bs[k], k) == Step(x, bs[k], k);
    var p, a := x.proposals[k], x.attempts[k];
    assert !QueueModel.HasAny(bs[k].state, IDs(p.candidates));
    assert bs[k + 1].state.commands[p.cid] == Launched(ToCommand(p, a), a.written, a.names);
  }

  /** The claims an admitted command launches can be given distinct simulated claims that they stand in for. */
  lemma AdmittedStandsIn(x: Inputs, s: State, bs: seq<Batch>, n: nat, k: nat) returns (a: seq<int>)
    requires AllFit(x) && Trace(StepOf(x), s, bs) && n < |bs| <= |x.proposals| + 1 && k in bs[n].admitted
    requires k < |x.proposals| && x.attempts[k].simulated.Simulated?
    requires forall c | c in x.proposals[k].claims + x.attempts[k].simulated.newNodeClaims :: Consistent(c.requirements)
    ensures var mine, theirs := x.proposals[k].claims, x.attempts[k].simulated.newNodeClaims;
            && |a| == |mine| == |theirs| && NoDuplicates(a)
            && forall i | 0 <= i < |a| ::
                 0 <= a[i] < |theirs| && Revalidation.StandsIn(mine[i], theirs[a[i]], x.reservationKey)
  {
    AdmittedBornOut(x, s, bs, n, k);
    var mine, theirs := x.proposals[k].claims, x.attempts[k].simulated.newNodeClaims;
    assert forall i | 0 <= i < |mine| :: mine[i] in mine + theirs;
    assert forall i | 0 <= i < |theirs| :: theirs[i] in mine + theirs;
    a :| Matching.Assignment(Revalidation.Table(mine, theirs, x.reservationKey), |mine|, a);
    Revalidation.AcceptedStandsIn(mine, theirs, x.reservationKey, a);
  }

  // The queue's own invariant

  ghost predicate DistinctCommands(proposals: seq<Proposal>) {
    forall i, j | 0 <= i < j < |proposals| :: proposals[i].cid != proposals[j].cid
  }

  /** Nothing is half started, and the proposals are commands the queue does not know yet, each its own. */
  ghost predicate Fresh(proposals: seq<Proposal>, s: State) {
    && Inv(s) && s.pending == {} && DistinctCommands(proposals)
    && forall i | 0 <= i < |proposals| :: proposals[i].cid !in s.commands
  }

  /** The queue is sound with nothing half started, and the proposals from n on are still unknown to it. */
  ghost predicate Sane(x: Inputs, b: Batch, n: nat) {
    && Inv(b.state) && b.state.pending == {}
    && forall j | n <= j < |x.proposals| :: x.proposals[j].cid !in b.state.commands
  }

  lemma AttemptStaysSane(x: Inputs, b: Batch, i: nat)
    requires AllFit(x) && DistinctCommands(x.proposals) && i < |x.proposals| && Sane(x, b, i)
    ensures Sane(x, Attempted(x, b, i), i + 1)
  {
    var p, a := x.proposals[i], x.attempts[i];
    if VerdictAt(x, b.state, i).Valid? {
      StartedKeeps(b.state, p.cid, ToCommand(p, a), a.written, a.names);
      StartedKnows(b.state, p.cid, ToCommand(p, a), a.written, a.names);
    }
  }

  lemma StartedKnows(s: State, cid: CommandID, cmd: Command, written: seq<bool>, names: Option<seq<string>>)
    requires |written| == |cmd.candidates| && s.pending == {}
    ensures var t := Started(s, cid, cmd, written, names);
            t.pending == {} && t.commands.Keys <= s.commands.Keys + {cid}
  {
  }

  lemma StepStaysSane(x: Inputs, b: Batch, i: nat)
    requires AllFit(x) && DistinctCommands(x.proposals) && i < |x.proposals| && Sane(x, b, i)
    ensures Sane(x, Step(x, b, i), i + 1)
  {
    if InTime(x, i) {
      AttemptStaysSane(x, b, i);
    }
  }

  /** The queue keeps its invariant at every point of every batch. */
  lemma TraceStaysSane(x: Inputs, s: State, bs: seq<Batch>, n: nat)
    requires AllFit(x) && Trace(StepOf(x), s, bs) && n < |bs| <= |x.proposals| + 1
    requires Fresh(x.proposals, s)
    ensures Inv(bs[n].state)
  {
    var step := StepOf(x);
    var good: (Batch, nat) -> bool := (b: Batch, i: nat) => Sane(x, b, i);
    forall b: Batch, i: nat | i < |bs| - 1 && good(b, i) ensures good(step(b, i), i + 1) {
      StepStaysSane(x, b, i);
      assert step(b, i) == Step(x, b, i);
    }
    Invariant(step, good, s, bs, n);
    assert good(bs[n], n);
  }

  method AttemptOne(q: Queue, x: Inputs, i: nat, admitted: seq<nat>) returns (more: seq<nat>, failed: bool)
    requires AllFit(x) && i < |x.proposals|
    modifies q
    ensures Batch(q.Snapshot(), more, failed) == Attempted(x, Batch(old(q.Snapshot()), admitted, false), i)
  {
    var p, a := x.proposals[i], x.attempts[i];
    var v := Validate(x.nodes, q.marked, x.pools, x.allowed, x.reservationKey, p, a);
    if !v.Valid? {
      return admitted, v.Error?;
    }
    var ok := q.StartCommand(p.cid, ToCommand(p, a), a.written, a.names);
    return if ok then admitted + [i] else admitted, !ok;
  }

  /** A whole batch, with no other change to the cluster while it runs. */
  method AdmitProposals(q: Queue, nodes: Nodes, pools: seq<string>, allowed: Allowance, proposals: seq<Proposal>,
                        attempts: seq<Attempt>, start: int, reservationKey: string)
    returns (admitted: seq<nat>, failed: bool, ghost trace: seq<Batch>)
    requires AllFit(Inputs(nodes, pools, allowed, proposals, attempts, start, reservationKey))
    modifies q
    ensures var deadline := start + AdmissionBudget(|proposals|);
            var x := Inputs(nodes, pools, allowed, proposals, attempts, deadline, reservationKey);
            Trace(StepOf(x), old(q.Snapshot()), trace) && |trace| <= |proposals| + 1
    ensures trace[|trace| - 1] == Batch(q.Snapshot(), admitted, failed) && (failed || |trace| == |proposals| + 1)
    ensures Fresh(proposals, old(q.Snapshot())) ==> Inv(q.Snapshot())
  {
    admitted, failed := [], false;
    var deadline := start + AdmissionBudget(|proposals|);
    var x := Inputs(nodes, pools, allowed, proposals, attempts, deadline, reservationKey);
    var attempted := false;
    ghost var step, s := StepOf(x), q.Snapshot();
    trace := [Batch(s, [], false)];
    for i := 0 to |proposals|
      invariant attempted <==> i > 0
      invariant |trace| == i + 1 && trace[i] == Batch(q.Snapshot(), admitted, failed) && !failed
      invariant Trace(step, s, trace)
    {
      ghost var b := trace[i];
      assert step(b, i) == Step(x, b, i);
      TraceGrows(step, s, trace, step(b, i));
      if attempted && !(attempts[i].now + COMMAND_ADMISSION_RESERVE < x.deadline) {
        trace := trace + [b];
        continue;
      }
      admitted, failed := AttemptOne(q, x, i, admitted);
      attempted := true;
      trace := trace + [Batch(q.Snapshot(), admitted, failed)];
      if failed {
        break;
      }
    }
    if Fresh(proposals, s) {
      TraceStaysSane(x, s, trace, |trace| - 1);
    }
  }
}
