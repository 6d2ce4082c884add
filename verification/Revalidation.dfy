/**
 Revalidation of a consolidation command against another scheduling simulation
 (`validateCommand` and its helpers in pkg/controllers/disruption/validation.go). The simulation
 itself is an oracle that returns claims.
 */
module Revalidation {
  import opened Wrappers
  import opened Finite
  import opened Numerals
  import opened Requirement
  import opened Requirements
  import Matching

  datatype Taint = Taint(key: string, value: string, effect: string)

  /** A NodeClaim the scheduler produced; a command's replacement carries one. */
  datatype SimulatedClaim = SimulatedClaim(
    nodePoolName: string,
    nodePoolUID: string,
    annotations: map<string, string>,
    taints: seq<Taint>,
    requirements: Requirements,
    instanceTypes: seq<string>)

  const HASH_ANNOTATION := "karpenter.sh/nodepool-hash"
  const HASH_VERSION_ANNOTATION := "karpenter.sh/nodepool-hash-version"

  function Annotation(nc: SimulatedClaim, key: string): string {
    if key in nc.annotations then nc.annotations[key] else ""
  }

  // Taints

  predicate TaintsAreEqual(lhs: seq<Taint>, rhs: seq<Taint>) {
    |lhs| == |rhs| && forall i | 0 <= i < |lhs| :: lhs[i] in rhs
  }

  lemma TaintsOfSet(lhs: seq<Taint>, rhs: seq<Taint>)
    requires NoDuplicates(lhs) && TaintsAreEqual(lhs, rhs)
    ensures multiset(lhs) == multiset(rhs)
  {
    forall t ensures multiset(lhs)[t] <= multiset(rhs)[t] {
      CountOnce(lhs, t);
      if multiset(lhs)[t] > 0 {
        assert t in lhs;
      }
    }
    SameSizeSubset(multiset(lhs), multiset(rhs));
  }

  lemma DuplicateFools(lhs: seq<Taint>) returns (rhs: seq<Taint>)
    requires !NoDuplicates(lhs)
    ensures TaintsAreEqual(lhs, rhs) && multiset(lhs) != multiset(rhs)
  {
    var i, j :| 0 <= i < j < |lhs| && lhs[i] == lhs[j];
    var key := FreshWord(set t | t in lhs :: t.key);
    var other := Taint(key, "", "");
    rhs := lhs[j := other];
    assert rhs[j] == other && other in multiset(rhs);
    assert other !in lhs;
    forall k | 0 <= k < |lhs| ensures lhs[k] in rhs {
      assert rhs[if k == j then i else k] == lhs[k];
    }
  }

  /**
   Taint lists are compared as "equal, ignoring order". The comparison counts only lengths, so it
   means that against every other list exactly when the first list repeats no taint.
   */
  lemma TaintsAreEqualExact(lhs: seq<Taint>)
    ensures NoDuplicates(lhs) <==> forall rhs :: TaintsAreEqual(lhs, rhs) <==> multiset(lhs) == multiset(rhs)
  {
    if NoDuplicates(lhs) {
      forall rhs ensures TaintsAreEqual(lhs, rhs) <==> multiset(lhs) == multiset(rhs) {
        if TaintsAreEqual(lhs, rhs) {
          TaintsOfSet(lhs, rhs);
        }
        if multiset(lhs) == multiset(rhs) {
          assert |lhs| == |multiset(lhs)| == |rhs|;
          assert forall i | 0 <= i < |lhs| :: lhs[i] in multiset(lhs);
        }
      }
    } else {
      var rhs := DuplicateFools(lhs);
    }
  }

  // One replacement against one simulated claim

  function Names(instanceTypes: seq<string>): set<string> {
    set t | t in instanceTypes
  }

  predicate InstanceTypesAreSubset(lhs: seq<string>, rhs: seq<string>) {
    |Names(rhs) * Names(lhs)| == |Names(lhs)|
  }

  lemma InstanceTypesAreSubsetExact(lhs: seq<string>, rhs: seq<string>)
    ensures InstanceTypesAreSubset(lhs, rhs) <==> forall t | t in lhs :: t in rhs
  {
    var l, r := Names(lhs), Names(rhs);
    if t :| t in lhs && t !in rhs {
      SubsetSize(r * l, l - {t});
      assert t in l;
    } else {
      assert r * l == l;
    }
  }

  /** `reservationKey` is the label whose values two simulation runs may legitimately choose apart. */
  predicate Matches(replacement: SimulatedClaim, claim: SimulatedClaim, reservationKey: string) {
    && replacement.nodePoolName == claim.nodePoolName && replacement.nodePoolUID == claim.nodePoolUID
    && Annotation(replacement, HASH_ANNOTATION) == Annotation(claim, HASH_ANNOTATION)
    && Annotation(replacement, HASH_VERSION_ANNOTATION) == Annotation(claim, HASH_VERSION_ANNOTATION)
    && TaintsAreEqual(replacement.taints, claim.taints)
    && (forall k | k in claim.requirements && k != reservationKey ::
          SubsetOf(Get(replacement.requirements, k), Get(claim.requirements, k)))
    && InstanceTypesAreSubset(replacement.instanceTypes, claim.instanceTypes)
  }

  /** The state of one label on a node: absent, or present with a value. */
  predicate Permits(r: Requirement, state: Option<string>) {
    if state.None? then OperatorOf(r) == DoesNotExist else Has(r, state.value)
  }

  /** An annotation that is not there reads as empty. */
  ghost predicate SameAnnotation(a: map<string, string>, b: map<string, string>, key: string) {
    (if key in a then a[key] else "") == (if key in b then b[key] else "")
  }

  /** From the same template, and whatever it may launch as is allowed by `claim`, except for the reservation chosen. */
  ghost predicate StandsIn(replacement: SimulatedClaim, claim: SimulatedClaim, reservationKey: string) {
    && replacement.nodePoolName == claim.nodePoolName && replacement.nodePoolUID == claim.nodePoolUID
    && SameAnnotation(replacement.annotations, claim.annotations, HASH_ANNOTATION)
    && SameAnnotation(replacement.annotations, claim.annotations, HASH_VERSION_ANNOTATION)
    && |replacement.taints| == |claim.taints| && (forall t | t in replacement.taints :: t in claim.taints)
    && (forall t | t in replacement.instanceTypes :: t in claim.instanceTypes)
    && (forall k, state |
          k in claim.requirements && k != reservationKey && Permits(Get(replacement.requirements, k), state) ::
          Permits(Get(claim.requirements, k), state))
  }

  lemma ContainedPermits(r: Requirement, q: Requirement)
    requires WellFormed(r) && WellFormed(q)
    ensures Contained(r, q) <==> forall state :: Permits(r, state) ==> Permits(q, state)
  {
    if Contained(r, q) {
      forall state | Permits(r, state) ensures Permits(q, state) {
        assert OperatorOf(r) == DoesNotExist ==> state.None?;
      }
    } else if OperatorOf(r) == DoesNotExist {
      assert Permits(r, None) && !Permits(q, None);
    } else {
      var v :| Has(r, v) && !Has(q, v);
      assert Permits(r, Some(v)) && !Permits(q, Some(v));
    }
  }

  /** A match is a stand-in; nothing beyond pool identity, requirements and types is taken on trust. */
  lemma MatchStandsIn(replacement: SimulatedClaim, claim: SimulatedClaim, reservationKey: string)
    requires Consistent(replacement.requirements) && Consistent(claim.requirements)
    requires Matches(replacement, claim, reservationKey)
    ensures StandsIn(replacement, claim, reservationKey)
  {
    InstanceTypesAreSubsetExact(replacement.instanceTypes, claim.instanceTypes);
    forall k | k in claim.requirements && k != reservationKey
      ensures forall state ::
                Permits(Get(replacement.requirements, k), state) ==> Permits(Get(claim.requirements, k), state)
    {
      var r, q := Get(replacement.requirements, k), Get(claim.requirements, k);
      SubsetOfExact(r, q);
      ContainedPermits(r, q);
    }
  }

  /**
   The converse: a stand-in is matched, unless a requirement of the claim spells out a vacuous bound.
   */
  lemma StandInMatches(replacement: SimulatedClaim, claim: SimulatedClaim, reservationKey: string)
    requires Consistent(replacement.requirements) && Consistent(claim.requirements)
    requires StandsIn(replacement, claim, reservationKey)
    ensures Matches(replacement, claim, reservationKey) <==>
            forall k | k in claim.requirements && k != reservationKey ::
              !VacuousBound(Get(replacement.requirements, k), Get(claim.requirements, k))
  {
    InstanceTypesAreSubsetExact(replacement.instanceTypes, claim.instanceTypes);
    forall k | k in claim.requirements && k != reservationKey
      ensures SubsetOf(Get(replacement.requirements, k), Get(claim.requirements, k)) <==>
              !VacuousBound(Get(replacement.requirements, k), Get(claim.requirements, k))
    {
      var r, q := Get(replacement.requirements, k), Get(claim.requirements, k);
      SubsetOfExact(r, q);
      ContainedPermits(r, q);
    }
  }

  // A whole command

  ghost function Table(replacements: seq<SimulatedClaim>, claims: seq<SimulatedClaim>,
                       reservationKey: string): (t: Matching.Table)
    ensures Matching.Rectangular(t, |claims|) && |t| == |replacements|
  {
    seq(|replacements|, i requires 0 <= i < |replacements| =>
      seq(|claims|, j requires 0 <= j < |claims| => Matches(replacements[i], claims[j], reservationKey)))
  }

  method ReplacementsMatchSimulation(replacements: seq<SimulatedClaim>, claims: seq<SimulatedClaim>,
                                     reservationKey: string)
    returns (ok: bool)
    ensures ok <==> exists a :: Matching.Assignment(Table(replacements, claims, reservationKey), |claims|, a)
  {
    ghost var table := Table(replacements, claims, reservationKey);
    var canSatisfy: Matching.Table := [];
    for i := 0 to |replacements|
      invariant canSatisfy == table[..i]
    {
      var row: seq<bool> := [];
      for j := 0 to |claims|
        invariant row == table[i][..j]
      {
        row := row + [Matches(replacements[i], claims[j], reservationKey)];
      }
      assert row == table[i];
      canSatisfy := canSatisfy + [row];
    }
    assert canSatisfy == table;
    ok := Matching.Match(canSatisfy, |claims|);
  }

  /** What the re-simulation returned. */
  datatype Simulation =
    | Failed
    | Simulated(allNonPendingPodsScheduled: bool, newNodeClaims: seq<SimulatedClaim>)

  datatype Verdict = Accepted | NoCandidates | SimulationFailed | PodsUnscheduled | NewResults

  method ValidateCommand(candidates: nat, replacements: seq<SimulatedClaim>, results: Simulation,
                         reservationKey: string)
    returns (verdict: Verdict)
    ensures verdict == Accepted <==>
            && candidates > 0 && results.Simulated? && results.allNonPendingPodsScheduled
            && |results.newNodeClaims| == |replacements|
            && exists a ::
                 Matching.Assignment(Table(replacements, results.newNodeClaims, reservationKey), |replacements|, a)
    ensures verdict == NoCandidates <==> candidates == 0
    ensures verdict == SimulationFailed <==> candidates > 0 && results.Failed?
    ensures verdict == PodsUnscheduled <==> candidates > 0 && results.Simulated? && !results.allNonPendingPodsScheduled
  {
    if candidates == 0 {
      return NoCandidates;
    }
    if results.Failed? {
      return SimulationFailed;
    }
    if !results.allNonPendingPodsScheduled {
      return PodsUnscheduled;
    }
    if |results.newNodeClaims| == 0 {
      if |replacements| == 0 {
        assert Matching.Assignment(Table(replacements, results.newNodeClaims, reservationKey), 0, []);
        return Accepted;
      }
      return NewResults;
    }
    if |results.newNodeClaims| != |replacements| {
      return NewResults;
    }
    var ok := ReplacementsMatchSimulation(replacements, results.newNodeClaims, reservationKey);
    return if ok then Accepted else NewResults;
  }

  /**
   What an accepted replace command is good for: its replacements are given distinct simulated
   claims, each of which allows whatever its replacement may launch as.
   */
  lemma AcceptedStandsIn(replacements: seq<SimulatedClaim>, claims: seq<SimulatedClaim>, reservationKey: string,
                         a: seq<int>)
    requires forall i | 0 <= i < |replacements| :: Consistent(replacements[i].requirements)
    requires forall j | 0 <= j < |claims| :: Consistent(claims[j].requirements)
    requires Matching.Assignment(Table(replacements, claims, reservationKey), |claims|, a)
    ensures |a| == |replacements| && NoDuplicates(a)
    ensures forall i | 0 <= i < |a| :: 0 <= a[i] < |claims| && StandsIn(replacements[i], claims[a[i]], reservationKey)
  {
    var table := Table(replacements, claims, reservationKey);
    forall i | 0 <= i < |a| ensures 0 <= a[i] < |claims| && StandsIn(replacements[i], claims[a[i]], reservationKey) {
      assert table[i][a[i]] == Matches(replacements[i], claims[a[i]], reservationKey);
      MatchStandsIn(replacements[i], claims[a[i]], reservationKey);
    }
  }
}
