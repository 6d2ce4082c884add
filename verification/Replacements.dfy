/**
 Replacement claims as objects, filtered and narrowed in place
 (pkg/controllers/disruption/consolidation.go), each method proved against the pricing functions.
 */
module Replacements {
  import opened Wrappers
  import opened Requirement
  import opened Requirements
  import opened Offerings
  import opened Pricing
  import opened Sums

  class NodeClaim {
    var requirements: Requirements
    var options: seq<InstanceType>

    function Value(): Claim
      reads this
    {
      Claim(requirements, options)
    }

    constructor (requirements: Requirements, options: seq<InstanceType>)
      ensures Value() == Claim(requirements, options)
    {
      this.requirements, this.options := requirements, options;
    }

    method RemoveInstanceTypeOptionsByPriceAndMinValues(maxPrice: real, wellKnown: set<string>) returns (err: bool)
      modifies this`options
      ensures options == CheaperThan(old(options), requirements, maxPrice, wellKnown)
      ensures err <==> !MinValuesMet(options, requirements)
    {
      options := CheaperThan(options, requirements, maxPrice, wellKnown);
      var needed, unmet := SatisfiesMinValues(options, requirements);
      err := unmet;
    }

    method PinToSpot()
      modifies this`requirements
      ensures requirements == Pinned(old(requirements))
    {
      var ct := Get(requirements, CAPACITY_TYPE);
      if Has(ct, SPOT) && Has(ct, ON_DEMAND) {
        requirements := Add(requirements, [Pin(CAPACITY_TYPE, SPOT)]);
      }
    }

    /** `truncateSpotInstanceTypeOptions`: a prefix that is short, but not too short for minValues. */
    method Truncate(maxOptions: nat)
      modifies this`options
      ensures options <= old(options)
      ensures |options| >= maxOptions || options == old(options)
      ensures |options| > maxOptions ==>
              HasMinValues(requirements) && NoneShorter(old(options), |options| - 1, requirements)
      ensures MinValuesMet(old(options), requirements) ==> MinValuesMet(options, requirements)
      ensures maxOptions > 0 && old(options) != [] ==> options != []
    {
      var n := maxOptions;
      if HasMinValues(requirements) {
        var needed, err := SatisfiesMinValues(options, requirements);
        if n < needed {
          n := needed;
        }
        if !err && n < |options| && needed > 0 {
          assert options[..n][..needed] == options[..needed];
          MoreValues(options[..n], needed, requirements);
        }
      }
      if n < |options| {
        options := options[..n];
      }
    }
  }

  predicate DistinctClaims(claims: seq<NodeClaim>) {
    forall i, j | 0 <= i < j < |claims| :: claims[i] != claims[j]
  }

  ghost function Values(claims: seq<NodeClaim>): (r: seq<Claim>)
    reads claims
    ensures |r| == |claims|
  {
    seq(|claims|, i requires 0 <= i < |claims| reads claims => claims[i].Value())
  }

  /** When only one claim changed, the values change in one place. */
  lemma OneChanged(claims: seq<NodeClaim>, before: seq<Claim>, i: nat)
    requires |before| == |claims| && i < |claims|
    requires forall k | 0 <= k < |claims| && k != i :: claims[k].Value() == before[k]
    ensures Values(claims) == before[i := claims[i].Value()]
  {
  }

  /** Some claim's survivors are too few for its minValues. */
  ghost predicate SomeUnmet(claims: seq<Claim>, limit: real, wellKnown: set<string>) {
    exists i | 0 <= i < |claims| :: !MinValuesMet(Kept(claims, i, limit, wellKnown), claims[i].requirements)
  }

  /** The cheapest price of every claim, where it has one. */
  function Lowest(claims: seq<Claim>, wellKnown: set<string>): (r: seq<Option<real>>)
    ensures |r| == |claims|
  {
    seq(|claims|, i requires 0 <= i < |claims| => Cheapest(claims[i].options, claims[i].requirements, wellKnown))
  }

  lemma LowestPrices(claims: seq<Claim>, wellKnown: set<string>, cheapest: seq<real>)
    requires |cheapest| == |claims|
    requires forall i | 0 <= i < |claims| :: Lowest(claims, wellKnown)[i] == Some(cheapest[i])
    ensures AllPriced(claims, wellKnown) && cheapest == CheapestPrices(claims, wellKnown)
  {
    forall i | 0 <= i < |claims|
      ensures Cheapest(claims[i].options, claims[i].requirements, wellKnown) == Some(cheapest[i])
    {
      assert Lowest(claims, wellKnown)[i] == Some(cheapest[i]);
    }
  }

  method CheapestOfAll(claims: seq<NodeClaim>, wellKnown: set<string>) returns (cheapest: seq<real>, priced: bool)
    ensures priced <==> AllPriced(Values(claims), wellKnown)
    ensures priced ==> cheapest == CheapestPrices(Values(claims), wellKnown)
  {
    ghost var v := Values(claims);
    ghost var lowest := Lowest(v, wellKnown);
    cheapest := [];
    for i := 0 to |claims|
      invariant |cheapest| == i && forall k | 0 <= k < i :: lowest[k] == Some(cheapest[k])
    {
      assert v[i] == claims[i].Value();
      var c := CheapestLaunchPrice(claims[i].Value(), wellKnown);
      assert lowest[i] == c;
      if c.None? {
        return cheapest, false;
      }
      cheapest := cheapest + [c.value];
    }
    LowestPrices(v, wellKnown, cheapest);
    priced := true;
  }

  /**
   `filterReplacementsByAggregatePrice`. It errs exactly when the cheapest total is below the limit
   and some claim's survivors miss their minValues.
   */
  method FilterReplacementsByAggregatePrice(claims: seq<NodeClaim>, limit: real, wellKnown: set<string>)
    returns (err: bool)
    requires DistinctClaims(claims)
    modifies claims
    ensures forall i | 0 <= i < |claims| :: claims[i].requirements == old(claims[i].requirements)
    ensures !err ==> Values(claims) == Filtered(old(Values(claims)), limit, wellKnown)
    ensures err <==> SomeUnmet(old(Values(claims)), limit, wellKnown)
  {
    ghost var v := Values(claims);
    var cheapest, priced := CheapestOfAll(claims, wellKnown);
    if !priced || Sum(cheapest) >= limit {
      Empty(claims);
      return false;
    }
    var ceilings := Shares(cheapest, limit);
    err := Trim(claims, ceilings, wellKnown);
    TrimmedIsKept(v, limit, wellKnown);
  }

  /** Trimming to the ceilings is the filter, and unmet minValues are found where the filter finds them. */
  lemma TrimmedIsKept(claims: seq<Claim>, limit: real, wellKnown: set<string>)
    requires Under(CheapestTotal(claims, wellKnown), limit)
    ensures var want := Trimmed(claims, Ceilings(claims, limit, wellKnown), wellKnown);
            && (forall i | 0 <= i < |claims| :: want[i] == Kept(claims, i, limit, wellKnown))
            && (false in Met(claims, want) <==> SomeUnmet(claims, limit, wellKnown))
  {
    var want := Trimmed(claims, Ceilings(claims, limit, wellKnown), wellKnown);
    assert forall i | 0 <= i < |claims| :: want[i] == Kept(claims, i, limit, wellKnown);
    assert forall i | 0 <= i < |claims| ::
        Met(claims, want)[i] == MinValuesMet(Kept(claims, i, limit, wellKnown), claims[i].requirements);
  }

  function Trimmed(claims: seq<Claim>, ceilings: seq<real>, wellKnown: set<string>): (r: seq<seq<InstanceType>>)
    requires |ceilings| == |claims|
    ensures |r| == |claims|
  {
    seq(|claims|,
        i requires 0 <= i < |claims| => CheaperThan(claims[i].options, claims[i].requirements, ceilings[i], wellKnown))
  }

  /** Whether each list of options meets the minValues of its claim. */
  function Met(claims: seq<Claim>, options: seq<seq<InstanceType>>): (r: seq<bool>)
    requires |options| == |claims|
    ensures |r| == |claims|
  {
    seq(|claims|, i requires 0 <= i < |claims| => MinValuesMet(options[i], claims[i].requirements))
  }

  /** The claims with new options. */
  function WithOptions(claims: seq<Claim>, options: seq<seq<InstanceType>>): (r: seq<Claim>)
    requires |options| == |claims|
    ensures |r| == |claims|
  {
    seq(|claims|, i requires 0 <= i < |claims| => claims[i].(options := options[i]))
  }

  /** What trimming makes of one claim, and whether its minValues are met then. */
  ghost predicate TrimsTo(before: Claim, ceiling: real, wellKnown: set<string>, after: Claim, met: bool) {
    && after == before.(options := CheaperThan(before.options, before.requirements, ceiling, wellKnown))
    && met == MinValuesMet(after.options, after.requirements)
  }

  method TrimAt(claims: seq<NodeClaim>, i: nat, ceiling: real, wellKnown: set<string>, ghost after: Claim,
                ghost met: bool)
    returns (err: bool)
    requires DistinctClaims(claims) && i < |claims| && TrimsTo(claims[i].Value(), ceiling, wellKnown, after, met)
    modifies claims[i]
    ensures Values(claims) == old(Values(claims))[i := after] && err == !met
  {
    ghost var v := Values(claims);
    assert forall k | 0 <= k < |claims| && k != i :: claims[k] != claims[i] && claims[k].Value() == v[k];
    err := claims[i].RemoveInstanceTypeOptionsByPriceAndMinValues(ceiling, wellKnown);
    OneChanged(claims, v, i);
  }

  ghost predicate AllTrimTo(v: seq<Claim>, ceilings: seq<real>, wellKnown: set<string>, done: seq<Claim>,
                            met: seq<bool>)
  {
    && |v| == |ceilings| == |done| == |met|
    && forall i | 0 <= i < |v| :: TrimsTo(v[i], ceilings[i], wellKnown, done[i], met[i])
  }

  /** The filtering loop: each claim against its own ceiling, stopping at the first that misses its minValues. */
  method TrimEach(claims: seq<NodeClaim>, ceilings: seq<real>, wellKnown: set<string>, ghost done: seq<Claim>,
                  ghost met: seq<bool>)
    returns (err: bool, ghost n: nat)
    requires DistinctClaims(claims) && AllTrimTo(Values(claims), ceilings, wellKnown, done, met)
    modifies claims
    ensures Halfway(done, old(Values(claims)), Values(claims), n)
    ensures if err then false in met else n == |claims| && false !in met
  {
    ghost var v := Values(claims);
    for i := 0 to |claims|
      invariant Halfway(done, v, Values(claims), i)
      invariant forall k | 0 <= k < i :: met[k]
    {
      ghost var now := Values(claims);
      assert claims[i].Value() == now[i] == v[i];
      err := TrimAt(claims, i, ceilings[i], wellKnown, done[i], met[i]);
      HalfwayNext(done, v, now, i);
      if err {
        return true, i + 1;
      }
    }
    return false, |claims|;
  }

  method Trim(claims: seq<NodeClaim>, ceilings: seq<real>, wellKnown: set<string>) returns (err: bool)
    requires DistinctClaims(claims) && |ceilings| == |claims|
    modifies claims
    ensures forall i | 0 <= i < |claims| :: claims[i].requirements == old(claims[i].requirements)
    ensures var want := Trimmed(old(Values(claims)), ceilings, wellKnown);
            && (!err ==> Values(claims) == WithOptions(old(Values(claims)), want))
            && (err <==> false in Met(old(Values(claims)), want))
  {
    ghost var v := Values(claims);
    ghost var want := Trimmed(v, ceilings, wellKnown);
    ghost var n;
    err, n := TrimEach(claims, ceilings, wellKnown, WithOptions(v, want), Met(v, want));
    SameRequirements(claims, v, WithOptions(v, want), n);
  }

  /** A loop over the claims has done the first n and not yet touched the rest. */
  ghost predicate Halfway(done: seq<Claim>, todo: seq<Claim>, now: seq<Claim>, n: nat) {
    && n <= |now| == |done| == |todo|
    && (forall k | 0 <= k < n :: now[k] == done[k]) && (forall k | n <= k < |now| :: now[k] == todo[k])
  }

  lemma HalfwayNext(done: seq<Claim>, todo: seq<Claim>, now: seq<Claim>, n: nat)
    requires Halfway(done, todo, now, n) && n < |now|
    ensures Halfway(done, todo, now[n := done[n]], n + 1)
  {
  }

  lemma SameRequirements(claims: seq<NodeClaim>, v: seq<Claim>, done: seq<Claim>, n: nat)
    requires |claims| == |v| && Halfway(done, v, Values(claims), n)
    requires forall i | 0 <= i < |v| :: done[i].requirements == v[i].requirements
    ensures forall i | 0 <= i < |claims| :: claims[i].requirements == v[i].requirements
  {
    forall i | 0 <= i < |claims| ensures claims[i].requirements == v[i].requirements {
      assert claims[i].Value() == Values(claims)[i];
    }
  }

  method Empty(claims: seq<NodeClaim>)
    modifies claims
    ensures forall i | 0 <= i < |claims| :: claims[i].Value() == old(claims[i].Value()).(options := [])
  {
    for i := 0 to |claims|
      invariant forall k | 0 <= k < i :: claims[k].options == []
      invariant forall k | 0 <= k < |claims| :: claims[k].requirements == old(claims[k].requirements)
    {
      claims[i].options := [];
    }
  }

  datatype FilterResult = AllKept | NoCompatibleReplacement | MinValuesUnmet | PriceEmptied

  predicate SomeEmpty(claims: seq<Claim>) {
    exists i | 0 <= i < |claims| :: claims[i].options == []
  }

  /** The decision of `filterReplacementsAndPublish`: which of the four outcomes, and exactly when. */
  method FilterReplacements(claims: seq<NodeClaim>, limit: real, wellKnown: set<string>) returns (r: FilterResult)
    requires DistinctClaims(claims) && claims != []
    modifies claims
    ensures r == NoCompatibleReplacement <==> SomeEmpty(old(Values(claims)))
    ensures r == PriceEmptied <==>
            !SomeEmpty(old(Values(claims))) && !Under(CheapestTotal(old(Values(claims)), wellKnown), limit)
    ensures r == MinValuesUnmet <==> !SomeEmpty(old(Values(claims))) && SomeUnmet(old(Values(claims)), limit, wellKnown)
    ensures r == AllKept ==>
            Values(claims) == Filtered(old(Values(claims)), limit, wellKnown) && !SomeEmpty(Values(claims))
  {
    ghost var v := Values(claims);
    var empty := AnyEmpty(claims);
    if empty {
      return NoCompatibleReplacement;
    }
    var err := FilterReplacementsByAggregatePrice(claims, limit, wellKnown);
    if err {
      return MinValuesUnmet;
    }
    empty := AnyEmpty(claims);
    if Under(CheapestTotal(v, wellKnown), limit) {
      forall i | 0 <= i < |claims| ensures Values(claims)[i].options != [] {
        KeepsCheapest(v, limit, wellKnown, i);
      }
    } else {
      assert Values(claims)[0].options == [];
    }
    return if empty then PriceEmptied else AllKept;
  }

  method AnyEmpty(claims: seq<NodeClaim>) returns (empty: bool)
    ensures empty <==> SomeEmpty(Values(claims))
  {
    for i := 0 to |claims|
      invariant forall k | 0 <= k < i :: claims[k].options != []
    {
      if claims[i].options == [] {
        assert Values(claims)[i].options == [];
        return true;
      }
    }
    return false;
  }

  /** The pinning loop at the end of `computeConsolidationWithOptions`. */
  method PinToSpot(claims: seq<NodeClaim>)
    requires DistinctClaims(claims)
    modifies claims
    ensures forall i | 0 <= i < |claims| ::
              claims[i].Value() == old(claims[i].Value()).(requirements := Pinned(old(claims[i].requirements)))
  {
    for i := 0 to |claims|
      invariant forall k | 0 <= k < i :: claims[k].requirements == Pinned(old(claims[k].requirements))
      invariant forall k | i <= k < |claims| :: claims[k].requirements == old(claims[k].requirements)
      invariant forall k | 0 <= k < |claims| :: claims[k].options == old(claims[k].options)
    {
      assert forall k | 0 <= k < |claims| && k != i :: claims[k] != claims[i];
      claims[i].PinToSpot();
    }
  }
}
