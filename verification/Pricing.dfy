/**
 Pricing of replacement claims (pkg/controllers/disruption/consolidation.go): the aggregate price
 filter that splits a budget over several claims, and what its survivors may cost at launch.
 */
module Pricing {
  import opened Wrappers
  import opened Requirements
  import opened Offerings
  import opened Finite
  import opened Sums

  /** A replacement claim as a value. */
  datatype Claim = Claim(requirements: Requirements, options: seq<InstanceType>)

  /** What the disrupted candidates cost, and the fraction of it the replacements must save. */
  datatype PriceBudget = PriceBudget(candidatePrice: real, minSavings: real) {
    function Limit(): (r: real)
      ensures r + minSavings * candidatePrice == candidatePrice
    {
      candidatePrice * (1.0 - minSavings)
    }
  }

  function LaunchPrice(it: InstanceType, reqs: Requirements, wellKnown: set<string>): Option<real> {
    WorstLaunchPrice(it.offerings, reqs, wellKnown)
  }

  predicate Under(price: Option<real>, limit: real) {
    price.Some? && price.value < limit
  }

  function Cheaper(reqs: Requirements, limit: real, wellKnown: set<string>): InstanceType -> bool {
    (it: InstanceType) => Under(LaunchPrice(it, reqs, wellKnown), limit)
  }

  function CheaperThan(options: seq<InstanceType>, reqs: Requirements, limit: real,
                       wellKnown: set<string>): (r: seq<InstanceType>)
    ensures forall it :: it in r <==> it in options && Under(LaunchPrice(it, reqs, wellKnown), limit)
  {
    Filter(Cheaper(reqs, limit, wellKnown), options)
  }

  // minValues

  function Distinct(options: seq<InstanceType>, key: string): set<string> {
    set it, v | it in options && v in Get(it.requirements, key).values :: v
  }

  predicate EnoughValues(options: seq<InstanceType>, reqs: Requirements, key: string)
    requires key in reqs
  {
    reqs[key].minValues.Some? ==> |Distinct(options, key)| >= reqs[key].minValues.value
  }

  predicate HasMinValues(reqs: Requirements) {
    exists k :: k in reqs && reqs[k].minValues.Some?
  }

  /** Enough distinct values for every key; an empty list is not held to it. */
  predicate MinValuesMet(options: seq<InstanceType>, reqs: Requirements) {
    options == [] || forall k | k in reqs :: EnoughValues(options, reqs, k)
  }

  /** No non-empty prefix up to n is enough. */
  predicate NoneShorter(options: seq<InstanceType>, n: nat, reqs: Requirements)
    requires n <= |options|
  {
    forall m | 0 < m <= n :: !MinValuesMet(options[..m], reqs)
  }

  /** The values the options list under a key. */
  ghost predicate Listed(options: seq<InstanceType>, key: string, values: set<string>) {
    forall v :: v in values <==> exists it :: it in options && v in Get(it.requirements, key).values
  }

  /** What minValues ask of a non-empty list of options: as many different values under each key. */
  lemma MinValuesMean(options: seq<InstanceType>, reqs: Requirements, values: map<string, set<string>>)
    requires options != [] && forall k | k in reqs :: k in values && Listed(options, k, values[k])
    ensures MinValuesMet(options, reqs) <==>
            forall k | k in reqs && reqs[k].minValues.Some? :: reqs[k].minValues.value <= |values[k]|
  {
    forall k | k in reqs ensures Distinct(options, k) == values[k] {
      assert Listed(options, k, values[k]);
    }
  }

  lemma OneLonger(options: seq<InstanceType>, n: nat, reqs: Requirements)
    requires n < |options| && NoneShorter(options, n, reqs) && !MinValuesMet(options[..n + 1], reqs)
    ensures NoneShorter(options, n + 1, reqs)
  {
  }

  /** `SatisfiesMinValues`: how many of the leading options are needed, or an error if all are too few. */
  method SatisfiesMinValues(options: seq<InstanceType>, reqs: Requirements) returns (needed: nat, err: bool)
    ensures err <==> !MinValuesMet(options, reqs)
    ensures needed <= |options|
    ensures !err && HasMinValues(reqs) ==> MinValuesMet(options[..needed], reqs)
    ensures HasMinValues(reqs) && needed > 0 ==> NoneShorter(options, needed - 1, reqs)
    ensures HasMinValues(reqs) && options != [] ==> needed > 0
    ensures err ==> needed == |options|
  {
    if !HasMinValues(reqs) {
      return 0, false;
    }
    var found: bool;
    needed, found := LeadingOptions(options, reqs);
    assert options[..|options|] == options;
    if found {
      MoreValues(options, needed, reqs);
    }
    err := !found && options != [];
  }

  /** The shortest non-empty prefix with enough values, if there is one. */
  method LeadingOptions(options: seq<InstanceType>, reqs: Requirements) returns (needed: nat, found: bool)
    ensures found ==>
            0 < needed <= |options| && MinValuesMet(options[..needed], reqs) && NoneShorter(options, needed - 1, reqs)
    ensures !found ==> needed == |options| && NoneShorter(options, |options|, reqs)
  {
    var keys := MinKeys(reqs);
    var values: map<string, set<string>> := map k | k in keys :: {};
    for i := 0 to |options|
      invariant Gathered(values, options[..i], keys)
      invariant NoneShorter(options, i, reqs)
    {
      GatherOne(values, options, i, keys);
      values := Gather(values, options[i], keys);
      GatheredDecides(values, options[..i + 1], reqs);
      if Enough(values, reqs) {
        return i + 1, true;
      }
      OneLonger(options, i, reqs);
    }
    return |options|, false;
  }

  function MinKeys(reqs: Requirements): set<string> {
    set k | k in reqs && reqs[k].minValues.Some?
  }

  /** One more option's values, under every key with a minimum. */
  function Gather(values: map<string, set<string>>, it: InstanceType, keys: set<string>): map<string, set<string>>
    requires keys <= values.Keys
  {
    map k | k in keys :: values[k] + Get(it.requirements, k).values
  }

  predicate Enough(values: map<string, set<string>>, reqs: Requirements)
    requires MinKeys(reqs) <= values.Keys
  {
    forall k | k in MinKeys(reqs) :: |values[k]| >= reqs[k].minValues.value
  }

  /** The values seen so far, per key with a minimum. */
  ghost predicate Gathered(values: map<string, set<string>>, options: seq<InstanceType>, keys: set<string>) {
    values.Keys == keys && forall k | k in keys :: values[k] == Distinct(options, k)
  }

  lemma GatherOne(values: map<string, set<string>>, options: seq<InstanceType>, i: nat, keys: set<string>)
    requires i < |options| && Gathered(values, options[..i], keys)
    ensures Gathered(Gather(values, options[i], keys), options[..i + 1], keys)
  {
    assert options[..i + 1] == options[..i] + [options[i]];
    forall k | k in keys
      ensures Distinct(options[..i + 1], k) == Distinct(options[..i], k) + Get(options[i].requirements, k).values
    {
    }
  }

  lemma GatheredDecides(values: map<string, set<string>>, options: seq<InstanceType>, reqs: Requirements)
    requires options != [] && Gathered(values, options, MinKeys(reqs))
    ensures MinValuesMet(options, reqs) <==> Enough(values, reqs)
  {
    assert forall k | k in MinKeys(reqs) :: EnoughValues(options, reqs, k) <==> |values[k]| >= reqs[k].minValues.value;
  }

  lemma MoreValues(options: seq<InstanceType>, n: nat, reqs: Requirements)
    requires 0 < n <= |options| && MinValuesMet(options[..n], reqs)
    ensures MinValuesMet(options, reqs)
  {
    forall k | k in reqs ensures EnoughValues(options, reqs, k) {
      assert EnoughValues(options[..n], reqs, k);
      SubsetSize(Distinct(options[..n], k), Distinct(options, k));
    }
  }

  // Cheapest prices and their total

  /** The least of some optional prices, the first of equals. */
  function Least(ps: seq<Option<real>>): Option<real> {
    if ps == [] then None
    else
      var c := Least(ps[..|ps| - 1]);
      var p := ps[|ps| - 1];
      if p.Some? && (c.None? || p.value < c.value) then p else c
  }

  lemma {:induction false} LeastIs(ps: seq<Option<real>>)
    ensures Least(ps).Some? ==> Least(ps) in ps
    ensures forall i | 0 <= i < |ps| && ps[i].Some? :: Least(ps).Some? && Least(ps).value <= ps[i].value
  {
    if ps != [] {
      LeastIs(ps[..|ps| - 1]);
    }
  }

  function LaunchPrices(options: seq<InstanceType>, reqs: Requirements, wellKnown: set<string>): (r: seq<Option<real>>)
    ensures |r| == |options|
  {
    seq(|options|, i requires 0 <= i < |options| => LaunchPrice(options[i], reqs, wellKnown))
  }

  function Cheapest(options: seq<InstanceType>, reqs: Requirements, wellKnown: set<string>): Option<real> {
    Least(LaunchPrices(options, reqs, wellKnown))
  }

  /** The cheapest launch price is that of some option, and no option launches for less. */
  lemma CheapestIs(options: seq<InstanceType>, reqs: Requirements, wellKnown: set<string>)
    ensures var c := Cheapest(options, reqs, wellKnown);
            && (c.Some? ==> exists it :: it in options && LaunchPrice(it, reqs, wellKnown) == c)
            && (forall it | it in options && LaunchPrice(it, reqs, wellKnown).Some? ::
                  c.Some? && c.value <= LaunchPrice(it, reqs, wellKnown).value)
  {
    var ps := LaunchPrices(options, reqs, wellKnown);
    LeastIs(ps);
    if Least(ps).Some? {
      var i :| 0 <= i < |ps| && ps[i] == Least(ps);
      assert options[i] in options;
    }
    forall it | it in options && LaunchPrice(it, reqs, wellKnown).Some?
      ensures Least(ps).Some? && Least(ps).value <= LaunchPrice(it, reqs, wellKnown).value
    {
      var i :| 0 <= i < |options| && options[i] == it;
      assert ps[i] == LaunchPrice(it, reqs, wellKnown);
    }
  }

  lemma LeastNext(ps: seq<Option<real>>, i: nat, p: Option<real>)
    requires i < |ps| && ps[i] == p
    ensures var c := Least(ps[..i]);
            Least(ps[..i + 1]) == if p.Some? && (c.None? || p.value < c.value) then p else c
  {
    assert ps[..i + 1][..i] == ps[..i];
  }

  /** The loop of `cheapestLaunchPrice`. */
  method CheapestLaunchPrice(claim: Claim, wellKnown: set<string>) returns (c: Option<real>)
    ensures c == Cheapest(claim.options, claim.requirements, wellKnown)
  {
    c := None;
    ghost var ps := LaunchPrices(claim.options, claim.requirements, wellKnown);
    for i := 0 to |claim.options|
      invariant c == Least(ps[..i])
    {
      var p := LaunchPrice(claim.options[i], claim.requirements, wellKnown);
      LeastNext(ps, i, p);
      if p.Some? && (c.None? || p.value < c.value) {
        c := p;
      }
    }
    assert ps[..|ps|] == ps;
  }

  /** Every claim has an option to price. */
  predicate AllPriced(claims: seq<Claim>, wellKnown: set<string>) {
    forall i | 0 <= i < |claims| :: Cheapest(claims[i].options, claims[i].requirements, wellKnown).Some?
  }

  function CheapestPrices(claims: seq<Claim>, wellKnown: set<string>): (r: seq<real>)
    requires AllPriced(claims, wellKnown)
    ensures |r| == |claims|
  {
    seq(|claims|, i requires 0 <= i < |claims| => Cheapest(claims[i].options, claims[i].requirements, wellKnown).value)
  }

  /** The least all claims can cost together; a claim without options makes it unaffordable. */
  function CheapestTotal(claims: seq<Claim>, wellKnown: set<string>): Option<real> {
    if AllPriced(claims, wellKnown) then Some(Sum(CheapestPrices(claims, wellKnown))) else None
  }

  /** What each claim may cost: its cheapest launch and an equal share of the surplus. */
  function Ceilings(claims: seq<Claim>, limit: real, wellKnown: set<string>): (r: seq<real>)
    requires AllPriced(claims, wellKnown)
    ensures |r| == |claims|
  {
    Shares(CheapestPrices(claims, wellKnown), limit)
  }

  function Kept(claims: seq<Claim>, i: nat, limit: real, wellKnown: set<string>): seq<InstanceType>
    requires i < |claims|
  {
    if Under(CheapestTotal(claims, wellKnown), limit) then
      CheaperThan(claims[i].options, claims[i].requirements, Ceilings(claims, limit, wellKnown)[i], wellKnown)
    else []
  }

  /** The claims after the aggregate price filter. */
  function Filtered(claims: seq<Claim>, limit: real, wellKnown: set<string>): (r: seq<Claim>)
    ensures |r| == |claims|
  {
    seq(|claims|, i requires 0 <= i < |claims| => claims[i].(options := Kept(claims, i, limit, wellKnown)))
  }

  ghost predicate PicksAt(claim: Claim, pick: InstanceType, wellKnown: set<string>, price: real) {
    pick in claim.options && LaunchPrice(pick, claim.requirements, wellKnown) == Some(price)
  }

  /** One option of every claim, each with a launch price. */
  ghost predicate Picks(claims: seq<Claim>, picks: seq<InstanceType>, wellKnown: set<string>, prices: seq<real>) {
    && |picks| == |claims| == |prices|
    && forall i | 0 <= i < |claims| :: PicksAt(claims[i], picks[i], wellKnown, prices[i])
  }

  ghost function CheapestOption(claim: Claim, wellKnown: set<string>): (it: InstanceType)
    requires Cheapest(claim.options, claim.requirements, wellKnown).Some?
    ensures PicksAt(claim, it, wellKnown, Cheapest(claim.options, claim.requirements, wellKnown).value)
  {
    CheapestIs(claim.options, claim.requirements, wellKnown);
    var it :| it in claim.options && LaunchPrice(it, claim.requirements, wellKnown) ==
                                     Cheapest(claim.options, claim.requirements, wellKnown);
    it
  }

  ghost function CheapestPicks(claims: seq<Claim>, wellKnown: set<string>): (picks: seq<InstanceType>)
    requires AllPriced(claims, wellKnown)
    ensures Picks(claims, picks, wellKnown, CheapestPrices(claims, wellKnown))
  {
    seq(|claims|, i requires 0 <= i < |claims| => CheapestOption(claims[i], wellKnown))
  }

  /** The filter finds the limit feasible exactly when some choice of one option per claim stays under it. */
  lemma FeasibleIff(claims: seq<Claim>, limit: real, wellKnown: set<string>)
    ensures Under(CheapestTotal(claims, wellKnown), limit) <==>
            exists picks, prices :: Picks(claims, picks, wellKnown, prices) && Sum(prices) < limit
  {
    if Under(CheapestTotal(claims, wellKnown), limit) {
      var picks := CheapestPicks(claims, wellKnown);
    }
    forall picks, prices | Picks(claims, picks, wellKnown, prices) && Sum(prices) < limit
      ensures Under(CheapestTotal(claims, wellKnown), limit)
    {
      PicksCostMore(claims, picks, wellKnown, prices);
    }
  }

  lemma PicksCostMore(claims: seq<Claim>, picks: seq<InstanceType>, wellKnown: set<string>, prices: seq<real>)
    requires Picks(claims, picks, wellKnown, prices)
    ensures AllPriced(claims, wellKnown) && Sum(CheapestPrices(claims, wellKnown)) <= Sum(prices)
  {
    forall i | 0 <= i < |claims|
      ensures Cheapest(claims[i].options, claims[i].requirements, wellKnown).Some?
      ensures Cheapest(claims[i].options, claims[i].requirements, wellKnown).value <= prices[i]
    {
      assert PicksAt(claims[i], picks[i], wellKnown, prices[i]);
      CheapestIs(claims[i].options, claims[i].requirements, wellKnown);
    }
    SumAtMost(CheapestPrices(claims, wellKnown), prices);
  }

  /** Under a feasible limit every claim keeps its cheapest option. */
  lemma KeepsCheapest(claims: seq<Claim>, limit: real, wellKnown: set<string>, i: nat)
    requires Under(CheapestTotal(claims, wellKnown), limit) && i < |claims|
    ensures exists it :: it in Kept(claims, i, limit, wellKnown) && it in claims[i].options
                         && LaunchPrice(it, claims[i].requirements, wellKnown) ==
                            Cheapest(claims[i].options, claims[i].requirements, wellKnown)
  {
    SharesSplit(CheapestPrices(claims, wellKnown), limit);
    var nc := claims[i];
    var c := Cheapest(nc.options, nc.requirements, wellKnown);
    CheapestIs(nc.options, nc.requirements, wellKnown);
    var it :| it in nc.options && LaunchPrice(it, nc.requirements, wellKnown) == c;
    assert CheapestPrices(claims, wellKnown)[i] == c.value;
    assert it in Kept(claims, i, limit, wellKnown);
  }

  // The total over claims

  lemma KeptUnder(claims: seq<Claim>, limit: real, wellKnown: set<string>, i: nat, it: InstanceType)
    requires Under(CheapestTotal(claims, wellKnown), limit) && i < |claims|
    ensures it in Kept(claims, i, limit, wellKnown) <==>
            it in claims[i].options
            && Under(LaunchPrice(it, claims[i].requirements, wellKnown), Ceilings(claims, limit, wellKnown)[i])
  {
  }

  /**
   Which options a claim keeps: those whose price is above the claim's cheapest by less than an equal
   share of the surplus, that is of the limit less all the cheapest prices.
   */
  lemma KeptIff(claims: seq<Claim>, limit: real, wellKnown: set<string>, i: nat, it: InstanceType)
    requires Under(CheapestTotal(claims, wellKnown), limit) && i < |claims|
    ensures it in Kept(claims, i, limit, wellKnown) <==>
            && it in claims[i].options
            && var price := LaunchPrice(it, claims[i].requirements, wellKnown);
               var cheapest := CheapestPrices(claims, wellKnown);
               price.Some? && price.value < cheapest[i] + (limit - Sum(cheapest)) / |claims| as real
  {
    KeptUnder(claims, limit, wellKnown, i, it);
    ShareOf(CheapestPrices(claims, wellKnown), limit, i);
  }

  /** Filtering keeps the order of the options. */
  lemma CheaperThanSplits(xs: seq<InstanceType>, ys: seq<InstanceType>, reqs: Requirements, limit: real,
                          wellKnown: set<string>)
    ensures CheaperThan(xs + ys, reqs, limit, wellKnown) ==
            CheaperThan(xs, reqs, limit, wellKnown) + CheaperThan(ys, reqs, limit, wellKnown)
  {
    FilterSplits(Cheaper(reqs, limit, wellKnown), xs, ys);
  }

  /** One price per claim, each below the claim's ceiling, adds up to less than the limit. */
  lemma BelowLimit(claims: seq<Claim>, limit: real, wellKnown: set<string>, prices: seq<real>)
    requires Under(CheapestTotal(claims, wellKnown), limit) && |prices| == |claims| > 0
    requires forall i | 0 <= i < |claims| :: prices[i] < Ceilings(claims, limit, wellKnown)[i]
    ensures Sum(prices) < limit
  {
    SharesBound(CheapestPrices(claims, wellKnown), limit, prices);
  }

  /** A choice of a retained type per claim. */
  ghost predicate Chooses(claims: seq<Claim>, picks: seq<InstanceType>) {
    |picks| == |claims| && forall i | 0 <= i < |claims| :: picks[i] in claims[i].options
  }

  /** An offering per claim that the launch of the chosen type may land on once the claim is pinned. */
  ghost predicate Lands(claims: seq<Claim>, picks: seq<InstanceType>, wellKnown: set<string>, ofs: seq<Offering>) {
    && |ofs| == |picks| == |claims|
    && forall i | 0 <= i < |claims| ::
         ofs[i] in picks[i].offerings && Launchable(Pinned(claims[i].requirements), ofs[i], wellKnown)
  }

  ghost predicate WellPriced(claim: Claim, wellKnown: set<string>) {
    && Consistent(claim.requirements)
    && forall it | it in claim.options ::
         AllOffered(it.offerings, wellKnown) && PricedAsLaunched(it.offerings, claim.requirements, wellKnown)
  }

  function Prices(ofs: seq<Offering>): (r: seq<real>)
    ensures |r| == |ofs|
  {
    seq(|ofs|, i requires 0 <= i < |ofs| => ofs[i].price)
  }

  /**
   After the aggregate filter and the pinning to spot, every choice of one retained type per claim,
   launched into any offering it may then land on, costs less than the limit in total.
   */
  lemma LaunchTotal(claims: seq<Claim>, limit: real, wellKnown: set<string>, picks: seq<InstanceType>,
                    ofs: seq<Offering>)
    requires |claims| > 0 && forall i | 0 <= i < |claims| :: WellPriced(claims[i], wellKnown)
    requires Chooses(Filtered(claims, limit, wellKnown), picks)
    requires Lands(claims, picks, wellKnown, ofs)
    ensures Sum(Prices(ofs)) < limit
  {
    var kept := Filtered(claims, limit, wellKnown);
    assert picks[0] in kept[0].options && kept[0].options == Kept(claims, 0, limit, wellKnown);
    assert Under(CheapestTotal(claims, wellKnown), limit);
    assert AllPriced(claims, wellKnown);
    forall i | 0 <= i < |claims| ensures Prices(ofs)[i] < Ceilings(claims, limit, wellKnown)[i] {
      assert picks[i] in kept[i].options && kept[i].options == Kept(claims, i, limit, wellKnown);
      PricedAsLaunchedBounds(picks[i].offerings, claims[i].requirements, wellKnown, ofs[i]);
    }
    BelowLimit(claims, limit, wellKnown, Prices(ofs));
  }
}
