/**
 Offerings of an instance type and the price a launch may cost (pkg/cloudprovider/types.go).
 `wellKnown` is the set of labels that a claim may leave undefined. Prices are exact reals, and
 `None` stands for the MaxFloat64 that marks "no compatible offering".
 */
module Offerings {
  import opened Wrappers
  import opened Requirement
  import opened Requirements

  const CAPACITY_TYPE := "karpenter.sh/capacity-type"
  const ZONE := "topology.kubernetes.io/zone"
  const RESERVED := "reserved"
  const SPOT := "spot"
  const ON_DEMAND := "on-demand"

  datatype Offering = Offering(requirements: Requirements, price: real, available: bool)

  datatype InstanceType = InstanceType(name: string, requirements: Requirements, offerings: seq<Offering>)

  predicate Compatible(reqs: Requirements, o: Offering, wellKnown: set<string>) {
    IsCompatible(reqs, o.requirements, wellKnown)
  }

  /** An offering the launch of a claim may land on. */
  predicate Launchable(reqs: Requirements, o: Offering, wellKnown: set<string>) {
    o.available && Compatible(reqs, o, wellKnown)
  }

  function Pin(key: string, value: string): Requirement {
    New(key, In, None, [value])
  }

  /** Whether `o` is an available, compatible offering of one capacity type. */
  predicate InClass(reqs: Requirements, capacityType: string, o: Offering, wellKnown: set<string>) {
    Launchable(reqs, o, wellKnown) && Compatible(map[CAPACITY_TYPE := Pin(CAPACITY_TYPE, capacityType)], o, wellKnown)
  }

  function Class(ofs: seq<Offering>, reqs: Requirements, capacityType: string,
                 wellKnown: set<string>): (r: seq<Offering>)
    ensures forall o :: o in r <==> o in ofs && InClass(reqs, capacityType, o, wellKnown)
  {
    if ofs == [] then []
    else
      var rest := Class(ofs[1..], reqs, capacityType, wellKnown);
      if InClass(reqs, capacityType, ofs[0], wellKnown) then [ofs[0]] + rest else rest
  }

  function MostExpensive(ofs: seq<Offering>): (p: real)
    requires ofs != []
    ensures forall o | o in ofs :: o.price <= p
    ensures exists o :: o in ofs && o.price == p
  {
    if |ofs| == 1 then ofs[0].price
    else
      var p := MostExpensive(ofs[1..]);
      if ofs[0].price > p then ofs[0].price else p
  }

  /** The capacity type a launch is priced at: reserved, then spot, then on-demand. */
  function LaunchClass(ofs: seq<Offering>, reqs: Requirements, wellKnown: set<string>): Option<string> {
    if Class(ofs, reqs, RESERVED, wellKnown) != [] then Some(RESERVED)
    else if Class(ofs, reqs, SPOT, wellKnown) != [] then Some(SPOT)
    else if Class(ofs, reqs, ON_DEMAND, wellKnown) != [] then Some(ON_DEMAND)
    else None
  }

  function WorstLaunchPrice(ofs: seq<Offering>, reqs: Requirements, wellKnown: set<string>): Option<real> {
    var ct := LaunchClass(ofs, reqs, wellKnown);
    if ct.None? then None else Some(MostExpensive(Class(ofs, reqs, ct.value, wellKnown)))
  }

  // Well-formed offerings

  /** A requirement that names one value. */
  predicate Names(reqs: Requirements, key: string, value: string) {
    key in reqs && !reqs[key].complement && reqs[key].values == {value} && reqs[key].key == key && WellFormed(reqs[key])
  }

  predicate IsCapacityType(ct: string) {
    ct == RESERVED || ct == SPOT || ct == ON_DEMAND
  }

  /** An offering names its capacity type, and constrains other labels only if they are well known or ruled out. */
  predicate Offered(o: Offering, ct: string, wellKnown: set<string>) {
    && Names(o.requirements, CAPACITY_TYPE, ct) && IsCapacityType(ct) && CAPACITY_TYPE in wellKnown
    && Consistent(o.requirements)
    && forall k | k in o.requirements :: k in wellKnown || IsNegative(OperatorOf(o.requirements[k]))
  }

  ghost predicate AllOffered(ofs: seq<Offering>, wellKnown: set<string>) {
    forall o | o in ofs :: exists ct :: Offered(o, ct, wellKnown)
  }

  /** A requirement meets a named value exactly when it admits it. */
  lemma MeetsNamed(r: Requirement, q: Requirement, v: string)
    requires WellFormed(r) && WellFormed(q) && !q.complement && q.values == {v}
    ensures HasIntersection(r, q) <==> Has(r, v)
  {
    HasIntersectionExact(r, q);
    assert forall u :: Has(q, u) <==> u == v;
  }

  lemma CompatibleAdmits(reqs: Requirements, o: Offering, wellKnown: set<string>, key: string, v: string)
    requires Consistent(reqs) && Names(o.requirements, key, v) && Compatible(reqs, o, wellKnown)
    ensures Has(Get(reqs, key), v)
  {
    if key in reqs {
      MeetsNamed(reqs[key], o.requirements[key], v);
    }
  }

  /** A capacity-type class is what the name says. */
  lemma InClassExact(reqs: Requirements, capacityType: string, o: Offering, ct: string, wellKnown: set<string>)
    requires Offered(o, ct, wellKnown)
    ensures InClass(reqs, capacityType, o, wellKnown) <==> Launchable(reqs, o, wellKnown) && ct == capacityType
  {
    MeetsNamed(Pin(CAPACITY_TYPE, capacityType), o.requirements[CAPACITY_TYPE], ct);
  }

  // Pinning to spot

  /** The requirement added after the price filter, so that a spot shortage cannot fall back to on-demand. */
  function Pinned(reqs: Requirements): Requirements {
    var ct := Get(reqs, CAPACITY_TYPE);
    if Has(ct, SPOT) && Has(ct, ON_DEMAND) then AddOne(reqs, Pin(CAPACITY_TYPE, SPOT)) else reqs
  }

  /** An available offering of the capacity type that the requirements allow. */
  ghost predicate OnOffer(o: Offering, reqs: Requirements, wellKnown: set<string>, ct: string) {
    o.available && IsCompatible(reqs, o.requirements, wellKnown) && Names(o.requirements, CAPACITY_TYPE, ct)
  }

  ghost predicate OffersType(ofs: seq<Offering>, reqs: Requirements, wellKnown: set<string>, ct: string) {
    exists o :: o in ofs && OnOffer(o, reqs, wellKnown, ct)
  }

  /** The capacity type that will launch: reserved before spot before on-demand, as far as they are offered. */
  ghost predicate Preferred(ofs: seq<Offering>, reqs: Requirements, wellKnown: set<string>, ct: string) {
    && IsCapacityType(ct) && OffersType(ofs, reqs, wellKnown, ct)
    && (ct == SPOT ==> !OffersType(ofs, reqs, wellKnown, RESERVED))
    && (ct == ON_DEMAND ==> !OffersType(ofs, reqs, wellKnown, RESERVED) && !OffersType(ofs, reqs, wellKnown, SPOT))
  }

  lemma ClassIs(ofs: seq<Offering>, reqs: Requirements, wellKnown: set<string>, ct: string, o: Offering)
    requires AllOffered(ofs, wellKnown)
    ensures o in Class(ofs, reqs, ct, wellKnown) <==> o in ofs && OnOffer(o, reqs, wellKnown, ct)
  {
    if o in ofs {
      var named :| Offered(o, named, wellKnown);
      InClassExact(reqs, ct, o, named, wellKnown);
      assert Names(o.requirements, CAPACITY_TYPE, ct) ==> ct in {named};
    }
  }

  lemma OffersTypeIff(ofs: seq<Offering>, reqs: Requirements, wellKnown: set<string>, ct: string)
    requires AllOffered(ofs, wellKnown)
    ensures Class(ofs, reqs, ct, wellKnown) != [] <==> OffersType(ofs, reqs, wellKnown, ct)
  {
    var priced := Class(ofs, reqs, ct, wellKnown);
    if priced != [] {
      assert priced[0] in priced;
      ClassIs(ofs, reqs, wellKnown, ct, priced[0]);
    }
    if OffersType(ofs, reqs, wellKnown, ct) {
      var o :| o in ofs && OnOffer(o, reqs, wellKnown, ct);
      ClassIs(ofs, reqs, wellKnown, ct, o);
      assert o in priced;
    }
  }

  /** There is a worst launch price exactly when something is on offer. */
  lemma WorstExists(ofs: seq<Offering>, reqs: Requirements, wellKnown: set<string>)
    requires AllOffered(ofs, wellKnown)
    ensures WorstLaunchPrice(ofs, reqs, wellKnown).Some? <==>
            exists ct :: Preferred(ofs, reqs, wellKnown, ct)
  {
    OffersTypeIff(ofs, reqs, wellKnown, RESERVED);
    OffersTypeIff(ofs, reqs, wellKnown, SPOT);
    OffersTypeIff(ofs, reqs, wellKnown, ON_DEMAND);
    if WorstLaunchPrice(ofs, reqs, wellKnown).Some? {
      assert Preferred(ofs, reqs, wellKnown, LaunchClass(ofs, reqs, wellKnown).value);
    }
  }

  lemma PreferredIs(ofs: seq<Offering>, reqs: Requirements, wellKnown: set<string>, ct: string)
    requires AllOffered(ofs, wellKnown) && Preferred(ofs, reqs, wellKnown, ct)
    ensures LaunchClass(ofs, reqs, wellKnown) == Some(ct) && Class(ofs, reqs, ct, wellKnown) != []
  {
    OffersTypeIff(ofs, reqs, wellKnown, RESERVED);
    OffersTypeIff(ofs, reqs, wellKnown, SPOT);
    OffersTypeIff(ofs, reqs, wellKnown, ct);
  }

  /** It is the highest price on offer of the capacity type that will launch. */
  lemma WorstIs(ofs: seq<Offering>, reqs: Requirements, wellKnown: set<string>, ct: string)
    requires AllOffered(ofs, wellKnown) && Preferred(ofs, reqs, wellKnown, ct)
    ensures WorstLaunchPrice(ofs, reqs, wellKnown).Some?
    ensures var worst := WorstLaunchPrice(ofs, reqs, wellKnown).value;
            && (exists o :: o in ofs && OnOffer(o, reqs, wellKnown, ct) && o.price == worst)
            && (forall o | o in ofs && OnOffer(o, reqs, wellKnown, ct) :: o.price <= worst)
  {
    PreferredIs(ofs, reqs, wellKnown, ct);
    DearestIs(ofs, reqs, wellKnown, ct);
  }

  lemma DearestIs(ofs: seq<Offering>, reqs: Requirements, wellKnown: set<string>, ct: string)
    requires AllOffered(ofs, wellKnown) && Class(ofs, reqs, ct, wellKnown) != []
    ensures var worst := MostExpensive(Class(ofs, reqs, ct, wellKnown));
            && (exists o :: o in ofs && OnOffer(o, reqs, wellKnown, ct) && o.price == worst)
            && (forall o | o in ofs && OnOffer(o, reqs, wellKnown, ct) :: o.price <= worst)
  {
    var priced := Class(ofs, reqs, ct, wellKnown);
    var worst := MostExpensive(priced);
    var dearest :| dearest in priced && dearest.price == worst;
    ClassIs(ofs, reqs, wellKnown, ct, dearest);
    forall o | o in ofs && OnOffer(o, reqs, wellKnown, ct) ensures o.price <= MostExpensive(priced) {
      ClassIs(ofs, reqs, wellKnown, ct, o);
    }
  }

  /** Adding a pin narrows compatibility to the pinned value. */
  lemma PinNarrows(reqs: Requirements, o: Offering, wellKnown: set<string>, key: string, value: string, v: string)
    requires Consistent(reqs) && Names(o.requirements, key, v) && key in wellKnown
    ensures Compatible(AddOne(reqs, Pin(key, value)), o, wellKnown) <==> Compatible(reqs, o, wellKnown) && v == value
  {
    assert Pin(key, value) == PinAny(key, {value});
    PinAnyNarrows(reqs, o, wellKnown, key, {value}, v);
  }

  /** Reserved is not mixed with other capacity types in the claim. */
  predicate NotMixed(reqs: Requirements) {
    var ct := Get(reqs, CAPACITY_TYPE);
    !(Has(ct, RESERVED) && (Has(ct, SPOT) || Has(ct, ON_DEMAND)))
  }

  /** Every offering the pinned claim may land on is of the capacity type the claim was priced at. */
  ghost predicate PricedAsLaunched(ofs: seq<Offering>, reqs: Requirements, wellKnown: set<string>) {
    forall o | o in ofs && Launchable(Pinned(reqs), o, wellKnown) ::
      exists ct :: Offered(o, ct, wellKnown) && LaunchClass(ofs, reqs, wellKnown) == Some(ct)
  }

  /** The pin at the end: a claim that allows both spot and on-demand keeps only spot, any other stays as it is. */
  lemma PinnedIs(reqs: Requirements, v: string)
    requires Consistent(reqs)
    ensures var ct, both := Get(reqs, CAPACITY_TYPE),
                            Has(Get(reqs, CAPACITY_TYPE), SPOT) && Has(Get(reqs, CAPACITY_TYPE), ON_DEMAND);
            && (!both ==> Pinned(reqs) == reqs)
            && (both ==> (Has(Get(Pinned(reqs), CAPACITY_TYPE), v) <==> v == SPOT)
                         && Get(Pinned(reqs), CAPACITY_TYPE).minValues == ct.minValues)
    ensures forall k | k != CAPACITY_TYPE :: Get(Pinned(reqs), k) == Get(reqs, k)
  {
    var pin := Pin(CAPACITY_TYPE, SPOT);
    AddOneDenotes(reqs, pin, CAPACITY_TYPE, v);
    if CAPACITY_TYPE in reqs {
      IntersectionMinValues(pin, reqs[CAPACITY_TYPE]);
    }
    assert Has(pin, v) <==> v == SPOT;
  }

  lemma PinnedCapacity(reqs: Requirements, o: Offering, ct: string, wellKnown: set<string>)
    requires Consistent(reqs) && Offered(o, ct, wellKnown) && Launchable(Pinned(reqs), o, wellKnown)
    ensures Launchable(reqs, o, wellKnown) && Has(Get(reqs, CAPACITY_TYPE), ct)
    ensures Has(Get(reqs, CAPACITY_TYPE), SPOT) && Has(Get(reqs, CAPACITY_TYPE), ON_DEMAND) ==> ct == SPOT
  {
    PinNarrows(reqs, o, wellKnown, CAPACITY_TYPE, SPOT, ct);
    CompatibleAdmits(reqs, o, wellKnown, CAPACITY_TYPE, ct);
  }

  lemma ClassAdmits(ofs: seq<Offering>, reqs: Requirements, capacityType: string, wellKnown: set<string>)
    requires Consistent(reqs) && AllOffered(ofs, wellKnown) && Class(ofs, reqs, capacityType, wellKnown) != []
    ensures Has(Get(reqs, CAPACITY_TYPE), capacityType)
  {
    var o := Class(ofs, reqs, capacityType, wellKnown)[0];
    assert o in ofs;
    var ct :| Offered(o, ct, wellKnown);
    InClassExact(reqs, capacityType, o, ct, wellKnown);
    CompatibleAdmits(reqs, o, wellKnown, CAPACITY_TYPE, ct);
  }

  /** A claim that does not mix reserved with other capacity types is priced as it launches. */
  lemma NotMixedPricedAsLaunched(ofs: seq<Offering>, reqs: Requirements, wellKnown: set<string>)
    requires Consistent(reqs) && AllOffered(ofs, wellKnown) && NotMixed(reqs)
    ensures PricedAsLaunched(ofs, reqs, wellKnown)
  {
    forall o | o in ofs && Launchable(Pinned(reqs), o, wellKnown)
      ensures exists ct :: Offered(o, ct, wellKnown) && LaunchClass(ofs, reqs, wellKnown) == Some(ct)
    {
      var ct :| Offered(o, ct, wellKnown);
      PinnedCapacity(reqs, o, ct, wellKnown);
      InClassExact(reqs, ct, o, ct, wellKnown);
      assert o in Class(ofs, reqs, ct, wellKnown);
      if Class(ofs, reqs, RESERVED, wellKnown) != [] {
        ClassAdmits(ofs, reqs, RESERVED, wellKnown);
      }
      if Class(ofs, reqs, SPOT, wellKnown) != [] {
        ClassAdmits(ofs, reqs, SPOT, wellKnown);
      }
    }
  }

  /** Then no launch costs more than the worst launch price. */
  lemma PricedAsLaunchedBounds(ofs: seq<Offering>, reqs: Requirements, wellKnown: set<string>, o: Offering)
    requires Consistent(reqs) && AllOffered(ofs, wellKnown) && PricedAsLaunched(ofs, reqs, wellKnown)
    requires o in ofs && Launchable(Pinned(reqs), o, wellKnown)
    ensures WorstLaunchPrice(ofs, reqs, wellKnown).Some? && o.price <= WorstLaunchPrice(ofs, reqs, wellKnown).value
  {
    var ct :| Offered(o, ct, wellKnown) && LaunchClass(ofs, reqs, wellKnown) == Some(ct);
    PinnedCapacity(reqs, o, ct, wellKnown);
    InClassExact(reqs, ct, o, ct, wellKnown);
    assert o in Class(ofs, reqs, ct, wellKnown);
  }

  // Pinning to zones

  /** `In` with the given values, as `NewRequirement` builds it. */
  function PinAny(key: string, values: set<string>): Requirement {
    Requirement(key, false, values, None, None, None)
  }

  lemma PinAnyNarrows(reqs: Requirements, o: Offering, wellKnown: set<string>, key: string, values: set<string>,
                      v: string)
    requires Consistent(reqs) && Names(o.requirements, key, v) && key in wellKnown
    ensures Consistent(AddOne(reqs, PinAny(key, values)))
    ensures Compatible(AddOne(reqs, PinAny(key, values)), o, wellKnown) <==>
            Compatible(reqs, o, wellKnown) && v in values
  {
    var q := PinAny(key, values);
    var pinned := AddOne(reqs, q);
    AddOneConsistent(reqs, q);
    var of := o.requirements[key];
    MeetsNamed(pinned[key], of, v);
    if key in reqs {
      IntersectionDenotes(q, reqs[key]);
      MeetsNamed(reqs[key], of, v);
    }
    assert forall k | k != key :: k in pinned <==> k in reqs;
    assert forall k | k in reqs && k != key :: pinned[k] == reqs[k];
  }

  // Exactly when the bound holds at any prices

  ghost predicate Repriced(ofs: seq<Offering>, other: seq<Offering>) {
    |ofs| == |other| && forall i | 0 <= i < |ofs| :: other[i] == ofs[i].(price := other[i].price)
  }

  ghost predicate Bounded(ofs: seq<Offering>, reqs: Requirements, wellKnown: set<string>) {
    forall o | o in ofs && Launchable(Pinned(reqs), o, wellKnown) ::
      var worst := WorstLaunchPrice(ofs, reqs, wellKnown);
      worst.Some? && o.price <= worst.value
  }

  lemma RepricedClass(ofs: seq<Offering>, other: seq<Offering>, reqs: Requirements, ct: string, wellKnown: set<string>)
    requires Repriced(ofs, other)
    ensures Class(ofs, reqs, ct, wellKnown) != [] ==> Class(other, reqs, ct, wellKnown) != []
  {
    if Class(ofs, reqs, ct, wellKnown) != [] {
      var o := Class(ofs, reqs, ct, wellKnown)[0];
      assert o in Class(ofs, reqs, ct, wellKnown);
      var i :| 0 <= i < |ofs| && ofs[i] == o;
      assert other[i] in other && InClass(reqs, ct, other[i], wellKnown);
      assert other[i] in Class(other, reqs, ct, wellKnown);
    }
  }

  /** The capacity type a claim is priced at does not depend on prices. */
  lemma RepricedLaunchClass(ofs: seq<Offering>, other: seq<Offering>, reqs: Requirements, wellKnown: set<string>)
    requires Repriced(ofs, other)
    ensures LaunchClass(ofs, reqs, wellKnown) == LaunchClass(other, reqs, wellKnown)
  {
    assert Repriced(other, ofs);
    RepricedClass(ofs, other, reqs, RESERVED, wellKnown);
    RepricedClass(other, ofs, reqs, RESERVED, wellKnown);
    RepricedClass(ofs, other, reqs, SPOT, wellKnown);
    RepricedClass(other, ofs, reqs, SPOT, wellKnown);
    RepricedClass(ofs, other, reqs, ON_DEMAND, wellKnown);
    RepricedClass(other, ofs, reqs, ON_DEMAND, wellKnown);
  }

  lemma RepricedStaysPriced(ofs: seq<Offering>, other: seq<Offering>, reqs: Requirements, wellKnown: set<string>)
    requires Repriced(ofs, other) && AllOffered(ofs, wellKnown) && PricedAsLaunched(ofs, reqs, wellKnown)
    ensures AllOffered(other, wellKnown) && PricedAsLaunched(other, reqs, wellKnown)
  {
    RepricedLaunchClass(ofs, other, reqs, wellKnown);
    forall o | o in other ensures exists ct :: Offered(o, ct, wellKnown) {
      var i :| 0 <= i < |other| && other[i] == o;
      assert ofs[i] in ofs;
      var ct :| Offered(ofs[i], ct, wellKnown);
      assert Offered(o, ct, wellKnown);
    }
    forall o | o in other && Launchable(Pinned(reqs), o, wellKnown)
      ensures exists ct :: Offered(o, ct, wellKnown) && LaunchClass(other, reqs, wellKnown) == Some(ct)
    {
      var i :| 0 <= i < |other| && other[i] == o;
      assert ofs[i] in ofs && Launchable(Pinned(reqs), ofs[i], wellKnown);
      var ct :| Offered(ofs[i], ct, wellKnown) && LaunchClass(ofs, reqs, wellKnown) == Some(ct);
      assert Offered(o, ct, wellKnown);
    }
  }

  /** An offering outside the priced class can be made more expensive than the worst launch price. */
  lemma UnpricedSpikes(ofs: seq<Offering>, reqs: Requirements, wellKnown: set<string>, i: nat, ct: string)
    returns (other: seq<Offering>)
    requires i < |ofs| && AllOffered(ofs, wellKnown) && Offered(ofs[i], ct, wellKnown)
    requires Launchable(Pinned(reqs), ofs[i], wellKnown) && LaunchClass(ofs, reqs, wellKnown) != Some(ct)
    ensures Repriced(ofs, other) && !Bounded(other, reqs, wellKnown)
  {
    var worst := WorstLaunchPrice(ofs, reqs, wellKnown);
    if worst.None? {
      assert ofs[i] in ofs;
      return ofs;
    }
    other := ofs[i := ofs[i].(price := worst.value + 1.0)];
    WorstStays(ofs, other, reqs, wellKnown, i, ct);
    assert other[i] in other && Launchable(Pinned(reqs), other[i], wellKnown);
  }

  /** Another price outside the priced class does not raise the worst launch price. */
  lemma WorstStays(ofs: seq<Offering>, other: seq<Offering>, reqs: Requirements, wellKnown: set<string>, i: nat,
                   ct: string)
    requires i < |ofs| && Offered(ofs[i], ct, wellKnown) && LaunchClass(ofs, reqs, wellKnown) != Some(ct)
    requires WorstLaunchPrice(ofs, reqs, wellKnown).Some? && exists price :: other == ofs[i := ofs[i].(price := price)]
    ensures Repriced(ofs, other) && WorstLaunchPrice(other, reqs, wellKnown).Some?
    ensures WorstLaunchPrice(other, reqs, wellKnown).value <= WorstLaunchPrice(ofs, reqs, wellKnown).value
  {
    RepricedLaunchClass(ofs, other, reqs, wellKnown);
    var priced := LaunchClass(ofs, reqs, wellKnown).value;
    InClassExact(reqs, priced, other[i], ct, wellKnown);
    OutsideClass(ofs, other, reqs, wellKnown, i, priced);
  }

  lemma OutsideClass(ofs: seq<Offering>, other: seq<Offering>, reqs: Requirements, wellKnown: set<string>, i: nat,
                     ct: string)
    requires i < |ofs| == |other| && (forall j | 0 <= j < |ofs| && j != i :: other[j] == ofs[j])
    requires !InClass(reqs, ct, other[i], wellKnown)
    requires Class(ofs, reqs, ct, wellKnown) != [] && Class(other, reqs, ct, wellKnown) != []
    ensures MostExpensive(Class(other, reqs, ct, wellKnown)) <= MostExpensive(Class(ofs, reqs, ct, wellKnown))
  {
    forall o | o in Class(other, reqs, ct, wellKnown) ensures o in Class(ofs, reqs, ct, wellKnown) {
      var j :| 0 <= j < |other| && other[j] == o;
      assert ofs[j] == o;
    }
    FewerCost(Class(other, reqs, ct, wellKnown), Class(ofs, reqs, ct, wellKnown));
  }

  lemma FewerCost(some: seq<Offering>, all: seq<Offering>)
    requires some != [] && all != [] && forall o | o in some :: o in all
    ensures MostExpensive(some) <= MostExpensive(all)
  {
    var p := MostExpensive(some);
    var most :| most in some && most.price == p;
  }

  /**
   Whatever the prices are, no launch of the pinned claim exceeds the price it was filtered by,
   exactly when the claim is priced at the only capacity type it may still launch as.
   */
  lemma BoundedIff(ofs: seq<Offering>, reqs: Requirements, wellKnown: set<string>)
    requires Consistent(reqs) && AllOffered(ofs, wellKnown)
    ensures PricedAsLaunched(ofs, reqs, wellKnown) <==>
            forall other | Repriced(ofs, other) :: Bounded(other, reqs, wellKnown)
  {
    if PricedAsLaunched(ofs, reqs, wellKnown) {
      forall other | Repriced(ofs, other) ensures Bounded(other, reqs, wellKnown) {
        RepricedStaysPriced(ofs, other, reqs, wellKnown);
        forall o | o in other && Launchable(Pinned(reqs), o, wellKnown) {
          PricedAsLaunchedBounds(other, reqs, wellKnown, o);
        }
      }
    } else {
      var o :| o in ofs && Launchable(Pinned(reqs), o, wellKnown)
               && !exists ct :: Offered(o, ct, wellKnown) && LaunchClass(ofs, reqs, wellKnown) == Some(ct);
      var ct :| Offered(o, ct, wellKnown);
      var i :| 0 <= i < |ofs| && ofs[i] == o;
      var other := UnpricedSpikes(ofs, reqs, wellKnown, i, ct);
    }
  }

  /** A claim that allows reserved beside spot and on-demand is the family the bound fails for. */
  lemma MixedExceeds()
    ensures var wellKnown := {CAPACITY_TYPE};
            var at := (ct: string, price: real) => Offering(map[CAPACITY_TYPE := Pin(CAPACITY_TYPE, ct)], price, true);
            var ofs := [at(RESERVED, 0.0), at(SPOT, 2.0)];
            WorstLaunchPrice(ofs, map[], wellKnown) == Some(0.0) && Launchable(Pinned(map[]), ofs[1], wellKnown)
  {
    var wellKnown := {CAPACITY_TYPE};
    var reserved := Offering(map[CAPACITY_TYPE := Pin(CAPACITY_TYPE, RESERVED)], 0.0, true);
    var spot := Offering(map[CAPACITY_TYPE := Pin(CAPACITY_TYPE, SPOT)], 2.0, true);
    assert Offered(reserved, RESERVED, wellKnown) && Offered(spot, SPOT, wellKnown) by {
      assert Pin(CAPACITY_TYPE, RESERVED).values == {RESERVED} && Pin(CAPACITY_TYPE, SPOT).values == {SPOT};
    }
    InClassExact(map[], RESERVED, reserved, RESERVED, wellKnown);
    InClassExact(map[], RESERVED, spot, SPOT, wellKnown);
    var ofs := [reserved, spot];
    assert reserved in Class(ofs, map[], RESERVED, wellKnown);
    PinNarrows(map[], spot, wellKnown, CAPACITY_TYPE, SPOT, SPOT);
  }
}
