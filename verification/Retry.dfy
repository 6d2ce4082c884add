/**
 The zone-narrowing retries of pkg/controllers/disruption/consolidation.go: claims the price filter
 emptied are narrowed to the cheap spot zones of their cheapest type and priced again.
 */
module Retry {
  import opened Wrappers
  import opened Requirement
  import opened Requirements
  import opened Offerings
  import opened Pricing
  import opened Narrowing
  import opened Replacements
  import opened Sorting
  import opened Finite
  import opened Sums

  /** The least price an offering of the type is available at under the requirements. */
  function BestPrice(it: InstanceType, reqs: Requirements, wellKnown: set<string>): Option<real> {
    Least(OfferPrices(it.offerings, reqs, wellKnown))
  }

  function OfferPrices(ofs: seq<Offering>, reqs: Requirements, wellKnown: set<string>): (r: seq<Option<real>>)
    ensures |r| == |ofs|
  {
    seq(|ofs|, i requires 0 <= i < |ofs| => if Launchable(reqs, ofs[i], wellKnown) then Some(ofs[i].price) else None)
  }

  method OrderByPrice(options: seq<InstanceType>, reqs: Requirements, wellKnown: set<string>)
    returns (r: seq<InstanceType>)
    ensures multiset(r) == multiset(options)
    ensures SortedBy((it: InstanceType) => BestPrice(it, reqs, wellKnown), r)
  {
    r := SortBy((it: InstanceType) => BestPrice(it, reqs, wellKnown), options);
  }

  /** Types with an offering the claim could launch into. */
  function HasOffer(reqs: Requirements, wellKnown: set<string>): InstanceType -> bool {
    (it: InstanceType) => exists o :: o in it.offerings && Launchable(reqs, o, wellKnown)
  }

  function CompatibleTypes(options: seq<InstanceType>, reqs: Requirements,
                           wellKnown: set<string>): (r: seq<InstanceType>)
    ensures forall it :: it in r <==> it in options && exists o :: o in it.offerings && Launchable(reqs, o, wellKnown)
  {
    Filter(HasOffer(reqs, wellKnown), options)
  }

  lemma CompatibleTypesSplit(xs: seq<InstanceType>, ys: seq<InstanceType>, reqs: Requirements, wellKnown: set<string>)
    ensures CompatibleTypes(xs + ys, reqs, wellKnown) ==
            CompatibleTypes(xs, reqs, wellKnown) + CompatibleTypes(ys, reqs, wellKnown)
  {
    FilterSplits(HasOffer(reqs, wellKnown), xs, ys);
  }

  /** `satisfiesMinValues`: whether pinning a requirement to n values still meets its minValues. */
  predicate PinMeets(r: Requirement, n: nat) {
    r.minValues.None? || r.minValues.value <= n
  }

  datatype NarrowResult = Narrowed | CapacityTypeMinValues | NoCheapZone | ZoneMinValues

  /** A cheapest type of the claim as a spot claim, with the zones in which it costs less than the limit. */
  ghost predicate IsAnchor(anchor: InstanceType, claim: Claim, limit: real, wellKnown: set<string>) {
    var spot := SpotOnly(claim.requirements);
    && anchor in claim.options && CheapZones(anchor.offerings, spot, limit, wellKnown) != {}
    && forall it | it in claim.options :: NotAfter(BestPrice(anchor, spot, wellKnown), BestPrice(it, spot, wellKnown))
  }

  /** The anchor's cheap zones are enough for the claim's minValues. */
  predicate ZonesSuffice(anchor: InstanceType, claim: Claim, limit: real, wellKnown: set<string>) {
    var spot := SpotOnly(claim.requirements);
    var minValues := Get(spot, ZONE).minValues;
    minValues.None? || minValues.value <= |CheapZones(anchor.offerings, spot, limit, wellKnown)|
  }

  /** Spot in the anchor's cheap zones, with exactly the options that are below the limit there at their worst. */
  ghost predicate NarrowedTo(before: Claim, anchor: InstanceType, after: Claim, limit: real, wellKnown: set<string>) {
    var spot := SpotOnly(before.requirements);
    && after.requirements == InZones(spot, CheapZones(anchor.offerings, spot, limit, wellKnown))
    && forall it ::
         it in after.options <==> it in before.options && Under(LaunchPrice(it, after.requirements, wellKnown), limit)
  }

  /** What each outcome of narrowing means. */
  ghost predicate Narrows(before: Claim, r: NarrowResult, after: Claim, limit: real, wellKnown: set<string>) {
    var minValues := Get(before.requirements, CAPACITY_TYPE).minValues;
    if minValues.Some? && minValues.value > 1 then r.CapacityTypeMinValues?
    else
      match r
      case CapacityTypeMinValues => false
      case NoCheapZone =>
        forall it | it in before.options ::
          CheapZones(it.offerings, SpotOnly(before.requirements), limit, wellKnown) == {}
      case ZoneMinValues =>
        exists anchor :: IsAnchor(anchor, before, limit, wellKnown) && !ZonesSuffice(anchor, before, limit, wellKnown)
      case Narrowed =>
        exists anchor ::
          && IsAnchor(anchor, before, limit, wellKnown) && ZonesSuffice(anchor, before, limit, wellKnown)
          && NarrowedTo(before, anchor, after, limit, wellKnown)
          && (anchor in after.options <==> CheapThroughout(anchor.offerings, before.requirements, limit, wellKnown))
  }

  /** Types without an offering to launch into have no cheap zone and no best price. */
  lemma OnlyCompatible(it: InstanceType, reqs: Requirements, limit: real, wellKnown: set<string>)
    requires AllZoned(it.offerings, wellKnown) && !exists o :: o in it.offerings && Launchable(reqs, o, wellKnown)
    ensures CheapZones(it.offerings, reqs, limit, wellKnown) == {} && BestPrice(it, reqs, wellKnown).None?
  {
    var ps := OfferPrices(it.offerings, reqs, wellKnown);
    assert forall i | 0 <= i < |ps| :: it.offerings[i] in it.offerings && ps[i].None?;
    LeastIs(ps);
    CheapZonesIff(it, reqs, limit, wellKnown);
  }

  /** The anchor among the compatible types is one among all types. */
  lemma AnchorOfAll(claim: Claim, candidates: seq<InstanceType>, anchor: InstanceType, limit: real,
                    wellKnown: set<string>)
    requires forall it | it in claim.options :: AllZoned(it.offerings, wellKnown)
    requires candidates == CompatibleTypes(claim.options, SpotOnly(claim.requirements), wellKnown)
             && anchor in candidates
    requires CheapZones(anchor.offerings, SpotOnly(claim.requirements), limit, wellKnown) != {}
    requires var spot := SpotOnly(claim.requirements);
             forall it | it in candidates ::
               NotAfter(BestPrice(anchor, spot, wellKnown), BestPrice(it, spot, wellKnown))
    ensures IsAnchor(anchor, claim, limit, wellKnown)
  {
    var spot := SpotOnly(claim.requirements);
    forall it | it in claim.options
      ensures NotAfter(BestPrice(anchor, spot, wellKnown), BestPrice(it, spot, wellKnown))
    {
      if it !in candidates {
        OnlyCompatible(it, spot, limit, wellKnown);
      }
    }
  }

  lemma NoneOfAll(claim: Claim, candidates: seq<InstanceType>, limit: real, wellKnown: set<string>)
    requires forall it | it in claim.options :: AllZoned(it.offerings, wellKnown)
    requires candidates == CompatibleTypes(claim.options, SpotOnly(claim.requirements), wellKnown)
    requires forall it | it in candidates ::
               CheapZones(it.offerings, SpotOnly(claim.requirements), limit, wellKnown) == {}
    ensures forall it | it in claim.options ::
              CheapZones(it.offerings, SpotOnly(claim.requirements), limit, wellKnown) == {}
  {
    forall it | it in claim.options && it !in candidates
      ensures CheapZones(it.offerings, SpotOnly(claim.requirements), limit, wellKnown) == {}
    {
      OnlyCompatible(it, SpotOnly(claim.requirements), limit, wellKnown);
    }
  }

  /** A narrowed claim keeps its anchor exactly when the anchor has no dearer spot offering in the kept zones. */
  lemma KeepsAnchorIff(before: Claim, anchor: InstanceType, after: Claim, limit: real, wellKnown: set<string>)
    requires Consistent(before.requirements) && Narrowable(before.options, wellKnown)
    requires IsAnchor(anchor, before, limit, wellKnown) && NarrowedTo(before, anchor, after, limit, wellKnown)
    ensures anchor in after.options <==> CheapThroughout(anchor.offerings, before.requirements, limit, wellKnown)
    ensures OneSpotPerZoneEach(before.options) ==> anchor in after.options
  {
    AnchorSurvivesIff(anchor, before.requirements, limit, wellKnown);
    if OneSpotPerZoneEach(before.options) {
      AnchorSurvives(anchor, before.requirements, limit, wellKnown);
    }
  }

  /** A listed requirement carries at least as many values as its minValues, as the API server demands. */
  ghost predicate EnoughListed(r: Requirement) {
    !r.complement && (r.minValues.Some? ==> r.minValues.value <= |r.values|)
  }

  /** Adding a list of values that the key already admits lists exactly these, with the minValues that were there. */
  lemma PinnedValues(reqs: Requirements, key: string, values: set<string>)
    requires Consistent(reqs) && forall v | v in values :: Has(Get(reqs, key), v)
    ensures var r := Get(AddOne(reqs, PinAny(key, values)), key);
            !r.complement && r.values == values && r.minValues == Get(reqs, key).minValues
  {
    var pin := PinAny(key, values);
    if key in reqs {
      IntersectionMinValues(pin, reqs[key]);
      IntersectionDenotes(pin, reqs[key]);
      var r := Intersection(pin, reqs[key]);
      forall v ensures v in r.values <==> v in values {
        assert Has(r, v) <==> Has(pin, v) && Has(reqs[key], v);
      }
    }
  }

  /** The zones come from offerings the claim may launch into, so it admits them, and spot with them. */
  lemma CheapZonesAdmitted(ofs: seq<Offering>, reqs: Requirements, limit: real, wellKnown: set<string>, zone: string)
    requires Consistent(reqs) && AllZoned(ofs, wellKnown) && zone in CheapZones(ofs, SpotOnly(reqs), limit, wellKnown)
    ensures Has(Get(SpotOnly(reqs), ZONE), zone) && Has(Get(reqs, CAPACITY_TYPE), SPOT)
  {
    var o :| o in ofs && HasZone(o) && Launchable(SpotOnly(reqs), o, wellKnown) && o.price < limit && Zone(o) == zone;
    var ct, z :| Zoned(o, ct, z, wellKnown);
    ZonedHasZone(o, ct, z, wellKnown);
    AddOneConsistent(reqs, Pin(CAPACITY_TYPE, SPOT));
    CompatibleAdmits(SpotOnly(reqs), o, wellKnown, ZONE, z);
    SpotLaunch(reqs, o, ct, wellKnown);
    CompatibleAdmits(reqs, o, wellKnown, CAPACITY_TYPE, ct);
  }

  lemma SpotListed(reqs: Requirements)
    requires Consistent(reqs) && Has(Get(reqs, CAPACITY_TYPE), SPOT)
    ensures var r := Get(SpotOnly(reqs), CAPACITY_TYPE);
            !r.complement && r.values == {SPOT} && r.minValues == Get(reqs, CAPACITY_TYPE).minValues
  {
    assert Pin(CAPACITY_TYPE, SPOT) == PinAny(CAPACITY_TYPE, {SPOT}) by {
      assert (set v | v in [SPOT]) == {SPOT};
    }
    PinnedValues(reqs, CAPACITY_TYPE, {SPOT});
  }

  /**
   What the minValues checks are for: a claim that is narrowed lists at least as many capacity types
   and zones as its minValues ask for, so its launch is not refused.
   */
  lemma NarrowedIsLaunchable(before: Claim, anchor: InstanceType, after: Claim, limit: real, wellKnown: set<string>)
    requires Consistent(before.requirements) && Narrowable(before.options, wellKnown)
    requires IsAnchor(anchor, before, limit, wellKnown) && NarrowedTo(before, anchor, after, limit, wellKnown)
    ensures EnoughListed(Get(after.requirements, CAPACITY_TYPE)) <==>
            Get(before.requirements, CAPACITY_TYPE).minValues.None?
            || Get(before.requirements, CAPACITY_TYPE).minValues.value <= 1
    ensures EnoughListed(Get(after.requirements, ZONE)) <==> ZonesSuffice(anchor, before, limit, wellKnown)
  {
    var reqs := before.requirements;
    var zones := CheapZones(anchor.offerings, SpotOnly(reqs), limit, wellKnown);
    forall zone | zone in zones ensures Has(Get(SpotOnly(reqs), ZONE), zone) && Has(Get(reqs, CAPACITY_TYPE), SPOT) {
      CheapZonesAdmitted(anchor.offerings, reqs, limit, wellKnown, zone);
    }
    AddOneConsistent(reqs, Pin(CAPACITY_TYPE, SPOT));
    PinnedValues(SpotOnly(reqs), ZONE, zones);
    SpotListed(reqs);
    assert Get(after.requirements, CAPACITY_TYPE) == Get(SpotOnly(reqs), CAPACITY_TYPE);
  }

  /** A claim whose only type is its anchor, with zones enough for it, and is dropped when it is narrowed. */
  lemma AnchorCanBeLost(zone: string) returns (before: Claim, anchor: InstanceType, after: Claim)
    ensures var wellKnown := {CAPACITY_TYPE, ZONE};
            && IsAnchor(anchor, before, 5.0, wellKnown) && ZonesSuffice(anchor, before, 5.0, wellKnown)
            && NarrowedTo(before, anchor, after, 5.0, wellKnown)
    ensures Consistent(before.requirements) && before.options == [anchor] && after.options == []
  {
    anchor := TwoPrices(zone);
    before := Claim(map[], [anchor]);
    TwoPricesTooDear(zone);
    var spot := SpotOnly(map[]);
    after := Claim(InZones(spot, CheapZones(anchor.offerings, spot, 5.0, {CAPACITY_TYPE, ZONE})), []);
  }

  lemma NarrowedIs(before: Claim, anchor: InstanceType, after: Claim, limit: real, wellKnown: set<string>)
    requires Consistent(before.requirements) && Narrowable(before.options, wellKnown)
    requires IsAnchor(anchor, before, limit, wellKnown) && NarrowedTo(before, anchor, after, limit, wellKnown)
    ensures IsNarrowed(after, limit, wellKnown)
  {
    var zones := CheapZones(anchor.offerings, SpotOnly(before.requirements), limit, wellKnown);
    NarrowedNotMixed(before.requirements, zones);
    forall it | it in after.options ensures AllOffered(it.offerings, wellKnown) {
      ZonedOffered(it.offerings, wellKnown);
    }
  }

  /** What a narrowed claim is: spot only, and every option below the limit at its worst. */
  ghost predicate IsNarrowed(claim: Claim, limit: real, wellKnown: set<string>) {
    && Consistent(claim.requirements) && NotMixed(claim.requirements)
    && (forall it | it in claim.options ::
          AllOffered(it.offerings, wellKnown) && Under(LaunchPrice(it, claim.requirements, wellKnown), limit))
  }

  lemma ZonedOffered(ofs: seq<Offering>, wellKnown: set<string>)
    requires AllZoned(ofs, wellKnown)
    ensures AllOffered(ofs, wellKnown)
  {
    forall o | o in ofs ensures exists ct :: Offered(o, ct, wellKnown) {
      var ct, zone :| Zoned(o, ct, zone, wellKnown);
    }
  }

  /** A type with a worst launch price has an offering to launch into. */
  lemma PricedIsCompatible(it: InstanceType, reqs: Requirements, wellKnown: set<string>)
    requires LaunchPrice(it, reqs, wellKnown).Some?
    ensures exists o :: o in it.offerings && Launchable(reqs, o, wellKnown)
  {
    var ct := LaunchClass(it.offerings, reqs, wellKnown).value;
    var o := Class(it.offerings, reqs, ct, wellKnown)[0];
    assert o in Class(it.offerings, reqs, ct, wellKnown);
  }

  lemma CheapOffering(it: InstanceType, reqs: Requirements, limit: real, wellKnown: set<string>, i: nat)
    requires AllZoned(it.offerings, wellKnown) && i < |it.offerings|
    requires Launchable(reqs, it.offerings[i], wellKnown) && it.offerings[i].price < limit
    ensures CheapZones(it.offerings, reqs, limit, wellKnown) != {}
  {
    var o := it.offerings[i];
    assert o in it.offerings;
    var ct, zone :| Zoned(o, ct, zone, wellKnown);
    ZonedHasZone(o, ct, zone, wellKnown);
    assert Zone(o) in CheapZones(it.offerings, reqs, limit, wellKnown);
  }

  lemma CheapZoneOffering(it: InstanceType, reqs: Requirements, limit: real, wellKnown: set<string>) returns (i: nat)
    requires CheapZones(it.offerings, reqs, limit, wellKnown) != {}
    ensures i < |it.offerings| && Launchable(reqs, it.offerings[i], wellKnown) && it.offerings[i].price < limit
  {
    var z :| z in CheapZones(it.offerings, reqs, limit, wellKnown);
    var o :| o in it.offerings && HasZone(o) && Launchable(reqs, o, wellKnown) && o.price < limit && Zone(o) == z;
    i :| 0 <= i < |it.offerings| && it.offerings[i] == o;
  }

  /** A type has a cheap zone exactly when its best price is below the limit. */
  lemma CheapZonesIff(it: InstanceType, reqs: Requirements, limit: real, wellKnown: set<string>)
    requires AllZoned(it.offerings, wellKnown)
    ensures CheapZones(it.offerings, reqs, limit, wellKnown) != {} <==> Under(BestPrice(it, reqs, wellKnown), limit)
  {
    var ps := OfferPrices(it.offerings, reqs, wellKnown);
    LeastIs(ps);
    if Under(Least(ps), limit) {
      var i :| 0 <= i < |ps| && ps[i] == Least(ps);
      CheapOffering(it, reqs, limit, wellKnown, i);
    }
    if CheapZones(it.offerings, reqs, limit, wellKnown) != {} {
      var i := CheapZoneOffering(it, reqs, limit, wellKnown);
      assert ps[i] == Some(it.offerings[i].price);
    }
  }

  /** In price order, the first type with a cheap zone is the cheapest type. */
  lemma CheapestAnchor(ordered: seq<InstanceType>, reqs: Requirements, limit: real, wellKnown: set<string>, i: nat)
    requires i < |ordered| && SortedBy((it: InstanceType) => BestPrice(it, reqs, wellKnown), ordered)
    requires forall it | it in ordered :: AllZoned(it.offerings, wellKnown)
    requires CheapZones(ordered[i].offerings, reqs, limit, wellKnown) != {}
    requires forall k | 0 <= k < i :: CheapZones(ordered[k].offerings, reqs, limit, wellKnown) == {}
    ensures forall it | it in ordered ::
              NotAfter(BestPrice(ordered[i], reqs, wellKnown), BestPrice(it, reqs, wellKnown))
  {
    CheapZonesIff(ordered[i], reqs, limit, wellKnown);
    if i > 0 {
      CheapZonesIff(ordered[0], reqs, limit, wellKnown);
    }
  }

  /** The anchor loop: the cheap zones of the first type, in price order, that has any. */
  method AnchorZones(options: seq<InstanceType>, reqs: Requirements, limit: real, wellKnown: set<string>)
    returns (zones: set<string>, ghost anchor: Option<InstanceType>)
    requires forall it | it in options :: AllZoned(it.offerings, wellKnown)
    ensures zones == {} ==> forall it | it in options :: CheapZones(it.offerings, reqs, limit, wellKnown) == {}
    ensures zones != {} ==>
              && anchor.Some? && anchor.value in options
              && zones == CheapZones(anchor.value.offerings, reqs, limit, wellKnown)
              && forall it | it in options ::
                   NotAfter(BestPrice(anchor.value, reqs, wellKnown), BestPrice(it, reqs, wellKnown))
  {
    var ordered := OrderByPrice(options, reqs, wellKnown);
    SameMembers(ordered, options);
    for i := 0 to |ordered|
      invariant forall k | 0 <= k < i :: CheapZones(ordered[k].offerings, reqs, limit, wellKnown) == {}
    {
      zones := CheapZones(ordered[i].offerings, reqs, limit, wellKnown);
      if zones != {} {
        anchor := Some(ordered[i]);
        CheapestAnchor(ordered, reqs, limit, wellKnown, i);
        return;
      }
    }
    zones, anchor := {}, None;
    forall it | it in options ensures CheapZones(it.offerings, reqs, limit, wellKnown) == {} {
      assert it in ordered;
    }
  }

  /** `narrowClaimToCheapSpotZones`. */
  method NarrowClaim(nc: NodeClaim, limit: real, wellKnown: set<string>) returns (r: NarrowResult)
    requires Consistent(nc.requirements) && Narrowable(nc.options, wellKnown)
    modifies nc
    ensures Narrows(old(nc.Value()), r, nc.Value(), limit, wellKnown)
    ensures r.Narrowed? ==> IsNarrowed(nc.Value(), limit, wellKnown)
    ensures r.Narrowed? && OneSpotPerZoneEach(old(nc.options)) ==> nc.options != []
  {
    ghost var before := nc.Value();
    if !PinMeets(Get(nc.requirements, CAPACITY_TYPE), 1) {
      return CapacityTypeMinValues;
    }
    nc.requirements := SpotOnly(nc.requirements);
    var candidates := CompatibleTypes(nc.options, nc.requirements, wellKnown);
    var zones, anchor := AnchorZones(candidates, nc.requirements, limit, wellKnown);
    if zones == {} {
      NoneOfAll(before, candidates, limit, wellKnown);
      return NoCheapZone;
    }
    AnchorOfAll(before, candidates, anchor.value, limit, wellKnown);
    if !PinMeets(Get(nc.requirements, ZONE), |zones|) {
      assert !ZonesSuffice(anchor.value, before, limit, wellKnown);
      return ZoneMinValues;
    }
    nc.requirements := InZones(nc.requirements, zones);
    var kept := CheaperThan(CompatibleTypes(nc.options, nc.requirements, wellKnown), nc.requirements, limit, wellKnown);
    forall it | it in nc.options && Under(LaunchPrice(it, nc.requirements, wellKnown), limit) ensures it in kept {
      PricedIsCompatible(it, nc.requirements, wellKnown);
    }
    nc.options := OrderByPrice(kept, nc.requirements, wellKnown);
    SameMembers(nc.options, kept);
    assert NarrowedTo(before, anchor.value, nc.Value(), limit, wellKnown);
    assert ZonesSuffice(anchor.value, before, limit, wellKnown);
    KeepsAnchorIff(before, anchor.value, nc.Value(), limit, wellKnown);
    NarrowedIs(before, anchor.value, nc.Value(), limit, wellKnown);
    return Narrowed;
  }

  /** Claims whose options all cost less than an equal split of the limit are affordable together. */
  lemma NarrowedAffordable(claims: seq<Claim>, limit: real, wellKnown: set<string>)
    requires |claims| > 0 && !SomeEmpty(claims)
    requires forall i | 0 <= i < |claims| :: IsNarrowed(claims[i], limit / |claims| as real, wellKnown)
    ensures Under(CheapestTotal(claims, wellKnown), limit)
  {
    forall i | 0 <= i < |claims|
      ensures Under(Cheapest(claims[i].options, claims[i].requirements, wellKnown), limit / |claims| as real)
    {
      CheapestIs(claims[i].options, claims[i].requirements, wellKnown);
      assert claims[i].options[0] in claims[i].options;
    }
    assert AllPriced(claims, wellKnown);
    BelowSplit(CheapestPrices(claims, wellKnown), limit);
  }

  datatype RetryResult = Admitted | NotNarrowed(reason: NarrowResult) | NotKept(result: FilterResult)

  /** The claims as the retry finds them: their requirements, with their options restored. */
  ghost function Restored(claims: seq<NodeClaim>, snapshots: seq<seq<InstanceType>>): (r: seq<Claim>)
    requires |snapshots| == |claims|
    reads claims
    ensures |r| == |claims|
  {
    seq(|claims|, i requires 0 <= i < |claims| reads claims => Claim(claims[i].requirements, snapshots[i]))
  }

  ghost predicate NarrowedFrom(before: Claim, after: Claim, share: real, wellKnown: set<string>) {
    && Narrows(before, Narrowed, after, share, wellKnown) && IsNarrowed(after, share, wellKnown)
    && (OneSpotPerZoneEach(before.options) ==> after.options != [])
  }

  /** Why a claim could not be narrowed. */
  ghost predicate Stuck(before: Claim, reason: NarrowResult, share: real, wellKnown: set<string>) {
    !reason.Narrowed? && Narrows(before, reason, before, share, wellKnown)
  }

  /** The pairs before and after narrowing, as a relation. */
  ghost function Pairing(share: real, wellKnown: set<string>): (Claim, Claim) -> bool {
    (before: Claim, after: Claim) => NarrowedFrom(before, after, share, wellKnown)
  }

  ghost predicate Related(ok: (Claim, Claim) -> bool, xs: seq<Claim>, ys: seq<Claim>) {
    |xs| == |ys| && forall i | 0 <= i < |xs| :: ok(xs[i], ys[i])
  }

  lemma RelatedNext(ok: (Claim, Claim) -> bool, xs: seq<Claim>, ys: seq<Claim>, y: Claim)
    requires |ys| < |xs| && Related(ok, xs[..|ys|], ys) && ok(xs[|ys|], y)
    ensures Related(ok, xs[..|ys| + 1], ys + [y])
  {
  }

  /** Has the first claims narrowed and the rest as they were. */
  ghost predicate NarrowedSoFar(narrowed: seq<Claim>, before: seq<Claim>, now: seq<Claim>) {
    && |narrowed| <= |now| == |before|
    && (forall k | 0 <= k < |narrowed| :: now[k] == narrowed[k])
    && (forall k | |narrowed| <= k < |now| :: now[k] == before[k])
  }

  lemma NarrowedNext(narrowed: seq<Claim>, before: seq<Claim>, now: seq<Claim>, after: Claim)
    requires NarrowedSoFar(narrowed, before, now) && |narrowed| < |now|
    ensures NarrowedSoFar(narrowed + [after], before, now[|narrowed| := after])
  {
  }

  method NarrowAt(claims: seq<NodeClaim>, i: nat, snapshot: seq<InstanceType>, share: real, wellKnown: set<string>)
    returns (r: NarrowResult, ghost after: Claim)
    requires DistinctClaims(claims) && i < |claims|
    requires Consistent(claims[i].requirements) && Narrowable(snapshot, wellKnown)
    modifies claims[i]
    ensures Values(claims) == old(Values(claims))[i := after]
    ensures r.Narrowed? ==> Pairing(share, wellKnown)(Claim(old(claims[i].requirements), snapshot), after)
    ensures !r.Narrowed? ==> Stuck(Claim(old(claims[i].requirements), snapshot), r, share, wellKnown)
  {
    ghost var v := Values(claims);
    assert forall k | 0 <= k < |claims| && k != i :: claims[k] != claims[i] && claims[k].Value() == v[k];
    claims[i].options := snapshot;
    assert claims[i].Value() == Claim(claims[i].requirements, snapshot);
    r := NarrowClaim(claims[i], share, wellKnown);
    after := claims[i].Value();
    OneChanged(claims, v, i);
  }

  /** The narrowing loop: it stops at the first claim that cannot be narrowed. */
  method NarrowAll(claims: seq<NodeClaim>, snapshots: seq<seq<InstanceType>>, share: real, wellKnown: set<string>)
    returns (r: NarrowResult, ghost narrowed: seq<Claim>)
    requires DistinctClaims(claims) && |snapshots| == |claims|
    requires forall i | 0 <= i < |claims| :: Consistent(claims[i].requirements) && Narrowable(snapshots[i], wellKnown)
    modifies claims
    ensures |narrowed| <= |claims|
    ensures Related(Pairing(share, wellKnown), old(Restored(claims, snapshots))[..|narrowed|], narrowed)
    ensures r.Narrowed? ==> Values(claims) == narrowed
    ensures !r.Narrowed? ==>
            |narrowed| < |claims| && Stuck(old(Restored(claims, snapshots))[|narrowed|], r, share, wellKnown)
  {
    ghost var v, before, ok := Values(claims), Restored(claims, snapshots), Pairing(share, wellKnown);
    narrowed := [];
    for i := 0 to |claims|
      invariant |narrowed| == i && NarrowedSoFar(narrowed, v, Values(claims))
      invariant Related(ok, before[..i], narrowed)
    {
      ghost var now, after := Values(claims), v[i];
      assert claims[i].Value() == now[i] == v[i];
      r, after := NarrowAt(claims, i, snapshots[i], share, wellKnown);
      if !r.Narrowed? {
        return r, narrowed;
      }
      RelatedNext(ok, before, narrowed, after);
      NarrowedNext(narrowed, v, now, after);
      narrowed := narrowed + [after];
    }
    r := Narrowed;
  }

  /** What each outcome of the retry means. */
  ghost predicate Retried(before: seq<Claim>, r: RetryResult, narrowed: seq<Claim>, budget: PriceBudget,
                          wellKnown: set<string>)
    requires |before| > 0
  {
    var share := budget.Limit() / |before| as real;
    && |narrowed| <= |before| && Related(Pairing(share, wellKnown), before[..|narrowed|], narrowed)
    && match r
       case NotNarrowed(reason) => |narrowed| < |before| && Stuck(before[|narrowed|], reason, share, wellKnown)
       case NotKept(result) =>
         && |narrowed| == |before|
         && if SomeEmpty(narrowed) then result == NoCompatibleReplacement
            else result == MinValuesUnmet && SomeUnmet(narrowed, budget.Limit(), wellKnown)
       case Admitted => |narrowed| == |before| && !SomeEmpty(narrowed)
                        && !SomeUnmet(narrowed, budget.Limit(), wellKnown)
  }

  /**
   The retry: `retrySpotZoneNarrowedReplacements`. If every claim could be narrowed, the filter that
   follows fails because an anchor was lost and nothing else survived, or on minValues, never on price;
   what it keeps is the filtered form of the narrowed claims.
   */
  method RetryNarrowed(claims: seq<NodeClaim>, snapshots: seq<seq<InstanceType>>, budget: PriceBudget,
                       wellKnown: set<string>)
    returns (r: RetryResult, ghost narrowed: seq<Claim>)
    requires DistinctClaims(claims) && |snapshots| == |claims| > 0
    requires forall i | 0 <= i < |claims| :: Consistent(claims[i].requirements) && Narrowable(snapshots[i], wellKnown)
    modifies claims
    ensures Retried(old(Restored(claims, snapshots)), r, narrowed, budget, wellKnown)
    ensures r.Admitted? ==>
            Values(claims) == Filtered(narrowed, budget.Limit(), wellKnown) && !SomeEmpty(Values(claims))
  {
    var n: NarrowResult;
    n, narrowed := NarrowAll(claims, snapshots, budget.Limit() / |claims| as real, wellKnown);
    if !n.Narrowed? {
      return NotNarrowed(n), narrowed;
    }
    if !SomeEmpty(narrowed) {
      NarrowedAffordable(narrowed, budget.Limit(), wellKnown);
    }
    var result := FilterReplacements(claims, budget.Limit(), wellKnown);
    if result != AllKept {
      return NotKept(result), narrowed;
    }
    return Admitted, narrowed;
  }

  /** With one spot offering per zone and type, only minValues can stop a retry whose claims were all narrowed. */
  lemma OnlyMinValuesStop(before: seq<Claim>, r: RetryResult, narrowed: seq<Claim>, budget: PriceBudget,
                          wellKnown: set<string>)
    requires |before| > 0 && Retried(before, r, narrowed, budget, wellKnown) && r.NotKept?
    requires forall i | 0 <= i < |before| :: OneSpotPerZoneEach(before[i].options)
    ensures r.result == MinValuesUnmet && SomeUnmet(narrowed, budget.Limit(), wellKnown)
  {
    assert before[..|narrowed|] == before;
  }

  /** The same claims with shorter lists of options. */
  ghost predicate Shortened(kept: seq<Claim>, full: seq<Claim>) {
    |kept| == |full| && forall i | 0 <= i < |kept| :: ShortenedAt(kept[i], full[i])
  }

  ghost predicate ShortenedAt(kept: Claim, full: Claim) {
    kept.requirements == full.requirements && kept.options <= full.options
  }

  /** `retrySpotOnlyReplacements`: an admitted retry is cut down to the cheapest options of each claim. */
  method RetrySpotOnly(claims: seq<NodeClaim>, snapshots: seq<seq<InstanceType>>, budget: PriceBudget,
                       wellKnown: set<string>, spotLaunchCap: nat)
    returns (r: RetryResult, ghost narrowed: seq<Claim>)
    requires DistinctClaims(claims) && |snapshots| == |claims| > 0
    requires forall i | 0 <= i < |claims| :: Consistent(claims[i].requirements) && Narrowable(snapshots[i], wellKnown)
    modifies claims
    ensures Retried(old(Restored(claims, snapshots)), r, narrowed, budget, wellKnown)
    ensures r.Admitted? ==> Shortened(Values(claims), Filtered(narrowed, budget.Limit(), wellKnown))
    ensures r.Admitted? && spotLaunchCap > 0 ==> !SomeEmpty(Values(claims))
  {
    r, narrowed := RetryNarrowed(claims, snapshots, budget, wellKnown);
    if r.Admitted? {
      TruncateAll(claims, spotLaunchCap);
    }
  }

  method TruncateAll(claims: seq<NodeClaim>, maxOptions: nat)
    requires DistinctClaims(claims)
    modifies claims
    ensures Shortened(Values(claims), old(Values(claims)))
    ensures maxOptions > 0 && !SomeEmpty(old(Values(claims))) ==> !SomeEmpty(Values(claims))
  {
    ghost var full := Values(claims);
    for i := 0 to |claims|
      invariant forall k | 0 <= k < i :: ShortenedAt(claims[k].Value(), full[k])
      invariant forall k | 0 <= k < i && maxOptions > 0 && full[k].options != [] :: claims[k].options != []
      invariant forall k | i <= k < |claims| :: claims[k].Value() == full[k]
    {
      assert forall k | 0 <= k < |claims| && k != i :: claims[k] != claims[i];
      claims[i].Truncate(maxOptions);
    }
  }

  /** Any launch of an admitted retry, whole or cut down, costs less than the limit. */
  lemma RetryLaunchTotal(narrowed: seq<Claim>, kept: seq<Claim>, budget: PriceBudget, wellKnown: set<string>,
                         picks: seq<InstanceType>, ofs: seq<Offering>)
    requires |narrowed| > 0
    requires forall i | 0 <= i < |narrowed| :: IsNarrowed(narrowed[i], budget.Limit() / |narrowed| as real, wellKnown)
    requires Shortened(kept, Filtered(narrowed, budget.Limit(), wellKnown))
    requires Chooses(kept, picks) && Lands(narrowed, picks, wellKnown, ofs)
    ensures Sum(Prices(ofs)) + budget.minSavings * budget.candidatePrice < budget.candidatePrice
  {
    ShorterChooses(kept, Filtered(narrowed, budget.Limit(), wellKnown), picks);
    forall i | 0 <= i < |narrowed| ensures WellPriced(narrowed[i], wellKnown) {
      forall it | it in narrowed[i].options
        ensures PricedAsLaunched(it.offerings, narrowed[i].requirements, wellKnown)
      {
        NotMixedPricedAsLaunched(it.offerings, narrowed[i].requirements, wellKnown);
      }
    }
    LaunchTotal(narrowed, budget.Limit(), wellKnown, picks, ofs);
  }

  lemma ShorterChooses(kept: seq<Claim>, full: seq<Claim>, picks: seq<InstanceType>)
    requires Shortened(kept, full) && Chooses(kept, picks)
    ensures Chooses(full, picks)
  {
    forall i | 0 <= i < |full| ensures picks[i] in full[i].options {
      assert ShortenedAt(kept[i], full[i]) && picks[i] in kept[i].options;
    }
  }
}
