/**
 Narrowing a spot claim to the zones where its cheapest type is cheap
 (`narrowClaimToCheapSpotZones` in pkg/controllers/disruption/consolidation.go), on values: which
 zones are kept, and when the anchor type survives the re-pricing.
 */
module Narrowing {
  import opened Wrappers
  import opened Requirement
  import opened Requirements
  import opened Offerings
  import opened Pricing

  /** An offering names its capacity type and its zone. */
  ghost predicate Zoned(o: Offering, ct: string, zone: string, wellKnown: set<string>) {
    Offered(o, ct, wellKnown) && Names(o.requirements, ZONE, zone) && ZONE in wellKnown
  }

  ghost predicate AllZoned(ofs: seq<Offering>, wellKnown: set<string>) {
    forall o | o in ofs :: exists ct, zone :: Zoned(o, ct, zone, wellKnown)
  }

  /** At most one available spot offering per zone. */
  ghost predicate OneSpotPerZone(ofs: seq<Offering>) {
    forall o, p, zone | o in ofs && p in ofs && o.available && p.available
                        && Names(o.requirements, CAPACITY_TYPE, SPOT) && Names(p.requirements, CAPACITY_TYPE, SPOT)
                        && Names(o.requirements, ZONE, zone) && Names(p.requirements, ZONE, zone) :: o == p
  }

  /** Every offering of every type names its capacity type and its zone. */
  ghost predicate Narrowable(options: seq<InstanceType>, wellKnown: set<string>) {
    forall it | it in options :: AllZoned(it.offerings, wellKnown)
  }

  ghost predicate OneSpotPerZoneEach(options: seq<InstanceType>) {
    forall it | it in options :: OneSpotPerZone(it.offerings)
  }

  predicate HasZone(o: Offering) {
    ZONE in o.requirements && |o.requirements[ZONE].values| == 1
  }

  /** The zone label's value; `Offering.Zone` on an offering that names one. */
  function Zone(o: Offering): (z: string)
    requires HasZone(o)
    ensures o.requirements[ZONE].values == {z}
  {
    SingletonMember(o.requirements[ZONE].values);
    var z :| z in o.requirements[ZONE].values;
    z
  }

  lemma SingletonMember(s: set<string>)
    requires |s| == 1
    ensures exists z :: s == {z}
    ensures forall x, y | x in s && y in s :: x == y
  {
    var z :| z in s;
    assert |s - {z}| == 0;
    assert s == {z};
  }

  lemma ZonedHasZone(o: Offering, ct: string, zone: string, wellKnown: set<string>)
    requires Zoned(o, ct, zone, wellKnown)
    ensures HasZone(o) && Zone(o) == zone
  {
    assert zone in {Zone(o)};
  }

  function CheapZones(ofs: seq<Offering>, reqs: Requirements, limit: real, wellKnown: set<string>): set<string> {
    set o | o in ofs && HasZone(o) && Launchable(reqs, o, wellKnown) && o.price < limit :: Zone(o)
  }

  /** The zones of the available offerings that the requirements allow and that cost less than the limit. */
  lemma CheapZonesAre(ofs: seq<Offering>, reqs: Requirements, limit: real, wellKnown: set<string>, zone: string)
    requires AllZoned(ofs, wellKnown)
    ensures zone in CheapZones(ofs, reqs, limit, wellKnown) <==>
            exists o :: o in ofs && o.available && IsCompatible(reqs, o.requirements, wellKnown) && o.price < limit
                        && Names(o.requirements, ZONE, zone)
  {
    forall o | o in ofs ensures HasZone(o) && (Zone(o) == zone <==> Names(o.requirements, ZONE, zone)) {
      var ct, z :| Zoned(o, ct, z, wellKnown);
      ZonedHasZone(o, ct, z, wellKnown);
      assert Names(o.requirements, ZONE, zone) ==> zone in {z};
    }
  }

  function SpotOnly(reqs: Requirements): Requirements {
    AddOne(reqs, Pin(CAPACITY_TYPE, SPOT))
  }

  function InZones(reqs: Requirements, zones: set<string>): Requirements {
    AddOne(reqs, PinAny(ZONE, zones))
  }

  lemma SpotLaunch(reqs: Requirements, o: Offering, ct: string, wellKnown: set<string>)
    requires Consistent(reqs) && Offered(o, ct, wellKnown)
    ensures Consistent(SpotOnly(reqs))
    ensures Compatible(SpotOnly(reqs), o, wellKnown) <==> Compatible(reqs, o, wellKnown) && ct == SPOT
  {
    AddOneConsistent(reqs, Pin(CAPACITY_TYPE, SPOT));
    PinNarrows(reqs, o, wellKnown, CAPACITY_TYPE, SPOT, ct);
  }

  /** Where the doubly narrowed claim may land: spot, compatible, and in a kept zone. */
  lemma NarrowedLaunch(reqs: Requirements, zones: set<string>, o: Offering, ct: string, zone: string,
                       wellKnown: set<string>)
    requires Consistent(reqs) && Zoned(o, ct, zone, wellKnown)
    ensures Compatible(InZones(SpotOnly(reqs), zones), o, wellKnown) <==>
            Compatible(reqs, o, wellKnown) && ct == SPOT && zone in zones
  {
    SpotLaunch(reqs, o, ct, wellKnown);
    PinAnyNarrows(SpotOnly(reqs), o, wellKnown, ZONE, zones, zone);
  }

  /** A claim narrowed to spot is priced at spot. */
  lemma NarrowedClass(ofs: seq<Offering>, reqs: Requirements, zones: set<string>, ct: string, o: Offering,
                      wellKnown: set<string>)
    requires Consistent(reqs) && AllZoned(ofs, wellKnown)
    requires o in Class(ofs, InZones(SpotOnly(reqs), zones), ct, wellKnown)
    ensures ct == SPOT && HasZone(o) && Zone(o) in zones && Launchable(SpotOnly(reqs), o, wellKnown)
    ensures Names(o.requirements, CAPACITY_TYPE, SPOT) && Names(o.requirements, ZONE, Zone(o))
  {
    var narrowed := InZones(SpotOnly(reqs), zones);
    assert o in ofs;
    var c, zone :| Zoned(o, c, zone, wellKnown);
    InClassExact(narrowed, ct, o, c, wellKnown);
    NarrowedLaunch(reqs, zones, o, c, zone, wellKnown);
    SpotLaunch(reqs, o, c, wellKnown);
    ZonedHasZone(o, c, zone, wellKnown);
  }

  /** In its own cheap zones every spot offering of the anchor is cheap. */
  lemma CheapInZones(ofs: seq<Offering>, reqs: Requirements, limit: real, wellKnown: set<string>, o: Offering)
    requires OneSpotPerZone(ofs) && AllZoned(ofs, wellKnown) && Consistent(reqs)
    requires o in ofs && o.available && HasZone(o) && Zone(o) in CheapZones(ofs, SpotOnly(reqs), limit, wellKnown)
    requires Names(o.requirements, CAPACITY_TYPE, SPOT) && Names(o.requirements, ZONE, Zone(o))
    ensures o.price < limit
  {
    var p :| p in ofs && HasZone(p) && Launchable(SpotOnly(reqs), p, wellKnown)
             && p.price < limit && Zone(p) == Zone(o);
    var ct, zone :| Zoned(p, ct, zone, wellKnown);
    ZonedHasZone(p, ct, zone, wellKnown);
    SpotLaunch(reqs, p, ct, wellKnown);
    assert o == p;
  }

  /** In the zones where some spot offering is cheap, every spot offering the claim may launch into is. */
  ghost predicate CheapThroughout(ofs: seq<Offering>, reqs: Requirements, limit: real, wellKnown: set<string>) {
    forall o | o in ofs && HasZone(o) && Launchable(SpotOnly(reqs), o, wellKnown)
               && Zone(o) in CheapZones(ofs, SpotOnly(reqs), limit, wellKnown) :: o.price < limit
  }

  /** A claim narrowed to spot zones that some spot offering is in has no other class. */
  lemma SpotIsLaunched(ofs: seq<Offering>, reqs: Requirements, zones: set<string>, o: Offering, wellKnown: set<string>)
    requires Consistent(reqs) && AllZoned(ofs, wellKnown) && o in ofs
    requires HasZone(o) && Zone(o) in zones && Launchable(SpotOnly(reqs), o, wellKnown)
    ensures LaunchClass(ofs, InZones(SpotOnly(reqs), zones), wellKnown) == Some(SPOT)
  {
    var narrowed := InZones(SpotOnly(reqs), zones);
    SpotMember(ofs, reqs, zones, o, wellKnown);
    if Class(ofs, narrowed, RESERVED, wellKnown) != [] {
      NarrowedClass(ofs, reqs, zones, RESERVED, Class(ofs, narrowed, RESERVED, wellKnown)[0], wellKnown);
    }
  }

  /** The spot offerings a narrowed claim may launch into. */
  lemma SpotClassIs(ofs: seq<Offering>, reqs: Requirements, zones: set<string>, o: Offering, wellKnown: set<string>)
    requires Consistent(reqs) && AllZoned(ofs, wellKnown)
    ensures o in Class(ofs, InZones(SpotOnly(reqs), zones), SPOT, wellKnown) <==>
            o in ofs && HasZone(o) && Launchable(SpotOnly(reqs), o, wellKnown) && Zone(o) in zones
  {
    if o in Class(ofs, InZones(SpotOnly(reqs), zones), SPOT, wellKnown) {
      NarrowedClass(ofs, reqs, zones, SPOT, o, wellKnown);
    } else if o in ofs && HasZone(o) && Launchable(SpotOnly(reqs), o, wellKnown) && Zone(o) in zones {
      SpotMember(ofs, reqs, zones, o, wellKnown);
    }
  }

  /**
   The anchor survives: narrowed to its own cheap zones, its worst launch price is below the limit it
   was cheap under, exactly when it has no dearer spot offering in those zones.
   */
  lemma AnchorSurvivesIff(it: InstanceType, reqs: Requirements, limit: real, wellKnown: set<string>)
    requires Consistent(reqs) && AllZoned(it.offerings, wellKnown)
    requires CheapZones(it.offerings, SpotOnly(reqs), limit, wellKnown) != {}
    ensures var zones := CheapZones(it.offerings, SpotOnly(reqs), limit, wellKnown);
            Under(LaunchPrice(it, InZones(SpotOnly(reqs), zones), wellKnown), limit) <==>
            CheapThroughout(it.offerings, reqs, limit, wellKnown)
  {
    var ofs := it.offerings;
    var zones := CheapZones(ofs, SpotOnly(reqs), limit, wellKnown);
    var z :| z in zones;
    var o :| o in ofs && HasZone(o) && Launchable(SpotOnly(reqs), o, wellKnown) && o.price < limit && Zone(o) == z;
    SpotIsLaunched(ofs, reqs, zones, o, wellKnown);
    forall p {
      SpotClassIs(ofs, reqs, zones, p, wellKnown);
    }
    var worst := MostExpensive(Class(ofs, InZones(SpotOnly(reqs), zones), SPOT, wellKnown));
    assert LaunchPrice(it, InZones(SpotOnly(reqs), zones), wellKnown) == Some(worst);
  }

  /** With one spot offering per zone the anchor always survives. */
  lemma AnchorSurvives(it: InstanceType, reqs: Requirements, limit: real, wellKnown: set<string>)
    requires Consistent(reqs) && AllZoned(it.offerings, wellKnown) && OneSpotPerZone(it.offerings)
    requires CheapZones(it.offerings, SpotOnly(reqs), limit, wellKnown) != {}
    ensures var zones := CheapZones(it.offerings, SpotOnly(reqs), limit, wellKnown);
            Under(LaunchPrice(it, InZones(SpotOnly(reqs), zones), wellKnown), limit)
  {
    AnchorSurvivesIff(it, reqs, limit, wellKnown);
    forall o | o in it.offerings && HasZone(o) && Launchable(SpotOnly(reqs), o, wellKnown)
               && Zone(o) in CheapZones(it.offerings, SpotOnly(reqs), limit, wellKnown)
      ensures o.price < limit
    {
      var ct, zone :| Zoned(o, ct, zone, wellKnown);
      ZonedHasZone(o, ct, zone, wellKnown);
      SpotLaunch(reqs, o, ct, wellKnown);
      CheapInZones(it.offerings, reqs, limit, wellKnown, o);
    }
  }

  lemma SpotMember(ofs: seq<Offering>, reqs: Requirements, zones: set<string>, o: Offering, wellKnown: set<string>)
    requires Consistent(reqs) && AllZoned(ofs, wellKnown) && o in ofs
    requires HasZone(o) && Zone(o) in zones && Launchable(SpotOnly(reqs), o, wellKnown)
    ensures o in Class(ofs, InZones(SpotOnly(reqs), zones), SPOT, wellKnown)
  {
    var ct, zone :| Zoned(o, ct, zone, wellKnown);
    ZonedHasZone(o, ct, zone, wellKnown);
    SpotLaunch(reqs, o, ct, wellKnown);
    NarrowedLaunch(reqs, zones, o, ct, zone, wellKnown);
    InClassExact(InZones(SpotOnly(reqs), zones), SPOT, o, ct, wellKnown);
  }

  /** A narrowed claim admits spot only, so it is priced as it launches. */
  lemma NarrowedNotMixed(reqs: Requirements, zones: set<string>)
    requires Consistent(reqs)
    ensures Consistent(InZones(SpotOnly(reqs), zones)) && NotMixed(InZones(SpotOnly(reqs), zones))
  {
    var pin := Pin(CAPACITY_TYPE, SPOT);
    AddOneConsistent(reqs, pin);
    AddOneConsistent(SpotOnly(reqs), PinAny(ZONE, zones));
    if CAPACITY_TYPE in reqs {
      IntersectionDenotes(pin, reqs[CAPACITY_TYPE]);
    }
    assert InZones(SpotOnly(reqs), zones)[CAPACITY_TYPE] == SpotOnly(reqs)[CAPACITY_TYPE];
    assert !Has(pin, RESERVED) && !Has(pin, ON_DEMAND);
  }

  function SpotIn(zone: string, price: real): Offering {
    Offering(map[CAPACITY_TYPE := Pin(CAPACITY_TYPE, SPOT), ZONE := Pin(ZONE, zone)], price, true)
  }

  lemma SpotInIs(zone: string, price: real)
    ensures Zoned(SpotIn(zone, price), SPOT, zone, {CAPACITY_TYPE, ZONE})
    ensures HasZone(SpotIn(zone, price)) && Zone(SpotIn(zone, price)) == zone
    ensures Launchable(SpotOnly(map[]), SpotIn(zone, price), {CAPACITY_TYPE, ZONE})
  {
    var o, wellKnown := SpotIn(zone, price), {CAPACITY_TYPE, ZONE};
    assert Pin(CAPACITY_TYPE, SPOT).values == {SPOT} && Pin(ZONE, zone).values == {zone};
    assert Zoned(o, SPOT, zone, wellKnown);
    ZonedHasZone(o, SPOT, zone, wellKnown);
    SpotLaunch(map[], o, SPOT, wellKnown);
  }

  /** A type with a cheap and a dear spot offering in one zone. */
  function TwoPrices(zone: string): InstanceType {
    InstanceType("type", map[], [SpotIn(zone, 1.0), SpotIn(zone, 9.0)])
  }

  /** Narrowed to its own cheap zones, it is priced at the dear one. */
  lemma TwoPricesTooDear(zone: string)
    ensures AllZoned(TwoPrices(zone).offerings, {CAPACITY_TYPE, ZONE})
    ensures var zones := CheapZones(TwoPrices(zone).offerings, SpotOnly(map[]), 5.0, {CAPACITY_TYPE, ZONE});
            && zone in zones
            && !Under(LaunchPrice(TwoPrices(zone), InZones(SpotOnly(map[]), zones), {CAPACITY_TYPE, ZONE}), 5.0)
  {
    var it, wellKnown := TwoPrices(zone), {CAPACITY_TYPE, ZONE};
    SpotInIs(zone, 1.0);
    SpotInIs(zone, 9.0);
    assert it.offerings[0] in it.offerings && it.offerings[1] in it.offerings;
    assert zone in CheapZones(it.offerings, SpotOnly(map[]), 5.0, wellKnown);
    AnchorSurvivesIff(it, map[], 5.0, wellKnown);
  }
}
