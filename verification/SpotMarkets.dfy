/**
 Restricting a spot replacement to markets it can launch in (`spotReplacementMarkets` and
 `launchableSpotReplacementMarkets` in pkg/controllers/disruption/consolidation.go). A claim carries
 one zone set for all of its types, so types and zones must be chosen together.
 */
module SpotMarkets {
  import opened Wrappers
  import opened Pricing
  import opened Sorting

  /**
   An available offering of a type: what `Offering.Zone` returns for it, and the verdicts on it:
   compatible with the claim, admitted by the provider's advisor, and large enough for the requests.
   The zone is "" when the offering's zone requirement is DoesNotExist. An offering without any zone
   requirement is given an arbitrary numeral as its zone.
   */
  datatype Offer = Offer(zone: string, price: real, compatible: bool, advised: bool, fits: bool)

  /** The verdict on one type. */
  datatype Market = Market(admitted: set<string>, rejected: set<string>, price: Option<real>)

  predicate IsAdmitted(o: Offer) {
    o.compatible && o.advised && o.fits
  }

  predicate IsRejected(o: Offer) {
    o.compatible && !(o.advised && o.fits)
  }

  function AdmittedPrices(offers: seq<Offer>): (r: seq<Option<real>>)
    ensures |r| == |offers|
  {
    seq(|offers|, i requires 0 <= i < |offers| => if IsAdmitted(offers[i]) then Some(offers[i].price) else None)
  }

  function MarketOf(offers: seq<Offer>): Market {
    Market(set o | o in offers && IsAdmitted(o) :: o.zone, set o | o in offers && IsRejected(o) :: o.zone,
           Least(AdmittedPrices(offers)))
  }

  /** One type's loop of `spotReplacementMarkets`; `rejected` counts what the advisor turned down. */
  method Appraise(offers: seq<Offer>) returns (m: Market, rejected: nat)
    ensures m == MarketOf(offers)
    ensures rejected > 0 <==> Refused(offers)
  {
    m, rejected := Market({}, {}, None), 0;
    for i := 0 to |offers|
      invariant m == MarketOf(offers[..i]) && (rejected > 0 <==> Refused(offers[..i]))
    {
      var o := offers[i];
      MarketNext(offers, i);
      if !o.compatible {
        continue;
      }
      if !o.advised {
        rejected := rejected + 1;
        m := m.(rejected := m.rejected + {o.zone});
        continue;
      }
      if !o.fits {
        m := m.(rejected := m.rejected + {o.zone});
        continue;
      }
      var price := if m.price.Some? && m.price.value <= o.price then m.price else Some(o.price);
      m := m.(admitted := m.admitted + {o.zone}, price := price);
    }
    assert offers[..|offers|] == offers;
  }

  /** The advisor turned a compatible offering down. */
  predicate Refused(offers: seq<Offer>) {
    exists o :: o in offers && o.compatible && !o.advised
  }

  lemma MarketNext(offers: seq<Offer>, i: nat)
    requires i < |offers|
    ensures var m, n, o := MarketOf(offers[..i]), MarketOf(offers[..i + 1]), offers[i];
            && n.admitted == m.admitted + (if IsAdmitted(o) then {o.zone} else {})
            && n.rejected == m.rejected + (if IsRejected(o) then {o.zone} else {})
            && n.price ==
               if !IsAdmitted(o) || (m.price.Some? && m.price.value <= o.price) then m.price else Some(o.price)
    ensures Refused(offers[..i + 1]) <==> Refused(offers[..i]) || (offers[i].compatible && !offers[i].advised)
  {
    var front, all := offers[..i], offers[..i + 1];
    assert all == front + [offers[i]];
    var ps := AdmittedPrices(all);
    assert ps[..i] == AdmittedPrices(front);
  }

  /** The zones a type may be launched in without touching a rejected market. */
  function GoodZones(m: Market): set<string> {
    m.admitted - m.rejected - {""}
  }

  predicate IsUsable(m: Market) {
    GoodZones(m) != {}
  }

  /** Whether a type stays when the claim is pinned to these zones. */
  predicate Survives(m: Market, zones: set<string>) {
    m.admitted * zones != {} && m.rejected * zones == {} && "" !in m.rejected
  }

  function Survivors(markets: seq<Market>, zones: set<string>): (r: seq<nat>)
    ensures forall t: nat :: t in r <==> t < |markets| && Survives(markets[t], zones)
    ensures forall i, j | 0 <= i < j < |r| :: r[i] < r[j]
  {
    if markets == [] then []
    else
      var n := |markets| - 1;
      var front := Survivors(markets[..n], zones);
      assert forall t: nat | t < n :: markets[..n][t] == markets[t];
      assert forall k | 0 <= k < |front| :: front[k] in front && front[k] < n;
      if Survives(markets[n], zones) then front + [n] else front
  }

  /** t is the cheapest type with a zone it can launch in: the type the zone set is anchored on. */
  ghost predicate IsAnchor(markets: seq<Market>, t: nat) {
    && t < |markets| && IsUsable(markets[t])
    && forall u | 0 <= u < |markets| && IsUsable(markets[u]) :: NotAfter(markets[t].price, markets[u].price)
  }

  /** The anchor is rejected where its zone reads as empty, and no other type survives in its zones. */
  ghost predicate Shadows(markets: seq<Market>, t: nat)
    requires t < |markets|
  {
    && "" in markets[t].rejected
    && forall u | 0 <= u < |markets| && u != t :: !Survives(markets[u], GoodZones(markets[t]))
  }

  /** A type survives in its own good zones exactly when it is not rejected at the empty zone. */
  lemma AnchorSurvivesIff(m: Market)
    requires IsUsable(m)
    ensures Survives(m, GoodZones(m)) <==> "" !in m.rejected
  {
    var z :| z in GoodZones(m);
    assert z in m.admitted * GoodZones(m);
    assert m.rejected * GoodZones(m) == {};
  }

  /** Anchored on t, the search comes back without a type exactly when t shadows every type. */
  lemma EmptyIff(markets: seq<Market>, t: nat)
    requires t < |markets| && IsUsable(markets[t])
    ensures Survivors(markets, GoodZones(markets[t])) == [] <==> Shadows(markets, t)
  {
    AnchorSurvivesIff(markets[t]);
    var types := Survivors(markets, GoodZones(markets[t]));
    assert types != [] ==> types[0] in types;
    assert Survives(markets[t], GoodZones(markets[t])) ==> t in types;
    assert forall u: nat | u < |markets| && Survives(markets[u], GoodZones(markets[t])) :: u in types;
  }

  method Anchors(markets: seq<Market>) returns (anchors: seq<nat>)
    ensures forall t: nat :: t in anchors <==> t < |markets| && markets[t].admitted != {}
    ensures forall i, j | 0 <= i < j < |anchors| :: NotAfter(PriceOf(markets, anchors[i]), PriceOf(markets, anchors[j]))
  {
    var unsorted: seq<nat> := [];
    for i := 0 to |markets|
      invariant forall t: nat :: t in unsorted <==> t < i && markets[t].admitted != {}
    {
      if markets[i].admitted != {} {
        unsorted := unsorted + [i];
      }
    }
    anchors := SortBy((t: nat) => PriceOf(markets, t), unsorted);
    SameMembers(anchors, unsorted);
  }

  function PriceOf(markets: seq<Market>, t: nat): Option<real> {
    if t < |markets| then markets[t].price else None
  }

  /**
   `launchableSpotReplacementMarkets`, types by position. The zones are the anchor's own good zones,
   and the types are exactly those that survive in them.
   */
  method Launchable(markets: seq<Market>) returns (types: seq<nat>, zones: set<string>)
    ensures zones == {} ==> types == [] && forall t | 0 <= t < |markets| :: !IsUsable(markets[t])
    ensures zones != {} ==> exists t: nat :: IsAnchor(markets, t) && zones == GoodZones(markets[t])
    ensures zones != {} ==> types == Survivors(markets, zones)
    ensures types == [] <==>
            zones == {} ||
            exists t: nat :: IsAnchor(markets, t) && zones == GoodZones(markets[t]) && Shadows(markets, t)
  {
    var anchors := Anchors(markets);
    for i := 0 to |anchors|
      invariant forall k | 0 <= k < i :: anchors[k] < |markets| && !IsUsable(markets[anchors[k]])
    {
      var t := anchors[i];
      assert t in anchors;
      zones := GoodZones(markets[t]);
      if zones == {} {
        continue;
      }
      types := Survivors(markets, zones);
      FirstUsable(markets, anchors, i);
      EmptyIff(markets, t);
      return;
    }
    types, zones := [], {};
    forall t | 0 <= t < |markets| ensures !IsUsable(markets[t]) {
      if markets[t].admitted != {} {
        assert t in anchors;
      }
    }
  }

  lemma FirstUsable(markets: seq<Market>, anchors: seq<nat>, i: nat)
    requires forall t: nat :: t in anchors <==> t < |markets| && markets[t].admitted != {}
    requires forall i, j | 0 <= i < j < |anchors| ::
               NotAfter(PriceOf(markets, anchors[i]), PriceOf(markets, anchors[j]))
    requires i < |anchors| && anchors[i] < |markets| && IsUsable(markets[anchors[i]])
    requires forall k | 0 <= k < i :: anchors[k] < |markets| && !IsUsable(markets[anchors[k]])
    ensures IsAnchor(markets, anchors[i])
  {
    var t := anchors[i];
    forall u | 0 <= u < |markets| && IsUsable(markets[u]) ensures NotAfter(markets[t].price, markets[u].price) {
      assert u in anchors;
      var k :| 0 <= k < |anchors| && anchors[k] == u;
      assert NotAfter(PriceOf(markets, t), PriceOf(markets, u)) || k == i;
    }
  }

  // What the choice is good for

  function Markets(options: seq<seq<Offer>>): (r: seq<Market>)
    ensures |r| == |options|
  {
    seq(|options|, i requires 0 <= i < |options| => MarketOf(options[i]))
  }

  /**
   Every compatible offering of a chosen type in a chosen zone, or whose zone reads as empty, is
   admitted, and there is one in a chosen zone.
   */
  lemma CrossProductLaunchable(options: seq<seq<Offer>>, zones: set<string>, t: nat, o: Offer)
    requires t in Survivors(Markets(options), zones) && t < |options|
    requires o in options[t] && o.compatible && (o.zone in zones || o.zone == "")
    ensures o.advised && o.fits
    ensures exists p :: p in options[t] && p.compatible && p.advised && p.fits && p.zone in zones
  {
    var m := MarketOf(options[t]);
    assert Markets(options)[t] == m;
    assert forall z | z in m.rejected :: z !in zones by {
      assert forall z | z in m.rejected && z in zones :: z in m.rejected * zones;
    }
    assert IsRejected(o) ==> o.zone in m.rejected;
    var z :| z in m.admitted * zones;
    var p :| p in options[t] && IsAdmitted(p) && p.zone == z;
  }

  /** A zone the type can launch in and is turned down in for no offering. */
  lemma GoodZoneIff(offers: seq<Offer>, zone: string)
    ensures zone in GoodZones(MarketOf(offers)) <==>
            && zone != "" && (exists o :: o in offers && o.zone == zone && o.compatible && o.advised && o.fits)
            && forall o | o in offers && o.zone == zone && o.compatible :: o.advised && o.fits
  {
    var m := MarketOf(offers);
    assert zone in m.admitted <==> exists o :: o in offers && IsAdmitted(o) && o.zone == zone;
    assert zone in m.rejected <==> exists o :: o in offers && IsRejected(o) && o.zone == zone;
  }

  /** Which types are chosen: some offering in the zones is launchable, none there or without a zone is turned down. */
  lemma ChosenIff(options: seq<seq<Offer>>, zones: set<string>, t: nat)
    requires t < |options|
    ensures t in Survivors(Markets(options), zones) <==>
            && (exists o :: o in options[t] && o.compatible && o.advised && o.fits && o.zone in zones)
            && forall o | o in options[t] && o.compatible && (o.zone in zones || o.zone == "") :: o.advised && o.fits
  {
    var m := MarketOf(options[t]);
    assert Markets(options)[t] == m;
    MeetsIff(m.admitted, zones);
    MeetsIff(m.rejected, zones);
    assert forall z :: z in m.admitted <==> exists o :: o in options[t] && IsAdmitted(o) && o.zone == z;
    assert forall z :: z in m.rejected <==> exists o :: o in options[t] && IsRejected(o) && o.zone == z;
  }

  lemma MeetsIff(a: set<string>, b: set<string>)
    ensures a * b != {} <==> exists z :: z in a && z in b
  {
    if z :| z in a && z in b {
      assert z in a * b;
    }
  }

  /** The anchor has an admitted offering no dearer than any of a usable type. */
  lemma AnchorIsCheapest(options: seq<seq<Offer>>, t: nat, u: nat, p: Offer)
    requires IsAnchor(Markets(options), t) && u < |options| && IsUsable(Markets(options)[u])
    requires p in options[u] && p.compatible && p.advised && p.fits
    ensures exists o :: o in options[t] && o.compatible && o.advised && o.fits && o.price <= p.price
  {
    var i :| 0 <= i < |options[u]| && options[u][i] == p;
    var ps, qs := AdmittedPrices(options[t]), AdmittedPrices(options[u]);
    LeastIs(qs);
    LeastIs(ps);
    assert qs[i] == Some(p.price);
    assert Markets(options)[t] == MarketOf(options[t]) && Markets(options)[u] == MarketOf(options[u]);
    assert NotAfter(Least(ps), Least(qs));
    var j :| 0 <= j < |ps| && ps[j] == Least(ps);
    assert options[t][j] in options[t];
  }

  /**
   The search can give up too early: the cheapest type is admitted in zone "a" but rejected at an
   offering whose zone reads as empty, so nothing survives in "a", and the second type, admitted in
   "b" without any rejection, is never made the anchor.
   */
  lemma AnchorShadowsUsable()
    ensures var markets := Markets([[Offer("a", 1.0, true, true, true), Offer("", 1.0, true, false, true)],
                                    [Offer("b", 2.0, true, true, true)]]);
            && IsAnchor(markets, 0) && Survivors(markets, GoodZones(markets[0])) == []
            && IsUsable(markets[1]) && 1 in Survivors(markets, GoodZones(markets[1]))
  {
    var admitted, refused, other :=
      Offer("a", 1.0, true, true, true), Offer("", 1.0, true, false, true), Offer("b", 2.0, true, true, true);
    var markets := Markets([[admitted, refused], [other]]);
    TwoOffers(admitted, refused);
    OneOffer(other);
    assert GoodZones(markets[0]) == {"a"} && GoodZones(markets[1]) == {"b"};
    assert "a" in GoodZones(markets[0]) && "b" in GoodZones(markets[1]);
    assert markets[1].admitted * {"b"} == {"b"} && "b" in {"b"};
    assert Shadows(markets, 0);
    EmptyIff(markets, 0);
  }

  lemma TwoOffers(admitted: Offer, refused: Offer)
    requires IsAdmitted(admitted) && IsRejected(refused)
    ensures MarketOf([admitted, refused]) == Market({admitted.zone}, {refused.zone}, Some(admitted.price))
  {
    var offers := [admitted, refused];
    assert offers[0] in offers && offers[1] in offers;
    var ps := AdmittedPrices(offers);
    assert ps[..1] == [Some(admitted.price)] && ps[..1][..0] == [] && ps[1].None?;
    assert Least(ps[..1][..0]).None? && Least(ps[..1]) == Some(admitted.price) && Least(ps) == Some(admitted.price);
    var m := MarketOf(offers);
    assert m.admitted == {admitted.zone} && m.rejected == {refused.zone};
  }

  lemma OneOffer(admitted: Offer)
    requires IsAdmitted(admitted)
    ensures MarketOf([admitted]) == Market({admitted.zone}, {}, Some(admitted.price))
  {
    var offers := [admitted];
    assert offers[0] in offers;
    var ps := AdmittedPrices(offers);
    assert ps[..0] == [] && Least(ps[..0]).None? && Least(ps) == Some(admitted.price);
    var m := MarketOf(offers);
    assert m.admitted == {admitted.zone} && m.rejected == {};
  }
}
