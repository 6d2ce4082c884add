/**
 Node overlays (pkg/controllers/nodeoverlay): overlays are processed in descending weight, each
 either accepted and stored or rejected for a conflict. Which offerings an overlay selects on an
 instance type of a node pool is an oracle; offerings are named by an injective key.
 */
module OverlayModel {
  import opened Wrappers
  import opened Finite

  /** An instance type of a node pool. */
  datatype Target = Target(pool: string, instanceType: string)

  /** `price` is the price or the price adjustment; an unset weight is zero. */
  datatype Overlay = Overlay(name: string, weight: int, price: Option<string>, capacity: Option<map<string, string>>)

  datatype PriceUpdate = PriceUpdate(update: string, lowestWeight: int)
  datatype CapacityUpdate = CapacityUpdate(resources: map<string, string>, lastResources: set<string>,
                                           lowestWeight: int)
  datatype Update = Update(prices: map<string, PriceUpdate>, capacity: CapacityUpdate)

  type Updates = map<Target, Update>

  /** The offerings an overlay selects; none when it does not select the instance type. */
  type Selection = (Overlay, Target) -> seq<string>

  const NO_UPDATE: Update := Update(map[], CapacityUpdate(map[], {}, 0))

  function Entry(u: Updates, t: Target): Update {
    if t in u then u[t] else NO_UPDATE
  }

  // Conflicts

  predicate PriceConflicts(u: Updates, t: Target, o: Overlay, keys: seq<string>) {
    o.price.Some? && exists k :: k in keys && k in Entry(u, t).prices && Entry(u, t).prices[k].lowestWeight == o.weight
  }

  predicate CapacityConflicts(u: Updates, t: Target, o: Overlay) {
    && o.capacity.Some? && Entry(u, t).capacity.lowestWeight == o.weight
    && exists r :: r in o.capacity.value && r in Entry(u, t).capacity.lastResources
  }

  predicate Accepts(u: Updates, targets: seq<Target>, select: Selection, o: Overlay) {
    forall t | t in targets && select(o, t) != [] ::
      !PriceConflicts(u, t, o, select(o, t)) && !CapacityConflicts(u, t, o)
  }

  // Storing

  /** The first update of an offering stays; later ones only lower its recorded weight. */
  function Priced(e: Update, o: Overlay, keys: seq<string>): Update {
    if o.price.None? then e
    else
      var selected := set k | k in keys;
      e.(prices := map k | k in e.prices.Keys + selected ::
           if k !in selected then e.prices[k]
           else PriceUpdate(if k in e.prices then e.prices[k].update else o.price.value, o.weight))
  }

  /** Resources already overlaid stay. */
  function Sized(e: Update, o: Overlay): Update {
    if o.capacity.None? then e
    else e.(capacity := CapacityUpdate(o.capacity.value + e.capacity.resources, o.capacity.value.Keys, o.weight))
  }

  function StoreOne(u: Updates, t: Target, o: Overlay, keys: seq<string>): Updates {
    if keys == [] || (o.price.None? && o.capacity.None?) then u
    else u[t := Sized(Priced(Entry(u, t), o, keys), o)]
  }

  function StoreAll(u: Updates, targets: seq<Target>, select: Selection, o: Overlay): Updates {
    if targets == [] then u
    else
      var n := |targets| - 1;
      StoreOne(StoreAll(u, targets[..n], select, o), targets[n], o, select(o, targets[n]))
  }

  lemma {:induction false} StoreAllEntry(u: Updates, targets: seq<Target>, select: Selection, o: Overlay, t: Target)
    requires NoDuplicates(targets)
    ensures Entry(StoreAll(u, targets, select, o), t) ==
            if t in targets && select(o, t) != [] then Sized(Priced(Entry(u, t), o, select(o, t)), o) else Entry(u, t)
  {
    if targets != [] {
      var n := |targets| - 1;
      StoreAllEntry(u, targets[..n], select, o, t);
      assert t in targets <==> t in targets[..n] || t == targets[n];
      if t == targets[n] {
        assert t !in targets[..n];
      }
    }
  }

  // A whole reconcile

  /** The store after a list of accepted overlays. */
  function Stored(accepted: seq<Overlay>, targets: seq<Target>, select: Selection): Updates {
    if accepted == [] then map[]
    else
      var n := |accepted| - 1;
      StoreAll(Stored(accepted[..n], targets, select), targets, select, accepted[n])
  }

  ghost predicate Descending(os: seq<Overlay>) {
    forall i, j | 0 <= i < j < |os| :: os[i].weight >= os[j].weight
  }

  /** Each overlay was accepted against the store of those accepted before it. */
  ghost predicate AcceptedRun(accepted: seq<Overlay>, targets: seq<Target>, select: Selection) {
    && Descending(accepted)
    && forall n: nat | n < |accepted| :: AcceptedAt(accepted, targets, select, n)
  }

  ghost predicate AcceptedAt(accepted: seq<Overlay>, targets: seq<Target>, select: Selection, n: nat)
    requires n < |accepted|
  {
    Accepts(Stored(accepted[..n], targets, select), targets, select, accepted[n])
  }

  // The first and the last overlay of a kind

  ghost predicate First(os: seq<Overlay>, kind: Overlay -> bool, i: nat) {
    i < |os| && kind(os[i]) && forall j: nat | j < i :: !kind(os[j])
  }

  ghost predicate Last(os: seq<Overlay>, kind: Overlay -> bool, i: nat) {
    i < |os| && kind(os[i]) && forall j: nat | i < j < |os| :: !kind(os[j])
  }

  ghost predicate Occurs(os: seq<Overlay>, kind: Overlay -> bool) {
    exists i: nat :: i < |os| && kind(os[i])
  }

  lemma {:induction false} FirstOf(os: seq<Overlay>, kind: Overlay -> bool) returns (i: nat)
    requires Occurs(os, kind)
    ensures First(os, kind, i)
  {
    i := 0;
    while !kind(os[i])
      invariant i < |os| && forall j: nat | j < i :: !kind(os[j])
      decreases |os| - i
    {
      i := i + 1;
    }
  }

  lemma {:induction false} LastOf(os: seq<Overlay>, kind: Overlay -> bool) returns (i: nat)
    requires Occurs(os, kind)
    ensures Last(os, kind, i)
  {
    i := |os| - 1;
    while !kind(os[i])
      invariant i < |os| && forall j: nat | i < j < |os| :: !kind(os[j])
      decreases i
    {
      i := i - 1;
    }
  }

  /** How one more overlay changes the first and the last of a kind. */
  lemma Appended(os: seq<Overlay>, kind: Overlay -> bool, i: nat)
    requires os != []
    ensures var n := |os| - 1;
            && (Occurs(os, kind) <==> Occurs(os[..n], kind) || kind(os[n]))
            && (First(os, kind, i) <==> First(os[..n], kind, i) || (i == n && kind(os[n]) && !Occurs(os[..n], kind)))
            && (Last(os, kind, i) <==> if kind(os[n]) then i == n else Last(os[..n], kind, i))
  {
    var n := |os| - 1;
    var front := os[..n];
    assert forall j: nat | j < n :: front[j] == os[j];
    if Last(os, kind, i) && i < n {
      assert !kind(os[n]);
    }
  }

  // Prices

  /** The overlays that price offering k of target t. */
  function Pricing(select: Selection, t: Target, k: string): Overlay -> bool {
    (o: Overlay) => o.price.Some? && k in select(o, t)
  }

  /** What is stored for an offering: the first price accepted for it, at the last such overlay's weight. */
  ghost predicate PriceIs(accepted: seq<Overlay>, kind: Overlay -> bool, k: string, e: Update) {
    && (k in e.prices <==> Occurs(accepted, kind))
    && (forall i: nat | First(accepted, kind, i) :: k in e.prices && Some(e.prices[k].update) == accepted[i].price)
    && (forall i: nat | Last(accepted, kind, i) :: k in e.prices && e.prices[k].lowestWeight == accepted[i].weight)
  }

  lemma PriceStep(accepted: seq<Overlay>, kind: Overlay -> bool, k: string, before: Update, after: Update)
    requires accepted != []
    requires var n := |accepted| - 1;
             && PriceIs(accepted[..n], kind, k, before)
             && (kind(accepted[n]) ==>
                   && accepted[n].price.Some? && k in after.prices && after.prices[k].lowestWeight == accepted[n].weight
                   && after.prices[k].update ==
                      if k in before.prices then before.prices[k].update else accepted[n].price.value)
             && (!kind(accepted[n]) ==>
                   (k in after.prices <==> k in before.prices)
                   && (k in before.prices ==> after.prices[k] == before.prices[k]))
    ensures PriceIs(accepted, kind, k, after)
  {
    Appended(accepted, kind, 0);
    forall i: nat | First(accepted, kind, i)
      ensures k in after.prices && Some(after.prices[k].update) == accepted[i].price
    {
      Appended(accepted, kind, i);
    }
    forall i: nat | Last(accepted, kind, i)
      ensures k in after.prices && after.prices[k].lowestWeight == accepted[i].weight
    {
      Appended(accepted, kind, i);
    }
  }

  lemma PricedEntry(e: Update, o: Overlay, select: Selection, t: Target, k: string)
    ensures var after := Sized(Priced(e, o, select(o, t)), o);
            if Pricing(select, t, k)(o) then
              && k in after.prices && after.prices[k].lowestWeight == o.weight
              && after.prices[k].update == if k in e.prices then e.prices[k].update else o.price.value
            else (k in after.prices <==> k in e.prices) && (k in e.prices ==> after.prices[k] == e.prices[k])
  {
  }

  lemma {:induction false} PriceStored(accepted: seq<Overlay>, targets: seq<Target>, select: Selection, t: Target,
                                       k: string)
    requires NoDuplicates(targets) && t in targets
    ensures PriceIs(accepted, Pricing(select, t, k), k, Entry(Stored(accepted, targets, select), t))
  {
    if accepted != [] {
      var n := |accepted| - 1;
      PriceStored(accepted[..n], targets, select, t, k);
      var u := Stored(accepted[..n], targets, select);
      StoreAllEntry(u, targets, select, accepted[n], t);
      PricedEntry(Entry(u, t), accepted[n], select, t, k);
      PriceStep(accepted, Pricing(select, t, k), k, Entry(u, t), Entry(Stored(accepted, targets, select), t));
    }
  }

  /**
   Each offering's override is that of the first accepted overlay that prices it, at the weight of
   the last; an offering none of them prices has no override.
   */
  lemma FirstPriceWins(accepted: seq<Overlay>, targets: seq<Target>, select: Selection, t: Target, k: string)
    requires NoDuplicates(targets) && t in targets
    ensures var kind := Pricing(select, t, k);
            var prices := Entry(Stored(accepted, targets, select), t).prices;
            if Occurs(accepted, kind) then
              && k in prices
              && (exists i: nat :: First(accepted, kind, i) && accepted[i].price == Some(prices[k].update))
              && (exists i: nat :: Last(accepted, kind, i) && accepted[i].weight == prices[k].lowestWeight)
            else k !in prices
  {
    PriceStored(accepted, targets, select, t, k);
    if Occurs(accepted, Pricing(select, t, k)) {
      var i := FirstOf(accepted, Pricing(select, t, k));
      var l := LastOf(accepted, Pricing(select, t, k));
    }
  }

  /** An accepted overlay of equal weight is of the given kind. */
  ghost predicate EqualWeight(accepted: seq<Overlay>, kind: Overlay -> bool, weight: int) {
    exists i: nat :: i < |accepted| && kind(accepted[i]) && accepted[i].weight == weight
  }

  /** With weights descending, equal weight shows in the last overlay of the kind. */
  lemma LastWeight(accepted: seq<Overlay>, kind: Overlay -> bool, weight: int, l: nat)
    requires Descending(accepted) && Last(accepted, kind, l)
    requires forall i: nat | i < |accepted| :: accepted[i].weight >= weight
    ensures EqualWeight(accepted, kind, weight) <==> accepted[l].weight == weight
  {
    forall i: nat | i < |accepted| && kind(accepted[i]) ensures accepted[i].weight >= accepted[l].weight {
      assert i <= l;
    }
  }

  lemma OfferingConflictExact(accepted: seq<Overlay>, targets: seq<Target>, select: Selection, t: Target, weight: int,
                              k: string)
    requires NoDuplicates(targets) && t in targets && Descending(accepted)
    requires forall i: nat | i < |accepted| :: accepted[i].weight >= weight
    ensures var prices := Entry(Stored(accepted, targets, select), t).prices;
            k in prices && prices[k].lowestWeight == weight <==> EqualWeight(accepted, Pricing(select, t, k), weight)
  {
    var kind := Pricing(select, t, k);
    PriceStored(accepted, targets, select, t, k);
    if Occurs(accepted, kind) {
      var l := LastOf(accepted, kind);
      LastWeight(accepted, kind, weight, l);
    }
  }

  /**
   The price check is exact: with weights descending, an overlay conflicts exactly when an accepted
   overlay of equal weight already prices one of its offerings.
   */
  lemma PriceConflictExact(accepted: seq<Overlay>, targets: seq<Target>, select: Selection, t: Target, o: Overlay)
    requires NoDuplicates(targets) && t in targets && Descending(accepted)
    requires forall i: nat | i < |accepted| :: accepted[i].weight >= o.weight
    ensures PriceConflicts(Stored(accepted, targets, select), t, o, select(o, t)) <==>
            o.price.Some? && exists k :: k in select(o, t) && EqualWeight(accepted, Pricing(select, t, k), o.weight)
  {
    forall k {
      OfferingConflictExact(accepted, targets, select, t, o.weight, k);
    }
  }

  /** No two accepted overlays of equal weight price the same offering. */
  lemma NoEqualWeightPrices(accepted: seq<Overlay>, targets: seq<Target>, select: Selection, t: Target, k: string,
                            i: nat, j: nat)
    requires NoDuplicates(targets) && t in targets && AcceptedRun(accepted, targets, select)
    requires i < j < |accepted| && Pricing(select, t, k)(accepted[i]) && Pricing(select, t, k)(accepted[j])
    ensures accepted[i].weight != accepted[j].weight
  {
    var front, o := accepted[..j], accepted[j];
    assert AcceptedAt(accepted, targets, select, j) && front[i] == accepted[i];
    PriceConflictExact(front, targets, select, t, o);
  }

  // Capacity

  /** The overlays that overlay resources of target t. */
  function Sizing(select: Selection, t: Target): Overlay -> bool {
    (o: Overlay) => o.capacity.Some? && select(o, t) != []
  }

  /** The overlays that overlay resource r of target t. */
  function Overlaying(select: Selection, t: Target, r: string): Overlay -> bool {
    (o: Overlay) => o.capacity.Some? && select(o, t) != [] && r in o.capacity.value
  }

  /** A resource's override is that of the first accepted overlay that sets it. */
  ghost predicate ResourceIs(accepted: seq<Overlay>, kind: Overlay -> bool, r: string, resources: map<string, string>) {
    && (r in resources <==> Occurs(accepted, kind))
    && forall i: nat | First(accepted, kind, i) ::
         r in resources && accepted[i].capacity.Some? && r in accepted[i].capacity.value
         && resources[r] == accepted[i].capacity.value[r]
  }

  /** The conflict record describes the last accepted overlay of the target's resources, and only that one. */
  ghost predicate RecordIs(accepted: seq<Overlay>, kind: Overlay -> bool, c: CapacityUpdate) {
    && (!Occurs(accepted, kind) ==> c.lastResources == {})
    && forall i: nat | Last(accepted, kind, i) ::
         accepted[i].capacity.Some? && c.lastResources == accepted[i].capacity.value.Keys
         && c.lowestWeight == accepted[i].weight
  }

  lemma ResourceStep(accepted: seq<Overlay>, kind: Overlay -> bool, r: string, before: map<string, string>,
                     after: map<string, string>)
    requires accepted != []
    requires var n := |accepted| - 1;
             && ResourceIs(accepted[..n], kind, r, before)
             && (kind(accepted[n]) ==>
                   && accepted[n].capacity.Some? && r in accepted[n].capacity.value && r in after
                   && after[r] == if r in before then before[r] else accepted[n].capacity.value[r])
             && (!kind(accepted[n]) ==> (r in after <==> r in before) && (r in before ==> after[r] == before[r]))
    ensures ResourceIs(accepted, kind, r, after)
  {
    Appended(accepted, kind, 0);
    forall i: nat | First(accepted, kind, i)
      ensures r in after && accepted[i].capacity.Some? && r in accepted[i].capacity.value
              && after[r] == accepted[i].capacity.value[r]
    {
      Appended(accepted, kind, i);
    }
  }

  lemma RecordStep(accepted: seq<Overlay>, kind: Overlay -> bool, before: CapacityUpdate, after: CapacityUpdate)
    requires accepted != []
    requires var n := |accepted| - 1;
             && RecordIs(accepted[..n], kind, before)
             && (kind(accepted[n]) ==>
                   && accepted[n].capacity.Some?
                   && after.lastResources == accepted[n].capacity.value.Keys
                   && after.lowestWeight == accepted[n].weight)
             && (!kind(accepted[n]) ==>
                 after.lastResources == before.lastResources && after.lowestWeight == before.lowestWeight)
    ensures RecordIs(accepted, kind, after)
  {
    Appended(accepted, kind, 0);
    forall i: nat | Last(accepted, kind, i)
      ensures accepted[i].capacity.Some?
      ensures after.lastResources == accepted[i].capacity.value.Keys && after.lowestWeight == accepted[i].weight
    {
      Appended(accepted, kind, i);
    }
  }

  lemma {:induction false} FirstResourceWins(accepted: seq<Overlay>, targets: seq<Target>, select: Selection, t: Target,
                                             r: string)
    requires NoDuplicates(targets) && t in targets
    ensures ResourceIs(accepted, Overlaying(select, t, r), r,
                       Entry(Stored(accepted, targets, select), t).capacity.resources)
  {
    if accepted != [] {
      var n := |accepted| - 1;
      FirstResourceWins(accepted[..n], targets, select, t, r);
      StoreAllEntry(Stored(accepted[..n], targets, select), targets, select, accepted[n], t);
      ResourceStep(accepted, Overlaying(select, t, r), r,
                   Entry(Stored(accepted[..n], targets, select), t).capacity.resources,
                   Entry(Stored(accepted, targets, select), t).capacity.resources);
    }
  }

  lemma {:induction false} LastResourcesRecorded(accepted: seq<Overlay>, targets: seq<Target>, select: Selection,
                                                 t: Target)
    requires NoDuplicates(targets) && t in targets
    ensures RecordIs(accepted, Sizing(select, t), Entry(Stored(accepted, targets, select), t).capacity)
  {
    if accepted != [] {
      var n := |accepted| - 1;
      LastResourcesRecorded(accepted[..n], targets, select, t);
      StoreAllEntry(Stored(accepted[..n], targets, select), targets, select, accepted[n], t);
      RecordStep(accepted, Sizing(select, t),
                 Entry(Stored(accepted[..n], targets, select), t).capacity,
                 Entry(Stored(accepted, targets, select), t).capacity);
    }
  }

  predicate Shares(a: Overlay, b: Overlay) {
    a.capacity.Some? && b.capacity.Some? && a.capacity.value.Keys * b.capacity.value.Keys != {}
  }

  lemma SharesExact(a: Overlay, b: Overlay)
    requires a.capacity.Some? && b.capacity.Some?
    ensures Shares(a, b) <==> exists r :: r in a.capacity.value && r in b.capacity.value.Keys
  {
    var both := a.capacity.value.Keys * b.capacity.value.Keys;
    if both != {} {
      var r := Member(both);
      assert r in a.capacity.value && r in b.capacity.value.Keys;
    } else {
      forall r | r in a.capacity.value ensures r !in b.capacity.value.Keys {
        assert r !in both;
      }
    }
  }

  /** The accepted overlays of the target's resources that share one with o. */
  function Sharing(select: Selection, t: Target, o: Overlay): Overlay -> bool {
    (a: Overlay) => select(a, t) != [] && Shares(o, a)
  }

  /**
   The check fires exactly when the last accepted overlay of the target's resources has equal weight
   and shares one.
   */
  lemma CapacityConflictIff(accepted: seq<Overlay>, targets: seq<Target>, select: Selection, t: Target, o: Overlay)
    requires NoDuplicates(targets) && t in targets
    ensures CapacityConflicts(Stored(accepted, targets, select), t, o) <==>
            exists l: nat ::
              Last(accepted, Sizing(select, t), l) && accepted[l].weight == o.weight && Shares(o, accepted[l])
  {
    var u := Stored(accepted, targets, select);
    LastResourcesRecorded(accepted, targets, select, t);
    if o.capacity.Some? && Occurs(accepted, Sizing(select, t)) {
      var l := LastOf(accepted, Sizing(select, t));
      SharesExact(o, accepted[l]);
      assert CapacityConflicts(u, t, o) <==> accepted[l].weight == o.weight && Shares(o, accepted[l]);
    }
  }

  lemma SharingIsSizing(accepted: seq<Overlay>, select: Selection, t: Target, o: Overlay)
    ensures EqualWeight(accepted, Sharing(select, t, o), o.weight) ==>
            EqualWeight(accepted, Sizing(select, t), o.weight)
  {
    if EqualWeight(accepted, Sharing(select, t, o), o.weight) {
      var i: nat :| i < |accepted| && Sharing(select, t, o)(accepted[i]) && accepted[i].weight == o.weight;
      assert Shares(o, accepted[i]);
      assert Sizing(select, t)(accepted[i]);
    }
  }

  /**
   The check misses a conflict exactly when an accepted overlay of equal weight shares a resource but
   the last accepted one does not; it never invents one.
   */
  lemma CapacityCheckMisses(accepted: seq<Overlay>, targets: seq<Target>, select: Selection, t: Target, o: Overlay)
    requires NoDuplicates(targets) && t in targets && Descending(accepted)
    requires forall i: nat | i < |accepted| :: accepted[i].weight >= o.weight
    ensures CapacityConflicts(Stored(accepted, targets, select), t, o) <==>
            && EqualWeight(accepted, Sharing(select, t, o), o.weight)
            && exists l: nat :: Last(accepted, Sizing(select, t), l) && Shares(o, accepted[l])
  {
    var sizing := Sizing(select, t);
    CapacityConflictIff(accepted, targets, select, t, o);
    forall l: nat | Last(accepted, sizing, l) && Shares(o, accepted[l])
      ensures EqualWeight(accepted, Sharing(select, t, o), o.weight) <==> accepted[l].weight == o.weight
    {
      LastWeight(accepted, sizing, o.weight, l);
      SharingIsSizing(accepted, select, t, o);
      assert Sharing(select, t, o)(accepted[l]);
    }
  }

  /**
   Of three overlays of equal weight, the third may set the first one's resources to other values: as
   long as the second shares a resource with neither, all are accepted.
   */
  lemma EqualWeightCapacityAccepted(a: Overlay, b: Overlay, c: Overlay, t: Target, select: Selection)
    requires a.price.None? && b.price.None? && c.price.None? && a.weight == b.weight == c.weight
    requires select(b, t) != [] && b.capacity.Some? && !Shares(b, a) && !Shares(c, b)
    ensures AcceptedRun([a, b, c], [t], select)
  {
    var all := [a, b, c];
    assert all[..0] == [] && all[..1] == [a] && all[..2] == [a, b];
    FirstAccepted(a, t, select);
    SecondAccepted(a, b, t, select);
    ThirdAccepted(a, b, c, t, select);
    assert AcceptedAt(all, [t], select, 0) && AcceptedAt(all, [t], select, 1) && AcceptedAt(all, [t], select, 2);
  }

  lemma FirstAccepted(a: Overlay, t: Target, select: Selection)
    requires a.price.None?
    ensures Accepts(Stored([], [t], select), [t], select, a)
  {
    CapacityConflictIff([], [t], select, t, a);
  }

  lemma SecondAccepted(a: Overlay, b: Overlay, t: Target, select: Selection)
    requires b.price.None? && !Shares(b, a)
    ensures Accepts(Stored([a], [t], select), [t], select, b)
  {
    CapacityConflictIff([a], [t], select, t, b);
  }

  lemma ThirdAccepted(a: Overlay, b: Overlay, c: Overlay, t: Target, select: Selection)
    requires c.price.None? && select(b, t) != [] && b.capacity.Some? && !Shares(c, b)
    ensures Accepts(Stored([a, b], [t], select), [t], select, c)
  {
    CapacityConflictIff([a, b], [t], select, t, c);
    assert Sizing(select, t)([a, b][1]);
  }

  /** Such overlays, with two values for one resource. */
  lemma ClashingOverlays() returns (a: Overlay, b: Overlay, c: Overlay)
    ensures a.price.None? && b.price.None? && c.price.None? && a.weight == b.weight == c.weight
    ensures b.capacity.Some? && !Shares(b, a) && !Shares(c, b) && Shares(c, a)
    ensures "cpu" in a.capacity.value && "cpu" in c.capacity.value && a.capacity.value["cpu"] != c.capacity.value["cpu"]
  {
    a := Overlay("c", 1, None, Some(map["cpu" := "4"]));
    b := Overlay("b", 1, None, Some(map["memory" := "8Gi"]));
    c := Overlay("a", 1, None, Some(map["cpu" := "16"]));
    assert "cpu"[0] != "memory"[0];
    assert "cpu" in c.capacity.value.Keys * a.capacity.value.Keys;
  }

  // Applying the store

  /** What an overlay can change of an instance type: its offerings' prices and its capacity. */
  datatype OverlaidOffering = OverlaidOffering(key: string, price: real)
  datatype OverlaidType = OverlaidType(offerings: seq<OverlaidOffering>, capacity: map<string, string>)

  /** `adjust` reads an override: an absolute price, or a signed amount or percentage. */
  function Apply(e: Update, adjust: (real, string) -> real, it: OverlaidType): OverlaidType {
    OverlaidType(
      seq(|it.offerings|, i requires 0 <= i < |it.offerings| =>
        var o := it.offerings[i];
        if o.key in e.prices then o.(price := adjust(o.price, e.prices[o.key].update)) else o),
      it.capacity + e.capacity.resources)
  }

  /** A pool sees each offering at its own price, or at the price of the first accepted overlay that prices it. */
  lemma AppliedPrice(accepted: seq<Overlay>, targets: seq<Target>, select: Selection, t: Target,
                     adjust: (real, string) -> real,
                     it: OverlaidType, n: nat)
    requires NoDuplicates(targets) && t in targets && n < |it.offerings|
    ensures var o := it.offerings[n];
            var seen := Apply(Entry(Stored(accepted, targets, select), t), adjust, it).offerings[n];
            var kind := Pricing(select, t, o.key);
            && seen.key == o.key
            && if Occurs(accepted, kind) then
                 exists i: nat :: First(accepted, kind, i) && accepted[i].price.Some?
                                  && seen.price == adjust(o.price, accepted[i].price.value)
               else seen.price == o.price
  {
    FirstPriceWins(accepted, targets, select, t, it.offerings[n].key);
  }

  /** A pool sees each resource at the value of the first accepted overlay that sets it, or as it was. */
  lemma AppliedCapacity(accepted: seq<Overlay>, targets: seq<Target>, select: Selection, t: Target,
                        adjust: (real, string) -> real, it: OverlaidType, r: string)
    requires NoDuplicates(targets) && t in targets
    ensures var seen := Apply(Entry(Stored(accepted, targets, select), t), adjust, it).capacity;
            var kind := Overlaying(select, t, r);
            if Occurs(accepted, kind) then
              exists i: nat :: First(accepted, kind, i) && accepted[i].capacity.Some?
                               && r in accepted[i].capacity.value && r in seen
                               && seen[r] == accepted[i].capacity.value[r]
            else (r in seen <==> r in it.capacity) && (r in seen ==> seen[r] == it.capacity[r])
  {
    FirstResourceWins(accepted, targets, select, t, r);
    if Occurs(accepted, Overlaying(select, t, r)) {
      var i := FirstOf(accepted, Overlaying(select, t, r));
    }
  }
}
