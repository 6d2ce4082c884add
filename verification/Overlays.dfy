/**
 The instance type store and the reconcile loop over node overlays, as they update the store in
 place (pkg/controllers/nodeoverlay/store.go, pkg/controllers/nodeoverlay/controller.go).
 */
module Overlays {
  import opened OverlayModel
  import opened Finite
  import opened Sorting

  /** An overlay the loop saw: invalid at run time, in conflict, or accepted. */
  predicate Rejected(u: Updates, targets: seq<Target>, select: Selection, valid: Overlay -> bool, o: Overlay) {
    !valid(o) || !Accepts(u, targets, select, o)
  }

  /** The overlays accepted, in order, when each is checked against the store of those before it. */
  ghost function Accepted(os: seq<Overlay>, targets: seq<Target>, select: Selection,
                          valid: Overlay -> bool): seq<Overlay>
  {
    if os == [] then []
    else
      var n := |os| - 1;
      var before := Accepted(os[..n], targets, select, valid);
      if Rejected(Stored(before, targets, select), targets, select, valid, os[n]) then before else before + [os[n]]
  }

  /** Exactly the valid overlays that were refused. */
  ghost function Conflicts(os: seq<Overlay>, targets: seq<Target>, select: Selection,
                           valid: Overlay -> bool): seq<Overlay>
  {
    if os == [] then []
    else
      var n := |os| - 1;
      var before := Conflicts(os[..n], targets, select, valid);
      if valid(os[n]) &&
         !Accepts(Stored(Accepted(os[..n], targets, select, valid), targets, select), targets, select, os[n])
      then before + [os[n]] else before
  }

  lemma AcceptedAtPrefix(before: seq<Overlay>, o: Overlay, targets: seq<Target>, select: Selection, n: nat)
    requires n < |before|
    ensures AcceptedAt(before + [o], targets, select, n) <==> AcceptedAt(before, targets, select, n)
  {
    assert (before + [o])[..n] == before[..n];
  }

  lemma DescendOne(before: seq<Overlay>, o: Overlay)
    requires Descending(before) && forall a | a in before :: a.weight >= o.weight
    ensures Descending(before + [o])
  {
  }

  lemma AcceptedAppend(before: seq<Overlay>, o: Overlay, targets: seq<Target>, select: Selection)
    requires AcceptedRun(before, targets, select) && Accepts(Stored(before, targets, select), targets, select, o)
    requires forall a | a in before :: a.weight >= o.weight
    ensures AcceptedRun(before + [o], targets, select)
  {
    DescendOne(before, o);
    forall n: nat | n < |before| ensures AcceptedAt(before + [o], targets, select, n) {
      AcceptedAtPrefix(before, o, targets, select, n);
    }
    assert (before + [o])[..|before|] == before;
    assert AcceptedAt(before + [o], targets, select, |before|);
  }

  /** What is accepted was accepted against a store of heavier or equal overlays only. */
  lemma {:induction false} AcceptedRuns(os: seq<Overlay>, targets: seq<Target>, select: Selection,
                                        valid: Overlay -> bool)
    requires Descending(os)
    ensures var accepted := Accepted(os, targets, select, valid);
            && AcceptedRun(accepted, targets, select)
            && forall o | o in accepted :: o in os && valid(o)
  {
    if os != [] {
      var n := |os| - 1;
      AcceptedRuns(os[..n], targets, select, valid);
      var before := Accepted(os[..n], targets, select, valid);
      if !Rejected(Stored(before, targets, select), targets, select, valid, os[n]) {
        AcceptedAppend(before, os[n], targets, select);
      }
    }
  }

  lemma StoredAppend(accepted: seq<Overlay>, targets: seq<Target>, select: Selection, o: Overlay)
    ensures Stored(accepted + [o], targets, select) == StoreAll(Stored(accepted, targets, select), targets, select, o)
  {
    assert (accepted + [o])[..|accepted|] == accepted;
  }

  /** An accepted overlay of equal weight prices one of the overlay's offerings. */
  ghost predicate PriceClash(accepted: seq<Overlay>, select: Selection, t: Target, o: Overlay) {
    o.price.Some? && exists k :: k in select(o, t) && EqualWeight(accepted, Pricing(select, t, k), o.weight)
  }

  /** An accepted overlay of equal weight sets one of the overlay's resources, and so does the last accepted one. */
  ghost predicate CapacityClash(accepted: seq<Overlay>, select: Selection, t: Target, o: Overlay) {
    && select(o, t) != [] && EqualWeight(accepted, Sharing(select, t, o), o.weight)
    && exists l: nat :: Last(accepted, Sizing(select, t), l) && Shares(o, accepted[l])
  }

  /** Some type the overlay selects is already overlaid at its weight, as far as the code sees. */
  ghost predicate Clashes(accepted: seq<Overlay>, targets: seq<Target>, select: Selection, o: Overlay) {
    exists t :: t in targets && (PriceClash(accepted, select, t, o) || CapacityClash(accepted, select, t, o))
  }

  /** Why the n-th overlay of a reconcile is refused, in terms of the overlays accepted before it. */
  lemma RefusedIff(os: seq<Overlay>, targets: seq<Target>, select: Selection, valid: Overlay -> bool, n: nat)
    requires Descending(os) && NoDuplicates(targets) && n < |os|
    ensures var accepted := Accepted(os[..n], targets, select, valid);
            !Accepts(Stored(accepted, targets, select), targets, select, os[n]) <==>
            Clashes(accepted, targets, select, os[n])
  {
    var o := os[n];
    var accepted := Accepted(os[..n], targets, select, valid);
    var u := Stored(accepted, targets, select);
    AcceptedRuns(os[..n], targets, select, valid);
    forall i: nat | i < |accepted| ensures accepted[i].weight >= o.weight {
      assert accepted[i] in os[..n];
    }
    forall t | t in targets
      ensures PriceConflicts(u, t, o, select(o, t)) <==> PriceClash(accepted, select, t, o)
      ensures select(o, t) != [] && CapacityConflicts(u, t, o) <==> CapacityClash(accepted, select, t, o)
    {
      PriceConflictExact(accepted, targets, select, t, o);
      CapacityCheckMisses(accepted, targets, select, t, o);
    }
  }

  /** The fate of each overlay in turn: invalid ones are passed over, valid ones accepted unless they clash. */
  lemma EachVerdict(os: seq<Overlay>, targets: seq<Target>, select: Selection, valid: Overlay -> bool, n: nat)
    requires Descending(os) && NoDuplicates(targets) && n < |os|
    ensures var accepted, conflicts := Accepted(os[..n], targets, select, valid),
                                       Conflicts(os[..n], targets, select, valid);
            var clash := Clashes(accepted, targets, select, os[n]);
            && Accepted(os[..n + 1], targets, select, valid) ==
               accepted + (if valid(os[n]) && !clash then [os[n]] else [])
            && Conflicts(os[..n + 1], targets, select, valid) ==
               conflicts + if valid(os[n]) && clash then [os[n]] else []
  {
    RefusedIff(os, targets, select, valid, n);
    assert os[..n + 1][..n] == os[..n];
  }

  class InstanceTypeStore {
    var updates: Updates

    constructor ()
      ensures updates == map[]
    {
      updates := map[];
    }

    method UpdateInstanceTypeOffering(t: Target, o: Overlay, offerings: seq<string>)
      modifies this
      ensures updates == if o.price.None? then old(updates)
                         else old(updates)[t := Priced(Entry(old(updates), t), o, offerings)]
    {
      if o.price.None? {
        return;
      }
      if t !in updates {
        updates := updates[t := NO_UPDATE];
      }
      ghost var start := Entry(old(updates), t);
      assert Priced(start, o, offerings[..0]) == start by {
        assert Priced(start, o, offerings[..0]).prices == start.prices;
      }
      for i := 0 to |offerings|
        invariant updates == old(updates)[t := Priced(start, o, offerings[..i])]
      {
        var key := offerings[i];
        var prices := updates[t].prices;
        var stored := PriceUpdate(if key in prices then prices[key].update else o.price.value, o.weight);
        PricedNext(start, o, offerings, i);
        Replaced(old(updates), t, Priced(start, o, offerings[..i]), Priced(start, o, offerings[..i + 1]));
        updates := updates[t := updates[t].(prices := prices[key := stored])];
      }
      assert offerings[..|offerings|] == offerings;
    }

    method UpdateInstanceTypeCapacity(t: Target, o: Overlay)
      modifies this
      ensures updates == if o.capacity.None? then old(updates) else old(updates)[t := Sized(Entry(old(updates), t), o)]
    {
      if o.capacity.None? {
        return;
      }
      if t !in updates {
        updates := updates[t := NO_UPDATE];
      }
      var capacity := updates[t].capacity;
      ghost var start := capacity.resources;
      var left := o.capacity.value.Keys;
      var merged := capacity.resources;
      while left != {}
        invariant left <= o.capacity.value.Keys
        invariant merged.Keys == start.Keys + (o.capacity.value.Keys - left)
        invariant forall r | r in merged :: merged[r] == if r in start then start[r] else o.capacity.value[r]
      {
        var r :| r in left;
        if r !in merged {
          merged := merged[r := o.capacity.value[r]];
        }
        left := left - {r};
      }
      assert merged == o.capacity.value + start;
      updates := updates[t := updates[t].(capacity := CapacityUpdate(merged, o.capacity.value.Keys, o.weight))];
    }

    method IsOfferingUpdateConflicting(t: Target, key: string, o: Overlay) returns (conflict: bool)
      ensures conflict <==> key in Entry(updates, t).prices && Entry(updates, t).prices[key].lowestWeight == o.weight
    {
      if t !in updates || key !in updates[t].prices {
        return false;
      }
      return updates[t].prices[key].lowestWeight == o.weight;
    }

    method IsCapacityUpdateConflicting(t: Target, o: Overlay) returns (conflict: bool)
      ensures conflict <==> CapacityConflicts(updates, t, o)
    {
      if o.capacity.None? || t !in updates || updates[t].capacity.lowestWeight != o.weight {
        return false;
      }
      var left := o.capacity.value.Keys;
      while left != {}
        invariant left <= o.capacity.value.Keys
        invariant forall r | r in o.capacity.value.Keys - left :: r !in updates[t].capacity.lastResources
      {
        var r :| r in left;
        if r in updates[t].capacity.lastResources {
          return true;
        }
        left := left - {r};
      }
      return false;
    }

    method IsPriceUpdatesConflicting(t: Target, offerings: seq<string>, o: Overlay) returns (conflict: bool)
      ensures conflict <==> PriceConflicts(updates, t, o, offerings)
    {
      if o.price.None? {
        return false;
      }
      for i := 0 to |offerings|
        invariant forall k | k in offerings[..i] ::
          !(k in Entry(updates, t).prices && Entry(updates, t).prices[k].lowestWeight == o.weight)
      {
        var found := IsOfferingUpdateConflicting(t, offerings[i], o);
        if found {
          return true;
        }
      }
      return false;
    }

    /** `validateInstanceTypesOverride` over every node pool's instance types. */
    method Validate(targets: seq<Target>, select: Selection, o: Overlay) returns (ok: bool)
      ensures ok <==> Accepts(updates, targets, select, o)
    {
      for i := 0 to |targets|
        invariant Accepts(updates, targets[..i], select, o)
      {
        var offerings := select(o, targets[i]);
        if offerings == [] {
          continue;
        }
        var price := IsPriceUpdatesConflicting(targets[i], offerings, o);
        var capacity := IsCapacityUpdateConflicting(targets[i], o);
        if price || capacity {
          return false;
        }
      }
      assert targets[..|targets|] == targets;
      return true;
    }

    /** `storeUpdatesForInstanceTypeOverride` over every node pool's instance types. */
    method StoreUpdates(targets: seq<Target>, select: Selection, o: Overlay)
      modifies this
      ensures updates == StoreAll(old(updates), targets, select, o)
    {
      for i := 0 to |targets|
        invariant updates == StoreAll(old(updates), targets[..i], select, o)
      {
        assert targets[..i + 1][..i] == targets[..i];
        var offerings := select(o, targets[i]);
        if offerings == [] {
          continue;
        }
        ghost var before := updates;
        UpdateInstanceTypeOffering(targets[i], o, offerings);
        UpdateInstanceTypeCapacity(targets[i], o);
        assert updates == StoreOne(before, targets[i], o, offerings);
      }
      assert targets[..|targets|] == targets;
    }

    /** Validation finishes before anything is stored, so a refused overlay leaves the store as it was. */
    method ValidateAndUpdate(targets: seq<Target>, select: Selection, o: Overlay) returns (ok: bool)
      modifies this
      ensures ok <==> Accepts(old(updates), targets, select, o)
      ensures updates == if ok then StoreAll(old(updates), targets, select, o) else old(updates)
    {
      ok := Validate(targets, select, o);
      if ok {
        StoreUpdates(targets, select, o);
      }
    }
  }

  lemma Replaced(base: Updates, t: Target, before: Update, after: Update)
    ensures base[t := before][t] == before && base[t := before][t := after] == base[t := after]
  {
  }

  lemma PricedNext(e: Update, o: Overlay, keys: seq<string>, i: nat)
    requires i < |keys| && o.price.Some?
    ensures var before := Priced(e, o, keys[..i]).prices;
            var stored := PriceUpdate(if keys[i] in before then before[keys[i]].update else o.price.value, o.weight);
            Priced(e, o, keys[..i + 1]) == Priced(e, o, keys[..i]).(prices := before[keys[i] := stored])
  {
    var before := Priced(e, o, keys[..i]).prices;
    var stored := PriceUpdate(if keys[i] in before then before[keys[i]].update else o.price.value, o.weight);
    assert keys[..i + 1] == keys[..i] + [keys[i]];
    assert Priced(e, o, keys[..i + 1]).prices == before[keys[i] := stored];
  }

  // The order of processing

  /** The name is later in the alphabet. */
  predicate Later(a: string, b: string) {
    if a == "" then false
    else if b == "" then true
    else if a[0] != b[0] then a[0] > b[0]
    else Later(a[1..], b[1..])
  }

  /** Later names come later in the dictionary: at the first difference, or by going on where the other ends. */
  lemma {:induction false} LaterIff(a: string, b: string)
    ensures Later(a, b) <==>
            exists i: nat :: i < |a| && i <= |b| && a[..i] == b[..i] && (i == |b| || a[i] > b[i])
  {
    if a != "" && b != "" && a[0] == b[0] {
      LaterIff(a[1..], b[1..]);
      if Later(a, b) {
        var i: nat :| i < |a[1..]| && i <= |b[1..]| && a[1..][..i] == b[1..][..i]
                      && (i == |b[1..]| || a[1..][i] > b[1..][i]);
        assert a[..i + 1] == [a[0]] + a[1..][..i] && b[..i + 1] == [b[0]] + b[1..][..i];
      }
      forall i: nat | i < |a| && i <= |b| && a[..i] == b[..i] && (i == |b| || a[i] > b[i]) ensures Later(a, b) {
        assert a[..i][1..] == a[1..][..i - 1] && b[..i][1..] == b[1..][..i - 1];
      }
    } else if Later(a, b) {
      assert a[..0] == b[..0];
    }
  }

  lemma {:induction false} LaterIsTotal(a: string, b: string)
    ensures a == b <==> !Later(a, b) && !Later(b, a)
    ensures !(Later(a, b) && Later(b, a))
  {
    if a != "" && b != "" && a[0] == b[0] {
      LaterIsTotal(a[1..], b[1..]);
      assert a == [a[0]] + a[1..] && b == [b[0]] + b[1..];
    }
  }

  lemma {:induction false} LaterIsTransitive(a: string, b: string, c: string)
    requires Later(a, b) && Later(b, c)
    ensures Later(a, c)
  {
    if c != "" && a[0] == b[0] == c[0] {
      LaterIsTransitive(a[1..], b[1..], c[1..]);
    }
  }

  /** Larger weights come first; of equal weights, the later name. */
  predicate Before(x: Overlay, y: Overlay) {
    x.weight > y.weight || (x.weight == y.weight && Later(x.name, y.name))
  }

  lemma NotBeforeTransitive(x: Overlay, y: Overlay, z: Overlay)
    requires !Before(y, x) && !Before(z, y)
    ensures !Before(z, x)
  {
    LaterIsTotal(x.name, y.name);
    LaterIsTotal(y.name, z.name);
    LaterIsTotal(x.name, z.name);
    if Later(x.name, y.name) && Later(y.name, z.name) {
      LaterIsTransitive(x.name, y.name, z.name);
    }
  }

  ghost predicate Ordered(os: seq<Overlay>) {
    forall i, j | 0 <= i < j < |os| :: !Before(os[j], os[i])
  }

  lemma InsertedInOrder(s: seq<Overlay>, x: Overlay, i: nat)
    requires Ordered(s) && i <= |s|
    requires i > 0 ==> !Before(x, s[i - 1])
    requires forall k | i <= k < |s| :: !Before(s[k], x)
    ensures Ordered(s[..i] + [x] + s[i..])
  {
    forall k: nat | k < i ensures !Before(x, s[k]) {
      if k < i - 1 {
        NotBeforeTransitive(s[k], s[i - 1], x);
      }
    }
  }

  method InsertByWeight(s: seq<Overlay>, x: Overlay) returns (r: seq<Overlay>)
    requires Ordered(s)
    ensures Ordered(r) && multiset(r) == multiset(s) + multiset{x}
  {
    var i := |s|;
    while i > 0 && Before(x, s[i - 1])
      invariant 0 <= i <= |s|
      invariant forall k | i <= k < |s| :: !Before(s[k], x)
    {
      LaterIsTotal(x.name, s[i - 1].name);
      i := i - 1;
    }
    r := s[..i] + [x] + s[i..];
    InsertedInOrder(s, x, i);
    Inserts(s, x, i);
  }

  method OrderByWeight(os: seq<Overlay>) returns (r: seq<Overlay>)
    ensures Ordered(r) && multiset(r) == multiset(os)
  {
    r := [];
    for i := 0 to |os|
      invariant Ordered(r) && multiset(r) == multiset(os[..i])
    {
      r := InsertByWeight(r, os[i]);
      assert os[..i + 1] == os[..i] + [os[i]];
    }
    assert os[..|os|] == os;
  }

  lemma OrderedDescends(os: seq<Overlay>)
    requires Ordered(os)
    ensures Descending(os)
  {
  }

  ghost predicate DistinctNames(os: seq<Overlay>) {
    forall i, j | 0 <= i < j < |os| :: os[i].name != os[j].name
  }

  lemma LastAgrees(r: seq<Overlay>, s: seq<Overlay>)
    requires Ordered(r) && Ordered(s) && DistinctNames(r) && multiset(r) == multiset(s) && r != []
    ensures |r| == |s| && r[|r| - 1] == s[|s| - 1]
  {
    SameMembers(r, s);
    var n := |r| - 1;
    assert r[n] in s && s[n] in r;
    var j :| 0 <= j <= n && s[j] == r[n];
    var i :| 0 <= i <= n && r[i] == s[n];
    if j < n && i < n {
      assert !Before(s[n], s[j]) && !Before(r[n], r[i]);
      LaterIsTotal(r[n].name, s[n].name);
    }
  }

  lemma Front(os: seq<Overlay>)
    requires os != [] && Ordered(os)
    ensures Ordered(os[..|os| - 1]) && multiset(os[..|os| - 1]) == multiset(os) - multiset{os[|os| - 1]}
    ensures os == os[..|os| - 1] + [os[|os| - 1]] && (DistinctNames(os) ==> DistinctNames(os[..|os| - 1]))
  {
    assert os == os[..|os| - 1] + [os[|os| - 1]];
  }

  /** Names are unique, so the order, and with it the whole reconcile, does not depend on how overlays are listed. */
  lemma {:induction false} OrderIsUnique(r: seq<Overlay>, s: seq<Overlay>)
    requires Ordered(r) && Ordered(s) && DistinctNames(r) && multiset(r) == multiset(s)
    ensures r == s
  {
    if r == [] {
      SameMembers(r, s);
    } else {
      LastAgrees(r, s);
      Front(r);
      Front(s);
      OrderIsUnique(r[..|r| - 1], s[..|s| - 1]);
    }
  }

  /**
   One reconcile: order by weight, then accept or refuse each overlay in turn. The store holds
   exactly the accepted overlays, and an overlay is reported exactly when it was refused.
   */
  method Reconcile(store: InstanceTypeStore, overlays: seq<Overlay>, targets: seq<Target>, select: Selection,
                   valid: Overlay -> bool)
    returns (ordered: seq<Overlay>, conflicts: seq<Overlay>)
    requires store.updates == map[]
    modifies store
    ensures Ordered(ordered) && multiset(ordered) == multiset(overlays)
    ensures store.updates == Stored(Accepted(ordered, targets, select, valid), targets, select)
    ensures AcceptedRun(Accepted(ordered, targets, select, valid), targets, select)
    ensures conflicts == Conflicts(ordered, targets, select, valid)
  {
    ordered := OrderByWeight(overlays);
    OrderedDescends(ordered);
    conflicts := [];
    for i := 0 to |ordered|
      invariant store.updates == Stored(Accepted(ordered[..i], targets, select, valid), targets, select)
      invariant conflicts == Conflicts(ordered[..i], targets, select, valid)
    {
      assert ordered[..i + 1][..i] == ordered[..i];
      if !valid(ordered[i]) {
        continue;
      }
      StoredAppend(Accepted(ordered[..i], targets, select, valid), targets, select, ordered[i]);
      var ok := store.ValidateAndUpdate(targets, select, ordered[i]);
      if !ok {
        conflicts := conflicts + [ordered[i]];
      }
    }
    assert ordered[..|ordered|] == ordered;
    AcceptedRuns(ordered, targets, select, valid);
  }
}
