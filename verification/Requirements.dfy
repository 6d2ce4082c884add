/**
 Requirements keyed by label (pkg/scheduling/requirements.go): accumulation by intersection,
 compatibility, and the serialised form that is written to the API and read back.
 */
module Requirements {
  import opened Wrappers
  import opened Numerals
  import opened Requirement

  type Requirements = map<string, Requirement>

  predicate Consistent(r: Requirements) {
    forall k | k in r :: r[k].key == k && WellFormed(r[k])
  }

  /** A label nobody constrains admits any value. */
  function Get(r: Requirements, key: string): (q: Requirement)
    ensures Consistent(r) ==> q.key == key && WellFormed(q)
  {
    if key in r then r[key] else New(key, Exists, None, [])
  }

  // Accumulation

  function AddOne(r: Requirements, q: Requirement): Requirements {
    if q.key in r then
      var both := Intersection(q, r[q.key]);
      r[both.key := both]
    else r[q.key := q]
  }

  function AddAll(r: Requirements, qs: seq<Requirement>): Requirements
    decreases |qs|
  {
    if qs == [] then r else AddAll(AddOne(r, qs[0]), qs[1..])
  }

  /** The loop of `Requirements.Add`. */
  method Add(r: Requirements, qs: seq<Requirement>) returns (sum: Requirements)
    ensures sum == AddAll(r, qs)
  {
    sum := r;
    for i := 0 to |qs|
      invariant AddAll(r, qs) == AddAll(sum, qs[i..])
    {
      var q := qs[i];
      if q.key in sum {
        q := Intersect(q, sum[q.key]);
      }
      sum := sum[q.key := q];
      assert qs[i..][1..] == qs[i + 1..];
    }
    assert qs[|qs|..] == [];
  }

  predicate AllWellFormed(qs: seq<Requirement>) {
    forall i | 0 <= i < |qs| :: WellFormed(qs[i])
  }

  lemma AddOneConsistent(r: Requirements, q: Requirement)
    requires Consistent(r) && WellFormed(q)
    ensures Consistent(AddOne(r, q))
    ensures AddOne(r, q).Keys == r.Keys + {q.key}
  {
    if q.key in r {
      IntersectionDenotes(q, r[q.key]);
    }
  }

  /** After adding a list, a key admits what it admitted before and every added requirement admits. */
  lemma {:induction false} AddAllDenotes(r: Requirements, qs: seq<Requirement>, key: string, v: string)
    requires Consistent(r) && AllWellFormed(qs)
    ensures Consistent(AddAll(r, qs))
    ensures Has(Get(AddAll(r, qs), key), v) <==>
            Has(Get(r, key), v) && forall i | 0 <= i < |qs| :: qs[i].key == key ==> Has(qs[i], v)
    decreases |qs|
  {
    if qs != [] {
      AddOneConsistent(r, qs[0]);
      AddOneDenotes(r, qs[0], key, v);
      AddAllDenotes(AddOne(r, qs[0]), qs[1..], key, v);
      assert forall i | 1 <= i < |qs| :: qs[i] == qs[1..][i - 1];
    }
  }

  lemma AddOneDenotes(r: Requirements, q: Requirement, key: string, v: string)
    requires Consistent(r) && WellFormed(q)
    ensures Has(Get(AddOne(r, q), key), v) <==> Has(Get(r, key), v) && (q.key == key ==> Has(q, v))
  {
    if q.key in r {
      IntersectionDenotes(q, r[q.key]);
    }
  }

  /** A minValues is the largest of those asked for: at least each of them, and one of them. */
  ghost predicate LargestAsked(m: Option<int>, first: Option<int>, qs: seq<Requirement>, key: string) {
    && (first.Some? ==> m.Some? && m.value >= first.value)
    && (forall i | 0 <= i < |qs| && qs[i].key == key && qs[i].minValues.Some? ::
          m.Some? && m.value >= qs[i].minValues.value)
    && (m.Some? ==> m == first || exists i :: 0 <= i < |qs| && qs[i].key == key && qs[i].minValues == m)
  }

  /** The minValues stored under a key is the largest of the one there and those added. */
  lemma {:induction false} AddAllMinValues(r: Requirements, qs: seq<Requirement>, key: string)
    requires Consistent(r) && AllWellFormed(qs)
    ensures LargestAsked(Get(AddAll(r, qs), key).minValues, Get(r, key).minValues, qs, key)
    decreases |qs|
  {
    if qs != [] {
      var q, rest := qs[0], qs[1..];
      AddOneConsistent(r, q);
      AddOneMinValues(r, q, key);
      AddAllMinValues(AddOne(r, q), rest, key);
      LargestOfAll(Get(AddAll(r, qs), key).minValues, Get(AddOne(r, q), key).minValues, Get(r, key).minValues, qs, key);
    }
  }

  lemma AddOneMinValues(r: Requirements, q: Requirement, key: string)
    ensures LargestAsked(Get(AddOne(r, q), key).minValues, Get(r, key).minValues, [q], key)
  {
    if q.key in r {
      IntersectionMinValues(q, r[q.key]);
    }
    assert [q][0] == q;
  }

  lemma LargestOfAll(m: Option<int>, mid: Option<int>, first: Option<int>, qs: seq<Requirement>, key: string)
    requires qs != [] && LargestAsked(mid, first, [qs[0]], key) && LargestAsked(m, mid, qs[1..], key)
    ensures LargestAsked(m, first, qs, key)
  {
    assert [qs[0]][0] == qs[0];
    forall i | 0 <= i < |qs| && qs[i].key == key && qs[i].minValues.Some?
      ensures m.Some? && m.value >= qs[i].minValues.value
    {
      assert i > 0 ==> qs[1..][i - 1] == qs[i];
    }
    if m.Some? && m != first && m != mid {
      var i :| 0 <= i < |qs[1..]| && qs[1..][i].key == key && qs[1..][i].minValues == m;
      assert qs[i + 1].minValues == m;
    }
  }

  lemma AddOneCommutes(r: Requirements, p: Requirement, q: Requirement)
    requires Consistent(r) && WellFormed(p) && WellFormed(q)
    ensures AddOne(AddOne(r, p), q) == AddOne(AddOne(r, q), p)
  {
    if p.key == q.key {
      AddOneTwice(r, p, q);
      AddOneTwice(r, q, p);
      if p.key in r {
        IntersectionSwaps(p, q, r[p.key]);
      } else {
        IntersectionCommutes(p, q);
      }
    } else {
      AddOneElsewhere(r, p, q);
      AddOneElsewhere(r, q, p);
    }
  }

  lemma AddOneTwice(r: Requirements, p: Requirement, q: Requirement)
    requires p.key == q.key
    ensures AddOne(AddOne(r, p), q) == r[p.key := Intersection(q, Stored(r, p))]
  {
    assert AddOne(r, p) == r[p.key := Stored(r, p)];
  }

  lemma IntersectionSwaps(p: Requirement, q: Requirement, e: Requirement)
    requires WellFormed(p) && WellFormed(q) && WellFormed(e) && p.key == q.key == e.key
    ensures Intersection(q, Intersection(p, e)) == Intersection(p, Intersection(q, e))
  {
    IntersectionCommutes(p, q);
    IntersectionAssociates(p, q, e);
    IntersectionAssociates(q, p, e);
  }

  /** What is stored under a key depends on that key alone. */
  function Stored(r: Requirements, q: Requirement): (s: Requirement)
    ensures s.key == q.key
  {
    if q.key in r then Intersection(q, r[q.key]) else q
  }

  lemma AddOneElsewhere(r: Requirements, p: Requirement, q: Requirement)
    requires p.key != q.key
    ensures AddOne(AddOne(r, p), q) == r[p.key := Stored(r, p)][q.key := Stored(r, q)]
  {
    assert AddOne(r, p) == r[p.key := Stored(r, p)];
    assert Stored(AddOne(r, p), q) == Stored(r, q);
  }

  lemma RemoveAt<T>(s: seq<T>, i: nat)
    requires i < |s|
    ensures multiset(s[..i] + s[i + 1..]) == multiset(s) - multiset{s[i]}
  {
    assert s == s[..i] + [s[i]] + s[i + 1..];
  }

  lemma {:induction false} AddFirst(r: Requirements, qs: seq<Requirement>, i: nat)
    requires Consistent(r) && AllWellFormed(qs) && i < |qs|
    ensures AddAll(r, qs) == AddAll(AddOne(r, qs[i]), qs[..i] + qs[i + 1..])
    decreases i
  {
    if i == 0 {
      assert qs[..0] + qs[1..] == qs[1..];
    } else {
      AddOneConsistent(r, qs[0]);
      AddFirst(AddOne(r, qs[0]), qs[1..], i - 1);
      AddOneCommutes(r, qs[0], qs[i]);
      var rest := qs[..i] + qs[i + 1..];
      assert rest[1..] == qs[1..][..i - 1] + qs[1..][i..];
    }
  }

  lemma TakeOut(r: Requirements, qs: seq<Requirement>, q: Requirement) returns (rest: seq<Requirement>)
    requires Consistent(r) && AllWellFormed(qs) && q in multiset(qs)
    ensures AddAll(r, qs) == AddAll(AddOne(r, q), rest)
    ensures multiset(rest) == multiset(qs) - multiset{q}
    ensures AllWellFormed(rest) && WellFormed(q)
  {
    var i :| 0 <= i < |qs| && qs[i] == q;
    AddFirst(r, qs, i);
    RemoveAt(qs, i);
    rest := qs[..i] + qs[i + 1..];
  }

  /** The outcome of adding a list does not depend on its order. */
  lemma {:induction false} AddOrderIrrelevant(r: Requirements, ps: seq<Requirement>, qs: seq<Requirement>)
    requires Consistent(r) && AllWellFormed(ps)
    requires multiset(ps) == multiset(qs)
    ensures AddAll(r, ps) == AddAll(r, qs)
    decreases |qs|
  {
    if qs == [] {
      assert |multiset(ps)| == 0;
    } else {
      var q, tail := qs[0], qs[1..];
      assert qs == [q] + tail;
      var rest := TakeOut(r, ps, q);
      AddOneConsistent(r, q);
      AddOrderIrrelevant(AddOne(r, q), rest, tail);
    }
  }

  // Compatibility

  predicate IsNegative(op: Operator) {
    op.NotIn? || op.DoesNotExist?
  }

  predicate Intersects(r: Requirements, q: Requirements) {
    forall k | k in r && k in q ::
      HasIntersection(r[k], q[k]) || (IsNegative(OperatorOf(q[k])) && IsNegative(OperatorOf(r[k])))
  }

  predicate IsCompatible(r: Requirements, q: Requirements, allowUndefined: set<string>) {
    && (forall k | k in q && k !in allowUndefined :: k in r || IsNegative(OperatorOf(q[k])))
    && Intersects(r, q)
  }

  // Serialisation

  /** `NotIn` and `DoesNotExist` are met by a node without the label. */
  ghost predicate AllowsAbsence(r: Requirement) {
    OperatorOf(r) == NotIn || OperatorOf(r) == DoesNotExist
  }

  /**
   What compatibility means: on every label asked for, some value is admitted by both sides, or both
   are met without the label; a label the other side does not define must be one that may be
   undefined, or be met without it.
   */
  lemma CompatibleIff(r: Requirements, q: Requirements, allowUndefined: set<string>)
    requires Consistent(r) && Consistent(q)
    ensures IsCompatible(r, q, allowUndefined) <==>
            forall k | k in q ::
              if k in r then (exists v :: Has(r[k], v) && Has(q[k], v)) || (AllowsAbsence(r[k]) && AllowsAbsence(q[k]))
              else k in allowUndefined || AllowsAbsence(q[k])
  {
    forall k | k in r && k in q ensures HasIntersection(r[k], q[k]) <==> exists v :: Has(r[k], v) && Has(q[k], v) {
      HasIntersectionExact(r[k], q[k]);
    }
  }

  /** Two requirements without a common value are compatible exactly when both are met without the label. */
  lemma NoValueInCommon(k: string, v: string, w: string)
    requires v != w
    ensures var none, not, one, other := New(k, DoesNotExist, None, []), New(k, NotIn, None, [v]),
                                         New(k, In, None, [v]), New(k, In, None, [w]);
            && Intersects(map[k := none], map[k := not]) && Intersects(map[k := not], map[k := none])
            && !Intersects(map[k := none], map[k := one]) && !Intersects(map[k := not], map[k := one])
            && !Intersects(map[k := one], map[k := other])
  {
    var none, not, one, other := New(k, DoesNotExist, None, []), New(k, NotIn, None, [v]), New(k, In, None, [v]),
                                 New(k, In, None, [w]);
    assert [v][0] == v && [w][0] == w;
    assert not.values == one.values == {v} && other.values == {w};
    OnOneLabel(k, none, not);
    OnOneLabel(k, not, none);
    OnOneLabel(k, none, one);
    OnOneLabel(k, not, one);
    OnOneLabel(k, one, other);
  }

  lemma OnOneLabel(k: string, a: Requirement, b: Requirement)
    ensures Intersects(map[k := a], map[k := b]) <==>
            HasIntersection(a, b) || (AllowsAbsence(a) && AllowsAbsence(b))
  {
    var r, q := map[k := a], map[k := b];
    assert k in r && k in q;
  }

  datatype Selector = Selector(key: string, op: Operator, values: seq<string>, minValues: Option<int>)

  /** The aliases of `NormalizedLabels` and `NormalizedLabelValues`. */
  datatype Normalizer = Normalizer(labels: map<string, string>, values: map<string, map<string, string>>) {
    function Key(key: string): string {
      if key in labels then labels[key] else key
    }

    function Value(key: string, v: string): string {
      if key in values && v in values[key] then values[key][v] else v
    }

    function Values(key: string, vs: seq<string>): (r: seq<string>)
      ensures |r| == |vs|
    {
      seq(|vs|, i requires 0 <= i < |vs| => Value(key, vs[i]))
    }
  }

  predicate Valid(n: Normalizer, s: Selector) {
    Prevalidated(s.op, n.Values(n.Key(s.key), s.values))
  }

  predicate AllValid(n: Normalizer, list: seq<Selector>) {
    forall i | 0 <= i < |list| :: Valid(n, list[i])
  }

  /** `NewRequirementWithFlexibility` with its normalisation. */
  function Parse(n: Normalizer, s: Selector): Requirement
    requires Valid(n, s)
  {
    New(n.Key(s.key), s.op, s.minValues, n.Values(n.Key(s.key), s.values))
  }

  function ParseAll(n: Normalizer, list: seq<Selector>): (r: seq<Requirement>)
    requires AllValid(n, list)
    ensures |r| == |list|
  {
    seq(|list|, i requires 0 <= i < |list| => Parse(n, list[i]))
  }

  /** The values of a selector under their normal names, given by the table alone. */
  ghost predicate NormalNames(n: Normalizer, s: Selector, key: string, names: seq<string>) {
    && key == (if s.key in n.labels then n.labels[s.key] else s.key) && |names| == |s.values|
    && forall i | 0 <= i < |names| ::
         names[i] == if key in n.values && s.values[i] in n.values[key] then n.values[key][s.values[i]] else s.values[i]
  }

  /** A parsed selector is stored under the normal key and admits what its operator says of the normal values. */
  lemma ParseDenotes(n: Normalizer, s: Selector, key: string, names: seq<string>)
    requires Valid(n, s) && NormalNames(n, s, key, names)
    ensures Parse(n, s).key == key && Prevalidated(s.op, names)
    ensures (forall v :: Has(Parse(n, s), v) <==> Admits(s.op, names, v))
            <==> !(s.op.Lt? && Atoi(names[0]).value == MIN_INT)
    ensures Parse(n, s).minValues == if s.op.Gt? && Atoi(names[0]).value == MAX_INT then None else s.minValues
  {
    assert n.Values(n.Key(s.key), s.values) == names;
    NewDenotes(key, s.op, s.minValues, names);
  }

  /** The loop of `NewNodeSelectorRequirementsWithMinValues`. */
  method FromSelectors(n: Normalizer, list: seq<Selector>) returns (r: Requirements)
    requires AllValid(n, list)
    ensures r == AddAll(map[], ParseAll(n, list))
  {
    r := map[];
    ghost var qs := ParseAll(n, list);
    for i := 0 to |list|
      invariant AddAll(map[], qs) == AddAll(r, qs[i..])
    {
      r := Add(r, [Parse(n, list[i])]);
      assert qs[i..][0] == Parse(n, list[i]) && qs[i..][1..] == qs[i + 1..];
    }
    assert qs[|list|..] == [];
  }

  predicate IsBounded(r: Requirement) {
    r.gte.Some? && r.lte.Some?
  }

  function GteSelector(r: Requirement): Selector
    requires r.gte.Some?
  {
    Selector(r.key, Gte, [FormatInt(r.gte.value)], r.minValues)
  }

  function LteSelector(r: Requirement): Selector
    requires r.lte.Some?
  {
    Selector(r.key, Lte, [FormatInt(r.lte.value)], r.minValues)
  }

  /** `NodeSelectorRequirement`, given a listing of the requirement's values. */
  function ToSelector(r: Requirement, listing: seq<string>): Selector {
    if r.gte.Some? then GteSelector(r)
    else if r.lte.Some? then LteSelector(r)
    else if r.values != {} then Selector(r.key, OperatorOf(r), listing, r.minValues)
    else Selector(r.key, OperatorOf(r), [], r.minValues)
  }

  /** A list that a requirement may be written as; the order its values are listed in is free. */
  ghost predicate Serialises(r: Requirement, list: seq<Selector>) {
    if IsBounded(r) then list == [GteSelector(r), LteSelector(r)]
    else exists listing :: (set v | v in listing) == r.values && list == [ToSelector(r, listing)]
  }

  /** A walk over the map, newest entry last: each key with the selectors written for it. */
  datatype Walk = Start | Step(before: Walk, key: string, entry: seq<Selector>) {
    function List(): seq<Selector> {
      if Start? then [] else before.List() + entry
    }

    function Keys(): set<string> {
      if Start? then {} else before.Keys() + {key}
    }

    ghost predicate Writes(r: Requirements) {
      Step? ==> key in r && key !in before.Keys() && Serialises(r[key], entry) && before.Writes(r)
    }
  }

  method Listing(s: set<string>) returns (list: seq<string>)
    ensures (set v | v in list) == s
  {
    list := [];
    var rest := s;
    while rest != {}
      invariant rest <= s && (set v | v in list) == s - rest
    {
      var v :| v in rest;
      assert (set u | u in list + [v]) == (set u | u in list) + {v};
      list := list + [v];
      rest := rest - {v};
    }
  }

  method Entry(r: Requirement) returns (entry: seq<Selector>)
    ensures Serialises(r, entry)
  {
    if IsBounded(r) {
      entry := [GteSelector(r), LteSelector(r)];
    } else {
      var values := Listing(r.values);
      entry := [ToSelector(r, values)];
    }
  }

  /** The loop of `Requirements.NodeSelectorRequirements`, in any iteration order of the map. */
  method ToSelectors(r: Requirements) returns (list: seq<Selector>, ghost walk: Walk)
    ensures walk.Writes(r) && walk.Keys() == r.Keys && list == walk.List()
  {
    list, walk := [], Start;
    var rest := r.Keys;
    while rest != {}
      invariant rest <= r.Keys
      invariant walk.Writes(r) && walk.Keys() == r.Keys - rest && list == walk.List()
    {
      var k :| k in rest;
      var entry := Entry(r[k]);
      list, walk, rest := list + entry, Step(walk, k, entry), rest - {k};
    }
  }

  /** What survives serialisation: bounds win, and exclusions beside bounds are dropped. */
  function Forget(r: Requirement): Requirement {
    if r.gte.Some? || r.lte.Some? then r.(values := {}) else r
  }

  function ForgetAll(r: Requirements, keys: set<string>): Requirements
    requires keys <= r.Keys
  {
    map k | k in keys :: Forget(r[k])
  }

  /** The strings a requirement is written with are not renamed when it is read back. */
  predicate Stable(n: Normalizer, r: Requirement) {
    && n.Key(r.key) == r.key
    && (r.gte.Some? ==> n.Value(r.key, FormatInt(r.gte.value)) == FormatInt(r.gte.value))
    && (r.lte.Some? ==> n.Value(r.key, FormatInt(r.lte.value)) == FormatInt(r.lte.value))
    && (forall v | v in r.values :: n.Value(r.key, v) == v)
  }

  lemma BoundReadsBack(n: Normalizer, key: string, op: Operator, bound: int, minValues: Option<int>)
    requires InRange(bound) && (op.Gte? || op.Lte?)
    requires n.Key(key) == key && n.Value(key, FormatInt(bound)) == FormatInt(bound)
    ensures var s := Selector(key, op, [FormatInt(bound)], minValues);
            && Valid(n, s)
            && Parse(n, s) == Requirement(key, true, {}, if op.Gte? then Some(bound) else None,
                                          if op.Lte? then Some(bound) else None, minValues)
  {
    SpellingReadsBack(bound, 0);
    TextReadsBack(n, key, op, FormatInt(bound), bound, minValues);
  }

  lemma TextReadsBack(n: Normalizer, key: string, op: Operator, text: string, bound: int, minValues: Option<int>)
    requires Atoi(text) == Some(bound) && (op.Gte? || op.Lte?)
    requires n.Key(key) == key && n.Value(key, text) == text
    ensures var s := Selector(key, op, [text], minValues);
            && Valid(n, s)
            && Parse(n, s) == Requirement(key, true, {}, if op.Gte? then Some(bound) else None,
                                          if op.Lte? then Some(bound) else None, minValues)
  {
    assert n.Values(key, [text]) == [text];
  }

  lemma ListingReadsBack(n: Normalizer, r: Requirement, listing: seq<string>)
    requires WellFormed(r) && Stable(n, r) && r.gte.None? && r.lte.None?
    requires (set v | v in listing) == r.values
    ensures Valid(n, ToSelector(r, listing)) && Parse(n, ToSelector(r, listing)) == r
  {
    var s := ToSelector(r, listing);
    assert s.values == if r.values != {} then listing else [];
    assert forall i | 0 <= i < |listing| :: listing[i] in r.values;
    assert n.Values(r.key, s.values) == s.values;
    assert r.values == {} ==> (set v: string | v in s.values) == {};
  }

  lemma BoundsMeet(m: Requirements, low: Requirement, high: Requirement)
    requires low.complement && low.values == {} && low.gte.Some? && low.lte.None?
    requires high == low.(gte := None, lte := high.lte) && high.lte.Some? && low.gte.value <= high.lte.value
    requires low.key !in m
    ensures AddOne(AddOne(m, low), high) == m[low.key := low.(lte := high.lte)]
  {
    assert Intersection(high, low) == low.(lte := high.lte);
  }

  lemma BoundsReadBack(n: Normalizer, r: Requirement)
    requires WellFormed(r) && Stable(n, r) && IsBounded(r)
    ensures Valid(n, GteSelector(r)) && Valid(n, LteSelector(r))
    ensures Parse(n, GteSelector(r)) == Forget(r).(lte := None)
    ensures Parse(n, LteSelector(r)) == Forget(r).(gte := None)
  {
    BoundReadsBack(n, r.key, Gte, r.gte.value, r.minValues);
    BoundReadsBack(n, r.key, Lte, r.lte.value, r.minValues);
  }

  lemma SelectorReadsBack(n: Normalizer, r: Requirement, listing: seq<string>)
    requires WellFormed(r) && Stable(n, r) && !IsBounded(r)
    requires (set v | v in listing) == r.values
    ensures Valid(n, ToSelector(r, listing)) && Parse(n, ToSelector(r, listing)) == Forget(r)
  {
    if r.gte.Some? {
      BoundReadsBack(n, r.key, Gte, r.gte.value, r.minValues);
    } else if r.lte.Some? {
      BoundReadsBack(n, r.key, Lte, r.lte.value, r.minValues);
    } else {
      ListingReadsBack(n, r, listing);
    }
  }

  lemma AddPair(m: Requirements, p: Requirement, q: Requirement)
    ensures AddAll(m, [p, q]) == AddOne(AddOne(m, p), q)
  {
    AddAllSplits(m, [p], [q]);
    assert [p] + [q] == [p, q];
  }

  /** One requirement, written and added to a map that does not hold its key yet. */
  lemma SerialisedReadsBack(n: Normalizer, r: Requirement, list: seq<Selector>, m: Requirements)
    requires WellFormed(r) && Stable(n, r) && Serialises(r, list)
    requires r.key !in m
    ensures AllValid(n, list)
    ensures AddAll(m, ParseAll(n, list)) == m[r.key := Forget(r)]
  {
    if IsBounded(r) {
      PairReadsBack(n, r, m);
    } else {
      var listing :| (set v | v in listing) == r.values && list == [ToSelector(r, listing)];
      SelectorReadsBack(n, r, listing);
      assert ParseAll(n, list) == [Forget(r)];
    }
  }

  lemma PairReadsBack(n: Normalizer, r: Requirement, m: Requirements)
    requires WellFormed(r) && Stable(n, r) && IsBounded(r) && r.key !in m
    ensures AllValid(n, [GteSelector(r), LteSelector(r)])
    ensures AddAll(m, ParseAll(n, [GteSelector(r), LteSelector(r)])) == m[r.key := Forget(r)]
  {
    BoundsReadBack(n, r);
    PairAdds(n, r, GteSelector(r), LteSelector(r), m);
  }

  lemma PairAdds(n: Normalizer, r: Requirement, s: Selector, t: Selector, m: Requirements)
    requires WellFormed(r) && IsBounded(r) && r.key !in m
    requires Valid(n, s) && Parse(n, s) == Forget(r).(lte := None)
    requires Valid(n, t) && Parse(n, t) == Forget(r).(gte := None)
    ensures AllValid(n, [s, t])
    ensures AddAll(m, ParseAll(n, [s, t])) == m[r.key := Forget(r)]
  {
    var low, high := Forget(r).(lte := None), Forget(r).(gte := None);
    assert ParseAll(n, [s, t]) == [low, high];
    AddPair(m, low, high);
    BoundsMeet(m, low, high);
  }

  lemma {:induction false} AddAllSplits(r: Requirements, ps: seq<Requirement>, qs: seq<Requirement>)
    ensures AddAll(r, ps + qs) == AddAll(AddAll(r, ps), qs)
    decreases |ps|
  {
    if ps == [] {
      assert ps + qs == qs;
    } else {
      assert (ps + qs)[1..] == ps[1..] + qs;
      AddAllSplits(AddOne(r, ps[0]), ps[1..], qs);
    }
  }

  predicate AllStable(n: Normalizer, r: Requirements) {
    forall k | k in r :: Stable(n, r[k])
  }

  /**
   Writing requirements out and reading them back, whatever order the map and the sets are walked
   in, yields exactly the requirements with the exclusions beside bounds dropped.
   */
  lemma {:induction false} RoundTrip(n: Normalizer, r: Requirements, walk: Walk)
    requires Consistent(r) && AllStable(n, r) && walk.Writes(r)
    ensures AllValid(n, walk.List()) && walk.Keys() <= r.Keys
    ensures AddAll(map[], ParseAll(n, walk.List())) == ForgetAll(r, walk.Keys())
  {
    if walk.Step? {
      RoundTrip(n, r, walk.before);
      var list, keys := walk.before.List(), walk.before.Keys();
      SerialisedReadsBack(n, r[walk.key], walk.entry, ForgetAll(r, keys));
      RoundTripStep(n, r, list, keys, walk.key, walk.entry);
    } else {
      assert ParseAll(n, []) == [];
    }
  }

  lemma RoundTripStep(n: Normalizer, r: Requirements, list: seq<Selector>, keys: set<string>, k: string,
                      entry: seq<Selector>)
    requires AllValid(n, list) && AllValid(n, entry) && keys <= r.Keys && k in r && k !in keys
    requires AddAll(map[], ParseAll(n, list)) == ForgetAll(r, keys)
    requires AddAll(ForgetAll(r, keys), ParseAll(n, entry)) == ForgetAll(r, keys)[k := Forget(r[k])]
    ensures AllValid(n, list + entry)
    ensures AddAll(map[], ParseAll(n, list + entry)) == ForgetAll(r, keys + {k})
  {
    ParseAllSplits(n, list, entry);
    AddAllSplits(map[], ParseAll(n, list), ParseAll(n, entry));
    assert ForgetAll(r, keys + {k}) == ForgetAll(r, keys)[k := Forget(r[k])];
  }

  lemma ParseAllSplits(n: Normalizer, xs: seq<Selector>, ys: seq<Selector>)
    requires AllValid(n, xs) && AllValid(n, ys)
    ensures AllValid(n, xs + ys)
    ensures ParseAll(n, xs + ys) == ParseAll(n, xs) + ParseAll(n, ys)
  {
  }

  /** Serialisation never narrows what is admitted. */
  lemma ForgetWidens(r: Requirement, v: string)
    requires Has(r, v) && WellFormed(r)
    ensures Has(Forget(r), v)
  {
  }

  /**
   The round trip is the identity exactly when no requirement combines bounds with exclusions, and
   it never narrows what a key admits.
   */
  lemma RoundTripIdentity(n: Normalizer, r: Requirements, walk: Walk)
    requires Consistent(r) && AllStable(n, r) && walk.Writes(r) && walk.Keys() == r.Keys
    ensures AllValid(n, walk.List())
    ensures AddAll(map[], ParseAll(n, walk.List())) == r <==> forall k | k in r :: !CombinesExclusions(r[k])
    ensures forall k, v | k in r && Has(r[k], v) :: Has(Get(AddAll(map[], ParseAll(n, walk.List())), k), v)
  {
    RoundTrip(n, r, walk);
    var f := ForgetAll(r, r.Keys);
    assert forall k | k in r :: r[k] == Forget(r[k]) <==> !CombinesExclusions(r[k]);
    assert f == r <==> forall k | k in r :: f[k] == r[k];
    forall k, v | k in r && Has(r[k], v) ensures Has(Get(f, k), v) {
      ForgetWidens(r[k], v);
    }
  }

  predicate CombinesExclusions(r: Requirement) {
    (r.gte.Some? || r.lte.Some?) && r.values != {}
  }

  // What is parsed is stable

  predicate Numeral(n: Normalizer, key: string, x: int) {
    n.Value(key, FormatInt(x)) == FormatInt(x)
  }

  /** Normal names and values are normal already, and no numeral is renamed. */
  ghost predicate Settled(n: Normalizer) {
    && (forall k :: n.Key(n.Key(k)) == n.Key(k))
    && (forall k, v :: n.Value(k, n.Value(k, v)) == n.Value(k, v))
    && (forall k, x :: Numeral(n, k, x))
  }

  lemma ParsedStable(n: Normalizer, s: Selector)
    requires Settled(n) && Valid(n, s)
    ensures Stable(n, Parse(n, s)) && WellFormed(Parse(n, s))
  {
    var r := Parse(n, s);
    forall v | v in r.values ensures n.Value(r.key, v) == v {
      var i :| 0 <= i < |s.values| && n.Values(r.key, s.values)[i] == v;
      assert n.Value(r.key, n.Value(r.key, s.values[i])) == v;
    }
    assert r.gte.Some? ==> Numeral(n, r.key, r.gte.value);
    assert r.lte.Some? ==> Numeral(n, r.key, r.lte.value);
  }

  lemma IntersectionStable(n: Normalizer, a: Requirement, b: Requirement)
    requires Settled(n) && a.key == b.key && Stable(n, a) && Stable(n, b)
    ensures Stable(n, Intersection(a, b))
  {
    var r := Intersection(a, b);
    forall v | v in r.values ensures v in a.values + b.values {
    }
    assert r.gte.Some? ==> Numeral(n, r.key, r.gte.value);
    assert r.lte.Some? ==> Numeral(n, r.key, r.lte.value);
  }

  lemma {:induction false} AddAllStable(n: Normalizer, r: Requirements, qs: seq<Requirement>)
    requires Settled(n) && Consistent(r) && AllStable(n, r)
    requires forall i | 0 <= i < |qs| :: Stable(n, qs[i]) && WellFormed(qs[i])
    ensures Consistent(AddAll(r, qs)) && AllStable(n, AddAll(r, qs))
    decreases |qs|
  {
    if qs != [] {
      AddOneConsistent(r, qs[0]);
      if qs[0].key in r {
        IntersectionStable(n, qs[0], r[qs[0].key]);
      }
      AddAllStable(n, AddOne(r, qs[0]), qs[1..]);
    }
  }

  /**
   Requirements built from selectors survive being written out and read back, unless an exclusion
   stands beside bounds.
   */
  lemma ParsedRoundTrip(n: Normalizer, list: seq<Selector>, walk: Walk)
    requires Settled(n) && AllValid(n, list)
    requires var r := AddAll(map[], ParseAll(n, list)); walk.Writes(r) && walk.Keys() == r.Keys
    ensures var r := AddAll(map[], ParseAll(n, list));
            && AllValid(n, walk.List())
            && (AddAll(map[], ParseAll(n, walk.List())) == r <==> forall k | k in r :: !CombinesExclusions(r[k]))
            && (forall k, v | k in r && Has(r[k], v) :: Has(Get(AddAll(map[], ParseAll(n, walk.List())), k), v))
  {
    forall i | 0 <= i < |list| ensures Stable(n, ParseAll(n, list)[i]) && WellFormed(ParseAll(n, list)[i]) {
      ParsedStable(n, list[i]);
    }
    AddAllStable(n, map[], ParseAll(n, list));
    RoundTripIdentity(n, AddAll(map[], ParseAll(n, list)), walk);
  }

  const PLAIN: Normalizer := Normalizer(map[], map[])
  const AT_LEAST_ONE: Selector := Selector("k", Gte, ["1"], None)
  const NOT_FIVE: Selector := Selector("k", NotIn, ["5"], None)

  lemma OneDigit(s: string)
    requires |s| == 1 && '0' <= s[0] <= '9'
    ensures Atoi(s) == Some(s[0] as int - '0' as int)
  {
    assert Unsigned(s) == s && s[..0] == "";
    assert Magnitude(s) == s[0] as int - '0' as int;
  }

  lemma FivesParse()
    ensures Valid(PLAIN, AT_LEAST_ONE) && Parse(PLAIN, AT_LEAST_ONE) == Requirement("k", true, {}, Some(1), None, None)
    ensures Valid(PLAIN, NOT_FIVE) && Parse(PLAIN, NOT_FIVE) == Requirement("k", true, {"5"}, None, None, None)
  {
    OneDigit("1");
    assert PLAIN.Values("k", ["1"]) == ["1"] && PLAIN.Values("k", ["5"]) == ["5"];
    assert (set v | v in ["5"]) == {"5"};
  }

  lemma FivesMeet()
    ensures AllValid(PLAIN, [AT_LEAST_ONE, NOT_FIVE])
    ensures AddAll(map[], ParseAll(PLAIN, [AT_LEAST_ONE, NOT_FIVE])) ==
            map["k" := Requirement("k", true, {"5"}, Some(1), None, None)]
  {
    FivesParse();
    OneDigit("5");
    var a, b := Parse(PLAIN, AT_LEAST_ONE), Parse(PLAIN, NOT_FIVE);
    assert ParseAll(PLAIN, [AT_LEAST_ONE, NOT_FIVE]) == [a, b];
    assert [a, b][1..] == [b] && [b][1..] == [];
    assert Intersection(b, a) == Requirement("k", true, {"5"}, Some(1), None, None) by {
      assert (set v | v in {"5"} && WithinBounds(v, Some(1), None)) == {"5"};
    }
    assert AddOne(map[], a) == map["k" := a];
    assert AddOne(map["k" := a], b) == map["k" := Intersection(b, a)];
    assert AddAll(map["k" := Intersection(b, a)], []) == map["k" := Intersection(b, a)];
  }

  /** `Gte 1` and `NotIn 5` on one key exclude 5; written out in any order and read back, 5 is admitted. */
  lemma ExclusionIsForgotten(walk: Walk)
    requires AllValid(PLAIN, [AT_LEAST_ONE, NOT_FIVE])
    requires var r := AddAll(map[], ParseAll(PLAIN, [AT_LEAST_ONE, NOT_FIVE])); walk.Writes(r) && walk.Keys() == r.Keys
    ensures !Has(Get(AddAll(map[], ParseAll(PLAIN, [AT_LEAST_ONE, NOT_FIVE])), "k"), "5")
    ensures AllValid(PLAIN, walk.List()) && Has(Get(AddAll(map[], ParseAll(PLAIN, walk.List())), "k"), "5")
  {
    FivesMeet();
    OneDigit("5");
    var q := Requirement("k", true, {"5"}, Some(1), None, None);
    var r := map["k" := q];
    assert Stable(PLAIN, q) && r.Keys == {"k"};
    RoundTrip(PLAIN, r, walk);
    assert ForgetAll(r, {"k"})["k"] == Forget(q);
  }
}
