/**
 A label requirement: a finite or co-finite set of strings with optional inclusive integer bounds
 (pkg/scheduling/requirement.go). `Has` is the denotation every other operation is measured against.
 */
module Requirement {
  import opened Wrappers
  import opened Numerals

  datatype Operator = In | NotIn | Exists | DoesNotExist | Gt | Lt | Gte | Lte

  datatype Requirement = Requirement(
    key: string,
    complement: bool,
    values: set<string>,
    gte: Option<int>,
    lte: Option<int>,
    minValues: Option<int>)

  predicate Contradictory(gte: Option<int>, lte: Option<int>) {
    gte.Some? && lte.Some? && gte.value > lte.value
  }

  /**
   What the validated constructor and `Intersection` keep: a concrete set carries no bounds, bounds
   are machine integers, and two bounds leave room for a value.
   */
  predicate WellFormed(r: Requirement) {
    && (r.complement || (r.gte.None? && r.lte.None?))
    && (r.gte.Some? ==> InRange(r.gte.value))
    && (r.lte.Some? ==> InRange(r.lte.value))
    && !Contradictory(r.gte, r.lte)
  }

  // Reading a requirement

  predicate WithinBounds(value: string, gte: Option<int>, lte: Option<int>) {
    if gte.None? && lte.None? then true
    else
      var n := Atoi(value);
      && n.Some?
      && (gte.Some? ==> n.value >= gte.value)
      && (lte.Some? ==> n.value <= lte.value)
  }

  predicate Has(r: Requirement, value: string) {
    (value in r.values) != r.complement && WithinBounds(value, r.gte, r.lte)
  }

  function OperatorOf(r: Requirement): Operator {
    if r.complement then
      if r.values != {} then NotIn else Exists
    else
      if r.values != {} then In else DoesNotExist
  }

  function MaxBound(a: Option<int>, b: Option<int>): Option<int> {
    if a.None? then b else if b.None? then a else if a.value > b.value then a else b
  }

  function MinBound(a: Option<int>, b: Option<int>): Option<int> {
    if a.None? then b else if b.None? then a else if a.value < b.value then a else b
  }

  // Construction

  /** `Gt` and `Lt` step by one in 64-bit arithmetic. */
  function Decrement(n: int): int {
    if n == MIN_INT then MAX_INT else n - 1
  }

  predicate IsBoundOperator(op: Operator) {
    op.Gt? || op.Lt? || op.Gte? || op.Lte?
  }

  /** Bound operators are prevalidated: their first value is an integer. */
  predicate Prevalidated(op: Operator, values: seq<string>) {
    IsBoundOperator(op) ==> |values| > 0 && Atoi(values[0]).Some?
  }

  /** `NewRequirementWithFlexibility`, for a key and values that are already normalised. */
  function New(key: string, op: Operator, minValues: Option<int>, values: seq<string>): (r: Requirement)
    requires Prevalidated(op, values)
    ensures WellFormed(r) && r.key == key
    ensures r.minValues == if op.Gt? && Atoi(values[0]).value == MAX_INT then None else minValues
  {
    var any := Requirement(key, true, {}, None, None, minValues);
    match op
    case In => any.(complement := false, values := set v | v in values)
    case NotIn => any.(values := set v | v in values)
    case Exists => any
    case DoesNotExist => any.(complement := false)
    case Gt =>
      var n := Atoi(values[0]).value;
      if n == MAX_INT then Requirement(key, false, {}, None, None, None) else any.(gte := Some(n + 1))
    case Lt => any.(lte := Some(Decrement(Atoi(values[0]).value)))
    case Gte => any.(gte := Some(Atoi(values[0]).value))
    case Lte => any.(lte := Some(Atoi(values[0]).value))
  }

  /** What an operator over a list of values is documented to admit. */
  predicate Admits(op: Operator, values: seq<string>, v: string)
    requires Prevalidated(op, values)
  {
    match op
    case In => v in values
    case NotIn => v !in values
    case Exists => true
    case DoesNotExist => false
    case Gt => Atoi(v).Some? && Atoi(v).value > Atoi(values[0]).value
    case Lt => Atoi(v).Some? && Atoi(v).value < Atoi(values[0]).value
    case Gte => Atoi(v).Some? && Atoi(v).value >= Atoi(values[0]).value
    case Lte => Atoi(v).Some? && Atoi(v).value <= Atoi(values[0]).value
  }

  /**
   The canonical form admits what the operator says, except that `Lt` of the smallest machine
   integer wraps around and admits every integer instead of none.
   */
  lemma NewDenotes(key: string, op: Operator, minValues: Option<int>, values: seq<string>)
    requires Prevalidated(op, values)
    ensures (forall v :: Has(New(key, op, minValues, values), v) <==> Admits(op, values, v))
            <==> !(op.Lt? && Atoi(values[0]).value == MIN_INT)
  {
    var r := New(key, op, minValues, values);
    if op.Lt? && Atoi(values[0]).value == MIN_INT {
      var s := FreshSpelling(0, {});
      assert Has(r, s) && !Admits(op, values, s);
    }
  }

  /** `Lt -9223372036854775808`, however it is spelled, admits 0. */
  lemma LtSmallestWraps(text: string)
    requires Atoi(text) == Some(MIN_INT)
    ensures Prevalidated(Lt, [text]) && Has(New("k", Lt, None, [text]), "0") && !Admits(Lt, [text], "0")
  {
    assert "0"[..0] == "" && Magnitude("0") == 0 && Unsigned("0") == "0";
    assert Atoi("0") == Some(0);
  }

  // Intersection

  function CombinedValues(a: Requirement, b: Requirement): set<string> {
    if a.complement && b.complement then a.values + b.values
    else if a.complement then b.values - a.values
    else if b.complement then a.values - b.values
    else a.values * b.values
  }

  function Intersection(a: Requirement, b: Requirement): (r: Requirement) {
    var gte := MaxBound(a.gte, b.gte);
    var lte := MinBound(a.lte, b.lte);
    var minValues := MaxBound(a.minValues, b.minValues);
    if Contradictory(gte, lte) then
      New(a.key, DoesNotExist, minValues, [])
    else
      var complement := a.complement && b.complement;
      Requirement(a.key, complement,
                  (set v | v in CombinedValues(a, b) && WithinBounds(v, gte, lte)),
                  if complement then gte else None,
                  if complement then lte else None,
                  minValues)
  }

  /** The loop of `Requirement.Intersection`, deleting out-of-bounds values from the combined set. */
  method Intersect(a: Requirement, b: Requirement) returns (r: Requirement)
    ensures r == Intersection(a, b)
  {
    var gte := MaxBound(a.gte, b.gte);
    var lte := MinBound(a.lte, b.lte);
    var minValues := MaxBound(a.minValues, b.minValues);
    if Contradictory(gte, lte) {
      return New(a.key, DoesNotExist, minValues, []);
    }
    var values := CombinedValues(a, b);
    var rest := values;
    while rest != {}
      invariant values == set v | v in CombinedValues(a, b) && (v in rest || WithinBounds(v, gte, lte))
      invariant rest <= CombinedValues(a, b)
    {
      var v :| v in rest;
      if !WithinBounds(v, gte, lte) {
        values := values - {v};
      }
      rest := rest - {v};
    }
    if !(a.complement && b.complement) {
      gte, lte := None, None;
    }
    r := Requirement(a.key, a.complement && b.complement, values, gte, lte, minValues);
  }

  /** Intersection admits exactly the values both sides admit, and stays well formed. */
  lemma IntersectionDenotes(a: Requirement, b: Requirement)
    requires WellFormed(a) && WellFormed(b)
    ensures WellFormed(Intersection(a, b))
    ensures forall v :: Has(Intersection(a, b), v) <==> Has(a, v) && Has(b, v)
  {
    var gte := MaxBound(a.gte, b.gte);
    var lte := MinBound(a.lte, b.lte);
    forall v
      ensures WithinBounds(v, gte, lte) <==> WithinBounds(v, a.gte, a.lte) && WithinBounds(v, b.gte, b.lte)
    {
    }
  }

  /** Which minValues the intersection asks for: the larger one, whatever the values and bounds come to. */
  lemma IntersectionMinValues(a: Requirement, b: Requirement)
    ensures var m := Intersection(a, b).minValues;
            && (m.None? <==> a.minValues.None? && b.minValues.None?)
            && (m.Some? ==> m == a.minValues || m == b.minValues)
            && (a.minValues.Some? ==> m.value >= a.minValues.value)
            && (b.minValues.Some? ==> m.value >= b.minValues.value)
    ensures Intersection(a, b).key == a.key
  {
  }

  /** Intersection is commutative as a structure, not only as a set of admitted values. */
  lemma IntersectionCommutes(a: Requirement, b: Requirement)
    requires a.key == b.key
    ensures Intersection(a, b) == Intersection(b, a)
  {
    var gte := MaxBound(a.gte, b.gte);
    var lte := MinBound(a.lte, b.lte);
    assert gte == MaxBound(b.gte, a.gte) && lte == MinBound(b.lte, a.lte);
    assert CombinedValues(a, b) == CombinedValues(b, a);
  }

  /** The intersection of three co-finite requirements whose bounds leave room, in one step. */
  function Triple(a: Requirement, b: Requirement, c: Requirement): Requirement {
    var gte := MaxBound(MaxBound(a.gte, b.gte), c.gte);
    var lte := MinBound(MinBound(a.lte, b.lte), c.lte);
    Requirement(a.key, true, (set v | v in a.values + b.values + c.values && WithinBounds(v, gte, lte)), gte, lte,
                MaxBound(MaxBound(a.minValues, b.minValues), c.minValues))
  }

  /** Whether three requirements meet in a co-finite set. */
  predicate StaysComplement(a: Requirement, b: Requirement, c: Requirement) {
    && a.complement && b.complement && c.complement
    && !Contradictory(MaxBound(MaxBound(a.gte, b.gte), c.gte), MinBound(MinBound(a.lte, b.lte), c.lte))
  }

  lemma LeftTriple(a: Requirement, b: Requirement, c: Requirement)
    requires StaysComplement(a, b, c)
    ensures Intersection(Intersection(a, b), c) == Triple(a, b, c)
  {
    assert Intersection(Intersection(a, b), c).values == Triple(a, b, c).values;
  }

  lemma RightTriple(a: Requirement, b: Requirement, c: Requirement)
    requires StaysComplement(a, b, c)
    ensures Intersection(a, Intersection(b, c)) == Triple(a, b, c)
  {
    var gte := MaxBound(MaxBound(a.gte, b.gte), c.gte);
    var lte := MinBound(MinBound(a.lte, b.lte), c.lte);
    assert gte == MaxBound(a.gte, MaxBound(b.gte, c.gte));
    assert lte == MinBound(a.lte, MinBound(b.lte, c.lte));
    assert Intersection(a, Intersection(b, c)).values == Triple(a, b, c).values;
  }

  /** Otherwise they meet in a finite set, whichever pair is combined first. */
  lemma TurnsConcrete(a: Requirement, b: Requirement, c: Requirement)
    requires !StaysComplement(a, b, c)
    ensures !Intersection(Intersection(a, b), c).complement
    ensures !Intersection(a, Intersection(b, c)).complement
  {
  }

  /**
   Intersection is associative as a structure: bounds, the collapse of contradictory bounds to
   DoesNotExist, exclusions and minValues all agree whichever pair is combined first.
   */
  lemma IntersectionAssociates(a: Requirement, b: Requirement, c: Requirement)
    requires WellFormed(a) && WellFormed(b) && WellFormed(c)
    ensures Intersection(Intersection(a, b), c) == Intersection(a, Intersection(b, c))
  {
    if StaysComplement(a, b, c) {
      LeftTriple(a, b, c);
      RightTriple(a, b, c);
    } else {
      TurnsConcrete(a, b, c);
      ConcreteIntersection(a, b, c);
    }
  }

  lemma ConcreteIntersection(a: Requirement, b: Requirement, c: Requirement)
    requires WellFormed(a) && WellFormed(b) && WellFormed(c)
    requires !Intersection(Intersection(a, b), c).complement
    requires !Intersection(a, Intersection(b, c)).complement
    ensures Intersection(Intersection(a, b), c) == Intersection(a, Intersection(b, c))
  {
    var ab, bc := Intersection(a, b), Intersection(b, c);
    IntersectionDenotes(a, b);
    IntersectionDenotes(b, c);
    IntersectionDenotes(ab, c);
    IntersectionDenotes(a, bc);
    var left, right := Intersection(ab, c), Intersection(a, bc);
    ConcreteValues(left);
    ConcreteValues(right);
    assert left.values == right.values by {
      forall v ensures v in left.values <==> v in right.values {
        assert Has(left, v) <==> Has(a, v) && Has(b, v) && Has(c, v);
        assert Has(right, v) <==> Has(a, v) && Has(b, v) && Has(c, v);
      }
    }
    assert left.minValues == right.minValues;
  }

  /** A well-formed concrete requirement lists exactly the values it admits. */
  lemma ConcreteValues(r: Requirement)
    requires WellFormed(r)
    ensures !r.complement ==> forall v :: v in r.values <==> Has(r, v)
  {
  }

  // Emptiness

  predicate HasIntersection(a: Requirement, b: Requirement) {
    var gte := MaxBound(a.gte, b.gte);
    var lte := MinBound(a.lte, b.lte);
    if Contradictory(gte, lte) then false
    else if a.complement && b.complement then true
    else if a.complement then exists v :: v in b.values && v !in a.values && WithinBounds(v, gte, lte)
    else if b.complement then exists v :: v in a.values && v !in b.values && WithinBounds(v, gte, lte)
    else exists v :: v in a.values && v in b.values && WithinBounds(v, gte, lte)
  }

  /** An integer inside two compatible bounds. */
  function Between(gte: Option<int>, lte: Option<int>): (n: int)
    requires !Contradictory(gte, lte)
    requires gte.Some? ==> InRange(gte.value)
    requires lte.Some? ==> InRange(lte.value)
    ensures InRange(n)
    ensures gte.Some? ==> gte.value <= n
    ensures lte.Some? ==> n <= lte.value
  {
    if gte.Some? then gte.value else if lte.Some? then lte.value else 0
  }

  /** A co-finite requirement admits a value outside any finite set. */
  lemma ComplementIsInfinite(r: Requirement, excluded: set<string>) returns (v: string)
    requires WellFormed(r) && r.complement
    ensures Has(r, v) && v !in excluded
  {
    v := FreshSpelling(Between(r.gte, r.lte), r.values + excluded);
  }

  lemma SharedValue(a: Requirement, b: Requirement)
    requires HasIntersection(a, b) && !(a.complement && b.complement)
    ensures Intersection(a, b).values != {}
  {
    var gte := MaxBound(a.gte, b.gte);
    var lte := MinBound(a.lte, b.lte);
    var v :| v in CombinedValues(a, b) && WithinBounds(v, gte, lte);
    assert v in Intersection(a, b).values;
  }

  /**
   The allocation-free test answers the question it stands in for: some value is admitted by both
   sides, which is also when the intersection is not DoesNotExist.
   */
  lemma HasIntersectionExact(a: Requirement, b: Requirement)
    requires WellFormed(a) && WellFormed(b)
    ensures HasIntersection(a, b) <==> exists v :: Has(a, v) && Has(b, v)
    ensures HasIntersection(a, b) <==> OperatorOf(Intersection(a, b)) != DoesNotExist
  {
    var i := Intersection(a, b);
    IntersectionDenotes(a, b);
    if i.complement {
      var v := ComplementIsInfinite(i, {});
      assert Has(a, v) && Has(b, v);
    } else {
      ConcreteValues(i);
      if i.values != {} {
        var v :| v in i.values;
        assert Has(a, v) && Has(b, v);
      } else {
        assert forall v :: !Has(i, v);
        if HasIntersection(a, b) {
          SharedValue(a, b);
        }
      }
    }
  }

  // Containment

  predicate BoundsAreContained(inner: Requirement, outer: Requirement) {
    && !(outer.gte.Some? && (inner.gte.None? || inner.gte.value < outer.gte.value))
    && !(outer.lte.Some? && (inner.lte.None? || inner.lte.value > outer.lte.value))
  }

  predicate SubsetOf(r: Requirement, q: Requirement) {
    if OperatorOf(r) == DoesNotExist then OperatorOf(q) == DoesNotExist
    else if !r.complement then forall v | v in r.values :: Has(q, v)
    else if !q.complement then false
    else BoundsAreContained(r, q) && forall v | v in q.values :: !Has(r, v)
  }

  /**
   Containment of selector states. DoesNotExist stands for the absent label, which no other
   requirement admits.
   */
  ghost predicate Contained(r: Requirement, q: Requirement) {
    if OperatorOf(r) == DoesNotExist then OperatorOf(q) == DoesNotExist
    else forall v :: Has(r, v) ==> Has(q, v)
  }

  /**
   `q` spells out a bound that every machine integer meets anyway, and `r` admits only integers
   without repeating it. `SubsetOf` compares bounds by presence, so it turns such an `r` down.
   */
  predicate VacuousBound(r: Requirement, q: Requirement) {
    && r.complement && q.complement
    && (r.gte.Some? || r.lte.Some?)
    && ((q.gte == Some(MIN_INT) && r.gte.None?) || (q.lte == Some(MAX_INT) && r.lte.None?))
  }

  lemma BoundsDecide(r: Requirement, q: Requirement) returns (v: string)
    requires WellFormed(r) && WellFormed(q) && r.complement && q.complement
    requires !BoundsAreContained(r, q) && !VacuousBound(r, q)
    ensures Has(r, v) && !Has(q, v)
  {
    if r.gte.None? && r.lte.None? {
      v := FreshWord(r.values);
    } else if q.gte.Some? && (r.gte.None? || r.gte.value < q.gte.value) {
      var low := if r.gte.Some? then r.gte.value
                 else if r.lte.value < q.gte.value then r.lte.value else q.gte.value - 1;
      v := FreshSpelling(low, r.values);
    } else {
      var high := if r.lte.Some? then r.lte.value
                  else if r.gte.value > q.lte.value then r.gte.value else q.lte.value + 1;
      v := FreshSpelling(high, r.values);
    }
  }

  /**
   `SubsetOf` decides containment exactly, for all well-formed requirements, apart from the
   vacuous-bound family, which it always turns down.
   */
  lemma SubsetOfExact(r: Requirement, q: Requirement)
    requires WellFormed(r) && WellFormed(q)
    ensures SubsetOf(r, q) <==> Contained(r, q) && !VacuousBound(r, q)
  {
    if OperatorOf(r) == DoesNotExist {
    } else if !r.complement {
      ConcreteValues(r);
    } else if !q.complement {
      var v := ComplementIsInfinite(r, q.values);
      assert Has(r, v) && !Has(q, v);
    } else if VacuousBound(r, q) {
      assert !BoundsAreContained(r, q);
    } else if !BoundsAreContained(r, q) {
      var v := BoundsDecide(r, q);
    } else if SubsetOf(r, q) {
      forall v | Has(r, v) ensures Has(q, v) {
      }
    } else {
      var v :| v in q.values && Has(r, v);
      assert !Has(q, v);
    }
  }

  /** The same bounds without the ones every machine integer meets. */
  function WithoutVacuous(q: Requirement): Requirement {
    q.(gte := if q.gte == Some(MIN_INT) then None else q.gte,
       lte := if q.lte == Some(MAX_INT) then None else q.lte)
  }

  /**
   When `SubsetOf` answers the containment question: exactly when there is no vacuous bound, or
   dropping the vacuous bounds would not have made it answer yes.
   */
  lemma SubsetOfCorrectIff(r: Requirement, q: Requirement)
    requires WellFormed(r) && WellFormed(q)
    ensures (SubsetOf(r, q) <==> Contained(r, q)) <==> !(VacuousBound(r, q) && SubsetOf(r, WithoutVacuous(q)))
  {
    SubsetOfExact(r, q);
    if VacuousBound(r, q) {
      SubsetOfExact(r, WithoutVacuous(q));
      forall v | Has(r, v) ensures Has(q, v) <==> Has(WithoutVacuous(q), v) {
      }
      assert Contained(r, q) <==> Contained(r, WithoutVacuous(q));
    }
  }

  /** A NodePool may say `Lte 9223372036854775807`; `Gte 1` is contained in it and is turned down. */
  lemma SubsetOfMissesVacuousBound()
    ensures var r := Requirement("k", true, {}, Some(1), None, None);
            var q := Requirement("k", true, {}, None, Some(MAX_INT), None);
            WellFormed(r) && WellFormed(q) && Contained(r, q) && !SubsetOf(r, q)
  {
    var r := Requirement("k", true, {}, Some(1), None, None);
    var q := Requirement("k", true, {}, None, Some(MAX_INT), None);
    SubsetOfCorrectIff(r, q);
  }
}
