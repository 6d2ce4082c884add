/**
 Balanced scoring of consolidation moves (pkg/controllers/disruption/balanced.go and types.go).
 Prices and disruption costs are real numbers.
 */
module Balanced {
  import opened Candidates
  import opened Wrappers
  import opened Finite
  import opened Sums
  import opened Offerings
  import opened Pricing
  import Ordering

  const K := 2.0

  datatype Totals = Totals(cost: real, disruption: real)

  datatype ScoreResult = ScoreResult(savings: real, disruption: real)

  /** Each new claim is its instance type options; `poolCosts` is the precomputed disruption cost by pool, if any. */
  datatype Move = Move(candidates: seq<Candidate>, replacements: nat, claims: seq<seq<InstanceType>>,
                       poolCosts: Option<map<string, real>>)

  // Scoring

  /** Without positive totals there is nothing to normalise against. */
  function ScoreMove(savings: real, disruption: real, t: Totals): ScoreResult {
    if t.cost <= 0.0 || t.disruption <= 0.0 then ScoreResult(0.0, 0.0)
    else ScoreResult(savings / t.cost, disruption / t.disruption)
  }

  /** No score stands for an infinite one. */
  function Score(r: ScoreResult): Option<real> {
    if r.savings <= 0.0 then Some(0.0) else if r.disruption == 0.0 then None else Some(r.savings / r.disruption)
  }

  predicate Approved(r: ScoreResult) {
    Score(r).None? || Score(r).value >= 1.0 / K
  }

  lemma Ratio(x: real, y: real)
    requires y > 0.0
    ensures x / y * y == x && (x > 0.0 <==> x / y > 0.0)
  {
  }

  lemma AtLeastHalf(a: real, b: real)
    requires b > 0.0
    ensures a / b >= 1.0 / K <==> 2.0 * a >= b
  {
    Ratio(a, b);
    Halved(a / b, a, b);
  }

  lemma Halved(q: real, a: real, b: real)
    requires b > 0.0 && q * b == a
    ensures q >= 1.0 / K <==> 2.0 * a >= b
  {
    assert (q - 0.5) * b == a - 0.5 * b;
  }

  lemma CrossMultiplied(a: real, b: real, m: real, n: real)
    requires m > 0.0 && n > 0.0
    ensures 2.0 * a >= b <==> 2.0 * (a * m) * n >= (b * n) * m
  {
    var mn := m * n;
    assert mn > 0.0;
    assert 2.0 * a >= b <==> (2.0 * a) * mn >= b * mn;
    assert (2.0 * a) * mn == 2.0 * (a * m) * n;
    assert b * mn == (b * n) * m;
  }

  /** The threshold without divisions: twice the share of cost saved is at least the share of disruption. */
  lemma ApprovedIff(savings: real, disruption: real, t: Totals)
    requires t.cost > 0.0 && t.disruption > 0.0 && disruption >= 0.0
    ensures Approved(ScoreMove(savings, disruption, t)) <==>
            savings > 0.0 && 2.0 * savings * t.disruption >= disruption * t.cost
  {
    var a, b := savings / t.cost, disruption / t.disruption;
    Ratio(savings, t.cost);
    Ratio(disruption, t.disruption);
    CrossMultiplied(a, b, t.cost, t.disruption);
    if b > 0.0 {
      AtLeastHalf(a, b);
    }
  }

  /** A move that saves more for the same disruption is approved whenever the smaller one is. */
  lemma SavingMoreHelps(less: real, more: real, disruption: real, t: Totals)
    requires less <= more && disruption >= 0.0
    requires Approved(ScoreMove(less, disruption, t))
    ensures Approved(ScoreMove(more, disruption, t))
  {
    if t.cost > 0.0 && t.disruption > 0.0 {
      ApprovedIff(less, disruption, t);
      ApprovedIff(more, disruption, t);
      Product(more - less, t.disruption);
      assert 2.0 * more * t.disruption == 2.0 * less * t.disruption + 2.0 * ((more - less) * t.disruption);
    }
  }

  // Sums over candidates

  function Total(cs: seq<Candidate>, f: Candidate -> real): real {
    if cs == [] then 0.0 else Total(cs[..|cs| - 1], f) + f(cs[|cs| - 1])
  }

  function PoolTotal(cs: seq<Candidate>, pool: string, f: Candidate -> real): real {
    if cs == [] then 0.0
    else
      var last := cs[|cs| - 1];
      PoolTotal(cs[..|cs| - 1], pool, f) + if last.pool == pool then f(last) else 0.0
  }

  function Price(): Candidate -> real {
    (c: Candidate) => c.price
  }

  function Disruption(): Candidate -> real {
    (c: Candidate) => c.disruption
  }

  function PoolTotals(cs: seq<Candidate>, pools: seq<string>, f: Candidate -> real): (r: seq<real>)
    ensures |r| == |pools| && forall i | 0 <= i < |pools| :: r[i] == PoolTotal(cs, pools[i], f)
  {
    seq(|pools|, i requires 0 <= i < |pools| => PoolTotal(cs, pools[i], f))
  }

  lemma {:induction false} SumBumped(xs: seq<real>, j: nat, d: real)
    requires j < |xs|
    ensures Sum(xs[j := xs[j] + d]) == Sum(xs) + d
  {
    var n := |xs| - 1;
    var ys := xs[j := xs[j] + d];
    if j < n {
      SumBumped(xs[..n], j, d);
      assert ys[..n] == xs[..n][j := xs[j] + d];
    } else {
      assert ys[..n] == xs[..n];
    }
  }

  /** Grouping by pool loses nothing and counts nothing twice. */
  lemma {:induction false} PoolsSplit(cs: seq<Candidate>, pools: seq<string>, f: Candidate -> real)
    requires NoDuplicates(pools) && forall c | c in cs :: c.pool in pools
    ensures Sum(PoolTotals(cs, pools, f)) == Total(cs, f)
  {
    if cs == [] {
      SumZeros(PoolTotals(cs, pools, f));
    } else {
      var n := |cs| - 1;
      var xs := PoolTotals(cs[..n], pools, f);
      PoolsSplit(cs[..n], pools, f);
      assert cs[n] in cs;
      var j :| 0 <= j < |pools| && pools[j] == cs[n].pool;
      SumBumped(xs, j, f(cs[n]));
      assert PoolTotals(cs, pools, f) == xs[j := xs[j] + f(cs[n])];
    }
  }

  // Commands

  function AvailablePrices(it: InstanceType): (r: seq<Option<real>>)
    ensures |r| == |it.offerings|
  {
    seq(|it.offerings|, i requires 0 <= i < |it.offerings| =>
      if it.offerings[i].available then Some(it.offerings[i].price) else None)
  }

  /** What a claim is expected to cost: its first option's cheapest available offering, nothing when there is none. */
  function Destination(options: seq<InstanceType>): real {
    if options == [] || Least(AvailablePrices(options[0])).None? then 0.0 else Least(AvailablePrices(options[0])).value
  }

  function Destinations(claims: seq<seq<InstanceType>>): (r: seq<real>)
    ensures |r| == |claims|
  {
    seq(|claims|, i requires 0 <= i < |claims| => Destination(claims[i]))
  }

  function Savings(move: Move): real {
    if move.replacements == 0 then Total(move.candidates, Price())
    else Total(move.candidates, Price()) - Sum(Destinations(move.claims))
  }

  method EstimatedSavings(move: Move) returns (savings: real)
    ensures savings == Savings(move)
  {
    var source := Total(move.candidates, Price());
    if move.replacements == 0 {
      return source;
    }
    var dest := 0.0;
    ghost var ds := Destinations(move.claims);
    for i := 0 to |move.claims|
      invariant dest == Sum(ds[..i])
    {
      assert ds[..i + 1][..i] == ds[..i];
      if |move.claims[i]| > 0 {
        var cheapest := Least(AvailablePrices(move.claims[i][0]));
        if cheapest.Some? {
          dest := dest + cheapest.value;
        }
      }
    }
    assert ds[..|ds|] == ds;
    return source - dest;
  }

  ghost predicate NonNegative(claims: seq<seq<InstanceType>>) {
    forall options, it, o | options in claims && it in options && o in it.offerings :: o.price >= 0.0
  }

  lemma DestinationNonNegative(claims: seq<seq<InstanceType>>, i: nat)
    requires NonNegative(claims) && i < |claims|
    ensures Destination(claims[i]) >= 0.0
  {
    var options := claims[i];
    if options != [] {
      var ps := AvailablePrices(options[0]);
      LeastIs(ps);
      if Least(ps).Some? {
        var k :| 0 <= k < |ps| && ps[k] == Least(ps);
        assert options in claims && options[0] in options && options[0].offerings[k] in options[0].offerings;
      }
    }
  }

  lemma {:induction false} SumNonNegative(xs: seq<real>)
    requires forall i | 0 <= i < |xs| :: xs[i] >= 0.0
    ensures Sum(xs) >= 0.0
  {
    if xs != [] {
      SumNonNegative(xs[..|xs| - 1]);
    }
  }

  /** What a new claim is expected to cost: the cheapest available offering of its first option, if it has one. */
  lemma DestinationIs(options: seq<InstanceType>)
    ensures options == [] || (forall o | o in options[0].offerings :: !o.available) ==> Destination(options) == 0.0
    ensures options != [] && (exists o :: o in options[0].offerings && o.available) ==>
              && (exists o :: o in options[0].offerings && o.available && o.price == Destination(options))
              && (forall o | o in options[0].offerings && o.available :: Destination(options) <= o.price)
  {
    if options != [] {
      var ofs, ps := options[0].offerings, AvailablePrices(options[0]);
      LeastIs(ps);
      if Least(ps).Some? {
        var i :| 0 <= i < |ps| && ps[i] == Least(ps);
        assert ofs[i] in ofs && ofs[i].available && ofs[i].price == Destination(options);
      }
      forall o | o in ofs && o.available ensures Least(ps).Some? && Least(ps).value <= o.price {
        var i :| 0 <= i < |ofs| && ofs[i] == o;
        assert ps[i] == Some(o.price);
      }
    }
  }

  /** A replace never saves more than the delete of the same nodes. */
  lemma DeleteSavesMost(move: Move)
    requires NonNegative(move.claims)
    ensures Savings(move) <= Total(move.candidates, Price())
  {
    forall i: nat | i < |move.claims| ensures Destinations(move.claims)[i] >= 0.0 {
      DestinationNonNegative(move.claims, i);
    }
    SumNonNegative(Destinations(move.claims));
  }

  function PoolDisruptionCost(move: Move, pool: string): real {
    match move.poolCosts
    case None => PoolTotal(move.candidates, pool, Disruption())
    case Some(costs) => if pool in costs then costs[pool] else 0.0
  }

  lemma {:induction false} PoolTotalElsewhere(cs: seq<Candidate>, pool: string, f: Candidate -> real)
    requires forall c | c in cs :: c.pool != pool
    ensures PoolTotal(cs, pool, f) == 0.0
  {
    if cs != [] {
      PoolTotalElsewhere(cs[..|cs| - 1], pool, f);
    }
  }

  /** Adding up a quantity of each candidate under its pool. */
  method SumByPool(cs: seq<Candidate>, f: Candidate -> real) returns (sums: map<string, real>)
    ensures sums.Keys == Pools(cs)
    ensures forall pool | pool in sums :: sums[pool] == PoolTotal(cs, pool, f)
  {
    sums := map[];
    for i := 0 to |cs|
      invariant SummedUp(sums, cs[..i], f)
    {
      var c := cs[i];
      SummedNext(sums, cs, f, i);
      sums := sums[c.pool := (if c.pool in sums then sums[c.pool] else 0.0) + f(c)];
    }
    assert cs[..|cs|] == cs;
  }

  ghost predicate SummedUp(sums: map<string, real>, cs: seq<Candidate>, f: Candidate -> real) {
    sums.Keys == Pools(cs) && forall pool | pool in sums :: sums[pool] == PoolTotal(cs, pool, f)
  }

  lemma SummedNext(sums: map<string, real>, cs: seq<Candidate>, f: Candidate -> real, i: nat)
    requires i < |cs| && SummedUp(sums, cs[..i], f)
    ensures var c := cs[i];
            SummedUp(sums[c.pool := (if c.pool in sums then sums[c.pool] else 0.0) + f(c)], cs[..i + 1], f)
  {
    PoolsNext(cs, i);
    forall pool {
      PoolTotalNext(cs, pool, f, i);
    }
    if cs[i].pool !in sums {
      PoolTotalElsewhere(cs[..i], cs[i].pool, f);
    }
  }

  lemma PoolTotalNext(cs: seq<Candidate>, pool: string, f: Candidate -> real, i: nat)
    requires i < |cs|
    ensures PoolTotal(cs[..i + 1], pool, f) ==
            PoolTotal(cs[..i], pool, f) + if cs[i].pool == pool then f(cs[i]) else 0.0
  {
    assert cs[..i + 1][..i] == cs[..i];
  }

  /** The precomputed map agrees with computing the cost from the candidates. */
  method ComputePoolDisruptionCosts(cs: seq<Candidate>) returns (costs: Option<map<string, real>>)
    ensures costs.None? <==> cs == []
    ensures costs.Some? ==> costs.value.Keys == Pools(cs)
    ensures forall move: Move, pool | move.candidates == cs && move.poolCosts == costs ::
              PoolDisruptionCost(move, pool) == PoolTotal(cs, pool, Disruption())
  {
    if cs == [] {
      return None;
    }
    var sums := SumByPool(cs, Disruption());
    forall pool | pool !in sums ensures PoolTotal(cs, pool, Disruption()) == 0.0 {
      PoolTotalElsewhere(cs, pool, Disruption());
    }
    costs := Some(sums);
  }

  // Evaluating a move

  /** Net savings are attributed by each pool's share of the source cost; a single pool takes them all. */
  function PoolSavings(move: Move, pool: string, pools: nat): real {
    var cost := Total(move.candidates, Price());
    if cost > 0.0 && pools > 1 then Share(Savings(move), PoolTotal(move.candidates, pool, Price()), cost)
    else Savings(move)
  }

  function Share(whole: real, part: real, total: real): real
    requires total > 0.0
  {
    whole * (part / total)
  }

  function PoolResult(move: Move, pool: string, totals: map<string, Totals>): ScoreResult {
    ScoreMove(PoolSavings(move, pool, |Pools(move.candidates)|), PoolDisruptionCost(move, pool),
              Known(totals, pool))
  }

  predicate AllApproved(pools: set<string>, balanced: string -> bool, score: string -> ScoreResult) {
    forall pool | pool in pools && balanced(pool) :: Approved(score(pool))
  }

  function Results(pools: set<string>, balanced: string -> bool, score: string -> ScoreResult): map<string, ScoreResult>
  {
    map pool | pool in pools && balanced(pool) :: score(pool)
  }

  function Scores(move: Move, totals: map<string, Totals>): string -> ScoreResult {
    (pool: string) => PoolResult(move, pool, totals)
  }

  /** Every Balanced pool of the move approves. */
  predicate MoveApproved(move: Move, balanced: string -> bool, totals: map<string, Totals>) {
    move.candidates != [] && AllApproved(Pools(move.candidates), balanced, Scores(move, totals))
  }

  function Known(totals: map<string, Totals>, pool: string): Totals {
    if pool in totals then totals[pool] else Totals(0.0, 0.0)
  }

  /** One pool's turn. */
  method ScorePool(move: Move, pool: string, savings: real, totals: map<string, Totals>) returns (result: ScoreResult)
    requires savings == Savings(move)
    ensures result == PoolResult(move, pool, totals)
  {
    var cost := Total(move.candidates, Price());
    var poolSavings := savings;
    if cost > 0.0 && |Pools(move.candidates)| > 1 {
      poolSavings := savings * (PoolTotal(move.candidates, pool, Price()) / cost);
    }
    result := ScoreMove(poolSavings, PoolDisruptionCost(move, pool), Known(totals, pool));
  }

  /** `balanced` says which pools have the Balanced policy. */
  method EvaluateBalancedMove(move: Move, balanced: string -> bool, totals: map<string, Totals>)
    returns (approved: bool, perPool: map<string, ScoreResult>)
    ensures approved <==> MoveApproved(move, balanced, totals)
    ensures perPool == Results(Pools(move.candidates), balanced, Scores(move, totals))
    ensures perPool.Keys == set pool | pool in Pools(move.candidates) && balanced(pool)
    ensures forall pool | pool in perPool :: perPool[pool] == PoolResult(move, pool, totals)
    ensures approved <==> move.candidates != [] && forall pool | pool in perPool :: Approved(perPool[pool])
  {
    approved, perPool := false, map[];
    if move.candidates == [] {
      return;
    }
    approved := true;
    var savings := EstimatedSavings(move);
    var left := Pools(move.candidates);
    ghost var score := Scores(move, totals);
    while left != {}
      invariant Evaluated(Pools(move.candidates), left, balanced, score, approved, perPool)
    {
      var pool :| pool in left;
      EvaluatedStep(Pools(move.candidates), left, pool, balanced, score, approved, perPool);
      left := left - {pool};
      if !balanced(pool) {
        continue;
      }
      var result := ScorePool(move, pool, savings, totals);
      assert result == score(pool);
      perPool := perPool[pool := result];
      approved := approved && Approved(result);
    }
    assert Pools(move.candidates) - {} == Pools(move.candidates);
  }

  /** The verdicts on all pools but those left. */
  ghost predicate Evaluated(pools: set<string>, left: set<string>, balanced: string -> bool,
                            score: string -> ScoreResult,
                            approved: bool, perPool: map<string, ScoreResult>)
  {
    && left <= pools
    && (approved <==> AllApproved(pools - left, balanced, score))
    && perPool == Results(pools - left, balanced, score)
  }

  lemma EvaluatedStep(pools: set<string>, left: set<string>, pool: string, balanced: string -> bool,
                      score: string -> ScoreResult, approved: bool, perPool: map<string, ScoreResult>)
    requires Evaluated(pools, left, balanced, score, approved, perPool) && pool in left
    ensures if balanced(pool)
            then Evaluated(pools, left - {pool}, balanced, score,
                           approved && Approved(score(pool)), perPool[pool := score(pool)])
            else Evaluated(pools, left - {pool}, balanced, score, approved, perPool)
  {
    assert pools - (left - {pool}) == (pools - left) + {pool};
  }

  function Attributed(move: Move, pools: seq<string>): (r: seq<real>)
    ensures |r| == |pools| && forall i | 0 <= i < |pools| :: r[i] == PoolSavings(move, pools[i], |pools|)
  {
    seq(|pools|, i requires 0 <= i < |pools| => PoolSavings(move, pools[i], |pools|))
  }

  lemma {:induction false} SumScaled(xs: seq<real>, ys: seq<real>, d: real, total: real)
    requires total > 0.0 && |xs| == |ys| && forall i | 0 <= i < |xs| :: ys[i] == Share(d, xs[i], total)
    ensures Sum(ys) == Share(d, Sum(xs), total)
  {
    if xs != [] {
      var n := |xs| - 1;
      SumScaled(xs[..n], ys[..n], d, total);
      Distributes(Sum(xs[..n]), xs[n], d, total);
    }
  }

  lemma Distributes(a: real, b: real, d: real, total: real)
    requires total > 0.0
    ensures Share(d, a + b, total) == Share(d, a, total) + Share(d, b, total)
  {
    assert (a + b) / total == a / total + b / total;
  }

  lemma WholeShare(d: real, total: real)
    requires total > 0.0
    ensures Share(d, total, total) == d
  {
  }

  ghost predicate Lists(pools: seq<string>, cs: seq<Candidate>) {
    NoDuplicates(pools) && forall p :: p in pools <==> p in Pools(cs)
  }

  lemma SharesConserved(move: Move, pools: seq<string>)
    requires Lists(pools, move.candidates) && Total(move.candidates, Price()) > 0.0 && |pools| > 1
    ensures Sum(Attributed(move, pools)) == Savings(move)
  {
    forall c | c in move.candidates ensures c.pool in pools {
      assert c.pool in Pools(move.candidates);
    }
    PoolsSplit(move.candidates, pools, Price());
    var xs, ys := PoolTotals(move.candidates, pools, Price()), Attributed(move, pools);
    forall i: nat | i < |pools| ensures ys[i] == Share(Savings(move), xs[i], Total(move.candidates, Price())) {
      AttributedShare(move, pools, i);
    }
    Split(xs, ys, Savings(move), Total(move.candidates, Price()));
  }

  lemma AttributedShare(move: Move, pools: seq<string>, i: nat)
    requires Total(move.candidates, Price()) > 0.0 && |pools| > 1 && i < |pools|
    ensures Attributed(move, pools)[i] ==
            Share(Savings(move), PoolTotals(move.candidates, pools, Price())[i], Total(move.candidates, Price()))
  {
  }

  /**
   Attribution conserves the net savings, except that a move across several pools whose nodes cost
   nothing charges each pool the whole.
   */
  lemma SavingsConserved(move: Move, pools: seq<string>)
    requires move.candidates != [] && Lists(pools, move.candidates)
    ensures Sum(Attributed(move, pools)) == Savings(move) <==>
            Total(move.candidates, Price()) > 0.0 || |pools| == 1 || Savings(move) == 0.0
  {
    if Total(move.candidates, Price()) > 0.0 && |pools| > 1 {
      SharesConserved(move, pools);
    } else {
      assert move.candidates[0].pool in Pools(move.candidates);
      EachWhole(Attributed(move, pools), Savings(move));
    }
  }

  lemma EachWhole(ys: seq<real>, d: real)
    requires ys != [] && forall i | 0 <= i < |ys| :: ys[i] == d
    ensures Sum(ys) == d <==> |ys| == 1 || d == 0.0
  {
    AllEqual(ys, d);
    Repeats(|ys|, d);
  }

  lemma Split(xs: seq<real>, ys: seq<real>, d: real, total: real)
    requires total > 0.0 && |xs| == |ys| && forall i | 0 <= i < |xs| :: ys[i] == Share(d, xs[i], total)
    requires Sum(xs) == total
    ensures Sum(ys) == d
  {
    SumScaled(xs, ys, d, total);
    WholeShare(d, total);
  }

  lemma {:induction false} AllEqual(xs: seq<real>, d: real)
    requires forall i | 0 <= i < |xs| :: xs[i] == d
    ensures Sum(xs) == |xs| as real * d
  {
    if xs != [] {
      AllEqual(xs[..|xs| - 1], d);
      OneMore(|xs| - 1, d);
    }
  }

  lemma Repeats(n: nat, d: real)
    requires n > 0
    ensures n as real * d == d <==> n == 1 || d == 0.0
  {
    if n > 1 {
      assert n as real * d - d == (n - 1) as real * d;
    }
  }

  // Pruning

  predicate CanPassThreshold(c: Candidate, balanced: string -> bool, totals: map<string, Totals>) {
    if !balanced(c.pool) || c.pool !in totals || totals[c.pool].cost <= 0.0 then true
    else Approved(ScoreMove(c.price, c.disruption, totals[c.pool]))
  }

  /** A candidate with the better ratio saves at least the other's share for its own disruption. */
  lemma BetterShare(xp: real, xd: real, yp: real, yd: real, cost: real, disruption: real)
    requires xd > 0.0 && yd > 0.0 && disruption > 0.0 && yp > 0.0 && xp * yd >= yp * xd
    requires 2.0 * yp * disruption >= yd * cost
    ensures xp > 0.0 && 2.0 * xp * disruption >= xd * cost
  {
    Product(yp, xd);
    if xp <= 0.0 {
      Product(-xp, yd);
      assert xp * yd == -((-xp) * yd);
    }
    Product(xp * yd - yp * xd, 2.0 * disruption);
    Product(2.0 * yp * disruption - yd * cost, xd);
    var gap := 2.0 * xp * disruption - xd * cost;
    assert gap * yd == (xp * yd - yp * xd) * (2.0 * disruption) + (2.0 * yp * disruption - yd * cost) * xd;
    if gap < 0.0 {
      Product(-gap, yd);
    }
  }

  /** Of two candidates of a pool, the one with the better ratio can pass the threshold if the other can. */
  lemma RatioPasses(x: Candidate, y: Candidate, balanced: string -> bool, totals: map<string, Totals>)
    requires x.pool == y.pool && x.disruption > 0.0 && y.disruption > 0.0
    requires Ordering.SavingsRatio(x) >= Ordering.SavingsRatio(y) && CanPassThreshold(y, balanced, totals)
    ensures CanPassThreshold(x, balanced, totals)
  {
    if balanced(x.pool) && x.pool in totals && totals[x.pool].cost > 0.0 && totals[x.pool].disruption > 0.0 {
      var t := totals[x.pool];
      ApprovedIff(x.price, x.disruption, t);
      ApprovedIff(y.price, y.disruption, t);
      RatioCross(x.price, x.disruption, y.price, y.disruption);
      BetterShare(x.price, x.disruption, y.price, y.disruption, t.cost, t.disruption);
    }
  }

  lemma RatioCross(xp: real, xd: real, yp: real, yd: real)
    requires xd > 0.0 && yd > 0.0 && xp / xd >= yp / yd
    ensures xp * yd >= yp * xd
  {
    var a, b := xp / xd, yp / yd;
    Ratio(xp, xd);
    Ratio(yp, yd);
    Product(xd, yd);
    Product(a - b, xd * yd);
    assert (a - b) * (xd * yd) == (a * xd) * yd - (b * yd) * xd;
  }

  /** So the candidates of a pool below the threshold come last in it, in every order of a pass. */
  lemma ThresholdLast(sh: Ordering.Shuffle, cs: seq<Candidate>, unseen: set<string>, order: seq<Candidate>, i: nat,
                      j: nat, balanced: string -> bool, totals: map<string, Totals>)
    requires Ordering.Shuffles(sh, cs, unseen, order) && i < j < |order| && order[i].pool == order[j].pool
    requires CanPassThreshold(order[j], balanced, totals)
    ensures CanPassThreshold(order[i], balanced, totals)
  {
    Ordering.PoolDescends(sh, cs, unseen, order, i, j);
    RatioPasses(order[i], order[j], balanced, totals);
  }

  /** A move for one candidate, with its disruption cost precomputed or not. */
  ghost predicate ForOne(move: Move, c: Candidate) {
    && move.candidates == [c]
    && (move.poolCosts.Some? ==> c.pool in move.poolCosts.value && move.poolCosts.value[c.pool] == c.disruption)
  }

  lemma OneCandidate(move: Move, c: Candidate, totals: map<string, Totals>)
    requires ForOne(move, c)
    ensures Pools(move.candidates) == {c.pool} && Total(move.candidates, Price()) == c.price
    ensures PoolResult(move, c.pool, totals) ==
            ScoreMove(Savings(move), c.disruption, Known(totals, c.pool))
  {
    assert move.candidates[..0] == [];
    assert PoolTotal(move.candidates, c.pool, Disruption()) == c.disruption;
    assert Pools([c]) == {c.pool} && |Pools([c])| == 1;
  }

  /** A candidate that is pruned has no approved delete or replace. */
  lemma PruningSound(move: Move, c: Candidate, balanced: string -> bool, totals: map<string, Totals>)
    requires ForOne(move, c) && NonNegative(move.claims) && c.disruption >= 0.0
    requires MoveApproved(move, balanced, totals)
    ensures CanPassThreshold(c, balanced, totals)
  {
    OneCandidate(move, c, totals);
    DeleteSavesMost(move);
    if balanced(c.pool) && c.pool in totals {
      assert Approved(Scores(move, totals)(c.pool));
      SavingMoreHelps(Savings(move), c.price, c.disruption, totals[c.pool]);
    }
  }

  /** The test decides the delete exactly, unless a Balanced pool has no positive cost on record. */
  lemma PruningExact(move: Move, c: Candidate, balanced: string -> bool, totals: map<string, Totals>)
    requires ForOne(move, c) && move.replacements == 0
    ensures (CanPassThreshold(c, balanced, totals) <==> MoveApproved(move, balanced, totals)) <==>
            !balanced(c.pool) || (c.pool in totals && totals[c.pool].cost > 0.0)
  {
    OneCandidate(move, c, totals);
  }

  // Churn

  /** The node holds the same share of its pool's cost as of its disruption, as the one node of a pool does. */
  ghost predicate EvenShare(c: Candidate, t: Totals) {
    && t.cost > 0.0 && t.disruption > 0.0 && c.price > 0.0 && c.disruption > 0.0
    && c.price * t.disruption == c.disruption * t.cost
  }

  lemma EvenShareHalves(saved: real, price: real, disruption: real, t: Totals)
    requires t.disruption > 0.0 && price * t.disruption == disruption * t.cost
    ensures 2.0 * saved * t.disruption >= disruption * t.cost <==> 2.0 * saved >= price
  {
    assert 2.0 * saved * t.disruption == (2.0 * saved) * t.disruption;
  }

  lemma OneApproved(move: Move, c: Candidate, balanced: string -> bool, totals: map<string, Totals>)
    requires ForOne(move, c) && balanced(c.pool) && c.pool in totals
    ensures MoveApproved(move, balanced, totals) <==> Approved(ScoreMove(Savings(move), c.disruption, totals[c.pool]))
  {
    OneCandidate(move, c, totals);
    assert Scores(move, totals)(c.pool) == PoolResult(move, c.pool, totals);
  }

  lemma HalfApproved(saved: real, c: Candidate, t: Totals, cost: real)
    requires EvenShare(c, t) && saved == c.price - cost
    ensures Approved(ScoreMove(saved, c.disruption, t)) <==> cost <= c.price / 2.0
  {
    ApprovedIff(saved, c.disruption, t);
    EvenShareHalves(saved, c.price, c.disruption, t);
  }

  /** A replace of such a node is approved exactly when it costs at most half. */
  lemma ApprovedHalves(move: Move, c: Candidate, balanced: string -> bool, totals: map<string, Totals>)
    requires ForOne(move, c) && move.replacements > 0 && balanced(c.pool)
    requires c.pool in totals && EvenShare(c, totals[c.pool])
    ensures MoveApproved(move, balanced, totals) <==> Sum(Destinations(move.claims)) <= c.price / 2.0
  {
    OneApproved(move, c, balanced, totals);
    OneCandidate(move, c, totals);
    HalfApproved(Savings(move), c, totals[c.pool], Sum(Destinations(move.claims)));
  }

  /**
   One replace of a churn chain: approved, with a next node that costs at most `overrun` times what
   the replace was estimated at. The estimate is the cheapest available offering of each claim's first
   option, and a launch may land on a dearer one.
   */
  ghost predicate Replaces(move: Move, c: Candidate, next: Candidate, balanced: string -> bool,
                           totals: map<string, Totals>,
                           overrun: real)
  {
    && ForOne(move, c) && move.replacements > 0 && balanced(c.pool)
    && c.pool in totals && EvenShare(c, totals[c.pool])
    && MoveApproved(move, balanced, totals) && next.price <= overrun * Sum(Destinations(move.claims))
  }

  /** Totals may change from step to step. */
  ghost predicate Chain(nodes: seq<Candidate>, moves: seq<Move>, balanced: string -> bool,
                        totals: seq<map<string, Totals>>,
                        overrun: real)
  {
    && |nodes| == |moves| + 1 && |totals| == |moves| && overrun >= 0.0
    && forall i: nat | i < |moves| :: ReplacesAt(nodes, moves, balanced, totals, overrun, i)
  }

  ghost predicate ReplacesAt(nodes: seq<Candidate>, moves: seq<Move>, balanced: string -> bool,
                             totals: seq<map<string, Totals>>, overrun: real, i: nat)
    requires |nodes| == |moves| + 1 && |totals| == |moves| && i < |moves|
  {
    Replaces(moves[i], nodes[i], nodes[i + 1], balanced, totals[i], overrun)
  }

  function Power(b: real, n: nat): real {
    if n == 0 then 1.0 else b * Power(b, n - 1)
  }

  lemma {:induction false} PowerNonNegative(b: real, n: nat)
    requires b >= 0.0
    ensures Power(b, n) >= 0.0
  {
    if n > 0 {
      PowerNonNegative(b, n - 1);
      Product(b, Power(b, n - 1));
    }
  }

  predicate FallsAt(prices: seq<real>, overrun: real, i: nat)
    requires i < |prices| - 1
  {
    2.0 * prices[i + 1] <= overrun * prices[i]
  }

  lemma ReplaceFalls(move: Move, c: Candidate, next: Candidate, balanced: string -> bool, totals: map<string, Totals>,
                     overrun: real)
    requires Replaces(move, c, next, balanced, totals, overrun) && overrun >= 0.0
    ensures 2.0 * next.price <= overrun * c.price
  {
    ApprovedHalves(move, c, balanced, totals);
    Overrun(overrun, c.price, Sum(Destinations(move.claims)), next.price);
  }

  lemma Overrun(overrun: real, price: real, estimate: real, next: real)
    requires overrun >= 0.0 && estimate <= price / 2.0 && next <= overrun * estimate
    ensures 2.0 * next <= overrun * price
  {
    Product(overrun, price - 2.0 * estimate);
    assert overrun * (price - 2.0 * estimate) == overrun * price - 2.0 * (overrun * estimate);
  }

  lemma FallStep(p: real, q: real, overrun: real, first: real, price: real, next: real)
    requires p >= 0.0 && overrun >= 0.0 && p * price <= q * first && 2.0 * next <= overrun * price
    ensures (2.0 * p) * next <= (overrun * q) * first
  {
    Product(p, overrun * price - 2.0 * next);
    assert p * (overrun * price - 2.0 * next) == overrun * (p * price) - (2.0 * p) * next;
    Product(overrun, q * first - p * price);
    assert overrun * (q * first - p * price) == (overrun * q) * first - overrun * (p * price);
  }

  lemma {:induction false} PricesFall(prices: seq<real>, overrun: real, n: nat)
    requires n < |prices| && overrun >= 0.0 && forall i: nat | i < |prices| - 1 :: FallsAt(prices, overrun, i)
    ensures Power(2.0, n) * prices[n] <= Power(overrun, n) * prices[0]
  {
    if n > 0 {
      PricesFall(prices, overrun, n - 1);
      assert FallsAt(prices, overrun, n - 1);
      PowerNonNegative(2.0, n - 1);
      FallStep(Power(2.0, n - 1), Power(overrun, n - 1), overrun, prices[0], prices[n - 1], prices[n]);
    }
  }

  ghost function NodePrices(nodes: seq<Candidate>): (r: seq<real>)
    ensures |r| == |nodes| && forall i | 0 <= i < |nodes| :: r[i] == nodes[i].price
  {
    seq(|nodes|, i requires 0 <= i < |nodes| => nodes[i].price)
  }

  /** After n approved replaces the price has halved n times, but for what launches cost beyond their estimates. */
  lemma ChainHalves(nodes: seq<Candidate>, moves: seq<Move>, balanced: string -> bool, totals: seq<map<string, Totals>>,
                    overrun: real, n: nat)
    requires Chain(nodes, moves, balanced, totals, overrun) && n <= |moves|
    ensures Power(2.0, n) * nodes[n].price <= Power(overrun, n) * nodes[0].price
  {
    forall i: nat | i < |moves| ensures FallsAt(NodePrices(nodes), overrun, i) {
      ChainFalls(nodes, moves, balanced, totals, overrun, i);
    }
    PricesFall(NodePrices(nodes), overrun, n);
  }

  lemma ChainFalls(nodes: seq<Candidate>, moves: seq<Move>, balanced: string -> bool, totals: seq<map<string, Totals>>,
                   overrun: real, i: nat)
    requires Chain(nodes, moves, balanced, totals, overrun) && i < |moves|
    ensures FallsAt(NodePrices(nodes), overrun, i)
  {
    assert ReplacesAt(nodes, moves, balanced, totals, overrun, i);
    ReplaceFalls(moves[i], nodes[i], nodes[i + 1], balanced, totals[i], overrun);
  }

  /** A chain among prices of at least `low` ends before halving would leave less, for overruns below two. */
  lemma ChainBounded(nodes: seq<Candidate>, moves: seq<Move>, balanced: string -> bool,
                     totals: seq<map<string, Totals>>,
                     overrun: real, low: real, n: nat)
    requires Chain(nodes, moves, balanced, totals, overrun)
    requires forall c | c in nodes :: low <= c.price
    requires Power(overrun, n + 1) * nodes[0].price < Power(2.0, n + 1) * low
    ensures |moves| <= n
  {
    if |moves| > n {
      assert nodes[n + 1] in nodes;
      PowerNonNegative(2.0, n + 1);
      Scales(Power(2.0, n + 1), low, nodes[n + 1].price);
      ChainHalves(nodes, moves, balanced, totals, overrun, n + 1);
      assert false;
    }
  }

  lemma Scales(p: real, x: real, y: real)
    requires p >= 0.0 && x <= y
    ensures p * x <= p * y
  {
    Product(p, y - x);
    assert p * (y - x) == p * y - p * x;
  }

  lemma Product(a: real, b: real)
    requires a >= 0.0 && b >= 0.0
    ensures a * b >= 0.0
  {
  }

  // What attribution does not promise

  const FREE: seq<Candidate> :=
    [Candidate("a", "a", "a", "p", true, 0.0, 1.0), Candidate("b", "b", "b", "q", true, 0.0, 1.0)]
  const PRICED: InstanceType := InstanceType("type", map[], [Offering(map[], 1.0, true)])

  /** Two pools of nodes that cost nothing and a replacement that costs 1: each pool is charged the whole loss. */
  lemma FreePoolsChargedTwice()
    ensures var move := Move(FREE, 1, [[PRICED]], None);
            Savings(move) == -1.0 && Sum(Attributed(move, ["p", "q"])) == -2.0
  {
    var move := Move(FREE, 1, [[PRICED]], None);
    assert FREE[..1] == [FREE[0]] && FREE[..1][..0] == [];
    assert Total(FREE[..1], Price()) == 0.0 && Total(FREE, Price()) == 0.0;
    assert AvailablePrices(PRICED) == [Some(1.0)] && [Some(1.0)][..0] == [];
    assert Least(AvailablePrices(PRICED)) == Some(1.0);
    assert Destinations(move.claims) == [1.0] && [1.0][..0] == [];
    assert Attributed(move, ["p", "q"]) == [-1.0, -1.0] && [-1.0, -1.0][..1] == [-1.0] && [-1.0][..0] == [];
    assert Sum([-1.0]) == -1.0;
  }
}
