/**
 The coverage cycle over passes that time out: what one pass adds to it, when it makes progress, and
 which candidates repeated passes reach, each pass in an order of its own (`resumeCoverageCycle` and
 the candidate walk in pkg/controllers/disruption/singlenodeconsolidation.go).
 */
module Coverage {
  import opened Candidates
  import opened Finite
  import opened Sorting
  import opened Budgets
  import opened Walk
  import opened Ordering
  import opened SingleNode
  import Balanced

  /** The candidates in the order of a pass, what it sees of them once resumed, its budgets, and where it timed out. */
  datatype Pass = Pass(cs: seq<Candidate>, looks: seq<Look>, budget: map<string, int>, depth: nat)

  ghost predicate Fits(evaluated: set<string>, p: Pass) {
    |p.looks| == |Resumed(evaluated, p.cs)| && p.depth <= |p.looks|
  }

  /** The candidates a pass brings to a verdict; those it skips are not recorded. */
  ghost function Verdicts(evaluated: set<string>, p: Pass): set<string>
    requires Fits(evaluated, p)
  {
    VerdictsUpTo(Resumed(evaluated, p.cs), p.looks, p.budget, p.depth)
  }

  /** What the cycle remembers after a timed-out pass. */
  ghost function After(evaluated: set<string>, p: Pass): set<string>
    requires Fits(evaluated, p)
  {
    Live(evaluated, p.cs) + Verdicts(evaluated, p)
  }

  /** The candidates the cycle has not reached come first: this many. */
  ghost function Unreached(cs: seq<Candidate>, evaluated: set<string>): nat {
    |Without(cs, Live(evaluated, cs))|
  }

  /** An unreached candidate within the depth of the pass can pass and is open. */
  ghost predicate Progresses(evaluated: set<string>, p: Pass)
    requires Fits(evaluated, p)
  {
    exists k: nat :: k < p.depth && k < Unreached(p.cs, evaluated)
                     && HasVerdict(Resumed(evaluated, p.cs), p.looks, p.budget, k)
  }

  // One pass

  lemma {:induction false} WithoutSplits(cs: seq<Candidate>, ids: set<string>, all: set<string>)
    requires IDs(cs) <= all
    ensures |Without(cs, ids)| + |Without(cs, all - ids)| == |cs|
  {
    if cs != [] {
      var front := cs[..|cs| - 1];
      assert forall c | c in front :: c in cs;
      WithoutSplits(front, ids, all);
      assert cs[|cs| - 1].providerID in IDs(cs);
    }
  }

  lemma ResumedLength(cs: seq<Candidate>, evaluated: set<string>)
    ensures |Resumed(evaluated, cs)| == |cs|
  {
    WithoutSplits(cs, Live(evaluated, cs), IDs(cs));
  }

  /** Position k of the resumed order is an unreached candidate exactly when k is among the first ones. */
  lemma UnreachedFirst(cs: seq<Candidate>, evaluated: set<string>, k: nat)
    requires k < |Resumed(evaluated, cs)|
    ensures var c := Resumed(evaluated, cs)[k];
            c in cs && c.providerID in IDs(cs)
            && (c.providerID !in Live(evaluated, cs) <==> k < Unreached(cs, evaluated))
  {
    var live := Live(evaluated, cs);
    var front, back := Without(cs, live), Without(cs, IDs(cs) - live);
    var c := Resumed(evaluated, cs)[k];
    if k < |front| {
      assert c in front;
    } else {
      assert c == back[k - |front|] && c in back;
    }
    assert c.providerID in IDs(cs);
  }

  /** A pass remembers what was live, adds candidates only, and adds some exactly when it progresses. */
  lemma PassProgressIff(evaluated: set<string>, p: Pass)
    requires Fits(evaluated, p)
    ensures Live(evaluated, p.cs) <= After(evaluated, p) <= IDs(p.cs)
    ensures After(evaluated, p) != Live(evaluated, p.cs) <==> Progresses(evaluated, p)
  {
    var order, live := Resumed(evaluated, p.cs), Live(evaluated, p.cs);
    forall id | id in Verdicts(evaluated, p) ensures id in IDs(p.cs) && (id !in live ==> Progresses(evaluated, p)) {
      VerdictIff(order, p.looks, p.budget, p.depth, id);
      var k: nat :| k < p.depth && order[k].providerID == id && HasVerdict(order, p.looks, p.budget, k);
      UnreachedFirst(p.cs, evaluated, k);
    }
    if Progresses(evaluated, p) {
      var k: nat :| k < p.depth && k < Unreached(p.cs, evaluated) && HasVerdict(order, p.looks, p.budget, k);
      UnreachedFirst(p.cs, evaluated, k);
      VerdictIff(order, p.looks, p.budget, p.depth, order[k].providerID);
      assert order[k].providerID in After(evaluated, p);
    }
    AfterFromVerdicts(evaluated, p);
  }

  lemma AfterFromVerdicts(evaluated: set<string>, p: Pass)
    requires Fits(evaluated, p)
    ensures After(evaluated, p) != Live(evaluated, p.cs) ==>
            exists id :: id in Verdicts(evaluated, p) && id !in Live(evaluated, p.cs)
  {
    if forall id | id in Verdicts(evaluated, p) :: id in Live(evaluated, p.cs) {
      assert After(evaluated, p) == Live(evaluated, p.cs);
    }
  }

  /** A pass that holds nothing and in which nothing keeps its candidates from a verdict reaches its whole depth. */
  lemma UnhinderedPass(evaluated: set<string>, p: Pass)
    requires DistinctIDs(p.cs) && Fits(evaluated, p)
    requires HeldUpTo(Resumed(evaluated, p.cs), p.looks, p.budget, p.depth) == []
    requires forall k | 0 <= k < p.depth ::
               p.looks[k].canPass && Lookup(p.budget, Resumed(evaluated, p.cs)[k].pool) > 0
    ensures |IDs(p.cs) - After(evaluated, p)| == Monus(|IDs(p.cs) - Live(evaluated, p.cs)|, p.depth)
  {
    UnhinderedVerdicts(Resumed(evaluated, p.cs), p.looks, p.budget, p.depth);
    PrefixReaches(p.cs, evaluated, p.depth);
  }

  function Monus(a: nat, b: int): nat {
    if b <= a then a - b else 0
  }

  lemma ShortPrefix(cs: seq<Candidate>, live: set<string>, d: nat)
    requires DistinctIDs(cs) && d <= |Without(cs, live)|
    ensures IDs(Without(cs, live)[..d]) <= IDs(cs) - live && |IDs(Without(cs, live)[..d])| == d
  {
    var front := Without(cs, live);
    WithoutDistinct(cs, live);
    IDCount(front[..d]);
    forall c | c in front[..d] ensures c.providerID in IDs(cs) - live {
      assert c in front;
    }
  }

  lemma LongPrefix(cs: seq<Candidate>, live: set<string>, prefix: seq<Candidate>)
    requires |Without(cs, live)| <= |prefix| && prefix[..|Without(cs, live)|] == Without(cs, live)
    ensures IDs(cs) - (live + IDs(prefix)) == {}
  {
    forall id | id in IDs(cs) - live ensures id in IDs(prefix) {
      var c :| c in cs && c.providerID == id;
      assert c in prefix[..|Without(cs, live)|];
    }
  }

  /** The first d of the resumed order are d candidates no earlier pass has reached, or all that are left. */
  lemma PrefixReaches(cs: seq<Candidate>, evaluated: set<string>, d: nat)
    requires DistinctIDs(cs) && d <= |Resumed(evaluated, cs)|
    ensures |IDs(cs) - (Live(evaluated, cs) + IDs(Resumed(evaluated, cs)[..d]))| ==
            Monus(|IDs(cs) - Live(evaluated, cs)|, d)
  {
    ResumedPermutes(evaluated, cs);
    var live := Live(evaluated, cs);
    var front := Without(cs, live);
    var prefix := Resumed(evaluated, cs)[..d];
    if d <= |front| {
      ShortPrefix(cs, live, d);
      assert prefix == front[..d];
      TakeAway(IDs(cs), live, IDs(prefix));
    } else {
      assert prefix[..|front|] == front;
      LongPrefix(cs, live, prefix);
    }
  }

  // Many passes

  /** The candidates of a pass are the given ones, in any order. */
  ghost predicate Sees(ids: set<string>, p: Pass) {
    DistinctIDs(p.cs) && IDs(p.cs) == ids
  }

  /**
   Passes that all time out, over a fixed candidate set, each in its own order; none but the last
   completes the cycle.
   */
  ghost predicate Passes(ids: set<string>, states: seq<set<string>>, passes: seq<Pass>) {
    && |states| == |passes| + 1 && states[0] <= ids
    && forall n: nat | n < |passes| :: PassAt(ids, states, passes, n)
  }

  ghost predicate PassAt(ids: set<string>, states: seq<set<string>>, passes: seq<Pass>, n: nat)
    requires n < |passes| < |states|
  {
    && Sees(ids, passes[n]) && |states[n] * ids| < |ids|
    && Fits(states[n], passes[n]) && states[n + 1] == After(states[n], passes[n])
  }

  ghost predicate ProgressAt(ids: set<string>, states: seq<set<string>>, passes: seq<Pass>, n: nat)
    requires n < |passes| < |states|
  {
    PassAt(ids, states, passes, n) && Progresses(states[n], passes[n])
  }

  ghost predicate StuckAt(ids: set<string>, states: seq<set<string>>, passes: seq<Pass>, n: nat)
    requires n < |passes| < |states|
  {
    PassAt(ids, states, passes, n) && !Progresses(states[n], passes[n])
  }

  /** While the cycle is incomplete a pass begins with all that was remembered. */
  lemma {:induction false} Remembered(ids: set<string>, states: seq<set<string>>, passes: seq<Pass>, n: nat)
    requires Passes(ids, states, passes) && n < |states|
    ensures states[n] <= ids
    ensures n < |passes| ==> PassAt(ids, states, passes, n) && Live(states[n], passes[n].cs) == states[n]
  {
    if n > 0 {
      assert PassAt(ids, states, passes, n - 1);
      PassProgressIff(states[n - 1], passes[n - 1]);
    }
    if n < |passes| {
      assert PassAt(ids, states, passes, n);
      AllLive(ids, states[n], passes[n]);
    }
  }

  lemma AllLive(ids: set<string>, state: set<string>, p: Pass)
    requires Sees(ids, p) && state <= ids && |state * ids| < |ids|
    ensures Live(state, p.cs) == state
  {
    IDCount(p.cs);
    assert state * ids == state;
  }

  ghost function Left(ids: set<string>, states: seq<set<string>>): (r: seq<nat>)
    ensures |r| == |states|
  {
    seq(|states|, i requires 0 <= i < |states| => |ids - states[i]|)
  }

  predicate Drops(left: seq<nat>, d: nat, i: nat)
    requires i < |left| - 1
  {
    left[i + 1] <= Monus(left[i], d)
  }

  lemma MonusTwice(a: nat, b: nat, d: nat, n: nat)
    requires n > 0 && a <= Monus(b, (n - 1) * d)
    ensures Monus(a, d) <= Monus(b, n * d)
  {
    assert n * d == (n - 1) * d + d;
  }

  lemma {:induction false} LeftShrinks(left: seq<nat>, d: nat, n: nat)
    requires n < |left| && forall i: nat | i < |left| - 1 :: Drops(left, d, i)
    ensures left[n] <= Monus(left[0], n * d)
  {
    if n > 0 {
      LeftShrinks(left, d, n - 1);
      assert Drops(left, d, n - 1);
      MonusTwice(left[n - 1], left[0], d, n);
    } else {
      assert n * d == 0;
    }
  }

  lemma AllReached(ids: set<string>, reached: set<string>)
    requires reached <= ids && |ids - reached| == 0
    ensures reached == ids
  {
    assert ids == reached + (ids - reached);
  }

  /** What is left after passes that each take d off it. */
  lemma LeftAfter(ids: set<string>, states: seq<set<string>>, passes: seq<Pass>, d: nat)
    requires Passes(ids, states, passes) && forall i: nat | i < |passes| :: Drops(Left(ids, states), d, i)
    ensures |ids - states[|passes|]| <= Monus(|ids|, |passes| * d)
    ensures |passes| * d >= |ids| ==> states[|passes|] == ids
  {
    var n := |passes|;
    LeftShrinks(Left(ids, states), d, n);
    SubsetSize(ids - states[0], ids);
    Remembered(ids, states, passes, n);
    if |ids - states[n]| == 0 {
      AllReached(ids, states[n]);
    }
  }

  /**
   If every pass progresses, the cycle is complete within as many passes as there are candidates,
   whatever their orders: the unreached ones fall by at least one a pass.
   */
  lemma ProgressCovers(ids: set<string>, states: seq<set<string>>, passes: seq<Pass>)
    requires Passes(ids, states, passes) && forall n: nat | n < |passes| :: ProgressAt(ids, states, passes, n)
    ensures |ids - states[|passes|]| <= Monus(|ids|, |passes|)
    ensures |passes| >= |ids| ==> states[|passes|] == ids
  {
    forall n: nat | n < |passes| ensures Drops(Left(ids, states), 1, n) {
      ProgressDrops(ids, states, passes, n);
    }
    LeftAfter(ids, states, passes, 1);
  }

  lemma ProgressDrops(ids: set<string>, states: seq<set<string>>, passes: seq<Pass>, n: nat)
    requires Passes(ids, states, passes) && n < |passes| && ProgressAt(ids, states, passes, n)
    ensures Drops(Left(ids, states), 1, n)
  {
    Remembered(ids, states, passes, n);
    PassProgressIff(states[n], passes[n]);
    Smaller(ids, states[n], states[n + 1]);
  }

  lemma OneFewer(all: set<string>, before: set<string>, after: set<string>, y: string)
    requires before <= after && y in all - before && y in after
    ensures |all - after| < |all - before|
  {
    SubsetSize(all - after, all - before - {y});
  }

  lemma Smaller(all: set<string>, before: set<string>, after: set<string>)
    requires before <= after <= all && after != before
    ensures |all - after| < |all - before|
  {
    var x :| x in after && x !in before;
    OneFewer(all, before, after, x);
  }

  /**
   Conditions that do not change from pass to pass: a pass holds nothing, gets at least d deep, and
   exactly the candidates in `able` can pass and have budget.
   */
  ghost predicate Steady(evaluated: set<string>, p: Pass, d: nat, able: set<string>) {
    && Fits(evaluated, p) && d <= p.depth
    && HeldUpTo(Resumed(evaluated, p.cs), p.looks, p.budget, p.depth) == []
    && forall k | 0 <= k < |p.looks| ::
         p.looks[k].canPass && Lookup(p.budget, Resumed(evaluated, p.cs)[k].pool) > 0 <==>
         Resumed(evaluated, p.cs)[k].providerID in able
  }

  ghost predicate SteadyPasses(ids: set<string>, states: seq<set<string>>, passes: seq<Pass>, d: nat,
                               able: set<string>)
  {
    Passes(ids, states, passes) && forall n: nat | n < |passes| :: SteadyAt(states, passes, d, able, n)
  }

  ghost predicate SteadyAt(states: seq<set<string>>, passes: seq<Pass>, d: nat, able: set<string>, n: nat)
    requires n < |passes| < |states|
  {
    Steady(states[n], passes[n], d, able)
  }

  lemma AbleDrops(ids: set<string>, states: seq<set<string>>, passes: seq<Pass>, d: nat, able: set<string>, n: nat)
    requires SteadyPasses(ids, states, passes, d, able) && n < |passes| && ids <= able
    ensures Drops(Left(ids, states), d, n)
  {
    Remembered(ids, states, passes, n);
    var p := passes[n];
    assert SteadyAt(states, passes, d, able, n);
    forall k: nat | k < p.depth ensures p.looks[k].canPass && Lookup(p.budget, Resumed(states[n], p.cs)[k].pool) > 0 {
      UnreachedFirst(p.cs, states[n], k);
    }
    UnhinderedPass(states[n], p);
  }

  /** Whatever is remembered was there at the start or is able to pass. */
  lemma {:induction false} OnlyAble(ids: set<string>, states: seq<set<string>>, passes: seq<Pass>, d: nat,
                                    able: set<string>, n: nat)
    requires SteadyPasses(ids, states, passes, d, able) && n < |states|
    ensures states[n] <= states[0] + able
  {
    if n > 0 {
      OnlyAble(ids, states, passes, d, able, n - 1);
      AbleStep(ids, states, passes, d, able, n - 1);
    }
  }

  lemma AbleStep(ids: set<string>, states: seq<set<string>>, passes: seq<Pass>, d: nat, able: set<string>, n: nat)
    requires SteadyPasses(ids, states, passes, d, able) && n < |passes|
    ensures states[n + 1] <= states[n] + able
  {
    Remembered(ids, states, passes, n);
    assert SteadyAt(states, passes, d, able, n);
    VerdictsAble(states[n], passes[n], d, able);
  }

  lemma VerdictsAble(evaluated: set<string>, p: Pass, d: nat, able: set<string>)
    requires Steady(evaluated, p, d, able)
    ensures Verdicts(evaluated, p) <= able
  {
    var order := Resumed(evaluated, p.cs);
    forall id | id in Verdicts(evaluated, p) ensures id in able {
      VerdictIff(order, p.looks, p.budget, p.depth, id);
      var k: nat :| k < p.depth && order[k].providerID == id && HasVerdict(order, p.looks, p.budget, k);
      assert CountHeld(order, HeldUpTo(order, p.looks, p.budget, k), order[k].pool) < Lookup(p.budget, order[k].pool);
    }
  }

  /**
   The promise that every candidate is reached within a bounded number of passes holds under steady
   conditions, in whatever orders, exactly when every candidate can pass its threshold and has budget.
   */
  lemma CoversIff(ids: set<string>, states: seq<set<string>>, passes: seq<Pass>, d: nat, able: set<string>)
    requires SteadyPasses(ids, states, passes, d, able) && states[0] == {} && |passes| * d >= |ids|
    ensures states[|passes|] == ids <==> ids <= able
  {
    OnlyAble(ids, states, passes, d, able, |passes|);
    if ids <= able {
      forall n: nat | n < |passes| ensures Drops(Left(ids, states), d, n) {
        AbleDrops(ids, states, passes, d, able, n);
      }
      LeftAfter(ids, states, passes, d);
    }
  }

  // Which candidates are reached

  /** Where an unreached candidate stands among the unreached ones. */
  lemma {:induction false} PositionWithout(cs: seq<Candidate>, live: set<string>, i: nat)
    requires i < |cs| && cs[i].providerID !in live
    ensures var k := |Without(cs[..i], live)|;
            k < |Without(cs, live)| && Without(cs, live)[k] == cs[i]
  {
    var n := |cs| - 1;
    WithoutLast(cs, live);
    if i < n {
      PositionWithout(cs[..n], live, i);
      assert cs[..n][..i] == cs[..i];
    }
  }

  lemma WithoutLast(cs: seq<Candidate>, ids: set<string>)
    requires cs != []
    ensures var last := cs[|cs| - 1];
            Without(cs, ids) == Without(cs[..|cs| - 1], ids) + if last.providerID in ids then [] else [last]
  {
  }

  lemma {:induction false} FewerWithout(cs: seq<Candidate>, less: set<string>, more: set<string>)
    requires less <= more
    ensures |Without(cs, more)| <= |Without(cs, less)|
  {
    if cs != [] {
      FewerWithout(cs[..|cs| - 1], less, more);
    }
  }

  /** Two sets that agree on the candidates leave the same ones. */
  lemma {:induction false} SameWithout(cs: seq<Candidate>, x: set<string>, y: set<string>)
    requires forall c | c in cs :: c.providerID in x <==> c.providerID in y
    ensures Without(cs, x) == Without(cs, y)
  {
    if cs != [] {
      assert forall c | c in cs[..|cs| - 1] :: c in cs;
      SameWithout(cs[..|cs| - 1], x, y);
      assert cs[|cs| - 1] in cs;
    }
  }

  lemma {:induction false} HeldNothing(cs: seq<Candidate>, looks: seq<Look>, budget: map<string, int>, k: nat, n: nat)
    requires k <= n <= |cs| == |looks| && HeldUpTo(cs, looks, budget, n) == []
    ensures HeldUpTo(cs, looks, budget, k) == []
  {
    if k < n {
      HeldNothing(cs, looks, budget, k, n - 1);
    }
  }

  /** In a steady pass a candidate within its depth is brought to a verdict exactly when it is able. */
  lemma SteadyVerdict(evaluated: set<string>, p: Pass, d: nat, able: set<string>, k: nat)
    requires Steady(evaluated, p, d, able) && k < p.depth
    ensures HasVerdict(Resumed(evaluated, p.cs), p.looks, p.budget, k) <==>
            Resumed(evaluated, p.cs)[k].providerID in able
  {
    HeldNothing(Resumed(evaluated, p.cs), p.looks, p.budget, k, p.depth);
  }

  /** Where a candidate stands in the resumed order. */
  ghost function Place(cs: seq<Candidate>, evaluated: set<string>, i: nat): nat
    requires i < |cs|
  {
    var live := Live(evaluated, cs);
    if cs[i].providerID !in live then |Without(cs[..i], live)|
    else |Without(cs, live)| + |Without(cs[..i], IDs(cs) - live)|
  }

  lemma PlaceIs(cs: seq<Candidate>, evaluated: set<string>, i: nat)
    requires i < |cs|
    ensures Place(cs, evaluated, i) < |Resumed(evaluated, cs)|
    ensures Resumed(evaluated, cs)[Place(cs, evaluated, i)] == cs[i]
  {
    var live := Live(evaluated, cs);
    PositionWithout(cs, if cs[i].providerID !in live then live else IDs(cs) - live, i);
  }

  /** Under steady conditions a candidate is evaluated exactly when it is able and stands within the depth. */
  lemma EvaluatedIff(evaluated: set<string>, p: Pass, d: nat, able: set<string>, i: nat)
    requires DistinctIDs(p.cs) && Steady(evaluated, p, d, able) && i < |p.cs|
    ensures p.cs[i].providerID in Verdicts(evaluated, p) <==>
            p.cs[i].providerID in able && Place(p.cs, evaluated, i) < p.depth
  {
    var order, k := Resumed(evaluated, p.cs), Place(p.cs, evaluated, i);
    PlaceIs(p.cs, evaluated, i);
    ResumedPermutes(evaluated, p.cs);
    VerdictIff(order, p.looks, p.budget, p.depth, p.cs[i].providerID);
    if k < p.depth {
      SteadyVerdict(evaluated, p, d, able, k);
    }
  }

  ghost function IndexOf(cs: seq<Candidate>, id: string): (i: nat)
    requires id in IDs(cs)
    ensures i < |cs| && cs[i].providerID == id
  {
    var i: nat :| i < |cs| && cs[i].providerID == id;
    i
  }

  /** How many candidates not among `others` stand before one in the order of a pass. */
  ghost function Behind(cs: seq<Candidate>, id: string, others: set<string>): nat
    requires id in IDs(cs)
  {
    |Without(cs[..IndexOf(cs, id)], others)|
  }

  ghost predicate ReachedAt(ids: set<string>, states: seq<set<string>>, passes: seq<Pass>, x: string, k: nat)
    requires k < |passes| < |states|
  {
    x in IDs(passes[k].cs) && Behind(passes[k].cs, x, states[k]) < passes[k].depth
  }

  lemma ReachedStep(ids: set<string>, states: seq<set<string>>, passes: seq<Pass>, d: nat, able: set<string>, x: string,
                    n: nat)
    requires SteadyPasses(ids, states, passes, d, able) && x in ids * able && n < |passes|
    ensures x in states[n + 1] <==> x in states[n] || ReachedAt(ids, states, passes, x, n)
  {
    Remembered(ids, states, passes, n);
    assert SteadyAt(states, passes, d, able, n);
    EvaluatedIff(states[n], passes[n], d, able, IndexOf(passes[n].cs, x));
  }

  /**
   Which able candidates are reached by which pass: the first that has fewer unreached candidates
   before it, in its own order, than it gets deep.
   */
  lemma {:induction false} ReachedIff(ids: set<string>, states: seq<set<string>>, passes: seq<Pass>, d: nat,
                                      able: set<string>, x: string, n: nat)
    requires SteadyPasses(ids, states, passes, d, able) && states[0] == {} && x in ids * able && n < |states|
    ensures x in states[n] <==> exists k: nat :: k < n && ReachedAt(ids, states, passes, x, k)
  {
    if n > 0 {
      ReachedIff(ids, states, passes, d, able, x, n - 1);
      ReachedStep(ids, states, passes, d, able, x, n - 1);
    }
  }

  // Shadowing

  /** As many candidates that are not able stand before x as the pass gets deep. */
  ghost predicate ShadowedAt(passes: seq<Pass>, able: set<string>, x: string, n: nat)
    requires n < |passes|
  {
    x in IDs(passes[n].cs) && Behind(passes[n].cs, x, able) >= passes[n].depth
  }

  /** A candidate that is shadowed in the order of every pass is never reached. */
  lemma {:induction false} NeverReached(ids: set<string>, states: seq<set<string>>, passes: seq<Pass>, d: nat,
                                        able: set<string>, x: string, n: nat)
    requires SteadyPasses(ids, states, passes, d, able) && states[0] == {} && x in ids && n < |states|
    requires forall k: nat | k < |passes| :: ShadowedAt(passes, able, x, k)
    ensures x !in states[n]
  {
    if n > 0 {
      NeverReached(ids, states, passes, d, able, x, n - 1);
      NotReachedNext(ids, states, passes, d, able, x, n - 1);
    }
  }

  lemma NotReachedNext(ids: set<string>, states: seq<set<string>>, passes: seq<Pass>, d: nat, able: set<string>,
                       x: string, n: nat)
    requires SteadyPasses(ids, states, passes, d, able) && states[0] == {} && x in ids && n < |passes|
    requires ShadowedAt(passes, able, x, n) && x !in states[n]
    ensures x !in states[n + 1]
  {
    OnlyAble(ids, states, passes, d, able, n + 1);
    if x in able {
      OnlyAble(ids, states, passes, d, able, n);
      FewerWithout(passes[n].cs[..IndexOf(passes[n].cs, x)], states[n], able);
      ReachedStep(ids, states, passes, d, able, x, n);
    }
  }

  /** The first able candidate the cycle has not reached yet is behind candidates that are not able only. */
  lemma FirstAble(cs: seq<Candidate>, live: set<string>, able: set<string>, i: nat) returns (j: nat)
    requires i < |cs| && cs[i].providerID in able - live && live <= able
    ensures j <= i && cs[j].providerID in able - live
    ensures Without(cs[..j], live) == Without(cs[..j], able)
  {
    j := 0;
    while cs[j].providerID !in able - live
      invariant j <= i && forall c | c in cs[..j] :: c.providerID !in able - live
      decreases i - j
    {
      assert cs[..j + 1] == cs[..j] + [cs[j]];
      j := j + 1;
    }
    SameWithout(cs[..j], live, able);
  }

  lemma WithoutNext(cs: seq<Candidate>, ids: set<string>, i: nat)
    requires i < |cs|
    ensures |Without(cs[..i], ids)| <= |Without(cs[..i + 1], ids)|
  {
    WithoutLast(cs[..i + 1], ids);
    assert cs[..i + 1][..i] == cs[..i];
  }

  predicate Rises(xs: seq<nat>, k: nat)
    requires k < |xs| - 1
  {
    xs[k] <= xs[k + 1]
  }

  lemma {:induction false} Rising(xs: seq<nat>, j: nat, i: nat)
    requires j <= i < |xs| && forall k: nat | k < |xs| - 1 :: Rises(xs, k)
    ensures xs[j] <= xs[i]
  {
    if j < i {
      Rising(xs, j, i - 1);
      assert Rises(xs, i - 1);
    }
  }

  lemma WithoutPrefix(cs: seq<Candidate>, ids: set<string>, j: nat, i: nat)
    requires j <= i <= |cs|
    ensures |Without(cs[..j], ids)| <= |Without(cs[..i], ids)|
  {
    var sizes: seq<nat> := seq(|cs| + 1, k requires 0 <= k <= |cs| => |Without(cs[..k], ids)|);
    forall k: nat | k < |cs| ensures Rises(sizes, k) {
      WithoutNext(cs, ids, k);
    }
    Rising(sizes, j, i);
  }

  /** Fewer than d candidates that are not able stand before x. */
  ghost predicate ClearAt(passes: seq<Pass>, able: set<string>, x: string, d: nat, n: nat)
    requires n < |passes|
  {
    x in IDs(passes[n].cs) && Behind(passes[n].cs, x, able) < d
  }

  /** In front of d candidates that are not able, a pass d deep reaches one more able candidate. */
  lemma UnshadowedStep(ids: set<string>, states: seq<set<string>>, passes: seq<Pass>, d: nat, able: set<string>,
                       x: string, n: nat)
    returns (y: string)
    requires SteadyPasses(ids, states, passes, d, able) && states[0] == {} && n < |passes|
    requires x in ids * able && x !in states[n] && ClearAt(passes, able, x, d, n)
    ensures y in ids * able && y !in states[n] && y in states[n + 1]
  {
    Remembered(ids, states, passes, n);
    OnlyAble(ids, states, passes, d, able, n);
    assert SteadyAt(states, passes, d, able, n);
    var cs, i := passes[n].cs, IndexOf(passes[n].cs, x);
    var j := FirstAble(cs, states[n], able, i);
    WithoutPrefix(cs, able, j, i);
    y := cs[j].providerID;
    EvaluatedIff(states[n], passes[n], d, able, j);
  }

  /** The candidate is reached, or has as many passes left as there are able candidates to go. */
  ghost predicate TimeLeft(ids: set<string>, state: set<string>, able: set<string>, x: string, n: nat) {
    x in state || |ids * able - state| + n <= |ids * able|
  }

  lemma TimeLeftNext(ids: set<string>, states: seq<set<string>>, passes: seq<Pass>, d: nat, able: set<string>,
                     x: string, n: nat)
    requires SteadyPasses(ids, states, passes, d, able) && states[0] == {} && n < |passes|
    requires x in ids * able && ClearAt(passes, able, x, d, n) && TimeLeft(ids, states[n], able, x, n)
    ensures TimeLeft(ids, states[n + 1], able, x, n + 1)
  {
    Remembered(ids, states, passes, n);
    PassProgressIff(states[n], passes[n]);
    if x !in states[n] {
      var y := UnshadowedStep(ids, states, passes, d, able, x, n);
      OneFewer(ids * able, states[n], states[n + 1], y);
    }
  }

  /** A candidate that is clear in the order of every pass is reached within as many passes as there are able ones. */
  lemma AbleReached(ids: set<string>, states: seq<set<string>>, passes: seq<Pass>, d: nat, able: set<string>, x: string)
    requires SteadyPasses(ids, states, passes, d, able) && states[0] == {}
    requires x in ids * able && |passes| >= |ids * able|
    requires forall n: nat | n < |passes| :: ClearAt(passes, able, x, d, n)
    ensures x in states[|passes|]
  {
    var good: nat -> bool := (k: nat) => k < |states| && TimeLeft(ids, states[k], able, x, k);
    assert ids * able - {} == ids * able;
    assert good(0);
    forall k: nat | k < |passes| && good(k) ensures good(k + 1) {
      TimeLeftNext(ids, states, passes, d, able, x, k);
    }
    Stepwise(good, |passes|);
    assert good(|passes|);
    var left := ids * able - states[|passes|];
    assert x !in states[|passes|] ==> x in left && |left| > 0;
  }

  /** In passes d deep whose orders agree on whether x is clear, x is reached exactly when it is. */
  lemma AbleReachedIff(ids: set<string>, states: seq<set<string>>, passes: seq<Pass>, d: nat, able: set<string>,
                       x: string, clear: bool)
    requires SteadyPasses(ids, states, passes, d, able) && states[0] == {}
    requires x in ids * able && |passes| >= |ids * able|
    requires forall n: nat | n < |passes| :: passes[n].depth == d && (ClearAt(passes, able, x, d, n) <==> clear)
    ensures x in states[|passes|] <==> clear
  {
    forall n: nat | n < |passes| ensures x in IDs(passes[n].cs) {
      Remembered(ids, states, passes, n);
    }
    if clear {
      AbleReached(ids, states, passes, d, able, x);
    } else {
      NeverReached(ids, states, passes, d, able, x, |passes|);
    }
  }

  // Pools in turn

  /** The candidates that are not able and have a smaller rank in their pools. */
  ghost function Outranking(cs: seq<Candidate>, i: nat, able: set<string>): set<string>
    requires i < |cs|
  {
    set j: nat | j < |cs| && Rank(cs, j) < Rank(cs, i) && cs[j].providerID !in able :: cs[j].providerID
  }

  /** The other candidates that are not able and have no greater rank. */
  ghost function NotOutranked(cs: seq<Candidate>, i: nat, able: set<string>): set<string>
    requires i < |cs|
  {
    set j: nat | j < |cs| && j != i && Rank(cs, j) <= Rank(cs, i) && cs[j].providerID !in able :: cs[j].providerID
  }

  lemma WithoutCount(cs: seq<Candidate>, i: nat, ids: set<string>)
    requires DistinctIDs(cs) && i <= |cs|
    ensures |Without(cs[..i], ids)| == |IDs(Without(cs[..i], ids))|
  {
    WithoutDistinct(cs[..i], ids);
    IDCount(Without(cs[..i], ids));
  }

  /** However the pools take turns, the ranks bound how many candidates that are not able stand before one. */
  lemma RanksBound(cs: seq<Candidate>, i: nat, able: set<string>)
    requires DistinctIDs(cs) && Ranked(cs) && i < |cs|
    ensures |Outranking(cs, i, able)| <= |Without(cs[..i], able)| <= |NotOutranked(cs, i, able)|
  {
    var before := Without(cs[..i], able);
    WithoutCount(cs, i, able);
    forall id | id in Outranking(cs, i, able) ensures id in IDs(before) {
      var j: nat :| j < |cs| && Rank(cs, j) < Rank(cs, i) && cs[j].providerID !in able && cs[j].providerID == id;
      assert i < j ==> RanksInOrder(cs, i, j);
      assert cs[j] in cs[..i] && cs[j] in before;
    }
    forall id | id in IDs(before) ensures id in NotOutranked(cs, i, able) {
      var c :| c in before && c.providerID == id;
      var j :| 0 <= j < i && cs[j] == c;
      assert RanksInOrder(cs, j, i);
    }
    SubsetSize(Outranking(cs, i, able), IDs(before));
    SubsetSize(IDs(before), NotOutranked(cs, i, able));
  }

  ghost predicate OutrankedAt(passes: seq<Pass>, able: set<string>, x: string, n: nat)
    requires n < |passes|
  {
    var cs := passes[n].cs;
    Ranked(cs) && x in IDs(cs) && |Outranking(cs, IndexOf(cs, x), able)| >= passes[n].depth
  }

  ghost predicate InRankAt(passes: seq<Pass>, able: set<string>, x: string, d: nat, n: nat)
    requires n < |passes|
  {
    var cs := passes[n].cs;
    Ranked(cs) && x in IDs(cs) && |NotOutranked(cs, IndexOf(cs, x), able)| < d
  }

  /** With a pass's depth of candidates that are not able and outrank it, x is reached in no order of the pools. */
  lemma OutrankedNever(ids: set<string>, states: seq<set<string>>, passes: seq<Pass>, d: nat, able: set<string>,
                       x: string, n: nat)
    requires SteadyPasses(ids, states, passes, d, able) && states[0] == {} && x in ids && n < |states|
    requires forall k: nat | k < |passes| :: OutrankedAt(passes, able, x, k)
    ensures x !in states[n]
  {
    forall k: nat | k < |passes| ensures ShadowedAt(passes, able, x, k) {
      Remembered(ids, states, passes, k);
      assert OutrankedAt(passes, able, x, k);
      RanksBound(passes[k].cs, IndexOf(passes[k].cs, x), able);
    }
    NeverReached(ids, states, passes, d, able, x, n);
  }

  /** With fewer than d candidates that are not able and that it does not outrank, x is reached in every order. */
  lemma InRankReached(ids: set<string>, states: seq<set<string>>, passes: seq<Pass>, d: nat, able: set<string>,
                      x: string)
    requires SteadyPasses(ids, states, passes, d, able) && states[0] == {}
    requires x in ids * able && |passes| >= |ids * able|
    requires forall n: nat | n < |passes| :: InRankAt(passes, able, x, d, n)
    ensures x in states[|passes|]
  {
    forall k: nat | k < |passes| ensures ClearAt(passes, able, x, d, k) {
      Remembered(ids, states, passes, k);
      assert InRankAt(passes, able, x, d, k);
      RanksBound(passes[k].cs, IndexOf(passes[k].cs, x), able);
    }
    AbleReached(ids, states, passes, d, able, x);
  }

  /** Behind a candidate of rank d or more there is no candidate of smaller rank. */
  lemma NoneBehind(cs: seq<Candidate>, pool: string, i: nat, d: nat, m: nat)
    requires Ranked(cs) && i <= m < |cs| && Rank(cs, i) >= d && |PoolOf(cs[..m], pool)| < d
    ensures cs[m].pool != pool
  {
    assert i < m ==> RanksInOrder(cs, i, m);
  }

  lemma {:induction false} PoolStays(cs: seq<Candidate>, pool: string, i: nat, d: nat, m: nat)
    requires Ranked(cs) && i <= m <= |cs| && i < |cs| && Rank(cs, i) >= d && |PoolOf(cs[..i], pool)| < d
    ensures PoolOf(cs[..m], pool) == PoolOf(cs[..i], pool)
  {
    if i < m {
      PoolStays(cs, pool, i, d, m - 1);
      NoneBehind(cs, pool, i, d, m - 1);
      PoolOfNext(cs, pool, m - 1);
    }
  }

  /** The first d candidates of any pool stand before a candidate of rank d or more. */
  lemma PoolStandsBefore(cs: seq<Candidate>, pool: string, i: nat, d: nat)
    requires Ranked(cs) && i < |cs| && |PoolOf(cs, pool)| >= d && Rank(cs, i) >= d
    ensures |PoolOf(cs[..i], pool)| >= d
  {
    assert cs[..|cs|] == cs;
    if |PoolOf(cs[..i], pool)| < d {
      PoolStays(cs, pool, i, d, |cs|);
    }
  }

  lemma {:induction false} PoolNotAble(cs: seq<Candidate>, pool: string, able: set<string>)
    requires forall c | c in cs && c.pool == pool :: c.providerID !in able
    ensures |PoolOf(cs, pool)| <= |Without(cs, able)|
  {
    if cs != [] {
      assert forall c | c in cs[..|cs| - 1] :: c in cs;
      PoolNotAble(cs[..|cs| - 1], pool, able);
      assert cs[|cs| - 1] in cs;
    }
  }

  lemma IdlePoolShadows(cs: seq<Candidate>, pool: string, able: set<string>, x: string, d: nat)
    requires Ranked(cs) && x in IDs(cs) && Rank(cs, IndexOf(cs, x)) >= d && |PoolOf(cs, pool)| >= d
    requires forall c | c in cs && c.pool == pool :: c.providerID !in able
    ensures Behind(cs, x, able) >= d
  {
    var i := IndexOf(cs, x);
    PoolStandsBefore(cs, pool, i, d);
    assert forall c | c in cs[..i] :: c in cs;
    PoolNotAble(cs[..i], pool, able);
  }

  /**
   What starves a candidate in terms of the input alone: `idle` candidates of one pool, none of them
   able, and as many `better` ones of its own pool, shadow x in passes no deeper than that.
   */
  ghost predicate Starves(cs: seq<Candidate>, able: set<string>, x: Candidate, pool: string, idle: set<Candidate>,
                          better: set<Candidate>, d: nat)
  {
    && DistinctIDs(cs) && x in cs && x.disruption > 0.0 && |idle| >= d && |better| >= d
    && (forall c | c in cs && c.pool == pool :: c.providerID !in able)
    && (forall c | c in idle :: c in cs && c.pool == pool)
    && forall c | c in better ::
         c in cs && c.pool == x.pool && c.disruption > 0.0 && SavingsRatio(c) > SavingsRatio(x)
  }

  lemma InputShadows(cs: seq<Candidate>, able: set<string>, x: Candidate, pool: string, idle: set<Candidate>,
                     better: set<Candidate>, d: nat, sh: Shuffle, unseen: set<string>, order: seq<Candidate>)
    requires Starves(cs, able, x, pool, idle, better, d) && Shuffles(sh, cs, unseen, order)
    ensures x.providerID in IDs(order) && Behind(order, x.providerID, able) >= d
  {
    ShufflePermutes(sh, cs, unseen, order);
    SameMembers(order, cs);
    RanksRise(sh, order);
    assert x in order;
    var i := IndexOf(order, x.providerID);
    SameCandidate(cs, order[i], x);
    BetterOutrank(sh, cs, unseen, order, i, better);
    FewerMembers(idle, PoolOf(order, pool));
    IdlePoolShadows(order, pool, able, x.providerID, d);
  }

  lemma SameCandidate(cs: seq<Candidate>, a: Candidate, b: Candidate)
    requires DistinctIDs(cs) && a in cs && b in cs && a.providerID == b.providerID
    ensures a == b
  {
  }

  /** A pass over these candidates as the controller orders them, with any pools unseen before. */
  ghost predicate Ordered(cs: seq<Candidate>, p: Pass) {
    exists sh, unseen :: Shuffles(sh, cs, unseen, p.cs)
  }

  /** Candidates of one pool in the order of their ratios, without ties. */
  ghost predicate OneRanking(cs: seq<Candidate>) {
    && DistinctIDs(cs) && Positive(cs) && StrictlyDescending(cs)
    && forall a, b | a in cs && b in cs :: a.pool == b.pool
  }

  /** Every pass has them in the same order. */
  lemma OneOrder(cs: seq<Candidate>, p: Pass)
    requires OneRanking(cs) && Ordered(cs, p)
    ensures p.cs == cs
  {
    var sh, unseen :| Shuffles(sh, cs, unseen, p.cs);
    OnePoolOrder(sh, cs, unseen, p.cs);
  }

  /** So a pool without budget starves the tails of the others, whichever pools are unseen and in whatever order. */
  lemma IdlePoolStarves(cs: seq<Candidate>, states: seq<set<string>>, passes: seq<Pass>, d: nat, able: set<string>,
                        x: Candidate, pool: string, idle: set<Candidate>, better: set<Candidate>, n: nat)
    requires Starves(cs, able, x, pool, idle, better, d) && SteadyPasses(IDs(cs), states, passes, d, able)
    requires states[0] == {} && n < |states|
    requires forall k: nat | k < |passes| :: Ordered(cs, passes[k]) && passes[k].depth == d
    ensures x.providerID !in states[n]
  {
    forall k: nat | k < |passes| ensures ShadowedAt(passes, able, x.providerID, k) {
      assert Ordered(cs, passes[k]);
      var sh, unseen :| Shuffles(sh, cs, unseen, passes[k].cs);
      InputShadows(cs, able, x, pool, idle, better, d, sh, unseen, passes[k].cs);
    }
    NeverReached(IDs(cs), states, passes, d, able, x.providerID, n);
  }

  /** Such candidates: a pool of two without budget starves the third of another pool in passes two deep. */
  lemma StarvedThird(p0: Candidate, p1: Candidate, q0: Candidate, q1: Candidate, q2: Candidate)
    requires DistinctIDs([p0, p1, q0, q1, q2]) && Positive([p0, p1, q0, q1, q2])
    requires p0.pool == p1.pool != q0.pool == q1.pool == q2.pool
    requires q0.disruption > 0.0 && q1.disruption > 0.0 && q2.disruption > 0.0
    requires SavingsRatio(q0) > SavingsRatio(q2) && SavingsRatio(q1) > SavingsRatio(q2)
    ensures Starves([p0, p1, q0, q1, q2], {q0.providerID, q1.providerID, q2.providerID}, q2, p0.pool, {p0, p1},
                    {q0, q1}, 2)
  {
    var cs := [p0, p1, q0, q1, q2];
    assert cs[0] in cs && cs[1] in cs && cs[2] in cs && cs[3] in cs && cs[4] in cs;
    assert cs[0].providerID != cs[1].providerID && cs[2].providerID != cs[3].providerID;
    forall c | c in cs && c.pool == p0.pool
      ensures c.providerID !in {q0.providerID, q1.providerID, q2.providerID}
    {
      var k :| 0 <= k < 5 && cs[k] == c;
      assert cs[k].providerID != cs[2].providerID && cs[k].providerID != cs[3].providerID;
      assert cs[k].providerID != cs[4].providerID;
    }
  }

  /** One pool whose candidates all have budget: exactly those that can pass the threshold are able. */
  ghost predicate OnePool(cs: seq<Candidate>, able: set<string>, balanced: string -> bool,
                          totals: map<string, Balanced.Totals>)
  {
    && DistinctIDs(cs) && (forall a, b | a in cs && b in cs :: a.pool == b.pool)
    && forall c | c in cs :: c.providerID in able <==> Balanced.CanPassThreshold(c, balanced, totals)
  }

  lemma OnePoolAhead(cs: seq<Candidate>, able: set<string>, balanced: string -> bool,
                     totals: map<string, Balanced.Totals>, sh: Shuffle, unseen: set<string>, order: seq<Candidate>,
                     i: nat, j: nat)
    requires OnePool(cs, able, balanced, totals) && Shuffles(sh, cs, unseen, order)
    requires i < j < |order| && order[i] in cs && order[j] in cs && order[j].providerID in able
    ensures order[i].providerID in able
  {
    Balanced.ThresholdLast(sh, cs, unseen, order, i, j, balanced, totals);
  }

  lemma OnePoolClear(cs: seq<Candidate>, able: set<string>, balanced: string -> bool,
                     totals: map<string, Balanced.Totals>, sh: Shuffle, unseen: set<string>, order: seq<Candidate>,
                     x: string)
    requires OnePool(cs, able, balanced, totals) && Shuffles(sh, cs, unseen, order)
    requires x in IDs(cs) * able
    ensures x in IDs(order) && Behind(order, x, able) == 0
  {
    ShufflePermutes(sh, cs, unseen, order);
    SameMembers(order, cs);
    var j := IndexOf(order, x);
    forall i: nat | i < j ensures order[i].providerID in able {
      assert order[i] in order && order[j] in order;
      OnePoolAhead(cs, able, balanced, totals, sh, unseen, order, i, j);
    }
    AllAble(order[..j], able);
  }

  lemma AllAble(cs: seq<Candidate>, able: set<string>)
    requires forall i: nat | i < |cs| :: cs[i].providerID in able
    ensures Without(cs, able) == []
  {
    WithoutAll(cs, able);
  }

  /** With one pool and budget for it, every candidate that can pass the threshold is reached in time. */
  lemma OnePoolReached(cs: seq<Candidate>, states: seq<set<string>>, passes: seq<Pass>, d: nat, able: set<string>,
                       balanced: string -> bool, totals: map<string, Balanced.Totals>)
    requires OnePool(cs, able, balanced, totals) && SteadyPasses(IDs(cs), states, passes, d, able)
    requires states[0] == {} && d > 0 && |passes| >= |IDs(cs) * able|
    requires forall k: nat | k < |passes| :: Ordered(cs, passes[k])
    ensures states[|passes|] == IDs(cs) * able
  {
    forall x | x in IDs(cs) * able ensures x in states[|passes|] {
      forall k: nat | k < |passes| ensures ClearAt(passes, able, x, d, k) {
        assert Ordered(cs, passes[k]);
        var sh, unseen :| Shuffles(sh, cs, unseen, passes[k].cs);
        OnePoolClear(cs, able, balanced, totals, sh, unseen, passes[k].cs, x);
      }
      AbleReached(IDs(cs), states, passes, d, able, x);
    }
    OnlyAble(IDs(cs), states, passes, d, able, |passes|);
    Remembered(IDs(cs), states, passes, |passes|);
  }

  // Starvation

  /** Passes that make no progress leave the cycle where it is, however many there are. */
  lemma {:induction false} StuckForever(ids: set<string>, states: seq<set<string>>, passes: seq<Pass>, n: nat)
    requires Passes(ids, states, passes) && n < |states|
    requires forall i: nat | i < |passes| :: StuckAt(ids, states, passes, i)
    ensures states[n] == states[0]
  {
    if n > 0 {
      StuckForever(ids, states, passes, n - 1);
      StuckStep(ids, states, passes, n - 1);
    }
  }

  lemma StuckStep(ids: set<string>, states: seq<set<string>>, passes: seq<Pass>, n: nat)
    requires Passes(ids, states, passes) && n < |passes| && StuckAt(ids, states, passes, n)
    ensures states[n + 1] == states[n]
  {
    Remembered(ids, states, passes, n);
    PassProgressIff(states[n], passes[n]);
  }

  /** Such a pass spends its depth on the unreached candidates first, and repeats the head of the reached ones. */
  lemma StuckRepeatsHead(evaluated: set<string>, p: Pass, id: string)
    requires Fits(evaluated, p) && !Progresses(evaluated, p) && id in Verdicts(evaluated, p)
    ensures var reached := Without(p.cs, IDs(p.cs) - Live(evaluated, p.cs));
            exists k: nat :: k < |reached| && Unreached(p.cs, evaluated) + k < p.depth && reached[k].providerID == id
  {
    var order, front := Resumed(evaluated, p.cs), Without(p.cs, Live(evaluated, p.cs));
    VerdictIff(order, p.looks, p.budget, p.depth, id);
    var k: nat :| k < p.depth && order[k].providerID == id && HasVerdict(order, p.looks, p.budget, k);
    assert k >= |front|;
    assert order[k] == Without(p.cs, IDs(p.cs) - Live(evaluated, p.cs))[k - |front|];
  }

  /** A candidate that stands beyond the depth of a pass is not evaluated. */
  lemma BeyondDepth(evaluated: set<string>, p: Pass, i: nat)
    requires DistinctIDs(p.cs) && Fits(evaluated, p) && i < |p.cs| && Place(p.cs, evaluated, i) >= p.depth
    ensures p.cs[i].providerID !in Verdicts(evaluated, p)
  {
    PlaceIs(p.cs, evaluated, i);
    ResumedPermutes(evaluated, p.cs);
    VerdictIff(Resumed(evaluated, p.cs), p.looks, p.budget, p.depth, p.cs[i].providerID);
  }

  /** So a reached candidate behind that head, in the order of the pass, is not looked at again. */
  lemma TailStarves(ids: set<string>, states: seq<set<string>>, passes: seq<Pass>, n: nat, x: string)
    requires Passes(ids, states, passes) && n < |passes| && x in states[0]
    requires forall i: nat | i < |passes| :: StuckAt(ids, states, passes, i)
    requires x in IDs(passes[n].cs)
    requires |ids - states[0]| + Behind(passes[n].cs, x, ids - states[0]) >= passes[n].depth
    ensures StuckAt(ids, states, passes, n) && x !in Verdicts(states[n], passes[n])
  {
    StuckForever(ids, states, passes, n);
    Remembered(ids, states, passes, n);
    assert StuckAt(ids, states, passes, n);
    ResumedPermutes(states[n], passes[n].cs);
    BeyondDepth(states[n], passes[n], IndexOf(passes[n].cs, x));
  }

  /** A state keeps what it has reached. */
  lemma StillReached(ids: set<string>, states: seq<set<string>>, passes: seq<Pass>, n: nat)
    requires Passes(ids, states, passes) && n < |passes|
    ensures states[n] <= states[n + 1] <= ids
  {
    Remembered(ids, states, passes, n);
    PassProgressIff(states[n], passes[n]);
  }

  lemma SettledNext(ids: set<string>, states: seq<set<string>>, passes: seq<Pass>, d: nat, able: set<string>, n: nat)
    requires SteadyPasses(ids, states, passes, d, able) && n < |passes| && states[n] == ids * able
    ensures states[n + 1] == ids * able
  {
    StillReached(ids, states, passes, n);
    AbleStep(ids, states, passes, d, able, n);
  }

  /** Once all able candidates are reached, nothing more is: the others are skipped and stay in front. */
  lemma {:induction false} SettledStays(ids: set<string>, states: seq<set<string>>, passes: seq<Pass>, d: nat,
                                        able: set<string>, m: nat, n: nat)
    requires SteadyPasses(ids, states, passes, d, able) && m <= n < |states| && states[m] == ids * able
    ensures states[n] == ids * able
  {
    if m < n {
      SettledStays(ids, states, passes, d, able, m, n - 1);
      SettledNext(ids, states, passes, d, able, n - 1);
    }
  }

  /**
   Which candidates such a cycle still evaluates: exactly the able ones with fewer candidates than the
   pass gets deep among those that are not able, anywhere, and those that are able and before them.
   The rest are starved for as long as passes time out.
   */
  lemma StarvedIff(ids: set<string>, states: seq<set<string>>, passes: seq<Pass>, d: nat, able: set<string>, x: string,
                   n: nat)
    requires SteadyPasses(ids, states, passes, d, able) && n < |passes|
    requires states[n] == ids * able && x in ids * able
    ensures SteadyAt(states, passes, d, able, n) && x in IDs(passes[n].cs)
    ensures x in Verdicts(states[n], passes[n]) <==>
            |ids - able| + Behind(passes[n].cs, x, ids - able) < passes[n].depth
  {
    Remembered(ids, states, passes, n);
    assert SteadyAt(states, passes, d, able, n);
    var cs := passes[n].cs;
    ResumedPermutes(states[n], cs);
    assert ids - ids * able == ids - able;
    EvaluatedIff(states[n], passes[n], d, able, IndexOf(cs, x));
  }

  lemma SecondStarves(a: Candidate, b: Candidate, c: Candidate, states: seq<set<string>>, passes: seq<Pass>, n: nat)
    requires DistinctIDs([a, b, c]) && states != [] && states[0] == {} && 0 < n < |passes|
    requires SteadyPasses(IDs([a, b, c]), states, passes, 2, {a.providerID, b.providerID})
    requires passes[0].cs == passes[n].cs == [a, b, c] && passes[0].depth == passes[n].depth == 2
    ensures states[n] == {a.providerID, b.providerID} && Fits(states[n], passes[n])
    ensures states[n + 1] == states[n] && b.providerID !in Verdicts(states[n], passes[n])
  {
    var ids, able := IDs([a, b, c]), {a.providerID, b.providerID};
    ThreeIDs(a, b, c);
    assert ids * able == able && ids - able == {c.providerID};
    BothReached(a, b, c, states, passes);
    SettledStays(ids, states, passes, 2, able, 1, n);
    SettledStays(ids, states, passes, 2, able, 1, n + 1);
    StarvedIff(ids, states, passes, 2, able, b.providerID, n);
    SecondOfThree(a, b, c);
    WithoutLast([a], {c.providerID});
  }

  lemma ThirdBelow(cs: seq<Candidate>, states: seq<set<string>>, passes: seq<Pass>, n: nat)
    requires |cs| == 3 && DistinctIDs(cs) && states != [] && states[0] == {} && 0 < n < |passes|
    requires SteadyPasses(IDs(cs), states, passes, 2, {cs[0].providerID, cs[1].providerID})
    requires passes[0].cs == passes[n].cs == cs && passes[0].depth == passes[n].depth == 2
    ensures states[n] == {cs[0].providerID, cs[1].providerID} && Fits(states[n], passes[n])
    ensures states[n + 1] == states[n] && cs[1].providerID !in Verdicts(states[n], passes[n])
  {
    assert cs == [cs[0], cs[1], cs[2]];
    SecondStarves(cs[0], cs[1], cs[2], states, passes, n);
  }

  /**
   Three candidates of one pool, the one with the worst ratio below the threshold, and passes two deep:
   the first pass reaches both others, every later one looks at the best again and changes nothing. The
   second is starved and the cycle never completes.
   */
  lemma BelowThresholdStarves(cs: seq<Candidate>, states: seq<set<string>>, passes: seq<Pass>, n: nat)
    requires |cs| == 3 && OneRanking(cs) && states != [] && states[0] == {} && 0 < n < |passes|
    requires SteadyPasses(IDs(cs), states, passes, 2, {cs[0].providerID, cs[1].providerID})
    requires forall k: nat | k < |passes| :: Ordered(cs, passes[k]) && passes[k].depth == 2
    ensures states[n] == {cs[0].providerID, cs[1].providerID} && Fits(states[n], passes[n])
    ensures states[n + 1] == states[n] && cs[1].providerID !in Verdicts(states[n], passes[n])
  {
    OneOrder(cs, passes[0]);
    OneOrder(cs, passes[n]);
    ThirdBelow(cs, states, passes, n);
  }

  lemma ThreeIDs(a: Candidate, b: Candidate, c: Candidate)
    requires DistinctIDs([a, b, c])
    ensures IDs([a, b, c]) == {a.providerID, b.providerID, c.providerID}
    ensures a.providerID != b.providerID && a.providerID != c.providerID && b.providerID != c.providerID
  {
    var cs := [a, b, c];
    assert cs[0] in cs && cs[1] in cs && cs[2] in cs;
    assert cs[0].providerID != cs[1].providerID && cs[1].providerID != cs[2].providerID;
    assert cs[0].providerID != cs[2].providerID;
  }

  lemma SecondOfThree(a: Candidate, b: Candidate, c: Candidate)
    requires DistinctIDs([a, b, c])
    ensures b.providerID in IDs([a, b, c]) && [a, b, c][..IndexOf([a, b, c], b.providerID)] == [a]
  {
    ThreeIDs(a, b, c);
    assert IndexOf([a, b, c], b.providerID) == 1;
  }

  /** The first pass of a cycle takes the candidates as they come. */
  lemma FirstPass(ids: set<string>, states: seq<set<string>>, passes: seq<Pass>, d: nat, able: set<string>, i: nat)
    requires SteadyPasses(ids, states, passes, d, able) && states[0] == {} && |passes| > 0
    requires i < |passes[0].cs| && i < passes[0].depth && passes[0].cs[i].providerID in able
    ensures passes[0].cs[i].providerID in states[1]
  {
    Remembered(ids, states, passes, 0);
    assert SteadyAt(states, passes, d, able, 0);
    EvaluatedIff({}, passes[0], d, able, i);
    WithoutNothing(passes[0].cs[..i]);
  }

  lemma BothReached(a: Candidate, b: Candidate, c: Candidate, states: seq<set<string>>, passes: seq<Pass>)
    requires DistinctIDs([a, b, c]) && states != [] && states[0] == {} && |passes| > 0
    requires SteadyPasses(IDs([a, b, c]), states, passes, 2, {a.providerID, b.providerID})
    requires passes[0].cs == [a, b, c] && passes[0].depth == 2
    ensures states[1] == {a.providerID, b.providerID}
  {
    var ids, able := IDs([a, b, c]), {a.providerID, b.providerID};
    FirstPass(ids, states, passes, 2, able, 0);
    FirstPass(ids, states, passes, 2, able, 1);
    OnlyAble(ids, states, passes, 2, able, 1);
  }

  function ExampleTotals(pool: string): map<string, Balanced.Totals> {
    map[pool := Balanced.Totals(18.0, 11.0)]
  }

  lemma ExampleThreshold(c: Candidate, pool: string)
    requires c.pool == pool && c.price > 0.0 && c.disruption > 0.0
    ensures Balanced.CanPassThreshold(c, _ => true, ExampleTotals(pool)) <==>
            22.0 * c.price >= 18.0 * c.disruption
  {
    Balanced.ApprovedIff(c.price, c.disruption, Balanced.Totals(18.0, 11.0));
  }

  /** Such candidates: prices 9, 8 and 1 and disruption costs 1, 1 and 9, which make up the totals of their pool. */
  lemma StarvingInput(x: string, y: string, z: string, pool: string) returns (cs: seq<Candidate>)
    requires x != y && y != z && x != z
    ensures |cs| == 3 && cs[0].providerID == x && cs[1].providerID == y && cs[2].providerID == z
    ensures OneRanking(cs) && OnePool(cs, {x, y}, _ => true, ExampleTotals(pool))
  {
    var a := Candidate(x, x, x, pool, true, 9.0, 1.0);
    var b := Candidate(y, y, y, pool, true, 8.0, 1.0);
    var c := Candidate(z, z, z, pool, true, 1.0, 9.0);
    ExampleThreshold(a, pool);
    ExampleThreshold(b, pool);
    ExampleThreshold(c, pool);
    cs := [a, b, c];
  }

  // Runs

  lemma {:induction false} NothingWon(cs: seq<Candidate>, looks: seq<Look>, budget: map<string, int>, n: nat)
    requires n <= |cs| == |looks| && forall k | 0 <= k < |looks| :: !Wins(looks[k])
    ensures HeldUpTo(cs, looks, budget, n) == []
  {
    if n > 0 {
      NothingWon(cs, looks, budget, n - 1);
    }
  }

  /** A pass in a given order that gets d deep and finds no move for any candidate. */
  ghost function IdlePass(order: seq<Candidate>, evaluated: set<string>, able: set<string>, budget: map<string, int>,
                          d: nat): Pass
  {
    var cs := Resumed(evaluated, order);
    Pass(order, seq(|cs|, k requires 0 <= k < |cs| => Look(k >= d, cs[k].providerID in able, false, NoOp)), budget, d)
  }

  lemma IdleSteady(order: seq<Candidate>, evaluated: set<string>, able: set<string>, budget: map<string, int>, d: nat)
    requires DistinctIDs(order) && d <= |order|
    requires forall c | c in order && c.providerID in able :: Lookup(budget, c.pool) > 0
    ensures Steady(evaluated, IdlePass(order, evaluated, able, budget, d), d, able)
  {
    var p, cs := IdlePass(order, evaluated, able, budget, d), Resumed(evaluated, order);
    ResumedLength(order, evaluated);
    NothingWon(cs, p.looks, budget, d);
    forall k | 0 <= k < |cs| ensures cs[k] in order {
      UnreachedFirst(order, evaluated, k);
    }
  }

  /** An order of the given candidates, with budget for the able ones. */
  ghost predicate Runnable(ids: set<string>, order: seq<Candidate>, able: set<string>, budget: map<string, int>) {
    && DistinctIDs(order) && IDs(order) == ids
    && forall c | c in order && c.providerID in able :: Lookup(budget, c.pool) > 0
  }

  ghost predicate Follows(passes: seq<Pass>, orders: seq<seq<Candidate>>, d: nat) {
    |passes| == |orders| && forall n: nat | n < |passes| :: passes[n].cs == orders[n] && passes[n].depth == d
  }

  /** Steady runs exist for any orders of the passes, as long as some candidate is not able. */
  lemma {:induction false} SteadyRun(ids: set<string>, orders: seq<seq<Candidate>>, able: set<string>,
                                     budget: map<string, int>, d: nat)
    returns (states: seq<set<string>>, passes: seq<Pass>)
    requires !(ids <= able) && d <= |ids| && forall n: nat | n < |orders| :: Runnable(ids, orders[n], able, budget)
    ensures SteadyPasses(ids, states, passes, d, able) && states[0] == {} && Follows(passes, orders, d)
  {
    if orders == [] {
      states, passes := [{}], [];
    } else {
      var n := |orders| - 1;
      states, passes := SteadyRun(ids, orders[..n], able, budget, d);
      assert Runnable(ids, orders[n], able, budget);
      states, passes := RunOnce(ids, states, passes, d, able, orders[n], budget);
    }
  }

  lemma RunOnce(ids: set<string>, states: seq<set<string>>, passes: seq<Pass>, d: nat, able: set<string>,
                order: seq<Candidate>, budget: map<string, int>)
    returns (more: seq<set<string>>, ps: seq<Pass>)
    requires SteadyPasses(ids, states, passes, d, able) && states[0] == {} && !(ids <= able)
    requires Runnable(ids, order, able, budget) && d <= |ids|
    ensures SteadyPasses(ids, more, ps, d, able) && more[0] == {}
    ensures |ps| == |passes| + 1 && ps[..|passes|] == passes && ps[|passes|].cs == order && ps[|passes|].depth == d
  {
    var n := |passes|;
    var p := IdlePass(order, states[n], able, budget, d);
    IDCount(order);
    IdleSteady(order, states[n], able, budget, d);
    more, ps := states + [After(states[n], p)], passes + [p];
    RunExtended(ids, states, passes, d, able, p);
  }

  lemma EarlierAt(ids: set<string>, states: seq<set<string>>, passes: seq<Pass>, d: nat, able: set<string>,
                  s: set<string>, p: Pass, k: nat)
    requires k < |passes| < |states| && PassAt(ids, states, passes, k) && SteadyAt(states, passes, d, able, k)
    ensures PassAt(ids, states + [s], passes + [p], k) && SteadyAt(states + [s], passes + [p], d, able, k)
  {
    assert (states + [s])[k] == states[k] && (states + [s])[k + 1] == states[k + 1] && (passes + [p])[k] == passes[k];
  }

  lemma LastAt(ids: set<string>, states: seq<set<string>>, passes: seq<Pass>, d: nat, able: set<string>, p: Pass)
    requires |states| == |passes| + 1 && Sees(ids, p) && |states[|passes|] * ids| < |ids|
    requires Steady(states[|passes|], p, d, able)
    ensures PassAt(ids, states + [After(states[|passes|], p)], passes + [p], |passes|)
    ensures SteadyAt(states + [After(states[|passes|], p)], passes + [p], d, able, |passes|)
  {
  }

  lemma RunExtended(ids: set<string>, states: seq<set<string>>, passes: seq<Pass>, d: nat, able: set<string>, p: Pass)
    requires SteadyPasses(ids, states, passes, d, able) && states[0] == {} && !(ids <= able) && Sees(ids, p)
    requires Steady(states[|passes|], p, d, able)
    ensures SteadyPasses(ids, states + [After(states[|passes|], p)], passes + [p], d, able)
  {
    var n, s := |passes|, After(states[|passes|], p);
    OnlyAble(ids, states, passes, d, able, n);
    NotAll(ids, states[n], able);
    LastAt(ids, states, passes, d, able, p);
    forall k: nat | k < n
      ensures PassAt(ids, states + [s], passes + [p], k) && SteadyAt(states + [s], passes + [p], d, able, k)
    {
      EarlierAt(ids, states, passes, d, able, s, p, k);
    }
  }

  lemma NotAll(ids: set<string>, state: set<string>, able: set<string>)
    requires !(ids <= able) && state <= able
    ensures |state * ids| < |ids|
  {
    var x :| x in ids && x !in able;
    SubsetSize(state * ids, ids - {x});
  }

  // The pass itself

  /** The pools that wait: one the last pass did not see, with no candidate reached, is seen among the first. */
  lemma UnseenSoon(sh: Shuffle, cs: seq<Candidate>, unseen: set<string>, order: seq<Candidate>, evaluated: set<string>,
                   pool: string)
    requires DistinctIDs(cs) && Shuffles(sh, cs, unseen, order) && pool in unseen * Pools(cs)
    requires forall c | c in cs && c.pool == pool :: c.providerID !in Live(evaluated, order)
    ensures exists k: nat :: k < |unseen| && k < |Resumed(evaluated, order)|
                             && Resumed(evaluated, order)[k].pool == pool
  {
    ShufflePermutes(sh, cs, unseen, order);
    SameMembers(order, cs);
    var i := FirstOfPool(sh, cs, unseen, order, pool);
    PlaceIs(order, evaluated, i);
    assert order[i] in cs;
    WithoutShorter(order[..i], Live(evaluated, order));
  }

  lemma {:induction false} WithoutShorter(cs: seq<Candidate>, ids: set<string>)
    ensures |Without(cs, ids)| <= |cs|
  {
    if cs != [] {
      WithoutShorter(cs[..|cs| - 1], ids);
    }
  }

  /**
   A pass as the controller runs it: sort, interleave, resume, walk. The cycle and the unseen pools
   move as the model of a pass says.
   */
  method RunPass(s: SingleNodeConsolidation, cs: seq<Candidate>, budget: map<string, int>, looks: seq<Look>,
                 maxCommands: int)
    returns (held: seq<nat>, timedOut: bool, ghost p: Pass)
    requires DistinctIDs(cs) && Positive(cs) && |looks| == |cs| && forall pool | pool in budget :: budget[pool] >= 0
    modifies s
    ensures p.looks == looks && p.budget == budget && Sees(IDs(cs), p) && Fits(old(s.evaluatedThisCycle), p)
    ensures exists sh :: Shuffles(sh, cs, old(s.previouslyUnseenNodePools), p.cs)
    ensures held == HeldUpTo(Resumed(old(s.evaluatedThisCycle), p.cs), looks, budget, p.depth)
    ensures s.evaluatedThisCycle == if timedOut then After(old(s.evaluatedThisCycle), p) else {}
    ensures s.previouslyUnseenNodePools ==
            if timedOut || held == [] then Pools(cs) - Pools(Resumed(old(s.evaluatedThisCycle), p.cs)[..p.depth])
            else old(s.previouslyUnseenNodePools)
  {
    ghost var evaluated := s.evaluatedThisCycle;
    ghost var sh, shuffled;
    var order, depth;
    order, shuffled, sh := s.SortCandidates(cs);
    ShufflePermutes(sh, cs, s.previouslyUnseenNodePools, shuffled);
    ResumedLength(shuffled, evaluated);
    SamePools(cs, shuffled, evaluated);
    held, timedOut, depth := s.WalkCandidates(order, budget, looks, maxCommands);
    p := Pass(shuffled, looks, budget, depth);
  }

  lemma SamePools(cs: seq<Candidate>, order: seq<Candidate>, evaluated: set<string>)
    requires DistinctIDs(order) && multiset(order) == multiset(cs)
    ensures Pools(Resumed(evaluated, order)) == Pools(cs)
  {
    ResumedPermutes(evaluated, order);
    SameMembers(Resumed(evaluated, order), cs);
  }
}
