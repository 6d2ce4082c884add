/**
 The multi-node search (pkg/controllers/disruption/multinodeconsolidation.go): a budget pre-filter,
 then a binary search for a prefix of the candidates that can be consolidated together. The
 simulation of a prefix is an oracle on its length.
 */
module PrefixSearch {
  import opened Candidates
  import opened Wrappers
  import opened Budgets

  // The budget pre-filter

  /** Candidate i is among the first of its pool, as many as the pool's budget allows. */
  predicate IsDisruptable(cs: seq<Candidate>, budget: map<string, int>, i: nat)
    requires i < |cs|
  {
    CountPool(cs[..i], cs[i].pool) < Lookup(budget, cs[i].pool)
  }

  ghost predicate PrefilterLeft(left: map<string, int>, budget: map<string, int>, cs: seq<Candidate>) {
    forall p ::
      Lookup(left, p) == if CountPool(cs, p) < Lookup(budget, p) then Lookup(budget, p) - CountPool(cs, p) else 0
  }

  ghost function KeptOf(cs: seq<Candidate>, budget: map<string, int>, pool: string, n: nat): set<nat>
    requires n <= |cs|
  {
    set i: nat | i < n && cs[i].pool == pool && IsDisruptable(cs, budget, i)
  }

  lemma KeptNext(cs: seq<Candidate>, budget: map<string, int>, pool: string, n: nat)
    requires n < |cs|
    ensures |KeptOf(cs, budget, pool, n + 1)| ==
            |KeptOf(cs, budget, pool, n)|
            + if cs[n].pool == pool && CountPool(cs[..n], pool) < Lookup(budget, pool) then 1 else 0
  {
    var keep := cs[n].pool == pool && IsDisruptable(cs, budget, n);
    assert KeptOf(cs, budget, pool, n + 1) == KeptOf(cs, budget, pool, n) + if keep then {n} else {};
  }

  lemma CountNext(cs: seq<Candidate>, pool: string, n: nat)
    requires n < |cs|
    ensures CountPool(cs[..n + 1], pool) == CountPool(cs[..n], pool) + if cs[n].pool == pool then 1 else 0
  {
    assert cs[..n + 1][..n] == cs[..n];
  }

  /** Of each pool exactly as many candidates are kept as it has and its budget allows. */
  lemma {:induction false} KeptCount(cs: seq<Candidate>, budget: map<string, int>, pool: string, n: nat)
    requires n <= |cs| && Lookup(budget, pool) >= 0
    ensures |KeptOf(cs, budget, pool, n)| ==
            if CountPool(cs[..n], pool) < Lookup(budget, pool) then CountPool(cs[..n], pool) else Lookup(budget, pool)
  {
    if n > 0 {
      KeptCount(cs, budget, pool, n - 1);
      KeptNext(cs, budget, pool, n - 1);
      CountNext(cs, pool, n - 1);
    }
  }

  lemma PrefilterOne(left: map<string, int>, budget: map<string, int>, cs: seq<Candidate>, i: nat)
    requires i < |cs| && PrefilterLeft(left, budget, cs[..i])
    ensures PrefilterLeft(if Lookup(left, cs[i].pool) == 0 then left
                          else left[cs[i].pool := Lookup(left, cs[i].pool) - 1],
                          budget, cs[..i + 1])
  {
    assert cs[..i + 1][..i] == cs[..i];
    var c := cs[i];
    var less := if Lookup(left, c.pool) == 0 then left else left[c.pool := Lookup(left, c.pool) - 1];
    forall p
      ensures Lookup(less, p) ==
              if CountPool(cs[..i + 1], p) < Lookup(budget, p) then Lookup(budget, p) - CountPool(cs[..i + 1], p) else 0
    {
      assert CountPool(cs[..i + 1], p) == CountPool(cs[..i], p) + if c.pool == p then 1 else 0;
      assert Lookup(left, p) ==
             if CountPool(cs[..i], p) < Lookup(budget, p) then Lookup(budget, p) - CountPool(cs[..i], p) else 0;
    }
  }

  /** Keeps, in order, exactly the candidates within their pools' budgets; `constrained` when any was left out. */
  method Prefilter(cs: seq<Candidate>, budget: map<string, int>) returns (kept: seq<nat>, constrained: bool)
    requires forall p | p in budget :: budget[p] >= 0
    ensures forall i: nat :: i in kept <==> i < |cs| && IsDisruptable(cs, budget, i)
    ensures forall a, b | 0 <= a < b < |kept| :: kept[a] < kept[b]
    ensures constrained <==> exists i: nat :: i < |cs| && !IsDisruptable(cs, budget, i)
  {
    kept, constrained := [], false;
    var left := budget;
    for i := 0 to |cs|
      invariant PrefilterLeft(left, budget, cs[..i])
      invariant forall k: nat :: k in kept <==> k < i && IsDisruptable(cs, budget, k)
      invariant forall a, b | 0 <= a < b < |kept| :: kept[a] < kept[b]
      invariant forall a | 0 <= a < |kept| :: kept[a] < i
      invariant constrained <==> exists k: nat :: k < i && !IsDisruptable(cs, budget, k)
    {
      PrefilterOne(left, budget, cs, i);
      if Lookup(left, cs[i].pool) == 0 {
        assert !IsDisruptable(cs, budget, i);
        constrained := true;
        continue;
      }
      kept := kept + [i];
      left := left[cs[i].pool := Lookup(left, cs[i].pool) - 1];
    }
  }

  // The search

  /** What simulating, filtering and scoring a prefix comes to. */
  datatype Probe = Valid | Invalid | DeadlineExceeded | Failed

  type Oracle = nat -> Probe

  /** The longest prefix the search may try. */
  function LongestTried(candidates: nat, max: nat): nat {
    if candidates <= max then candidates else max + 1
  }

  /** n can be halved this often before nothing is left. */
  function Halvings(n: nat): nat {
    if n == 0 then 0 else 1 + Halvings(n / 2)
  }

  lemma {:induction false} HalvingsGrow(m: nat, n: nat)
    requires m <= n
    ensures Halvings(m) <= Halvings(n)
  {
    if m > 0 {
      HalvingsGrow(m / 2, n / 2);
    }
  }

  /** A full batch takes seven probes at most. */
  lemma SevenProbes()
    ensures Halvings(101) == 7
  {
    assert Halvings(1) == 1 && Halvings(3) == 2 && Halvings(6) == 3 && Halvings(12) == 4;
    assert Halvings(25) == 5 && Halvings(50) == 6;
  }

  lemma ProbeHalves(low: int, high: int)
    requires low <= high
    ensures var mid := (low + high) / 2;
            && low <= mid <= high
            && 1 + Halvings(high - mid) <= Halvings(high - low + 1)
            && 1 + Halvings(mid - low) <= Halvings(high - low + 1)
  {
    var mid := (low + high) / 2;
    HalvingsGrow(high - mid, (high - low + 1) / 2);
    HalvingsGrow(mid - low, (high - low + 1) / 2);
  }

  /** The search ended on a valid prefix whose extension by one was found invalid or is out of reach. */
  ghost predicate IsEdge(probe: Oracle, bound: nat, found: Option<nat>) {
    var length := if found.Some? then found.value else 1;
    length >= bound || probe(length + 1).Invalid?
  }

  /** The probes so far and those the interval may still cost stay within the bound. */
  ghost predicate Affords(probes: nat, low: int, high: int, bound: nat) {
    low <= high + 1 && probes + Halvings(high - low + 1) <= Halvings(bound)
  }

  lemma ProbeAffords(probes: nat, low: int, high: int, bound: nat)
    requires low <= high && Affords(probes, low, high, bound)
    ensures var mid := (low + high) / 2;
            && low <= mid <= high
            && probes + 1 <= Halvings(bound)
            && Affords(probes + 1, mid + 1, high, bound) && Affords(probes + 1, low, mid - 1, bound)
  {
    ProbeHalves(low, high);
  }

  /**
   `firstNConsolidationOption`. Whatever happens the result is a valid prefix of at least two
   candidates, or none; without a deadline or an error it is an edge of validity.
   */
  method FirstNConsolidationOption(candidates: nat, max: nat, probe: Oracle)
    returns (found: Option<nat>, timedOut: bool, err: bool, ghost probes: nat, ghost last: nat)
    ensures found.Some? ==> 2 <= found.value <= LongestTried(candidates, max) && probe(found.value).Valid?
    ensures err ==> found.None? && probe(last).Failed?
    ensures timedOut ==> !err && probe(last).DeadlineExceeded?
    ensures candidates < 2 ==> found.None? && !timedOut && !err && probes == 0
    ensures !timedOut && !err ==> IsEdge(probe, LongestTried(candidates, max), found)
    ensures probes <= Halvings(LongestTried(candidates, max))
  {
    found, timedOut, err, probes, last := None, false, false, 0, 0;
    if candidates < 2 {
      return;
    }
    var low, high: int := 1, max;
    if candidates <= max {
      high := candidates - 1;
    }
    ghost var bound := LongestTried(candidates, max);
    HalvingsGrow(high, bound);
    while low <= high
      invariant 1 <= low <= high + 1 <= bound
      invariant if low == 1 then found.None? else found == Some(low) && probe(low).Valid?
      invariant high + 1 == bound || probe(high + 2).Invalid?
      invariant Affords(probes, low, high, bound)
      decreases high - low
    {
      var mid := (low + high) / 2;
      var outcome := probe(mid + 1);
      ProbeAffords(probes, low, high, bound);
      probes, last := probes + 1, mid + 1;
      match outcome {
        case DeadlineExceeded =>
          timedOut := true;
          return;
        case Failed =>
          found, err := None, true;
          return;
        case Valid =>
          found := Some(mid + 1);
          low := mid + 1;
        case Invalid =>
          high := mid - 1;
      }
    }
  }

  /** If validity is downward closed, an edge is the longest valid prefix. */
  lemma EdgeIsLongest(probe: Oracle, bound: nat, found: Option<nat>, length: nat)
    requires IsEdge(probe, bound, found) && (found.Some? ==> found.value >= 2)
    requires forall a: nat, b: nat | 2 <= a <= b <= bound && probe(b).Valid? :: probe(a).Valid?
    requires 2 <= length <= bound && probe(length).Valid?
    ensures found.Some? && length <= found.value
  {
    var end := if found.Some? then found.value else 1;
    assert forall a: nat | 2 <= a <= length :: probe(a).Valid?;
    assert end >= bound || probe(end + 1).Invalid?;
  }

  // The size of a batch

  function Clamp100(n: nat): nat {
    if n > 100 then 100 else n
  }

  /**
   The pass asks for at most 100 candidates, but the search index is one less than the length of
   the prefix: with more than 100 candidates a batch of 101 is tried, and returned when it is valid.
   */
  lemma BatchLimit(candidates: nat)
    ensures LongestTried(candidates, Clamp100(candidates)) <= 100 <==> candidates <= 100
    ensures candidates > 100 ==> LongestTried(candidates, Clamp100(candidates)) == 101
  {
  }

  lemma OverfullBatch(candidates: nat, found: Option<nat>)
    requires candidates > 100
    requires IsEdge(_ => Valid, LongestTried(candidates, Clamp100(candidates)), found)
    requires found.Some? ==> 2 <= found.value <= LongestTried(candidates, Clamp100(candidates))
    ensures found == Some(101)
  {
    EdgeIsLongest(_ => Valid, 101, found, 101);
  }
}
