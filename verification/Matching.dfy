/**
 Kuhn's augmenting-path bipartite matching, as `replacementsMatchSimulation` runs it: a recursive
 search over a shared `matchedTo` and a per-row `visited` (pkg/controllers/disruption/validation.go).
 Rows are replacements, columns are simulated NodeClaims.
 */
module Matching {
  import opened Finite

  /** can[i][j]: row i may take column j. */
  type Table = seq<seq<bool>>

  predicate Rectangular(can: Table, columns: nat) {
    forall i | 0 <= i < |can| :: |can[i]| == columns
  }

  /** A choice of a distinct allowed column for every row. */
  ghost predicate Assignment(can: Table, columns: nat, a: seq<int>) {
    && |a| == |can| && Rectangular(can, columns)
    && (forall i | 0 <= i < |a| :: 0 <= a[i] < columns && can[i][a[i]])
    && (forall i, j | 0 <= i < j < |a| :: a[i] != a[j])
  }

  ghost function Neighbours(can: Table, columns: nat, rows: set<int>): set<int>
    requires Rectangular(can, columns)
    requires forall i | i in rows :: 0 <= i < |can|
  {
    set i, j | i in rows && 0 <= j < columns && can[i][j] :: j
  }

  /** A set of rows with fewer allowed columns than rows. */
  ghost predicate HallViolator(can: Table, columns: nat, rows: set<int>) {
    && Rectangular(can, columns)
    && (forall i | i in rows :: 0 <= i < |can|)
    && |Neighbours(can, columns, rows)| < |rows|
  }

  /** A Hall violator rules out every assignment. */
  lemma ViolatorBlocks(can: Table, columns: nat, rows: set<int>, a: seq<int>)
    requires HallViolator(can, columns, rows)
    ensures !Assignment(can, columns, a)
  {
    if Assignment(can, columns, a) {
      InjectiveImage(rows, a);
      SubsetSize(set i | i in rows :: a[i], Neighbours(can, columns, rows));
    }
  }

  lemma ViolatorBlocksAll(can: Table, columns: nat, rows: set<int>)
    requires HallViolator(can, columns, rows)
    ensures !exists a :: Assignment(can, columns, a)
  {
    forall a ensures !Assignment(can, columns, a) {
      ViolatorBlocks(can, columns, rows, a);
    }
  }

  lemma AssignmentClears(can: Table, columns: nat, a: seq<int>)
    requires Assignment(can, columns, a)
    ensures !exists rows :: HallViolator(can, columns, rows)
  {
    forall rows ensures !HallViolator(can, columns, rows) {
      if HallViolator(can, columns, rows) {
        ViolatorBlocks(can, columns, rows, a);
      }
    }
  }

  // The state of the search: m[j] is the row matched to column j, or -1.

  predicate Partial(can: Table, columns: nat, m: seq<int>) {
    && Rectangular(can, columns) && |m| == columns
    && forall j | 0 <= j < columns :: -1 <= m[j] < |can| && (m[j] >= 0 ==> can[m[j]][j])
  }

  /** No row is matched twice among the columns not yet visited. */
  predicate Injective(m: seq<int>, visited: seq<bool>)
    requires |m| == |visited|
  {
    forall j, k | 0 <= j < k < |m| && !visited[j] && !visited[k] && m[j] >= 0 :: m[j] != m[k]
  }

  /** The rows matched among the columns not yet visited. */
  ghost function Rows(m: seq<int>, visited: seq<bool>): set<int>
    requires |m| == |visited|
  {
    set j | 0 <= j < |m| && !visited[j] && m[j] >= 0 :: m[j]
  }

  /** Exactly the first n rows are matched, each once. */
  ghost predicate Places(m: seq<int>, visited: seq<bool>, n: nat) {
    && |m| == |visited| && Injective(m, visited)
    && forall i :: i in Rows(m, visited) <==> 0 <= i < n
  }

  ghost predicate Grows(before: seq<bool>, after: seq<bool>) {
    |before| == |after| && forall j | 0 <= j < |before| :: before[j] ==> after[j]
  }

  predicate Covered(can: Table, i: int, visited: seq<bool>)
    requires 0 <= i < |can| && |can[i]| == |visited|
  {
    forall j | 0 <= j < |visited| && can[i][j] :: visited[j]
  }

  /** Every column visited since `before` is matched, and its row has no column left to try. */
  ghost predicate Exhausted(can: Table, m: seq<int>, before: seq<bool>, after: seq<bool>)
    requires Partial(can, |m|, m) && |m| == |before| == |after|
  {
    forall j | 0 <= j < |m| && after[j] && !before[j] :: m[j] >= 0 && Covered(can, m[j], after)
  }

  ghost function Unvisited(visited: seq<bool>): set<int> {
    set j | 0 <= j < |visited| && !visited[j]
  }

  /** What is known when column j, newly in w, can be handed to row i: its old row has moved to a column outside w. */
  ghost predicate Released(m: seq<int>, n: seq<int>, v: seq<bool>, w: seq<bool>, j: nat) {
    && |m| == |n| == |v| == |w| && j < |m|
    && Grows(v, w) && !v[j] && w[j] && Injective(m, v)
    && (forall k | 0 <= k < |m| && w[k] :: n[k] == m[k])
    && if m[j] < 0 then n == m else Injective(n, w) && Rows(n, w) == Rows(m, w) + {m[j]}
  }

  /** A row held outside w was already held outside v, at a column that w does not keep. */
  lemma MovedRow(m: seq<int>, n: seq<int>, v: seq<bool>, w: seq<bool>, j: nat, k: nat)
    requires Released(m, n, v, w, j) && k < |m| && !w[k] && n[k] >= 0
    ensures n[k] in Rows(m, v)
    ensures forall l | 0 <= l < |m| && w[l] && !v[l] && l != j :: m[l] != n[k]
  {
    assert n[k] in Rows(n, w);
    var x :| 0 <= x < |m| && (x == j || !w[x]) && m[x] == n[k];
  }

  lemma ReassignInjective(m: seq<int>, n: seq<int>, v: seq<bool>, w: seq<bool>, j: nat, i: int)
    requires Released(m, n, v, w, j) && i >= 0 && i !in Rows(m, v)
    ensures Injective(n[j := i], v)
  {
    var r := n[j := i];
    forall k, l | 0 <= k < l < |r| && !v[k] && !v[l] && r[k] >= 0 && r[l] >= 0 ensures r[k] != r[l] {
      if k != j && !w[k] { MovedRow(m, n, v, w, j, k); }
      if l != j && !w[l] { MovedRow(m, n, v, w, j, l); }
      if k != j && w[k] { assert m[k] in Rows(m, v); }
      if l != j && w[l] { assert m[l] in Rows(m, v); }
    }
  }

  lemma ReassignRows(m: seq<int>, n: seq<int>, v: seq<bool>, w: seq<bool>, j: nat, i: int)
    requires Released(m, n, v, w, j) && i >= 0
    ensures Rows(n[j := i], v) == Rows(m, v) + {i}
  {
    var r := n[j := i];
    assert r[j] == i && i in Rows(r, v);
    forall x | x in Rows(m, v) ensures x in Rows(r, v) {
      var k :| 0 <= k < |m| && !v[k] && m[k] >= 0 && m[k] == x;
      if w[k] && k != j {
        assert r[k] == x;
      } else {
        assert x in Rows(n, w);
        var l :| 0 <= l < |n| && !w[l] && n[l] >= 0 && n[l] == x;
        assert r[l] == x;
      }
    }
    forall x | x in Rows(r, v) ensures x in Rows(m, v) + {i} {
      var k :| 0 <= k < |r| && !v[k] && r[k] >= 0 && r[k] == x;
      if k != j && !w[k] {
        MovedRow(m, n, v, w, j, k);
      }
    }
  }

  /** A failed attempt at column j leaves the whole search exhausted. */
  lemma StaysExhausted(can: Table, m: seq<int>, v: seq<bool>, u: seq<bool>, w: seq<bool>, j: nat)
    requires Partial(can, |m|, m) && |m| == |v| == |u| == |w| && j < |m|
    requires Exhausted(can, m, v, u) && Grows(u[j := true], w)
    requires m[j] >= 0 && Covered(can, m[j], w) && Exhausted(can, m, u[j := true], w)
    ensures Exhausted(can, m, v, w)
  {
    forall k | 0 <= k < |m| && w[k] && !v[k] ensures m[k] >= 0 && Covered(can, m[k], w) {
      if k != j && u[k] {
        assert Covered(can, m[k], u);
      }
    }
  }

  /** Among the columns unvisited in v, the rows of m and row i are matched, and other columns are untouched. */
  ghost predicate Placed(m: seq<int>, n: seq<int>, v: seq<bool>, i: int) {
    && |m| == |n| == |v|
    && Injective(n, v) && Rows(n, v) == Rows(m, v) + {i}
    && forall j | 0 <= j < |m| && v[j] :: n[j] == m[j]
  }

  lemma Hands(can: Table, m: seq<int>, n: seq<int>, v: seq<bool>, w: seq<bool>, j: nat, i: nat)
    requires |m| == |n| == |v| == |w| && j < |m| && i < |can|
    requires Grows(v, w) && !v[j] && w[j] && Injective(m, v) && i !in Rows(m, v)
    requires if m[j] < 0 then n == m else Placed(m, n, w, m[j])
    requires Partial(can, |m|, n) && can[i][j]
    ensures Placed(m, n[j := i], v, i) && Partial(can, |m|, n[j := i])
  {
    ReassignInjective(m, n, v, w, j, i);
    ReassignRows(m, n, v, w, j, i);
  }

  /** Visiting a column shrinks the search, and frees the row that holds the column. */
  lemma Descends(m: seq<int>, v: seq<bool>, u: seq<bool>, j: nat)
    requires |m| == |v| && Grows(v, u) && j < |m| && !u[j] && Injective(m, v) && m[j] >= 0
    ensures Unvisited(u[j := true]) < Unvisited(v)
    ensures Injective(m, u[j := true]) && m[j] !in Rows(m, u[j := true])
  {
    assert j in Unvisited(v);
  }

  /** The closure `augment`. */
  method Augment(can: Table, columns: nat, matchedTo: array<int>, visited: array<bool>, i: nat) returns (found: bool)
    requires matchedTo.Length == visited.Length == columns && i < |can|
    requires Partial(can, columns, matchedTo[..])
    requires Injective(matchedTo[..], visited[..]) && i !in Rows(matchedTo[..], visited[..])
    modifies matchedTo, visited
    ensures Grows(old(visited[..]), visited[..])
    ensures Partial(can, columns, matchedTo[..])
    ensures found ==> Placed(old(matchedTo[..]), matchedTo[..], old(visited[..]), i)
    ensures !found ==> matchedTo[..] == old(matchedTo[..]) && Covered(can, i, visited[..])
    ensures !found ==> Exhausted(can, matchedTo[..], old(visited[..]), visited[..])
    decreases Unvisited(visited[..])
  {
    ghost var m, v := matchedTo[..], visited[..];
    for j := 0 to columns
      invariant matchedTo[..] == m && Grows(v, visited[..])
      invariant forall k | 0 <= k < j && can[i][k] :: visited[k]
      invariant Exhausted(can, m, v, visited[..])
    {
      if !can[i][j] || visited[j] {
        continue;
      }
      ghost var u := visited[..];
      visited[j] := true;
      assert visited[..] == u[j := true];
      var free := matchedTo[j] == -1;
      if !free {
        Descends(m, v, u, j);
        free := Augment(can, columns, matchedTo, visited, matchedTo[j]);
      }
      if free {
        Hands(can, m, matchedTo[..], v, u[j := true], j, i);
        ghost var n := matchedTo[..];
        matchedTo[j] := i;
        assert matchedTo[..] == n[j := i];
        return true;
      }
      StaysExhausted(can, m, v, u, visited[..], j);
    }
    found := false;
  }

  lemma NeighboursInside(can: Table, columns: nat, rows: set<int>, visited: seq<bool>, cols: set<int>)
    requires Rectangular(can, columns) && |visited| == columns
    requires forall k | k in rows :: 0 <= k < |can| && Covered(can, k, visited)
    requires forall j | 0 <= j < columns && visited[j] :: j in cols
    ensures |Neighbours(can, columns, rows)| <= |cols|
  {
    SubsetSize(Neighbours(can, columns, rows), cols);
  }

  /** The rows held by a set of matched columns, with one row more. */
  lemma HeldRows(m: seq<int>, none: seq<bool>, cols: set<int>, i: int)
    requires |m| == |none| && Injective(m, none) && i !in Rows(m, none)
    requires forall j | j in cols :: 0 <= j < |m| && m[j] >= 0 && !none[j]
    ensures |(set j | j in cols :: m[j]) + {i}| == |cols| + 1
  {
    InjectiveImage(cols, m);
    assert i !in (set j | j in cols :: m[j]);
  }

  /** The rows of an exhausted search, with the row that failed, form a Hall violator. */
  lemma ExhaustedViolates(can: Table, columns: nat, m: seq<int>, none: seq<bool>, visited: seq<bool>, i: nat)
    returns (rows: set<int>)
    requires Partial(can, columns, m) && |visited| == |none| == columns && i < |can|
    requires forall j | 0 <= j < columns :: !none[j]
    requires Injective(m, none) && i !in Rows(m, none) && Exhausted(can, m, none, visited)
    requires Covered(can, i, visited)
    ensures HallViolator(can, columns, rows)
  {
    var cols := set j | 0 <= j < columns && visited[j];
    rows := (set j | j in cols :: m[j]) + {i};
    HeldRows(m, none, cols, i);
    NeighboursInside(can, columns, rows, visited, cols);
  }

  lemma PlacesNext(m: seq<int>, n: seq<int>, none: seq<bool>, i: nat)
    requires Places(m, none, i) && Placed(m, n, none, i)
    ensures Places(n, none, i + 1)
  {
  }

  /** A partial matching that covers every row is an assignment. */
  lemma CoveringAssigns(can: Table, columns: nat, m: seq<int>, visited: seq<bool>) returns (a: seq<int>)
    requires Partial(can, columns, m) && |visited| == columns
    requires Places(m, visited, |can|)
    ensures Assignment(can, columns, a)
  {
    a := [];
    while |a| < |can|
      invariant |a| <= |can|
      invariant forall k | 0 <= k < |a| :: 0 <= a[k] < columns && m[a[k]] == k
    {
      assert |a| in Rows(m, visited);
      var j :| 0 <= j < columns && m[j] == |a|;
      a := a + [j];
    }
  }

  /**
   The matching loop of `replacementsMatchSimulation`: it answers true exactly when every row can be
   given a column of its own, and when it answers false some rows outnumber their columns.
   */
  method Match(can: Table, columns: nat) returns (ok: bool)
    requires Rectangular(can, columns)
    ensures ok <==> exists a :: Assignment(can, columns, a)
    ensures !ok <==> exists rows :: HallViolator(can, columns, rows)
  {
    var matchedTo := new int[columns](_ => -1);
    var unseen := new bool[columns](_ => false);
    ghost var none := unseen[..];
    for i := 0 to |can|
      invariant Partial(can, columns, matchedTo[..]) && Places(matchedTo[..], none, i)
    {
      ghost var m := matchedTo[..];
      var visited := new bool[columns](_ => false);
      assert visited[..] == none;
      var found := Augment(can, columns, matchedTo, visited, i);
      if !found {
        ghost var rows := ExhaustedViolates(can, columns, matchedTo[..], none, visited[..], i);
        ViolatorBlocksAll(can, columns, rows);
        return false;
      }
      PlacesNext(m, matchedTo[..], none, i);
    }
    ghost var a := CoveringAssigns(can, columns, matchedTo[..], none);
    AssignmentClears(can, columns, a);
    ok := true;
  }
}
