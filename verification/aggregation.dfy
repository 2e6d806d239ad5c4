/**
  `identical_cell_aggregation`: every cell gets a label (its category, or
  "Other" for a blank), and a depth-first search from each cell not yet
  visited, in row-major order, collects the cells of that label reachable
  through up, left, down and right steps. Each search yields one area: the
  bounding box of what it collected, and the label.
 */
module Aggregation {
  import opened Wrappers
  import opened Cells

  /** A cell position, (row, column), 0-based. */
  type Cell = (int, int)

  /** A label grid: every row as wide as the sheet. */
  predicate Rect(labels: seq<seq<string>>, n: nat)
  {
    forall r :: 0 <= r < |labels| ==> |labels[r]| == n
  }

  predicate InGrid(labels: seq<seq<string>>, n: nat, y: Cell)
  {
    0 <= y.0 < |labels| && 0 <= y.1 < n
  }

  function At(labels: seq<seq<string>>, n: nat, y: Cell): string
    requires Rect(labels, n) && InGrid(labels, n, y)
  {
    labels[y.0][y.1]
  }

  /** The `k`-th neighbour in the order the search tries them: up, left, down, right. */
  function Nb(y: Cell, k: int): Cell
  {
    if k == 0 then (y.0 - 1, y.1)
    else if k == 1 then (y.0, y.1 - 1)
    else if k == 2 then (y.0 + 1, y.1)
    else (y.0, y.1 + 1)
  }

  predicate Adjacent(a: Cell, b: Cell)
  {
    (a.0 == b.0 && (a.1 == b.1 + 1 || a.1 + 1 == b.1)) || (a.1 == b.1 && (a.0 == b.0 + 1 || a.0 + 1 == b.0))
  }

  /** The four neighbours are exactly the adjacent cells. */
  function Direction(a: Cell, b: Cell): (k: int)
    requires Adjacent(a, b)
    ensures 0 <= k < 4 && Nb(a, k) == b
  {
    if b == (a.0 - 1, a.1) then 0
    else if b == (a.0, a.1 - 1) then 1
    else if b == (a.0 + 1, a.1) then 2
    else 3
  }

  /** Row-major order, the order in which the outer loops meet the cells. */
  predicate Before(a: Cell, b: Cell)
  {
    a.0 < b.0 || (a.0 == b.0 && a.1 < b.1)
  }

  /** `p` walks from `a` to `b` by adjacent steps without leaving `s`. */
  ghost predicate PathIn(p: seq<Cell>, s: set<Cell>, a: Cell, b: Cell)
  {
    |p| > 0 && p[0] == a && p[|p| - 1] == b &&
    (forall i :: 0 <= i < |p| ==> p[i] in s) &&
    (forall i :: 0 <= i < |p| - 1 ==> Adjacent(p[i], p[i + 1]))
  }

  /** No same-label neighbour of a cell of `s` lies outside `s` ∪ `outside`. */
  ghost predicate ClosedUpTo(labels: seq<seq<string>>, n: nat, s: set<Cell>, outside: set<Cell>)
    requires Rect(labels, n)
    requires forall y :: y in s ==> InGrid(labels, n, y)
  {
    forall y, z :: y in s && Adjacent(y, z) && InGrid(labels, n, z) && At(labels, n, z) == At(labels, n, y)
      ==> z in s + outside
  }

  /**
    `c` is the connected component of `s`: cells of the grid with the label of
    `s`, closed under same-label neighbours, and every one reachable from `s`
    inside `c`.
   */
  ghost predicate IsComponent(labels: seq<seq<string>>, n: nat, c: set<Cell>, s: Cell)
    requires Rect(labels, n)
  {
    s in c &&
    (forall y :: y in c ==> InGrid(labels, n, y)) &&
    (forall y :: y in c ==> At(labels, n, y) == At(labels, n, s)) &&
    ClosedUpTo(labels, n, c, {}) &&
    (forall y :: y in c ==> exists p :: PathIn(p, c, s, y))
  }

  /** A path that starts inside a closed same-label set never leaves it. */
  lemma {:induction false} PathStaysInside(labels: seq<seq<string>>, n: nat, p: seq<Cell>, c1: set<Cell>, c2: set<Cell>, a: Cell, b: Cell, i: nat)
    requires Rect(labels, n) && InGrid(labels, n, a)
    requires forall y :: y in c1 ==> InGrid(labels, n, y) && At(labels, n, y) == At(labels, n, a)
    requires forall y :: y in c2 ==> InGrid(labels, n, y) && At(labels, n, y) == At(labels, n, a)
    requires ClosedUpTo(labels, n, c2, {})
    requires PathIn(p, c1, a, b) && a in c2 && i < |p|
    ensures p[i] in c2
  {
    if i > 0 {
      PathStaysInside(labels, n, p, c1, c2, a, b, i - 1);
      assert Adjacent(p[i - 1], p[i]);
    }
  }

  /** A component is determined by its seed. */
  lemma ComponentUnique(labels: seq<seq<string>>, n: nat, c1: set<Cell>, c2: set<Cell>, s: Cell)
    requires Rect(labels, n)
    requires IsComponent(labels, n, c1, s) && IsComponent(labels, n, c2, s)
    ensures c1 == c2
  {
    forall y | y in c1 ensures y in c2 {
      var p :| PathIn(p, c1, s, y);
      PathStaysInside(labels, n, p, c1, c2, s, y, |p| - 1);
    }
    forall y | y in c2 ensures y in c1 {
      var p :| PathIn(p, c2, s, y);
      PathStaysInside(labels, n, p, c2, c1, s, y, |p| - 1);
    }
  }

  /** Stepping to a neighbour and back. */
  lemma NbBack(y: Cell, k: int)
    requires 0 <= k < 4
    ensures Nb(Nb(y, k), (k + 2) % 4) == y
  {
  }

  /** A bounding box, as the search keeps it in `bounds`. */
  datatype Box = Box(top: int, left: int, bottom: int, right: int)

  /** Every cell of `c` lies inside `b`, and each side of `b` touches a cell of `c`. */
  ghost predicate BoundingBox(b: Box, c: set<Cell>)
  {
    (forall y :: y in c ==> b.top <= y.0 <= b.bottom && b.left <= y.1 <= b.right) &&
    (exists y :: y in c && y.0 == b.top) && (exists y :: y in c && y.0 == b.bottom) &&
    (exists y :: y in c && y.1 == b.left) && (exists y :: y in c && y.1 == b.right)
  }

  function Min(a: int, b: int): int { if a <= b then a else b }
  function Max(a: int, b: int): int { if a >= b then a else b }

  /** `[min(...), min(...), max(...), max(...)]` of two bounds. */
  function Merge(b1: Box, b2: Box): Box
  {
    Box(Min(b1.top, b2.top), Min(b1.left, b2.left), Max(b1.bottom, b2.bottom), Max(b1.right, b2.right))
  }

  /** Merging the boxes of two sets gives the box of their union. */
  lemma MergeBounds(b1: Box, c1: set<Cell>, b2: Box, c2: set<Cell>)
    requires BoundingBox(b1, c1) && BoundingBox(b2, c2)
    ensures BoundingBox(Merge(b1, b2), c1 + c2)
  {
    var m := Merge(b1, b2);
    var t1 :| t1 in c1 && t1.0 == b1.top;
    var t2 :| t2 in c2 && t2.0 == b2.top;
    assert if b1.top <= b2.top then t1 in c1 + c2 && t1.0 == m.top else t2 in c1 + c2 && t2.0 == m.top;
    var d1 :| d1 in c1 && d1.0 == b1.bottom;
    var d2 :| d2 in c2 && d2.0 == b2.bottom;
    assert if b1.bottom >= b2.bottom then d1 in c1 + c2 && d1.0 == m.bottom else d2 in c1 + c2 && d2.0 == m.bottom;
    var l1 :| l1 in c1 && l1.1 == b1.left;
    var l2 :| l2 in c2 && l2.1 == b2.left;
    assert if b1.left <= b2.left then l1 in c1 + c2 && l1.1 == m.left else l2 in c1 + c2 && l2.1 == m.left;
    var r1 :| r1 in c1 && r1.1 == b1.right;
    var r2 :| r2 in c2 && r2.1 == b2.right;
    assert if b1.right >= b2.right then r1 in c1 + c2 && r1.1 == m.right else r2 in c1 + c2 && r2.1 == m.right;
  }

  /** All cells of an `m` by `n` grid, row by row. */
  function AllCells(m: nat, n: nat): set<Cell>
  {
    if m == 0 then {} else AllCells(m - 1, n) + RowCells(m - 1, n)
  }

  function RowCells(r: int, n: nat): set<Cell>
  {
    if n == 0 then {} else RowCells(r, n - 1) + {(r, n - 1)}
  }

  lemma {:induction false} RowCellsSpec(r: int, n: nat)
    ensures forall y :: y in RowCells(r, n) <==> y.0 == r && 0 <= y.1 < n
    ensures |RowCells(r, n)| == n
  {
    if n > 0 {
      RowCellsSpec(r, n - 1);
    }
  }

  lemma {:induction false} AllCellsMembers(m: nat, n: nat)
    ensures forall y :: y in AllCells(m, n) <==> 0 <= y.0 < m && 0 <= y.1 < n
  {
    if m > 0 {
      AllCellsMembers(m - 1, n);
      RowCellsSpec(m - 1, n);
    }
  }

  /** The grid has `m * n` cells. */
  lemma {:induction false} AllCellsCount(m: nat, n: nat)
    ensures |AllCells(m, n)| == m * n
  {
    if m > 0 {
      AllCellsCount(m - 1, n);
      LastRowIsNew(m, n);
      assert |AllCells(m, n)| == (m - 1) * n + n;
    }
  }

  lemma LastRowIsNew(m: nat, n: nat)
    requires m > 0
    ensures |AllCells(m, n)| == |AllCells(m - 1, n)| + n
  {
    var earlier, row := AllCells(m - 1, n), RowCells(m - 1, n);
    AllCellsMembers(m - 1, n);
    RowCellsSpec(m - 1, n);
    forall y | y in earlier
      ensures y !in row
    {
    }
    assert earlier * row == {};
    assert AllCells(m, n) == earlier + row;
  }

  /** A strict subset is smaller. */
  lemma SmallerSet(a: set<Cell>, b: set<Cell>)
    requires a < b
    ensures |a| < |b|
  {
    assert b == a + (b - a);
    var x :| x in b - a;
  }

  /** The `visited` matrix, sized like the grid, marks exactly the cells of `v`. */
  ghost predicate Mirror(visited: array2<bool>, labels: seq<seq<string>>, n: nat, v: set<Cell>)
    reads visited
  {
    visited.Length0 == |labels| && visited.Length1 == n &&
    (forall y :: y in v ==> InGrid(labels, n, y)) &&
    (forall r, c :: 0 <= r < visited.Length0 && 0 <= c < visited.Length1 ==> (visited[r, c] <==> (r, c) in v))
  }

  /**
    What a search from `s` has collected so far: new cells only, all with the
    label of `s`, each reached from `s` by the recorded path inside `found`,
    and every cell but `s` itself already has its same-label neighbours
    visited.
   */
  ghost predicate Grown(labels: seq<seq<string>>, n: nat, v: set<Cell>, found: set<Cell>, s: Cell, paths: map<Cell, seq<Cell>>)
    requires Rect(labels, n) && InGrid(labels, n, s)
  {
    s in found && found !! v &&
    (forall y :: y in found ==> InGrid(labels, n, y) && At(labels, n, y) == At(labels, n, s)) &&
    (forall y, z :: y in found && y != s && Adjacent(y, z) && InGrid(labels, n, z) && At(labels, n, z) == At(labels, n, y)
      ==> z in v + found) &&
    (forall y :: y in found ==> y in paths && PathIn(paths[y], found, s, y))
  }

  /**
    A finished search from `s` among the cells outside `v`: what it collected
    is closed under same-label neighbours not in `v`, so it is the component
    of `s` in the grid with `v` taken out.
   */
  ghost predicate Searched(labels: seq<seq<string>>, n: nat, v: set<Cell>, found: set<Cell>, s: Cell, paths: map<Cell, seq<Cell>>)
    requires Rect(labels, n) && InGrid(labels, n, s)
  {
    Grown(labels, n, v, found, s, paths) && ClosedUpTo(labels, n, found, v)
  }

  lemma PathWiden(p: seq<Cell>, s1: set<Cell>, s2: set<Cell>, a: Cell, b: Cell)
    requires PathIn(p, s1, a, b) && s1 <= s2
    ensures PathIn(p, s2, a, b)
  {
  }

  lemma PathPrepend(p: seq<Cell>, s: set<Cell>, a: Cell, b: Cell, z: Cell)
    requires PathIn(p, s, a, b) && z in s && Adjacent(z, a)
    ensures PathIn([z] + p, s, z, b)
  {
    var q := [z] + p;
    forall i | 0 <= i < |q| - 1 ensures Adjacent(q[i], q[i + 1]) {
      if i > 0 {
        assert q[i] == p[i - 1] && q[i + 1] == p[i];
      }
    }
  }

  /** The search from `s` after the recursive search from its neighbour `Nb(s, k)`. */
  lemma GrowStep(labels: seq<seq<string>>, n: nat, v: set<Cell>, found: set<Cell>, s: Cell, paths: map<Cell, seq<Cell>>,
                 k: int, found2: set<Cell>, paths2: map<Cell, seq<Cell>>)
    returns (joined: map<Cell, seq<Cell>>)
    requires Rect(labels, n) && InGrid(labels, n, s) && 0 <= k < 4
    requires Grown(labels, n, v, found, s, paths)
    requires InGrid(labels, n, Nb(s, k)) && Nb(s, k) !in v + found && At(labels, n, Nb(s, k)) == At(labels, n, s)
    requires Searched(labels, n, v + found, found2, Nb(s, k), paths2)
    ensures Grown(labels, n, v, found + found2, s, joined)
  {
    var s2 := Nb(s, k);
    joined := paths;
    forall y | y in found ensures PathIn(paths[y], found + found2, s, y) {
      PathWiden(paths[y], found, found + found2, s, y);
    }
    var extra := map y | y in found2 && y in paths2 :: [s] + paths2[y];
    forall y | y in found2 ensures PathIn(extra[y], found + found2, s, y) {
      PathWiden(paths2[y], found2, found + found2, s2, y);
      PathPrepend(paths2[y], found + found2, s2, y, s);
    }
    joined := paths + extra;
    forall y | y in found + found2 ensures y in joined && PathIn(joined[y], found + found2, s, y) {
      if y in found2 {
        assert y !in found;
        assert joined[y] == extra[y];
      } else {
        assert y !in extra;
        assert joined[y] == paths[y];
      }
    }
  }

  /** A search that has marked `s` leaves fewer cells unvisited for the calls it makes. */
  lemma FewerUnvisited(m: nat, n: nat, v: set<Cell>, found: set<Cell>, s: Cell)
    requires 0 <= s.0 < m && 0 <= s.1 < n && s !in v && s in found
    ensures |AllCells(m, n) - (v + found)| < |AllCells(m, n) - v|
  {
    AllCellsMembers(m, n);
    assert s in AllCells(m, n) - v;
    SmallerSet(AllCells(m, n) - (v + found), AllCells(m, n) - v);
  }

  /** `visited[r][c] = True`. */
  method Mark(labels: seq<seq<string>>, n: nat, visited: array2<bool>, s: Cell, ghost v: set<Cell>)
    requires Mirror(visited, labels, n, v) && InGrid(labels, n, s)
    modifies visited
    ensures Mirror(visited, labels, n, v + {s})
  {
    visited[s.0, s.1] := true;
  }

  /** A search that has only marked its start. */
  lemma GrowStart(labels: seq<seq<string>>, n: nat, v: set<Cell>, s: Cell)
    requires Rect(labels, n) && InGrid(labels, n, s) && s !in v
    ensures Grown(labels, n, v, {s}, s, map[s := [s]])
    ensures BoundingBox(Box(s.0, s.1, s.0, s.1), {s})
  {
    assert PathIn([s], {s}, s, s);
  }

  /** Once all four neighbours of the start are handled, the search is finished. */
  lemma GrowDone(labels: seq<seq<string>>, n: nat, v: set<Cell>, found: set<Cell>, s: Cell, paths: map<Cell, seq<Cell>>)
    requires Rect(labels, n) && InGrid(labels, n, s)
    requires Grown(labels, n, v, found, s, paths)
    requires forall k :: 0 <= k < 4 && InGrid(labels, n, Nb(s, k)) && At(labels, n, Nb(s, k)) == At(labels, n, s)
               ==> Nb(s, k) in v + found
    ensures Searched(labels, n, v, found, s, paths)
  {
    forall z | Adjacent(s, z) && InGrid(labels, n, z) && At(labels, n, z) == At(labels, n, s)
      ensures z in v + found
    {
      var k := Direction(s, z);
    }
  }

  /** A subset is no larger. */
  lemma SubsetSize(a: set<Cell>, b: set<Cell>)
    requires a <= b
    ensures |a| <= |b|
  {
    assert b == a + (b - a);
  }

  /**
    `dfs(r, c, val_type)`: marks `(r, c)`, then tries its neighbours up, left,
    down and right (`Extend`), and returns the bounds of everything the
    search collected. `budget` is how many more nested calls Python's
    recursion limit allows; running out is the `RecursionError`, reported as
    `ok == false`. The guard at the head of the Python function, which
    returns empty bounds for a visited or differently labelled cell, is never
    taken, because both callers test the same condition first; here it is a
    precondition.
   */
  method Dfs(labels: seq<seq<string>>, n: nat, visited: array2<bool>, r: int, c: int, t: string, budget: nat, ghost v: set<Cell>)
    returns (ok: bool, bounds: Box, ghost found: set<Cell>, ghost paths: map<Cell, seq<Cell>>)
    requires Rect(labels, n) && Mirror(visited, labels, n, v)
    requires InGrid(labels, n, (r, c)) && (r, c) !in v && At(labels, n, (r, c)) == t
    modifies visited
    decreases |AllCells(|labels|, n) - v|, 0
    ensures budget >= |AllCells(|labels|, n) - v| ==> ok
    ensures ok ==> Mirror(visited, labels, n, v + found)
    ensures ok ==> Searched(labels, n, v, found, (r, c), paths) && BoundingBox(bounds, found)
  {
    ghost var all := AllCells(|labels|, n);
    if budget == 0 {
      AllCellsMembers(|labels|, n);
      assert (r, c) in all - v;
      return false, Box(r, c, r, c), {}, map[];
    }
    Mark(labels, n, visited, (r, c), v);
    GrowStart(labels, n, v, (r, c));
    ok, bounds, found, paths := true, Box(r, c, r, c), {(r, c)}, map[(r, c) := [(r, c)]];
    FewerUnvisited(|labels|, n, v, found, (r, c));
    var i := 0;
    while i < 4
      invariant 0 <= i <= 4
      invariant Mirror(visited, labels, n, v + found)
      invariant Grown(labels, n, v, found, (r, c), paths) && BoundingBox(bounds, found)
      invariant forall k :: 0 <= k < i && InGrid(labels, n, Nb((r, c), k)) && At(labels, n, Nb((r, c), k)) == t
                  ==> Nb((r, c), k) in v + found
      invariant |all - (v + found)| < |all - v|
      invariant budget >= |all - v| ==> budget - 1 >= |all - (v + found)|
    {
      ghost var before := found;
      ok, bounds, found, paths := Extend(labels, n, visited, (r, c), i, t, budget, v, bounds, found, paths);
      if !ok {
        return;
      }
      SubsetSize(all - (v + found), all - (v + before));
      forall k | 0 <= k <= i && InGrid(labels, n, Nb((r, c), k)) && At(labels, n, Nb((r, c), k)) == t
        ensures Nb((r, c), k) in v + found
      {
        if k < i {
          assert Nb((r, c), k) in v + before;
        }
      }
      i := i + 1;
    }
    GrowDone(labels, n, v, found, (r, c), paths);
  }

  /**
    One turn of the loop over the neighbours in `dfs`: the `k`-th neighbour of
    `s` is searched from when it lies inside the sheet, is not visited and has
    the label `t`, and the bounds grow by what that search returns.
   */
  method Extend(labels: seq<seq<string>>, n: nat, visited: array2<bool>, s: Cell, k: int, t: string, budget: nat,
                ghost v: set<Cell>, bounds: Box, ghost found: set<Cell>, ghost paths: map<Cell, seq<Cell>>)
    returns (ok: bool, bounds': Box, ghost found': set<Cell>, ghost paths': map<Cell, seq<Cell>>)
    requires Rect(labels, n) && InGrid(labels, n, s) && At(labels, n, s) == t && 0 <= k < 4 && budget > 0
    requires Mirror(visited, labels, n, v + found)
    requires Grown(labels, n, v, found, s, paths) && BoundingBox(bounds, found)
    modifies visited
    decreases |AllCells(|labels|, n) - (v + found)|, 1
    ensures budget - 1 >= |AllCells(|labels|, n) - (v + found)| ==> ok
    ensures ok ==> Mirror(visited, labels, n, v + found')
    ensures ok ==> Grown(labels, n, v, found', s, paths') && BoundingBox(bounds', found') && found <= found'
    ensures ok ==> (InGrid(labels, n, Nb(s, k)) && At(labels, n, Nb(s, k)) == t ==> Nb(s, k) in v + found')
  {
    var next := Nb(s, k);
    if next.0 < 0 || next.1 < 0 || next.0 >= |labels| || next.1 >= n {
      return true, bounds, found, paths;
    }
    if visited[next.0, next.1] || labels[next.0][next.1] != t {
      return true, bounds, found, paths;
    }
    var bounds2; ghost var found2, paths2;
    ok, bounds2, found2, paths2 := Dfs(labels, n, visited, next.0, next.1, t, budget - 1, v + found);
    if !ok {
      return false, bounds, found, paths;
    }
    paths' := GrowStep(labels, n, v, found, s, paths, k, found2, paths2);
    MergeBounds(bounds, found, bounds2, found2);
    Regroup(visited, labels, n, v, found, found2);
    found', bounds' := found + found2, Merge(bounds, bounds2);
  }

  lemma Regroup(visited: array2<bool>, labels: seq<seq<string>>, n: nat, v: set<Cell>, found: set<Cell>, found2: set<Cell>)
    requires Mirror(visited, labels, n, v + found + found2)
    ensures Mirror(visited, labels, n, v + (found + found2))
  {
    assert v + found + found2 == v + (found + found2);
  }

  /** One area, `[(top, left), (bottom, right), val_type]`. */
  datatype Area = Area(box: Box, category: string)

  /** The union of the components found so far: the visited cells. */
  function UnionOf(comps: seq<set<Cell>>): set<Cell>
  {
    if |comps| == 0 then {} else UnionOf(comps[..|comps| - 1]) + comps[|comps| - 1]
  }

  lemma {:induction false} UnionOfSpec(comps: seq<set<Cell>>, y: Cell)
    ensures y in UnionOf(comps) <==> exists k :: 0 <= k < |comps| && y in comps[k]
    decreases |comps|
  {
    if |comps| > 0 {
      var p := comps[..|comps| - 1];
      UnionOfSpec(p, y);
      if y in UnionOf(p) {
        var k :| 0 <= k < |p| && y in p[k];
        assert comps[k] == p[k];
      }
      if exists k :: 0 <= k < |comps| && y in comps[k] {
        var k :| 0 <= k < |comps| && y in comps[k];
        if k < |p| {
          assert p[k] == comps[k];
        }
      }
    }
  }

  /**
    Area `area` was found from `seed`: its cells are the component of `seed`,
    `seed` comes first among them in row-major order, its box is their
    bounding box and its label that of `seed`.
   */
  ghost predicate AreaOf(labels: seq<seq<string>>, n: nat, area: Area, seed: Cell, comp: set<Cell>)
    requires Rect(labels, n)
  {
    InGrid(labels, n, seed) && IsComponent(labels, n, comp, seed) &&
    (forall y :: y in comp ==> !Before(y, seed)) &&
    BoundingBox(area.box, comp) && area.category == At(labels, n, seed)
  }

  /**
    The areas recorded so far, each with its seed and its cells: every one is
    an area of its seed, and each comes after the ones before it and shares
    no cell with them.
   */
  ghost predicate AllAreas(labels: seq<seq<string>>, n: nat, areas: seq<Area>, seeds: seq<Cell>, comps: seq<set<Cell>>)
    requires Rect(labels, n) && |areas| == |seeds| == |comps|
  {
    if |comps| == 0 then true
    else
      var last := |comps| - 1;
      AllAreas(labels, n, areas[..last], seeds[..last], comps[..last]) &&
      AreaOf(labels, n, areas[last], seeds[last], comps[last]) &&
      (forall j :: 0 <= j < last ==> comps[j] !! comps[last] && Before(seeds[j], seeds[last]))
  }

  /** The state of the two nested loops when they reach `pos`. */
  ghost predicate Progress(labels: seq<seq<string>>, n: nat, areas: seq<Area>, seeds: seq<Cell>, comps: seq<set<Cell>>,
                           v: set<Cell>, pos: Cell)
    requires Rect(labels, n)
  {
    |areas| == |seeds| == |comps| &&
    v == UnionOf(comps) &&
    (forall y :: y in v ==> InGrid(labels, n, y)) &&
    ClosedUpTo(labels, n, v, {}) &&
    AllAreas(labels, n, areas, seeds, comps) &&
    (forall k :: 0 <= k < |seeds| ==> Before(seeds[k], pos)) &&
    (forall y :: InGrid(labels, n, y) && Before(y, pos) ==> y in v)
  }

  /** A search among unvisited cells, next to a visited set closed under same-label steps, finds a whole component. */
  lemma NewComponent(labels: seq<seq<string>>, n: nat, v: set<Cell>, found: set<Cell>, s: Cell, paths: map<Cell, seq<Cell>>)
    requires Rect(labels, n) && InGrid(labels, n, s)
    requires forall y :: y in v ==> InGrid(labels, n, y)
    requires ClosedUpTo(labels, n, v, {})
    requires Searched(labels, n, v, found, s, paths)
    ensures IsComponent(labels, n, found, s)
    ensures ClosedUpTo(labels, n, v + found, {})
  {
    forall y, z | y in found && Adjacent(y, z) && InGrid(labels, n, z) && At(labels, n, z) == At(labels, n, y)
      ensures z in found
    {
      assert Adjacent(z, y);
    }
    forall y | y in found ensures exists p :: PathIn(p, found, s, y) {
      assert PathIn(paths[y], found, s, y);
    }
  }

  /** The loops meet an unvisited cell, search from it and record the area. */
  lemma AddArea(labels: seq<seq<string>>, n: nat, areas: seq<Area>, seeds: seq<Cell>, comps: seq<set<Cell>>, v: set<Cell>,
                pos: Cell, found: set<Cell>, paths: map<Cell, seq<Cell>>, bounds: Box, area: Area, next: Cell)
    requires Rect(labels, n) && InGrid(labels, n, pos) && pos !in v
    requires Progress(labels, n, areas, seeds, comps, v, pos)
    requires Searched(labels, n, v, found, pos, paths) && BoundingBox(bounds, found)
    requires area == Area(bounds, At(labels, n, pos)) && next == (pos.0, pos.1 + 1)
    ensures Progress(labels, n, areas + [area], seeds + [pos], comps + [found], v + found, next)
  {
    NewComponent(labels, n, v, found, pos, paths);
    NewAreaOf(labels, n, v, found, pos, bounds);
    FreshComponent(comps, v, found);
    AppendArea(labels, n, areas, seeds, comps, Area(bounds, At(labels, n, pos)), pos, found);
    Advance(labels, n, seeds, v, pos, found);
    assert (comps + [found])[..|comps|] == comps;
    assert UnionOf(comps + [found]) == v + found;
    Assemble(labels, n, areas + [area], seeds + [pos], comps + [found], v + found, next);
  }

  /** `Progress` from its parts. */
  lemma Assemble(labels: seq<seq<string>>, n: nat, areas: seq<Area>, seeds: seq<Cell>, comps: seq<set<Cell>>, v: set<Cell>, pos: Cell)
    requires Rect(labels, n) && |areas| == |seeds| == |comps|
    requires v == UnionOf(comps) && forall y :: y in v ==> InGrid(labels, n, y)
    requires ClosedUpTo(labels, n, v, {}) && AllAreas(labels, n, areas, seeds, comps)
    requires forall k :: 0 <= k < |seeds| ==> Before(seeds[k], pos)
    requires forall y :: InGrid(labels, n, y) && Before(y, pos) ==> y in v
    ensures Progress(labels, n, areas, seeds, comps, v, pos)
  {
  }

  /** Cells found among the unvisited ones belong to no earlier area. */
  lemma FreshComponent(comps: seq<set<Cell>>, v: set<Cell>, found: set<Cell>)
    requires v == UnionOf(comps) && found !! v
    ensures forall j :: 0 <= j < |comps| ==> comps[j] !! found
  {
    forall j, y | 0 <= j < |comps| && y in comps[j] ensures y !in found {
      UnionOfSpec(comps, y);
    }
  }

  /** After the search from `pos`, every cell up to and including `pos` is visited, and every seed precedes the next cell. */
  lemma Advance(labels: seq<seq<string>>, n: nat, seeds: seq<Cell>, v: set<Cell>, pos: Cell, found: set<Cell>)
    requires forall k :: 0 <= k < |seeds| ==> Before(seeds[k], pos)
    requires forall y :: InGrid(labels, n, y) && Before(y, pos) ==> y in v
    requires pos in found
    ensures forall k :: 0 <= k < |seeds| + 1 ==> Before((seeds + [pos])[k], (pos.0, pos.1 + 1))
    ensures forall y :: InGrid(labels, n, y) && Before(y, (pos.0, pos.1 + 1)) ==> y in v + found
  {
    var next := (pos.0, pos.1 + 1);
    forall k | 0 <= k < |seeds| + 1 ensures Before((seeds + [pos])[k], next) {
      if k < |seeds| {
        assert (seeds + [pos])[k] == seeds[k];
      }
    }
  }

  lemma AppendArea(labels: seq<seq<string>>, n: nat, areas: seq<Area>, seeds: seq<Cell>, comps: seq<set<Cell>>,
                   area: Area, seed: Cell, comp: set<Cell>)
    requires Rect(labels, n) && |areas| == |seeds| == |comps|
    requires AllAreas(labels, n, areas, seeds, comps) && AreaOf(labels, n, area, seed, comp)
    requires forall j :: 0 <= j < |comps| ==> comps[j] !! comp && Before(seeds[j], seed)
    ensures AllAreas(labels, n, areas + [area], seeds + [seed], comps + [comp])
  {
    var last := |comps|;
    assert (areas + [area])[..last] == areas && (seeds + [seed])[..last] == seeds && (comps + [comp])[..last] == comps;
  }

  /** The area found at `pos` is the component of `pos`, with `pos` its first cell. */
  lemma NewAreaOf(labels: seq<seq<string>>, n: nat, v: set<Cell>, found: set<Cell>, pos: Cell, bounds: Box)
    requires Rect(labels, n) && InGrid(labels, n, pos)
    requires IsComponent(labels, n, found, pos) && found !! v && BoundingBox(bounds, found)
    requires forall y :: InGrid(labels, n, y) && Before(y, pos) ==> y in v
    ensures AreaOf(labels, n, Area(bounds, At(labels, n, pos)), pos, found)
  {
    forall y | y in found ensures !Before(y, pos) {
      assert y !in v;
    }
  }

  /** The loops meet a cell an earlier search already visited. */
  lemma SkipVisited(labels: seq<seq<string>>, n: nat, areas: seq<Area>, seeds: seq<Cell>, comps: seq<set<Cell>>, v: set<Cell>,
                    pos: Cell, next: Cell)
    requires Rect(labels, n) && pos in v && next == (pos.0, pos.1 + 1)
    requires Progress(labels, n, areas, seeds, comps, v, pos)
    ensures Progress(labels, n, areas, seeds, comps, v, next)
  {
  }

  /** Past the last column, the loops go on at the start of the next row. */
  /** Before the first row nothing is visited and no area is found. */
  lemma Start(labels: seq<seq<string>>, n: nat)
    requires Rect(labels, n)
    ensures Progress(labels, n, [], [], [], {}, (0, 0))
  {
  }

  lemma NextRow(labels: seq<seq<string>>, n: nat, areas: seq<Area>, seeds: seq<Cell>, comps: seq<set<Cell>>, v: set<Cell>, r: int)
    requires Rect(labels, n)
    requires Progress(labels, n, areas, seeds, comps, v, (r, n))
    ensures Progress(labels, n, areas, seeds, comps, v, (r + 1, 0))
  {
  }

  /**
    The result of `identical_cell_aggregation`: one area per component of the
    label grid, components in the row-major order of their first cells,
    sharing no cell and covering the sheet.
   */
  ghost predicate Aggregated(labels: seq<seq<string>>, n: nat, areas: seq<Area>, seeds: seq<Cell>, comps: seq<set<Cell>>)
    requires Rect(labels, n)
  {
    |areas| == |seeds| == |comps| &&
    (forall k :: 0 <= k < |comps| ==> AreaOf(labels, n, areas[k], seeds[k], comps[k])) &&
    (forall j, k :: 0 <= j < k < |comps| ==> comps[j] !! comps[k] && Before(seeds[j], seeds[k])) &&
    (forall y :: InGrid(labels, n, y) ==> exists k :: 0 <= k < |comps| && y in comps[k])
  }

  lemma {:induction false} AllAreasSpec(labels: seq<seq<string>>, n: nat, areas: seq<Area>, seeds: seq<Cell>, comps: seq<set<Cell>>)
    requires Rect(labels, n) && |areas| == |seeds| == |comps|
    requires AllAreas(labels, n, areas, seeds, comps)
    ensures forall k :: 0 <= k < |comps| ==> AreaOf(labels, n, areas[k], seeds[k], comps[k])
    ensures forall j, k :: 0 <= j < k < |comps| ==> comps[j] !! comps[k] && Before(seeds[j], seeds[k])
    decreases |comps|
  {
    if |comps| > 0 {
      var last := |comps| - 1;
      AllAreasSpec(labels, n, areas[..last], seeds[..last], comps[..last]);
      forall k | 0 <= k < last ensures AreaOf(labels, n, areas[k], seeds[k], comps[k]) {
        assert areas[..last][k] == areas[k] && seeds[..last][k] == seeds[k] && comps[..last][k] == comps[k];
      }
      forall j, k | 0 <= j < k < last ensures comps[j] !! comps[k] && Before(seeds[j], seeds[k]) {
        assert seeds[..last][j] == seeds[j] && comps[..last][j] == comps[j];
        assert seeds[..last][k] == seeds[k] && comps[..last][k] == comps[k];
      }
    }
  }

  /** When the loops have passed the last row, the areas are the whole result. */
  lemma Finish(labels: seq<seq<string>>, n: nat, areas: seq<Area>, seeds: seq<Cell>, comps: seq<set<Cell>>, v: set<Cell>)
    requires Rect(labels, n)
    requires Progress(labels, n, areas, seeds, comps, v, (|labels|, 0))
    ensures Aggregated(labels, n, areas, seeds, comps)
  {
    AllAreasSpec(labels, n, areas, seeds, comps);
    forall y | InGrid(labels, n, y) ensures exists k :: 0 <= k < |comps| && y in comps[k] {
      assert Before(y, (|labels|, 0));
      UnionOfSpec(comps, y);
    }
  }

  /** The search never needs more nested calls than the sheet has cells. */
  lemma BudgetBound(m: nat, n: nat, v: set<Cell>)
    ensures |AllCells(m, n) - v| <= m * n
  {
    AllCellsCount(m, n);
    SubsetSize(AllCells(m, n) - v, AllCells(m, n));
  }

  /** `AddArea` for the area found from `(r, c)` with the label of that cell. */
  lemma AddCell(labels: seq<seq<string>>, n: nat, areas: seq<Area>, seeds: seq<Cell>, comps: seq<set<Cell>>, v: set<Cell>,
                r: int, c: int, found: set<Cell>, paths: map<Cell, seq<Cell>>, bounds: Box, t: string)
    requires Rect(labels, n) && InGrid(labels, n, (r, c)) && (r, c) !in v
    requires Progress(labels, n, areas, seeds, comps, v, (r, c))
    requires Searched(labels, n, v, found, (r, c), paths) && BoundingBox(bounds, found)
    requires t == labels[r][c]
    ensures Progress(labels, n, areas + [Area(bounds, t)], seeds + [(r, c)], comps + [found], v + found, (r, c + 1))
  {
    AddArea(labels, n, areas, seeds, comps, v, (r, c), found, paths, bounds, Area(bounds, t), (r, c + 1));
  }

  /**
    The body of the inner loop of `identical_cell_aggregation` at `(r, c)`:
    nothing when the cell is visited, otherwise a search from it with its
    own label as `val_type` and one more area.
   */
  method VisitCell(labels: seq<seq<string>>, n: nat, visited: array2<bool>, r: int, c: int, budget: nat,
                   found: seq<Area>, ghost seeds: seq<Cell>, ghost comps: seq<set<Cell>>, ghost v: set<Cell>)
    returns (ok: bool, found': seq<Area>, ghost seeds': seq<Cell>, ghost comps': seq<set<Cell>>, ghost v': set<Cell>)
    requires Rect(labels, n) && InGrid(labels, n, (r, c))
    requires Mirror(visited, labels, n, v) && Progress(labels, n, found, seeds, comps, v, (r, c))
    modifies visited
    ensures budget >= |labels| * n ==> ok
    ensures ok ==> Mirror(visited, labels, n, v') && Progress(labels, n, found', seeds', comps', v', (r, c + 1))
  {
    if visited[r, c] {
      SkipVisited(labels, n, found, seeds, comps, v, (r, c), (r, c + 1));
      return true, found, seeds, comps, v;
    }
    assert (r, c) !in v;
    var valType := labels[r][c];
    var bounds; ghost var cells, paths;
    ok, bounds, cells, paths := Dfs(labels, n, visited, r, c, valType, budget, v);
    BudgetBound(|labels|, n, v);
    if !ok {
      return false, found, seeds, comps, v;
    }
    AddCell(labels, n, found, seeds, comps, v, r, c, cells, paths, bounds, valType);
    found', seeds', comps', v' := found + [Area(bounds, valType)], seeds + [(r, c)], comps + [cells], v + cells;
  }

  /** The inner loop of `identical_cell_aggregation`: the cells of row `r` from left to right. */
  method SweepRow(labels: seq<seq<string>>, n: nat, visited: array2<bool>, r: int, budget: nat,
                  found: seq<Area>, ghost seeds: seq<Cell>, ghost comps: seq<set<Cell>>, ghost v: set<Cell>)
    returns (ok: bool, found': seq<Area>, ghost seeds': seq<Cell>, ghost comps': seq<set<Cell>>, ghost v': set<Cell>)
    requires Rect(labels, n) && 0 <= r < |labels|
    requires Mirror(visited, labels, n, v) && Progress(labels, n, found, seeds, comps, v, (r, 0))
    modifies visited
    ensures budget >= |labels| * n ==> ok
    ensures ok ==> Mirror(visited, labels, n, v') && Progress(labels, n, found', seeds', comps', v', (r, n))
  {
    found', seeds', comps', v' := found, seeds, comps, v;
    var c := 0;
    while c < n
      invariant 0 <= c <= n
      invariant Mirror(visited, labels, n, v')
      invariant Progress(labels, n, found', seeds', comps', v', (r, c))
    {
      ok, found', seeds', comps', v' := VisitCell(labels, n, visited, r, c, budget, found', seeds', comps', v');
      if !ok {
        return;
      }
      c := c + 1;
    }
    ok := true;
  }

  /**
    The nested loops of `identical_cell_aggregation` over a label grid: a
    search from every cell still unvisited, in row-major order, each giving
    one area. `None` is the `RecursionError` that makes
    `compress_spreadsheet` give up; it cannot happen when the recursion
    budget is at least the number of cells.
   */
  method Aggregate(labels: seq<seq<string>>, n: nat, budget: nat)
    returns (areas: Option<seq<Area>>, ghost seeds: seq<Cell>, ghost comps: seq<set<Cell>>)
    requires Rect(labels, n)
    ensures budget >= |labels| * n ==> areas.Some?
    ensures areas.Some? ==> Aggregated(labels, n, areas.value, seeds, comps)
  {
    var m := |labels|;
    var visited := new bool[m, n]((_, _) => false);
    var found: seq<Area> := [];
    seeds, comps := [], [];
    ghost var v: set<Cell> := {};
    Start(labels, n);
    var r := 0;
    while r < m
      invariant 0 <= r <= m
      invariant Mirror(visited, labels, n, v)
      invariant Progress(labels, n, found, seeds, comps, v, (r, 0))
    {
      var ok;
      ok, found, seeds, comps, v := SweepRow(labels, n, visited, r, budget, found, seeds, comps, v);
      if !ok {
        return None, seeds, comps;
      }
      NextRow(labels, n, found, seeds, comps, v, r);
      r := r + 1;
    }
    Finish(labels, n, found, seeds, comps, v);
    areas := Some(found);
  }

  /** A path read backwards. */
  function Reversed(p: seq<Cell>): (q: seq<Cell>)
    ensures |q| == |p|
  {
    seq(|p|, i requires 0 <= i < |p| => p[|p| - 1 - i])
  }

  lemma PathReverse(p: seq<Cell>, s: set<Cell>, a: Cell, b: Cell)
    requires PathIn(p, s, a, b)
    ensures PathIn(Reversed(p), s, b, a)
  {
    var q := Reversed(p);
    forall i | 0 <= i < |q| - 1 ensures Adjacent(q[i], q[i + 1]) {
      assert Adjacent(p[|p| - 2 - i], p[|p| - 1 - i]);
    }
  }

  lemma PathJoin(p: seq<Cell>, q: seq<Cell>, s: set<Cell>, a: Cell, b: Cell, c: Cell)
    requires PathIn(p, s, a, b) && PathIn(q, s, b, c)
    ensures PathIn(p + q[1..], s, a, c)
  {
    var w := p + q[1..];
    forall i | 0 <= i < |w| - 1 ensures Adjacent(w[i], w[i + 1]) {
      if i + 1 < |p| {
      } else if i + 1 == |p| {
        assert w[i] == q[0] && w[i + 1] == q[1];
      } else {
        assert w[i] == q[i - |p| + 1] && w[i + 1] == q[i - |p| + 2];
      }
    }
  }

  /** A component is the component of each of its cells, not only of the one it was grown from. */
  lemma ComponentOfMember(labels: seq<seq<string>>, n: nat, c: set<Cell>, s: Cell, y: Cell)
    requires Rect(labels, n) && IsComponent(labels, n, c, s) && y in c
    ensures IsComponent(labels, n, c, y)
  {
    var back :| PathIn(back, c, s, y);
    PathReverse(back, c, s, y);
    forall z | z in c ensures exists p :: PathIn(p, c, y, z) {
      var forth :| PathIn(forth, c, s, z);
      PathJoin(Reversed(back), forth, c, y, s, z);
    }
  }

  /**
    Every cell of the sheet lies in exactly one area, and that area's cells
    are the component of the cell: the one the search reaches from it.
   */
  lemma OwnArea(labels: seq<seq<string>>, n: nat, areas: seq<Area>, seeds: seq<Cell>, comps: seq<set<Cell>>, y: Cell)
    returns (k: nat)
    requires Rect(labels, n) && Aggregated(labels, n, areas, seeds, comps) && InGrid(labels, n, y)
    ensures k < |comps| && y in comps[k] && IsComponent(labels, n, comps[k], y)
    ensures forall j :: 0 <= j < |comps| && j != k ==> y !in comps[j]
  {
    k :| 0 <= k < |comps| && y in comps[k];
    ComponentOfMember(labels, n, comps[k], seeds[k], y);
    forall j | 0 <= j < |comps| && j != k ensures y !in comps[j] {
      if j < k {
        assert comps[j] !! comps[k];
      } else {
        assert comps[k] !! comps[j];
      }
    }
  }

  /** Each area's box lies inside the sheet and contains the cell its search started from. */
  lemma AreaBox(labels: seq<seq<string>>, n: nat, area: Area, seed: Cell, comp: set<Cell>)
    requires Rect(labels, n) && AreaOf(labels, n, area, seed, comp)
    ensures 0 <= area.box.top <= seed.0 <= area.box.bottom < |labels|
    ensures 0 <= area.box.left <= seed.1 <= area.box.right < n
  {
    var t :| t in comp && t.0 == area.box.top;
    var b :| b in comp && b.0 == area.box.bottom;
    var l :| l in comp && l.1 == area.box.left;
    var r :| r in comp && r.1 == area.box.right;
    assert InGrid(labels, n, t) && InGrid(labels, n, b) && InGrid(labels, n, l) && InGrid(labels, n, r);
  }

  /** How many cells the searches marked visited, area by area. */
  function Visits(comps: seq<set<Cell>>): nat
  {
    if |comps| == 0 then 0 else Visits(comps[..|comps| - 1]) + |comps[|comps| - 1]|
  }

  lemma {:induction false} VisitsOfDisjoint(comps: seq<set<Cell>>)
    requires forall j, k :: 0 <= j < k < |comps| ==> comps[j] !! comps[k]
    ensures Visits(comps) == |UnionOf(comps)|
    decreases |comps|
  {
    if |comps| > 0 {
      var last := |comps| - 1;
      var p := comps[..last];
      forall j, k | 0 <= j < k < |p| ensures p[j] !! p[k] {
        assert p[j] == comps[j] && p[k] == comps[k];
      }
      VisitsOfDisjoint(p);
      forall y | y in UnionOf(p) ensures y !in comps[last] {
        UnionOfSpec(p, y);
        var j :| 0 <= j < |p| && y in p[j];
        assert p[j] == comps[j];
      }
      assert UnionOf(p) * comps[last] == {};
    }
  }

  /** Components inside the grid that cover it make up the whole grid. */
  lemma CoverAll(labels: seq<seq<string>>, n: nat, comps: seq<set<Cell>>)
    requires forall k, y :: 0 <= k < |comps| && y in comps[k] ==> InGrid(labels, n, y)
    requires forall y :: InGrid(labels, n, y) ==> exists k :: 0 <= k < |comps| && y in comps[k]
    ensures UnionOf(comps) == AllCells(|labels|, n)
  {
    var all := AllCells(|labels|, n);
    AllCellsMembers(|labels|, n);
    forall y | y in UnionOf(comps) ensures y in all {
      UnionOfSpec(comps, y);
      var k :| 0 <= k < |comps| && y in comps[k];
      assert InGrid(labels, n, y);
    }
    forall y | y in all ensures y in UnionOf(comps) {
      assert InGrid(labels, n, y);
      UnionOfSpec(comps, y);
    }
  }

  /** Every cell is visited exactly once: the areas' cell counts add up to the size of the sheet. */
  lemma EveryCellOnce(labels: seq<seq<string>>, n: nat, areas: seq<Area>, seeds: seq<Cell>, comps: seq<set<Cell>>)
    requires Rect(labels, n) && Aggregated(labels, n, areas, seeds, comps)
    ensures Visits(comps) == |labels| * n
  {
    VisitsOfDisjoint(comps);
    forall k, y | 0 <= k < |comps| && y in comps[k] ensures InGrid(labels, n, y) {
      assert AreaOf(labels, n, areas[k], seeds[k], comps[k]);
    }
    CoverAll(labels, n, comps);
    AllCellsCount(|labels|, n);
  }

  /** Every cell's label must be known: `dictionary[sheet]` raises `KeyError` for a value without one. */
  predicate Labelled(g: Grid, dictionary: map<Value, string>)
  {
    forall r, c :: 0 <= r < |g.cells| && 0 <= c < |g.cells[r]| ==> g.cells[r][c].Missing? || g.cells[r][c] in dictionary
  }

  /** `replace_nan`: "Other" for a blank cell, otherwise the category the dictionary holds for the value. */
  function LabelOf(v: Value, dictionary: map<Value, string>): string
    requires v.Missing? || v in dictionary
  {
    if v.Missing? then "Other" else dictionary[v]
  }

  function LabelGrid(g: Grid, dictionary: map<Value, string>): (labels: seq<seq<string>>)
    requires g.Valid() && Labelled(g, dictionary)
    ensures Rect(labels, g.width) && |labels| == |g.cells|
  {
    seq(|g.cells|, r requires 0 <= r < |g.cells| =>
      seq(g.width, c requires 0 <= c < g.width => LabelOf(g.cells[r][c], dictionary)))
  }

  /**
    `identical_cell_aggregation(sheet, dictionary)`: the areas of the label
    grid `replace_nan` gives, or `None` where the search runs out of
    recursion depth.
   */
  method IdenticalCellAggregation(g: Grid, dictionary: map<Value, string>, budget: nat)
    returns (areas: Option<seq<Area>>, ghost seeds: seq<Cell>, ghost comps: seq<set<Cell>>)
    requires g.Valid() && Labelled(g, dictionary)
    ensures budget >= |g.cells| * g.width ==> areas.Some?
    ensures areas.Some? ==> Aggregated(LabelGrid(g, dictionary), g.width, areas.value, seeds, comps)
    ensures areas.Some? ==> |areas.value| == |seeds| == |comps| && forall k :: 0 <= k < |comps| ==>
      var y := seeds[k];
      0 <= y.0 < |g.cells| && 0 <= y.1 < g.width && areas.value[k].category == LabelOf(g.cells[y.0][y.1], dictionary)
  {
    var labels := LabelGrid(g, dictionary);
    areas, seeds, comps := Aggregate(labels, g.width, budget);
    if areas.Some? {
      SeedLabels(g, dictionary, areas.value, seeds, comps);
    }
  }

  /** Each area is labelled with what `replace_nan` gives its seed cell. */
  lemma SeedLabels(g: Grid, dictionary: map<Value, string>, areas: seq<Area>, seeds: seq<Cell>, comps: seq<set<Cell>>)
    requires g.Valid() && Labelled(g, dictionary)
    requires Aggregated(LabelGrid(g, dictionary), g.width, areas, seeds, comps)
    ensures |areas| == |seeds| == |comps|
    ensures forall k :: 0 <= k < |comps| ==>
      var y := seeds[k];
      0 <= y.0 < |g.cells| && 0 <= y.1 < g.width && areas[k].category == LabelOf(g.cells[y.0][y.1], dictionary)
  {
    var labels := LabelGrid(g, dictionary);
    forall k | 0 <= k < |comps|
      ensures var y := seeds[k];
        0 <= y.0 < |g.cells| && 0 <= y.1 < g.width && areas[k].category == LabelOf(g.cells[y.0][y.1], dictionary)
    {
      SeedOf(labels, g.width, areas, seeds, comps, k);
      var y := seeds[k];
      assert labels[y.0][y.1] == LabelOf(g.cells[y.0][y.1], dictionary);
    }
  }

  lemma SeedOf(labels: seq<seq<string>>, n: nat, areas: seq<Area>, seeds: seq<Cell>, comps: seq<set<Cell>>, k: nat)
    requires Rect(labels, n) && Aggregated(labels, n, areas, seeds, comps) && k < |comps|
    ensures InGrid(labels, n, seeds[k]) && areas[k].category == labels[seeds[k].0][seeds[k].1]
  {
    assert AreaOf(labels, n, areas[k], seeds[k], comps[k]);
  }
}
