/**
  Structural-anchor extraction: the `SheetCompressor` state (candidate lists
  and length tables, updated in place) and the selection of the rows and
  columns that survive pruning.
 */
module Anchors {
  import opened Cells

  /** Half-width of the window kept around every anchor. */
  const K: int := 4

  // ---------------------------------------------------------------------
  // Type signatures and their change points

  /** The list of `type(x)` along row `i`. */
  function RowSignature(g: Grid, i: nat): (sig: seq<Kind>)
    requires g.Valid() && i < g.Height()
    ensures |sig| == g.width
  {
    seq(g.width, j requires 0 <= j < g.width => KindOf(g.cells[i][j]))
  }

  /** The list of `type(x)` down column `j`. */
  function ColumnSignature(g: Grid, j: nat): (sig: seq<Kind>)
    requires g.Valid() && j < g.width
    ensures |sig| == g.Height()
  {
    seq(g.Height(), i requires 0 <= i < g.Height() => KindOf(g.cells[i][j]))
  }

  function RowSignatures(g: Grid): seq<seq<Kind>>
    requires g.Valid()
  {
    seq(g.Height(), i requires 0 <= i < g.Height() => RowSignature(g, i))
  }

  function ColumnSignatures(g: Grid): seq<seq<Kind>>
    requires g.Valid()
  {
    seq(g.width, j requires 0 <= j < g.width => ColumnSignature(g, j))
  }

  /**
    Index `i` is recorded when its signature differs from the one before it;
    before index 0 the remembered signature is the empty list.
   */
  predicate ChangesAt(sigs: seq<seq<Kind>>, i: nat)
    requires i < |sigs|
  {
    sigs[i] != (if i == 0 then [] else sigs[i - 1])
  }

  predicate Increasing(s: seq<int>) {
    forall i, j :: 0 <= i < j < |s| ==> s[i] < s[j]
  }

  /** The indices `get_dtype_row`/`get_dtype_column` append, in scan order. */
  function DtypeChanges(sigs: seq<seq<Kind>>): seq<int>
    decreases |sigs|
  {
    if |sigs| == 0 then []
    else
      var prefix := sigs[..|sigs| - 1];
      DtypeChanges(prefix) + (if ChangesAt(sigs, |sigs| - 1) then [|sigs| - 1] else [])
  }

  /** The type-change indices are ascending, in range, and exactly the indices whose signature changes. */
  lemma {:induction false} DtypeChangesSpec(sigs: seq<seq<Kind>>)
    ensures Increasing(DtypeChanges(sigs))
    ensures forall i :: 0 <= i < |DtypeChanges(sigs)| ==> 0 <= DtypeChanges(sigs)[i] < |sigs|
    ensures forall x :: x in DtypeChanges(sigs) <==> 0 <= x < |sigs| && ChangesAt(sigs, x)
    decreases |sigs|
  {
    if |sigs| > 0 {
      var prefix := sigs[..|sigs| - 1];
      DtypeChangesSpec(prefix);
      assert forall x :: 0 <= x < |prefix| ==> (ChangesAt(prefix, x) <==> ChangesAt(sigs, x));
    }
  }

  /** Scanning one more index appends it exactly when its signature changes. */
  lemma DtypeChangesStep(before: seq<int>, sigs: seq<seq<Kind>>, i: nat)
    requires i < |sigs|
    ensures before + DtypeChanges(sigs[..i + 1])
         == before + DtypeChanges(sigs[..i]) + (if ChangesAt(sigs, i) then [i] else [])
  {
    var p := sigs[..i + 1];
    assert p[..i] == sigs[..i];
    assert ChangesAt(p, i) == ChangesAt(sigs, i);
  }

  /** With at least one column, index 0 is always a type-change candidate. */
  lemma FirstIndexAlwaysChanges(sigs: seq<seq<Kind>>)
    requires |sigs| > 0 && |sigs[0]| > 0
    ensures |DtypeChanges(sigs)| > 0 && DtypeChanges(sigs)[0] == 0
  {
    DtypeChangesSpec(sigs);
    assert 0 in DtypeChanges(sigs);
  }

  // ---------------------------------------------------------------------
  // Text lengths and the two-sigma outlier test

  function Sum(s: seq<nat>): nat
  {
    if |s| == 0 then 0 else Sum(s[..|s| - 1]) + s[|s| - 1]
  }

  function SumOfSquares(s: seq<nat>): nat
  {
    if |s| == 0 then 0 else SumOfSquares(s[..|s| - 1]) + s[|s| - 1] * s[|s| - 1]
  }

  /** Sum of the text lengths of row `i`'s cells. */
  function RowLength(g: Grid, i: nat): nat
    requires g.Valid() && i < g.Height()
  {
    Sum(seq(g.width, j requires 0 <= j < g.width => CellLength(g.cells[i][j])))
  }

  function ColumnLength(g: Grid, j: nat): nat
    requires g.Valid() && j < g.width
  {
    Sum(seq(g.Height(), i requires 0 <= i < g.Height() => CellLength(g.cells[i][j])))
  }

  function RowLengths(g: Grid): seq<nat>
    requires g.Valid()
  {
    seq(g.Height(), i requires 0 <= i < g.Height() => RowLength(g, i))
  }

  function ColumnLengths(g: Grid): seq<nat>
    requires g.Valid()
  {
    seq(g.width, j requires 0 <= j < g.width => ColumnLength(g, j))
  }

  /**
    `v < mean - 2*std or v > mean + 2*std` over the population `ls`, with the
    mean and the population variance cleared of their denominators: with
    n = |ls|, S the sum and Q the sum of squares, n*mean = S and
    n*n*var = n*Q - S*S.
   */
  predicate IsOutlier(ls: seq<nat>, v: nat)
  {
    Deviation(ls, v) * Deviation(ls, v) > 4 * Spread(ls)
  }

  /** n * (v - mean), that is n*v - S. */
  function Deviation(ls: seq<nat>, v: nat): int
  {
    |ls| * v - Sum(ls)
  }

  /** n * n * variance, that is n*Q - S*S. */
  function Spread(ls: seq<nat>): int
  {
    |ls| * SumOfSquares(ls) - Sum(ls) * Sum(ls)
  }

  /** The outliers among the first `k` lengths, index -> length. */
  function OutliersBelow(ls: seq<nat>, k: nat): map<int, nat>
    requires k <= |ls|
  {
    if k == 0 then map[]
    else
      var m := OutliersBelow(ls, k - 1);
      if IsOutlier(ls, ls[k - 1]) then m[k - 1 := ls[k - 1]] else m
  }

  /** The table left in `row_lengths`/`column_lengths`: index -> length, outliers only. */
  function Outliers(ls: seq<nat>): map<int, nat>
  {
    OutliersBelow(ls, |ls|)
  }

  lemma {:induction false} OutliersBelowSpec(ls: seq<nat>, k: nat)
    requires k <= |ls|
    ensures forall i :: i in OutliersBelow(ls, k) <==> 0 <= i < k && IsOutlier(ls, ls[i])
    ensures forall i :: i in OutliersBelow(ls, k) ==> OutliersBelow(ls, k)[i] == ls[i]
    decreases k
  {
    if k > 0 {
      OutliersBelowSpec(ls, k - 1);
    }
  }

  lemma {:induction false} NoOutliersBelow(ls: seq<nat>, k: nat)
    requires k <= |ls|
    requires forall i :: 0 <= i < k ==> !IsOutlier(ls, ls[i])
    ensures OutliersBelow(ls, k) == map[]
    decreases k
  {
    if k > 0 {
      NoOutliersBelow(ls, k - 1);
    }
  }

  /** The table holds exactly the outlier indices, each with its own length. */
  lemma OutliersSpec(ls: seq<nat>)
    ensures forall i :: i in Outliers(ls) <==> 0 <= i < |ls| && IsOutlier(ls, ls[i])
    ensures forall i :: i in Outliers(ls) ==> Outliers(ls)[i] == ls[i]
  {
    OutliersBelowSpec(ls, |ls|);
  }

  function Mean(ls: seq<nat>): real
    requires |ls| > 0
  {
    Sum(ls) as real / |ls| as real
  }

  function Variance(ls: seq<nat>): real
    requires |ls| > 0
  {
    SumOfSquares(ls) as real / |ls| as real - Mean(ls) * Mean(ls)
  }

  lemma SquaresCompare(a: real, b: real)
    requires b >= 0.0
    ensures a * a > b * b <==> (a > b || a < -b)
  {
    if a > b {
      assert a * a > b * a >= b * b;
    } else if a < -b {
      assert -a > b;
      assert a * a == (-a) * (-a);
      assert (-a) * (-a) > b * (-a) >= b * b;
    } else {
      assert -b <= a <= b;
      if a >= 0.0 {
        assert a * a <= b * a <= b * b;
      } else {
        assert (-a) * (-a) <= b * (-a) <= b * b;
      }
    }
  }

  /** Multiplying both sides by a positive factor keeps a strict comparison. */
  lemma ScaleCompare(a: real, b: real, f: real)
    requires f > 0.0
    ensures a > b <==> f * a > f * b
  {
    if a > b {
      assert f * a - f * b == f * (a - b);
    } else {
      assert f * b - f * a == f * (b - a);
    }
  }

  /** n * (v - mean) is the cleared deviation n*v - S. */
  lemma ClearedDeviation(ls: seq<nat>, v: nat)
    requires |ls| > 0
    ensures Deviation(ls, v) as real == |ls| as real * (v as real - Mean(ls))
  {
    var n, s := |ls| as real, Sum(ls) as real;
    assert n * Mean(ls) == s;
  }

  /** n * n * variance is the cleared spread n*Q - S*S. */
  lemma ClearedVariance(ls: seq<nat>)
    requires |ls| > 0
    ensures Spread(ls) as real == |ls| as real * |ls| as real * Variance(ls)
  {
    var n, s, q := |ls| as real, Sum(ls) as real, SumOfSquares(ls) as real;
    var m := Mean(ls);
    assert n * m == s;
    assert n * (q / n) == q;
    calc {
      n * n * Variance(ls);
      n * n * (q / n - m * m);
      n * (n * (q / n)) - (n * m) * (n * m);
      n * q - s * s;
    }
  }

  /**
    The integer test in `get_length_row` is a two-sigma band: for any non-negative
    `sigma` whose square is the population variance, a length is an outlier
    exactly when it lies strictly outside [mean - 2 sigma, mean + 2 sigma].
   */
  lemma OutlierIsOutsideTwoSigma(ls: seq<nat>, v: nat, sigma: real)
    requires |ls| > 0 && sigma >= 0.0
    requires sigma * sigma == Variance(ls)
    ensures IsOutlier(ls, v) <==> (v as real < Mean(ls) - 2.0 * sigma || v as real > Mean(ls) + 2.0 * sigma)
  {
    var n := |ls| as real;
    var d := v as real - Mean(ls);
    var t := 2.0 * sigma;
    OutlierInReals(ls, v);
    ClearedDeviation(ls, v);
    ClearedVariance(ls);
    SquareScaled(n, d);
    SquareScaled(n, t);
    ScaleCompare(d * d, t * t, n * n);
    SquaresCompare(d, t);
  }

  lemma SquareScaled(n: real, d: real)
    ensures (n * d) * (n * d) == (n * n) * (d * d)
  {
  }

  /** The integer test read in the reals. */
  lemma OutlierInReals(ls: seq<nat>, v: nat)
    requires |ls| > 0
    ensures IsOutlier(ls, v) <==>
      Deviation(ls, v) as real * Deviation(ls, v) as real > 4.0 * Spread(ls) as real
  {
    var e, q := Deviation(ls, v), Spread(ls);
    CastProduct(e, e);
  }

  lemma CastProduct(x: int, y: int)
    ensures (x * y) as real == x as real * y as real
  {
  }

  lemma {:induction false} SumOfConstant(ls: seq<nat>, c: nat)
    requires forall i :: 0 <= i < |ls| ==> ls[i] == c
    ensures Sum(ls) == |ls| * c && SumOfSquares(ls) == |ls| * (c * c)
    decreases |ls|
  {
    if |ls| > 0 {
      SumOfConstant(ls[..|ls| - 1], c);
    }
  }

  /** Zero spread: when every length is the same, nothing is an outlier. */
  lemma {:induction false} EqualLengthsNoOutliers(ls: seq<nat>)
    requires forall i, j :: 0 <= i < |ls| && 0 <= j < |ls| ==> ls[i] == ls[j]
    ensures Outliers(ls) == map[]
  {
    if |ls| > 0 {
      var c := ls[0];
      SumOfConstant(ls, c);
      var n := |ls|;
      forall i | 0 <= i < n
        ensures !IsOutlier(ls, ls[i])
      {
        assert n * ls[i] - Sum(ls) == 0;
        assert n * SumOfSquares(ls) - Sum(ls) * Sum(ls) == n * (n * (c * c)) - (n * c) * (n * c);
      }
      NoOutliersBelow(ls, n);
    }
  }

  // ---------------------------------------------------------------------
  // Sorted listings, windows and the retained indices

  /** The members of `u` in [lo, hi), ascending: `np.unique` over a bounded set. */
  function Ascending(u: set<int>, lo: int, hi: int): (r: seq<int>)
    ensures Increasing(r)
    ensures forall x :: x in r <==> lo <= x < hi && x in u
    ensures forall i :: 0 <= i < |r| ==> lo <= r[i] < hi
    decreases hi - lo
  {
    if lo >= hi then []
    else (if lo in u then [lo] else []) + Ascending(u, lo + 1, hi)
  }

  /** A listing of [lo, hi) has at most hi - lo members. */
  lemma {:induction false} AscendingLength(u: set<int>, lo: int, hi: int)
    ensures lo <= hi ==> |Ascending(u, lo, hi)| <= hi - lo
    ensures hi < lo ==> |Ascending(u, lo, hi)| == 0
    decreases hi - lo
  {
    if lo < hi {
      AscendingLength(u, lo + 1, hi);
    }
  }

  /** The boolean mask `(c >= lo) & (c < hi)` applied to `s`. */
  function KeepInRange(s: seq<int>, lo: int, hi: int): (r: seq<int>)
    ensures forall x :: x in r <==> x in s && lo <= x < hi
  {
    if |s| == 0 then []
    else (if lo <= s[0] < hi then [s[0]] else []) + KeepInRange(s[1..], lo, hi)
  }

  /** `surrounding_k(a, K)`: the integers from a - K to a + K. */
  function Window(a: int): (w: set<int>)
    ensures forall x :: x in w <==> a - K <= x <= a + K
  {
    Interval(a - K, a + K)
  }

  /** The integers from lo to hi inclusive. */
  function Interval(lo: int, hi: int): (w: set<int>)
    ensures forall x :: x in w <==> lo <= x <= hi
    decreases hi - lo
  {
    if lo > hi then {} else {lo} + Interval(lo + 1, hi)
  }

  /** Some anchor lies within K of `x`. */
  predicate NearAnchor(anchors: seq<int>, x: int)
  {
    exists i :: 0 <= i < |anchors| && anchors[i] - K <= x <= anchors[i] + K
  }

  /** `np.unique(concatenate([surrounding_k(a, K) for a in anchors]))` as a set. */
  function Windows(anchors: seq<int>): (w: set<int>)
    ensures forall x :: x in w <==> NearAnchor(anchors, x)
  {
    if |anchors| == 0 then {}
    else
      var rest := Windows(anchors[1..]);
      assert forall x :: NearAnchor(anchors[1..], x) ==> NearAnchor(anchors, x) by {
        forall x | NearAnchor(anchors[1..], x) ensures NearAnchor(anchors, x) {
          var i :| 0 <= i < |anchors[1..]| && anchors[1..][i] - K <= x <= anchors[1..][i] + K;
          assert anchors[i + 1] == anchors[1..][i];
        }
      }
      assert forall x :: NearAnchor(anchors, x) ==> x in Window(anchors[0]) || NearAnchor(anchors[1..], x) by {
        forall x | NearAnchor(anchors, x) ensures x in Window(anchors[0]) || NearAnchor(anchors[1..], x) {
          var i :| 0 <= i < |anchors| && anchors[i] - K <= x <= anchors[i] + K;
          if i > 0 {
            assert anchors[1..][i - 1] == anchors[i];
          }
        }
      }
      Window(anchors[0]) + rest
  }

  /** `np.intersect1d(keys, candidates)`, for candidates drawn from [0, n). */
  function Intersect(keys: set<int>, candidates: seq<int>, n: nat): seq<int>
  {
    Ascending(keys * set x | x in candidates, 0, n)
  }

  /** The indices kept along an axis of length n, given its pivots. */
  function Retained(pivots: seq<int>, n: nat): seq<int>
  {
    Ascending(Windows(pivots + [0, n - 1]), 0, n)
  }

  function RowPivots(g: Grid): seq<int>
    requires g.Valid()
  {
    Intersect(Outliers(RowLengths(g)).Keys, DtypeChanges(RowSignatures(g)), g.Height())
  }

  function ColumnPivots(g: Grid): seq<int>
    requires g.Valid()
  {
    Intersect(Outliers(ColumnLengths(g)).Keys, DtypeChanges(ColumnSignatures(g)), g.width)
  }

  function RetainedRows(g: Grid): seq<int>
    requires g.Valid()
  {
    Retained(RowPivots(g), g.Height())
  }

  function RetainedColumns(g: Grid): seq<int>
    requires g.Valid()
  {
    Retained(ColumnPivots(g), g.width)
  }

  /** An index is a pivot exactly when it is both a type-change and a length-outlier index. */
  lemma PivotsAreBothCandidates(g: Grid, x: int)
    requires g.Valid()
    ensures Increasing(RowPivots(g))
    ensures x in RowPivots(g) <==>
      0 <= x < g.Height() && ChangesAt(RowSignatures(g), x) && IsOutlier(RowLengths(g), RowLengths(g)[x])
  {
    OutliersSpec(RowLengths(g));
    DtypeChangesSpec(RowSignatures(g));
  }

  /**
    The retained indices of an axis of length n: ascending, distinct, in
    range, including 0 and n - 1, and exactly the in-range indices within K
    of a pivot or of a boundary.
   */
  lemma RetainedSpec(pivots: seq<int>, n: nat)
    ensures Increasing(Retained(pivots, n))
    ensures forall i :: 0 <= i < |Retained(pivots, n)| ==> 0 <= Retained(pivots, n)[i] < n
    ensures n > 0 ==> 0 in Retained(pivots, n) && n - 1 in Retained(pivots, n)
    ensures forall x :: x in Retained(pivots, n) <==> 0 <= x < n && NearAnchor(pivots + [0, n - 1], x)
  {
    var anchors := pivots + [0, n - 1];
    assert anchors[|pivots|] == 0 && anchors[|pivots| + 1] == n - 1;
  }

  /** The retained indices of an axis of length `n` are at most `n` indices of that axis. */
  lemma RetainedFits(pivots: seq<int>, n: nat)
    ensures |Retained(pivots, n)| <= n
    ensures forall i :: 0 <= i < |Retained(pivots, n)| ==> 0 <= Retained(pivots, n)[i] < n
  {
    AscendingLength(Windows(pivots + [0, n - 1]), 0, n);
  }

  /** Only the two boundaries anchor an axis with no pivots. */
  lemma NearBoundaries(n: nat, x: int)
    ensures NearAnchor([0, n - 1], x) <==> (-K <= x <= K || n - 1 - K <= x <= n - 1 + K)
  {
    var anchors := [0, n - 1];
    if -K <= x <= K {
      assert anchors[0] - K <= x <= anchors[0] + K;
    }
    if n - 1 - K <= x <= n - 1 + K {
      assert anchors[1] - K <= x <= anchors[1] + K;
    }
  }

  lemma {:induction false} AscendingOfNothing(lo: int, hi: int)
    ensures Ascending({}, lo, hi) == []
    decreases hi - lo
  {
    if lo < hi {
      AscendingOfNothing(lo + 1, hi);
    }
  }

  /** Without length outliers there are no row pivots, whatever the type changes. */
  lemma NoOutliersNoRowPivots(g: Grid)
    requires g.Valid() && Outliers(RowLengths(g)) == map[]
    ensures RowPivots(g) == []
  {
    var cands := DtypeChanges(RowSignatures(g));
    assert Outliers(RowLengths(g)).Keys * (set x | x in cands) == {};
    AscendingOfNothing(0, g.Height());
  }

  /** With no pivots, only the first and last K + 1 indices are kept. */
  lemma NoPivotsKeepsBorders(n: nat)
    ensures forall x :: x in Retained([], n) <==> 0 <= x < n && (x <= K || x >= n - 1 - K)
  {
    RetainedSpec([], n);
    assert [] + [0, n - 1] == [0, n - 1];
    forall x ensures x in Retained([], n) <==> 0 <= x < n && (x <= K || x >= n - 1 - K) {
      NearBoundaries(n, x);
    }
  }

  /**
    A sheet whose rows all have the same text length keeps only the first
    and last K + 1 rows (clipped to the sheet).
   */
  lemma UniformRowsKeepOnlyBorders(g: Grid)
    requires g.Valid()
    requires forall i, j :: 0 <= i < g.Height() && 0 <= j < g.Height() ==> RowLength(g, i) == RowLength(g, j)
    ensures forall x :: x in RetainedRows(g) <==> 0 <= x < g.Height() && (x <= K || x >= g.Height() - 1 - K)
  {
    var ls := RowLengths(g);
    assert forall i, j :: 0 <= i < |ls| && 0 <= j < |ls| ==> ls[i] == ls[j];
    EqualLengthsNoOutliers(ls);
    NoOutliersNoRowPivots(g);
    NoPivotsKeepsBorders(g.Height());
  }

  /** The cells of `row` at the kept column positions, in order. */
  function Pick(row: seq<Value>, cols: seq<int>): (r: seq<Value>)
    requires forall j :: 0 <= j < |cols| ==> 0 <= cols[j] < |row|
    ensures |r| == |cols| && forall j :: 0 <= j < |cols| ==> r[j] == row[cols[j]]
  {
    seq(|cols|, j requires 0 <= j < |cols| => row[cols[j]])
  }

  /** The sub-grid of the kept rows and columns, re-indexed from 0 (`iloc` then `reset_index`). */
  function Prune(g: Grid, rows: seq<int>, cols: seq<int>): (p: Grid)
    requires g.Valid()
    requires forall i :: 0 <= i < |rows| ==> 0 <= rows[i] < |g.cells|
    requires forall j :: 0 <= j < |cols| ==> 0 <= cols[j] < g.width
    ensures p.Valid() && p.Height() == |rows| && p.width == |cols|
    ensures forall i, j :: 0 <= i < |rows| && 0 <= j < |cols| ==> p.cells[i][j] == g.cells[rows[i]][cols[j]]
  {
    assert forall i :: 0 <= i < |rows| ==> |g.cells[rows[i]]| == g.width;
    Grid(seq(|rows|, i requires 0 <= i < |rows| => Pick(g.cells[rows[i]], cols)), |cols|)
  }

  /** Widening, listing and clipping, as `anchor` does them, yield the retained indices. */
  lemma AxisSelection(pivots: seq<int>, n: nat)
    ensures KeepInRange(Ascending(Windows(pivots + [0, n - 1]), -1 - K, n + K), 0, n) == Retained(pivots, n)
  {
    KeepInRangeOfAscending(Windows(pivots + [0, n - 1]), -1 - K, n + K, n);
  }

  lemma KeepInRangeOfAscending(u: set<int>, lo: int, hi: int, n: nat)
    requires lo <= 0 && n <= hi
    ensures KeepInRange(Ascending(u, lo, hi), 0, n) == Ascending(u, 0, n)
    decreases hi - lo
  {
    if lo < hi {
      var tail := Ascending(u, lo + 1, hi);
      if lo < 0 {
        KeepInRangeOfAscending(u, lo + 1, hi, n);
        assert KeepInRange(Ascending(u, lo, hi), 0, n) == KeepInRange(tail, 0, n) by {
          if lo in u {
            var s := [lo] + tail;
            assert Ascending(u, lo, hi) == s;
            assert s[0] == lo && s[1..] == tail;
          } else {
            assert Ascending(u, lo, hi) == tail;
          }
        }
      } else {
        KeepInRangeFromZero(u, hi, n);
      }
    }
  }

  lemma KeepInRangeFromZero(u: set<int>, hi: int, n: nat)
    requires n <= hi
    ensures KeepInRange(Ascending(u, 0, hi), 0, n) == Ascending(u, 0, n)
  {
    var a := Ascending(u, 0, hi);
    var b := Ascending(u, 0, n);
    var r := KeepInRange(a, 0, n);
    KeepInRangeIncreasing(a, 0, n);
    SameIncreasing(r, b);
  }

  lemma {:induction false} KeepInRangeIncreasing(s: seq<int>, lo: int, hi: int)
    requires Increasing(s)
    ensures Increasing(KeepInRange(s, lo, hi))
    decreases |s|
  {
    if |s| > 0 {
      KeepInRangeIncreasing(s[1..], lo, hi);
      var rest := KeepInRange(s[1..], lo, hi);
      if lo <= s[0] < hi {
        var r := [s[0]] + rest;
        forall i, j | 0 <= i < j < |r| ensures r[i] < r[j] {
          if i == 0 {
            assert r[j] in rest;
            assert r[j] in s[1..];
            var k :| 0 <= k < |s[1..]| && s[1..][k] == r[j];
            assert s[0] < s[k + 1];
          } else {
            assert r[i] == rest[i - 1] && r[j] == rest[j - 1];
          }
        }
      } else {
        assert KeepInRange(s, lo, hi) == rest;
      }
    }
  }

  /** Two ascending sequences with the same members are equal. */
  lemma {:induction false} SameIncreasing(a: seq<int>, b: seq<int>)
    requires Increasing(a) && Increasing(b)
    requires forall x :: x in a <==> x in b
    ensures a == b
    decreases |a| + |b|
  {
    assert |a| > 0 ==> a[0] in a && a[0] in b;
    assert |b| > 0 ==> b[0] in b && b[0] in a;
    if |a| > 0 && |b| > 0 {
      var k :| 0 <= k < |b| && b[k] == a[0];
      var l :| 0 <= l < |a| && a[l] == b[0];
      assert b[0] <= b[k];
      assert a[0] <= a[l];
      assert a[0] == b[0];
      forall x ensures x in a[1..] <==> x in b[1..] {
        if x in a[1..] {
          var i :| 0 <= i < |a[1..]| && a[1..][i] == x;
          assert a[0] < a[i + 1];
          assert x in b && x != b[0];
        }
        if x in b[1..] {
          var i :| 0 <= i < |b[1..]| && b[1..][i] == x;
          assert b[0] < b[i + 1];
          assert x in a && x != a[0];
        }
      }
      SameIncreasing(a[1..], b[1..]);
      assert a == [a[0]] + a[1..] && b == [b[0]] + b[1..];
    }
  }

  /**
    One axis of `anchor`: the candidates found by both tests, plus the two
    boundaries, each widened by K, listed once in ascending order and
    clipped to [0, n).
   */
  method SelectAxis(outlierKeys: set<int>, changes: seq<int>, n: nat) returns (kept: seq<int>)
    ensures kept == Retained(Intersect(outlierKeys, changes, n), n)
  {
    var pivots := Intersect(outlierKeys, changes, n);
    var anchors := pivots + [0, n - 1];
    // Every anchor lies in [-1, n), so every window member lies in [-1 - K, n + K).
    kept := Ascending(Windows(anchors), -1 - K, n + K);
    kept := KeepInRange(kept, 0, n);
    AxisSelection(pivots, n);
  }

  /** What `anchor` keeps from the scans is the retained indices of each axis, all inside the sheet. */
  lemma Selected(g: Grid, rowChanges: seq<int>, columnChanges: seq<int>, rowOutliers: map<int, nat>, columnOutliers: map<int, nat>,
                 rows: seq<int>, cols: seq<int>)
    requires g.Valid()
    requires rowChanges == DtypeChanges(RowSignatures(g)) && columnChanges == DtypeChanges(ColumnSignatures(g))
    requires rowOutliers == Outliers(RowLengths(g)) && columnOutliers == Outliers(ColumnLengths(g))
    requires rows == Retained(Intersect(rowOutliers.Keys, rowChanges, g.Height()), g.Height())
    requires cols == Retained(Intersect(columnOutliers.Keys, columnChanges, g.width), g.width)
    ensures rows == RetainedRows(g) && cols == RetainedColumns(g)
    ensures forall i :: 0 <= i < |rows| ==> 0 <= rows[i] < |g.cells|
    ensures forall j :: 0 <= j < |cols| ==> 0 <= cols[j] < g.width
  {
    RetainedFits(RowPivots(g), g.Height());
    RetainedFits(ColumnPivots(g), g.width);
  }

  // ---------------------------------------------------------------------
  // The compressor's mutable state

  class SheetCompressor {
    var rowCandidates: seq<int>
    var columnCandidates: seq<int>
    var rowLengths: map<int, nat>
    var columnLengths: map<int, nat>

    /** The state of a newly built compressor; every sheet needs one. */
    predicate Fresh()
      reads this
    {
      rowCandidates == [] && columnCandidates == [] && rowLengths == map[] && columnLengths == map[]
    }

    constructor ()
      ensures Fresh()
    {
      rowCandidates := [];
      columnCandidates := [];
      rowLengths := map[];
      columnLengths := map[];
    }

    /** Appends every row index whose type signature differs from the previous row's. */
    method GetDtypeRow(g: Grid)
      requires g.Valid()
      modifies this`rowCandidates
      ensures rowCandidates == old(rowCandidates) + DtypeChanges(RowSignatures(g))
    {
      ghost var sigs := RowSignatures(g);
      var current: seq<Kind> := [];
      var i := 0;
      while i < g.Height()
        invariant 0 <= i <= g.Height()
        invariant current == if i == 0 then [] else sigs[i - 1]
        invariant rowCandidates == old(rowCandidates) + DtypeChanges(sigs[..i])
      {
        var temp := RowSignature(g, i);
        assert temp == sigs[i];
        DtypeChangesStep(old(rowCandidates), sigs, i);
        if current != temp {
          current := temp;
          rowCandidates := rowCandidates + [i];
        }
        i := i + 1;
      }
      assert sigs[..i] == sigs;
    }

    /** Appends every column index whose type signature differs from the previous column's. */
    method GetDtypeColumn(g: Grid)
      requires g.Valid()
      modifies this`columnCandidates
      ensures columnCandidates == old(columnCandidates) + DtypeChanges(ColumnSignatures(g))
    {
      ghost var sigs := ColumnSignatures(g);
      var current: seq<Kind> := [];
      var j := 0;
      while j < g.width
        invariant 0 <= j <= g.width
        invariant current == if j == 0 then [] else sigs[j - 1]
        invariant columnCandidates == old(columnCandidates) + DtypeChanges(sigs[..j])
      {
        var temp := ColumnSignature(g, j);
        assert temp == sigs[j];
        DtypeChangesStep(old(columnCandidates), sigs, j);
        if current != temp {
          current := temp;
          columnCandidates := columnCandidates + [j];
        }
        j := j + 1;
      }
      assert sigs[..j] == sigs;
    }

    /** Records every row's text length, then keeps only the two-sigma outliers. */
    method GetLengthRow(g: Grid)
      requires g.Valid() && rowLengths == map[]
      modifies this`rowLengths
      ensures rowLengths == Outliers(RowLengths(g))
    {
      var i := 0;
      while i < g.Height()
        invariant 0 <= i <= g.Height()
        invariant rowLengths == map k | 0 <= k < i :: RowLength(g, k)
      {
        rowLengths := rowLengths[i := RowLength(g, i)];
        i := i + 1;
      }
      var lengths := rowLengths;
      var values := seq(g.Height(), k requires 0 <= k < g.Height() => lengths[k]);
      assert values == RowLengths(g);
      rowLengths := map k | k in rowLengths && IsOutlier(values, rowLengths[k]) :: rowLengths[k];
      OutliersSpec(values);
    }

    /** Records every column's text length, then keeps only the two-sigma outliers. */
    method GetLengthColumn(g: Grid)
      requires g.Valid() && columnLengths == map[]
      modifies this`columnLengths
      ensures columnLengths == Outliers(ColumnLengths(g))
    {
      var j := 0;
      while j < g.width
        invariant 0 <= j <= g.width
        invariant columnLengths == map k | 0 <= k < j :: ColumnLength(g, k)
      {
        columnLengths := columnLengths[j := ColumnLength(g, j)];
        j := j + 1;
      }
      var lengths := columnLengths;
      var values := seq(g.width, k requires 0 <= k < g.width => lengths[k]);
      assert values == ColumnLengths(g);
      columnLengths := map k | k in columnLengths && IsOutlier(values, columnLengths[k]) :: columnLengths[k];
      OutliersSpec(values);
    }

    /** The four candidate scans of `anchor`, run on a fresh compressor. */
    method Scan(g: Grid)
      requires g.Valid() && Fresh()
      modifies this
      ensures rowCandidates == DtypeChanges(RowSignatures(g)) && columnCandidates == DtypeChanges(ColumnSignatures(g))
      ensures rowLengths == Outliers(RowLengths(g)) && columnLengths == Outliers(ColumnLengths(g))
    {
      GetDtypeRow(g);
      GetDtypeColumn(g);
      GetLengthRow(g);
      GetLengthColumn(g);
    }

    /**
      Runs the four candidate scans, keeps the candidates found by both
      tests, adds the two boundaries, widens every anchor by K, drops what
      falls outside the sheet and returns the pruned, re-indexed sheet.
     */
    method Anchor(g: Grid) returns (pruned: Grid)
      requires g.Valid() && Fresh()
      modifies this
      ensures rowCandidates == RetainedRows(g) && columnCandidates == RetainedColumns(g)
      ensures rowLengths == Outliers(RowLengths(g)) && columnLengths == Outliers(ColumnLengths(g))
      ensures pruned == Prune(g, rowCandidates, columnCandidates)
    {
      var m, n := g.Height(), g.width;
      Scan(g);
      var rowChanges, columnChanges, rowOutliers, columnOutliers := rowCandidates, columnCandidates, rowLengths, columnLengths;
      var rows := SelectAxis(rowOutliers.Keys, rowChanges, m);
      var cols := SelectAxis(columnOutliers.Keys, columnChanges, n);
      Selected(g, rowChanges, columnChanges, rowOutliers, columnOutliers, rows, cols);
      rowCandidates, columnCandidates := rows, cols;
      pruned := Prune(g, rows, cols);
    }
  }
}
