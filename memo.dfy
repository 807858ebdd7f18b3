/** The memoization table that `reload` fills from the sorted control
    points, and the two lookups that read it (`getValueInternal` and the
    blend in `getValue`). Everything here is a function of the points or
    of the table; the class in function_config.dfy is proved to agree. */
module Memo {
  import opened Numeric
  import opened Points

  /** `MEMOIZE_PRECISION`: table samples per unit of input. */
  const MemoizePrecision: int := 200

  /** The point lists `reload` builds a table from: sorted, as the sort
      leaves them, and with non-negative abscissas (with a negative first
      abscissa the main loop would start at a negative index). */
  predicate WellFormed(ps: seq<Point>) {
    Sorted(ps) && NonNegative(ps)
  }

  /** `ensureInBounds`: the origin for an empty list or a negative index,
      the indexed point when in range, and the last point above the range. */
  function EnsureInBounds(ps: seq<Point>, i: int): (r: Point)
    ensures 0 <= i < |ps| ==> r == ps[i]
    ensures |ps| == 0 || i < 0 ==> r == Origin
    ensures 0 < |ps| <= i ==> r == ps[|ps| - 1]
  {
    if |ps| == 0 || i < 0 then Origin
    else if |ps| > i then ps[i]
    else ps[|ps| - 1]
  }

  /** The `while` in `reload` that advances `j` from `lo`: the first index
      at or after `lo` whose point lies strictly to the right of `i`, or
      `|ps|` when there is none. */
  function Window(ps: seq<Point>, i: real, lo: nat): (j: nat)
    requires lo <= |ps|
    ensures lo <= j <= |ps|
    ensures j == |ps| || i < ps[j].x
    ensures forall m :: lo <= m < j ==> ps[m].x <= i
    decreases |ps| - lo
  {
    if lo < |ps| && ps[lo].x <= i then Window(ps, i, lo + 1) else lo
  }

  /** The normalised position `t` of `i` between `b` and `c`, 0 when the
      two share an abscissa. */
  function Param(b: Point, c: Point, i: real): real {
    if c.x - b.x == 0.0 then 0.0 else (i - b.x) / (c.x - b.x)
  }

  /** The Catmull-Rom combination of four ordinates at position `t`. */
  function Blend(a: real, b: real, c: real, d: real, t: real): real {
    a * ((-t + 2.0) * t - 1.0) * t * 0.5 +
    b * (((3.0 * t - 5.0) * t) * t + 2.0) * 0.5 +
    c * ((-3.0 * t + 4.0) * t + 1.0) * t * 0.5 +
    d * ((t - 1.0) * t * t) * 0.5
  }

  /** One main-loop sample: the blend of the four points around window
      index `j`, at position `i`. */
  function SampleInWindow(ps: seq<Point>, j: int, i: real): real {
    var a := EnsureInBounds(ps, j - 2);
    var b := EnsureInBounds(ps, j - 1);
    var c := EnsureInBounds(ps, j);
    var d := EnsureInBounds(ps, j + 1);
    Blend(a.y, b.y, c.y, d.y, Param(b, c, i))
  }

  /** `_size`: 200 samples for each unit up to and including the unit
      that holds the last point; 0 for no points. */
  function TableSize(ps: seq<Point>): int
  {
    if ps == [] then 0 else MemoizePrecision * (Trunc(ps[|ps| - 1].x) + 1)
  }

  /** The first index the main loop writes, `(int)(first.x * 200)`; the
      ramp fills the indices below it. */
  function RampEnd(ps: seq<Point>): int
    requires ps != []
  {
    Trunc(ps[0].x * MemoizePrecision as real)
  }

  /** The position `i` the main loop holds when it writes index `k`: it
      starts at the first point's abscissa and grows by 1/200 per index. */
  function SamplePos(ps: seq<Point>, k: int): real
    requires ps != []
  {
    ps[0].x + (k - RampEnd(ps)) as real / MemoizePrecision as real
  }

  /** Consecutive table slots lie one step of `1 / MemoizePrecision` apart. */
  lemma SamplePosStep(ps: seq<Point>, k: int)
    requires ps != []
    ensures SamplePos(ps, k) + 1.0 / MemoizePrecision as real == SamplePos(ps, k + 1)
  {
  }

  /** The value `reload` stores at index `k`. */
  function Sample(ps: seq<Point>, k: nat): real
    requires ps != []
  {
    if k < RampEnd(ps) then ps[0].y * k as real / RampEnd(ps) as real
    else SampleInWindow(ps, Window(ps, SamplePos(ps, k), 1), SamplePos(ps, k))
  }

  /** The whole table `reload` builds from sorted, non-negative points. */
  function Table(ps: seq<Point>): (t: seq<real>)
    requires WellFormed(ps)
    ensures |t| == TableSize(ps)
  {
    seq(TableSize(ps), k requires 0 <= k < TableSize(ps) => Sample(ps, k))
  }

  /** `getValueInternal` on a table: mirror a negative index (taking the
      two's-complement result for the undefined negation of `INT_MIN`, which
      stays negative and reads as 0), clamp to the
      last sample, and give 0 for an empty table. */
  function Lookup(t: seq<real>, x: int): real
    requires FitsInt32(x)
  {
    var sign := if x < 0 then -1.0 else 1.0;
    var idx := if x < 0 then Neg32(x) else x;
    var ret :=
      if |t| == 0 then 0.0
      else if idx < 0 then 0.0
      else if idx < |t| then t[idx]
      else t[|t| - 1];
    ret * sign
  }

  /** The two 32-bit casts `getValue` applies to `x * 200` are defined. */
  predicate Evaluable(x: real) {
    FitsInt32(Trunc(x * MemoizePrecision as real)) && FitsInt32(Ceil(x * MemoizePrecision as real))
  }

  /** `getValue` on a table: blend the samples at the truncated and the
      rounded-up index by the fractional part of `x` itself. */
  function Evaluate(t: seq<real>, x: real): real
    requires Evaluable(x)
  {
    var first := Lookup(t, Trunc(x * MemoizePrecision as real));
    var second := Lookup(t, Ceil(x * MemoizePrecision as real));
    first + (second - first) * (x - Trunc(x) as real)
  }

  /** `Evaluate` in terms of the two lookups and the blend factor, as a
      single proof step for `GetValue`, which computes them one by one. */
  lemma EvaluateUnfold(t: seq<real>, x: real, first: real, second: real, f: real)
    requires Evaluable(x)
    requires first == Lookup(t, Trunc(x * MemoizePrecision as real))
    requires second == Lookup(t, Ceil(x * MemoizePrecision as real))
    requires f == x - Trunc(x) as real
    ensures Evaluate(t, x) == first + (second - first) * f
  {
  }

  // ---------------------------------------------------------------------
  // The window pointer

  /** How far the `while` advances does not depend on where it resumes,
      as long as it resumes at or before its stopping point. */
  lemma {:induction false} WindowSkip(ps: seq<Point>, i: real, lo: nat, m: nat)
    requires lo <= |ps|
    requires lo <= m <= Window(ps, i, lo)
    ensures Window(ps, i, m) == Window(ps, i, lo)
    decreases m - lo
  {
    if lo < m {
      WindowSkip(ps, i, lo + 1, m);
    }
  }

  /** A larger position never stops the pointer earlier. */
  lemma {:induction false} WindowMono(ps: seq<Point>, i: real, i': real, lo: nat)
    requires lo <= |ps| && i <= i'
    ensures Window(ps, i, lo) <= Window(ps, i', lo)
    decreases |ps| - lo
  {
    if lo < |ps| && ps[lo].x <= i {
      WindowMono(ps, i, i', lo + 1);
    }
  }

  /** The pointer stops at `w` exactly when every point from `lo` up to `w`
      lies at or left of `i` and the point at `w` (if any) lies right of it. */
  lemma {:induction false} WindowExact(ps: seq<Point>, i: real, lo: nat, w: nat)
    requires lo <= w <= |ps|
    requires forall m :: lo <= m < w ==> ps[m].x <= i
    requires w == |ps| || i < ps[w].x
    ensures Window(ps, i, lo) == w
    decreases w - lo
  {
    if lo < w {
      WindowExact(ps, i, lo + 1, w);
    }
  }

  /** The main-loop window condition: once the `while` stops, the points at
      `j - 1` and `j` bracket the sample position. */
  lemma WindowBrackets(ps: seq<Point>, k: int)
    requires WellFormed(ps) && ps != []
    requires RampEnd(ps) <= k
    ensures var i := SamplePos(ps, k); var j := Window(ps, i, 1);
      1 <= j <= |ps| && ps[j - 1].x <= i && (j == |ps| || i < ps[j].x)
  {
    var i := SamplePos(ps, k);
    var j := Window(ps, i, 1);
    assert ps[0].x <= i;
    if j > 1 {
      assert ps[j - 1].x <= i;
    }
  }

  // ---------------------------------------------------------------------
  // The shape of the table

  /** The table size, and that the first main-loop index lies inside the
      table, so the ramp and the main loop write exactly its indices. */
  lemma TableShape(ps: seq<Point>)
    requires WellFormed(ps) && ps != []
    ensures |Table(ps)| == MemoizePrecision * (Trunc(ps[|ps| - 1].x) + 1)
    ensures 0 <= RampEnd(ps) < |Table(ps)|
  {
    var x0, xl := ps[0].x, ps[|ps| - 1].x;
    assert x0 <= xl;
    assert RampEnd(ps) as real <= x0 * 200.0 <= xl * 200.0;
    assert xl < Trunc(xl) as real + 1.0;
  }

  /** The table ends in whole units of 200 samples, and for a non-negative
      last point it holds at least one unit and reaches past that point's own
      position. */
  lemma TableCoversLast(ps: seq<Point>)
    ensures TableSize(ps) % MemoizePrecision == 0
    ensures ps != [] && 0.0 <= ps[|ps| - 1].x ==>
      MemoizePrecision <= TableSize(ps) &&
      ps[|ps| - 1].x * MemoizePrecision as real < TableSize(ps) as real
  {
    if ps != [] {
      var xl := ps[|ps| - 1].x;
      assert xl < Trunc(xl) as real + 1.0;
    }
  }

  /** The table covers the last knot's index, not always its position: with
      knots at 0 and 0.999 the table has 200 entries, and the last of them is
      sampled at 0.995, one step short of the last knot. */
  lemma TableEndsShort()
    ensures var ps := [Point(0.0, 0.0), Point(0.999, 1.0)];
      TableSize(ps) == 200 && SamplePos(ps, TableSize(ps) - 1) == 0.995 < ps[|ps| - 1].x
  {
    var ps := [Point(0.0, 0.0), Point(0.999, 1.0)];
    assert Trunc(0.999) == 0;
    assert RampEnd(ps) == 0;
  }

  /** The sort keeps the points non-negative and makes them sorted. */
  lemma SortWellFormed(ps: seq<Point>)
    requires NonNegative(ps)
    ensures WellFormed(SortByX(ps))
  {
    SortSorted(ps);
    SortPermutes(ps);
    NonNegativeRearranged(ps, SortByX(ps));
  }

  /** A sequence holding `Sample(ps, m)` at every index of the table is
      the table. */
  lemma TableFromSamples(ps: seq<Point>, s: seq<real>)
    requires WellFormed(ps) && ps != [] && |s| == TableSize(ps)
    requires forall m :: 0 <= m < |s| ==> s[m] == Sample(ps, m)
    ensures s == Table(ps)
  {
  }

  /** No points give no table. */
  lemma EmptyTable()
    ensures Table([]) == []
  {
  }

  /** Below the first point the table is a straight ramp from 0 towards
      the first point's ordinate. */
  lemma RampValues(ps: seq<Point>, k: nat)
    requires WellFormed(ps) && ps != []
    requires k < RampEnd(ps)
    ensures k < |Table(ps)|
    ensures Table(ps)[k] == ps[0].y * k as real / RampEnd(ps) as real
    ensures k == 0 ==> Table(ps)[k] == 0.0
  {
    TableShape(ps);
  }

  /** The main loop samples at the first point's abscissa plus whole steps
      of 1/200, so each sample sits less than one step right of `k / 200`. */
  lemma SampleOffset(ps: seq<Point>, k: int)
    requires WellFormed(ps) && ps != []
    ensures 0.0 <= SamplePos(ps, k) - k as real / MemoizePrecision as real < 1.0 / MemoizePrecision as real
  {
    var x0 := ps[0].x;
    assert RampEnd(ps) as real <= x0 * 200.0 < RampEnd(ps) as real + 1.0;
  }

  /** At `t = 0` the Catmull-Rom weights are (0, 1, 0, 0). */
  lemma BlendAtZero(a: real, b: real, c: real, d: real)
    ensures Blend(a, b, c, d, 0.0) == b
  {
  }

  /** A sample taken exactly at the abscissa of the window's left point
      reproduces that point's ordinate. */
  lemma SampleAtLeftPoint(ps: seq<Point>, j: int, i: real)
    requires 1 <= j <= |ps|
    requires i == ps[j - 1].x
    ensures SampleInWindow(ps, j, i) == ps[j - 1].y
  {
    var b := EnsureInBounds(ps, j - 1);
    var c := EnsureInBounds(ps, j);
    assert Param(b, c, i) == 0.0;
    BlendAtZero(EnsureInBounds(ps, j - 2).y, b.y, c.y, EnsureInBounds(ps, j + 1).y);
  }

  /** Knots are reproduced: the main-loop sample whose position equals a
      control point's abscissa holds that point's ordinate, provided no
      later point shares the abscissa (if one does, the last of them wins). */
  lemma KnotReproduced(ps: seq<Point>, m: nat, k: int)
    requires WellFormed(ps) && m < |ps|
    requires m == |ps| - 1 || ps[m].x < ps[m + 1].x
    requires RampEnd(ps) <= k < TableSize(ps)
    requires SamplePos(ps, k) == ps[m].x
    ensures Table(ps)[k] == ps[m].y
  {
    var i := SamplePos(ps, k);
    WindowExact(ps, i, 1, m + 1);
    SampleAtLeftPoint(ps, m + 1, i);
  }

  /** A control point whose distance from the first point is a whole number
      `d` of 1/200 steps is hit by the main loop at index `RampEnd + d`. */
  lemma KnotOnGrid(ps: seq<Point>, m: nat, d: nat)
    requires WellFormed(ps) && m < |ps|
    requires m == |ps| - 1 || ps[m].x < ps[m + 1].x
    requires d as real == (ps[m].x - ps[0].x) * MemoizePrecision as real
    ensures RampEnd(ps) + d < |Table(ps)|
    ensures Table(ps)[RampEnd(ps) + d] == ps[m].y
  {
    TableShape(ps);
    var k := RampEnd(ps) + d;
    var xl := ps[|ps| - 1].x;
    assert ps[m].x <= xl;
    assert RampEnd(ps) as real <= ps[0].x * 200.0;
    assert k as real <= ps[m].x * 200.0 <= xl * 200.0 < (Trunc(xl) as real + 1.0) * 200.0;
    assert SamplePos(ps, k) == ps[m].x;
    KnotReproduced(ps, m, k);
  }

  /** Once the sample position reaches the last point, every sample is the
      last point's ordinate: the curve is flat beyond its last point. */
  lemma FlatBeyondLast(ps: seq<Point>, k: int)
    requires WellFormed(ps) && ps != []
    requires RampEnd(ps) <= k < TableSize(ps)
    requires ps[|ps| - 1].x <= SamplePos(ps, k)
    ensures Table(ps)[k] == ps[|ps| - 1].y
  {
    var i := SamplePos(ps, k);
    WindowExact(ps, i, 1, |ps|);
    assert EnsureInBounds(ps, |ps|) == EnsureInBounds(ps, |ps| - 1);
    BlendAtZero(EnsureInBounds(ps, |ps| - 2).y, ps[|ps| - 1].y, ps[|ps| - 1].y,
                EnsureInBounds(ps, |ps| + 1).y);
  }

  /** Rebuilding from the rebuilt list gives the same list and table. */
  lemma ReloadIdempotent(ps: seq<Point>)
    requires NonNegative(ps)
    ensures WellFormed(SortByX(ps))
    ensures SortByX(SortByX(ps)) == SortByX(ps)
    ensures Table(SortByX(SortByX(ps))) == Table(SortByX(ps))
  {
    SortWellFormed(ps);
    SortIdempotent(ps);
  }

  // ---------------------------------------------------------------------
  // Lookups

  /** `getValueInternal` for an index inside, at or above the table, and
      for an empty table. */
  lemma LookupCases(t: seq<real>, x: int)
    requires 0 <= x <= MaxInt32
    ensures |t| == 0 ==> Lookup(t, x) == 0.0
    ensures x < |t| ==> Lookup(t, x) == t[x]
    ensures 0 < |t| <= x ==> Lookup(t, x) == t[|t| - 1]
  {
  }

  /** Negative indices mirror: the lookup is odd for every index whose
      negation is a 32-bit `int`. */
  lemma LookupOdd(t: seq<real>, n: int)
    requires 0 < n <= MaxInt32
    ensures Lookup(t, -n) == -Lookup(t, n)
  {
  }

  /** The one index whose negation overflows reads as 0, under the
      two's-complement result `Neg32` takes for it. */
  lemma LookupMinInt(t: seq<real>)
    ensures Lookup(t, MinInt32) == 0.0
  {
  }

  /** No points: every evaluation gives 0. */
  lemma EvaluateEmpty(x: real)
    requires Evaluable(x)
    ensures Evaluate([], x) == 0.0
  {
  }

  /** For non-negative `x` the result lies between the two samples it
      blends, since the blend factor is in [0, 1). */
  lemma EvaluateBetween(t: seq<real>, x: real)
    requires Evaluable(x) && 0.0 <= x
    ensures var first := Lookup(t, Trunc(x * MemoizePrecision as real));
      var second := Lookup(t, Ceil(x * MemoizePrecision as real));
      (first <= Evaluate(t, x) <= second) || (second <= Evaluate(t, x) <= first)
  {
    var first := Lookup(t, Trunc(x * MemoizePrecision as real));
    var second := Lookup(t, Ceil(x * MemoizePrecision as real));
    var f := x - Trunc(x) as real;
    var a := second - first;
    assert Evaluate(t, x) == first + a * f;
    ScaledBetween(a, f);
  }

  lemma ScaledBetween(a: real, f: real)
    requires 0.0 <= f <= 1.0
    ensures (0.0 <= a * f <= a) || (a <= a * f <= 0.0)
  {
    if 0.0 <= a {
      assert a * f <= a * 1.0;
    } else {
      assert a * 1.0 <= a * f;
    }
  }

  /** Off the grid, `getValue` is odd only up to the blend: for `x` at least
      one step from 0, `getValue(-x)` is minus the lower sample, while
      `getValue(x)` is moved from it toward the upper one by `frac(x)`, so
      the two differ in magnitude by at most the gap between the samples. */
  lemma EvaluateNearlyOdd(t: seq<real>, x: real)
    requires Evaluable(x) && 1.0 / MemoizePrecision as real <= x
    ensures Evaluable(-x)
    ensures var first := Lookup(t, Trunc(x * MemoizePrecision as real));
      var second := Lookup(t, Ceil(x * MemoizePrecision as real));
      var gap := Evaluate(t, -x) + Evaluate(t, x);
      Evaluate(t, -x) == -first &&
      ((0.0 <= gap <= second - first) || (second - first <= gap <= 0.0))
  {
    var r := x * MemoizePrecision as real;
    var n := Trunc(r);
    assert 1.0 <= r;
    assert -r == -x * MemoizePrecision as real;
    assert Trunc(-r) == -n && Ceil(-r) == -n;
    EvaluateNonPositive(t, -x);
    LookupOdd(t, n);
    EvaluateBetween(t, x);
  }

  /** Within one step left of 0 both casts give index 0, which is not
      negative and so is not mirrored: `getValue` returns the first sample
      with its own sign, and is not odd there unless that sample is 0. */
  lemma EvaluateNearZero(t: seq<real>, x: real)
    requires -1.0 / MemoizePrecision as real < x <= 0.0
    ensures Evaluable(x)
    ensures Evaluate(t, x) == Lookup(t, 0)
    ensures Lookup(t, 0) == if |t| == 0 then 0.0 else t[0]
  {
    var r := x * MemoizePrecision as real;
    assert -1.0 < r <= 0.0;
    assert Trunc(r) == 0 && Ceil(r) == 0;
  }

  /** For `x <= 0` both casts round toward zero to the same index, so there
      is no blending: the result is one mirrored sample. */
  lemma EvaluateNonPositive(t: seq<real>, x: real)
    requires Evaluable(x) && x <= 0.0
    ensures Evaluate(t, x) == Lookup(t, Trunc(x * MemoizePrecision as real))
  {
    TruncCeilAgree(x * MemoizePrecision as real);
  }

  /** On the sample grid (`200 * x` whole) the result is that sample. */
  lemma EvaluateOnGrid(t: seq<real>, x: real, n: int)
    requires Evaluable(x) && x * MemoizePrecision as real == n as real
    ensures Evaluate(t, x) == Lookup(t, n)
  {
    TruncCeilAgree(n as real);
  }

  /** On the sample grid, evaluation is odd. */
  lemma EvaluateOddOnGrid(t: seq<real>, x: real, n: int)
    requires 0 < n <= MaxInt32 && x * MemoizePrecision as real == n as real
    ensures Evaluable(x) && Evaluable(-x)
    ensures Evaluate(t, -x) == -Evaluate(t, x)
  {
    EvaluateOnGrid(t, x, n);
    EvaluateOnGrid(t, -x, -n);
    LookupOdd(t, n);
  }

  /** At or beyond the end of the table, evaluation clamps to the last
      sample. */
  lemma EvaluateClamped(t: seq<real>, x: real)
    requires Evaluable(x) && 0 < |t|
    requires |t| as real <= x * MemoizePrecision as real
    ensures Evaluate(t, x) == t[|t| - 1]
  {
  }

  // ---------------------------------------------------------------------
  // The two-point curve of the default settings

  /** The points (20, 80) and (40, 160): evaluation reproduces both knots,
      gives 0 at the origin and stays at 160 beyond the last point. */
  lemma TwoPointCurve()
    ensures WellFormed([Point(20.0, 80.0), Point(40.0, 160.0)])
    ensures var t := Table([Point(20.0, 80.0), Point(40.0, 160.0)]);
      |t| == 8200 &&
      Evaluate(t, 20.0) == 80.0 && Evaluate(t, 40.0) == 160.0 &&
      Evaluate(t, 0.0) == 0.0 && Evaluate(t, 60.0) == 160.0
  {
    var ps := [Point(20.0, 80.0), Point(40.0, 160.0)];
    assert WellFormed(ps);
    var t := Table(ps);
    TableShape(ps);
    assert RampEnd(ps) == 4000;
    KnotOnGrid(ps, 0, 0);
    KnotOnGrid(ps, 1, 4000);
    RampValues(ps, 0);
    FlatBeyondLast(ps, 8199);
    EvaluateOnGrid(t, 20.0, 4000);
    EvaluateOnGrid(t, 40.0, 8000);
    EvaluateOnGrid(t, 0.0, 0);
    EvaluateOnGrid(t, 60.0, 12000);
  }
}
