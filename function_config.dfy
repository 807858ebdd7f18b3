/** The response-curve object: control points kept sorted by abscissa, a
    memoization table rebuilt from them on every edit, and the lookups
    that answer from the table. Each public method is one atomic step;
    the lock that serialises them is not part of the model. */
module FunctionConfigModel {
  import opened Numeric
  import opened Points
  import opened Memo
  import opened Settings

  class FunctionConfig {
    const title: string
    var points: seq<Point>
    /** `_data`: null when there are no points. */
    var data: array?<real>
    var size: int
    /** The last input evaluated, with its output. */
    var lastValueTracked: Point
    var trackingActive: bool

    /** The object invariant every public method keeps: the points are
        sorted and non-negative, and the table is the one `reload` builds
        from them, size included. */
    ghost predicate Valid()
      reads this`points, this`data, this`size, data
    {
      WellFormed(points) &&
      (points == [] <==> data == null) &&
      size == TableSize(points) &&
      (data != null ==> data.Length == size && data[..] == Table(points))
    }

    /** Construction from a title and a list of points, which are sorted
        and memoized as by `reload`. */
    constructor (title: string, pts: seq<Point>)
      requires NonNegative(pts)
      ensures Valid()
      ensures this.title == title && points == SortByX(pts)
      ensures lastValueTracked == Origin && !trackingActive
    {
      this.title := title;
      points := [];
      data := null;
      size := 0;
      lastValueTracked := Origin;
      trackingActive := false;
      new;
      points := pts;
      Reload();
    }

    /** Construction from a title alone: `reload` on the empty list; the
        settings are not read. */
    constructor Titled(title: string)
      ensures Valid()
      ensures this.title == title && points == [] && data == null && size == 0
      ensures lastValueTracked == Origin && !trackingActive
    {
      this.title := title;
      points := [];
      data := null;
      size := 0;
      lastValueTracked := Origin;
      trackingActive := false;
      new;
      Reload();
    }

    /** `reload`: stable-sort the points, then allocate a fresh table and
        fill it with the linear ramp below the first point and the
        Catmull-Rom samples from there on. */
    method Reload()
      requires NonNegative(points)
      modifies this`points, this`data, this`size
      ensures points == SortByX(old(points))
      ensures Valid()
      ensures data != null ==> fresh(data)
    {
      size := 0;
      SortWellFormed(points);
      if |points| > 0 {
        points := SortByX(points);
      }
      data := null;
      if |points| > 0 {
        var a := NewTable(points);
        size := a.Length;
        data := a;
        assert data.Length == size && data[..] == Table(points);
      } else {
        assert TableSize(points) == 0;
      }
    }

    /** `getValueInternal`: the table lookup with sign mirroring and
        clamping, read from the array. */
    function ValueInternal(x: int): (r: real)
      reads this`points, this`data, this`size, data
      requires Valid() && FitsInt32(x)
      ensures r == Lookup(Table(points), x)
    {
      var sign := if x < 0 then -1.0 else 1.0;
      var idx := if x < 0 then Neg32(x) else x;
      var ret :=
        if data == null then 0.0
        else if size == 0 then 0.0
        else if idx < 0 then 0.0
        else if idx < size then data[idx]
        else data[size - 1];
      ret * sign
    }

    /** `getValue`: the blend of the samples at `(int)(200 x)` and
        `ceil(200 x)`; the input and result are recorded. */
    method GetValue(x: real) returns (ret: real)
      requires Valid() && Evaluable(x)
      modifies this`lastValueTracked
      ensures ret == Evaluate(Table(points), x)
      ensures lastValueTracked == Point(x, ret)
    {
      var x2 := Trunc(x * MemoizePrecision as real);
      var x3 := Ceil(x * MemoizePrecision as real);
      var first := ValueInternal(x2);
      var second := ValueInternal(x3);
      var t := x - Trunc(x) as real;
      ret := first + (second - first) * t;
      EvaluateUnfold(Table(points), x, first, second, t);
      lastValueTracked := Point(x, ret);
    }

    /** `getLastPoint`: the recorded point and the tracking flag. */
    method GetLastPoint() returns (point: Point, active: bool)
      ensures point == lastValueTracked && active == trackingActive
    {
      point := lastValueTracked;
      active := trackingActive;
    }

    /** `setTrackingActive`: only the flag changes. */
    method SetTrackingActive(active: bool)
      modifies this`trackingActive
      ensures trackingActive == active
    {
      trackingActive := active;
    }

    /** `getTitle`: the title given at construction, which nothing changes. */
    function GetTitle(): (r: string)
      ensures r == title
    {
      title
    }

    /** `removePoint`: delete the point at position `i` of the sorted list;
        the rest stays sorted, so the rebuild keeps their order. */
    method RemovePoint(i: int)
      requires Valid() && 0 <= i < |points|
      modifies this`points, this`data, this`size
      ensures Valid()
      ensures points == old(points)[..i] + old(points)[i + 1..]
      ensures data != null ==> fresh(data)
    {
      RemoveKeepsSorted(points, i);
      assert points == points[..i] + [points[i]] + points[i + 1..];
      var rest := points[..i] + points[i + 1..];
      forall m | 0 <= m < |rest| ensures 0.0 <= rest[m].x {
        assert rest[m] == points[if m < i then m else m + 1];
      }
      points := rest;
      Reload();
      SortedFixpoint(rest);
    }

    /** `addPoint`: append `pt` and rebuild. */
    method AddPoint(pt: Point)
      requires Valid() && 0.0 <= pt.x
      modifies this`points, this`data, this`size
      ensures Valid()
      ensures points == SortByX(old(points) + [pt])
      ensures multiset(points) == multiset(old(points)) + multiset{pt}
      ensures data != null ==> fresh(data)
    {
      points := points + [pt];
      Reload();
      SortPermutes(old(points) + [pt]);
    }

    /** `movePoint`: replace the point at position `idx` by `pt` and
        rebuild. */
    method MovePoint(idx: int, pt: Point)
      requires Valid() && 0 <= idx < |points| && 0.0 <= pt.x
      modifies this`points, this`data, this`size
      ensures Valid()
      ensures points == SortByX(old(points)[idx := pt])
      ensures multiset(points) == multiset(old(points)) - multiset{old(points)[idx]} + multiset{pt}
      ensures data != null ==> fresh(data)
    {
      ghost var before := points;
      var moved := points[idx := pt];
      points := moved;
      Reload();
      SortPermutes(moved);
      ReplacePermutes(before, idx, pt);
    }

    /** `getPoints`: a copy of the current list, element by element. */
    method GetPoints() returns (ret: seq<Point>)
      ensures ret == points
    {
      ret := [];
      var i := 0;
      while i < |points|
        invariant 0 <= i <= |points|
        invariant ret == points[..i]
      {
        ret := ret + [points[i]];
        i := i + 1;
      }
    }

    /** `loadSettings`: read the point list from the store, then replace
        the points and rebuild. */
    method LoadSettings(settings: Store)
      requires NonNegative(Loaded(settings))
      modifies this`points, this`data, this`size
      ensures Valid()
      ensures points == SortByX(Loaded(settings))
      ensures data != null ==> fresh(data)
    {
      var max := PointCount(settings);
      var pts: seq<Point> := [];
      var i := 0;
      while i < max
        invariant 0 <= i <= |Loaded(settings)|
        invariant pts == Loaded(settings)[..i]
      {
        pts := pts + [Point(ReadDouble(settings, X(i), (i + 1) as real * 20.0),
                            ReadDouble(settings, Y(i), (i + 1) as real * 80.0))];
        i := i + 1;
      }
      assert pts == Loaded(settings);
      points := pts;
      Reload();
    }

    /** `saveSettings`: write the count and every pair; the object is not
        changed. */
    method SaveSettings(settings: Store) returns (out: Store)
      ensures out == Saved(settings, points)
    {
      out := settings[Count := Int(|points|)];
      var i := 0;
      while i < |points|
        invariant 0 <= i <= |points|
        invariant SavePairs(out, points, i) == Saved(settings, points)
      {
        out := out[X(i) := Real(points[i].x)][Y(i) := Real(points[i].y)];
        i := i + 1;
      }
    }
  }

  /** The allocation and the two loops of `reload`: a fresh array of
      `200 * (trunc(last.x) + 1)` entries holding the table. */
  method NewTable(ps: seq<Point>) returns (a: array<real>)
    requires WellFormed(ps) && ps != []
    ensures fresh(a)
    ensures a.Length == TableSize(ps) && a[..] == Table(ps)
  {
    a := new real[MemoizePrecision * (Trunc(ps[|ps| - 1].x) + 1)];
    FillRamp(a, ps);
    FillCurve(a, ps);
    TableFromSamples(ps, a[..]);
  }

  /** The first loop of `reload`: the ramp from 0 up to the first point,
      over the indices below `(int)(first.x * 200)`. */
  method FillRamp(a: array<real>, ps: seq<Point>)
    requires WellFormed(ps) && ps != [] && a.Length == TableSize(ps)
    modifies a
    ensures forall m :: 0 <= m < RampEnd(ps) ==> a[m] == Sample(ps, m)
    ensures forall m :: RampEnd(ps) <= m < a.Length ==> a[m] == old(a[m])
  {
    TableShape(ps);
    var k0 := Trunc(ps[0].x * MemoizePrecision as real);
    var k := 0;
    while k < k0
      invariant 0 <= k <= k0
      invariant forall m :: 0 <= m < k ==> a[m] == Sample(ps, m)
      invariant forall m :: k0 <= m < a.Length ==> a[m] == old(a[m])
    {
      a[k] := ps[0].y * k as real / k0 as real;
      k := k + 1;
    }
  }

  /** The main loop of `reload`: from the first point's index to the end
      of the table, advance the window pointer `j` past every point at or
      left of the position `i`, then store the blend around it. */
  method FillCurve(a: array<real>, ps: seq<Point>)
    requires WellFormed(ps) && ps != [] && a.Length == TableSize(ps)
    modifies a
    ensures forall m :: 0 <= m < RampEnd(ps) ==> a[m] == old(a[m])
    ensures forall m :: RampEnd(ps) <= m < a.Length ==> a[m] == Sample(ps, m)
  {
    TableShape(ps);
    var n := a.Length;
    var j := 1;
    var i := ps[0].x;
    var k := Trunc(ps[0].x * MemoizePrecision as real);
    while k < n
      invariant RampEnd(ps) <= k <= n
      invariant i == SamplePos(ps, k)
      invariant 1 <= j <= Window(ps, i, 1)
      invariant forall m :: 0 <= m < RampEnd(ps) ==> a[m] == old(a[m])
      invariant forall m :: RampEnd(ps) <= m < k ==> a[m] == Sample(ps, m)
    {
      j := AdvanceWindow(ps, i, j);
      var v := SampleInWindow(ps, j, i);
      assert v == Sample(ps, k);
      a[k] := v;
      var next := i + 1.0 / MemoizePrecision as real;
      SamplePosStep(ps, k);
      WindowMono(ps, i, next, 1);
      k := k + 1;
      i := next;
    }
  }

  /** The inner `while` of `reload`: moves the pointer `j` past every point
      at or left of `i`, resuming where the previous sample left it. */
  method AdvanceWindow(ps: seq<Point>, i: real, j0: nat) returns (j: nat)
    requires 1 <= |ps| && 1 <= j0 <= Window(ps, i, 1)
    ensures j == Window(ps, i, 1)
  {
    WindowSkip(ps, i, 1, j0);
    j := j0;
    while j < |ps| && ps[j].x <= i
      invariant j0 <= j <= |ps|
      invariant Window(ps, i, j) == Window(ps, i, 1)
    {
      j := j + 1;
    }
  }

  /** A curve built from any non-negative points answers `getValue` from
      the table of its sorted points, and with tracking switched on,
      `getLastPoint` reports that call. */
  method TrackedValue(pts: seq<Point>, x: real) returns (y: real, tracked: Point, active: bool)
    requires NonNegative(pts) && Evaluable(x)
    ensures WellFormed(SortByX(pts))
    ensures y == Evaluate(Table(SortByX(pts)), x)
    ensures tracked == Point(x, y) && active
  {
    SortWellFormed(pts);
    var f := new FunctionConfig("", pts);
    y := f.GetValue(x);
    f.SetTrackingActive(true);
    tracked, active := f.GetLastPoint();
  }

  /** Saving a curve, deleting one of its points and loading the saved
      settings back restores the curve. */
  method SaveEditLoad(pts: seq<Point>, i: int) returns (restored: seq<Point>)
    requires NonNegative(pts) && 0 <= i < |pts|
    ensures restored == SortByX(pts)
  {
    var f := new FunctionConfig("", pts);
    SortPermutes(pts);
    assert |f.points| == |multiset(f.points)| == |pts|;
    var saved := f.SaveSettings(map[]);
    SaveLoadRoundTrip(map[], f.points);
    f.RemovePoint(i);
    f.LoadSettings(saved);
    ReloadIdempotent(pts);
    restored := f.GetPoints();
  }
}
