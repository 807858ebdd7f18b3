/** The key/value contract of the settings group a curve is stored in:
    `point-count` and one `x`/`y` pair per point. The group name and the
    key spellings are not modelled, only which key holds what. */
module Settings {
  import opened Numeric
  import opened Points

  /** `point-count`, `point-<i>-x` and `point-<i>-y`. */
  datatype Key = Count | X(i: int) | Y(i: int)

  /** A stored value: the count is written as an integer, the
      coordinates as doubles. */
  datatype Value = Int(n: int) | Real(r: real)

  type Store = map<Key, Value>

  /** `toInt()` of a stored value. */
  function ToInt(v: Value): int {
    match v
    case Int(n) => n
    case Real(r) => Trunc(r)
  }

  /** `toDouble()` of a stored value. */
  function ToDouble(v: Value): real {
    match v
    case Int(n) => n as real
    case Real(r) => r
  }

  /** `settings.value(key, default)`: the stored value, or the default
      when the key is absent. */
  function ReadInt(s: Store, k: Key, default: int): int {
    if k in s then ToInt(s[k]) else default
  }

  function ReadDouble(s: Store, k: Key, default: real): real {
    if k in s then ToDouble(s[k]) else default
  }

  /** The number of points `loadSettings` reads: `point-count`, 2 when
      absent; a negative count reads no points. */
  function PointCount(s: Store): int {
    ReadInt(s, Count, 2)
  }

  /** The point `loadSettings` reads at position `i`, with the defaults
      `(i + 1) * 20` and `(i + 1) * 80`. */
  function LoadedPoint(s: Store, i: int): Point {
    Point(ReadDouble(s, X(i), (i + 1) as real * 20.0),
          ReadDouble(s, Y(i), (i + 1) as real * 80.0))
  }

  /** The list `loadSettings` builds from a store. */
  function Loaded(s: Store): (ps: seq<Point>)
    ensures |ps| == if PointCount(s) < 0 then 0 else PointCount(s)
    ensures forall i :: 0 <= i < |ps| ==> ps[i] == LoadedPoint(s, i)
  {
    seq(if PointCount(s) < 0 then 0 else PointCount(s), i => LoadedPoint(s, i))
  }

  /** The pair writes of `saveSettings` for the points from `i` on. */
  function SavePairs(s: Store, ps: seq<Point>, i: nat): Store
    decreases |ps| - i
  {
    if i >= |ps| then s
    else SavePairs(s[X(i) := Real(ps[i].x)][Y(i) := Real(ps[i].y)], ps, i + 1)
  }

  /** The store after `saveSettings`: the count first, then every pair. */
  function Saved(s: Store, ps: seq<Point>): Store {
    SavePairs(s[Count := Int(|ps|)], ps, 0)
  }

  /** A key some write of `SavePairs(_, ps, i)` touches. */
  predicate PairKey(k: Key, n: int, i: int) {
    (k.X? && i <= k.i < n) || (k.Y? && i <= k.i < n)
  }

  lemma {:induction false} SavePairsLookup(s: Store, ps: seq<Point>, i: nat)
    ensures var r := SavePairs(s, ps, i);
      (forall m :: i <= m < |ps| ==> X(m) in r && r[X(m)] == Real(ps[m].x)) &&
      (forall m :: i <= m < |ps| ==> Y(m) in r && r[Y(m)] == Real(ps[m].y)) &&
      (forall k :: k in s && !PairKey(k, |ps|, i) ==> k in r && r[k] == s[k]) &&
      (forall k :: k in r ==> k in s || PairKey(k, |ps|, i))
    decreases |ps| - i
  {
    if i < |ps| {
      SavePairsLookup(s[X(i) := Real(ps[i].x)][Y(i) := Real(ps[i].y)], ps, i + 1);
    }
  }

  /** What `saveSettings` leaves in the store: `point-count` is the number
      of points, every pair is written, and every other key keeps its value. */
  lemma SavedLookup(s: Store, ps: seq<Point>)
    ensures var r := Saved(s, ps);
      Count in r && r[Count] == Int(|ps|) &&
      (forall m :: 0 <= m < |ps| ==> X(m) in r && r[X(m)] == Real(ps[m].x)) &&
      (forall m :: 0 <= m < |ps| ==> Y(m) in r && r[Y(m)] == Real(ps[m].y)) &&
      (forall k :: k in s && k != Count && !PairKey(k, |ps|, 0) ==> k in r && r[k] == s[k]) &&
      (forall k :: k in r ==> k in s || k == Count || PairKey(k, |ps|, 0))
  {
    SavePairsLookup(s[Count := Int(|ps|)], ps, 0);
  }

  /** Loading what was just saved gives back the same point list, whatever
      the store held before. */
  lemma SaveLoadRoundTrip(s: Store, ps: seq<Point>)
    ensures Loaded(Saved(s, ps)) == ps
  {
    SavedLookup(s, ps);
    var r := Saved(s, ps);
    assert PointCount(r) == |ps|;
    forall i | 0 <= i < |ps| ensures Loaded(r)[i] == ps[i] {
      assert LoadedPoint(r, i) == Point(ps[i].x, ps[i].y);
    }
  }

  /** An empty store gives the default curve of two points. */
  lemma DefaultCurve()
    ensures Loaded(map[]) == [Point(20.0, 80.0), Point(40.0, 160.0)]
  {
    var ps := Loaded(map[]);
    assert |ps| == 2;
    assert ps[0] == LoadedPoint(map[], 0);
    assert ps[1] == LoadedPoint(map[], 1);
  }
}
