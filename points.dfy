/** Control points and the stable sort by abscissa that `reload` applies
    to them (`qStableSort` with the comparator `sortFn`). */
module Points {

  /** A control point (`QPointF`): input position `x`, output value `y`. */
  datatype Point = Point(x: real, y: real)

  const Origin: Point := Point(0.0, 0.0)

  /** The comparator handed to the stable sort: strictly smaller abscissa. */
  predicate SortFn(one: Point, two: Point) {
    one.x < two.x
  }

  predicate Sorted(ps: seq<Point>) {
    forall i, j :: 0 <= i < j < |ps| ==> ps[i].x <= ps[j].x
  }

  predicate NonNegative(ps: seq<Point>) {
    forall i :: 0 <= i < |ps| ==> 0.0 <= ps[i].x
  }

  /** Inserts `p` into `s` just before the trailing run of points that
      sort strictly after it, so `p` lands behind every point with an
      equal abscissa: the step of a stable insertion sort. */
  function Insert(s: seq<Point>, p: Point): (r: seq<Point>)
    ensures |r| == |s| + 1
    decreases |s|
  {
    if s == [] || !SortFn(p, s[|s| - 1]) then s + [p]
    else Insert(s[..|s| - 1], p) + [s[|s| - 1]]
  }

  /** The sequence the stable sort produces from `ps`. Any stable sort by
      the same comparator produces the same sequence (`StableSortUnique`). */
  function SortByX(ps: seq<Point>): (r: seq<Point>)
    ensures |r| == |ps|
    decreases |ps|
  {
    if ps == [] then [] else Insert(SortByX(ps[..|ps| - 1]), ps[|ps| - 1])
  }

  /** The subsequence of the points of `s` whose abscissa is `v`, in their
      order in `s`. A rearrangement is stable when it keeps every such run. */
  function KeyRun(s: seq<Point>, v: real): seq<Point>
    decreases |s|
  {
    if s == [] then []
    else KeyRun(s[..|s| - 1], v) + (if s[|s| - 1].x == v then [s[|s| - 1]] else [])
  }

  lemma {:induction false} InsertPermutes(s: seq<Point>, p: Point)
    ensures multiset(Insert(s, p)) == multiset(s) + multiset{p}
    decreases |s|
  {
    if s == [] || !SortFn(p, s[|s| - 1]) {
    } else {
      var init, last := s[..|s| - 1], s[|s| - 1];
      InsertPermutes(init, p);
      assert s == init + [last];
    }
  }

  lemma {:induction false} InsertSorted(s: seq<Point>, p: Point)
    requires Sorted(s)
    ensures Sorted(Insert(s, p))
    decreases |s|
  {
    if s == [] || !SortFn(p, s[|s| - 1]) {
    } else {
      var init, last := s[..|s| - 1], s[|s| - 1];
      InsertSorted(init, p);
      InsertPermutes(init, p);
      var r := Insert(init, p);
      forall i | 0 <= i < |r| ensures r[i].x <= last.x {
        assert r[i] in multiset(r);
        assert r[i] in multiset(init) || r[i] == p;
      }
    }
  }

  /** The sort returns its input rearranged: the same multiset of points. */
  lemma {:induction false} SortPermutes(ps: seq<Point>)
    ensures multiset(SortByX(ps)) == multiset(ps)
    decreases |ps|
  {
    if ps != [] {
      var init, last := ps[..|ps| - 1], ps[|ps| - 1];
      SortPermutes(init);
      InsertPermutes(SortByX(init), last);
      assert ps == init + [last];
    }
  }

  /** The sort returns its input ascending by abscissa. */
  lemma {:induction false} SortSorted(ps: seq<Point>)
    ensures Sorted(SortByX(ps))
    decreases |ps|
  {
    if ps != [] {
      SortSorted(ps[..|ps| - 1]);
      InsertSorted(SortByX(ps[..|ps| - 1]), ps[|ps| - 1]);
    }
  }

  lemma KeyRunSnoc(s: seq<Point>, e: Point, v: real)
    ensures KeyRun(s + [e], v) == KeyRun(s, v) + (if e.x == v then [e] else [])
  {
    assert (s + [e])[..|s|] == s;
  }

  lemma {:induction false} InsertKeepsRuns(s: seq<Point>, p: Point, v: real)
    ensures KeyRun(Insert(s, p), v) == KeyRun(s, v) + (if p.x == v then [p] else [])
    decreases |s|
  {
    if s == [] || !SortFn(p, s[|s| - 1]) {
      KeyRunSnoc(s, p, v);
    } else {
      var init, last := s[..|s| - 1], s[|s| - 1];
      InsertKeepsRuns(init, p, v);
      KeyRunSnoc(Insert(init, p), last, v);
      KeyRunSnoc(init, last, v);
      assert s == init + [last];
    }
  }

  /** The sort is stable: for every abscissa, the points with that abscissa
      keep their relative order. */
  lemma {:induction false} SortStable(ps: seq<Point>, v: real)
    ensures KeyRun(SortByX(ps), v) == KeyRun(ps, v)
    decreases |ps|
  {
    if ps != [] {
      var init, last := ps[..|ps| - 1], ps[|ps| - 1];
      SortStable(init, v);
      InsertKeepsRuns(SortByX(init), last, v);
      KeyRunSnoc(init, last, v);
      assert ps == init + [last];
    }
  }

  /** Sorting an already sorted list changes nothing; in particular the
      sort is idempotent. */
  lemma {:induction false} SortedFixpoint(ps: seq<Point>)
    requires Sorted(ps)
    ensures SortByX(ps) == ps
    decreases |ps|
  {
    if ps != [] {
      SortedPrefix(ps, |ps| - 1);
      SortedFixpoint(ps[..|ps| - 1]);
      if 1 < |ps| {
        assert ps[|ps| - 2].x <= ps[|ps| - 1].x;
      }
      FixpointStep(ps);
    }
  }

  /** The last step of `SortByX` leaves `ps` alone when its prefix is
      already a fixpoint and its last point sorts after the one before. */
  lemma FixpointStep(ps: seq<Point>)
    requires ps != [] && SortByX(ps[..|ps| - 1]) == ps[..|ps| - 1]
    requires 1 < |ps| ==> ps[|ps| - 2].x <= ps[|ps| - 1].x
    ensures SortByX(ps) == ps
  {
    var init, last := ps[..|ps| - 1], ps[|ps| - 1];
    assert SortByX(ps) == Insert(init, last);
    InsertAtEnd(init, last);
    assert ps == init + [last];
  }

  lemma InsertAtEnd(s: seq<Point>, p: Point)
    requires s == [] || s[|s| - 1].x <= p.x
    ensures Insert(s, p) == s + [p]
  {
  }

  lemma SortedPrefix(ps: seq<Point>, n: int)
    requires Sorted(ps) && 0 <= n <= |ps|
    ensures Sorted(ps[..n])
  {
    var q := ps[..n];
    forall i, j | 0 <= i < j < |q| ensures q[i].x <= q[j].x {
      assert q[i] == ps[i] && q[j] == ps[j];
    }
  }

  lemma SortIdempotent(ps: seq<Point>)
    ensures SortByX(SortByX(ps)) == SortByX(ps)
  {
    SortSorted(ps);
    SortedFixpoint(SortByX(ps));
  }

  /** Deleting one point from a sorted list leaves it sorted. */
  lemma RemoveKeepsSorted(ps: seq<Point>, i: int)
    requires Sorted(ps) && 0 <= i < |ps|
    ensures Sorted(ps[..i] + ps[i + 1..])
  {
    var r := ps[..i] + ps[i + 1..];
    forall a, b | 0 <= a < b < |r| ensures r[a].x <= r[b].x {
      var a' := if a < i then a else a + 1;
      var b' := if b < i then b else b + 1;
      assert r[a] == ps[a'] && r[b] == ps[b'];
    }
  }

  /** Replacing one point removes it from the multiset and adds the new one. */
  lemma ReplacePermutes(s: seq<Point>, i: int, p: Point)
    requires 0 <= i < |s|
    ensures multiset(s[i := p]) == multiset(s) - multiset{s[i]} + multiset{p}
  {
    assert s == s[..i] + [s[i]] + s[i + 1..];
    assert s[i := p] == s[..i] + [p] + s[i + 1..];
  }

  lemma NonNegativeRearranged(ps: seq<Point>, qs: seq<Point>)
    requires NonNegative(ps) && multiset(qs) == multiset(ps)
    ensures NonNegative(qs)
  {
    forall i | 0 <= i < |qs| ensures 0.0 <= qs[i].x {
      assert qs[i] in multiset(ps);
      var m :| 0 <= m < |ps| && ps[m] == qs[i];
    }
  }

  lemma KeyRunPresent(s: seq<Point>, v: real)
    ensures KeyRun(s, v) != [] <==> exists i :: 0 <= i < |s| && s[i].x == v
    decreases |s|
  {
    if s != [] {
      var init := s[..|s| - 1];
      KeyRunPresent(init, v);
      if exists i :: 0 <= i < |init| && init[i].x == v {
        var i :| 0 <= i < |init| && init[i].x == v;
        assert s[i].x == v;
      }
      if exists i :: 0 <= i < |s| && s[i].x == v {
        var i :| 0 <= i < |s| && s[i].x == v;
        if i < |init| { assert init[i].x == v; }
      }
    }
  }

  /** Two sorted lists with the same run of points for every abscissa are
      the same list. */
  lemma {:induction false} SortedRunsDetermine(r: seq<Point>, s: seq<Point>)
    requires Sorted(r) && Sorted(s)
    requires forall v :: KeyRun(r, v) == KeyRun(s, v)
    ensures r == s
    decreases |r| + |s|
  {
    if r == [] || s == [] {
      // A point of the non-empty list would have a run the other lacks.
      var v := if r != [] then r[0].x else if s != [] then s[0].x else 0.0;
      KeyRunPresent(r, v);
      KeyRunPresent(s, v);
    } else {
      SameLast(r, s);
      PrefixRuns(r, s, r[..|r| - 1], s[..|s| - 1]);
      SortedPrefix(r, |r| - 1);
      SortedPrefix(s, |s| - 1);
      SortedRunsDetermine(r[..|r| - 1], s[..|s| - 1]);
      assert r == r[..|r| - 1] + [r[|r| - 1]];
      assert s == s[..|s| - 1] + [s[|s| - 1]];
    }
  }

  /** Two sorted lists with the same runs end with the same point: both
      end with their greatest abscissa, which they share, and the last
      point of that run in each list is the list's last point. */
  lemma SameLast(r: seq<Point>, s: seq<Point>)
    requires Sorted(r) && Sorted(s) && r != [] && s != []
    requires forall v :: KeyRun(r, v) == KeyRun(s, v)
    ensures r[|r| - 1] == s[|s| - 1]
  {
    var rl, sl := r[|r| - 1], s[|s| - 1];
    LastAtMost(r, s);
    LastAtMost(s, r);
    LastOfRun(r, rl.x);
    LastOfRun(s, rl.x);
    assert KeyRun(r, rl.x) == KeyRun(s, rl.x);
  }

  /** The run of the last point's abscissa ends with that point. */
  lemma LastOfRun(s: seq<Point>, v: real)
    requires s != [] && s[|s| - 1].x == v
    ensures KeyRun(s, v) != [] && KeyRun(s, v)[|KeyRun(s, v)| - 1] == s[|s| - 1]
  {
  }

  /** Every abscissa of `s` occurs in `r`, so it is at most the last
      abscissa of the sorted `r`. */
  lemma LastAtMost(r: seq<Point>, s: seq<Point>)
    requires Sorted(r) && r != [] && s != []
    requires forall v :: KeyRun(r, v) == KeyRun(s, v)
    ensures s[|s| - 1].x <= r[|r| - 1].x
  {
    var v := s[|s| - 1].x;
    KeyRunPresent(s, v);
    assert KeyRun(r, v) == KeyRun(s, v);
    KeyRunPresent(r, v);
    var i :| 0 <= i < |r| && r[i].x == v;
    assert i == |r| - 1 || r[i].x <= r[|r| - 1].x;
  }

  /** Dropping the same last point from two lists with the same runs leaves
      lists with the same runs. */
  lemma PrefixRuns(r: seq<Point>, s: seq<Point>, ri: seq<Point>, si: seq<Point>)
    requires r != [] && s != [] && r[|r| - 1] == s[|s| - 1]
    requires ri == r[..|r| - 1] && si == s[..|s| - 1]
    requires forall v :: KeyRun(r, v) == KeyRun(s, v)
    ensures forall v :: KeyRun(ri, v) == KeyRun(si, v)
  {
    var last := r[|r| - 1];
    forall v ensures KeyRun(ri, v) == KeyRun(si, v) {
      assert KeyRun(r, v) == KeyRun(s, v);
      if v == last.x {
        assert KeyRun(ri, v) == KeyRun(r, v)[..|KeyRun(r, v)| - 1];
        assert KeyRun(si, v) == KeyRun(s, v)[..|KeyRun(s, v)| - 1];
      } else {
        assert KeyRun(r, v) == KeyRun(ri, v);
        assert KeyRun(s, v) == KeyRun(si, v);
      }
    }
  }

  /** Any sorted, stable rearrangement of `ps` is `SortByX(ps)`: the model
      of `qStableSort` does not depend on which stable algorithm is used. */
  lemma StableSortUnique(ps: seq<Point>, r: seq<Point>)
    requires Sorted(r)
    requires forall v :: KeyRun(r, v) == KeyRun(ps, v)
    ensures r == SortByX(ps)
  {
    SortSorted(ps);
    forall v ensures KeyRun(r, v) == KeyRun(SortByX(ps), v) {
      SortStable(ps, v);
    }
    SortedRunsDetermine(r, SortByX(ps));
  }
}
