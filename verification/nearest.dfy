/** The nearest-feature distance of one pixel (lines 87-94): the distances
    to all tiled points are collected, sorted with `std::sort`, and the first
    one is taken. */
module Nearest {
  import opened Geometry

  /** `distances`: the truncated distance from `p` to each point, in order. */
  function Distances(p: Point, pts: seq<Point>): (ds: seq<nat>)
    ensures |ds| == |pts|
    ensures forall j :: 0 <= j < |pts| ==> ds[j] == Distance(p, pts[j])
  {
    if pts == [] then [] else [Distance(p, pts[0])] + Distances(p, pts[1..])
  }

  predicate Sorted(s: seq<int>) {
    forall i, j :: 0 <= i < j < |s| ==> s[i] <= s[j]
  }

  /** `x` placed into the sorted sequence `s`. */
  function Insert(x: int, s: seq<int>): (r: seq<int>)
    requires Sorted(s)
    ensures Sorted(r)
    ensures multiset(r) == multiset(s) + multiset{x}
    ensures |r| == |s| + 1 && (r[0] == x || (|s| > 0 && r[0] == s[0]))
  {
    if s == [] || x <= s[0] then [x] + s
    else
      var t := Insert(x, s[1..]);
      InsertBehindHead(x, s, t);
      [s[0]] + t
  }

  /** The step of `Insert` past a head smaller than `x`: `t`, the insertion
      of `x` into the tail, goes behind the head. */
  lemma InsertBehindHead(x: int, s: seq<int>, t: seq<int>)
    requires Sorted(s) && |s| > 0 && s[0] < x
    requires Sorted(t) && multiset(t) == multiset(s[1..]) + multiset{x}
    requires |t| == |s| && (t[0] == x || (|s| > 1 && t[0] == s[1]))
    ensures Sorted([s[0]] + t)
    ensures multiset([s[0]] + t) == multiset(s) + multiset{x}
  {
    assert s == [s[0]] + s[1..];
    SortedCons(s[0], t);
  }

  /** A value no larger than the head of a sorted sequence extends it. */
  lemma SortedCons(a: int, t: seq<int>)
    requires Sorted(t) && (|t| > 0 ==> a <= t[0])
    ensures Sorted([a] + t)
  {
  }

  /** An ascending rearrangement of `s`: the effect of `std::sort` with the
      default `<` on the values. */
  function Sort(s: seq<int>): (r: seq<int>)
    ensures Sorted(r)
    ensures multiset(r) == multiset(s)
  {
    if s == [] then []
    else
      assert s == [s[0]] + s[1..];
      Insert(s[0], Sort(s[1..]))
  }

  /** The least element, found by a plain scan. */
  function Minimum(s: seq<int>): (m: int)
    requires |s| > 0
    ensures m in s
    ensures forall k :: 0 <= k < |s| ==> m <= s[k]
  {
    if |s| == 1 then s[0]
    else
      var m := Minimum(s[1..]);
      assert m in s;
      if s[0] <= m then s[0] else m
  }

  /** Sorting and taking the first element is the same as taking the minimum. */
  lemma SortedHeadIsMinimum(s: seq<int>)
    requires |s| > 0
    ensures |Sort(s)| == |s| && Sort(s)[0] == Minimum(s)
  {
    var r := Sort(s);
    assert |r| == |multiset(r)| == |multiset(s)| == |s|;
    var m := Minimum(s);
    assert r[0] in multiset(s);
    assert m in multiset(r);
    var k :| 0 <= k < |r| && r[k] == m;
    assert r[0] <= r[k];
  }

  /** `distances[0]` after the sort: the least truncated distance from `p` to
      any of the points, attained by one of them. */
  function NearestDistance(p: Point, pts: seq<Point>): (d: nat)
    requires |pts| > 0
    ensures exists j :: 0 <= j < |pts| && d == Distance(p, pts[j])
    ensures forall j :: 0 <= j < |pts| ==> d <= Distance(p, pts[j])
  {
    var ds := Distances(p, pts);
    SortedHeadIsMinimum(ds);
    var m := Minimum(ds);
    assert exists j :: 0 <= j < |pts| && ds[j] == m;
    Sort(ds)[0]
  }

  /** The nearest distance is 0 exactly on a feature point. */
  lemma NearestDistanceZero(p: Point, pts: seq<Point>)
    requires |pts| > 0
    ensures NearestDistance(p, pts) == 0 <==> p in pts
  {
    var d := NearestDistance(p, pts);
    if p in pts {
      var j :| 0 <= j < |pts| && pts[j] == p;
      assert d <= Distance(p, pts[j]) == 0;
    }
    if d == 0 {
      var j :| 0 <= j < |pts| && d == Distance(p, pts[j]);
      assert pts[j] == p;
    }
  }
}
