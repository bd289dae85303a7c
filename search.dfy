/** Candidate search over the x-sorted vertex index: `bin_search` and the growing-window scan
    `get_possible_line` (main.py:37-65). */
module Search {
  import opened Wrappers
  import opened GeomDist
  import opened Index

  // ---------------------------------------------------------------------------
  // bin_search
  // ---------------------------------------------------------------------------

  /** The reference answer of `bin_search` (on the x key): the last index from 1 on whose key
      is at most `x`, and 0 when there is none. */
  function LastAtMost(a: seq<Vertex>, x: real): (l: nat)
    ensures |a| == 0 ==> l == 0
    ensures |a| > 0 ==> l < |a|
    decreases |a|
  {
    if |a| <= 1 then 0
    else if a[|a| - 1].x <= x then |a| - 1
    else LastAtMost(a[..|a| - 1], x)
  }

  /** On any list the reference index has a key at most `x` (unless it is 0) and every later
      key is larger than `x`. */
  lemma {:induction false} LastAtMostBoundary(a: seq<Vertex>, x: real)
    requires |a| > 0
    ensures LastAtMost(a, x) == 0 || a[LastAtMost(a, x)].x <= x
    ensures forall j :: LastAtMost(a, x) < j < |a| ==> a[j].x > x
    decreases |a|
  {
    if |a| > 1 && a[|a| - 1].x > x {
      var init := a[..|a| - 1];
      LastAtMostBoundary(init, x);
      assert forall j :: 0 <= j < |init| ==> init[j] == a[j];
    }
  }

  /** On a sorted list the reference index is the largest index whose key is at most `x` when
      the first key is, and 0 when every key is larger than `x`. */
  lemma LastAtMostSorted(a: seq<Vertex>, x: real)
    requires SortedByX(a) && |a| > 0
    ensures a[0].x <= x ==> forall j :: 0 <= j <= LastAtMost(a, x) ==> a[j].x <= x
    ensures x < a[0].x ==> LastAtMost(a, x) == 0
  {
    LastAtMostBoundary(a, x);
  }

  /** On a sorted list, an index with a key at most `x` (or 0) followed by a larger key (or the
      end) is the reference index. */
  lemma LastAtMostUnique(a: seq<Vertex>, x: real, l: nat)
    requires SortedByX(a) && l < |a|
    requires l == 0 || a[l].x <= x
    requires l + 1 == |a| || a[l + 1].x > x
    ensures l == LastAtMost(a, x)
  {
    LastAtMostBoundary(a, x);
  }

  /** `bin_search(a, x, 0)`: halves `[l, r)` until one index is left; `l` always has a key
      at most `x` (or is 0) and `r` a key larger than `x` (or is the end). */
  method BinSearch(a: seq<Vertex>, x: real) returns (l: nat)
    ensures |a| == 0 ==> l == 0
    ensures |a| > 0 ==> l < |a| && (l == 0 || a[l].x <= x) && (l + 1 == |a| || a[l + 1].x > x)
    ensures SortedByX(a) ==> l == LastAtMost(a, x)
  {
    l := 0;
    var r := |a|;
    while r - l > 1
      invariant 0 <= l <= r <= |a|
      invariant |a| > 0 ==> l < r
      invariant l == 0 || a[l].x <= x
      invariant r == |a| || a[r].x > x
      decreases r - l
    {
      var mid := l + (r - l) / 2;
      if a[mid].x <= x {
        l := mid;
      } else {
        r := mid;
      }
    }
    if SortedByX(a) && |a| > 0 {
      LastAtMostUnique(a, x, l);
    }
  }

  // ---------------------------------------------------------------------------
  // The radii that are scanned
  // ---------------------------------------------------------------------------

  /** Python's `int()` of a float: truncation toward zero. */
  function Trunc(v: real): (n: int)
    ensures v >= 0.0 ==> n as real <= v < n as real + 1.0
    ensures v < 0.0 ==> n as real - 1.0 < v <= n as real
  {
    if v >= 0.0 then v.Floor else -((-v).Floor)
  }

  /** `range(10, int(eps + 1), 10)` reaches a radius exactly when the radius is at most `eps`:
      the scan covers the radii 10, 20, ... up to `eps`, and none at all when `eps < 10`. */
  lemma ScannedRadii(eps: real, d: nat)
    ensures d < Trunc(eps + 1.0) <==> d as real <= eps
  {
  }

  // ---------------------------------------------------------------------------
  // get_possible_line
  // ---------------------------------------------------------------------------

  /** The ids of the index entries in `[lo, hi)` within `eps` of `p`. */
  function MatchIds(a: seq<Vertex>, p: Point, eps: real, dist: (Point, Point) -> real, lo: nat, hi: nat): set<int>
    requires hi <= |a|
    decreases hi
  {
    if hi <= lo then {}
    else
      MatchIds(a, p, eps, dist, lo, hi - 1) +
      (if dist(p, Position(a[hi - 1])) <= eps then {a[hi - 1].link} else {})
  }

  /** An id matches exactly when some entry of the range carries it and lies within `eps`. */
  lemma {:induction false} MatchIdsExactly(a: seq<Vertex>, p: Point, eps: real, dist: (Point, Point) -> real, lo: nat, hi: nat, id: int)
    requires hi <= |a|
    ensures id in MatchIds(a, p, eps, dist, lo, hi) <==>
      exists j :: lo <= j < hi && a[j].link == id && dist(p, Position(a[j])) <= eps
    decreases hi
  {
    if hi > lo {
      MatchIdsExactly(a, p, eps, dist, lo, hi - 1, id);
    }
  }

  /** The ids found in the window of radius `delta`: the entries between `bin_search` of the
      shifted-down and the shifted-up key, both ends included. */
  function Window(a: seq<Vertex>, p: Point, eps: real, dist: (Point, Point) -> real, delta: int): set<int>
    requires |a| > 0
  {
    var lo := LastAtMost(a, AddLat(p.x, -(delta as real)));
    var hi := LastAtMost(a, AddLat(p.x, delta as real));
    MatchIds(a, p, eps, dist, lo, hi + 1)
  }

  /** The scan from radius `delta` on: the first non-empty window, the empty set when every
      scanned window is empty, and `None` when the index is empty and a window is scanned
      (`all_points_x[0]` raises). */
  function ScanFrom(a: seq<Vertex>, p: Point, eps: real, dist: (Point, Point) -> real, delta: int): Option<set<int>>
    decreases Trunc(eps + 1.0) - delta
  {
    if delta >= Trunc(eps + 1.0) then Some({})
    else if |a| == 0 then None
    else if Window(a, p, eps, dist, delta) != {} then Some(Window(a, p, eps, dist, delta))
    else ScanFrom(a, p, eps, dist, delta + 10)
  }

  /** Every id the scan reports is the tag of an index entry within `eps` of the point. */
  lemma {:induction false} ScanSound(a: seq<Vertex>, p: Point, eps: real, dist: (Point, Point) -> real, delta: int, id: int)
    requires ScanFrom(a, p, eps, dist, delta).Some? && id in ScanFrom(a, p, eps, dist, delta).value
    ensures exists j :: 0 <= j < |a| && a[j].link == id && dist(p, Position(a[j])) <= eps
    decreases Trunc(eps + 1.0) - delta
  {
    if Window(a, p, eps, dist, delta) != {} {
      var lo := LastAtMost(a, AddLat(p.x, -(delta as real)));
      var hi := LastAtMost(a, AddLat(p.x, delta as real));
      MatchIdsExactly(a, p, eps, dist, lo, hi + 1, id);
    } else {
      ScanSound(a, p, eps, dist, delta + 10, id);
    }
  }

  /** The scan fails exactly when the index is empty and at least one radius is scanned. */
  lemma ScanFailsIff(a: seq<Vertex>, p: Point, eps: real, dist: (Point, Point) -> real, delta: int)
    ensures ScanFrom(a, p, eps, dist, delta).None? <==> |a| == 0 && delta < Trunc(eps + 1.0)
    decreases Trunc(eps + 1.0) - delta
  {
    if delta < Trunc(eps + 1.0) && |a| > 0 && Window(a, p, eps, dist, delta) == {} {
      ScanFailsIff(a, p, eps, dist, delta + 10);
    }
  }

  /** The `k`-th radius scanned when the scan starts at `delta`. */
  function Radius(delta: int, k: nat): int
  {
    delta + 10 * k
  }

  /** The windows of the first `k` radii from `delta` on are all empty. */
  predicate MissedBelow(a: seq<Vertex>, p: Point, eps: real, dist: (Point, Point) -> real, delta: int, k: nat)
  {
    |a| > 0 && forall m: nat :: m < k ==> Window(a, p, eps, dist, Radius(delta, m)) == {}
  }

  /** A non-empty answer is the window of some scanned radius, and every smaller scanned radius
      found nothing: the scan stops at the first hit. */
  lemma {:induction false} ScanFirstHit(a: seq<Vertex>, p: Point, eps: real, dist: (Point, Point) -> real, delta: int)
    requires ScanFrom(a, p, eps, dist, delta).Some? && ScanFrom(a, p, eps, dist, delta).value != {}
    ensures |a| > 0
    ensures exists k: nat :: (Radius(delta, k) < Trunc(eps + 1.0) && MissedBelow(a, p, eps, dist, delta, k) &&
      ScanFrom(a, p, eps, dist, delta).value == Window(a, p, eps, dist, Radius(delta, k)))
    decreases Trunc(eps + 1.0) - delta
  {
    if Window(a, p, eps, dist, delta) != {} {
      assert Radius(delta, 0) == delta && MissedBelow(a, p, eps, dist, delta, 0);
    } else {
      ScanFirstHit(a, p, eps, dist, delta + 10);
      var k: nat :| Radius(delta + 10, k) < Trunc(eps + 1.0) && MissedBelow(a, p, eps, dist, delta + 10, k) &&
        ScanFrom(a, p, eps, dist, delta + 10).value == Window(a, p, eps, dist, Radius(delta + 10, k));
      assert Radius(delta, k + 1) == Radius(delta + 10, k);
      assert MissedBelow(a, p, eps, dist, delta, k + 1) by {
        forall m: nat | m < k + 1
          ensures Window(a, p, eps, dist, Radius(delta, m)) == {}
        {
          if m > 0 {
            assert Radius(delta, m) == Radius(delta + 10, m - 1);
          }
        }
      }
    }
  }

  /** An empty answer means every scanned window was empty. */
  lemma {:induction false} ScanMiss(a: seq<Vertex>, p: Point, eps: real, dist: (Point, Point) -> real, delta: int, k: nat)
    requires ScanFrom(a, p, eps, dist, delta) == Some({})
    requires Radius(delta, k) < Trunc(eps + 1.0)
    ensures |a| > 0 && Window(a, p, eps, dist, Radius(delta, k)) == {}
    decreases k
  {
    if k > 0 {
      assert Radius(delta, k) == Radius(delta + 10, k - 1);
      ScanMiss(a, p, eps, dist, delta + 10, k - 1);
    }
  }

  /** On a sorted index the window of radius `delta` misses no entry strictly above the lower
      shifted key and at most the upper one: each such entry within `eps` contributes its id. */
  lemma WindowCovers(a: seq<Vertex>, p: Point, eps: real, dist: (Point, Point) -> real, delta: int, j: nat)
    requires SortedByX(a) && j < |a|
    requires AddLat(p.x, -(delta as real)) < a[j].x <= AddLat(p.x, delta as real)
    requires dist(p, Position(a[j])) <= eps
    ensures a[j].link in Window(a, p, eps, dist, delta)
  {
    var lower, upper := AddLat(p.x, -(delta as real)), AddLat(p.x, delta as real);
    var lo, hi := LastAtMost(a, lower), LastAtMost(a, upper);
    LastAtMostBoundary(a, lower);
    LastAtMostBoundary(a, upper);
    MatchIdsExactly(a, p, eps, dist, lo, hi + 1, a[j].link);
  }

  /** The inner loop of `get_possible_line`: the ids of the entries `lo..hi` (both included)
      within `eps` of `p`. */
  method CollectWindow(a: seq<Vertex>, p: Point, eps: real, dist: (Point, Point) -> real, lo: nat, hi: nat)
    returns (found: set<int>)
    requires lo < |a| && hi < |a|
    ensures found == MatchIds(a, p, eps, dist, lo, hi + 1)
    ensures forall id :: id in found ==>
      exists j :: lo <= j <= hi && a[j].link == id && dist(p, Position(a[j])) <= eps
  {
    found := {};
    var i := lo;
    while i <= hi
      invariant lo <= i && (i <= hi + 1 || i == lo)
      invariant found == MatchIds(a, p, eps, dist, lo, i)
      decreases hi + 1 - i
    {
      if dist(p, Position(a[i])) <= eps {
        found := found + {a[i].link};
      }
      i := i + 1;
    }
    forall id | id in found
      ensures exists j :: lo <= j <= hi && a[j].link == id && dist(p, Position(a[j])) <= eps
    {
      MatchIdsExactly(a, p, eps, dist, lo, hi + 1, id);
    }
  }

  /** `get_possible_line`: the line ids found in the first radius (10, 20, ... while below
      `int(eps + 1)`) whose window holds a vertex within `eps`; `None` when the index is empty
      and a window is read. */
  method GetPossibleLine(eps: real, p: Point, a: seq<Vertex>, dist: (Point, Point) -> real)
    returns (r: Option<set<int>>)
    ensures r.None? <==> |a| == 0 && 10 < Trunc(eps + 1.0)
    ensures r.Some? ==> forall id :: id in r.value ==>
      exists j :: 0 <= j < |a| && a[j].link == id && dist(p, Position(a[j])) <= eps
    ensures SortedByX(a) ==> r == ScanFrom(a, p, eps, dist, 10)
    ensures eps < 10.0 ==> r == Some({})
  {
    ScannedRadii(eps, 10);
    var mbBlueLine: set<int> := {};
    var bound := Trunc(eps + 1.0);
    var delta := 10;
    while delta < bound
      invariant 10 <= delta
      invariant mbBlueLine == {}
      invariant SortedByX(a) ==> ScanFrom(a, p, eps, dist, 10) == ScanFrom(a, p, eps, dist, delta)
      decreases bound - delta
    {
      var minX := BinSearch(a, AddLat(p.x, -(delta as real)));
      var maxX := BinSearch(a, AddLat(p.x, delta as real));
      if |a| == 0 {
        return None;
      }
      mbBlueLine := CollectWindow(a, p, eps, dist, minX, maxX);
      if |mbBlueLine| > 0 {
        return Some(mbBlueLine);
      }
      delta := delta + 10;
    }
    return Some(mbBlueLine);
  }
}
