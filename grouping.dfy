/** Assigning one red vertex to a blue line: the distance to a line through its spatial tree
    (`point2segment`, main.py:18-22) and the arg-min with the in-place append to the groups
    (`set_group_point`, main.py:68-84). */
module Grouping {
  import opened Wrappers
  import opened GeomDist
  import opened Index

  // ---------------------------------------------------------------------------
  // point2segment
  // ---------------------------------------------------------------------------

  /** `point2segment` on the table entry of `line`. `nearest(points, p)` stands for the tree
      query `nearest(p, 2)`: the positions, in the line's vertex list, of the vertices it yields.
      Every exception the caller skips is `None`: no entry for the line (`KeyError`), a query
      that does not yield exactly two vertices (unpacking), a position outside the list
      (`IndexError`), and a division by zero in `point2vector`. */
  function LineDistance(p: Point, line: int, rtrees: map<int, seq<Point>>,
                        nearest: (seq<Point>, Point) -> seq<nat>, sqrt: real -> real): Option<real>
  {
    if line !in rtrees then None
    else
      var pts := rtrees[line];
      var ids := nearest(pts, p);
      if |ids| != 2 || ids[0] >= |pts| || ids[1] >= |pts| then None
      else Point2Vector(pts[ids[0]], pts[ids[1]], p, sqrt)
  }

  /** The distance to a line fails exactly on a missing entry, a malformed query answer or two
      coinciding vertices; otherwise it is non-negative and no larger than the distance to
      either vertex the query returned. */
  lemma LineDistanceCharacterised(p: Point, line: int, rtrees: map<int, seq<Point>>,
                                  nearest: (seq<Point>, Point) -> seq<nat>, sqrt: real -> real)
    requires IsSqrt(sqrt)
    ensures LineDistance(p, line, rtrees, nearest, sqrt).None? <==>
      line !in rtrees ||
      var ids := nearest(rtrees[line], p);
      |ids| != 2 || ids[0] >= |rtrees[line]| || ids[1] >= |rtrees[line]| ||
      rtrees[line][ids[0]] == rtrees[line][ids[1]]
    ensures LineDistance(p, line, rtrees, nearest, sqrt).Some? ==>
      var pts, ids := rtrees[line], nearest(rtrees[line], p);
      0.0 <= LineDistance(p, line, rtrees, nearest, sqrt).value <=
        Min(Dist(p, pts[ids[0]], sqrt), Dist(p, pts[ids[1]], sqrt))
  {
    if line in rtrees {
      var pts := rtrees[line];
      var ids := nearest(pts, p);
      if |ids| == 2 && ids[0] < |pts| && ids[1] < |pts| {
        Point2VectorFailsIffDegenerate(pts[ids[0]], pts[ids[1]], p, sqrt);
        Point2VectorBounds(pts[ids[0]], pts[ids[1]], p, sqrt);
      }
    }
  }

  // ---------------------------------------------------------------------------
  // The arg-min of set_group_point
  // ---------------------------------------------------------------------------

  /** The state of the arg-min loop: the chosen id and the smallest distance so far, where
      `None` is the initial `float('+inf')`. */
  datatype Choice = Choice(link: int, best: Option<real>)

  /** The distance to every candidate line, in iteration order. */
  function Distances(p: Point, lines: seq<int>, rtrees: map<int, seq<Point>>,
                     nearest: (seq<Point>, Point) -> seq<nat>, sqrt: real -> real): (ds: seq<Option<real>>)
    ensures |ds| == |lines|
    ensures forall i :: 0 <= i < |lines| ==> ds[i] == LineDistance(p, lines[i], rtrees, nearest, sqrt)
  {
    seq(|lines|, i requires 0 <= i < |lines| => LineDistance(p, lines[i], rtrees, nearest, sqrt))
  }

  /** The loop state after the given candidates: a failed distance is skipped and a successful
      one replaces the choice only when it is strictly smaller. */
  function Best(lines: seq<int>, ds: seq<Option<real>>): Choice
    requires |lines| == |ds|
  {
    if |lines| == 0 then Choice(0, None)
    else
      var c := Best(lines[..|lines| - 1], ds[..|ds| - 1]);
      var d := ds[|ds| - 1];
      if d.Some? && (c.best.None? || d.value < c.best.value) then Choice(lines[|lines| - 1], d)
      else c
  }

  /** `j` is the first position holding the smallest successful distance. */
  predicate FirstMinimum(ds: seq<Option<real>>, j: int)
  {
    0 <= j < |ds| && ds[j].Some? &&
    (forall k :: 0 <= k < |ds| && ds[k].Some? ==> ds[j].value <= ds[k].value) &&
    (forall k :: 0 <= k < j && ds[k].Some? ==> ds[j].value < ds[k].value)
  }

  /** The loop picks the sentinel 0 when every distance fails, and otherwise the first
      candidate with the smallest distance: the strict `<` lets the first one seen win ties. */
  lemma {:induction false} BestIsFirstMinimum(lines: seq<int>, ds: seq<Option<real>>)
    requires |lines| == |ds|
    ensures (forall k :: 0 <= k < |ds| ==> ds[k].None?) ==> Best(lines, ds) == Choice(0, None)
    ensures (exists k :: 0 <= k < |ds| && ds[k].Some?) ==>
      exists j :: FirstMinimum(ds, j) && Best(lines, ds) == Choice(lines[j], ds[j])
    decreases |lines|
  {
    if |lines| > 0 {
      var n := |lines| - 1;
      var init, dinit := lines[..n], ds[..n];
      BestIsFirstMinimum(init, dinit);
      assert forall k :: 0 <= k < n ==> dinit[k] == ds[k];
      if exists k :: 0 <= k < n && dinit[k].Some? {
        var j :| FirstMinimum(dinit, j) && Best(init, dinit) == Choice(init[j], dinit[j]);
        BestExtend(lines, ds, j);
      } else if ds[n].Some? {
        assert FirstMinimum(ds, n);
      }
    }
  }

  /** One more candidate after a first minimum at `j`: the choice moves to it exactly when its
      distance is strictly smaller. */
  lemma BestExtend(lines: seq<int>, ds: seq<Option<real>>, j: nat)
    requires |lines| == |ds| > 0
    requires FirstMinimum(ds[..|ds| - 1], j)
    requires Best(lines[..|lines| - 1], ds[..|ds| - 1]) == Choice(lines[j], ds[j])
    ensures exists j' :: FirstMinimum(ds, j') && Best(lines, ds) == Choice(lines[j'], ds[j'])
  {
    var n := |ds| - 1;
    assert ds[..n][j] == ds[j];
    assert forall k :: 0 <= k < n ==> ds[..n][k] == ds[k];
    if ds[n].Some? && ds[n].value < ds[j].value {
      assert FirstMinimum(ds, n);
    } else {
      assert FirstMinimum(ds, j);
    }
  }

  /** The chosen id is the sentinel 0 or a candidate whose distance succeeded. */
  lemma BestIsCandidate(lines: seq<int>, ds: seq<Option<real>>)
    requires |lines| == |ds|
    ensures Best(lines, ds).link == 0 ||
      exists j :: 0 <= j < |lines| && lines[j] == Best(lines, ds).link && ds[j].Some?
  {
    BestIsFirstMinimum(lines, ds);
  }

  /** The loop of `set_group_point`: the candidate with the smallest successful distance,
      the first one on ties, and 0 when there are no candidates or every distance fails. */
  method ClosestLine(p: Point, lines: seq<int>, rtrees: map<int, seq<Point>>,
                     nearest: (seq<Point>, Point) -> seq<nat>, sqrt: real -> real)
    returns (linkId: int)
    ensures linkId == Best(lines, Distances(p, lines, rtrees, nearest, sqrt)).link
    ensures (forall k :: 0 <= k < |lines| ==> LineDistance(p, lines[k], rtrees, nearest, sqrt).None?) ==>
      linkId == 0
    ensures (exists k :: 0 <= k < |lines| && LineDistance(p, lines[k], rtrees, nearest, sqrt).Some?) ==>
      exists j :: FirstMinimum(Distances(p, lines, rtrees, nearest, sqrt), j) && linkId == lines[j]
    ensures linkId == 0 || linkId in rtrees
  {
    ghost var ds := Distances(p, lines, rtrees, nearest, sqrt);
    linkId := 0;
    var minDist: Option<real> := None;
    for i := 0 to |lines|
      invariant Choice(linkId, minDist) == Best(lines[..i], ds[..i])
    {
      assert lines[..i + 1][..i] == lines[..i] && ds[..i + 1][..i] == ds[..i];
      var dist := LineDistance(p, lines[i], rtrees, nearest, sqrt);
      if dist.None? {
        continue;
      }
      if minDist.None? || dist.value < minDist.value {
        minDist := dist;
        linkId := lines[i];
      }
    }
    assert lines[..|lines|] == lines && ds[..|ds|] == ds;
    BestIsFirstMinimum(lines, ds);
    BestIsCandidate(lines, ds);
  }

  /** The candidate ids of a set, each once, in the order of their first vertex in the index.
      Every id `get_possible_line` returns has a vertex there; the model fixes this order where
      Python iterates the set in hash order, and nothing below depends on it. */
  method Enumerate(s: set<int>, index: seq<Vertex>) returns (xs: seq<int>)
    requires forall id :: id in s ==> exists j :: 0 <= j < |index| && index[j].link == id
    ensures forall x :: x in xs <==> x in s
    ensures forall i, j :: 0 <= i < j < |xs| ==> xs[i] != xs[j]
  {
    xs := [];
    for j := 0 to |index|
      invariant forall x :: x in xs <==> x in s && exists k :: 0 <= k < j && index[k].link == x
      invariant forall i, k :: 0 <= i < k < |xs| ==> xs[i] != xs[k]
    {
      var id := index[j].link;
      if id in s && id !in xs {
        xs := xs + [id];
      }
    }
  }

  // ---------------------------------------------------------------------------
  // The groups dict `point_group_by_line`
  // ---------------------------------------------------------------------------

  /** The keys in insertion order are exactly the keys of the map, each once. */
  predicate WellFormed(keys: seq<int>, groups: map<int, seq<Point>>)
  {
    (forall k :: k in groups ==> k in keys) && (forall k :: k in keys ==> k in groups) &&
    (forall i, j :: 0 <= i < j < |keys| ==> keys[i] != keys[j])
  }

  /** The keys after appending under `k`: a new key goes to the end. */
  function AddKey(keys: seq<int>, k: int): seq<int>
  {
    if k in keys then keys else keys + [k]
  }

  /** The lists after appending `p` under `k`, creating the list when it is missing. */
  function AddPoint(groups: map<int, seq<Point>>, k: int, p: Point): map<int, seq<Point>>
  {
    groups[k := (if k in groups then groups[k] else []) + [p]]
  }

  /** Every stored vertex, list after list in key order. */
  function Stored(keys: seq<int>, groups: map<int, seq<Point>>): seq<Point>
    requires forall k :: k in keys ==> k in groups
  {
    if |keys| == 0 then []
    else
      var last := keys[|keys| - 1];
      assert last in keys;
      Stored(keys[..|keys| - 1], groups) + groups[last]
  }

  /** The sum of the list lengths, which the vote counts as `cnt_point`. */
  function Total(keys: seq<int>, groups: map<int, seq<Point>>): nat
    requires forall k :: k in keys ==> k in groups
  {
    if |keys| == 0 then 0
    else
      var last := keys[|keys| - 1];
      assert last in keys;
      Total(keys[..|keys| - 1], groups) + |groups[last]|
  }

  lemma {:induction false} TotalIsStoredSize(keys: seq<int>, groups: map<int, seq<Point>>)
    requires forall k :: k in keys ==> k in groups
    ensures Total(keys, groups) == |Stored(keys, groups)|
    decreases |keys|
  {
    if |keys| > 0 {
      TotalIsStoredSize(keys[..|keys| - 1], groups);
    }
  }

  /** The stored vertices only depend on the lists of the keys listed. */
  lemma {:induction false} StoredFrame(keys: seq<int>, g1: map<int, seq<Point>>, g2: map<int, seq<Point>>)
    requires forall k :: k in keys ==> k in g1 && k in g2 && g1[k] == g2[k]
    ensures Stored(keys, g1) == Stored(keys, g2)
    decreases |keys|
  {
    if |keys| > 0 {
      assert keys[|keys| - 1] in keys;
      StoredFrame(keys[..|keys| - 1], g1, g2);
    }
  }

  /** Replacing the list of a key that occurs once replaces its vertices in the stored ones. */
  lemma {:induction false} StoredUpdate(keys: seq<int>, groups: map<int, seq<Point>>, k: int, s: seq<Point>)
    requires forall j :: j in keys ==> j in groups
    requires forall i, j :: 0 <= i < j < |keys| ==> keys[i] != keys[j]
    requires k in keys
    ensures forall j :: j in keys ==> j in groups[k := s]
    ensures multiset(Stored(keys, groups[k := s])) + multiset(groups[k]) ==
      multiset(Stored(keys, groups)) + multiset(s)
    decreases |keys|
  {
    var n := |keys| - 1;
    var init, last := keys[..n], keys[n];
    if last == k {
      StoredUpdateLast(keys, groups, k, s);
    } else {
      var updated := groups[k := s];
      assert last in keys;
      assert k in init by {
        var i :| 0 <= i < |keys| && keys[i] == k;
        assert i < n && init[i] == k;
      }
      StoredUpdate(init, groups, k, s);
      assert Stored(keys, updated) == Stored(init, updated) + groups[last];
      assert Stored(keys, groups) == Stored(init, groups) + groups[last];
      Regroup(multiset(Stored(init, updated)), multiset(Stored(init, groups)),
              multiset(groups[k]), multiset(s), multiset(groups[last]));
    }
  }

  /** `StoredUpdate` when the key is the last one listed. */
  lemma StoredUpdateLast(keys: seq<int>, groups: map<int, seq<Point>>, k: int, s: seq<Point>)
    requires forall j :: j in keys ==> j in groups
    requires forall i, j :: 0 <= i < j < |keys| ==> keys[i] != keys[j]
    requires |keys| > 0 && keys[|keys| - 1] == k
    ensures forall j :: j in keys ==> j in groups[k := s]
    ensures multiset(Stored(keys, groups[k := s])) + multiset(groups[k]) ==
      multiset(Stored(keys, groups)) + multiset(s)
  {
    var init := keys[..|keys| - 1];
    assert k !in init;
    StoredFrame(init, groups, groups[k := s]);
  }

  lemma Regroup(a: multiset<Point>, b: multiset<Point>, before: multiset<Point>, after: multiset<Point>,
                rest: multiset<Point>)
    requires a + before == b + after
    ensures (a + rest) + before == (b + rest) + after
  {
    forall x
      ensures ((a + rest) + before)[x] == ((b + rest) + after)[x]
    {
      assert (a + before)[x] == (b + after)[x];
    }
  }

  /** Appending under a key already present grows that key's list in place. */
  lemma AppendExisting(keys: seq<int>, groups: map<int, seq<Point>>, k: int, p: Point)
    requires WellFormed(keys, groups) && k in keys
    ensures forall j :: j in keys ==> j in groups[k := groups[k] + [p]]
    ensures multiset(Stored(keys, groups[k := groups[k] + [p]])) == multiset(Stored(keys, groups)) + multiset{p}
  {
    StoredUpdate(keys, groups, k, groups[k] + [p]);
    var grown := multiset(Stored(keys, groups[k := groups[k] + [p]]));
    var before, list := multiset(Stored(keys, groups)), multiset(groups[k]);
    assert multiset(groups[k] + [p]) == list + multiset{p};
    assert grown + list == before + (list + multiset{p});
    forall x
      ensures grown[x] == (before + multiset{p})[x]
    {
      assert (grown + list)[x] == (before + (list + multiset{p}))[x];
      assert (grown + list)[x] == grown[x] + list[x];
      assert (before + (list + multiset{p}))[x] == before[x] + list[x] + multiset{p}[x];
    }
  }

  /** Appending under a new key adds a one-element list at the end. */
  lemma AppendNew(keys: seq<int>, groups: map<int, seq<Point>>, k: int, p: Point)
    requires WellFormed(keys, groups) && k !in keys
    ensures forall j :: j in keys + [k] ==> j in groups[k := [p]]
    ensures Stored(keys + [k], groups[k := [p]]) == Stored(keys, groups) + [p]
  {
    assert (keys + [k])[..|keys|] == keys;
    StoredFrame(keys, groups, groups[k := [p]]);
  }

  /** Appending a vertex under one key adds exactly that vertex to the stored ones and grows the
      total by one. */
  lemma AppendOne(keys: seq<int>, groups: map<int, seq<Point>>, k: int, p: Point)
    requires WellFormed(keys, groups)
    ensures forall j :: j in AddKey(keys, k) ==> j in AddPoint(groups, k, p)
    ensures multiset(Stored(AddKey(keys, k), AddPoint(groups, k, p))) == multiset(Stored(keys, groups)) + multiset{p}
    ensures Total(AddKey(keys, k), AddPoint(groups, k, p)) == Total(keys, groups) + 1
  {
    var keys', groups' := AddKey(keys, k), AddPoint(groups, k, p);
    if k in keys {
      assert keys' == keys && groups' == groups[k := groups[k] + [p]];
      AppendExisting(keys, groups, k, p);
    } else {
      assert k !in groups;
      assert [] + [p] == [p];
      assert keys' == keys + [k] && groups' == groups[k := [p]];
      AppendNew(keys, groups, k, p);
    }
    TotalIsStoredSize(keys, groups);
    TotalIsStoredSize(keys', groups');
    assert |multiset(Stored(keys', groups'))| == |multiset(Stored(keys, groups))| + 1;
  }

  /** The dict of lists `point_group_by_line`, keys in insertion order. */
  class GroupMap {
    var keys: seq<int>
    var groups: map<int, seq<Point>>

    ghost predicate Valid()
      reads this
    {
      WellFormed(keys, groups)
    }

    constructor ()
      ensures Valid() && keys == [] && groups == map[]
    {
      keys := [];
      groups := map[];
    }

    /** `if k not in group_line: group_line[k] = []` and then `group_line[k].append(p)`. */
    method Append(k: int, p: Point)
      requires Valid()
      modifies this
      ensures Valid()
      ensures keys == AddKey(old(keys), k) && groups == AddPoint(old(groups), k, p)
    {
      if k !in groups {
        keys := keys + [k];
        groups := groups[k := []];
      }
      groups := groups[k := groups[k] + [p]];
    }
  }

  /** `set_group_point`: the point is appended to the list of the closest candidate line (0 when
      none succeeds), and to no other list. */
  method SetGroupPoint(p: Point, lines: seq<int>, rtrees: map<int, seq<Point>>,
                       nearest: (seq<Point>, Point) -> seq<nat>, sqrt: real -> real, g: GroupMap)
    requires g.Valid()
    modifies g
    ensures g.Valid()
    ensures var link := Best(lines, Distances(p, lines, rtrees, nearest, sqrt)).link;
      g.keys == AddKey(old(g.keys), link) && g.groups == AddPoint(old(g.groups), link, p) &&
      (link == 0 || link in rtrees)
    ensures multiset(Stored(g.keys, g.groups)) == multiset(Stored(old(g.keys), old(g.groups))) + multiset{p}
    ensures forall k :: k in g.keys ==> k in old(g.keys) || k == 0 || k in rtrees
  {
    var linkId := ClosestLine(p, lines, rtrees, nearest, sqrt);
    AppendOne(g.keys, g.groups, linkId, p);
    g.Append(linkId, p);
  }
}
