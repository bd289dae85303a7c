/** The per-feature matching of the conflation run (main.py:154-186): every vertex of a red
    feature is grouped under its closest blue line, vertices without a candidate are grouped
    afterwards among the lines already chosen, and the lines holding at least a tenth of the
    vertices make up the feature's road. */
module Conflation {
  import opened Wrappers
  import opened GeomDist
  import opened Index
  import opened Search
  import opened Grouping

  /** Every key a group is stored under is the sentinel 0 or the id of a blue line. */
  predicate KeysKnown(keys: seq<int>, rtrees: map<int, seq<Point>>)
  {
    forall k :: k in keys ==> k == 0 || k in rtrees
  }

  /** The first pass over a feature's vertices (main.py:160-168): a vertex with candidate lines is
      grouped under the closest of them, one without is set aside in `noUsed`; the run aborts
      (`aborted`) exactly when a vertex meets an empty index with a radius to scan. */
  method DirectPass(points: seq<Point>, index: seq<Vertex>, rtrees: map<int, seq<Point>>, eps: real,
                    dist: (Point, Point) -> real, nearest: (seq<Point>, Point) -> seq<nat>,
                    sqrt: real -> real, g: GroupMap)
    returns (noUsed: seq<Point>, aborted: bool)
    requires g.Valid() && KeysKnown(g.keys, rtrees)
    modifies g
    ensures g.Valid() && KeysKnown(g.keys, rtrees)
    ensures aborted <==> |points| > 0 && |index| == 0 && 10 < Trunc(eps + 1.0)
    ensures !aborted ==>
      multiset(Stored(g.keys, g.groups)) + multiset(noUsed) == multiset(Stored(old(g.keys), old(g.groups))) + multiset(points)
    ensures SortedByX(index) && !aborted ==>
      DirectRel(points, index, rtrees, eps, dist, nearest, sqrt, old(g.keys), old(g.groups), g.keys, g.groups, noUsed)
  {
    ghost var start := multiset(Stored(g.keys, g.groups));
    ghost var keys0, groups0 := g.keys, g.groups;
    noUsed := [];
    assert points[..0] == [];
    for i := 0 to |points|
      invariant g.Valid() && KeysKnown(g.keys, rtrees)
      invariant multiset(Stored(g.keys, g.groups)) + multiset(noUsed) == start + multiset(points[..i])
      invariant 0 < i ==> !(|index| == 0 && 10 < Trunc(eps + 1.0))
      invariant SortedByX(index) ==>
        DirectRel(points[..i], index, rtrees, eps, dist, nearest, sqrt, keys0, groups0, g.keys, g.groups, noUsed)
    {
      NextPrefix(points, i);
      ghost var keysA, groupsA, noUsedA := g.keys, g.groups, noUsed;
      var stop;
      noUsed, stop := DirectStep(points[i], index, rtrees, eps, dist, nearest, sqrt, g, noUsed);
      if stop {
        return noUsed, true;
      }
      if SortedByX(index) {
        DirectRelNext(points, i, index, rtrees, eps, dist, nearest, sqrt, keys0, groups0,
                      keysA, groupsA, noUsedA, g.keys, g.groups, noUsed);
      }
    }
    assert points[..|points|] == points;
    aborted := false;
  }

  /** A solver hint for `DirectPass`: the prefix of one more vertex, as a multiset. It states no
      property of the program. */
  lemma NextPrefix(points: seq<Point>, i: nat)
    requires i < |points|
    ensures multiset(points[..i + 1]) == multiset(points[..i]) + multiset{points[i]}
  {
    assert points[..i + 1] == points[..i] + [points[i]];
  }

  /** One iteration of the first pass: the vertex is grouped or joins `noUsed`. */
  method DirectStep(p: Point, index: seq<Vertex>, rtrees: map<int, seq<Point>>, eps: real,
                    dist: (Point, Point) -> real, nearest: (seq<Point>, Point) -> seq<nat>,
                    sqrt: real -> real, g: GroupMap, noUsed: seq<Point>)
    returns (noUsed': seq<Point>, stop: bool)
    requires g.Valid() && KeysKnown(g.keys, rtrees)
    modifies g
    ensures g.Valid() && KeysKnown(g.keys, rtrees)
    ensures stop <==> |index| == 0 && 10 < Trunc(eps + 1.0)
    ensures !stop ==>
      multiset(Stored(g.keys, g.groups)) + multiset(noUsed') ==
      (multiset(Stored(old(g.keys), old(g.groups))) + multiset(noUsed)) + multiset{p}
    ensures SortedByX(index) && !stop ==>
      DirectStepRel(p, index, rtrees, eps, dist, nearest, sqrt, old(g.keys), old(g.groups), noUsed,
                    g.keys, g.groups, noUsed')
  {
    ghost var before := multiset(Stored(g.keys, g.groups));
    var setAside;
    stop, setAside := PlaceVertex(p, index, rtrees, eps, dist, nearest, sqrt, g);
    noUsed' := noUsed;
    if stop {
      return;
    }
    if setAside {
      SetAside(before, noUsed, p);
      noUsed' := noUsed + [p];
    } else {
      Grouped(before, multiset(Stored(g.keys, g.groups)), noUsed, p);
    }
  }

  /** `p` went under the first closest of the candidate lines `cands`, taken in some order and
      each once: `(keys, groups)` is `(keys0, groups0)` with `p` appended under that line. */
  ghost predicate PlacedAmong(p: Point, cands: set<int>, rtrees: map<int, seq<Point>>,
                              nearest: (seq<Point>, Point) -> seq<nat>, sqrt: real -> real,
                              keys0: seq<int>, groups0: map<int, seq<Point>>,
                              keys: seq<int>, groups: map<int, seq<Point>>)
  {
    exists lines: seq<int> :: PlacedBy(lines, p, cands, rtrees, nearest, sqrt, keys0, groups0, keys, groups)
  }

  /** `PlacedAmong` with the listing `lines` of the candidates named. */
  ghost predicate PlacedBy(lines: seq<int>, p: Point, cands: set<int>, rtrees: map<int, seq<Point>>,
                           nearest: (seq<Point>, Point) -> seq<nat>, sqrt: real -> real,
                           keys0: seq<int>, groups0: map<int, seq<Point>>,
                           keys: seq<int>, groups: map<int, seq<Point>>)
  {
    (forall x :: x in lines <==> x in cands) &&
    (forall i, j :: 0 <= i < j < |lines| ==> lines[i] != lines[j]) &&
    keys == AddKey(keys0, Best(lines, Distances(p, lines, rtrees, nearest, sqrt)).link) &&
    groups == AddPoint(groups0, Best(lines, Distances(p, lines, rtrees, nearest, sqrt)).link, p)
  }

  /** One step of the first pass over a sorted index: the scan around `p` succeeds; with no
      candidate `p` joins the set-aside vertices and the groups stay as they were, otherwise
      `p` goes under the first closest candidate and nothing is set aside. */
  ghost predicate DirectStepRel(p: Point, index: seq<Vertex>, rtrees: map<int, seq<Point>>, eps: real,
                                dist: (Point, Point) -> real, nearest: (seq<Point>, Point) -> seq<nat>,
                                sqrt: real -> real, keys0: seq<int>, groups0: map<int, seq<Point>>,
                                noUsed0: seq<Point>, keys: seq<int>, groups: map<int, seq<Point>>,
                                noUsed: seq<Point>)
  {
    var scan := ScanFrom(index, p, eps, dist, 10);
    scan.Some? &&
    if scan.value == {} then keys == keys0 && groups == groups0 && noUsed == noUsed0 + [p]
    else noUsed == noUsed0 && PlacedAmong(p, scan.value, rtrees, nearest, sqrt, keys0, groups0, keys, groups)
  }

  /** The first pass over a sorted index, as a relation: starting from `(keys0, groups0)` and no
      set-aside vertex, the vertices of `points`, in order, each take one `DirectStepRel` step
      and end in `(keys, groups)` with `noUsed` set aside. */
  ghost predicate DirectRel(points: seq<Point>, index: seq<Vertex>, rtrees: map<int, seq<Point>>, eps: real,
                            dist: (Point, Point) -> real, nearest: (seq<Point>, Point) -> seq<nat>,
                            sqrt: real -> real, keys0: seq<int>, groups0: map<int, seq<Point>>,
                            keys: seq<int>, groups: map<int, seq<Point>>, noUsed: seq<Point>)
    decreases |points|
  {
    if |points| == 0 then keys == keys0 && groups == groups0 && noUsed == []
    else
      var init, p := points[..|points| - 1], points[|points| - 1];
      exists keys1: seq<int>, groups1: map<int, seq<Point>>, noUsed1: seq<Point> ::
        DirectRel(init, index, rtrees, eps, dist, nearest, sqrt, keys0, groups0, keys1, groups1, noUsed1) &&
        DirectStepRel(p, index, rtrees, eps, dist, nearest, sqrt, keys1, groups1, noUsed1,
                      keys, groups, noUsed)
  }

  /** One more step of the first pass extends the relation to one more vertex. */
  lemma DirectRelNext(points: seq<Point>, i: nat, index: seq<Vertex>, rtrees: map<int, seq<Point>>, eps: real,
                      dist: (Point, Point) -> real, nearest: (seq<Point>, Point) -> seq<nat>,
                      sqrt: real -> real, keys0: seq<int>, groups0: map<int, seq<Point>>,
                      keysA: seq<int>, groupsA: map<int, seq<Point>>, noUsedA: seq<Point>,
                      keysB: seq<int>, groupsB: map<int, seq<Point>>, noUsedB: seq<Point>)
    requires i < |points|
    requires DirectRel(points[..i], index, rtrees, eps, dist, nearest, sqrt, keys0, groups0, keysA, groupsA, noUsedA)
    requires DirectStepRel(points[i], index, rtrees, eps, dist, nearest, sqrt, keysA, groupsA, noUsedA,
                           keysB, groupsB, noUsedB)
    ensures DirectRel(points[..i + 1], index, rtrees, eps, dist, nearest, sqrt, keys0, groups0, keysB, groupsB, noUsedB)
  {
    assert points[..i + 1][..i] == points[..i];
    assert points[..i + 1][i] == points[i];
  }

  /** One vertex of the first pass (main.py:161-168): with candidate lines it is grouped under the
      closest of them; without any it is set aside (`setAside`) and the groups stay as they were.
      `aborted` is the `IndexError` an empty index raises once a radius is scanned. */
  method PlaceVertex(p: Point, index: seq<Vertex>, rtrees: map<int, seq<Point>>, eps: real,
                     dist: (Point, Point) -> real, nearest: (seq<Point>, Point) -> seq<nat>,
                     sqrt: real -> real, g: GroupMap)
    returns (aborted: bool, setAside: bool)
    requires g.Valid() && KeysKnown(g.keys, rtrees)
    modifies g
    ensures g.Valid() && KeysKnown(g.keys, rtrees)
    ensures aborted <==> |index| == 0 && 10 < Trunc(eps + 1.0)
    ensures aborted || setAside ==> g.keys == old(g.keys) && g.groups == old(g.groups)
    ensures !aborted && !setAside ==>
      multiset(Stored(g.keys, g.groups)) == multiset(Stored(old(g.keys), old(g.groups))) + multiset{p}
    ensures SortedByX(index) && !aborted ==> (setAside <==> ScanFrom(index, p, eps, dist, 10) == Some({}))
    ensures SortedByX(index) && !aborted && !setAside ==>
      ScanFrom(index, p, eps, dist, 10).Some? &&
      PlacedAmong(p, ScanFrom(index, p, eps, dist, 10).value, rtrees, nearest, sqrt,
                  old(g.keys), old(g.groups), g.keys, g.groups)
  {
    var mbBlueLine := GetPossibleLine(eps, p, index, dist);
    if mbBlueLine.None? {
      return true, false;
    }
    if |mbBlueLine.value| == 0 {
      return false, true;
    }
    PlaceAmong(p, mbBlueLine.value, index, rtrees, nearest, sqrt, g);
    aborted, setAside := false, false;
  }

  /** `set_group_point(point, mb_blue_line, ...)` (main.py:169): the candidate set is listed once
      per id and the vertex goes under the first closest of them. */
  method PlaceAmong(p: Point, cands: set<int>, index: seq<Vertex>, rtrees: map<int, seq<Point>>,
                    nearest: (seq<Point>, Point) -> seq<nat>, sqrt: real -> real, g: GroupMap)
    requires g.Valid()
    requires forall id :: id in cands ==> exists j :: 0 <= j < |index| && index[j].link == id
    modifies g
    ensures g.Valid()
    ensures PlacedAmong(p, cands, rtrees, nearest, sqrt, old(g.keys), old(g.groups), g.keys, g.groups)
    ensures multiset(Stored(g.keys, g.groups)) == multiset(Stored(old(g.keys), old(g.groups))) + multiset{p}
    ensures forall k :: k in g.keys ==> k in old(g.keys) || k == 0 || k in rtrees
  {
    ghost var keys0, groups0 := g.keys, g.groups;
    var lines := Enumerate(cands, index);
    SetGroupPoint(p, lines, rtrees, nearest, sqrt, g);
    assert PlacedBy(lines, p, cands, rtrees, nearest, sqrt, keys0, groups0, g.keys, g.groups);
  }

  /** A solver hint for `DirectStep`: grouping a vertex keeps the stored and set-aside vertices
      together. It states no property of the program. */
  lemma Grouped(before: multiset<Point>, after: multiset<Point>, noUsed: seq<Point>, p: Point)
    requires after == before + multiset{p}
    ensures after + multiset(noUsed) == (before + multiset(noUsed)) + multiset{p}
  {
  }

  /** A solver hint for `FallbackStored`: the multiset bookkeeping of one more set-aside vertex.
      It states no property of the program. */
  lemma Gathered(start: multiset<Point>, before: multiset<Point>, after: multiset<Point>, done: seq<Point>, p: Point)
    requires before == start + multiset(done) && after == before + multiset{p}
    ensures after == start + multiset(done + [p])
  {
    assert multiset(done + [p]) == multiset(done) + multiset{p};
  }

  /** A solver hint for `DirectStep`: setting a vertex aside keeps the stored and set-aside
      vertices together. It states no property of the program. */
  lemma SetAside(stored: multiset<Point>, noUsed: seq<Point>, p: Point)
    ensures stored + multiset(noUsed + [p]) == (stored + multiset(noUsed)) + multiset{p}
  {
    assert multiset(noUsed + [p]) == multiset(noUsed) + multiset{p};
  }

  /** The groups after the second pass: each set-aside vertex in turn goes under the first
      closest of the keys present at that moment (0 when no distance succeeds). */
  function Fallback(keys: seq<int>, groups: map<int, seq<Point>>, noUsed: seq<Point>,
                    rtrees: map<int, seq<Point>>, nearest: (seq<Point>, Point) -> seq<nat>,
                    sqrt: real -> real): (seq<int>, map<int, seq<Point>>)
  {
    if |noUsed| == 0 then (keys, groups)
    else
      var (ks, gs) := Fallback(keys, groups, noUsed[..|noUsed| - 1], rtrees, nearest, sqrt);
      var p := noUsed[|noUsed| - 1];
      var link := Best(ks, Distances(p, ks, rtrees, nearest, sqrt)).link;
      (AddKey(ks, link), AddPoint(gs, link, p))
  }

  /** The second pass adds no key except the sentinel 0: it only chooses among the keys present. */
  lemma {:induction false} FallbackKeys(keys: seq<int>, groups: map<int, seq<Point>>, noUsed: seq<Point>,
                                        rtrees: map<int, seq<Point>>, nearest: (seq<Point>, Point) -> seq<nat>,
                                        sqrt: real -> real)
    ensures forall k :: k in Fallback(keys, groups, noUsed, rtrees, nearest, sqrt).0 ==> k in keys || k == 0
    decreases |noUsed|
  {
    if |noUsed| > 0 {
      var (ks, gs) := Fallback(keys, groups, noUsed[..|noUsed| - 1], rtrees, nearest, sqrt);
      var p := noUsed[|noUsed| - 1];
      FallbackKeys(keys, groups, noUsed[..|noUsed| - 1], rtrees, nearest, sqrt);
      BestIsCandidate(ks, Distances(p, ks, rtrees, nearest, sqrt));
    }
  }

  /** The second pass keeps the groups well formed and adds exactly the set-aside vertices. */
  lemma {:induction false} FallbackStored(keys: seq<int>, groups: map<int, seq<Point>>, noUsed: seq<Point>,
                                          rtrees: map<int, seq<Point>>, nearest: (seq<Point>, Point) -> seq<nat>,
                                          sqrt: real -> real)
    requires WellFormed(keys, groups)
    ensures WellFormed(Fallback(keys, groups, noUsed, rtrees, nearest, sqrt).0,
                       Fallback(keys, groups, noUsed, rtrees, nearest, sqrt).1)
    ensures multiset(Stored(Fallback(keys, groups, noUsed, rtrees, nearest, sqrt).0,
                            Fallback(keys, groups, noUsed, rtrees, nearest, sqrt).1)) ==
      multiset(Stored(keys, groups)) + multiset(noUsed)
    decreases |noUsed|
  {
    if |noUsed| == 0 {
      assert multiset(noUsed) == multiset{};
    } else {
      var init, p := noUsed[..|noUsed| - 1], noUsed[|noUsed| - 1];
      assert noUsed == init + [p];
      FallbackStored(keys, groups, init, rtrees, nearest, sqrt);
      var (ks, gs) := Fallback(keys, groups, init, rtrees, nearest, sqrt);
      var link := Best(ks, Distances(p, ks, rtrees, nearest, sqrt)).link;
      AppendOne(ks, gs, link, p);
      AddWellFormed(ks, gs, link, p);
      Gathered(multiset(Stored(keys, groups)), multiset(Stored(ks, gs)),
               multiset(Stored(AddKey(ks, link), AddPoint(gs, link, p))), init, p);
    }
  }

  /** A solver hint for `FallbackStored`: appending under a key keeps the keys and the lists in
      step. Dafny proves it unaided; as a separate call it keeps that proof within bounds. */
  lemma AddWellFormed(keys: seq<int>, groups: map<int, seq<Point>>, k: int, p: Point)
    requires WellFormed(keys, groups)
    ensures WellFormed(AddKey(keys, k), AddPoint(groups, k, p))
  {
  }

  /** The second pass (main.py:171-173): every vertex set aside is grouped under the closest of
      the lines grouped so far, or under 0. */
  method FallbackPass(noUsed: seq<Point>, rtrees: map<int, seq<Point>>,
                      nearest: (seq<Point>, Point) -> seq<nat>, sqrt: real -> real, g: GroupMap)
    requires g.Valid() && KeysKnown(g.keys, rtrees)
    modifies g
    ensures g.Valid() && KeysKnown(g.keys, rtrees)
    ensures multiset(Stored(g.keys, g.groups)) == multiset(Stored(old(g.keys), old(g.groups))) + multiset(noUsed)
    ensures (g.keys, g.groups) == Fallback(old(g.keys), old(g.groups), noUsed, rtrees, nearest, sqrt)
    ensures forall k :: k in g.keys ==> k in old(g.keys) || k == 0
  {
    ghost var keys0, groups0 := g.keys, g.groups;
    for i := 0 to |noUsed|
      invariant g.Valid()
      invariant (g.keys, g.groups) == Fallback(keys0, groups0, noUsed[..i], rtrees, nearest, sqrt)
    {
      assert noUsed[..i + 1][..i] == noUsed[..i];
      var keys := g.keys;
      SetGroupPoint(noUsed[i], keys, rtrees, nearest, sqrt, g);
    }
    assert noUsed[..|noUsed|] == noUsed;
    FallbackKeys(keys0, groups0, noUsed, rtrees, nearest, sqrt);
    FallbackStored(keys0, groups0, noUsed, rtrees, nearest, sqrt);
  }

  /** The groups of one feature over a sorted index: the first pass, as `DirectRel`, from no
      group at all, followed by the second pass over the vertices it set aside. */
  ghost predicate FeatureGroups(points: seq<Point>, index: seq<Vertex>, rtrees: map<int, seq<Point>>, eps: real,
                                dist: (Point, Point) -> real, nearest: (seq<Point>, Point) -> seq<nat>,
                                sqrt: real -> real, keys: seq<int>, groups: map<int, seq<Point>>)
  {
    exists keys1: seq<int>, groups1: map<int, seq<Point>>, noUsed: seq<Point> ::
      DirectRel(points, index, rtrees, eps, dist, nearest, sqrt, [], map[], keys1, groups1, noUsed) &&
      (keys, groups) == Fallback(keys1, groups1, noUsed, rtrees, nearest, sqrt)
  }

  /** Grouping one feature's vertices (main.py:158-173): the groups hold every vertex exactly
      once, each under the sentinel 0 or a blue line id, unless the run aborts. */
  method GroupFeature(points: seq<Point>, index: seq<Vertex>, rtrees: map<int, seq<Point>>, eps: real,
                      dist: (Point, Point) -> real, nearest: (seq<Point>, Point) -> seq<nat>,
                      sqrt: real -> real)
    returns (g: GroupMap, aborted: bool)
    ensures fresh(g) && g.Valid()
    ensures aborted <==> |points| > 0 && |index| == 0 && 10 < Trunc(eps + 1.0)
    ensures !aborted ==> multiset(Stored(g.keys, g.groups)) == multiset(points)
    ensures !aborted ==> Total(g.keys, g.groups) == |points|
    ensures !aborted ==> KeysKnown(g.keys, rtrees)
    ensures !aborted && SortedByX(index) ==>
      FeatureGroups(points, index, rtrees, eps, dist, nearest, sqrt, g.keys, g.groups)
  {
    g := new GroupMap();
    var noUsed;
    noUsed, aborted := DirectPass(points, index, rtrees, eps, dist, nearest, sqrt, g);
    if aborted {
      return;
    }
    ghost var keys1, groups1 := g.keys, g.groups;
    FallbackPass(noUsed, rtrees, nearest, sqrt, g);
    if SortedByX(index) {
      assert DirectRel(points, index, rtrees, eps, dist, nearest, sqrt, [], map[], keys1, groups1, noUsed);
    }
    TotalIsStoredSize(g.keys, g.groups);
    assert |multiset(Stored(g.keys, g.groups))| == |multiset(points)|;
  }

  /** `cnt_point`: the number of vertices over all groups. */
  method CountPoints(g: GroupMap) returns (cnt: nat)
    requires g.Valid()
    ensures cnt == Total(g.keys, g.groups)
    ensures cnt == |Stored(g.keys, g.groups)|
  {
    cnt := 0;
    for i := 0 to |g.keys|
      invariant forall k :: k in g.keys[..i] ==> k in g.groups
      invariant cnt == Total(g.keys[..i], g.groups)
    {
      assert g.keys[i] in g.keys;
      assert g.keys[..i + 1][..i] == g.keys[..i];
      cnt := cnt + |g.groups[g.keys[i]]|;
    }
    assert g.keys[..|g.keys|] == g.keys;
    TotalIsStoredSize(g.keys, g.groups);
  }

  // ---------------------------------------------------------------------------
  // The vote
  // ---------------------------------------------------------------------------

  /** A line enters the road when its group holds at least a tenth of the feature's vertices. */
  predicate Accepted(len: nat, cnt: nat)
  {
    len as real >= 0.1 * cnt as real
  }

  /** The threshold is exact: at least a tenth means ten times the group reaches the count. */
  lemma AcceptedIff(len: nat, cnt: nat)
    ensures Accepted(len, cnt) <==> 10 * len >= cnt
  {
    assert 0.1 * cnt as real == cnt as real / 10.0;
  }

  /** How many listed keys pass the threshold `cnt`. */
  function AcceptedCount(keys: seq<int>, groups: map<int, seq<Point>>, cnt: nat): nat
    requires forall k :: k in keys ==> k in groups
  {
    if |keys| == 0 then 0
    else
      var last := keys[|keys| - 1];
      assert last in keys;
      AcceptedCount(keys[..|keys| - 1], groups, cnt) + (if Accepted(|groups[last]|, cnt) then 1 else 0)
  }

  lemma {:induction false} AcceptedMass(keys: seq<int>, groups: map<int, seq<Point>>, cnt: nat)
    requires forall k :: k in keys ==> k in groups
    ensures 10 * Total(keys, groups) >= AcceptedCount(keys, groups, cnt) * cnt
    decreases |keys|
  {
    if |keys| > 0 {
      var init, last := keys[..|keys| - 1], keys[|keys| - 1];
      assert last in keys;
      AcceptedMass(init, groups, cnt);
      AcceptedIff(|groups[last]|, cnt);
      var before := AcceptedCount(init, groups, cnt);
      assert (before + 1) * cnt == before * cnt + cnt;
    }
  }

  lemma {:induction false} RejectedMass(keys: seq<int>, groups: map<int, seq<Point>>, cnt: nat)
    requires forall k :: k in keys ==> k in groups
    requires cnt > 0 && AcceptedCount(keys, groups, cnt) == 0
    ensures 10 * Total(keys, groups) <= |keys| * (cnt - 1)
    decreases |keys|
  {
    if |keys| > 0 {
      var init, last := keys[..|keys| - 1], keys[|keys| - 1];
      assert last in keys;
      RejectedMass(init, groups, cnt);
      AcceptedIff(|groups[last]|, cnt);
      assert |keys| * (cnt - 1) == |init| * (cnt - 1) + (cnt - 1);
    }
  }

  /** At most ten groups of a non-empty feature pass the threshold. */
  lemma AtMostTenAccepted(keys: seq<int>, groups: map<int, seq<Point>>)
    requires forall k :: k in keys ==> k in groups
    requires Total(keys, groups) > 0
    ensures AcceptedCount(keys, groups, Total(keys, groups)) <= 10
  {
    var t := Total(keys, groups);
    var n := AcceptedCount(keys, groups, t);
    AcceptedMass(keys, groups, t);
  }

  /** With at most ten groups, a non-empty feature always has a group passing the threshold. */
  lemma SomeAccepted(keys: seq<int>, groups: map<int, seq<Point>>)
    requires forall k :: k in keys ==> k in groups
    requires |keys| <= 10 && Total(keys, groups) > 0
    ensures AcceptedCount(keys, groups, Total(keys, groups)) > 0
  {
    var t := Total(keys, groups);
    if AcceptedCount(keys, groups, t) == 0 {
      RejectedMass(keys, groups, t);
    }
  }

  // ---------------------------------------------------------------------------
  // Choosing the lines of the road
  // ---------------------------------------------------------------------------

  /** The keys, in order, whose group passes the threshold and that name a blue line: the union
      raises, and skips the key, when no blue line carries it. */
  function Selected(keys: seq<int>, groups: map<int, seq<Point>>, cnt: nat, links: set<int>): seq<int>
    requires forall k :: k in keys ==> k in groups
  {
    if |keys| == 0 then []
    else
      var last := keys[|keys| - 1];
      assert last in keys;
      Selected(keys[..|keys| - 1], groups, cnt, links) +
        (if Accepted(|groups[last]|, cnt) && last in links then [last] else [])
  }

  /** A key is selected exactly when it is listed, passes the threshold and names a blue line;
      no key is selected twice. */
  lemma {:induction false} SelectedExactly(keys: seq<int>, groups: map<int, seq<Point>>, cnt: nat, links: set<int>)
    requires forall k :: k in keys ==> k in groups
    ensures forall k :: k in Selected(keys, groups, cnt, links) <==>
      k in keys && Accepted(|groups[k]|, cnt) && k in links
    decreases |keys|
  {
    if |keys| > 0 {
      assert keys[|keys| - 1] in keys;
      SelectedExactly(keys[..|keys| - 1], groups, cnt, links);
    }
  }

  /** No key is selected twice when every key is listed once. */
  lemma {:induction false} SelectedDistinct(keys: seq<int>, groups: map<int, seq<Point>>, cnt: nat, links: set<int>)
    requires forall k :: k in keys ==> k in groups
    requires forall i, j :: 0 <= i < j < |keys| ==> keys[i] != keys[j]
    ensures forall i, j :: 0 <= i < j < |Selected(keys, groups, cnt, links)| ==>
      Selected(keys, groups, cnt, links)[i] != Selected(keys, groups, cnt, links)[j]
    decreases |keys|
  {
    if |keys| > 0 {
      var init, last := keys[..|keys| - 1], keys[|keys| - 1];
      assert last in keys;
      SelectedDistinct(init, groups, cnt, links);
      SelectedExactly(init, groups, cnt, links);
      assert last !in init;
    }
  }

  /** The loop over the groups that builds the road (main.py:179-186), as the ids it unites. */
  method SelectForUnion(g: GroupMap, cnt: nat, links: set<int>) returns (ids: seq<int>)
    requires g.Valid()
    ensures ids == Selected(g.keys, g.groups, cnt, links)
    ensures forall k :: k in ids <==> k in g.keys && Accepted(|g.groups[k]|, cnt) && k in links
    ensures forall i, j :: 0 <= i < j < |ids| ==> ids[i] != ids[j]
  {
    ids := [];
    for i := 0 to |g.keys|
      invariant forall k :: k in g.keys[..i] ==> k in g.groups
      invariant ids == Selected(g.keys[..i], g.groups, cnt, links)
    {
      var line := g.keys[i];
      assert line in g.keys;
      assert g.keys[..i + 1][..i] == g.keys[..i];
      if Accepted(|g.groups[line]|, cnt) {
        if line !in links {
          continue;
        }
        ids := ids + [line];
      }
    }
    assert g.keys[..|g.keys|] == g.keys;
    SelectedExactly(g.keys, g.groups, cnt, links);
    SelectedDistinct(g.keys, g.groups, cnt, links);
  }

  /** `road` is the outcome of the vote over a grouping of `points` that the two passes can
      produce over a sorted index: the keys, in order, whose group holds at least a tenth of all
      grouped vertices and that name a blue line. */
  ghost predicate VotedRoad(points: seq<Point>, index: seq<Vertex>, rtrees: map<int, seq<Point>>,
                            links: set<int>, eps: real, dist: (Point, Point) -> real,
                            nearest: (seq<Point>, Point) -> seq<nat>, sqrt: real -> real, road: seq<int>)
  {
    exists keys: seq<int>, groups: map<int, seq<Point>> ::
      FeatureGroups(points, index, rtrees, eps, dist, nearest, sqrt, keys, groups) &&
      WellFormed(keys, groups) && multiset(Stored(keys, groups)) == multiset(points) &&
      road == Selected(keys, groups, Total(keys, groups), links)
  }

  /** A feature without vertices has exactly the empty road. */
  lemma EmptyFeatureRoad(index: seq<Vertex>, rtrees: map<int, seq<Point>>, links: set<int>, eps: real,
                         dist: (Point, Point) -> real, nearest: (seq<Point>, Point) -> seq<nat>,
                         sqrt: real -> real, road: seq<int>)
    ensures VotedRoad([], index, rtrees, links, eps, dist, nearest, sqrt, road) <==> road == []
  {
    if VotedRoad([], index, rtrees, links, eps, dist, nearest, sqrt, road) {
      var keys, groups :| FeatureGroups([], index, rtrees, eps, dist, nearest, sqrt, keys, groups) &&
        WellFormed(keys, groups) && road == Selected(keys, groups, Total(keys, groups), links);
      var keys1, groups1, noUsed :|
        DirectRel([], index, rtrees, eps, dist, nearest, sqrt, [], map[], keys1, groups1, noUsed) &&
        (keys, groups) == Fallback(keys1, groups1, noUsed, rtrees, nearest, sqrt);
      assert keys == [];
    }
    if road == [] {
      var keys: seq<int>, groups: map<int, seq<Point>>, noUsed: seq<Point> := [], map[], [];
      assert DirectRel([], index, rtrees, eps, dist, nearest, sqrt, [], map[], keys, groups, noUsed);
      assert (keys, groups) == Fallback(keys, groups, noUsed, rtrees, nearest, sqrt);
      assert FeatureGroups([], index, rtrees, eps, dist, nearest, sqrt, keys, groups);
      assert road == Selected(keys, groups, Total(keys, groups), links);
    }
  }

  /** For a lone vertex the first pass is the single step from no group at all. */
  lemma LoneDirect(p: Point, index: seq<Vertex>, rtrees: map<int, seq<Point>>, eps: real,
                   dist: (Point, Point) -> real, nearest: (seq<Point>, Point) -> seq<nat>, sqrt: real -> real,
                   keys: seq<int>, groups: map<int, seq<Point>>, noUsed: seq<Point>)
    ensures DirectRel([p], index, rtrees, eps, dist, nearest, sqrt, [], map[], keys, groups, noUsed) <==>
      DirectStepRel(p, index, rtrees, eps, dist, nearest, sqrt, [], map[], [], keys, groups, noUsed)
  {
    assert [p][..0] == [];
    assert DirectRel([], index, rtrees, eps, dist, nearest, sqrt, [], map[], [], map[], []);
  }

  /** A single group of one vertex passes the threshold: the road is its key when that names a
      blue line. */
  lemma OneGroupRoad(k: int, p: Point, links: set<int>)
    ensures WellFormed([k], map[k := [p]]) && multiset(Stored([k], map[k := [p]])) == multiset([p])
    ensures Selected([k], map[k := [p]], Total([k], map[k := [p]]), links) == (if k in links then [k] else [])
  {
    assert [k][..0] == [];
    AcceptedIff(1, 1);
  }

  /** With one candidate line at a computable distance, the vertex goes under that line and
      only there. */
  lemma SingleCandidatePlaced(p: Point, k: int, rtrees: map<int, seq<Point>>,
                              nearest: (seq<Point>, Point) -> seq<nat>, sqrt: real -> real,
                              keys: seq<int>, groups: map<int, seq<Point>>)
    requires LineDistance(p, k, rtrees, nearest, sqrt).Some?
    ensures PlacedAmong(p, {k}, rtrees, nearest, sqrt, [], map[], keys, groups) <==>
      keys == [k] && groups == map[k := [p]]
  {
    BestOfOne(p, k, rtrees, nearest, sqrt);
    var none: map<int, seq<Point>>, nothing: seq<Point> := map[], [];
    assert nothing + [p] == [p];
    assert AddKey([], k) == [k] && AddPoint(none, k, p) == map[k := [p]];
    if PlacedAmong(p, {k}, rtrees, nearest, sqrt, [], none, keys, groups) {
      var lines: seq<int> :| PlacedBy(lines, p, {k}, rtrees, nearest, sqrt, [], none, keys, groups);
      ListedOnce(lines, k);
      assert keys == AddKey([], k) && groups == AddPoint(none, k, p);
    }
    if keys == [k] && groups == map[k := [p]] {
      var lines: seq<int> := [k];
      assert forall x :: x in lines <==> x in {k};
      assert PlacedBy(lines, p, {k}, rtrees, nearest, sqrt, [], none, keys, groups);
    }
  }

  /** Each id of `{k}` listed once is the list `[k]`. */
  lemma ListedOnce(lines: seq<int>, k: int)
    requires forall x :: x in lines <==> x in {k}
    requires forall i, j :: 0 <= i < j < |lines| ==> lines[i] != lines[j]
    ensures lines == [k]
  {
    assert k in lines;
    assert lines[0] in lines;
    assert k !in lines[1..];
    assert forall x :: x in lines[1..] ==> x in lines;
    HeadListed(lines[1..]);
    assert lines[1..] == [];
    assert lines == [lines[0]] + lines[1..];
  }

  /** A solver hint for `ListedOnce`: a non-empty list holds its first element. It states no
      property of the program. */
  lemma HeadListed(s: seq<int>)
    ensures |s| > 0 ==> s[0] in s
  {
  }

  /** The only candidate, at a computable distance, is the closest one. */
  lemma BestOfOne(p: Point, k: int, rtrees: map<int, seq<Point>>,
                  nearest: (seq<Point>, Point) -> seq<nat>, sqrt: real -> real)
    requires LineDistance(p, k, rtrees, nearest, sqrt).Some?
    ensures Best([k], Distances(p, [k], rtrees, nearest, sqrt)).link == k
  {
    assert [k][..0] == [];
    assert Distances(p, [k], rtrees, nearest, sqrt)[..0] == [];
  }

  /** A lone vertex whose scan finds exactly one line, at a computable distance, forms the single
      group of that line. */
  lemma SingleCandidateGroups(p: Point, k: int, index: seq<Vertex>, rtrees: map<int, seq<Point>>,
                              eps: real, dist: (Point, Point) -> real, nearest: (seq<Point>, Point) -> seq<nat>,
                              sqrt: real -> real, keys: seq<int>, groups: map<int, seq<Point>>)
    requires ScanFrom(index, p, eps, dist, 10) == Some({k})
    requires LineDistance(p, k, rtrees, nearest, sqrt).Some?
    ensures FeatureGroups([p], index, rtrees, eps, dist, nearest, sqrt, keys, groups) <==>
      keys == [k] && groups == map[k := [p]]
  {
    if FeatureGroups([p], index, rtrees, eps, dist, nearest, sqrt, keys, groups) {
      var keysB, groupsB, noUsed :|
        DirectRel([p], index, rtrees, eps, dist, nearest, sqrt, [], map[], keysB, groupsB, noUsed) &&
        (keys, groups) == Fallback(keysB, groupsB, noUsed, rtrees, nearest, sqrt);
      LoneDirect(p, index, rtrees, eps, dist, nearest, sqrt, keysB, groupsB, noUsed);
      SingleCandidatePlaced(p, k, rtrees, nearest, sqrt, keysB, groupsB);
    }
    if keys == [k] && groups == map[k := [p]] {
      SingleCandidatePlaced(p, k, rtrees, nearest, sqrt, keys, groups);
      LoneDirect(p, index, rtrees, eps, dist, nearest, sqrt, keys, groups, []);
      assert (keys, groups) == Fallback(keys, groups, [], rtrees, nearest, sqrt);
    }
  }

  /** A lone vertex whose scan finds exactly one line, at a computable distance, is grouped under
      that line: the road is that line when it names a blue line, and empty otherwise. */
  lemma SingleCandidateRoad(p: Point, k: int, index: seq<Vertex>, rtrees: map<int, seq<Point>>, links: set<int>,
                            eps: real, dist: (Point, Point) -> real, nearest: (seq<Point>, Point) -> seq<nat>,
                            sqrt: real -> real, road: seq<int>)
    requires ScanFrom(index, p, eps, dist, 10) == Some({k})
    requires LineDistance(p, k, rtrees, nearest, sqrt).Some?
    ensures VotedRoad([p], index, rtrees, links, eps, dist, nearest, sqrt, road) <==>
      road == (if k in links then [k] else [])
  {
    OneGroupRoad(k, p, links);
    if VotedRoad([p], index, rtrees, links, eps, dist, nearest, sqrt, road) {
      var keys, groups :| FeatureGroups([p], index, rtrees, eps, dist, nearest, sqrt, keys, groups) &&
        WellFormed(keys, groups) && road == Selected(keys, groups, Total(keys, groups), links);
      SingleCandidateGroups(p, k, index, rtrees, eps, dist, nearest, sqrt, keys, groups);
    }
    if road == (if k in links then [k] else []) {
      var keys, groups := [k], map[k := [p]];
      SingleCandidateGroups(p, k, index, rtrees, eps, dist, nearest, sqrt, keys, groups);
    }
  }

  /** The second pass over one set-aside vertex. */
  lemma FallbackOne(keys: seq<int>, groups: map<int, seq<Point>>, p: Point, rtrees: map<int, seq<Point>>,
                    nearest: (seq<Point>, Point) -> seq<nat>, sqrt: real -> real)
    ensures Fallback(keys, groups, [p], rtrees, nearest, sqrt) ==
      (AddKey(keys, Best(keys, Distances(p, keys, rtrees, nearest, sqrt)).link),
       AddPoint(groups, Best(keys, Distances(p, keys, rtrees, nearest, sqrt)).link, p))
  {
    assert [p][..0] == [];
  }

  /** A lone vertex whose scan finds no line is set aside and then forms the single group of the
      sentinel 0. */
  lemma NoCandidateGroups(p: Point, index: seq<Vertex>, rtrees: map<int, seq<Point>>,
                          eps: real, dist: (Point, Point) -> real, nearest: (seq<Point>, Point) -> seq<nat>,
                          sqrt: real -> real, keys: seq<int>, groups: map<int, seq<Point>>)
    requires ScanFrom(index, p, eps, dist, 10) == Some({})
    ensures FeatureGroups([p], index, rtrees, eps, dist, nearest, sqrt, keys, groups) <==>
      keys == [0] && groups == map[0 := [p]]
  {
    assert [p][..0] == [];
    assert Distances(p, [], rtrees, nearest, sqrt) == [];
    var none: map<int, seq<Point>> := map[];
    var nothing: seq<Point> := [];
    assert nothing + [p] == [p];
    assert AddPoint(none, 0, p) == map[0 := [p]];
    FallbackOne([], none, p, rtrees, nearest, sqrt);
    assert Best([], Distances(p, [], rtrees, nearest, sqrt)).link == 0;
    if FeatureGroups([p], index, rtrees, eps, dist, nearest, sqrt, keys, groups) {
      var keysB, groupsB, noUsed :|
        DirectRel([p], index, rtrees, eps, dist, nearest, sqrt, [], map[], keysB, groupsB, noUsed) &&
        (keys, groups) == Fallback(keysB, groupsB, noUsed, rtrees, nearest, sqrt);
      LoneDirect(p, index, rtrees, eps, dist, nearest, sqrt, keysB, groupsB, noUsed);
    }
    if keys == [0] && groups == map[0 := [p]] {
      assert DirectStepRel(p, index, rtrees, eps, dist, nearest, sqrt, [], none, [], [], none, [p]);
      LoneDirect(p, index, rtrees, eps, dist, nearest, sqrt, [], none, [p]);
      assert DirectRel([p], index, rtrees, eps, dist, nearest, sqrt, [], map[], [], none, [p]);
      assert AddKey([], 0) == keys;
      assert (keys, groups) == Fallback([], none, [p], rtrees, nearest, sqrt);
    }
  }

  /** A lone vertex whose scan finds no line is grouped under the sentinel 0: the road is `[0]`
      when 0 names a blue line, and empty otherwise. */
  lemma NoCandidateRoad(p: Point, index: seq<Vertex>, rtrees: map<int, seq<Point>>, links: set<int>,
                        eps: real, dist: (Point, Point) -> real, nearest: (seq<Point>, Point) -> seq<nat>,
                        sqrt: real -> real, road: seq<int>)
    requires ScanFrom(index, p, eps, dist, 10) == Some({})
    ensures VotedRoad([p], index, rtrees, links, eps, dist, nearest, sqrt, road) <==>
      road == (if 0 in links then [0] else [])
  {
    OneGroupRoad(0, p, links);
    if VotedRoad([p], index, rtrees, links, eps, dist, nearest, sqrt, road) {
      var keys, groups :| FeatureGroups([p], index, rtrees, eps, dist, nearest, sqrt, keys, groups) &&
        WellFormed(keys, groups) && road == Selected(keys, groups, Total(keys, groups), links);
      NoCandidateGroups(p, index, rtrees, eps, dist, nearest, sqrt, keys, groups);
    }
    if road == (if 0 in links then [0] else []) {
      var keys, groups := [0], map[0 := [p]];
      NoCandidateGroups(p, index, rtrees, eps, dist, nearest, sqrt, keys, groups);
    }
  }

  /** One red feature (main.py:155-186): its reprojected vertices are grouped and the ids of the
      blue lines its road unites are returned, each once; `None` when the run aborts. */
  method ConflateFeature(feature: seq<seq<Point>>, index: seq<Vertex>, rtrees: map<int, seq<Point>>,
                         links: set<int>, eps: real, dist: (Point, Point) -> real,
                         nearest: (seq<Point>, Point) -> seq<nat>, sqrt: real -> real,
                         transform: Point -> Point)
    returns (road: Option<seq<int>>)
    ensures road.None? <==> |Flatten(feature)| > 0 && |index| == 0 && 10 < Trunc(eps + 1.0)
    ensures road.Some? ==> forall id :: id in road.value ==> id in links
    ensures road.Some? ==> forall i, j :: 0 <= i < j < |road.value| ==> road.value[i] != road.value[j]
    ensures road.Some? && SortedByX(index) ==>
      VotedRoad(Reproject(Flatten(feature), transform, true), index, rtrees, links, eps, dist, nearest, sqrt,
                road.value)
    ensures road.Some? ==> FeatureRoad(feature, index, rtrees, links, eps, dist, nearest, sqrt, transform, road.value)
  {
    var points := ExtractPoint(feature, transform, true);
    var g, aborted := GroupFeature(points, index, rtrees, eps, dist, nearest, sqrt);
    if aborted {
      return None;
    }
    var cnt := CountPoints(g);
    var ids := SelectForUnion(g, cnt, links);
    assert WellFormed(g.keys, g.groups);
    return Some(ids);
  }

  /** The road of one feature: blue line ids only and, over a sorted index, as the vote over its
      reprojected vertices chose them. */
  ghost predicate FeatureRoad(feature: seq<seq<Point>>, index: seq<Vertex>, rtrees: map<int, seq<Point>>,
                              links: set<int>, eps: real, dist: (Point, Point) -> real,
                              nearest: (seq<Point>, Point) -> seq<nat>, sqrt: real -> real,
                              transform: Point -> Point, road: seq<int>)
  {
    (forall id :: id in road ==> id in links) &&
    (SortedByX(index) ==>
      VotedRoad(Reproject(Flatten(feature), transform, true), index, rtrees, links, eps, dist, nearest, sqrt, road))
  }

  /** One road per feature, each the feature's `FeatureRoad`. */
  ghost predicate AllRoads(red: seq<seq<seq<Point>>>, index: seq<Vertex>, rtrees: map<int, seq<Point>>,
                           links: set<int>, eps: real, dist: (Point, Point) -> real,
                           nearest: (seq<Point>, Point) -> seq<nat>, sqrt: real -> real,
                           transform: Point -> Point, roads: seq<seq<int>>)
  {
    |roads| == |red| &&
    forall f :: 0 <= f < |red| ==>
      FeatureRoad(red[f], index, rtrees, links, eps, dist, nearest, sqrt, transform, roads[f])
  }

  /** Appending the next feature's road extends the roads of the features before it. */
  lemma AllRoadsNext(red: seq<seq<seq<Point>>>, index: seq<Vertex>, rtrees: map<int, seq<Point>>,
                     links: set<int>, eps: real, dist: (Point, Point) -> real,
                     nearest: (seq<Point>, Point) -> seq<nat>, sqrt: real -> real,
                     transform: Point -> Point, roads: seq<seq<int>>, f: nat, road: seq<int>)
    requires f < |red| && AllRoads(red[..f], index, rtrees, links, eps, dist, nearest, sqrt, transform, roads)
    requires FeatureRoad(red[f], index, rtrees, links, eps, dist, nearest, sqrt, transform, road)
    ensures AllRoads(red[..f + 1], index, rtrees, links, eps, dist, nearest, sqrt, transform, roads + [road])
  {
    forall f' | 0 <= f' < f + 1
      ensures FeatureRoad(red[..f + 1][f'], index, rtrees, links, eps, dist, nearest, sqrt, transform,
                          (roads + [road])[f'])
    {
      if f' < f {
        assert red[..f + 1][f'] == red[..f][f'];
      }
    }
  }

  /** The per-feature loop (main.py:154-188): one road per red feature, in order, or an abort. */
  method ConflateAll(red: seq<seq<seq<Point>>>, index: seq<Vertex>, rtrees: map<int, seq<Point>>,
                     links: set<int>, eps: real, dist: (Point, Point) -> real,
                     nearest: (seq<Point>, Point) -> seq<nat>, sqrt: real -> real,
                     transform: Point -> Point)
    returns (roads: Option<seq<seq<int>>>)
    ensures roads.None? <==>
      (exists f :: 0 <= f < |red| && |Flatten(red[f])| > 0) && |index| == 0 && 10 < Trunc(eps + 1.0)
    ensures roads.Some? ==> AllRoads(red, index, rtrees, links, eps, dist, nearest, sqrt, transform, roads.value)
  {
    var result: seq<seq<int>> := [];
    for f := 0 to |red|
      invariant AllRoads(red[..f], index, rtrees, links, eps, dist, nearest, sqrt, transform, result)
      invariant !((exists f' :: 0 <= f' < f && |Flatten(red[f'])| > 0) && |index| == 0 && 10 < Trunc(eps + 1.0))
    {
      var road := ConflateFeature(red[f], index, rtrees, links, eps, dist, nearest, sqrt, transform);
      if road.None? {
        return None;
      }
      AllRoadsNext(red, index, rtrees, links, eps, dist, nearest, sqrt, transform, result, f, road.value);
      result := result + [road.value];
    }
    assert red[..|red|] == red;
    return Some(result);
  }

  /** The conflation run (main.py:138-188): the index is built from the blue lines, and every red
      feature yields the ids of the blue lines its road unites, or the run aborts. */
  method Conflate(red: seq<seq<seq<Point>>>, blue: seq<BlueLine>, eps: real,
                  dist: (Point, Point) -> real, nearest: (seq<Point>, Point) -> seq<nat>,
                  sqrt: real -> real, transform: Point -> Point)
    returns (roads: Option<seq<seq<int>>>)
    ensures roads.None? <==>
      (exists f :: 0 <= f < |red| && |Flatten(red[f])| > 0) && |Tagged(blue)| == 0 && 10 < Trunc(eps + 1.0)
    ensures roads.Some? ==> |roads.value| == |red|
    ensures roads.Some? ==> forall f, id :: 0 <= f < |red| && id in roads.value[f] ==> id in Links(blue)
    ensures roads.Some? ==> forall f :: 0 <= f < |red| ==>
      VotedRoad(Reproject(Flatten(red[f]), transform, true), SortByX(Tagged(blue)), LineTable(blue), Links(blue),
                eps, dist, nearest, sqrt, roads.value[f])
  {
    var index, rtrees := BuildIndex(blue);
    assert |index| == |Tagged(blue)| by {
      assert |multiset(index)| == |multiset(Tagged(blue))|;
    }
    roads := ConflateAll(red, index, rtrees, Links(blue), eps, dist, nearest, sqrt, transform);
  }
}
