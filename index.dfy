/** The blue reference lines and the two structures built from them before any matching
    starts (main.py:138-151): one x-sorted list of every blue vertex tagged with its line id,
    and a per-line table of that line's vertices, which is what the line's spatial tree holds. */
module Index {
  import opened GeomDist

  /** An entry `(x, y, link_id)` of the vertex index. */
  datatype Vertex = Vertex(x: real, y: real, link: int)

  /** A blue reference line: its `link_id` and its multi-line geometry, part by part. */
  datatype BlueLine = BlueLine(link: int, geometry: seq<seq<Point>>)

  function Position(v: Vertex): Point
  {
    Point(v.x, v.y)
  }

  predicate SortedByX(s: seq<Vertex>)
  {
    forall i, j :: 0 <= i < j < |s| ==> s[i].x <= s[j].x
  }

  // ---------------------------------------------------------------------------
  // extract_point
  // ---------------------------------------------------------------------------

  /** The coordinates of a multi-line geometry, part after part. */
  function Flatten(geom: seq<seq<Point>>): seq<Point>
  {
    if |geom| == 0 then [] else Flatten(geom[..|geom| - 1]) + geom[|geom| - 1]
  }

  /** Every coordinate passed through the reprojection. */
  function MapTransform(s: seq<Point>, transform: Point -> Point): (r: seq<Point>)
    ensures |r| == |s|
    ensures forall i :: 0 <= i < |s| ==> r[i] == transform(s[i])
  {
    if |s| == 0 then [] else MapTransform(s[..|s| - 1], transform) + [transform(s[|s| - 1])]
  }

  /** The coordinates `extract_point` emits: reprojected only when `trans` is set. */
  function Reproject(s: seq<Point>, transform: Point -> Point, trans: bool): seq<Point>
  {
    if trans then MapTransform(s, transform) else s
  }

  /** Flattening commutes with concatenating geometries. */
  lemma {:induction false} FlattenAppend(g: seq<seq<Point>>, h: seq<seq<Point>>)
    ensures Flatten(g + h) == Flatten(g) + Flatten(h)
    decreases |h|
  {
    if |h| == 0 {
      assert g + h == g;
    } else {
      var h0 := h[..|h| - 1];
      assert (g + h)[..|g + h| - 1] == g + h0;
      FlattenAppend(g, h0);
    }
  }

  /** `extract_point`: the coordinates of every part in order, reprojected when `trans`. */
  method ExtractPoint(geom: seq<seq<Point>>, transform: Point -> Point, trans: bool)
    returns (points: seq<Point>)
    ensures points == Reproject(Flatten(geom), transform, trans)
  {
    points := [];
    for k := 0 to |geom|
      invariant points == Reproject(Flatten(geom[..k]), transform, trans)
    {
      ghost var done := Flatten(geom[..k]);
      for i := 0 to |geom[k]|
        invariant points == Reproject(done + geom[k][..i], transform, trans)
      {
        var p := geom[k][i];
        if trans {
          p := transform(p);
        }
        assert (done + geom[k][..i + 1])[..|done| + i] == done + geom[k][..i];
        points := points + [p];
      }
      assert geom[..k + 1][..k] == geom[..k];
      assert geom[k][..|geom[k]|] == geom[k];
    }
    assert geom[..|geom|] == geom;
  }

  // ---------------------------------------------------------------------------
  // Sorting the vertex index by x (`all_points_x.sort(key=lambda x: x[0])`)
  // ---------------------------------------------------------------------------

  /** Insert `v` into an x-sorted list in front of the first entry that is not smaller. */
  function InsertByX(v: Vertex, s: seq<Vertex>): (r: seq<Vertex>)
    requires SortedByX(s)
    ensures SortedByX(r)
    ensures multiset(r) == multiset(s) + multiset{v}
    ensures |r| == |s| + 1
    ensures |r| > 0 && (r[0] == v || (|s| > 0 && r[0] == s[0]))
  {
    if |s| == 0 then [v]
    else if v.x <= s[0].x then [v] + s
    else
      assert SortedByX(s[1..]);
      assert s == [s[0]] + s[1..];
      [s[0]] + InsertByX(v, s[1..])
  }

  /** The index in ascending x, holding exactly the entries it was given. */
  function SortByX(s: seq<Vertex>): (r: seq<Vertex>)
    ensures SortedByX(r)
    ensures multiset(r) == multiset(s)
  {
    if |s| == 0 then []
    else
      assert s == [s[0]] + s[1..];
      InsertByX(s[0], SortByX(s[1..]))
  }

  /** The entries of `s` whose key is exactly `x`, in their order in `s`. */
  function WithX(s: seq<Vertex>, x: real): seq<Vertex>
  {
    if |s| == 0 then [] else (if s[0].x == x then [s[0]] else []) + WithX(s[1..], x)
  }

  lemma WithXCons(a: Vertex, t: seq<Vertex>, x: real)
    ensures WithX([a] + t, x) == (if a.x == x then [a] else []) + WithX(t, x)
  {
    assert ([a] + t)[1..] == t;
  }

  /** Inserting `v` puts it in front of every entry with the same key. */
  lemma {:induction false} InsertByXStable(v: Vertex, s: seq<Vertex>, x: real)
    requires SortedByX(s)
    ensures WithX(InsertByX(v, s), x) == (if v.x == x then [v] else []) + WithX(s, x)
    decreases |s|
  {
    if |s| == 0 {
      WithXCons(v, s, x);
      assert [v] + s == [v];
    } else if v.x <= s[0].x {
      WithXCons(v, s, x);
    } else {
      assert SortedByX(s[1..]);
      InsertByXStable(v, s[1..], x);
      StableStep(s[0], v, InsertByX(v, s[1..]), s[1..], x);
      assert s == [s[0]] + s[1..];
    }
  }

  /** Keeping a smaller entry in front does not disturb the entries with `v`'s key. */
  lemma StableStep(a: Vertex, v: Vertex, rest: seq<Vertex>, tail: seq<Vertex>, x: real)
    requires a.x < v.x
    requires WithX(rest, x) == (if v.x == x then [v] else []) + WithX(tail, x)
    ensures WithX([a] + rest, x) == (if v.x == x then [v] else []) + WithX([a] + tail, x)
  {
    WithXCons(a, rest, x);
    WithXCons(a, tail, x);
  }

  /** `list.sort` is stable: entries with equal keys keep their input order. */
  lemma {:induction false} SortByXStable(s: seq<Vertex>, x: real)
    ensures WithX(SortByX(s), x) == WithX(s, x)
    decreases |s|
  {
    if |s| > 0 {
      SortByXStable(s[1..], x);
      InsertByXStable(s[0], SortByX(s[1..]), x);
    }
  }

  /** Two vertices at the same x stay in input order, which decides which of them a window's
      lower end reads. */
  lemma SortByXTies()
    ensures SortByX([Vertex(0.0, 0.0, 1), Vertex(0.0, 0.0, 2), Vertex(1.0, 0.0, 3)]) ==
      [Vertex(0.0, 0.0, 1), Vertex(0.0, 0.0, 2), Vertex(1.0, 0.0, 3)]
  {
    var a, b, c := Vertex(0.0, 0.0, 1), Vertex(0.0, 0.0, 2), Vertex(1.0, 0.0, 3);
    assert [a, b, c][1..] == [b, c];
    assert [b, c][1..] == [c];
    assert [c][1..] == [];
    assert SortByX([c]) == [c];
    assert SortByX([b, c]) == [b, c];
  }

  // ---------------------------------------------------------------------------
  // Building the index and the per-line table
  // ---------------------------------------------------------------------------

  /** Every vertex of a line, tagged with its id. */
  function TagAll(pts: seq<Point>, link: int): (r: seq<Vertex>)
    ensures |r| == |pts|
    ensures forall i :: 0 <= i < |pts| ==> r[i] == Vertex(pts[i].x, pts[i].y, link)
  {
    if |pts| == 0 then [] else TagAll(pts[..|pts| - 1], link) + [Vertex(pts[|pts| - 1].x, pts[|pts| - 1].y, link)]
  }

  /** The entries appended to the index, line after line, before it is sorted. */
  function Tagged(blue: seq<BlueLine>): seq<Vertex>
  {
    if |blue| == 0 then []
    else
      var last := blue[|blue| - 1];
      Tagged(blue[..|blue| - 1]) + TagAll(Flatten(last.geometry), last.link)
  }

  /** The per-line table: each line's entry is (re)created empty and filled with its vertices,
      so an id seen twice keeps only the vertices of its last line. */
  function LineTable(blue: seq<BlueLine>): map<int, seq<Point>>
  {
    if |blue| == 0 then map[]
    else
      var last := blue[|blue| - 1];
      LineTable(blue[..|blue| - 1])[last.link := Flatten(last.geometry)]
  }

  function Links(blue: seq<BlueLine>): set<int>
  {
    set k | 0 <= k < |blue| :: blue[k].link
  }

  predicate DistinctLinks(blue: seq<BlueLine>)
  {
    forall i, j :: 0 <= i < j < |blue| ==> blue[i].link != blue[j].link
  }

  /** The table has an entry for every line id and no other. */
  lemma {:induction false} LineTableKeys(blue: seq<BlueLine>)
    ensures LineTable(blue).Keys == Links(blue)
    decreases |blue|
  {
    if |blue| > 0 {
      var init := blue[..|blue| - 1];
      LineTableKeys(init);
      assert Links(blue) == Links(init) + {blue[|blue| - 1].link} by {
        forall id | id in Links(blue) ensures id in Links(init) + {blue[|blue| - 1].link} {
          var k :| 0 <= k < |blue| && blue[k].link == id;
          if k < |blue| - 1 {
            assert init[k] == blue[k];
          }
        }
        forall id | id in Links(init) ensures id in Links(blue) {
          var k :| 0 <= k < |init| && init[k].link == id;
          assert blue[k] == init[k];
        }
      }
    }
  }

  /** A line's entry holds the vertices of the last line carrying its id. */
  lemma {:induction false} LineTableLast(blue: seq<BlueLine>, k: nat)
    requires k < |blue|
    requires forall j :: k < j < |blue| ==> blue[j].link != blue[k].link
    ensures blue[k].link in LineTable(blue)
    ensures LineTable(blue)[blue[k].link] == Flatten(blue[k].geometry)
    decreases |blue|
  {
    if k < |blue| - 1 {
      var init := blue[..|blue| - 1];
      assert init[k] == blue[k];
      LineTableLast(init, k);
    }
  }

  /** With distinct ids, every indexed vertex belongs to the table entry of its tag. */
  lemma {:induction false} TaggedInTable(blue: seq<BlueLine>, v: Vertex)
    requires DistinctLinks(blue)
    requires v in Tagged(blue)
    ensures v.link in LineTable(blue)
    ensures Position(v) in LineTable(blue)[v.link]
    decreases |blue|
  {
    var init := blue[..|blue| - 1];
    var last := blue[|blue| - 1];
    var pts := Flatten(last.geometry);
    if v in Tagged(init) {
      assert DistinctLinks(init) by {
        forall i, j | 0 <= i < j < |init| ensures init[i].link != init[j].link {
          assert init[i] == blue[i] && init[j] == blue[j];
        }
      }
      TaggedInTable(init, v);
      assert v.link != last.link by {
        TaggedLinks(init, v);
        var k :| 0 <= k < |init| && init[k].link == v.link;
        assert blue[k] == init[k];
      }
    } else {
      var i :| 0 <= i < |pts| && TagAll(pts, last.link)[i] == v;
      assert Position(v) == pts[i];
    }
  }

  /** Every tag in the index is the id of some line. */
  lemma {:induction false} TaggedLinks(blue: seq<BlueLine>, v: Vertex)
    requires v in Tagged(blue)
    ensures v.link in Links(blue)
    decreases |blue|
  {
    var init := blue[..|blue| - 1];
    if v in Tagged(init) {
      TaggedLinks(init, v);
      var k :| 0 <= k < |init| && init[k].link == v.link;
      assert blue[k] == init[k];
    } else {
      var pts := Flatten(blue[|blue| - 1].geometry);
      var i :| 0 <= i < |pts| && TagAll(pts, blue[|blue| - 1].link)[i] == v;
    }
  }

  /** Index building (main.py:138-151): every blue vertex is appended to the index with its
      line id and to its line's table entry, and the index is then sorted by x. */
  method BuildIndex(blue: seq<BlueLine>) returns (index: seq<Vertex>, rtrees: map<int, seq<Point>>)
    ensures index == SortByX(Tagged(blue))
    ensures SortedByX(index)
    ensures multiset(index) == multiset(Tagged(blue))
    ensures rtrees == LineTable(blue)
    ensures rtrees.Keys == Links(blue)
    ensures forall v :: v in index ==> v.link in rtrees
    ensures DistinctLinks(blue) ==> forall v :: v in index ==> Position(v) in rtrees[v.link]
  {
    var all: seq<Vertex> := [];
    rtrees := map[];
    for k := 0 to |blue|
      invariant all == Tagged(blue[..k])
      invariant rtrees == LineTable(blue[..k])
    {
      var row := ExtractPoint(blue[k].geometry, p => p, false);
      var link := blue[k].link;
      rtrees := rtrees[link := []];
      for i := 0 to |row|
        invariant all == Tagged(blue[..k]) + TagAll(row[..i], link)
        invariant rtrees == LineTable(blue[..k])[link := row[..i]]
      {
        assert row[..i + 1][..i] == row[..i];
        assert row[..i + 1] == row[..i] + [row[i]];
        all := all + [Vertex(row[i].x, row[i].y, link)];
        rtrees := rtrees[link := rtrees[link] + [row[i]]];
      }
      assert row[..|row|] == row;
      assert blue[..k + 1][..k] == blue[..k];
    }
    assert blue[..|blue|] == blue;
    index := SortByX(all);
    LineTableKeys(blue);
    IndexInTable(blue, index);
  }

  /** Any arrangement of the tagged vertices has every tag in the table and, with distinct ids,
      every vertex in its tag's entry. */
  lemma IndexInTable(blue: seq<BlueLine>, index: seq<Vertex>)
    requires multiset(index) == multiset(Tagged(blue))
    ensures forall v :: v in index ==> v.link in LineTable(blue)
    ensures DistinctLinks(blue) ==> forall v :: v in index ==> Position(v) in LineTable(blue)[v.link]
  {
    LineTableKeys(blue);
    forall v | v in index ensures v.link in LineTable(blue) {
      assert v in multiset(Tagged(blue));
      TaggedLinks(blue, v);
    }
    if DistinctLinks(blue) {
      forall v | v in index ensures Position(v) in LineTable(blue)[v.link] {
        assert v in multiset(Tagged(blue));
        TaggedInTable(blue, v);
      }
    }
  }
}
