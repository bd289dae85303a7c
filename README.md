# HackMifi line conflation, modelled in Dafny

HackMifi conflates two line networks. Each vertex of an attributed "red" line feature is matched
with the closest "blue" reference line. The blue lines that collect at least a tenth of the
feature's vertices make up the feature's road.

This project models the matching core and proves its properties. It has two layers.

- **Geometry** (`geom_dist.dfy`, module `GeomDist`). Covers:
  - the ε-tolerant comparators;
  - the 2-D point/vector value with its displacement constructor, squared length, cross product
    and dot product;
  - the point-to-segment distance `point2vector`;
  - the metres-to-degrees shift `add_lat`.

  Coordinates are mathematical reals. The square root is a function parameter constrained by
  `IsSqrt`.
- **Search and voting:**
  - `index.dfy` (module `Index`): the blue vertex index, sorted by x, and the per-line vertex
    table that the spatial trees hold.
  - `search.dfy` (module `Search`): `bin_search` and the growing-window candidate scan
    `get_possible_line`.
  - `grouping.dfy` (module `Grouping`): `point2segment`, the arg-min of `set_group_point`, and
    the dict of lists `point_group_by_line`. The dict is the class `GroupMap`: its keys in
    insertion order plus a map from key to list.
  - `conflation.dfy` (module `Conflation`): the per-feature direct pass, fallback pass, vote
    count and 10 % threshold, and the whole run.
  - `wrappers.dfy`: the `Option` type.

The imperative parts of `main.py` are methods with loops, proved against specification
functions:
- `BinSearch` against `LastAtMost`;
- `GetPossibleLine` against `ScanFrom`;
- `ClosestLine` against `Best`;
- `BuildIndex` against `Tagged`/`LineTable`;
- `CountPoints` against `Total`;
- `SelectForUnion` against `Selected`.

`GroupMap.Append` changes the groups in place.

Two points could be read either way. The model follows the code in both:
- **Which products `point2vector` tests.** The projection test uses the dot product
  (`geom_dist.py:70` applies `^`, defined at `geom_dist.py:56-57`). It does not use the cross
  product.
- **What happens to an unassignable vertex.** It is not dropped from the vote. The code appends it
  under the sentinel key 0 and counts it (`main.py:69-84`, `main.py:175-177`).
  `GroupFeature` therefore proves that the total equals the number of red vertices.

## Model

| member | source | states |
|---|---|---|
| GeomDist.Eq | geom_dist.py:9-10 | `eq`: the difference is below EPS in absolute value (definition; its properties are the lemmas below) |
| GeomDist.Lt | geom_dist.py:13-14 | `lt`: `x + EPS < y` (definition) |
| GeomDist.LtEq | geom_dist.py:17-18 | `lteq`: `lt` or `eq` (definition) |
| GeomDist.Gt | geom_dist.py:21-22 | `qt`: `x - EPS > y` (definition) |
| GeomDist.GtEq | geom_dist.py:25-26 | `qteq`: `qt` or `eq` (definition) |
| GeomDist.EqReflexiveSymmetric | geom_dist.py:9-10 | tolerant equality is reflexive and symmetric |
| GeomDist.GtIsSwappedLt | geom_dist.py:13-26 | `qt(x,y)` is `lt(y,x)` and `qteq(x,y)` is `lteq(y,x)` |
| GeomDist.AtMostOneRelation | geom_dist.py:9-22 | at most one of `lt`, `eq`, `qt` holds for any pair |
| GeomDist.NoTrichotomyAtTolerance | geom_dist.py:9-22 | when the difference is exactly ±EPS none of the three holds |
| GeomDist.TolerantNonNegative | geom_dist.py:9-26 | `qteq(x, 0)` holds exactly for `\|x\| < EPS` or `x > EPS`: it fails at `x == EPS` though it holds just below and above, and fails for every `x <= -EPS` |
| GeomDist.Displacement | geom_dist.py:40-42 | the two-point constructor `Point(p, q)`: the component-wise `q - p` (definition; see `DisplacementProperties`) |
| GeomDist.DisplacementProperties | geom_dist.py:40-42 | the two-point constructor is the displacement `q - p`: moving `p` by it reaches `q`, `Point(p, p)` is zero, and reversed displacements cancel |
| GeomDist.Len2 | geom_dist.py:44-45 | `len2`: `x**2 + y**2` (definition; see `Len2Sign`) |
| GeomDist.Len2Sign | geom_dist.py:44-45 | the squared length is non-negative and zero exactly for the zero vector |
| GeomDist.Cross | geom_dist.py:53-54 | `__mul__`: `x*o.y - y*o.x` (definition; see `CrossAntisymmetric`, `Lagrange`) |
| GeomDist.Dot | geom_dist.py:56-57 | `__xor__`: `x*o.x + y*o.y` (definition; see `DotSymmetric`, `Lagrange`) |
| GeomDist.CrossAntisymmetric | geom_dist.py:53-54 | the cross product is antisymmetric and `u*u == 0` |
| GeomDist.DotSymmetric | geom_dist.py:44-57 | the dot product is symmetric and `u^u == u.len2()` |
| GeomDist.DotZero | geom_dist.py:56-57 | the dot product with the zero vector is 0 |
| GeomDist.Lagrange | geom_dist.py:44-57 | the squares of cross and dot product sum to the product of the squared lengths |
| GeomDist.SqrtUnique | geom_dist.py:47-48 | any square root satisfying `IsSqrt` is the non-negative root |
| GeomDist.Len | geom_dist.py:47-48 | `len`: the square root of `len2` (definition; see `LenSign`) |
| GeomDist.LenSign | geom_dist.py:47-48 | the length is non-negative and zero exactly for the zero vector |
| GeomDist.Dist | geom_dist.py:50-51 | `dist`: the length of the displacement between the points (definition; see `DistSymmetric`) |
| GeomDist.DistSymmetric | geom_dist.py:50-51 | the distance between two points is symmetric |
| GeomDist.ProjectsInside | geom_dist.py:70 | the projection of `a` falls between `c` and `d`: the tolerant test `qteq(x, 0)` holds of both dot products `cd ^ ca` and `dc ^ da` (definition) |
| GeomDist.Point2Vector | geom_dist.py:60-73 | when the projection test fails, the result is the smaller endpoint distance |
| GeomDist.Point2VectorFailsIffDegenerate | geom_dist.py:66-71 | the division by `cd.len()` fails exactly when `c == d` |
| GeomDist.DegenerateFails | geom_dist.py:66-71 | with `c == d` the perpendicular branch divides by zero, so no distance is returned |
| GeomDist.ProperSucceeds | geom_dist.py:64-73 | with `c != d` a distance is always returned |
| GeomDist.Point2VectorSymmetric | geom_dist.py:60-73 | swapping the segment's endpoints does not change the result |
| GeomDist.Point2VectorBounds | geom_dist.py:64-73 | a returned distance is non-negative and at most the distance to either endpoint |
| GeomDist.CrossAtMostLengths | geom_dist.py:53-54 | the absolute cross product is at most the product of the lengths |
| GeomDist.PerpendicularAtMost | geom_dist.py:71 | the perpendicular distance `\|cd×ca\|/\|cd\|` lies between 0 and `\|ca\|` |
| GeomDist.Point2VectorExamples | geom_dist.py:60-73 | from segment (0,0)-(10,0), point (5,3) is at 3 and point (15,0) at 5 |
| GeomDist.AddLat | geom_dist.py:76-79 | `add_lat`: `lat + meters / 111000` (definition; see `AddLatLinear`) |
| GeomDist.AddLatLinear | geom_dist.py:76-79 | shifting by `m` then `-m` is the identity; the shift is strictly increasing in the metres |
| Index.Flatten | main.py:27-28 | the coordinates of every line of the geometry, line after line, in order (definition) |
| Index.Reproject | main.py:29-33 | each coordinate transformed when `trans` is set and kept otherwise, in order (definition) |
| Index.MapTransform | main.py:31-32 | every coordinate is reprojected, in order, with the length kept |
| Index.FlattenAppend | main.py:27-28 | the coordinates of concatenated geometries are the concatenated coordinates |
| Index.ExtractPoint | main.py:25-34 | the result is the coordinates of every part in order, reprojected exactly when `trans` |
| Index.InsertByX | main.py:151 | inserting into an x-sorted list keeps it sorted and adds exactly that entry |
| Index.SortByX | main.py:151 | the sorted index is ascending in x and a permutation of its input |
| Index.InsertByXStable | main.py:151 | an inserted entry goes in front of every entry with the same x |
| Index.SortByXStable | main.py:151 | the sort is stable: for every x, the entries with that x keep their input order |
| Index.SortByXTies | main.py:151 | two vertices at the same x keep their input order (a worked case) |
| Index.Tagged | main.py:140-148 | every vertex of every blue line, in order, tagged with its line's id (definition) |
| Index.LineTable | main.py:142-150 | each blue id mapped to the vertex list of the last line carrying it (definition) |
| Index.TagAll | main.py:146-148 | each vertex of a line is indexed with the line's id, in order |
| Index.LineTableKeys | main.py:142-145 | the table has an entry for exactly the blue line ids |
| Index.LineTableLast | main.py:142-150 | an id's entry holds the vertices of the last line carrying it |
| Index.TaggedLinks | main.py:148 | every tag in the index is a blue line id |
| Index.TaggedInTable | main.py:146-150 | with distinct ids, every indexed vertex is in its tag's table entry |
| Index.IndexInTable | main.py:140-151 | any permutation of the tagged vertices keeps both facts above |
| Index.BuildIndex | main.py:138-151 | the index is exactly `SortByX` of all tagged blue vertices, so it is x-sorted and a permutation of them; the table is exactly the per-line table; every tag has an entry, which, with distinct ids, holds the vertex |
| Search.LastAtMost | main.py:37-47 | the reference answer lies in `[0, len(a))` for non-empty `a` and is 0 for empty `a` |
| Search.LastAtMostBoundary | main.py:40-45 | the reference index has a key at most `x` (or is 0), and every later key exceeds `x` |
| Search.LastAtMostSorted | main.py:40-45 | on a sorted list every key up to the reference index is at most `x` (when the first one is), and the index is 0 when `x` is below every key |
| Search.LastAtMostUnique | main.py:40-45 | on a sorted list exactly one index has the boundary property |
| Search.BinSearch | main.py:37-47 | the loop keeps `0 <= l < r <= len(a)` with the boundary invariants; it returns 0 on an empty list and otherwise a boundary index, which on a sorted list is the reference answer |
| Search.Trunc | main.py:53 | `int()` truncates toward zero |
| Search.ScannedRadii | main.py:53 | radius `d` is scanned exactly when `d <= eps`, so no radius is scanned when `eps < 10` |
| Search.MatchIds | main.py:59-61 | the ids of the index entries between two positions that lie within `eps` of the point (definition) |
| Search.Window | main.py:54-61 | the ids found at one radius: the entries from the last at or below `x - delta` to the last at or below `x + delta`, within `eps` (definition) |
| Search.ScanFrom | main.py:50-65 | the reference scan: radii 10, 20, ... below `Trunc(eps + 1)`, stopping at the first non-empty window; `None` for the `IndexError` of an empty index (definition) |
| Search.MatchIdsExactly | main.py:59-61 | an id is collected from a range exactly when some entry of the range carries it and lies within `eps` |
| Search.ScanSound | main.py:53-65 | every id the scan reports tags an index entry within `eps` of the point |
| Search.ScanFailsIff | main.py:53-61 | the scan fails exactly when the index is empty and some radius is scanned |
| Search.ScanFirstHit | main.py:62-63 | a non-empty answer is the window of a scanned radius, and every smaller radius found nothing |
| Search.ScanMiss | main.py:53-65 | an empty answer means every scanned window was empty |
| Search.WindowCovers | main.py:54-61 | on a sorted index, an entry within `eps` whose key lies in the shifted range is found |
| Search.CollectWindow | main.py:59-61 | the inner loop collects exactly the ids of the range's entries within `eps` |
| Search.GetPossibleLine | main.py:50-65 | fails exactly on an empty index with a radius to scan; every id found is within `eps`; on a sorted index the result is the reference scan; it is empty when `eps < 10` |
| Grouping.LineDistance | main.py:18-22 | `point2segment` with its exceptions as `None`: a missing key, a query not giving two valid positions, or a failing `point2vector` (definition; see `LineDistanceCharacterised`) |
| Grouping.LineDistanceCharacterised | main.py:18-22 | the line distance fails exactly when the key is missing, the query does not give two valid positions, or the two vertices coincide; otherwise it is at most the distance to either vertex |
| Grouping.Best | main.py:69-80 | the loop state after the candidates: a failed distance is skipped and a strictly smaller one replaces the choice, from `(0, +inf)` (definition) |
| Grouping.BestIsFirstMinimum | main.py:69-80 | the arg-min is 0 when every distance fails, and otherwise the first candidate with the smallest distance |
| Grouping.BestIsCandidate | main.py:69-80 | the chosen id is 0 or a candidate whose distance succeeded |
| Grouping.ClosestLine | main.py:69-80 | the loop returns the first minimum, or 0 on no success; the result is 0 or an id with a table entry |
| Grouping.Enumerate | main.py:169 | each id of the candidate set is listed once (the iteration over a set) |
| Grouping.AddKey | main.py:82-83 | a missing key is added at the end of the dict's keys, a present one keeps its place (definition) |
| Grouping.AddPoint | main.py:82-84 | the point is appended to the key's list, which is created empty when missing (definition) |
| Grouping.Stored | main.py:175-177 | every grouped vertex, list after list in key order (definition) |
| Grouping.Total | main.py:175-177 | `cnt_point`: the sum of the list lengths in key order (definition) |
| Grouping.TotalIsStoredSize | main.py:175-177 | the summed list lengths equal the number of stored vertices |
| Grouping.StoredFrame | main.py:82-84 | the stored vertices depend only on the lists of the listed keys |
| Grouping.StoredUpdate | main.py:82-84 | replacing one key's list replaces exactly its vertices among the stored ones |
| Grouping.AppendExisting | main.py:84 | appending under an existing key adds exactly that vertex |
| Grouping.AppendNew | main.py:82-84 | appending under a new key adds a one-element list at the end |
| Grouping.AppendOne | main.py:82-84 | appending adds exactly the point to the stored vertices, and the total grows by one |
| Grouping.GroupMap.constructor | main.py:160 | the groups start empty |
| Grouping.GroupMap.Append | main.py:82-84 | a missing key is added at the end with an empty list, the point goes at the end of that key's list, and every other list is unchanged |
| Grouping.SetGroupPoint | main.py:68-84 | the point is appended under the arg-min id and nowhere else; the stored vertices grow by exactly the point; every new key is 0 or a blue line id |
| Conflation.PlacedAmong | main.py:169 | the new groups are the old ones with the point appended under the first closest candidate, the candidates listed in some order, each once (definition) |
| Conflation.PlacedBy | main.py:169 | `PlacedAmong` for one named listing of the candidates (definition) |
| Conflation.PlaceAmong | main.py:169 | the point goes under the first closest of the candidate set, listed once per id; the stored vertices grow by exactly the point; every new key is 0 or a blue line id |
| Conflation.PlaceVertex | main.py:162-169 | a vertex with candidates is grouped; one without is set aside with the groups untouched (on a sorted index exactly when the scan is empty); on a sorted index a grouped vertex goes under the first closest line of its scan's answer; the run aborts exactly on an empty index with a radius to scan |
| Conflation.DirectStepRel | main.py:162-169 | one step of the first pass over a sorted index: the scan succeeds; with an empty answer the vertex is set aside and the groups are untouched, otherwise it goes under the first closest line of the answer and nothing is set aside (definition) |
| Conflation.DirectStep | main.py:162-169 | one iteration of the first pass: the vertex joins the groups or the set-aside list, and the two together grow by exactly it; on a sorted index the step is exactly a `DirectStepRel` step; it stops exactly on an empty index with a radius to scan |
| Conflation.DirectRel | main.py:160-169 | the first pass as a relation: the vertices, in order, each take one `DirectStepRel` step from the starting groups and no set-aside vertex (definition) |
| Conflation.DirectRelNext | main.py:160-169 | one more step extends the first-pass relation by one more vertex |
| Conflation.DirectPass | main.py:160-169 | the stored and set-aside vertices together are the old ones plus the feature's vertices; on a sorted index, unless aborted, the new groups and the set-aside list are related to the old groups by `DirectRel` |
| Conflation.Fallback | main.py:171-173 | each set-aside vertex in turn goes under the first closest of the keys present at that moment, else 0 (definition) |
| Conflation.FallbackKeys | main.py:171-173 | the second pass adds no key except 0 |
| Conflation.FallbackStored | main.py:171-173 | the second pass keeps the groups well formed and adds exactly the set-aside vertices |
| Conflation.FallbackPass | main.py:171-173 | the loop ends in exactly the groups `Fallback` describes; the stored vertices grow by exactly the set-aside ones; no key other than 0 is added, so every key stays 0 or a blue line id |
| Conflation.FeatureGroups | main.py:158-173 | the groups of a feature: the first pass from no group, then the second pass over exactly the vertices the first set aside (definition) |
| Conflation.GroupFeature | main.py:158-173 | unless aborted, the groups hold exactly the feature's vertices (as a multiset), the total is their number, every key is 0 or a blue line id, and on a sorted index the groups are `FeatureGroups` of the vertices |
| Conflation.CountPoints | main.py:175-177 | `cnt_point` is the sum of the list lengths, which is the number of stored vertices |
| Conflation.Accepted | main.py:181 | `len(group) >= 0.1 * cnt_point` over the reals (definition; see `AcceptedIff`) |
| Conflation.AcceptedIff | main.py:181 | `len >= 0.1 * cnt` holds exactly when `10 * len >= cnt` |
| Conflation.AcceptedMass | main.py:175-181 | ten times the total is at least the number of accepted groups times the threshold count |
| Conflation.RejectedMass | main.py:175-181 | when no group passes, ten times the total is at most the number of keys times `cnt - 1` |
| Conflation.AtMostTenAccepted | main.py:175-181 | at most ten groups of a non-empty feature pass the threshold |
| Conflation.SomeAccepted | main.py:175-181 | with at most ten groups, some group of a non-empty feature passes |
| Conflation.Selected | main.py:180-186 | the keys, in order, whose list passes the threshold and that name a blue line; the others are skipped (definition) |
| Conflation.SelectedExactly | main.py:180-186 | a key is selected exactly when its group passes the threshold and a blue line carries it |
| Conflation.SelectedDistinct | main.py:180-186 | no key is selected twice |
| Conflation.SelectForUnion | main.py:179-186 | the loop selects, in key order, exactly the accepted keys that name a blue line, each once |
| Conflation.VotedRoad | main.py:158-186 | a road is the vote's outcome over groups the two passes can produce from the feature's vertices (`FeatureGroups`): the keys, in order, holding at least a tenth of them and naming a blue line (definition) |
| Conflation.EmptyFeatureRoad | main.py:158-186 | a feature without vertices has exactly the empty road |
| Conflation.LoneDirect | main.py:160-169 | for a lone vertex the first pass is the single step from no group |
| Conflation.OneGroupRoad | main.py:175-186 | one group of one vertex passes the threshold: the road is its key if that names a blue line, else empty |
| Conflation.BestOfOne | main.py:69-84 | the only candidate, at a computable distance, is chosen |
| Conflation.SingleCandidatePlaced | main.py:169 | with one candidate at a computable distance, the vertex is placed under that line and nowhere else |
| Conflation.SingleCandidateGroups | main.py:158-173 | a lone vertex whose scan finds one line at a computable distance forms exactly the single group of that line |
| Conflation.SingleCandidateRoad | main.py:158-186 | that vertex's road is exactly `[k]` if the line id `k` names a blue line, else empty |
| Conflation.FallbackOne | main.py:171-173 | the second pass over one set-aside vertex puts it under the first closest of the present keys, else 0 |
| Conflation.NoCandidateGroups | main.py:158-173 | a lone vertex whose scan finds nothing is set aside and then forms exactly the single group of 0 |
| Conflation.NoCandidateRoad | main.py:158-186 | that vertex's road is exactly `[0]` if 0 names a blue line, else empty |
| Conflation.ConflateFeature | main.py:155-186 | one feature yields distinct blue line ids and, on a sorted index, exactly the vote's outcome over groups the two passes produce from its reprojected vertices (`VotedRoad`); it aborts exactly on a non-empty feature with an empty index and a radius to scan |
| Conflation.AllRoadsNext | main.py:154-188 | appending the next feature's road extends the roads of the features before it |
| Conflation.ConflateAll | main.py:154-188 | one road per red feature, in order, each of blue line ids and, on a sorted index, the `VotedRoad` of that feature; aborts exactly when some feature has vertices, the index is empty and a radius is scanned |
| Conflation.Conflate | main.py:138-188 | the run aborts exactly when some feature has vertices, the blue index is empty and a radius is scanned; otherwise it yields one road per feature, made only of blue line ids, each the `VotedRoad` of that feature's reprojected vertices over the index `SortByX(Tagged(blue))` and the table `LineTable(blue)` |

## Left out

- Reading and writing files, `argparse`, `tqdm` and `print` are I/O and are not modelled. So are the green table's schema and the attribute copying (`set_attribute`).
- The pyproj reprojection is the parameter `transform`, and the haversine `dist_points` is the parameter `dist`. Both are uninterpreted.
- `sqrt` is a parameter constrained only by `IsSqrt`: it is exact on non-negative reals.
- Floating point is not modelled: coordinates and distances are exact reals. Floating-point rounding of `0.1 * cnt_point` and of the distance formulas is not captured.
- The rtree query `nearest(point, 2)` is the parameter `nearest`: the positions, in the line's vertex list, of the vertices it yields. The tree's own nearest-neighbour behaviour is not modelled.
- The shapely union is not modelled. A road is the list of blue line ids it would unite, in key order. The union takes the first blue line's geometry for each id.
- Enumerate: lists a set's ids in the order of their first vertex in the index, where Python iterates a set in hash order. No contract about the grouping depends on that order: `PlacedAmong`, `SetGroupPoint` and `ClosestLine` hold for any order of the candidates. With two equally close candidates, which one wins depends on the order, and the model does not say which Python picks.
- Index.SortByX: stability is stated per key value (`SortByXStable`); the sort is a functional insertion sort, not Timsort.
- Index.BuildIndex: the spatial tree itself is not modelled; only the vertex list it indexes (`rtrees[id]['points']`) is. Containment of a vertex in its line's entry is stated only for distinct blue ids, because a repeated id overwrites that entry in the code.
- Conflation.ConflateFeature: `VotedRoad` is promised only over an x-sorted index, as `ScanFrom` describes the scan only there; `Conflate` always builds a sorted index, so there it holds unconditionally.
- Conflation.ConflateAll: the same condition, for the same reason.
- Search.BinSearch: models `bin_search` on key 0 only (`x`), the only key `main.py` uses.
- Search.GetPossibleLine: the `IndexError` an empty index raises is the result `None`, which aborts the run (`Conflate` returns `None`).
- GeomDist.Point2Vector: the division by zero on `c == d` is the result `None`, which `set_group_point` skips like any other exception.
- The tolerant comparator `qteq(x, 0)` is false at `x == EPS` although it is true just below and just above it (`TolerantNonNegative`). The model keeps this gap as written. `NoTrichotomyAtTolerance` states the related gap between `lt`, `eq` and `qt`.
- `Point.len`, `Point.dist` and the two integer/tuple forms of the `Point` constructor appear only through `Len`, `Dist` and the datatype constructor.
- `app.py` (a web upload endpoint) is not part of this model.
