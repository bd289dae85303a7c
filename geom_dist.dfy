/** Geometry primitives of the conflation tool: tolerant comparison, planar vectors,
    point-to-segment distance and the metres-to-degrees shift (geom_dist.py). */
module GeomDist {
  import opened Wrappers

  /** The absolute tolerance of every comparison. */
  const EPS: real := 0.00000001

  function Abs(v: real): (r: real)
    ensures r >= 0.0 && (r == v || r == -v)
  {
    if v < 0.0 then -v else v
  }

  function Min(a: real, b: real): (r: real)
    ensures r <= a && r <= b && (r == a || r == b)
  {
    if a <= b then a else b
  }

  // ---------------------------------------------------------------------------
  // Tolerant comparators (the source calls the greater-than pair `qt`/`qteq`)
  // ---------------------------------------------------------------------------

  predicate Eq(x: real, y: real) { Abs(x - y) < EPS }
  predicate Lt(x: real, y: real) { x + EPS < y }
  predicate LtEq(x: real, y: real) { Lt(x, y) || Eq(x, y) }
  predicate Gt(x: real, y: real) { x - EPS > y }
  predicate GtEq(x: real, y: real) { Gt(x, y) || Eq(x, y) }

  /** Tolerant equality is reflexive and symmetric (it is not transitive). */
  lemma EqReflexiveSymmetric(x: real, y: real)
    ensures Eq(x, x)
    ensures Eq(x, y) == Eq(y, x)
  {
  }

  /** The greater-than pair is the less-than pair with its arguments swapped. */
  lemma GtIsSwappedLt(x: real, y: real)
    ensures Gt(x, y) == Lt(y, x)
    ensures GtEq(x, y) == LtEq(y, x)
  {
  }

  /** At most one of the three strict relations holds ... */
  lemma AtMostOneRelation(x: real, y: real)
    ensures !(Lt(x, y) && Eq(x, y))
    ensures !(Lt(x, y) && Gt(x, y))
    ensures !(Eq(x, y) && Gt(x, y))
  {
  }

  /** ... and none holds when the difference is exactly the tolerance: there is no trichotomy. */
  lemma NoTrichotomyAtTolerance(x: real, y: real)
    requires x - y == EPS || y - x == EPS
    ensures !Lt(x, y) && !Eq(x, y) && !Gt(x, y)
  {
  }

  /** The tolerant "non-negative" test `qteq(x, 0)` that `point2vector` applies: it holds for
      `|x| < EPS` and for `x > EPS`, fails at `x == EPS` itself, and fails for every `x <= -EPS`. */
  lemma TolerantNonNegative(x: real)
    ensures GtEq(x, 0.0) <==> Abs(x) < EPS || x > EPS
    ensures !GtEq(EPS, 0.0) && GtEq(EPS / 2.0, 0.0) && GtEq(2.0 * EPS, 0.0)
    ensures x <= -EPS ==> !GtEq(x, 0.0)
  {
  }

  // ---------------------------------------------------------------------------
  // Squares and the real arithmetic facts the proofs rely on
  // ---------------------------------------------------------------------------

  /** The identity on reals. A square is written `v * Same(v)` rather than `v * v`: the
      prover then reasons about it as an ordinary product of two terms. */
  function Same(v: real): real
  {
    v
  }

  /** `v**2`. */
  function Sq(v: real): real
  {
    v * Same(v)
  }

  lemma SqSign(v: real)
    ensures Sq(v) >= 0.0
    ensures v != 0.0 ==> Sq(v) > 0.0
  {
  }

  lemma SqNegate(v: real)
    ensures Sq(-v) == Sq(v)
  {
  }

  /** Squaring is strictly increasing on the non-negative reals. */
  lemma SqStrictMono(p: real, q: real)
    requires 0.0 <= p < q
    ensures Sq(p) < Sq(q)
  {
    var gap, sum := q - p, q + p;
    assert gap * sum > 0.0;
    assert Sq(q) - Sq(p) == gap * sum;
  }

  /** Comparing squares compares the non-negative numbers themselves. */
  lemma SqAtMost(x: real, m: real)
    requires 0.0 <= x && 0.0 <= m && Sq(x) <= Sq(m)
    ensures x <= m
  {
    if m < x {
      SqStrictMono(m, x);
    }
  }

  lemma SqProduct(p: real, q: real)
    ensures Sq(p * q) == Sq(p) * Sq(q)
  {
  }

  /** `x / l <= m` when `x <= l * m`. */
  lemma DivBound(x: real, l: real, m: real)
    requires l > 0.0 && 0.0 <= x <= l * m
    ensures 0.0 <= x / l <= m
  {
    var q := x / l;
    assert q * l == x;
    if q > m {
      assert (q - m) * l > 0.0;
    }
  }

  // ---------------------------------------------------------------------------
  // Points and vectors
  // ---------------------------------------------------------------------------

  /** A 2-D point, or a displacement vector between two points. */
  datatype Point = Point(x: real, y: real)

  const Origin: Point := Point(0.0, 0.0)

  /** The two-point constructor `Point(p, q)`: the displacement from `p` to `q`. */
  function Displacement(p: Point, q: Point): Point
  {
    Point(q.x - p.x, q.y - p.y)
  }

  function Translate(p: Point, v: Point): Point
  {
    Point(p.x + v.x, p.y + v.y)
  }

  /** Moving `p` by the displacement from `p` to `q` lands on `q`; the displacement from a
      point to itself is the zero vector, and reversing the endpoints negates it. */
  lemma DisplacementProperties(p: Point, q: Point)
    ensures Translate(p, Displacement(p, q)) == q
    ensures Displacement(p, p) == Origin
    ensures Translate(Displacement(q, p), Displacement(p, q)) == Origin
  {
  }

  /** `len2`: the squared length. */
  function Len2(u: Point): real
  {
    Sq(u.x) + Sq(u.y)
  }

  /** The squared length is never negative and is zero only for the zero vector. */
  lemma Len2Sign(u: Point)
    ensures Len2(u) >= 0.0
    ensures Len2(u) == 0.0 <==> u == Origin
  {
    SqSign(u.x);
    SqSign(u.y);
  }

  /** The cross product `u * v` (signed parallelogram area). */
  function Cross(u: Point, v: Point): real
  {
    u.x * v.y - u.y * v.x
  }

  /** The dot product `u ^ v`. */
  function Dot(u: Point, v: Point): real
  {
    u.x * v.x + u.y * v.y
  }

  lemma DotZero(v: Point)
    ensures Dot(Origin, v) == 0.0
  {
  }

  lemma CrossAntisymmetric(u: Point, v: Point)
    ensures Cross(u, v) == -Cross(v, u)
    ensures Cross(u, u) == 0.0
  {
  }

  lemma DotSymmetric(u: Point, v: Point)
    ensures Dot(u, v) == Dot(v, u)
    ensures Dot(u, u) == Len2(u)
  {
  }

  /** Lagrange's identity in the plane: the squared cross and dot products add up to the
      product of the squared lengths. */
  lemma Lagrange(u: Point, v: Point)
    ensures Sq(Cross(u, v)) + Sq(Dot(u, v)) == Len2(u) * Len2(v)
  {
  }

  // ---------------------------------------------------------------------------
  // Square root and Euclidean distance
  // ---------------------------------------------------------------------------

  /** What the model assumes of the square root it is given: it maps every non-negative real
      to a non-negative real whose square it is. */
  ghost predicate IsSqrt(sqrt: real -> real)
  {
    forall v :: 0.0 <= v ==> 0.0 <= sqrt(v) && Sq(sqrt(v)) == v
  }

  /** The given square root of `v` is the only non-negative one. */
  lemma SqrtUnique(sqrt: real -> real, v: real, s: real)
    requires IsSqrt(sqrt)
    requires 0.0 <= s && Sq(s) == v
    ensures sqrt(v) == s
  {
    var t := sqrt(v);
    if t < s {
      SqStrictMono(t, s);
    } else if s < t {
      SqStrictMono(s, t);
    }
  }

  /** `len`: the length of a vector. */
  function Len(u: Point, sqrt: real -> real): real
  {
    sqrt(Len2(u))
  }

  /** A length is never negative and is zero only for the zero vector. */
  lemma LenSign(u: Point, sqrt: real -> real)
    requires IsSqrt(sqrt)
    ensures Len(u, sqrt) >= 0.0
    ensures Len(u, sqrt) == 0.0 <==> u == Origin
  {
    Len2Sign(u);
    SqSign(Len(u, sqrt));
  }

  /** `dist`: the Euclidean distance between two points, the length of their displacement. */
  function Dist(p: Point, q: Point, sqrt: real -> real): real
  {
    Len(Displacement(q, p), sqrt)
  }

  /** The distance does not depend on the order of the two points. */
  lemma DistSymmetric(p: Point, q: Point, sqrt: real -> real)
    ensures Dist(p, q, sqrt) == Dist(q, p, sqrt)
  {
    SqNegate(p.x - q.x);
    SqNegate(p.y - q.y);
    assert Len2(Displacement(q, p)) == Len2(Displacement(p, q));
  }

  // ---------------------------------------------------------------------------
  // Point-to-segment distance
  // ---------------------------------------------------------------------------

  /** The test that selects the perpendicular distance: both dot products `cd^ca` and
      `dc^da` are tolerantly non-negative. */
  predicate ProjectsInside(c: Point, d: Point, a: Point)
  {
    GtEq(Dot(Displacement(c, d), Displacement(c, a)), 0.0) &&
    GtEq(Dot(Displacement(d, c), Displacement(d, a)), 0.0)
  }

  /** `point2vector`: the distance from `a` to the segment `c`-`d`. It starts from the nearer
      endpoint and switches to the perpendicular distance `|cd*ca| / |cd|` when the projection
      test holds. A zero divisor raises in the source; it is `None` here. */
  function Point2Vector(c: Point, d: Point, a: Point, sqrt: real -> real): (r: Option<real>)
    ensures !ProjectsInside(c, d, a) ==> r == Some(Min(Dist(a, c, sqrt), Dist(a, d, sqrt)))
  {
    var cd := Displacement(c, d);
    var ca := Displacement(c, a);
    if ProjectsInside(c, d, a) then
      if Len(cd, sqrt) == 0.0 then None else Some(Abs(Cross(cd, ca)) / Len(cd, sqrt))
    else
      Some(Min(Dist(a, c, sqrt), Dist(a, d, sqrt)))
  }

  /** The division by zero happens exactly for a degenerate segment: when `c == d` both dot
      products are zero, so the perpendicular branch is taken with a zero length. */
  lemma Point2VectorFailsIffDegenerate(c: Point, d: Point, a: Point, sqrt: real -> real)
    requires IsSqrt(sqrt)
    ensures Point2Vector(c, d, a, sqrt).None? <==> c == d
  {
    if c == d {
      DegenerateFails(c, a, sqrt);
    } else {
      ProperSucceeds(c, d, a, sqrt);
    }
  }

  lemma DegenerateFails(c: Point, a: Point, sqrt: real -> real)
    requires IsSqrt(sqrt)
    ensures Point2Vector(c, c, a, sqrt).None?
  {
    DegenerateInside(c, a);
    DegenerateLength(c, sqrt);
  }

  lemma DegenerateInside(c: Point, a: Point)
    ensures ProjectsInside(c, c, a)
  {
    assert Displacement(c, c) == Origin;
    DotZero(Displacement(c, a));
  }

  lemma DegenerateLength(c: Point, sqrt: real -> real)
    requires IsSqrt(sqrt)
    ensures Len(Displacement(c, c), sqrt) == 0.0
  {
    assert Displacement(c, c) == Origin;
    LenSign(Origin, sqrt);
  }

  lemma ProperSucceeds(c: Point, d: Point, a: Point, sqrt: real -> real)
    requires IsSqrt(sqrt)
    requires c != d
    ensures Point2Vector(c, d, a, sqrt).Some?
  {
    var cd := Displacement(c, d);
    assert cd != Origin;
    LenSign(cd, sqrt);
  }

  /** The distance to a segment does not depend on the order of its endpoints. */
  lemma Point2VectorSymmetric(c: Point, d: Point, a: Point, sqrt: real -> real)
    ensures Point2Vector(c, d, a, sqrt) == Point2Vector(d, c, a, sqrt)
  {
    DistSymmetric(c, d, sqrt);
    CrossReversed(c, d, a);
    assert Abs(Cross(Displacement(d, c), Displacement(d, a))) ==
      Abs(Cross(Displacement(c, d), Displacement(c, a)));
  }

  /** Seen from the other endpoint, the cross product changes sign. */
  lemma CrossReversed(c: Point, d: Point, a: Point)
    ensures Cross(Displacement(d, c), Displacement(d, a)) == -Cross(Displacement(c, d), Displacement(c, a))
  {
  }

  /** The perpendicular distance is never larger than the distance to either endpoint, so the
      result lies between zero and the nearest-endpoint distance. */
  lemma Point2VectorBounds(c: Point, d: Point, a: Point, sqrt: real -> real)
    requires IsSqrt(sqrt)
    ensures Point2Vector(c, d, a, sqrt).Some? ==>
      0.0 <= Point2Vector(c, d, a, sqrt).value <= Min(Dist(a, c, sqrt), Dist(a, d, sqrt))
  {
    var cd := Displacement(c, d);
    var ca := Displacement(c, a);
    var da := Displacement(d, a);
    LenSign(ca, sqrt);
    LenSign(da, sqrt);
    DistSymmetric(a, c, sqrt);
    DistSymmetric(a, d, sqrt);
    if Point2Vector(c, d, a, sqrt).Some? && ProjectsInside(c, d, a) {
      LenSign(cd, sqrt);
      assert Cross(cd, ca) == Cross(cd, da);
      PerpendicularAtMost(cd, ca, sqrt);
      PerpendicularAtMost(cd, da, sqrt);
    }
  }

  /** `|u*v| <= |u| * |v|`. */
  lemma CrossAtMostLengths(u: Point, v: Point, sqrt: real -> real)
    requires IsSqrt(sqrt)
    ensures Abs(Cross(u, v)) <= Len(u, sqrt) * Len(v, sqrt)
  {
    CrossSquareAtMost(u, v);
    LenSquared(u, sqrt);
    LenSquared(v, sqrt);
    RootsBound(Abs(Cross(u, v)), Len2(u), Len2(v), Len(u, sqrt), Len(v, sqrt));
  }

  lemma CrossSquareAtMost(u: Point, v: Point)
    ensures Sq(Abs(Cross(u, v))) <= Len2(u) * Len2(v)
  {
    Lagrange(u, v);
    SqSign(Dot(u, v));
    SqNegate(Cross(u, v));
  }

  lemma LenSquared(u: Point, sqrt: real -> real)
    requires IsSqrt(sqrt)
    ensures 0.0 <= Len(u, sqrt) && Sq(Len(u, sqrt)) == Len2(u)
  {
    Len2Sign(u);
  }

  /** If `x*x <= p*q` for the squares `p`, `q` of non-negative `lp`, `lq`, then `x <= lp*lq`. */
  lemma RootsBound(x: real, p: real, q: real, lp: real, lq: real)
    requires 0.0 <= x && 0.0 <= lp && 0.0 <= lq
    requires p == Sq(lp) && q == Sq(lq) && Sq(x) <= p * q
    ensures x <= lp * lq
  {
    SqProduct(lp, lq);
    assert lp * lq >= 0.0;
    SqAtMost(x, lp * lq);
  }

  /** `|u*v| / |u| <= |v|` for a non-zero `u`. */
  lemma PerpendicularAtMost(u: Point, v: Point, sqrt: real -> real)
    requires IsSqrt(sqrt)
    requires Len(u, sqrt) > 0.0
    ensures 0.0 <= Abs(Cross(u, v)) / Len(u, sqrt) <= Len(v, sqrt)
  {
    LenSign(v, sqrt);
    CrossAtMostLengths(u, v, sqrt);
    DivBound(Abs(Cross(u, v)), Len(u, sqrt), Len(v, sqrt));
  }

  /** Worked cases: the segment (0,0)-(10,0) is 3 away from (5,3) (perpendicular branch)
      and 5 away from (15,0) (endpoint branch). */
  lemma Point2VectorExamples(sqrt: real -> real)
    requires IsSqrt(sqrt)
    ensures Point2Vector(Point(0.0, 0.0), Point(10.0, 0.0), Point(5.0, 3.0), sqrt) == Some(3.0)
    ensures Point2Vector(Point(0.0, 0.0), Point(10.0, 0.0), Point(15.0, 0.0), sqrt) == Some(5.0)
  {
    SqrtUnique(sqrt, 100.0, 10.0);
    SqrtUnique(sqrt, 225.0, 15.0);
    SqrtUnique(sqrt, 25.0, 5.0);
  }

  // ---------------------------------------------------------------------------
  // Metres to degrees
  // ---------------------------------------------------------------------------

  /** `add_lat`: shift a latitude by `meters`, at a fixed 111000 m per degree. */
  function AddLat(lat: real, meters: real): real
  {
    lat + meters / 111000.0
  }

  /** The shift is undone by the opposite shift and is strictly increasing in `meters`. */
  lemma AddLatLinear(lat: real, m: real, m1: real, m2: real)
    ensures AddLat(AddLat(lat, m), -m) == lat
    ensures m1 < m2 ==> AddLat(lat, m1) < AddLat(lat, m2)
    ensures m > 0.0 ==> AddLat(lat, -m) < lat < AddLat(lat, m)
  {
  }
}
