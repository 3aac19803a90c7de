/** The in-circle test (geometry/point_circumscribed_circle_position.c, whose
    determinant and classification geometry/illegal_edges.c repeats): the
    position of p relative to the circle through a, b, c is the sign of a
    3x3 determinant whose rows are the lifted differences from a. */
module CircleTest {
  import opened Plane
  import opened Util

  /** pow2 of the C file: the square v * v (not a power of two). */
  function Pow2(v: int): int
  {
    v * v
  }

  /** is_left_turn: a, b, c in counter-clockwise order. */
  function IsLeftTurn(a: Point, b: Point, c: Point): (r: bool)
    ensures r <==> Cross(a, b, c) > 0
  {
    (b.x - a.x) * (c.y - a.y) - (c.x - a.x) * (b.y - a.y) > 0
  }

  /** det_3d: expansion along the first row. */
  function Det3(v11: int, v12: int, v13: int, v21: int, v22: int, v23: int, v31: int, v32: int, v33: int): int
  {
    v11 * (v22 * v33 - v23 * v32) - v12 * (v21 * v33 - v23 * v31) + v13 * (v21 * v32 - v22 * v31)
  }

  lemma SwapRows12(v11: int, v12: int, v13: int, v21: int, v22: int, v23: int, v31: int, v32: int, v33: int)
    ensures Det3(v21, v22, v23, v11, v12, v13, v31, v32, v33) == -Det3(v11, v12, v13, v21, v22, v23, v31, v32, v33)
  {
  }

  lemma SwapRows23(v11: int, v12: int, v13: int, v21: int, v22: int, v23: int, v31: int, v32: int, v33: int)
    ensures Det3(v11, v12, v13, v31, v32, v33, v21, v22, v23) == -Det3(v11, v12, v13, v21, v22, v23, v31, v32, v33)
  {
  }

  lemma SwapRows13(v11: int, v12: int, v13: int, v21: int, v22: int, v23: int, v31: int, v32: int, v33: int)
    ensures Det3(v31, v32, v33, v21, v22, v23, v11, v12, v13) == -Det3(v11, v12, v13, v21, v22, v23, v31, v32, v33)
  {
  }

  /** The row of q: its difference from a, lifted onto the paraboloid. */
  function Lift(a: Point, q: Point): (int, int, int)
  {
    (q.x - a.x, q.y - a.y, Pow2(q.x) + Pow2(q.y) - Pow2(a.x) - Pow2(a.y))
  }

  /** The negated determinant the program computes: positive when p is
      strictly inside the circle through a, b, c given counter-clockwise. */
  function CircleDet(a: Point, b: Point, c: Point, p: Point): int
  {
    var (b1, b2, b3) := Lift(a, b);
    var (c1, c2, c3) := Lift(a, c);
    var (p1, p2, p3) := Lift(a, p);
    -Det3(b1, b2, b3, c1, c2, c3, p1, p2, p3)
  }

  /** point_position_circumscribed_circle: every sign maps to exactly one
      answer. */
  function PositionOf(a: Point, b: Point, c: Point, p: Point): (r: Position)
    ensures r == Boundary <==> CircleDet(a, b, c, p) == 0
    ensures r == Inside <==> CircleDet(a, b, c, p) > 0
    ensures r == Outside <==> CircleDet(a, b, c, p) < 0
  {
    var det := CircleDet(a, b, c, p);
    if det == 0 then Boundary else if det > 0 then Inside else Outside
  }

  /** Each of the three points lies on its own circle: p == a gives a zero
      row, p == b or p == c repeats a row. */
  lemma VerticesOnCircle(a: Point, b: Point, c: Point)
    ensures PositionOf(a, b, c, a) == Boundary
    ensures PositionOf(a, b, c, b) == Boundary
    ensures PositionOf(a, b, c, c) == Boundary
  {
    var (b1, b2, b3) := Lift(a, b);
    var (c1, c2, c3) := Lift(a, c);
    RepeatedRow(b1, b2, b3, c1, c2, c3);
    RepeatedRow(c1, c2, c3, b1, b2, b3);
    SwapRows12(c1, c2, c3, b1, b2, b3, c1, c2, c3);
  }

  lemma RepeatedRow(v11: int, v12: int, v13: int, v21: int, v22: int, v23: int)
    ensures Det3(v11, v12, v13, v21, v22, v23, v11, v12, v13) == 0
  {
    calc {
      Det3(v11, v12, v13, v21, v22, v23, v11, v12, v13);
      v11 * (v22 * v13 - v23 * v12) - v12 * (v21 * v13 - v23 * v11) + v13 * (v21 * v12 - v22 * v11);
      v11 * v22 * v13 - v11 * v23 * v12 - v12 * v21 * v13 + v12 * v23 * v11 + v13 * v21 * v12 - v13 * v22 * v11;
      0;
    }
  }

  /** Exchanging b and c reverses the orientation of the triangle and so
      swaps INSIDE and OUTSIDE. */
  lemma SwapTriangle(a: Point, b: Point, c: Point, p: Point)
    ensures CircleDet(a, c, b, p) == -CircleDet(a, b, c, p)
  {
    var (b1, b2, b3) := Lift(a, b);
    var (c1, c2, c3) := Lift(a, c);
    var (p1, p2, p3) := Lift(a, p);
    SwapRows12(b1, b2, b3, c1, c2, c3, p1, p2, p3);
  }

  /** The lattice-centred case: when a, b, c lie on the circle with centre o
      and squared radius r2 and turn left, p is INSIDE, on the circle
      (BOUNDARY) or OUTSIDE as its squared distance from o is below, equal to
      or above r2. */
  lemma LatticeCentre(a: Point, b: Point, c: Point, p: Point, o: Point, r2: int)
    requires Dist2(a, o) == r2 && Dist2(b, o) == r2 && Dist2(c, o) == r2
    requires Cross(a, b, c) > 0
    ensures PositionOf(a, b, c, p) == Inside <==> Dist2(p, o) < r2
    ensures PositionOf(a, b, c, p) == Boundary <==> Dist2(p, o) == r2
    ensures PositionOf(a, b, c, p) == Outside <==> Dist2(p, o) > r2
  {
    Translate(a, b, c, p, o);
    Centered(Shift(a, o), Shift(b, o), Shift(c, o), Shift(p, o), r2);
    assert Cross(Shift(a, o), Shift(b, o), Shift(c, o)) == Cross(a, b, c);
    SignOfProduct(r2 - Dist2(p, o), Cross(a, b, c));
  }

  /** What the test means, for any circle through lattice points: its centre
      is o / den and its squared radius r2 / den^2 for some lattice point o,
      den > 0 and r2 (see Circumcentre). When a, b, c lie on it and turn left,
      p is INSIDE, on the circle (BOUNDARY) or OUTSIDE as den * p is nearer
      to o than, as near as, or further from o than the scaled radius. */
  lemma InCircleMeaning(a: Point, b: Point, c: Point, p: Point, o: Point, den: int, r2: int)
    requires den > 0
    requires Dist2(Scale(a, den), o) == r2 && Dist2(Scale(b, den), o) == r2 && Dist2(Scale(c, den), o) == r2
    requires Cross(a, b, c) > 0
    ensures PositionOf(a, b, c, p) == Inside <==> Dist2(Scale(p, den), o) < r2
    ensures PositionOf(a, b, c, p) == Boundary <==> Dist2(Scale(p, den), o) == r2
    ensures PositionOf(a, b, c, p) == Outside <==> Dist2(Scale(p, den), o) > r2
  {
    var a', b', c', p' := Scale(a, den), Scale(b, den), Scale(c, den), Scale(p, den);
    ScaleCross(a, b, c, den);
    SignOfProduct(Cross(a, b, c), den * den);
    LatticeCentre(a', b', c', p', o, r2);
    ScaleDet(a, b, c, p, den);
    SignOfProduct(CircleDet(a, b, c, p), den * den * (den * den));
  }

  /** q stretched by k about the origin. */
  function Scale(q: Point, k: int): Point
  {
    Point(k * q.x, k * q.y)
  }

  lemma ScaleCross(a: Point, b: Point, c: Point, k: int)
    ensures Cross(Scale(a, k), Scale(b, k), Scale(c, k)) == k * k * Cross(a, b, c)
  {
    var b1, b2, c1, c2 := b.x - a.x, b.y - a.y, c.x - a.x, c.y - a.y;
    assert k * b.x - k * a.x == k * b1 && k * b.y - k * a.y == k * b2;
    assert k * c.x - k * a.x == k * c1 && k * c.y - k * a.y == k * c2;
    assert (k * b1) * (k * c2) == k * k * (b1 * c2);
    assert (k * c1) * (k * b2) == k * k * (c1 * b2);
  }

  lemma Product3(a: int, b: int, c: int, x: int, y: int, z: int)
    ensures (a * x) * ((b * y) * (c * z)) == (a * b * c) * (x * (y * z))
  {
  }

  /** A term of the first-row expansion whose two products both scale by f. */
  lemma ScaledTerm(f: int, x': int, p': int, q': int, x: int, p: int, q: int)
    requires x' * p' == f * (x * p) && x' * q' == f * (x * q)
    ensures x' * (p' - q') == f * (x * (p - q))
  {
    assert x' * (p' - q') == x' * p' - x' * q';
    assert f * (x * (p - q)) == f * (x * p) - f * (x * q);
  }

  lemma Factor3(f: int, t1: int, t2: int, t3: int)
    ensures f * t1 - f * t2 + f * t3 == f * (t1 - t2 + t3)
  {
  }

  /** Scaling the first two columns by k and the third by m scales det_3d by
      k * k * m. */
  lemma ScaleColumns(k: int, m: int, v11: int, v12: int, v13: int, v21: int, v22: int, v23: int, v31: int, v32: int, v33: int)
    ensures Det3(k * v11, k * v12, m * v13, k * v21, k * v22, m * v23, k * v31, k * v32, m * v33)
      == (k * k * m) * Det3(v11, v12, v13, v21, v22, v23, v31, v32, v33)
  {
    var f := k * k * m;
    Product3(k, k, m, v11, v22, v33);
    Product3(k, m, k, v11, v23, v32);
    ScaledTerm(f, k * v11, (k * v22) * (m * v33), (m * v23) * (k * v32), v11, v22 * v33, v23 * v32);
    Product3(k, k, m, v12, v21, v33);
    Product3(k, m, k, v12, v23, v31);
    ScaledTerm(f, k * v12, (k * v21) * (m * v33), (m * v23) * (k * v31), v12, v21 * v33, v23 * v31);
    Product3(m, k, k, v13, v21, v32);
    Product3(m, k, k, v13, v22, v31);
    ScaledTerm(f, m * v13, (k * v21) * (k * v32), (k * v22) * (k * v31), v13, v21 * v32, v22 * v31);
    Factor3(f, v11 * (v22 * v33 - v23 * v32), v12 * (v21 * v33 - v23 * v31), v13 * (v21 * v32 - v22 * v31));
  }

  lemma ScaleSquare(k: int, v: int)
    ensures Pow2(k * v) == k * k * Pow2(v)
  {
  }

  /** Stretching both points by k stretches the differences by k and the
      lifted component by k * k. */
  lemma LiftScale(a: Point, q: Point, k: int)
    ensures var (l1, l2, l3) := Lift(a, q);
      Lift(Scale(a, k), Scale(q, k)) == (k * l1, k * l2, k * k * l3)
  {
    ScaleSquare(k, q.x);
    ScaleSquare(k, q.y);
    ScaleSquare(k, a.x);
    ScaleSquare(k, a.y);
    Factor4(k * k, Pow2(q.x), Pow2(q.y), Pow2(a.x), Pow2(a.y));
    assert k * q.x - k * a.x == k * (q.x - a.x) && k * q.y - k * a.y == k * (q.y - a.y);
  }

  lemma Factor4(f: int, t1: int, t2: int, t3: int, t4: int)
    ensures f * t1 + f * t2 - f * t3 - f * t4 == f * (t1 + t2 - t3 - t4)
  {
  }

  /** Stretching all four points by k multiplies the test's determinant by
      k^4, so a positive k keeps its sign. */
  lemma ScaleDet(a: Point, b: Point, c: Point, p: Point, k: int)
    ensures CircleDet(Scale(a, k), Scale(b, k), Scale(c, k), Scale(p, k)) == k * k * (k * k) * CircleDet(a, b, c, p)
  {
    LiftScale(a, b, k);
    LiftScale(a, c, k);
    LiftScale(a, p, k);
    var (b1, b2, b3) := Lift(a, b);
    var (c1, c2, c3) := Lift(a, c);
    var (p1, p2, p3) := Lift(a, p);
    var m := k * k;
    ScaledRows(k, m, b1, b2, b3, c1, c2, c3, p1, p2, p3, Lift(Scale(a, k), Scale(b, k)), Lift(Scale(a, k), Scale(c, k)), Lift(Scale(a, k), Scale(p, k)));
  }

  /** ScaleColumns on rows given as triples. */
  lemma ScaledRows(k: int, m: int, v11: int, v12: int, v13: int, v21: int, v22: int, v23: int, v31: int, v32: int, v33: int,
                   r1: (int, int, int), r2: (int, int, int), r3: (int, int, int))
    requires r1 == (k * v11, k * v12, m * v13) && r2 == (k * v21, k * v22, m * v23) && r3 == (k * v31, k * v32, m * v33)
    ensures -Det3(r1.0, r1.1, r1.2, r2.0, r2.1, r2.2, r3.0, r3.1, r3.2) == k * k * m * -Det3(v11, v12, v13, v21, v22, v23, v31, v32, v33)
  {
    ScaleColumns(k, m, v11, v12, v13, v21, v22, v23, v31, v32, v33);
  }

  /** The denominator of the circumcentre: twice the orientation. */
  function CentreDen(a: Point, b: Point, c: Point): int
  {
    2 * Cross(a, b, c)
  }

  /** CentreDen(a, b, c) times the circumcentre of a, b, c: the point at the
      same distance from each vertex. */
  function Circumcentre(a: Point, b: Point, c: Point): (o: Point)
    ensures Dist2(Scale(b, CentreDen(a, b, c)), o) == Dist2(Scale(a, CentreDen(a, b, c)), o)
    ensures Dist2(Scale(c, CentreDen(a, b, c)), o) == Dist2(Scale(a, CentreDen(a, b, c)), o)
  {
    var d := CentreDen(a, b, c);
    var (b1, b2, c1, c2) := (b.x - a.x, b.y - a.y, c.x - a.x, c.y - a.y);
    var (u1, u2) := (c2 * (b1 * b1 + b2 * b2) - b2 * (c1 * c1 + c2 * c2), b1 * (c1 * c1 + c2 * c2) - c1 * (b1 * b1 + b2 * b2));
    OffsetsDist(d, a, b, u1, u2);
    OffsetsDist(d, a, c, u1, u2);
    Equidistant(b1, b2, c1, c2, u1, u2);
    Point(d * a.x + u1, d * a.y + u2)
  }

  /** The distance from d * q to d * a + u, through the difference q - a. */
  lemma OffsetsDist(d: int, a: Point, q: Point, u1: int, u2: int)
    ensures Dist2(Scale(q, d), Point(d * a.x + u1, d * a.y + u2)) == Pow2(d * (q.x - a.x) - u1) + Pow2(d * (q.y - a.y) - u2)
    ensures Dist2(Scale(a, d), Point(d * a.x + u1, d * a.y + u2)) == Pow2(u1) + Pow2(u2)
  {
    assert d * q.x - (d * a.x + u1) == d * (q.x - a.x) - u1;
    assert d * q.y - (d * a.y + u2) == d * (q.y - a.y) - u2;
  }

  /** With a moved to the origin, b = (b1, b2) and c = (c1, c2), the point u
      is twice the orientation times the circumcentre: both vertices are as
      far from it as the origin. */
  lemma Equidistant(b1: int, b2: int, c1: int, c2: int, u1: int, u2: int)
    requires u1 == c2 * (b1 * b1 + b2 * b2) - b2 * (c1 * c1 + c2 * c2)
    requires u2 == b1 * (c1 * c1 + c2 * c2) - c1 * (b1 * b1 + b2 * b2)
    ensures Pow2(2 * (b1 * c2 - c1 * b2) * b1 - u1) + Pow2(2 * (b1 * c2 - c1 * b2) * b2 - u2) == Pow2(u1) + Pow2(u2)
    ensures Pow2(2 * (b1 * c2 - c1 * b2) * c1 - u1) + Pow2(2 * (b1 * c2 - c1 * b2) * c2 - u2) == Pow2(u1) + Pow2(u2)
  {
    var cr := b1 * c2 - c1 * b2;
    DotWithCentre(b1, b2, c1, c2, b1 * b1 + b2 * b2, c1 * c1 + c2 * c2, u1, u2);
    OnCircleThrough(cr, b1, b2, u1, u2);
    OnCircleThrough(cr, c1, c2, u1, u2);
  }

  /** Whatever the norms nb and nc, the point u built from them has these
      dot products with b and c. */
  lemma DotWithCentre(b1: int, b2: int, c1: int, c2: int, nb: int, nc: int, u1: int, u2: int)
    requires u1 == c2 * nb - b2 * nc && u2 == b1 * nc - c1 * nb
    ensures b1 * u1 + b2 * u2 == nb * (b1 * c2 - c1 * b2)
    ensures c1 * u1 + c2 * u2 == nc * (b1 * c2 - c1 * b2)
  {
  }

  /** When v . u == |v|^2 * cr, the point 2 * cr * v is as far from u as the
      origin. */
  lemma OnCircleThrough(cr: int, v1: int, v2: int, u1: int, u2: int)
    requires v1 * u1 + v2 * u2 == (v1 * v1 + v2 * v2) * cr
    ensures Pow2(2 * cr * v1 - u1) + Pow2(2 * cr * v2 - u2) == Pow2(u1) + Pow2(u2)
  {
    var n := v1 * v1 + v2 * v2;
    ExpandAway(2 * cr, v1, v2, u1, u2);
    assert 2 * (2 * cr) * (n * cr) == (2 * cr) * (2 * cr) * n;
  }

  /** |d * v - u|^2 == |u|^2 exactly when d^2 |v|^2 == 2 d (v . u). */
  lemma ExpandAway(d: int, vx: int, vy: int, ux: int, uy: int)
    ensures Pow2(d * vx - ux) + Pow2(d * vy - uy) == d * d * (vx * vx + vy * vy) - 2 * d * (vx * ux + vy * uy) + Pow2(ux) + Pow2(uy)
  {
  }

  /** Every triangle the program accepts has its circumcircle in the form
      InCircleMeaning needs, so the test answers INSIDE, BOUNDARY or OUTSIDE
      exactly as p lies inside, on or outside the circle through a, b, c. */
  lemma InCircumcircle(a: Point, b: Point, c: Point, p: Point)
    requires Cross(a, b, c) > 0
    ensures var (d, o) := (CentreDen(a, b, c), Circumcentre(a, b, c));
      && (PositionOf(a, b, c, p) == Inside <==> Dist2(Scale(p, d), o) < Dist2(Scale(a, d), o))
      && (PositionOf(a, b, c, p) == Boundary <==> Dist2(Scale(p, d), o) == Dist2(Scale(a, d), o))
      && (PositionOf(a, b, c, p) == Outside <==> Dist2(Scale(p, d), o) > Dist2(Scale(a, d), o))
  {
    var d, o := CentreDen(a, b, c), Circumcentre(a, b, c);
    InCircleMeaning(a, b, c, p, o, d, Dist2(Scale(a, d), o));
  }

  function Dist2(q: Point, o: Point): int
  {
    Pow2(q.x - o.x) + Pow2(q.y - o.y)
  }

  lemma SignOfProduct(d: int, k: int)
    requires k > 0
    ensures d * k > 0 <==> d > 0
    ensures d * k == 0 <==> d == 0
    ensures d * k < 0 <==> d < 0
  {
  }

  /** On a circle centred at the origin the lifted column vanishes for b
      and c, and the determinant factors into the squared-distance gap times
      the orientation. */
  lemma Centered(a: Point, b: Point, c: Point, p: Point, r2: int)
    requires Pow2(a.x) + Pow2(a.y) == r2 && Pow2(b.x) + Pow2(b.y) == r2 && Pow2(c.x) + Pow2(c.y) == r2
    ensures CircleDet(a, b, c, p) == (r2 - Pow2(p.x) - Pow2(p.y)) * Cross(a, b, c)
  {
  }

  function Shift(q: Point, o: Point): Point
  {
    Point(q.x - o.x, q.y - o.y)
  }

  /** Expansion of det_3d along the third column. */
  lemma ThirdColumn(v11: int, v12: int, v13: int, v21: int, v22: int, v23: int, v31: int, v32: int, v33: int)
    ensures Det3(v11, v12, v13, v21, v22, v23, v31, v32, v33)
      == v13 * (v21 * v32 - v22 * v31) + v23 * (v12 * v31 - v11 * v32) + v33 * (v11 * v22 - v12 * v21)
  {
  }

  /** Subtracting multiples of the first two columns from the third leaves
      the determinant unchanged. */
  lemma ColumnOp(v11: int, v12: int, v13: int, v21: int, v22: int, v23: int, v31: int, v32: int, v33: int, s: int, t: int)
    ensures Det3(v11, v12, v13 - s * v11 - t * v12, v21, v22, v23 - s * v21 - t * v22, v31, v32, v33 - s * v31 - t * v32)
      == Det3(v11, v12, v13, v21, v22, v23, v31, v32, v33)
  {
    var c1, c2, c3 := v21 * v32 - v22 * v31, v12 * v31 - v11 * v32, v11 * v22 - v12 * v21;
    ThirdColumn(v11, v12, v13, v21, v22, v23, v31, v32, v33);
    ThirdColumn(v11, v12, v13 - s * v11 - t * v12, v21, v22, v23 - s * v21 - t * v22, v31, v32, v33 - s * v31 - t * v32);
    Cofactors(v11, v12, v21, v22, v31, v32);
    Combine(v13, v23, v33, v11, v21, v31, v12, v22, v32, c1, c2, c3, s, t);
  }

  lemma Combine(x1: int, x2: int, x3: int, y1: int, y2: int, y3: int, z1: int, z2: int, z3: int, c1: int, c2: int, c3: int, s: int, t: int)
    requires y1 * c1 + y2 * c2 + y3 * c3 == 0 && z1 * c1 + z2 * c2 + z3 * c3 == 0
    ensures (x1 - s * y1 - t * z1) * c1 + (x2 - s * y2 - t * z2) * c2 + (x3 - s * y3 - t * z3) * c3 == x1 * c1 + x2 * c2 + x3 * c3
  {
    LinearTerm(x1, y1, z1, s, t, c1);
    LinearTerm(x2, y2, z2, s, t, c2);
    LinearTerm(x3, y3, z3, s, t, c3);
    assert s * (y1 * c1) + s * (y2 * c2) + s * (y3 * c3) == s * (y1 * c1 + y2 * c2 + y3 * c3);
    assert t * (z1 * c1) + t * (z2 * c2) + t * (z3 * c3) == t * (z1 * c1 + z2 * c2 + z3 * c3);
  }

  /** A column paired with the cofactors of another column sums to 0. */
  lemma Cofactors(v11: int, v12: int, v21: int, v22: int, v31: int, v32: int)
    ensures v11 * (v21 * v32 - v22 * v31) + v21 * (v12 * v31 - v11 * v32) + v31 * (v11 * v22 - v12 * v21) == 0
    ensures v12 * (v21 * v32 - v22 * v31) + v22 * (v12 * v31 - v11 * v32) + v32 * (v11 * v22 - v12 * v21) == 0
  {
  }

  lemma LinearTerm(x: int, y: int, z: int, s: int, t: int, c: int)
    ensures (x - s * y - t * z) * c == x * c - s * (y * c) - t * (z * c)
  {
  }

  lemma SquareShift(u: int, w: int, o: int)
    ensures Pow2(u - o) - Pow2(w - o) == Pow2(u) - Pow2(w) - 2 * o * (u - w)
  {
  }

  /** Shifting by o subtracts 2 * o times the first two components from the
      lifted one. */
  lemma LiftShift(a: Point, q: Point, o: Point)
    ensures var (l1, l2, l3) := Lift(a, q);
      Lift(Shift(a, o), Shift(q, o)) == (l1, l2, l3 - 2 * o.x * l1 - 2 * o.y * l2)
  {
    SquareShift(q.x, a.x, o.x);
    SquareShift(q.y, a.y, o.y);
  }

  /** Moving all four points by the same vector leaves the test unchanged. */
  lemma Translate(a: Point, b: Point, c: Point, p: Point, o: Point)
    ensures CircleDet(Shift(a, o), Shift(b, o), Shift(c, o), Shift(p, o)) == CircleDet(a, b, c, p)
  {
    LiftShift(a, b, o);
    LiftShift(a, c, o);
    LiftShift(a, p, o);
    var (b1, b2, b3) := Lift(a, b);
    var (c1, c2, c3) := Lift(a, c);
    var (p1, p2, p3) := Lift(a, p);
    ColumnOp(b1, b2, b3, c1, c2, c3, p1, p2, p3, 2 * o.x, 2 * o.y);
  }

  /** The triangle (0, 0), (1, 0), (0, 1) has its circumcentre at (1/2, 1/2),
      which is not a lattice point. */
  lemma HalfIntegerCentre()
    ensures CentreDen(Point(0, 0), Point(1, 0), Point(0, 1)) == 2
    ensures Circumcentre(Point(0, 0), Point(1, 0), Point(0, 1)) == Point(1, 1)
  {
  }

  /** main: a triangle that does not turn left is rejected (exit status 1);
      otherwise one answer per query point. */
  function Run(a: Point, b: Point, c: Point, queries: seq<Point>): (r: Option<seq<Position>>)
    ensures r.None? <==> Cross(a, b, c) <= 0
    ensures r.Some? ==> |r.value| == |queries| && forall k :: 0 <= k < |queries| ==> r.value[k] == PositionOf(a, b, c, queries[k])
  {
    if !IsLeftTurn(a, b, c) then None else Some(seq(|queries|, k requires 0 <= k < |queries| => PositionOf(a, b, c, queries[k])))
  }
}

/** Legality of the diagonals of a quadrilateral (geometry/illegal_edges.c). */
module IllegalEdges {
  import opened Plane
  import opened CircleTest

  datatype Verdict = Verdict(acIllegal: bool, bdIllegal: bool)

  /** AC is illegal iff d lies strictly inside the circle through a, b, c;
      BD is illegal iff c lies strictly inside the circle through a, b, d. */
  function Check(a: Point, b: Point, c: Point, d: Point): (v: Verdict)
    ensures v.acIllegal <==> CircleDet(a, b, c, d) > 0
    ensures v.bdIllegal <==> CircleDet(a, b, d, c) > 0
  {
    Verdict(PositionOf(a, b, c, d) == Inside, PositionOf(a, b, d, c) == Inside)
  }

  /** A fourth point on the circle (BOUNDARY) leaves the diagonal legal; in
      particular a fourth point equal to a triangle vertex does. */
  lemma CocircularIsLegal(a: Point, b: Point, c: Point, d: Point)
    requires PositionOf(a, b, c, d) == Boundary
    ensures !Check(a, b, c, d).acIllegal
  {
  }

  /** With a, b, c turning left on the circle centred at o / den of squared
      radius r2 / den^2, AC is illegal exactly when d is strictly inside that
      circle. */
  lemma IllegalMeansInside(a: Point, b: Point, c: Point, d: Point, o: Point, den: int, r2: int)
    requires den > 0
    requires Dist2(Scale(a, den), o) == r2 && Dist2(Scale(b, den), o) == r2 && Dist2(Scale(c, den), o) == r2
    requires Cross(a, b, c) > 0
    ensures Check(a, b, c, d).acIllegal <==> Dist2(Scale(d, den), o) < r2
  {
    InCircleMeaning(a, b, c, d, o, den, r2);
  }

  /** For every counter-clockwise triangle a, b, c, AC is illegal exactly when
      d is strictly inside the circumcircle of a, b, c. */
  lemma IllegalIffInCircumcircle(a: Point, b: Point, c: Point, d: Point)
    requires Cross(a, b, c) > 0
    ensures var (k, o) := (CentreDen(a, b, c), Circumcentre(a, b, c));
      Check(a, b, c, d).acIllegal <==> Dist2(Scale(d, k), o) < Dist2(Scale(a, k), o)
  {
    InCircumcircle(a, b, c, d);
  }

  lemma RepeatedVertexIsLegal(a: Point, b: Point, c: Point)
    ensures !Check(a, b, c, a).acIllegal && !Check(a, b, c, b).acIllegal
    ensures !Check(a, b, a, c).bdIllegal && !Check(a, b, b, c).bdIllegal
  {
    VerticesOnCircle(a, b, c);
  }
}
