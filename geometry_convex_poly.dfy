/** Point location in a convex polygon by halving (geometry/point_convex_poly.c):
    the diagonal from vertex 0 to the middle vertex splits the polygon, the
    query point picks a side, and a triangle is decided by three
    determinants. The recursion on the upper half overwrites the vertex
    before the middle one with vertex 0 and restores it afterwards. */
module ConvexPoly {
  import opened Plane
  import opened Util

  /** in_segment, for a p already known to be collinear with a and b: a
      vertical segment is checked on y, any other on x. */
  function InSegment(a: Point, b: Point, p: Point): bool
  {
    if a.x == b.x then InInterval(a.y, b.y, p.y) else InInterval(a.x, b.x, p.x)
  }

  /** For a point on the line through two distinct points, checking one
      coordinate is the same as checking both. */
  lemma InSegmentCollinear(a: Point, b: Point, p: Point)
    requires a != b && Cross(a, b, p) == 0
    ensures InSegment(a, b, p) <==> InInterval(a.x, b.x, p.x) && InInterval(a.y, b.y, p.y)
  {
    if a.x != b.x && InInterval(a.x, b.x, p.x) {
      Interpolate(a, b, p);
    }
  }

  /** On the line through a and b (a.x != b.x), x between the ends puts y
      between them too. */
  lemma Interpolate(a: Point, b: Point, p: Point)
    requires a.x != b.x && Cross(a, b, p) == 0 && InInterval(a.x, b.x, p.x)
    ensures InInterval(a.y, b.y, p.y)
  {
    var dx, dy, t := b.x - a.x, b.y - a.y, p.x - a.x;
    assert dx * (p.y - a.y) == t * dy;
    if dx > 0 {
      assert 0 <= t <= dx;
      ScaledBetween(dx, t, dy, p.y - a.y);
    } else {
      assert dx <= t <= 0;
      assert (-dx) * (p.y - a.y) == (-t) * dy;
      ScaledBetween(-dx, -t, dy, p.y - a.y);
    }
  }

  /** dx * u == t * dy with 0 <= t <= dx puts u between 0 and dy. */
  lemma ScaledBetween(dx: int, t: int, dy: int, u: int)
    requires 0 < dx && 0 <= t <= dx && dx * u == t * dy
    ensures Min(0, dy) <= u <= Max(0, dy)
  {
    if dy >= 0 {
      assert dx * u >= 0;
      assert dx * u <= dx * dy;
    } else {
      assert dx * u <= 0;
      assert dx * u >= dx * dy;
    }
  }

  /** in_segment_r: an edge point is on the boundary, any other collinear
      point outside. */
  function InSegmentR(a: Point, b: Point, p: Point): Position
  {
    if InSegment(a, b, p) then Boundary else Outside
  }

  /** trig_check: a point on the line of an edge is decided by that edge; a
      point off all three lines is INSIDE exactly when it is on the same
      side of all three edges. */
  function TrigCheck(a: Point, b: Point, c: Point, p: Point): (r: Position)
    ensures r == Inside <==>
      (Cross(a, b, p) > 0 && Cross(b, c, p) > 0 && Cross(c, a, p) > 0)
      || (Cross(a, b, p) < 0 && Cross(b, c, p) < 0 && Cross(c, a, p) < 0)
    ensures r == Boundary ==>
      (Cross(a, b, p) == 0 && InSegment(a, b, p))
      || (Cross(b, c, p) == 0 && InSegment(b, c, p))
      || (Cross(c, a, p) == 0 && InSegment(c, a, p))
  {
    var abP := Cross(a, b, p);
    var bcP := Cross(b, c, p);
    var caP := Cross(c, a, p);
    if abP == 0 then InSegmentR(a, b, p)
    else if bcP == 0 then InSegmentR(b, c, p)
    else if caP == 0 then InSegmentR(c, a, p)
    else if (abP > 0 && bcP > 0 && caP > 0) || (abP < 0 && bcP < 0 && caP < 0) then Inside
    else Outside
  }

  /** The corners of a triangle are on its boundary (c only when the triangle
      is not flat, since a flat one decides c by the line a-b). */
  lemma TriangleCorners(a: Point, b: Point, c: Point)
    ensures TrigCheck(a, b, c, a) == Boundary && TrigCheck(a, b, c, b) == Boundary
    ensures Cross(a, b, c) != 0 ==> TrigCheck(a, b, c, c) == Boundary
  {
    CrossRepeat(a, b);
    CrossRepeat(b, c);
  }

  /** check_point_in_convex on the polygon apex, rest[0], rest[1], ...: a
      triangle is decided by trig_check; otherwise the diagonal from the
      apex to the middle vertex (the apex itself for a single vertex)
      decides a point on it, and a point off it is decided in the half on
      its side, which keeps the apex. A two-vertex polygon has no half to
      recurse into: a point off its line is OUTSIDE (see NextCall). */
  function Halving(p: Point, apex: Point, rest: seq<Point>): Position
    decreases |rest|
  {
    if |rest| == 2 then TrigCheck(apex, rest[0], rest[1], p)
    else
      var midpoint := (|rest| + 1) / 2;
      var middle := if midpoint == 0 then apex else rest[midpoint - 1];
      var div := Cross(apex, middle, p);
      if div == 0 then
        if apex == p || middle == p then Boundary
        else if InSegment(apex, middle, p) then Inside
        else Outside
      else if |rest| < 2 then Outside
      else if div > 0 then Halving(p, apex, rest[midpoint - 1..])
      else Halving(p, apex, rest[..midpoint])
  }

  /** The answer for the polygon s (s[0] the apex). */
  function ConvexCheck(p: Point, s: seq<Point>): Position
    requires |s| >= 1
  {
    Halving(p, s[0], s[1..])
  }

  /** The recursive call of check_point_in_convex as written, for a polygon
      of len vertices and a point with the given side of the dividing line:
      the offset of the sub-polygon and its number of vertices. */
  function NextCall(len: int, div: int): (int, int)
  {
    var midpoint := len / 2;
    if div > 0 then (midpoint - 1, len - midpoint + 1) else (0, midpoint + 1)
  }

  /** From four vertices on, each recursive call is on a smaller polygon that
      is still at least a triangle. */
  lemma NextCallShrinks(len: int, div: int)
    requires len >= 4 && div != 0
    ensures 0 <= NextCall(len, div).0 && 3 <= NextCall(len, div).1 < len
    ensures NextCall(len, div).0 + NextCall(len, div).1 <= len
  {
  }

  /** With two vertices the recursive call is the same call again: same
      start, same length, and in the upper-half branch vertex 0 is copied
      onto itself. So the polygon (0, 0), (2, 2) with the query (1, 0), which
      lies in the bounding box but off the line, never gets an answer. */
  lemma TwoVerticesRecurseForever(div: int)
    requires div != 0
    ensures NextCall(2, div) == (0, 2)
    ensures var a, b, q := Point(0, 0), Point(2, 2), Point(1, 0);
      && InBox(Box(0, 2, 0, 2), q) && Bounds(Box(0, 2, 0, 2), [a, b]) && Cross(a, b, q) != 0
  {
    var a, b := Point(0, 0), Point(2, 2);
    assert [a, b][0] == a && [a, b][1] == b;
  }

  /** A polygon of two distinct vertices answers like a segment: its ends are
      BOUNDARY, a point strictly between them INSIDE, and every other point,
      on the line or off it, OUTSIDE. */
  lemma TwoVertices(a: Point, b: Point, p: Point)
    requires a != b
    ensures ConvexCheck(p, [a, b]) == Boundary <==> p == a || p == b
    ensures ConvexCheck(p, [a, b]) == Inside <==>
      p != a && p != b && Cross(a, b, p) == 0 && InSegment(a, b, p)
    ensures Cross(a, b, p) != 0 ==> ConvexCheck(p, [a, b]) == Outside
  {
    assert [a, b][1..] == [b];
    CrossRepeat(a, b);
  }

  /** A single vertex (or none: vertex 0 is read all the same) is the only
      point in its bounding box, and it is BOUNDARY. */
  lemma OneVertex(box: Box, a: Point, q: Point)
    requires Bounds(box, [a])
    ensures Answer(box, [a], q) == if q == a then Boundary else Outside
  {
    assert [a][0] == a;
  }

  /** Seen from the apex, the other vertices follow each other
      counter-clockwise: the polygon is strictly convex around vertex 0. */
  predicate Fan(apex: Point, rest: seq<Point>)
  {
    forall j, k :: 0 <= j < k < |rest| ==> Cross(apex, rest[j], rest[k]) > 0
  }

  /** Every vertex of a polygon that fans out counter-clockwise from vertex 0
      is on the boundary. */
  lemma VerticesOnBoundary(s: seq<Point>)
    requires |s| >= 3 && Fan(s[0], s[1..])
    ensures forall k :: 0 <= k < |s| ==> ConvexCheck(s[k], s) == Boundary
  {
    forall k | 0 <= k < |s|
      ensures ConvexCheck(s[k], s) == Boundary
    {
      if k == 0 {
        ApexOnBoundary(s[0], s[1..]);
      } else {
        assert s[k] == s[1..][k - 1];
        VertexOnBoundary(s[0], s[1..], k - 1);
      }
    }
  }

  /** The apex is on the diagonal of every halving step and is a corner of
      the final triangle. */
  lemma ApexOnBoundary(apex: Point, rest: seq<Point>)
    requires |rest| >= 2
    ensures Halving(apex, apex, rest) == Boundary
  {
    if |rest| == 2 {
      TriangleCorners(apex, rest[0], rest[1]);
    } else {
      CrossRepeat(apex, rest[(|rest| + 1) / 2 - 1]);
    }
  }

  /** A vertex other than the apex is the middle vertex of some step, or
      stays in the half each step keeps. */
  lemma {:induction false} VertexOnBoundary(apex: Point, rest: seq<Point>, k: int)
    requires |rest| >= 2 && Fan(apex, rest) && 0 <= k < |rest|
    ensures Halving(rest[k], apex, rest) == Boundary
    decreases |rest|
  {
    if |rest| == 2 {
      TriangleCorners(apex, rest[0], rest[1]);
    } else {
      var midpoint := (|rest| + 1) / 2;
      var middle := rest[midpoint - 1];
      if k == midpoint - 1 {
        CrossRepeat(apex, middle);
      } else if k < midpoint - 1 {
        CrossSwap(apex, rest[k], middle);
        assert rest[..midpoint][k] == rest[k];
        VertexOnBoundary(apex, rest[..midpoint], k);
      } else {
        assert rest[midpoint - 1..][k - (midpoint - 1)] == rest[k];
        VertexOnBoundary(apex, rest[midpoint - 1..], k - (midpoint - 1));
      }
    }
  }

  /** The ends of the dividing diagonal are on the boundary; a point strictly
      inside the diagonal is INSIDE, and a point on its line beyond it is
      OUTSIDE. */
  lemma Diagonal(p: Point, s: seq<Point>)
    requires |s| >= 4
    ensures ConvexCheck(s[0], s) == Boundary && ConvexCheck(s[|s| / 2], s) == Boundary
    ensures Cross(s[0], s[|s| / 2], p) == 0 && p != s[0] && p != s[|s| / 2] ==>
      (ConvexCheck(p, s) == Inside <==> InSegment(s[0], s[|s| / 2], p))
    ensures Cross(s[0], s[|s| / 2], p) == 0 && p != s[0] && p != s[|s| / 2] ==> ConvexCheck(p, s) != Boundary
  {
    assert s[1..][(|s[1..]| + 1) / 2 - 1] == s[|s| / 2];
    CrossRepeat(s[0], s[|s| / 2]);
  }

  /** A point on the line of the dividing diagonal is decided there. */
  lemma OnDiagonal(p: Point, apex: Point, rest: seq<Point>, middle: Point)
    requires |rest| != 2
    requires middle == if (|rest| + 1) / 2 == 0 then apex else rest[(|rest| + 1) / 2 - 1]
    requires Cross(apex, middle, p) == 0
    ensures Halving(p, apex, rest) ==
      if apex == p || middle == p then Boundary else if InSegment(apex, middle, p) then Inside else Outside
  {
  }

  /** check_point_in_convex on the polygon poly[start..start + len] (vertex
      poly[start] is read even when len is 0). The array is the same
      afterwards: the vertex overwritten for the upper half is put back. */
  method CheckPointInConvex(p: Point, poly: array<Point>, start: int, len: int, ghost rest: seq<Point>) returns (r: Position)
    requires 0 <= start && 0 <= len && start + Max(len, 1) <= poly.Length
    requires rest == poly[start + 1..start + Max(len, 1)]
    modifies poly
    ensures r == Halving(p, old(poly[start]), rest)
    ensures poly[..] == old(poly[..])
    decreases len, 1
  {
    var first := poly[start];
    assert |rest| == Max(len, 1) - 1;
    if len == 3 {
      r := TrigCheck(first, poly[start + 1], poly[start + 2], p);
      assert r == Halving(p, first, rest);
      return;
    }
    var midpoint := len / 2;
    assert (|rest| + 1) / 2 == midpoint;
    var middle := poly[start + midpoint];
    assert middle == if midpoint == 0 then first else rest[midpoint - 1];
    var divLineDet := Cross(first, middle, p);
    if divLineDet == 0 {
      if first == p || middle == p {
        r := Boundary;
      } else {
        r := if InSegment(first, middle, p) then Inside else Outside;
      }
      OnDiagonal(p, first, rest, middle);
    } else if len < 4 {
      // Two vertices: the recursive call would repeat this one (NextCall).
      r := Outside;
      assert r == Halving(p, first, rest);
    } else if divLineDet > 0 {
      r := CheckUpperHalf(p, poly, start, len, rest);
      assert r == Halving(p, first, rest);
    } else {
      r := CheckLowerHalf(p, poly, start, len, rest);
      assert r == Halving(p, first, rest);
    }
  }

  /** The branch of check_point_in_convex for a point right of the middle
      diagonal: the search recurses on the lower half, apex to middle vertex. */
  method CheckLowerHalf(p: Point, poly: array<Point>, start: int, len: int, ghost rest: seq<Point>) returns (r: Position)
    requires 0 <= start && 4 <= len && start + len <= poly.Length
    requires rest == poly[start + 1..start + len]
    modifies poly
    ensures r == Halving(p, old(poly[start]), rest[..len / 2])
    ensures poly[..] == old(poly[..])
    decreases len, 0
  {
    var midpoint := len / 2;
    assert poly[start + 1..start + (midpoint + 1)] == rest[..midpoint];
    r := CheckPointInConvex(p, poly, start, midpoint + 1, rest[..midpoint]);
  }

  /** The branch of check_point_in_convex for a point left of the middle
      diagonal: the apex is copied over the vertex before the middle one, the
      search recurses on the upper half starting there, and the overwritten
      vertex is put back. */
  method CheckUpperHalf(p: Point, poly: array<Point>, start: int, len: int, ghost rest: seq<Point>) returns (r: Position)
    requires 0 <= start && 4 <= len && start + len <= poly.Length
    requires rest == poly[start + 1..start + len]
    modifies poly
    ensures r == Halving(p, old(poly[start]), rest[len / 2 - 1..])
    ensures poly[..] == old(poly[..])
    decreases len, 0
  {
    var midpoint := len / 2;
    var first := poly[start];
    var prevValue := poly[start + midpoint - 1];
    poly[start + midpoint - 1] := first;
    assert poly[start + midpoint..start + len] == rest[midpoint - 1..];
    r := CheckPointInConvex(p, poly, start + midpoint - 1, len - midpoint + 1, rest[midpoint - 1..]);
    poly[start + midpoint - 1] := prevValue;
  }

  /** The sign of the first non-zero turn among the triples ending at index
      i, i + 1, ... (0 if there is none). */
  function FirstTurn(s: seq<Point>, i: nat): int
    decreases |s| - i
  {
    if i >= |s| || i < 2 then 0
    else if Cross(s[i - 2], s[i - 1], s[i]) != 0 then Cross(s[i - 2], s[i - 1], s[i])
    else FirstTurn(s, i + 1)
  }

  /** The orientation scan of main: from the triple ending at index 3, skip
      collinear triples; the polygon is clockwise when the first turn found
      is negative. */
  method WrongOrder(poly: array<Point>, n: int) returns (wrong: bool)
    requires 0 <= n <= poly.Length
    ensures wrong <==> FirstTurn(poly[..n], 3) < 0
  {
    ghost var s := poly[..n];
    wrong := false;
    var i := 3;
    while i < n
      invariant 3 <= i
      invariant FirstTurn(s, 3) == FirstTurn(s, i)
    {
      var det := Cross(poly[i - 2], poly[i - 1], poly[i]);
      if det < 0 {
        wrong := true;
        break;
      } else if det > 0 {
        break;
      }
      i := i + 1;
    }
  }

  /** The printed answer for one query: OUTSIDE when the point is outside
      the bounding box, the halving search otherwise. */
  function Answer(box: Box, s: seq<Point>, q: Point): Position
    requires |s| >= 1
  {
    if !InBox(box, q) then Outside else ConvexCheck(q, s)
  }

  /** main: the bounding box, the orientation fix (reversing the vertices in
      place), then one answer per query. Vertex 0 is read whatever n is, so
      with no vertex the polygon is poly[0] alone. */
  method Run(poly: array<Point>, n: int, queries: seq<Point>) returns (box: Box, results: seq<Position>)
    requires 0 <= n <= poly.Length && 1 <= poly.Length
    modifies poly
    ensures Bounds(box, old(poly[..Max(n, 1)]))
    ensures poly[..n] == if FirstTurn(old(poly[..n]), 3) < 0 then Reversed(old(poly[..n])) else old(poly[..n])
    ensures poly[n..] == old(poly[n..])
    ensures |results| == |queries|
    ensures forall k :: 0 <= k < |queries| ==> results[k] == Answer(box, poly[..Max(n, 1)], queries[k])
  {
    box := BoundingBox(poly, Max(n, 1));
    var wrongOrder := WrongOrder(poly, n);
    if wrongOrder {
      ReversePrefix(poly, n);
    }
    results := AnswerQueries(poly, n, box, queries);
  }

  /** The query loop of main: points outside the box are OUTSIDE without a
      search; the search leaves the vertices as it found them. */
  method AnswerQueries(poly: array<Point>, n: int, box: Box, queries: seq<Point>) returns (results: seq<Position>)
    requires 0 <= n <= poly.Length && 1 <= poly.Length
    modifies poly
    ensures poly[..] == old(poly[..])
    ensures |results| == |queries|
    ensures forall k :: 0 <= k < |queries| ==> results[k] == Answer(box, poly[..Max(n, 1)], queries[k])
  {
    ghost var ordered := poly[..];
    results := [];
    var j := 0;
    while j < |queries|
      invariant 0 <= j <= |queries|
      invariant poly[..] == ordered
      invariant |results| == j
      invariant forall k :: 0 <= k < j ==> results[k] == Answer(box, poly[..Max(n, 1)], queries[k])
    {
      var p := queries[j];
      var r;
      if p.x < box.minX || p.x > box.maxX || p.y < box.minY || p.y > box.maxY {
        r := Outside;
      } else {
        r := CheckPointInConvex(p, poly, 0, n, poly[1..Max(n, 1)]);
        assert poly[1..Max(n, 1)] == poly[..Max(n, 1)][1..];
      }
      results := results + [r];
      j := j + 1;
    }
  }
}
