/** Point location in a convex polygon with 32-bit coordinates
    (geometry/point_in_convex_polygon.c): the same halving search as
    point_convex_poly.c, with the triangle decided by comparing areas, the
    input compacted by dropping the middle of collinear triples, and an error
    exit for polygons of at most two vertices. */
module ConvexPolygon {
  import opened Plane
  import opened Util
  import ConvexPoly

  const I32Min: int := -0x8000_0000
  const I32Max: int := 0x7fff_ffff

  function Abs(x: int): (r: int)
    ensures r >= 0 && (r == x || r == -x)
  {
    if x > 0 then x else -x
  }

  /** minimize: the new value of the variable is the smaller of its value
      and the new one. */
  function Minimize(current: int, newValue: int): (r: int)
    ensures r <= current && r <= newValue
    ensures r == current || r == newValue
  {
    if newValue < current then newValue else current
  }

  /** maximize: the new value of the variable is the larger of its value and
      the new one. */
  function Maximize(current: int, newValue: int): (r: int)
    ensures r >= current && r >= newValue
    ensures r == current || r == newValue
  {
    if newValue > current then newValue else current
  }

  /** signed_area: twice the signed area of a, b, p, written with the
      products in the other order; it is the orientation determinant. */
  function SignedArea(a: Point, b: Point, p: Point): (r: int)
    ensures r == Cross(a, b, p)
  {
    (b.x - a.x) * (p.y - a.y) - (b.y - a.y) * (p.x - a.x)
  }

  /** point_in_segment: collinear and inside both coordinate ranges. */
  function PointInSegment(a: Point, b: Point, p: Point): bool
  {
    SignedArea(a, b, p) == 0 && InInterval(a.x, b.x, p.x) && InInterval(a.y, b.y, p.y)
  }

  /** For distinct ends, the two-range test agrees with in_segment of
      point_convex_poly.c on collinear points and rejects all others. */
  lemma SegmentTestsAgree(a: Point, b: Point, p: Point)
    requires a != b
    ensures PointInSegment(a, b, p) <==> Cross(a, b, p) == 0 && ConvexPoly.InSegment(a, b, p)
  {
    if Cross(a, b, p) == 0 {
      ConvexPoly.InSegmentCollinear(a, b, p);
    }
  }

  /** The three sub-triangles around p add up to the whole, with signs. */
  lemma AreasAddUp(a: Point, b: Point, c: Point, p: Point)
    ensures Cross(a, b, p) + Cross(b, c, p) + Cross(c, a, p) == Cross(a, b, c)
  {
  }

  /** The absolute values of three numbers add up to the absolute value of
      their sum exactly when no two of them have strictly opposite signs. */
  lemma AbsSum(x: int, y: int, z: int)
    ensures Abs(x) + Abs(y) + Abs(z) == Abs(x + y + z) <==>
      !((x > 0 || y > 0 || z > 0) && (x < 0 || y < 0 || z < 0))
  {
  }

  /** point_in_triangle: p is OUTSIDE when the areas of the three
      sub-triangles exceed the area of the triangle. */
  function PointInTriangle(a: Point, b: Point, c: Point, p: Point): (r: Position)
    ensures r == Outside <==>
      (Cross(a, b, p) > 0 || Cross(b, c, p) > 0 || Cross(c, a, p) > 0)
      && (Cross(a, b, p) < 0 || Cross(b, c, p) < 0 || Cross(c, a, p) < 0)
    ensures r == Inside <==>
      (Cross(a, b, p) > 0 && Cross(b, c, p) > 0 && Cross(c, a, p) > 0)
      || (Cross(a, b, p) < 0 && Cross(b, c, p) < 0 && Cross(c, a, p) < 0)
  {
    AreasAddUp(a, b, c, p);
    AbsSum(SignedArea(a, b, p), SignedArea(b, c, p), SignedArea(c, a, p));
    var abcArea := Abs(SignedArea(a, b, c));
    var abpArea := Abs(SignedArea(a, b, p));
    var bcpArea := Abs(SignedArea(b, c, p));
    var capArea := Abs(SignedArea(c, a, p));
    var totalArea := abpArea + bcpArea + capArea;
    if abcArea != totalArea then Outside
    else if abpArea == 0 || bcpArea == 0 || capArea == 0 then Boundary
    else Inside
  }

  /** The area test and the sign test of point_convex_poly.c find the same
      interior points. */
  lemma TriangleTestsAgree(a: Point, b: Point, c: Point, p: Point)
    ensures PointInTriangle(a, b, c, p) == Inside <==> ConvexPoly.TrigCheck(a, b, c, p) == Inside
  {
  }

  /** The corners of a triangle are on its boundary, flat or not. */
  lemma TriangleCorners(a: Point, b: Point, c: Point)
    ensures PointInTriangle(a, b, c, a) == Boundary
    ensures PointInTriangle(a, b, c, b) == Boundary
    ensures PointInTriangle(a, b, c, c) == Boundary
  {
    CrossRepeat(a, b);
    CrossRepeat(b, c);
    CrossRepeat(c, a);
  }

  /** point_in_convex_polygon on the polygon apex, rest[0], rest[1], ... */
  function Locate(p: Point, apex: Point, rest: seq<Point>): Position
    requires |rest| >= 2
    decreases |rest|
  {
    if |rest| == 2 then PointInTriangle(apex, rest[0], rest[1], p)
    else
      var mid := (|rest| + 1) / 2;
      var pMid := rest[mid - 1];
      var midLineOri := SignedArea(apex, pMid, p);
      if midLineOri == 0 then
        if apex == p || pMid == p then Boundary
        else if PointInSegment(apex, pMid, p) then Inside
        else Outside
      else if midLineOri > 0 then Locate(p, apex, rest[mid - 1..])
      else Locate(p, apex, rest[..mid])
  }

  /** The answer of one search: a position, or the error exit for a polygon
      of at most two vertices. */
  datatype Located = Found(position: Position) | ErrorExit

  /** Every vertex of a polygon that fans out counter-clockwise from the apex
      is on the boundary. */
  lemma {:induction false} VertexOnBoundary(apex: Point, rest: seq<Point>, k: int)
    requires |rest| >= 2 && ConvexPoly.Fan(apex, rest) && 0 <= k < |rest|
    ensures Locate(rest[k], apex, rest) == Boundary
    decreases |rest|
  {
    if |rest| == 2 {
      TriangleCorners(apex, rest[0], rest[1]);
    } else {
      var mid := (|rest| + 1) / 2;
      var pMid := rest[mid - 1];
      if k == mid - 1 {
        CrossRepeat(apex, pMid);
      } else if k < mid - 1 {
        CrossSwap(apex, rest[k], pMid);
        assert rest[..mid][k] == rest[k];
        VertexOnBoundary(apex, rest[..mid], k);
      } else {
        assert rest[mid - 1..][k - (mid - 1)] == rest[k];
        VertexOnBoundary(apex, rest[mid - 1..], k - (mid - 1));
      }
    }
  }

  /** point_in_convex_polygon on polygon[start..start + len]; rest is the
      polygon after its first vertex. The array is the same afterwards. */
  method PointInConvexPolygon(polygon: array<Point>, start: int, len: int, p: Point, ghost rest: seq<Point>)
    returns (r: Located)
    requires 0 <= start && start + Max(len, 0) <= polygon.Length
    requires len >= 3 ==> rest == polygon[start + 1..start + len]
    modifies polygon
    ensures len <= 2 ==> r == ErrorExit
    ensures len >= 3 ==> r == Found(Locate(p, old(polygon[start]), rest))
    ensures polygon[..] == old(polygon[..])
    decreases len, 1
  {
    if len <= 2 {
      return ErrorExit;
    }
    var first := polygon[start];
    if len == 3 {
      return Found(PointInTriangle(first, polygon[start + 1], polygon[start + 2], p));
    }
    var mid := len / 2;
    assert (|rest| + 1) / 2 == mid;
    var pMid := polygon[start + mid];
    assert pMid == rest[mid - 1];
    var midLineOri := SignedArea(first, pMid, p);
    if midLineOri == 0 {
      if first == p || pMid == p {
        return Found(Boundary);
      }
      return if PointInSegment(first, pMid, p) then Found(Inside) else Found(Outside);
    }
    if midLineOri > 0 {
      r := SearchUpperHalf(polygon, start, len, p, rest);
    } else {
      assert polygon[start + 1..start + (mid + 1)] == rest[..mid];
      r := PointInConvexPolygon(polygon, start, mid + 1, p, rest[..mid]);
    }
  }

  /** The branch of point_in_convex_polygon for a point left of the middle
      diagonal: the apex is copied over the vertex before the middle one, the
      search recurses on the upper half starting there, and the overwritten
      vertex is put back. */
  method SearchUpperHalf(polygon: array<Point>, start: int, len: int, p: Point, ghost rest: seq<Point>)
    returns (r: Located)
    requires 0 <= start && 4 <= len && start + len <= polygon.Length
    requires rest == polygon[start + 1..start + len]
    modifies polygon
    ensures r == Found(Locate(p, old(polygon[start]), rest[len / 2 - 1..]))
    ensures polygon[..] == old(polygon[..])
    decreases len, 0
  {
    var mid := len / 2;
    var first := polygon[start];
    var tmp := polygon[start + mid - 1];
    polygon[start + mid - 1] := first;
    assert polygon[start + mid..start + len] == rest[mid - 1..];
    r := PointInConvexPolygon(polygon, start + mid - 1, len - (mid - 1), p, rest[mid - 1..]);
    polygon[start + mid - 1] := tmp;
  }

  /** One step of the input loop: the new vertex replaces the last one kept
      when the last two kept vertices and the new one are collinear. */
  function Push(kept: seq<Point>, q: Point): (r: seq<Point>)
    ensures |r| == |kept| + 1 || (|kept| >= 2 && |r| == |kept|)
    ensures r[|r| - 1] == q && r[..|r| - 1] <= kept
  {
    if |kept| >= 2 && SignedArea(kept[|kept| - 2], kept[|kept| - 1], q) == 0 then kept[..|kept| - 1] + [q]
    else kept + [q]
  }

  /** The vertices the input loop keeps, in order. */
  function Compact(input: seq<Point>): seq<Point>
  {
    if input == [] then [] else Push(Compact(input[..|input| - 1]), input[|input| - 1])
  }

  /** Compaction never adds vertices and keeps only input vertices. */
  lemma {:induction false} CompactFromInput(input: seq<Point>)
    ensures |Compact(input)| <= |input|
    ensures forall k :: 0 <= k < |Compact(input)| ==> Compact(input)[k] in input
  {
    if input != [] {
      var init := input[..|input| - 1];
      CompactFromInput(init);
      var kept := Compact(init);
      forall k | 0 <= k < |Compact(input)|
        ensures Compact(input)[k] in input
      {
        if k < |Compact(input)| - 1 {
          assert Compact(input)[k] == kept[k];
          assert kept[k] in init;
        }
      }
    }
  }

  /** The first and the last input vertex are always kept. */
  lemma {:induction false} CompactEnds(input: seq<Point>)
    requires input != []
    ensures Compact(input) != [] && Compact(input)[|Compact(input)| - 1] == input[|input| - 1]
    ensures Compact(input)[0] == input[0]
  {
    var init := input[..|input| - 1];
    var q := input[|input| - 1];
    if init == [] {
      assert Compact(input) == [q];
    } else {
      CompactEnds(init);
      var kept := Compact(init);
      assert Compact(input)[..|Compact(input)| - 1][0] == kept[0];
    }
  }

  /** The input vertices i, i + 1 and i + 2 are not collinear. */
  predicate TurnsAt(s: seq<Point>, i: int)
    requires 0 <= i < |s| - 2
  {
    Cross(s[i], s[i + 1], s[i + 2]) != 0
  }

  /** Without three consecutive collinear input vertices nothing is
      dropped. */
  lemma {:induction false} CompactKeepsTurns(input: seq<Point>)
    requires forall i :: 0 <= i < |input| - 2 ==> TurnsAt(input, i)
    ensures Compact(input) == input
  {
    if input != [] {
      var init := input[..|input| - 1];
      var q := input[|input| - 1];
      TurnsOfPrefix(input, init);
      CompactKeepsTurns(init);
      if |input| >= 3 {
        assert TurnsAt(input, |input| - 3);
      }
      LastTurn(input);
    }
  }

  /** Dropping the last vertex keeps the turns of the others. */
  lemma TurnsOfPrefix(input: seq<Point>, init: seq<Point>)
    requires input != [] && init == input[..|input| - 1]
    requires forall i :: 0 <= i < |input| - 2 ==> TurnsAt(input, i)
    ensures forall i :: 0 <= i < |init| - 2 ==> TurnsAt(init, i)
  {
    forall i | 0 <= i < |init| - 2
      ensures TurnsAt(init, i)
    {
      assert TurnsAt(input, i);
      assert init[i] == input[i] && init[i + 1] == input[i + 1] && init[i + 2] == input[i + 2];
    }
  }

  /** A last vertex that turns, or follows fewer than two others, is pushed
      without dropping. */
  lemma LastTurn(input: seq<Point>)
    requires input != [] && (|input| >= 3 ==> TurnsAt(input, |input| - 3))
    ensures Push(input[..|input| - 1], input[|input| - 1]) == input
  {
    var init := input[..|input| - 1];
    if |input| >= 3 {
      assert init[|init| - 2] == input[|input| - 3] && init[|init| - 1] == input[|input| - 2];
    }
    assert input == init + [input[|input| - 1]];
  }

  /** The initial bounds: every coordinate is out of them until a vertex is
      read. */
  const NoBox: Box := Box(I32Max, I32Min, I32Max, I32Min)

  /** The input loop of main: the bounds over every input vertex (dropped
      ones too) and the compacted polygon in polygon[..len]. */
  method ReadPolygon(input: seq<Point>, polygon: array<Point>) returns (len: int, box: Box)
    requires |input| <= polygon.Length
    requires forall k :: 0 <= k < |input| ==> I32Min <= input[k].x <= I32Max && I32Min <= input[k].y <= I32Max
    modifies polygon
    ensures 0 <= len <= |input| && polygon[..len] == Compact(input)
    ensures input == [] ==> box == NoBox
    ensures input != [] ==> Bounds(box, input)
  {
    box := NoBox;
    len := 0;
    var read := 0;
    while read < |input|
      invariant 0 <= read <= |input| && 0 <= len <= read
      invariant polygon[..len] == Compact(input[..read])
      invariant box == BoxOf(input[..read])
    {
      var q := input[read];
      box := Box(Minimize(box.minX, q.x), Maximize(box.maxX, q.x), Minimize(box.minY, q.y), Maximize(box.maxY, q.y));
      len := StoreVertex(polygon, len, q);
      CompactStep(input, read);
      assert polygon[..len] == Compact(input[..read + 1]);
      assert input[..read + 1][..read] == input[..read];
      assert box == BoxOf(input[..read + 1]);
      read := read + 1;
    }
    assert input[..read] == input;
    if input != [] {
      BoxOfBounds(input);
    }
  }

  /** One pass of the input loop after the bounds: the vertex is stored at
      polygon[len], and when it is collinear with the two before it, it
      overwrites the one before and the length stays. */
  method StoreVertex(polygon: array<Point>, len: int, q: Point) returns (newLen: int)
    requires 0 <= len < polygon.Length
    modifies polygon
    ensures len <= newLen <= len + 1 && polygon[..newLen] == Push(old(polygon[..len]), q)
  {
    ghost var kept := polygon[..len];
    polygon[len] := q;
    assert polygon[..len] == kept;
    if len >= 2 && SignedArea(polygon[len - 2], polygon[len - 1], polygon[len]) == 0 {
      assert polygon[len - 2] == kept[len - 2] && polygon[len - 1] == kept[len - 1];
      polygon[len - 1] := polygon[len];
      assert polygon[..len] == kept[..len - 1] + [q];
      newLen := len;
    } else {
      assert polygon[..len + 1] == kept + [q];
      newLen := len + 1;
    }
  }

  /** Reading one more vertex pushes it onto the compacted prefix. */
  lemma CompactStep(input: seq<Point>, read: nat)
    requires read < |input|
    ensures Compact(input[..read + 1]) == Push(Compact(input[..read]), input[read])
  {
    assert input[..read + 1][..read] == input[..read];
  }

  /** The bounds after reading the vertices s, each widening them by
      minimize and maximize. */
  function BoxOf(s: seq<Point>): Box
  {
    if s == [] then NoBox
    else
      var box := BoxOf(s[..|s| - 1]);
      var q := s[|s| - 1];
      Box(Minimize(box.minX, q.x), Maximize(box.maxX, q.x), Minimize(box.minY, q.y), Maximize(box.maxY, q.y))
  }

  /** Starting from the sentinels, the widened bounds of 32-bit vertices are
      exactly their bounding box. */
  lemma {:induction false} BoxOfBounds(s: seq<Point>)
    requires s != []
    requires forall k :: 0 <= k < |s| ==> I32Min <= s[k].x <= I32Max && I32Min <= s[k].y <= I32Max
    ensures Bounds(BoxOf(s), s)
  {
    var init := s[..|s| - 1];
    if init != [] {
      BoxOfBounds(init);
    }
    WidenBox(init, BoxOf(init), BoxOf(s), s[|s| - 1]);
    assert s == init + [s[|s| - 1]];
  }

  /** Widening the bounds of s by q gives the bounds of s + [q]. */
  lemma WidenBox(s: seq<Point>, previous: Box, box: Box, q: Point)
    requires s == [] ==> previous == NoBox
    requires s != [] ==> Bounds(previous, s)
    requires I32Min <= q.x <= I32Max && I32Min <= q.y <= I32Max
    requires box.minX <= previous.minX && box.minX <= q.x && (box.minX == previous.minX || box.minX == q.x)
    requires box.maxX >= previous.maxX && box.maxX >= q.x && (box.maxX == previous.maxX || box.maxX == q.x)
    requires box.minY <= previous.minY && box.minY <= q.y && (box.minY == previous.minY || box.minY == q.y)
    requires box.maxY >= previous.maxY && box.maxY >= q.y && (box.maxY == previous.maxY || box.maxY == q.y)
    ensures Bounds(box, s + [q])
  {
    var t := s + [q];
    assert t[|s|] == q;
    forall k | 0 <= k < |s| ensures t[k] == s[k] && InBox(box, t[k]) {
    }
  }

  /** The printed answer for one query: OUTSIDE off the bounds (compared
      with in_interval, which swaps the sentinels of an empty input), the
      search otherwise. */
  function QueryAnswer(box: Box, s: seq<Point>, q: Point): Located
  {
    if !InInterval(box.minX, box.maxX, q.x) || !InInterval(box.minY, box.maxY, q.y) then Found(Outside)
    else if |s| <= 2 then ErrorExit
    else Found(Locate(q, s[0], s[1..]))
  }

  /** The vertex order main leaves: reversed when the first three vertices
      turn clockwise. */
  function Oriented(s: seq<Point>): seq<Point>
    requires |s| >= 3
  {
    if Cross(s[0], s[1], s[2]) < 0 then Reversed(s) else s
  }

  /** The orientation fix of main: it looks at the first three array
      entries (stale ones when fewer vertices were kept) and reverses
      polygon[..len] in place when they turn clockwise. */
  method Orient(polygon: array<Point>, len: int)
    requires 3 <= polygon.Length && 0 <= len <= polygon.Length
    modifies polygon
    ensures polygon[..len] == old(polygon[..len]) || polygon[..len] == Reversed(old(polygon[..len]))
    ensures len >= 3 ==> polygon[..len] == Oriented(old(polygon[..len]))
  {
    ghost var before := polygon[..len];
    if len >= 3 {
      assert polygon[0] == before[0] && polygon[1] == before[1] && polygon[2] == before[2];
    }
    if SignedArea(polygon[0], polygon[1], polygon[2]) < 0 {
      ReversePrefix(polygon, len);
    }
  }

  /** The query loop of main: one answer per query until the first error
      exit, which ends the program. */
  method AnswerQueries(polygon: array<Point>, len: int, box: Box, queries: seq<Point>) returns (results: seq<Located>)
    requires 0 <= len <= polygon.Length
    modifies polygon
    ensures polygon[..] == old(polygon[..])
    ensures |results| <= |queries|
    ensures forall k :: 0 <= k < |results| ==> results[k] == QueryAnswer(box, polygon[..len], queries[k])
    ensures forall k :: 0 <= k < |results| - 1 ==> results[k] != ErrorExit
    ensures |results| < |queries| ==> results != [] && results[|results| - 1] == ErrorExit
  {
    results := [];
    var x := 0;
    while x < |queries|
      invariant 0 <= x <= |queries| && |results| == x
      invariant polygon[..] == old(polygon[..])
      invariant forall k :: 0 <= k < x ==> results[k] == QueryAnswer(box, polygon[..len], queries[k])
      invariant forall k :: 0 <= k < x ==> results[k] != ErrorExit
    {
      var p := queries[x];
      var r;
      if !InInterval(box.minX, box.maxX, p.x) || !InInterval(box.minY, box.maxY, p.y) {
        r := Found(Outside);
      } else {
        ghost var rest := if len >= 3 then polygon[1..len] else [];
        r := PointInConvexPolygon(polygon, 0, len, p, rest);
        if len >= 3 {
          assert polygon[..len][1..] == rest;
        }
      }
      results := results + [r];
      if r == ErrorExit {
        return;
      }
      x := x + 1;
    }
  }

  /** main: read and compact the polygon, fix its orientation, then answer
      the queries. */
  method Run(input: seq<Point>, queries: seq<Point>, polygon: array<Point>)
    returns (len: int, box: Box, results: seq<Located>)
    requires 3 <= polygon.Length && |input| <= polygon.Length
    requires forall k :: 0 <= k < |input| ==> I32Min <= input[k].x <= I32Max && I32Min <= input[k].y <= I32Max
    modifies polygon
    ensures len == |Compact(input)| <= |input|
    ensures input != [] ==> Bounds(box, input)
    ensures polygon[..len] == Compact(input) || polygon[..len] == Reversed(Compact(input))
    ensures len >= 3 ==> polygon[..len] == Oriented(Compact(input))
    ensures |results| <= |queries|
    ensures forall k :: 0 <= k < |results| ==> results[k] == QueryAnswer(box, polygon[..len], queries[k])
    ensures forall k :: 0 <= k < |results| - 1 ==> results[k] != ErrorExit
    ensures |results| < |queries| ==> results != [] && results[|results| - 1] == ErrorExit
  {
    len, box := ReadPolygon(input, polygon);
    Orient(polygon, len);
    results := AnswerQueries(polygon, len, box, queries);
  }
}
