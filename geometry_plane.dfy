/** Points with integer coordinates and the orientation determinant the
    geometry programs share. Coordinates are unbounded integers; the programs'
    64-bit (or 32-bit) products are assumed not to overflow. */
module Plane {
  datatype Point = Point(x: int, y: int)

  /** The answer of the point-location programs. */
  datatype Position = Inside | Outside | Boundary

  function Min(a: int, b: int): int
  {
    if a < b then a else b
  }

  function Max(a: int, b: int): int
  {
    if a > b then a else b
  }

  /** The cross product of b - a and p - a: twice the signed area of the
      triangle a, b, p, positive when p is to the left of the line from a to
      b (counter-clockwise order). */
  function Cross(a: Point, b: Point, p: Point): int
  {
    (b.x - a.x) * (p.y - a.y) - (p.x - a.x) * (b.y - a.y)
  }

  /** Swapping the last two points negates the determinant. */
  lemma CrossSwap(a: Point, b: Point, p: Point)
    ensures Cross(a, p, b) == -Cross(a, b, p)
  {
  }

  /** Swapping the first two points negates the determinant. */
  lemma CrossSwapFirst(a: Point, b: Point, p: Point)
    ensures Cross(b, a, p) == -Cross(a, b, p)
  {
  }

  /** Rotating the three points leaves the determinant unchanged. */
  lemma CrossRotate(a: Point, b: Point, p: Point)
    ensures Cross(b, p, a) == Cross(a, b, p)
  {
  }

  /** A repeated point makes the determinant 0. */
  lemma CrossRepeat(a: Point, b: Point)
    ensures Cross(a, b, a) == 0 && Cross(a, b, b) == 0 && Cross(a, a, b) == 0
  {
  }

  /** in_interval: whether p lies between a and b, in either order; the
      source swaps the ends when a > b. */
  function InInterval(a: int, b: int, p: int): (r: bool)
    ensures r <==> Min(a, b) <= p <= Max(a, b)
    decreases if a > b then 1 else 0
  {
    if a > b then InInterval(b, a, p) else a <= p <= b
  }

  lemma InIntervalSymmetric(a: int, b: int, p: int)
    ensures InInterval(a, b, p) == InInterval(b, a, p)
  {
  }

  /** The axis-parallel bounding box of a non-empty list of points. */
  datatype Box = Box(minX: int, maxX: int, minY: int, maxY: int)

  predicate InBox(box: Box, p: Point)
  {
    box.minX <= p.x <= box.maxX && box.minY <= p.y <= box.maxY
  }

  /** The box is the smallest holding every point: each point lies in it and
      each side is attained by some point. */
  predicate Bounds(box: Box, s: seq<Point>)
  {
    && (forall k :: 0 <= k < |s| ==> InBox(box, s[k]))
    && (exists k :: 0 <= k < |s| && s[k].x == box.minX)
    && (exists k :: 0 <= k < |s| && s[k].x == box.maxX)
    && (exists k :: 0 <= k < |s| && s[k].y == box.minY)
    && (exists k :: 0 <= k < |s| && s[k].y == box.maxY)
  }

  /** The scan in the programs' input loops: start from the first point and
      widen the box by every later one. */
  method BoundingBox(poly: array<Point>, n: int) returns (box: Box)
    requires 1 <= n <= poly.Length
    ensures Bounds(box, poly[..n])
  {
    box := Box(poly[0].x, poly[0].x, poly[0].y, poly[0].y);
    var i := 1;
    while i < n
      invariant 1 <= i <= n
      invariant Bounds(box, poly[..i])
    {
      assert forall k :: 0 <= k < i ==> poly[..i + 1][k] == poly[..i][k];
      var p := poly[i];
      if p.x > box.maxX {
        box := box.(maxX := p.x);
      }
      if p.x < box.minX {
        box := box.(minX := p.x);
      }
      if p.y > box.maxY {
        box := box.(maxY := p.y);
      }
      if p.y < box.minY {
        box := box.(minY := p.y);
      }
      assert poly[..i + 1][i] == p;
      i := i + 1;
    }
  }
}
