/** Orientation queries (geometry/orientation.c): for each triple p, q, r the
    program prints whether r is to the left of the directed line p -> q, to
    its right, or on it. */
module Orientation {
  import opened Plane

  datatype Turn = Left | Right | Touch

  /** The answer to one query, by the sign of the determinant. */
  function Classify(p: Point, q: Point, r: Point): (t: Turn)
    ensures t == Touch <==> Cross(p, q, r) == 0
    ensures t == Left <==> Cross(p, q, r) > 0
    ensures t == Right <==> Cross(p, q, r) < 0
  {
    var det := (q.x - p.x) * (r.y - p.y) - (r.x - p.x) * (q.y - p.y);
    if det == 0 then Touch else if det > 0 then Left else Right
  }

  function Mirror(t: Turn): Turn
  {
    match t
    case Left => Right
    case Right => Left
    case Touch => Touch
  }

  /** Swapping q and r swaps LEFT and RIGHT and keeps TOUCH. */
  lemma SwapMirrors(p: Point, q: Point, r: Point)
    ensures Classify(p, r, q) == Mirror(Classify(p, q, r))
  {
    CrossSwap(p, q, r);
  }

  /** A query point equal to p or q touches the line. */
  lemma EndpointsTouch(p: Point, q: Point)
    ensures Classify(p, q, p) == Touch && Classify(p, q, q) == Touch
  {
    CrossRepeat(p, q);
  }

  /** The whole run: one line per query, t lines in all. */
  function Answers(queries: seq<(Point, Point, Point)>): (r: seq<Turn>)
    ensures |r| == |queries|
    ensures forall k :: 0 <= k < |queries| ==> r[k] == Classify(queries[k].0, queries[k].1, queries[k].2)
  {
    if queries == [] then []
    else [Classify(queries[0].0, queries[0].1, queries[0].2)] + Answers(queries[1..])
  }
}
