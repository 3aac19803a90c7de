/** Point location in a simple polygon by counting ray crossings
    (geometry/point_in_polygon.c). The polygon is closed by repeating its
    first vertex; a query point outside the bounding box is OUTSIDE; a point
    on an edge is BOUNDARY; otherwise the edges crossed by the segment from
    the point to a distant point are counted, and an odd count is INSIDE.
    When a vertex lies on that segment, the count restarts with another
    distant point, at most 10 * n times before the program exits with 1. */
module PointInPolygon {
  import opened Plane
  import ConvexPoly

  /** MAX_POINTS: the vertex array holds one slot more, for the closing copy. */
  const MaxPoints: int := 1002

  /** The generator of random: state' = state * Mul + Inc modulo 2^64, and
      the output is the top 32 bits of the new state. */
  const Modulus: int := 0x1_0000_0000_0000_0000
  const Mul: int := 3202034522624059733
  const Inc: int := 5340424991
  const HalfModulus: int := 0x1_0000_0000

  /** The state of random after k calls, from the initial state 1. */
  function StateAfter(k: nat): (s: int)
    ensures 0 <= s < Modulus
  {
    if k == 0 then 1 else (StateAfter(k - 1) * Mul + Inc) % Modulus
  }

  /** The static state of random and random64, with the number of calls so
      far as a ghost counter. */
  class Lcg {
    var state: int
    ghost var calls: nat

    ghost predicate Valid()
      reads this
    {
      state == StateAfter(calls)
    }

    constructor ()
      ensures Valid() && calls == 0
    {
      state := 1;
      calls := 0;
    }

    /** random: advance the state and return its top 32 bits. */
    method Next() returns (r: int)
      requires Valid()
      modifies this
      ensures Valid() && calls == old(calls) + 1
      ensures 0 <= r < HalfModulus
      ensures r * HalfModulus <= state < (r + 1) * HalfModulus
    {
      state := (state * Mul + Inc) % Modulus;
      calls := calls + 1;
      r := state / HalfModulus;
    }

    /** random64: two outputs of random, the first as the high half. */
    method Next64() returns (r: int)
      requires Valid()
      modifies this
      ensures Valid() && calls == old(calls) + 2
      ensures 0 <= r < Modulus
      ensures r / HalfModulus == StateAfter(calls - 1) / HalfModulus
      ensures r % HalfModulus == StateAfter(calls) / HalfModulus
    {
      var high := Next();
      ghost var first := state;
      var low := Next();
      r := high * HalfModulus + low;
      TopHalf(high, first);
      TopHalf(low, state);
      Halves(high, low);
    }
  }

  /** A value between q and q + 1 multiples of 2^32 has top half q. */
  lemma TopHalf(q: int, s: int)
    requires q * HalfModulus <= s < (q + 1) * HalfModulus
    ensures s / HalfModulus == q
  {
  }

  /** Two 32-bit halves make a 64-bit value that splits back into them. */
  lemma Halves(high: int, low: int)
    requires 0 <= high < HalfModulus && 0 <= low < HalfModulus
    ensures 0 <= high * HalfModulus + low < Modulus
    ensures (high * HalfModulus + low) / HalfModulus == high
    ensures (high * HalfModulus + low) % HalfModulus == low
  {
  }

  /** in_segment: false off the line through a and b; on it, a vertical
      segment is checked on y and any other on x. */
  function OnSegment(a: Point, b: Point, p: Point): bool
  {
    if Cross(a, b, p) != 0 then false else ConvexPoly.InSegment(a, b, p)
  }

  /** For two distinct ends, p is on the segment exactly when it is on the
      line and between the ends on both axes; for equal ends the test only
      compares y. */
  lemma OnSegmentMeaning(a: Point, b: Point, p: Point)
    ensures a != b ==> (OnSegment(a, b, p) <==> Cross(a, b, p) == 0 && InInterval(a.x, b.x, p.x) && InInterval(a.y, b.y, p.y))
    ensures a == b ==> (OnSegment(a, b, p) <==> p.y == a.y)
  {
    if a != b && Cross(a, b, p) == 0 {
      ConvexPoly.InSegmentCollinear(a, b, p);
    }
  }

  /** Both ends of a segment are on it. */
  lemma EndsOnSegment(a: Point, b: Point)
    ensures OnSegment(a, b, a) && OnSegment(a, b, b)
  {
    CrossRepeat(a, b);
  }

  /** The count test for the edge b1 b2 against the segment a1 a2: the ends
      of each fall on different sides (>= 0 against < 0) of the other's line. */
  predicate Crosses(a1: Point, a2: Point, b1: Point, b2: Point)
  {
    && ((Cross(b1, b2, a1) >= 0) != (Cross(b1, b2, a2) >= 0))
    && ((Cross(a1, a2, b1) >= 0) != (Cross(a1, a2, b2) >= 0))
  }

  /** When no end is on the other segment's line, the count test does not
      depend on the direction of the edge, so the orientation of the polygon
      does not matter. */
  lemma CrossesEitherDirection(a1: Point, a2: Point, b1: Point, b2: Point)
    requires Cross(b1, b2, a1) != 0 && Cross(b1, b2, a2) != 0
    requires Cross(a1, a2, b1) != 0 && Cross(a1, a2, b2) != 0
    ensures Crosses(a1, a2, b1, b2) == Crosses(a1, a2, b2, b1)
  {
    CrossSwapFirst(b1, b2, a1);
    CrossSwapFirst(b1, b2, a2);
  }

  /** How one pass of the edge loop ends: on an edge, blocked by a vertex on
      the ray, or with a crossing count. */
  datatype Attempt = OnEdge | Blocked | Counted(crossings: nat)

  /** The edge loop for the ray from p to d, from edge i (s[i - 1] to s[i])
      on, with count crossings found so far. */
  function Scan(s: seq<Point>, p: Point, d: Point, i: nat, count: nat): Attempt
    requires 1 <= i
    decreases |s| - i
  {
    if i >= |s| then Counted(count)
    else if OnSegment(s[i - 1], s[i], p) then OnEdge
    else if OnSegment(p, d, s[i - 1]) || OnSegment(p, d, s[i]) then Blocked
    else Scan(s, p, d, i + 1, if Crosses(p, d, s[i - 1], s[i]) then count + 1 else count)
  }

  /** Edge k neither holds p nor has an end on the ray from p to d. */
  predicate EdgeClear(s: seq<Point>, p: Point, d: Point, k: int)
    requires 1 <= k < |s|
  {
    !OnSegment(s[k - 1], s[k], p) && !OnSegment(p, d, s[k - 1]) && !OnSegment(p, d, s[k])
  }

  /** Every edge is clear of the ray from p to d. */
  predicate Clear(s: seq<Point>, p: Point, d: Point)
  {
    forall k :: 1 <= k < |s| ==> EdgeClear(s, p, d, k)
  }

  /** A vertex of edge k lies on the ray from p to d. */
  predicate RayHits(s: seq<Point>, p: Point, d: Point, k: int)
    requires 1 <= k < |s|
  {
    OnSegment(p, d, s[k - 1]) || OnSegment(p, d, s[k])
  }

  /** The first pass of the edge loop with the ray to d is blocked. */
  predicate BlockedRay(s: seq<Point>, p: Point, d: Point)
  {
    Scan(s, p, d, 1, 0) == Blocked
  }

  /** p lies on some edge of the closed vertex list s. */
  predicate OnSomeEdge(s: seq<Point>, p: Point)
  {
    exists k :: 1 <= k < |s| && OnSegment(s[k - 1], s[k], p)
  }

  /** The number of edges the segment from p to d crosses. */
  function Crossings(s: seq<Point>, p: Point, d: Point): nat
    decreases |s|
  {
    if |s| < 2 then 0
    else Crossings(s[..|s| - 1], p, d) + (if Crosses(p, d, s[|s| - 2], s[|s| - 1]) then 1 else 0)
  }

  /** A pass ends with a count exactly when every remaining edge is clear,
      and the count is then the number of crossings of those edges; it ends
      on an edge only for an edge holding p, and is blocked only by a vertex
      on the ray. */
  lemma {:induction false} ScanOutcome(s: seq<Point>, p: Point, d: Point, i: nat, count: nat)
    requires 1 <= i <= |s|
    ensures Scan(s, p, d, i, count).Counted? <==> forall k :: i <= k < |s| ==> EdgeClear(s, p, d, k)
    ensures Scan(s, p, d, i, count).Counted? ==>
      Scan(s, p, d, i, count).crossings + Crossings(s[..i], p, d) == count + Crossings(s, p, d)
    ensures Scan(s, p, d, i, count) == OnEdge ==> exists k :: i <= k < |s| && OnSegment(s[k - 1], s[k], p)
    ensures Scan(s, p, d, i, count) == Blocked ==> exists k :: i <= k < |s| && RayHits(s, p, d, k)
    decreases |s| - i
  {
    if i == |s| {
      assert s[..i] == s;
    } else if OnSegment(s[i - 1], s[i], p) {
      assert !EdgeClear(s, p, d, i);
    } else if RayHits(s, p, d, i) {
      assert !EdgeClear(s, p, d, i);
    } else {
      var next := if Crosses(p, d, s[i - 1], s[i]) then count + 1 else count;
      ScanOutcome(s, p, d, i + 1, next);
      var prefix := s[..i + 1];
      assert prefix[..i] == s[..i] && prefix[i - 1] == s[i - 1] && prefix[i] == s[i];
      assert Crossings(prefix, p, d) == Crossings(s[..i], p, d) + (next - count);
      assert EdgeClear(s, p, d, i);
    }
  }

  /** The answer of one query, or the exit after too many restarts. */
  datatype Outcome = Printed(position: Position) | TooManyRestarts

  /** The rest of the query loop from edge i of the ray to d, with the
      crossings counted so far, restart_limit at limit and the distant points
      of later restarts drawn from draw(used), draw(used + 1), ...; also
      returns the index of the next draw. */
  function Resume(s: seq<Point>, p: Point, d: Point, i: nat, count: nat, limit: int,
                  draw: nat -> Point, used: nat): (Outcome, nat)
    requires 1 <= i && 1 <= limit
    decreases limit
  {
    match Scan(s, p, d, i, count)
    case OnEdge => (Printed(Boundary), used)
    case Counted(c) => (Printed(if c % 2 == 1 then Inside else Outside), used)
    case Blocked =>
      if limit - 1 <= 0 then (TooManyRestarts, used)
      else Resume(s, p, draw(used), 1, 0, limit - 1, draw, used + 1)
  }

  /** One query on the closed vertex list s with bounding box box: OUTSIDE
      outside the box, else the search starting with the ray to the corner
      just beyond the box and a restart limit of ten per vertex. */
  function Query(s: seq<Point>, box: Box, p: Point, draw: nat -> Point, used: nat): (Outcome, nat)
  {
    if p.x < box.minX || p.x > box.maxX || p.y < box.minY || p.y > box.maxY then (Printed(Outside), used)
    else if |s| == 0 then (Printed(Outside), used)
    else Resume(s, p, Point(box.maxX + 1, box.maxY + 1), 1, 0, 10 * |s|, draw, used)
  }

  /** The verdicts of a search from a fresh ray: BOUNDARY only for a point on
      an edge, and a point on an edge gets BOUNDARY unless the restarts run
      out; INSIDE or OUTSIDE is the parity of the crossings of some ray that
      is clear of every vertex and edge, and the first ray decides when it is
      clear. */
  lemma {:induction false} SearchVerdict(s: seq<Point>, p: Point, d: Point, limit: int, draw: nat -> Point, used: nat)
    requires 1 <= |s| && 1 <= limit
    ensures var o := Resume(s, p, d, 1, 0, limit, draw, used).0;
      && (o == Printed(Boundary) ==> OnSomeEdge(s, p))
      && (OnSomeEdge(s, p) ==> o == Printed(Boundary) || o == TooManyRestarts)
      && (o == Printed(Inside) || o == Printed(Outside) ==>
            exists e :: Clear(s, p, e) && (o == Printed(Inside) <==> Crossings(s, p, e) % 2 == 1))
      && (Clear(s, p, d) ==> o == Printed(if Crossings(s, p, d) % 2 == 1 then Inside else Outside))
    decreases limit
  {
    ScanOutcome(s, p, d, 1, 0);
    assert Crossings(s[..1], p, d) == 0;
    var o := Resume(s, p, d, 1, 0, limit, draw, used).0;
    match Scan(s, p, d, 1, 0)
    case OnEdge =>
    case Counted(c) =>
      assert Clear(s, p, d);
      assert o == Printed(if Crossings(s, p, d) % 2 == 1 then Inside else Outside);
      forall k | 1 <= k < |s|
        ensures !OnSegment(s[k - 1], s[k], p)
      {
        assert EdgeClear(s, p, d, k);
      }
    case Blocked =>
      if limit - 1 > 0 {
        SearchVerdict(s, p, draw(used), limit - 1, draw, used + 1);
      }
      var k :| 1 <= k < |s| && RayHits(s, p, d, k);
      assert !EdgeClear(s, p, d, k);
  }

  /** A search with restart limit limit takes at most limit - 1 draws, and
      exits exactly when the first ray and the next limit - 1 drawn rays are
      all blocked by a vertex. */
  lemma {:induction false} SearchDraws(s: seq<Point>, p: Point, d: Point, limit: int, draw: nat -> Point, used: nat)
    requires 1 <= limit
    ensures used <= Resume(s, p, d, 1, 0, limit, draw, used).1 <= used + limit - 1
    ensures Resume(s, p, d, 1, 0, limit, draw, used).0 == TooManyRestarts <==>
      BlockedRay(s, p, d) && forall j :: used <= j < used + limit - 1 ==> BlockedRay(s, p, draw(j))
    decreases limit
  {
    var r := Resume(s, p, d, 1, 0, limit, draw, used);
    if !BlockedRay(s, p, d) {
      assert r.0 != TooManyRestarts && r.1 == used;
    } else if limit - 1 <= 0 {
      assert r == (TooManyRestarts, used);
    } else {
      var r' := Resume(s, p, draw(used), 1, 0, limit - 1, draw, used + 1);
      assert r == r';
      SearchDraws(s, p, draw(used), limit - 1, draw, used + 1);
      if r.0 == TooManyRestarts {
        forall j | used <= j < used + limit - 1
          ensures BlockedRay(s, p, draw(j))
        {
        }
      } else if BlockedRay(s, p, draw(used)) {
        var j :| used + 1 <= j < used + limit - 1 && !BlockedRay(s, p, draw(j));
      }
    }
  }

  /** One query: OUTSIDE outside the bounding box; a vertex of the polygon
      is BOUNDARY unless the restarts run out; and at most 10 * |s| - 1 draws
      are taken. */
  lemma QueryVerdict(vertices: seq<Point>, box: Box, k: int, draw: nat -> Point, used: nat)
    requires Bounds(box, vertices) && 0 <= k < |vertices|
    ensures var s := vertices + [vertices[0]];
      && Query(s, box, vertices[k], draw, used).0 in {Printed(Boundary), TooManyRestarts}
      && used <= Query(s, box, vertices[k], draw, used).1 <= used + 10 * |s| - 1
  {
    var s := vertices + [vertices[0]];
    var p := vertices[k];
    assert InBox(box, p);
    var d := Point(box.maxX + 1, box.maxY + 1);
    EndsOnSegment(s[k], s[k + 1]);
    assert OnSegment(s[k], s[k + 1], p);
    assert OnSomeEdge(s, p);
    SearchVerdict(s, p, d, 10 * |s|, draw, used);
    SearchDraws(s, p, d, 10 * |s|, draw, used);
  }

  /** The input loop with the closing copy: the n vertices, then vertex 0
      again at index n, and the bounding box of the n vertices. */
  method ReadPolygon(vertices: seq<Point>, poly: array<Point>) returns (n: int, box: Box)
    requires 1 <= |vertices| <= MaxPoints && poly.Length == MaxPoints + 1
    modifies poly
    ensures n == |vertices| + 1 && poly[..n] == vertices + [vertices[0]]
    ensures Bounds(box, vertices)
  {
    var i := 0;
    while i < |vertices|
      invariant 0 <= i <= |vertices|
      invariant poly[..i] == vertices[..i]
    {
      poly[i] := vertices[i];
      i := i + 1;
    }
    assert poly[..|vertices|] == vertices;
    box := BoundingBox(poly, |vertices|);
    poly[|vertices|] := poly[0];
    n := |vertices| + 1;
    assert poly[..n] == poly[..n - 1] + [poly[n - 1]];
  }

  /** The body of the query loop: the box test, then the edge loop with its
      restarts. A restart sets i back so that the next edge examined is edge 1. */
  method LocatePoint(poly: array<Point>, n: int, box: Box, p: Point, draw: nat -> Point, used: nat)
    returns (outcome: Outcome, usedAfter: nat)
    requires 1 <= n <= poly.Length
    ensures (outcome, usedAfter) == Query(poly[..n], box, p, draw, used)
  {
    if p.x < box.minX || p.x > box.maxX || p.y < box.minY || p.y > box.maxY {
      return Printed(Outside), used;
    }
    ghost var s := poly[..n];
    var distant := Point(box.maxX + 1, box.maxY + 1);
    var count := 0;
    var restartLimit := n * 10;
    usedAfter := used;
    var i := 1;
    while i < n
      invariant 1 <= i <= n && 0 <= count && 1 <= restartLimit
      invariant Resume(s, p, distant, i, count, restartLimit, draw, usedAfter) == Query(s, box, p, draw, used)
      decreases restartLimit, n - i
    {
      if OnSegment(poly[i - 1], poly[i], p) {
        count := -1;
        break;
      }
      if OnSegment(p, distant, poly[i - 1]) || OnSegment(p, distant, poly[i]) {
        restartLimit := restartLimit - 1;
        if restartLimit <= 0 {
          return TooManyRestarts, usedAfter;
        }
        distant := draw(usedAfter);
        usedAfter := usedAfter + 1;
        i := 0;
        count := 0;
      } else if Crosses(p, distant, poly[i - 1], poly[i]) {
        count := count + 1;
      }
      i := i + 1;
    }
    if count == -1 {
      outcome := Printed(Boundary);
    } else if count % 2 == 1 {
      outcome := Printed(Inside);
    } else {
      outcome := Printed(Outside);
    }
  }

  /** The printed answers to the queries in order, and whether the program
      exited with 1 (after which no more answers are printed). */
  function Answers(s: seq<Point>, box: Box, queries: seq<Point>, draw: nat -> Point, used: nat): (seq<Position>, bool)
    decreases |queries|
  {
    if queries == [] then ([], false)
    else
      var (o, next) := Query(s, box, queries[0], draw, used);
      match o
      case TooManyRestarts => ([], true)
      case Printed(position) =>
        var (rest, exited) := Answers(s, box, queries[1..], draw, next);
        ([position] + rest, exited)
  }

  /** main: read and close the polygon, then answer the queries in order,
      the random distant points of all queries drawn from one stream. */
  method Run(vertices: seq<Point>, queries: seq<Point>, draw: nat -> Point)
    returns (box: Box, results: seq<Position>, exited: bool)
    requires 1 <= |vertices| <= MaxPoints
    ensures Bounds(box, vertices)
    ensures (results, exited) == Answers(vertices + [vertices[0]], box, queries, draw, 0)
  {
    var poly := new Point[MaxPoints + 1];
    var n;
    n, box := ReadPolygon(vertices, poly);
    results, exited := AnswerQueries(poly, n, box, queries, draw);
  }

  /** The query loop of main: one answer per query until the restarts of
      some query run out. */
  method AnswerQueries(poly: array<Point>, n: int, box: Box, queries: seq<Point>, draw: nat -> Point)
    returns (results: seq<Position>, exited: bool)
    requires 1 <= n <= poly.Length
    ensures (results, exited) == Answers(poly[..n], box, queries, draw, 0)
  {
    ghost var s := poly[..n];
    results, exited := [], false;
    var used := 0;
    var j := 0;
    while j < |queries|
      invariant 0 <= j <= |queries| && !exited
      invariant Answers(s, box, queries, draw, 0).0 == results + Answers(s, box, queries[j..], draw, used).0
      invariant Answers(s, box, queries, draw, 0).1 == Answers(s, box, queries[j..], draw, used).1
    {
      var outcome, next := LocatePoint(poly, n, box, queries[j], draw, used);
      assert queries[j..][0] == queries[j] && queries[j..][1..] == queries[j + 1..];
      ghost var rest := Answers(s, box, queries[j + 1..], draw, next);
      if outcome.TooManyRestarts? {
        assert Answers(s, box, queries[j..], draw, used) == ([], true);
        exited := true;
        break;
      }
      assert Answers(s, box, queries[j..], draw, used) == ([outcome.position] + rest.0, rest.1);
      assert results + ([outcome.position] + rest.0) == (results + [outcome.position]) + rest.0;
      results := results + [outcome.position];
      used := next;
      j := j + 1;
    }
    if !exited {
      assert queries[|queries|..] == [];
    }
    ghost var all := Answers(s, box, queries, draw, 0);
    assert all.0 == results && all.1 == exited;
    assert all == (all.0, all.1);
  }
}
