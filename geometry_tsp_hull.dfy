/** The convex-hull start of the travelling-salesman heuristic
    (geometry/tsp_convex_hull.c): the points are sorted by angle around the
    leftmost-lowest point, a stack keeps the points that make no right turn,
    and the points on it are marked as added to the tour. */
module TspHull {
  import opened Plane
  import opened Util

  const MaxPoints: int := 1000

  /** pow2. */
  function Square(x: int): (r: int)
    ensures r >= 0 && (r == 0 <==> x == 0)
  {
    x * x
  }

  /** squared_distance: zero exactly between equal points. */
  function SquaredDistance(a: Point, b: Point): (r: int)
    ensures r >= 0 && (r == 0 <==> a == b)
  {
    Square(a.x - b.x) + Square(a.y - b.y)
  }

  lemma SquaredDistanceSymmetric(a: Point, b: Point)
    ensures SquaredDistance(a, b) == SquaredDistance(b, a)
  {
    assert Square(a.x - b.x) == Square(b.x - a.x) && Square(a.y - b.y) == Square(b.y - a.y);
  }

  /** p is the leftmost of the points of s, and the lowest among the leftmost. */
  predicate LeftmostLowestOf(p: Point, s: seq<Point>)
  {
    forall k :: 0 <= k < |s| ==> p.x < s[k].x || (p.x == s[k].x && p.y <= s[k].y)
  }

  /** leftmost_lowest: starts from the first point, so with no points at all
      it returns the unused first slot. */
  method LeftmostLowest(polygon: array<Point>, len: int) returns (lowest: Point)
    requires 1 <= polygon.Length && len <= polygon.Length
    ensures len <= 1 ==> lowest == polygon[0]
    ensures 1 <= len ==> lowest in polygon[..len] && LeftmostLowestOf(lowest, polygon[..len])
  {
    lowest := polygon[0];
    var i := 1;
    while i < len
      invariant 1 <= i <= (if len < 1 then 1 else len)
      invariant lowest in polygon[..i] && LeftmostLowestOf(lowest, polygon[..i])
    {
      assert polygon[..i + 1] == polygon[..i] + [polygon[i]];
      if polygon[i].x < lowest.x {
        lowest := polygon[i];
      } else if polygon[i].x == lowest.x && polygon[i].y < lowest.y {
        lowest := polygon[i];
      }
      i := i + 1;
    }
  }

  /** comparator: a point that turns left from a (seen from lowest) comes
      after a; collinear points come nearest first. It never answers 0, not
      even for equal points. */
  function Comparator(lowest: Point, a: Point, b: Point): (r: int)
    ensures r == -1 || r == 1
    ensures r == -1 <==>
      Cross(lowest, a, b) > 0 || (Cross(lowest, a, b) == 0 && SquaredDistance(lowest, a) < SquaredDistance(lowest, b))
  {
    var o := Cross(lowest, a, b);
    if o == 0 then (if SquaredDistance(lowest, a) < SquaredDistance(lowest, b) then -1 else 1)
    else if o > 0 then -1 else 1
  }

  /** The pivot itself sorts before every other point. */
  lemma LowestFirst(lowest: Point, a: Point)
    requires a != lowest
    ensures Comparator(lowest, lowest, a) == -1 && Comparator(lowest, a, lowest) == 1
  {
    CrossRepeat(lowest, a);
    SquaredDistanceSymmetric(lowest, a);
  }

  /** Two points on different rays from the pivot compare in opposite ways
      whichever is passed first. */
  lemma ComparatorFlips(lowest: Point, a: Point, b: Point)
    requires Cross(lowest, a, b) != 0
    ensures Comparator(lowest, a, b) == -Comparator(lowest, b, a)
  {
    CrossSwap(lowest, a, b);
  }

  /** The order qsort is asked for: a before b when the comparator is negative. */
  function PrecedesFrom(lowest: Point): (Point, Point) -> bool
  {
    (a: Point, b: Point) => Comparator(lowest, a, b) < 0
  }

  /** The stack h over the sorted points pts, after the first x of them:
      indices of read points in increasing order, with no right turn at
      any three consecutive entries. */
  predicate Stack(pts: seq<Point>, h: seq<int>, x: int)
  {
    && x <= |pts|
    && (forall i, j :: 0 <= i < j < |h| ==> h[i] < h[j])
    && (forall i :: 0 <= i < |h| ==> 0 <= h[i] < x)
    && (forall i :: 2 <= i < |h| ==> NoRightTurnAt(pts, h, i))
  }

  /** The entries i - 2, i - 1 and i of the stack make no right turn. */
  predicate NoRightTurnAt(pts: seq<Point>, h: seq<int>, i: int)
    requires 2 <= i < |h| && forall k :: 0 <= k < |h| ==> 0 <= h[k] < |pts|
  {
    Cross(pts[h[i - 2]], pts[h[i - 1]], pts[h[i]]) >= 0
  }

  /** The finished stack over all the sorted points: it starts with the
      first (the pivot) and ends with the last. */
  predicate Hull(pts: seq<Point>, h: seq<int>)
  {
    && |h| <= |pts| && Stack(pts, h, |pts|)
    && (|pts| >= 1 ==> 1 <= |h| && h[0] == 0 && h[|h| - 1] == |pts| - 1)
  }

  /** Popping keeps a stack a stack. */
  lemma StackPop(pts: seq<Point>, h: seq<int>, x: int)
    requires Stack(pts, h, x) && h != []
    ensures Stack(pts, h[..|h| - 1], x)
  {
    var g := h[..|h| - 1];
    forall i | 2 <= i < |g| ensures NoRightTurnAt(pts, g, i) {
      assert NoRightTurnAt(pts, h, i);
    }
  }

  /** Pushing the next point keeps a stack a stack when it makes no right turn. */
  lemma StackPush(pts: seq<Point>, h: seq<int>, x: int)
    requires Stack(pts, h, x) && 0 <= x < |pts|
    requires |h| >= 2 ==> Cross(pts[h[|h| - 2]], pts[h[|h| - 1]], pts[x]) >= 0
    ensures Stack(pts, h + [x], x + 1)
  {
    var g := h + [x];
    forall i, j | 0 <= i < j < |g| ensures g[i] < g[j] {
      if j < |h| {
        assert g[i] == h[i] && g[j] == h[j];
      }
    }
    forall i | 0 <= i < |g| ensures 0 <= g[i] < x + 1 {
      if i < |h| {
        assert g[i] == h[i];
      }
    }
    forall i | 2 <= i < |g| ensures NoRightTurnAt(pts, g, i) {
      if i < |h| {
        assert NoRightTurnAt(pts, h, i);
        assert g[i - 2] == h[i - 2] && g[i - 1] == h[i - 1] && g[i] == h[i];
      }
    }
  }

  /** The stack loop of convex_hull over the sorted points: each point is
      pushed after popping the entries that would make a right turn with it.
      The first and the last point always stay. */
  method BuildStack(polygon: array<Point>, len: int, hull: array<int>) returns (hullLen: int)
    requires 0 <= len <= polygon.Length && len <= hull.Length
    modifies hull
    ensures 0 <= hullLen <= len && Hull(polygon[..len], hull[..hullLen])
  {
    ghost var pts := polygon[..len];
    hullLen := 0;
    var x := 0;
    while x < len
      invariant 0 <= x <= len && 0 <= hullLen <= x
      invariant Stack(pts, hull[..hullLen], x)
      invariant x >= 1 ==> 1 <= hullLen && hull[0] == 0 && hull[hullLen - 1] == x - 1
    {
      hullLen := PopRightTurns(polygon, len, hull, hullLen, x);
      ghost var kept := hull[..hullLen];
      StackPush(pts, kept, x);
      hull[hullLen] := x;
      assert hull[..hullLen + 1] == kept + [x];
      hullLen := hullLen + 1;
      x := x + 1;
    }
  }

  /** The inner while loop of convex_hull: pops while the top two entries
      and point x turn right. It leaves a stack whose top two make no right
      turn with x, and never pops the bottom entry. */
  method PopRightTurns(polygon: array<Point>, len: int, hull: array<int>, hullLen: int, x: int) returns (newLen: int)
    requires 0 <= x < len <= polygon.Length && 0 <= hullLen <= x && x <= hull.Length
    requires Stack(polygon[..len], hull[..hullLen], x)
    requires x >= 1 ==> 1 <= hullLen
    ensures 0 <= newLen <= hullLen && (x >= 1 ==> 1 <= newLen)
    ensures Stack(polygon[..len], hull[..newLen], x)
    ensures newLen >= 2 ==> Cross(polygon[hull[newLen - 2]], polygon[hull[newLen - 1]], polygon[x]) >= 0
  {
    ghost var pts := polygon[..len];
    newLen := hullLen;
    assert forall k :: 0 <= k < newLen ==> hull[k] == hull[..hullLen][k];
    while newLen >= 2 && Cross(polygon[hull[newLen - 2]], polygon[hull[newLen - 1]], polygon[x]) < 0
      invariant 0 <= newLen <= hullLen && (x >= 1 ==> 1 <= newLen)
      invariant Stack(pts, hull[..newLen], x)
      invariant forall k :: 0 <= k < newLen ==> 0 <= hull[k] < x
    {
      StackPop(pts, hull[..newLen], x);
      assert hull[..newLen][..newLen - 1] == hull[..newLen - 1];
      newLen := newLen - 1;
    }
  }

  /** The marking loop of convex_hull: exactly the entries the hull names
      become true, the others keep their value. */
  method MarkAdded(hull: array<int>, hullLen: int, added: array<bool>)
    requires 0 <= hullLen <= hull.Length
    requires forall i :: 0 <= i < hullLen ==> 0 <= hull[i] < added.Length
    modifies added
    ensures forall i :: 0 <= i < added.Length ==> added[i] == (old(added[i]) || i in hull[..hullLen])
  {
    var x := 0;
    while x < hullLen
      invariant 0 <= x <= hullLen
      invariant forall i :: 0 <= i < added.Length ==> added[i] == (old(added[i]) || i in hull[..x])
    {
      assert hull[..x + 1] == hull[..x] + [hull[x]];
      added[hull[x]] := true;
      x := x + 1;
    }
  }

  /** convex_hull: finds the pivot (the global lowest), sorts the points
      around it, builds the stack and marks its points as added. */
  method ConvexHull(polygon: array<Point>, hull: array<int>, added: array<bool>, len: int) returns (hullLen: int, lowest: Point)
    requires 1 <= polygon.Length && 0 <= len <= polygon.Length && len <= hull.Length && len <= added.Length
    modifies polygon, hull, added
    ensures 1 <= len ==> lowest in old(polygon[..len]) && LeftmostLowestOf(lowest, old(polygon[..len]))
    ensures polygon[..len] == InsertionSort(old(polygon[..len]), PrecedesFrom(lowest))
    ensures 0 <= hullLen <= len && Hull(polygon[..len], hull[..hullLen])
    ensures forall i :: 0 <= i < added.Length ==> added[i] == (old(added[i]) || i in hull[..hullLen])
  {
    lowest := SortAroundLowest(polygon, len);
    ghost var sorted := polygon[..len];
    hullLen := BuildStack(polygon, len, hull);
    ghost var h := hull[..hullLen];
    assert polygon[..len] == sorted;
    forall i | 0 <= i < hullLen ensures 0 <= hull[i] < added.Length {
      assert h[i] == hull[i];
    }
    MarkAdded(hull, hullLen, added);
    assert polygon[..len] == sorted && hull[..hullLen] == h;
  }

  /** The first half of convex_hull: the pivot, then qsort around it. */
  method SortAroundLowest(polygon: array<Point>, len: int) returns (lowest: Point)
    requires 1 <= polygon.Length && 0 <= len <= polygon.Length
    modifies polygon
    ensures 1 <= len ==> lowest in old(polygon[..len]) && LeftmostLowestOf(lowest, old(polygon[..len]))
    ensures polygon[..len] == InsertionSort(old(polygon[..len]), PrecedesFrom(lowest))
  {
    lowest := LeftmostLowest(polygon, len);
    SortPrefix(polygon, len, PrecedesFrom(lowest));
  }
}
