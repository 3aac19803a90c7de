/** Counting the turns of a closed polygon (geometry/roby.c): a window of
    three consecutive vertices slides along the polygon, the last window
    wrapping back to the first vertex, and each window is counted as a left
    turn, a right turn or a touch. */
module Roby {
  import opened Plane
  import opened Orientation

  const I32Min: int := -0x8000_0000
  const I32Max: int := 0x7fff_ffff

  predicate FitsI32(v: int)
  {
    I32Min <= v <= I32Max
  }

  /** Every intermediate value of the 32-bit determinant of one window
      stays in range (the program computes it in i32). */
  predicate WindowFits(w: (Point, Point, Point))
  {
    var (a, b, c) := w;
    && FitsI32(b.x - a.x) && FitsI32(c.y - a.y) && FitsI32(c.x - a.x) && FitsI32(b.y - a.y)
    && FitsI32((b.x - a.x) * (c.y - a.y)) && FitsI32((c.x - a.x) * (b.y - a.y))
    && FitsI32(Cross(a, b, c))
  }

  /** No window overflows the 32-bit arithmetic. */
  predicate AllWindowsFit(points: seq<Point>, n: int)
    requires n >= 2 && |points| == n
  {
    forall x :: 2 <= x <= n ==> WindowFits(Window(points, n, x))
  }

  /** The three vertices of the window for loop counter x. */
  function Window(points: seq<Point>, n: int, x: int): (Point, Point, Point)
    requires 2 <= x <= n == |points|
  {
    (points[x - 2], points[x - 1], Closing(points, n, x))
  }

  /** The vertex the window for loop counter x ends with: the x-th input
      point, or the first one again when x == n. */
  function Closing(points: seq<Point>, n: int, x: int): Point
    requires 2 <= x <= n == |points|
  {
    if x < n then points[x] else points[0]
  }

  /** The turns of the windows for x = 2..n, in order. */
  function Turns(points: seq<Point>, n: int): (r: seq<Turn>)
    requires n >= 2 && |points| == n
    ensures |r| == n - 1
  {
    seq(n - 1, k requires 0 <= k < n - 1 => Classify(points[k], points[k + 1], Closing(points, n, k + 2)))
  }

  /** How often t occurs in s. */
  function CountOf(s: seq<Turn>, t: Turn): nat
  {
    if s == [] then 0 else CountOf(s[..|s| - 1], t) + (if s[|s| - 1] == t then 1 else 0)
  }

  /** Every window is exactly one of the three kinds. */
  lemma {:induction false} CountsPartition(s: seq<Turn>)
    ensures CountOf(s, Left) + CountOf(s, Right) + CountOf(s, Touch) == |s|
  {
    if s != [] {
      CountsPartition(s[..|s| - 1]);
    }
  }

  /** main with the input points given as a list: n, then the points (two are
      read even when n < 2). */
  method CountTurns(n: int, points: seq<Point>) returns (left: int, right: int, touch: int)
    requires |points| == (if n < 2 then 2 else n)
    requires n >= 2 ==> AllWindowsFit(points, n)
    ensures n < 2 ==> left == right == touch == 0
    ensures n >= 2 ==>
      && left == CountOf(Turns(points, n), Left)
      && right == CountOf(Turns(points, n), Right)
      && touch == CountOf(Turns(points, n), Touch)
    ensures left + right + touch == Max(n - 1, 0)
  {
    left, right, touch := 0, 0, 0;
    if n < 2 {
      return;
    }
    ghost var turns := Turns(points, n);
    var prev2, prev1 := points[0], points[1];
    var first := prev2;
    var x := 2;
    while x <= n
      invariant 2 <= x <= n + 1
      invariant x <= n ==> prev2 == points[x - 2] && prev1 == points[x - 1]
      invariant left == CountOf(turns[..x - 2], Left)
      invariant right == CountOf(turns[..x - 2], Right)
      invariant touch == CountOf(turns[..x - 2], Touch)
    {
      var current;
      if x < n {
        current := points[x];
      } else {
        current := first;
      }
      var det := Cross(prev2, prev1, current);
      assert turns[x - 2] == Classify(prev2, prev1, current);
      assert turns[..x - 1] == turns[..x - 2] + [turns[x - 2]];
      if det == 0 {
        touch := touch + 1;
      } else if det > 0 {
        left := left + 1;
      } else {
        right := right + 1;
      }
      prev2 := prev1;
      prev1 := current;
      x := x + 1;
    }
    assert turns[..n - 1] == turns;
    CountsPartition(turns);
  }
}
