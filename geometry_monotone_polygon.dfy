/** The monotonicity test of geometry/monotone_polygon.c: starting at the
    first vertex with the greatest coordinate, the boundary is walked once
    around; the polygon is monotone along the axis unless the coordinate
    falls somewhere after it has risen. is_x_monotone and is_y_monotone are
    the same walk on the two axes. */
module MonotonePolygon {
  import opened Plane

  const MaxPoints: int := 1000000

  datatype Axis = X | Y

  function Coord(p: Point, axis: Axis): int
  {
    match axis
    case X => p.x
    case Y => p.y
  }

  /** The coordinates of the vertices along one axis. */
  function Coords(s: seq<Point>, axis: Axis): (c: seq<int>)
    ensures |c| == |s| && forall i :: 0 <= i < |s| ==> c[i] == Coord(s[i], axis)
  {
    seq(|s|, i requires 0 <= i < |s| => Coord(s[i], axis))
  }

  /** h is the first index holding the greatest value of c. */
  predicate FirstHighest(c: seq<int>, h: int)
  {
    && 0 <= h < |c|
    && (forall i :: 0 <= i < |c| ==> c[i] <= c[h])
    && (forall i :: 0 <= i < h ==> c[i] < c[h])
  }

  /** The index the first loop finds: a later value replaces the current
      one only when strictly greater. */
  function FirstHighestIndex(c: seq<int>): (h: int)
    requires |c| >= 1
    ensures FirstHighest(c, h)
  {
    if |c| == 1 then 0
    else
      var h := FirstHighestIndex(c[..|c| - 1]);
      if c[|c| - 1] > c[h] then |c| - 1 else h
  }

  /** The first index of the greatest value is unique. */
  lemma FirstHighestUnique(c: seq<int>, h: int, g: int)
    requires FirstHighest(c, h) && FirstHighest(c, g)
    ensures h == g
  {
    assert c[h] == c[g];
  }

  /** The coordinates met walking once around from index h, back to h. */
  function Walk(c: seq<int>, h: int): (w: seq<int>)
    requires 0 <= h < |c|
    ensures |w| == |c| + 1 && w[0] == c[h] && w[|c|] == c[h]
    ensures forall k :: 0 <= k < |c| ==> w[k] == c[if h + k < |c| then h + k else h + k - |c|]
  {
    c[h..] + c[..h] + [c[h]]
  }

  /** Step i of the walk goes up. */
  predicate Rises(w: seq<int>, i: int)
    requires 0 <= i < |w| - 1
  {
    w[i] < w[i + 1]
  }

  /** Step i of the walk goes down. */
  predicate Falls(w: seq<int>, i: int)
    requires 0 <= i < |w| - 1
  {
    w[i + 1] < w[i]
  }

  /** One of the first k steps goes up: the ascending flag. */
  predicate RiseBefore(w: seq<int>, k: int)
  {
    exists i :: 0 <= i < k && i < |w| - 1 && Rises(w, i)
  }

  /** Among the first k steps one goes down after an earlier one went up. */
  predicate FallAfterRise(w: seq<int>, k: int)
  {
    exists i, j :: 0 <= i < j < k && j < |w| - 1 && Rises(w, i) && Falls(w, j)
  }

  /** Taking one more step into account. */
  lemma RiseBeforeStep(w: seq<int>, k: int)
    requires 0 <= k < |w| - 1
    ensures RiseBefore(w, k + 1) <==> RiseBefore(w, k) || Rises(w, k)
  {
  }

  /** Taking one more step into account: it completes a fall after a rise
      when it goes down and some earlier step went up. */
  lemma FallAfterRiseStep(w: seq<int>, k: int)
    requires 0 <= k < |w| - 1
    ensures FallAfterRise(w, k + 1) <==> FallAfterRise(w, k) || (RiseBefore(w, k) && Falls(w, k))
  {
    if RiseBefore(w, k) && Falls(w, k) {
      var i :| 0 <= i < k && i < |w| - 1 && Rises(w, i);
      assert Rises(w, i) && Falls(w, k);
    }
  }

  /** The walk never goes down once it has gone up. */
  predicate NoFallAfterRise(w: seq<int>)
  {
    !FallAfterRise(w, |w| - 1)
  }

  /** The walk goes down (or stays) to some turning point m and up (or
      stays) from there on. */
  predicate Valley(w: seq<int>)
  {
    exists m :: 0 <= m < |w| && DownTo(w, m) && UpFrom(w, m)
  }

  predicate DownTo(w: seq<int>, m: int)
  {
    forall i :: 0 <= i < m && i < |w| - 1 ==> !Rises(w, i)
  }

  predicate UpFrom(w: seq<int>, m: int)
  {
    forall j :: m <= j < |w| - 1 && 0 <= j ==> !Falls(w, j)
  }

  /** The test the source makes is the valley shape: no fall after a rise
      exactly when the walk first only descends and then only ascends. */
  lemma NoFallAfterRiseIsValley(w: seq<int>)
    requires |w| >= 1
    ensures NoFallAfterRise(w) <==> Valley(w)
  {
    if NoFallAfterRise(w) {
      var m := FirstRise(w);
      forall j | m <= j < |w| - 1 && 0 <= j ensures !Falls(w, j) {
        if j > m {
          assert Rises(w, m);
        }
      }
      assert DownTo(w, m) && UpFrom(w, m);
    }
    if Valley(w) {
      var m :| 0 <= m < |w| && DownTo(w, m) && UpFrom(w, m);
      forall i, j | 0 <= i < j < |w| - 1 && Rises(w, i) ensures !Falls(w, j) {
        assert i >= m;
      }
    }
  }

  /** The first step that goes up, or the last index when none does. */
  function FirstRise(w: seq<int>): (m: int)
    requires |w| >= 1
    ensures 0 <= m < |w| && DownTo(w, m)
    ensures m < |w| - 1 ==> Rises(w, m)
  {
    FirstRiseFrom(w, 0)
  }

  function FirstRiseFrom(w: seq<int>, i: int): (m: int)
    requires 0 <= i < |w| && DownTo(w, i)
    ensures i <= m < |w| && DownTo(w, m)
    ensures m < |w| - 1 ==> Rises(w, m)
    decreases |w| - i
  {
    if i == |w| - 1 || Rises(w, i) then i else FirstRiseFrom(w, i + 1)
  }

  /** A polygon whose coordinate never changes along the axis is monotone. */
  lemma ConstantIsMonotone(c: seq<int>, h: int)
    requires 0 <= h < |c|
    requires forall i :: 0 <= i < |c| ==> c[i] == c[0]
    ensures NoFallAfterRise(Walk(c, h))
  {
    var w := Walk(c, h);
    forall i | 0 <= i < |w| - 1 ensures !Rises(w, i) {
      assert w[i + 1] == c[0];
    }
  }

  /** Step number steps of the walk from h, taken at index current: it goes
      from c[current] to c[(current + 1) % |c|], and that index is h again
      exactly after the last step. */
  lemma WalkStep(c: seq<int>, h: int, steps: int, current: int)
    requires 0 <= h < |c| && 0 <= steps < |c|
    requires current == if h + steps < |c| then h + steps else h + steps - |c|
    ensures (current + 1) % |c| == if h + steps + 1 < |c| then h + steps + 1 else h + steps + 1 - |c|
    ensures Walk(c, h)[steps] == c[current] && Walk(c, h)[steps + 1] == c[(current + 1) % |c|]
    ensures (current + 1) % |c| == h <==> steps + 1 == |c|
  {
    if current + 1 == |c| {
      assert (current + 1) % |c| == 0;
    } else {
      assert (current + 1) % |c| == current + 1;
    }
  }

  /** The first loop: the first vertex with the greatest coordinate. */
  method Highest(polygon: array<Point>, len: int, axis: Axis) returns (highest: int)
    requires 1 <= len <= polygon.Length
    ensures highest == FirstHighestIndex(Coords(polygon[..len], axis))
  {
    ghost var c := Coords(polygon[..len], axis);
    highest := 0;
    var highestCoord := Coord(polygon[0], axis);
    var i := 1;
    assert c[..1] == [c[0]];
    while i < len
      invariant 1 <= i <= len
      invariant highest == FirstHighestIndex(c[..i]) && highestCoord == c[highest]
    {
      assert c[..i + 1][..i] == c[..i];
      if Coord(polygon[i], axis) > highestCoord {
        highestCoord := Coord(polygon[i], axis);
        highest := i;
      }
      i := i + 1;
    }
    assert c[..len] == c;
  }

  /** is_x_monotone (axis X) and is_y_monotone (axis Y): the walk from the
      first highest vertex, with the ascending flag set by the first rise
      and a fall after it answering false. It stops on coming back to the
      highest vertex, after exactly len steps when it answers true. */
  method IsMonotone(polygon: array<Point>, len: int, axis: Axis) returns (monotone: bool, ghost steps: int)
    requires 1 <= len <= polygon.Length
    ensures 1 <= steps <= len && (monotone ==> steps == len)
    ensures monotone == NoFallAfterRise(Walk(Coords(polygon[..len], axis), FirstHighestIndex(Coords(polygon[..len], axis))))
  {
    ghost var c := Coords(polygon[..len], axis);
    var highest := Highest(polygon, len, axis);
    ghost var w := Walk(c, highest);
    var ascending := false;
    var current := highest;
    steps := 0;
    while true
      invariant 0 <= steps < len && 0 <= current < len
      invariant current == (if highest + steps < len then highest + steps else highest + steps - len)
      invariant ascending <==> RiseBefore(w, steps)
      invariant !FallAfterRise(w, steps)
      decreases len - steps
    {
      var previous := Coord(polygon[current], axis);
      WalkStep(c, highest, steps, current);
      current := (current + 1) % len;
      var next := Coord(polygon[current], axis);
      RiseBeforeStep(w, steps);
      FallAfterRiseStep(w, steps);
      if ascending && next < previous {
        assert Falls(w, steps);
        monotone, steps := false, steps + 1;
        return;
      }
      if next > previous {
        ascending := true;
      }
      steps := steps + 1;
      if current == highest {
        monotone := true;
        return;
      }
    }
  }

  /** main: both answers for the polygon read, x first. */
  method Run(points: seq<Point>) returns (xMonotone: bool, yMonotone: bool)
    requires 1 <= |points| <= MaxPoints
    ensures xMonotone == NoFallAfterRise(Walk(Coords(points, X), FirstHighestIndex(Coords(points, X))))
    ensures yMonotone == NoFallAfterRise(Walk(Coords(points, Y), FirstHighestIndex(Coords(points, Y))))
  {
    var polygon := new Point[|points|](i requires 0 <= i < |points| => points[i]);
    assert polygon[..|points|] == points;
    ghost var steps;
    xMonotone, steps := IsMonotone(polygon, |points|, X);
    yMonotone, steps := IsMonotone(polygon, |points|, Y);
  }
}
