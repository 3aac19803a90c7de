/** The hull scan of geometry/cover.c: the input is rotated so that its
    lowest (then leftmost) point comes first, a stack kept in place at the
    front of the array drops every point that does not make a strict left
    turn, and a closing pass drops the tail points that do not turn left
    towards the first point. */
module Cover {
  import opened Plane

  const MaxPoints: int := 100000

  /** Point lb is the lowest of s, the leftmost among the lowest, and no
      earlier point is as good. */
  predicate LeftmostBottomAt(s: seq<Point>, lb: int)
  {
    && 0 <= lb < |s|
    && (forall i :: 0 <= i < |s| ==> s[lb].y < s[i].y || (s[lb].y == s[i].y && s[lb].x <= s[i].x))
    && (forall i :: 0 <= i < lb ==> s[lb].y < s[i].y || (s[lb].y == s[i].y && s[lb].x < s[i].x))
  }

  /** The first loop of main: the earliest index of the lowest, then
      leftmost, point; 0 when there are no points. */
  method LeftmostBottom(tmp: array<Point>, n: int) returns (lb: int)
    requires 0 <= n <= tmp.Length
    ensures n == 0 ==> lb == 0
    ensures n >= 1 ==> LeftmostBottomAt(tmp[..n], lb)
  {
    lb := 0;
    var i := 1;
    while i < n
      invariant 1 <= i && (n >= 1 ==> i <= n) && (n == 0 ==> lb == 0)
      invariant n >= 1 ==> LeftmostBottomAt(tmp[..i], lb)
    {
      assert tmp[..i + 1] == tmp[..i] + [tmp[i]];
      if tmp[i].y < tmp[lb].y || (tmp[i].y == tmp[lb].y && tmp[i].x < tmp[lb].x) {
        lb := i;
      }
      i := i + 1;
    }
    if n >= 1 {
      assert tmp[..i] == tmp[..n];
    }
  }

  function Rotation(s: seq<Point>, lb: int): seq<Point>
    requires 0 <= lb <= |s|
  {
    s[lb..] + s[..lb]
  }

  /** The rotation is a permutation that starts with the chosen point. */
  lemma RotationPermutes(s: seq<Point>, lb: int)
    requires 0 <= lb < |s|
    ensures multiset(Rotation(s, lb)) == multiset(s)
    ensures |Rotation(s, lb)| == |s| && Rotation(s, lb)[0] == s[lb]
  {
    assert s == s[..lb] + s[lb..];
  }

  /** The two memcpy calls: points starts with tmp from lb on, followed by
      the points before lb. */
  method Rotate(tmp: array<Point>, points: array<Point>, n: int, lb: int)
    requires 0 <= lb <= n <= tmp.Length && n <= points.Length && tmp != points
    modifies points
    ensures points[..n] == Rotation(tmp[..n], lb)
    ensures points[n..] == old(points[n..])
  {
    var k := 0;
    while k < n - lb
      invariant 0 <= k <= n - lb
      invariant points[..k] == tmp[lb..lb + k]
      invariant points[n..] == old(points[n..])
    {
      points[k] := tmp[lb + k];
      assert points[..k + 1] == points[..k] + [points[k]];
      k := k + 1;
    }
    k := 0;
    while k < lb
      invariant 0 <= k <= lb
      invariant points[..n - lb] == tmp[lb..n]
      invariant points[n - lb..n - lb + k] == tmp[..k]
      invariant points[n..] == old(points[n..])
    {
      points[n - lb + k] := tmp[k];
      assert points[n - lb..n - lb + k + 1] == points[n - lb..n - lb + k] + [points[n - lb + k]];
      k := k + 1;
    }
    assert points[..n] == points[..n - lb] + points[n - lb..n];
  }

  /** The entries k - 2, k - 1 and k turn strictly left. */
  predicate LeftTurnAt(s: seq<Point>, k: int)
    requires 2 <= k < |s|
  {
    Cross(s[k - 2], s[k - 1], s[k]) > 0
  }

  /** Every three consecutive points of s turn strictly left. */
  predicate LeftTurns(s: seq<Point>)
  {
    forall k :: 2 <= k < |s| ==> LeftTurnAt(s, k)
  }

  /** s is the subsequence of r at the increasing positions kept, the
      first of which is 0. */
  predicate Kept(r: seq<Point>, s: seq<Point>, kept: seq<int>)
  {
    && |kept| == |s| >= 1 && kept[0] == 0
    && (forall i, j :: 0 <= i < j < |kept| ==> kept[i] < kept[j])
    && (forall i :: 0 <= i < |kept| ==> 0 <= kept[i] < |r| && s[i] == r[kept[i]])
  }

  lemma KeptPrefix(r: seq<Point>, s: seq<Point>, kept: seq<int>, m: int)
    requires Kept(r, s, kept) && 1 <= m <= |s|
    ensures Kept(r, s[..m], kept[..m])
  {
  }

  /** Pushing the point at a later position of r extends the subsequence. */
  lemma KeptPush(r: seq<Point>, s: seq<Point>, kept: seq<int>, next: int)
    requires Kept(r, s, kept) && 0 <= next < |r|
    requires forall i :: 0 <= i < |kept| ==> kept[i] < next
    ensures Kept(r, s + [r[next]], kept + [next])
    ensures forall i :: 0 <= i < |kept| + 1 ==> (kept + [next])[i] < next + 1
  {
    var t, k := s + [r[next]], kept + [next];
    forall i, j | 0 <= i < j < |k| ensures k[i] < k[j] {
      if j < |kept| {
        assert k[i] == kept[i] && k[j] == kept[j];
      }
    }
    forall i | 0 <= i < |k| ensures 0 <= k[i] < |r| && t[i] == r[k[i]] {
      if i < |kept| {
        assert k[i] == kept[i] && t[i] == s[i];
      }
    }
  }

  lemma LeftTurnsPrefix(s: seq<Point>, m: int)
    requires LeftTurns(s) && 0 <= m <= |s|
    ensures LeftTurns(s[..m])
  {
    forall k | 2 <= k < m ensures LeftTurnAt(s[..m], k) {
      assert LeftTurnAt(s, k);
    }
  }

  /** Pushing a point that turns strictly left from the top two keeps the
      turns left. */
  lemma LeftTurnsPush(s: seq<Point>, p: Point)
    requires LeftTurns(s)
    requires |s| >= 2 ==> Cross(s[|s| - 2], s[|s| - 1], p) > 0
    ensures LeftTurns(s + [p])
  {
    var t := s + [p];
    forall k | 2 <= k < |t| ensures LeftTurnAt(t, k) {
      if k < |s| {
        assert LeftTurnAt(s, k);
      }
    }
  }

  /** The inner while loop of the scan: pops while the top two points and
      points[next] do not turn strictly left; only points[0] is never
      popped. */
  method PopNonLeft(points: array<Point>, sp: int, next: int) returns (newSp: int)
    requires 0 <= sp < next < points.Length
    requires LeftTurns(points[..sp + 1])
    ensures 0 <= newSp <= sp && LeftTurns(points[..newSp + 1])
    ensures newSp == 0 || Cross(points[newSp - 1], points[newSp], points[next]) > 0
  {
    newSp := sp;
    while newSp != 0 && Cross(points[newSp - 1], points[newSp], points[next]) <= 0
      invariant 0 <= newSp <= sp && LeftTurns(points[..newSp + 1])
    {
      LeftTurnsPrefix(points[..newSp + 1], newSp);
      assert points[..newSp + 1][..newSp] == points[..newSp];
      newSp := newSp - 1;
    }
  }

  /** The state of the scan before reading points[next]: the stack
      points[0 .. sp] lies below next, is a subsequence of r at the
      positions kept and turns strictly left, and the unread points are
      those of r. */
  predicate Scanning(p: seq<Point>, n: int, r: seq<Point>, sp: int, next: int, kept: seq<int>)
  {
    && 2 <= next <= n <= |p| && |r| == n && 0 <= sp < next
    && p[next..n] == r[next..n]
    && Kept(r, p[..sp + 1], kept) && (forall i :: 0 <= i < |kept| ==> kept[i] < next)
    && LeftTurns(p[..sp + 1])
  }

  /** The scan loop of main over the rotated points r: the stack lives in
      points[0 .. sp], below the next point to read, so the stack is a
      subsequence of r starting with its first point and every three
      consecutive stack points turn strictly left. */
  method Scan(points: array<Point>, n: int, ghost r: seq<Point>) returns (sp: int, ghost kept: seq<int>)
    requires 2 <= n <= points.Length && points[..n] == r
    modifies points
    ensures 0 <= sp < n && Kept(r, points[..sp + 1], kept) && LeftTurns(points[..sp + 1])
    ensures points[n..] == old(points[n..])
  {
    sp := 1;
    kept := [0, 1];
    var next := 2;
    assert points[..2] == r[..2];
    while next < n
      invariant Scanning(points[..], n, r, sp, next, kept)
      invariant points[n..] == old(points[n..])
    {
      sp, kept := ScanStep(points, n, r, sp, next, kept);
      next := next + 1;
    }
  }

  /** One iteration of the scan: pop, then push points[next] at sp + 1. */
  method ScanStep(points: array<Point>, n: int, ghost r: seq<Point>, sp: int, next: int, ghost kept: seq<int>)
    returns (newSp: int, ghost newKept: seq<int>)
    requires Scanning(points[..], n, r, sp, next, kept) && next < n
    modifies points
    ensures Scanning(points[..], n, r, newSp, next + 1, newKept)
    ensures points[n..] == old(points[n..])
  {
    var top := PopNonLeft(points, sp, next);
    KeptPrefix(r, points[..sp + 1], kept, top + 1);
    assert points[..sp + 1][..top + 1] == points[..top + 1];
    newSp := top + 1;
    var p := points[next];
    assert p == points[next..n][0] == r[next];
    LeftTurnsPush(points[..newSp], p);
    ghost var below := points[..newSp];
    ghost var unread := points[next + 1..n];
    KeptPush(r, below, kept[..top + 1], next);
    assert unread == r[next + 1..n] by {
      assert points[next + 1..n] == points[next..n][1..];
    }
    points[newSp] := p;
    assert points[..newSp + 1] == below + [p];
    assert points[next + 1..n] == unread;
    newKept := kept[..top + 1] + [next];
    assert Kept(r, points[..newSp + 1], newKept);
  }

  /** The closing loop: pops while the top two points and points[0] do not
      turn strictly left. */
  method Close(points: array<Point>, sp: int) returns (newSp: int)
    requires 0 <= sp < points.Length && LeftTurns(points[..sp + 1])
    ensures 0 <= newSp <= sp && LeftTurns(points[..newSp + 1])
    ensures newSp == 0 || Cross(points[newSp - 1], points[newSp], points[0]) > 0
  {
    newSp := sp;
    while newSp != 0 && Cross(points[newSp - 1], points[newSp], points[0]) <= 0
      invariant 0 <= newSp <= sp && LeftTurns(points[..newSp + 1])
    {
      LeftTurnsPrefix(points[..newSp + 1], newSp);
      assert points[..newSp + 1][..newSp] == points[..newSp];
      newSp := newSp - 1;
    }
  }

  /** The reading loop of main: the input in the first slots of a zeroed buffer. */
  method Load(input: seq<Point>) returns (tmp: array<Point>)
    requires |input| <= MaxPoints
    ensures fresh(tmp) && tmp.Length == MaxPoints && tmp[..|input|] == input
  {
    tmp := new Point[MaxPoints](_ => Point(0, 0));
    var i := 0;
    while i < |input|
      invariant 0 <= i <= |input| && tmp[..i] == input[..i]
    {
      tmp[i] := input[i];
      assert tmp[..i + 1] == tmp[..i] + [input[i]];
      assert input[..i + 1] == input[..i] + [input[i]];
      i := i + 1;
    }
    assert input[..i] == input;
  }

  /** The scan and the closing loop. With fewer than two points the stack
      starts as points[0] and the zero point in the unused slot, which the
      closing loop pops. */
  method ScanAndClose(points: array<Point>, n: int, ghost r: seq<Point>) returns (sp: int, ghost kept: seq<int>)
    requires 2 <= points.Length && 0 <= n <= points.Length && points[..n] == r
    requires n < 2 ==> points[1] == Point(0, 0)
    modifies points
    ensures 0 <= sp && (n < 2 ==> sp == 0) && (n >= 2 ==> sp < n && Kept(r, points[..sp + 1], kept))
    ensures points[0] == old(points[0])
    ensures LeftTurns(points[..sp + 1])
    ensures sp >= 1 ==> Cross(points[sp - 1], points[sp], points[0]) > 0
  {
    sp := 1;
    kept := [];
    if n >= 2 {
      sp, kept := Scan(points, n, r);
      assert points[0] == r[kept[0]] == old(points[0]);
    } else {
      assert LeftTurns(points[..2]);
    }
    ghost var scanned := sp;
    sp := Close(points, sp);
    if n >= 2 {
      KeptPrefix(r, points[..scanned + 1], kept, sp + 1);
      assert points[..scanned + 1][..sp + 1] == points[..sp + 1];
      kept := kept[..sp + 1];
    }
  }

  /** main: the points printed, stack_ptr + 1 of them. The scan needs two
      points; with fewer, only the first point (the zero point when there
      is none) is printed. */
  method Run(input: seq<Point>) returns (hull: seq<Point>, lb: int, ghost kept: seq<int>)
    requires |input| <= MaxPoints
    ensures 1 <= |hull| <= (if |input| < 1 then 1 else |input|)
    ensures |input| == 0 ==> hull == [Point(0, 0)]
    ensures |input| >= 1 ==> LeftmostBottomAt(input, lb) && hull[0] == input[lb]
    ensures |input| >= 2 ==> Kept(Rotation(input, lb), hull, kept)
    ensures LeftTurns(hull)
    ensures |hull| >= 2 ==> Cross(hull[|hull| - 2], hull[|hull| - 1], hull[0]) > 0
  {
    var n := |input|;
    var tmp := Load(input);
    lb := LeftmostBottom(tmp, n);
    var points := new Point[MaxPoints](_ => Point(0, 0));
    ghost var blank := points[..];
    Rotate(tmp, points, n, lb);
    if n < 2 {
      assert points[1] == points[n..][1 - n] == blank[n..][1 - n];
    }
    if n == 0 {
      assert points[0] == points[n..][0] == blank[0];
    }
    if n >= 1 {
      RotationPermutes(input, lb);
    }
    var sp;
    sp, kept := ScanAndClose(points, n, Rotation(input, lb));
    hull := points[..sp + 1];
  }
}
