/** geometry/point_horizontal_vertical_semiplanes.c: half-planes
    a x + b y <= -c with a horizontal or vertical border are filed into four
    lists of bounds (left, right, down, up), each seeded with the two
    sentinels MIN_COORD - 1 and MAX_COORD + 1 and sorted; a query point
    gets the nearest bound on each side by binary search, and is enclosed
    unless one of them is a sentinel. Bounds are exact reals. */
module PointSemiplanes {
  import opened Util
  import opened HalfPlanes

  const MaxSemiplanes: int := 10000
  const MinCoord: int := -1000000
  const MaxCoord: int := 1000000
  /** The two sentinels every bound list starts with. */
  const Low: real := (MinCoord - 1) as real
  const High: real := (MaxCoord + 1) as real

  datatype Query = Query(x: real, y: real)

  /** NO, or YES with the nearest bound on each side. */
  datatype Answer = No | Yes(left: real, right: real, down: real, up: real)

  /** The bounds of the half-planes filed on one side, in input order. */
  function Filed(planes: seq<HalfPlane>, side: Side): seq<real>
    requires forall k :: 0 <= k < |planes| ==> Proper(planes[k])
  {
    if planes == [] then []
    else
      var p := planes[|planes| - 1];
      var rest := Filed(planes[..|planes| - 1], side);
      if SideOf(p) == side then rest + [BoundOf(p)] else rest
  }

  /** A value is filed on a side exactly when some half-plane of that side
      has it as its bound. */
  lemma {:induction false} FiledMember(planes: seq<HalfPlane>, side: Side, e: real)
    requires forall k :: 0 <= k < |planes| ==> Proper(planes[k])
    ensures e in Filed(planes, side) <==> exists k :: 0 <= k < |planes| && SideOf(planes[k]) == side && BoundOf(planes[k]) == e
  {
    if planes != [] {
      var init := planes[..|planes| - 1];
      FiledMember(init, side, e);
      if exists k :: 0 <= k < |planes| && SideOf(planes[k]) == side && BoundOf(planes[k]) == e {
        var k :| 0 <= k < |planes| && SideOf(planes[k]) == side && BoundOf(planes[k]) == e;
        if k < |init| {
          assert init[k] == planes[k];
        }
      }
    }
  }

  /** Reading one more half-plane adds its bound to its own side only. */
  lemma FiledStep(planes: seq<HalfPlane>, i: int, side: Side)
    requires forall k :: 0 <= k < |planes| ==> Proper(planes[k])
    requires 0 <= i < |planes|
    ensures Bounds(planes[..i + 1], side) ==
      if SideOf(planes[i]) == side then Bounds(planes[..i], side) + [BoundOf(planes[i])] else Bounds(planes[..i], side)
  {
    assert planes[..i + 1][..i] == planes[..i];
  }

  /** One bound list: the sentinels, then the filed bounds. */
  function Bounds(planes: seq<HalfPlane>, side: Side): seq<real>
    requires forall k :: 0 <= k < |planes| ==> Proper(planes[k])
  {
    [Low, High] + Filed(planes, side)
  }

  /** r is what search_lesser must find in s: the greatest element below
      x, or the least element when none is below x. */
  predicate IsLesser(s: seq<real>, x: real, r: real)
  {
    && r in s
    && (if exists e :: e in s && e < x
        then r < x && forall e :: e in s && e < x ==> e <= r
        else forall e :: e in s ==> r <= e)
  }

  /** r is what search_greater must find in s: the least element above x,
      or the greatest element when none is above x. */
  predicate IsGreater(s: seq<real>, x: real, r: real)
  {
    && r in s
    && (if exists e :: e in s && x < e
        then x < r && forall e :: e in s && x < e ==> r <= e
        else forall e :: e in s ==> e <= r)
  }

  /** At most one value is the lesser bound, whatever the order of s. */
  lemma LesserUnique(s: seq<real>, t: seq<real>, x: real, r: real, q: real)
    requires multiset(s) == multiset(t) && IsLesser(s, x, r) && IsLesser(t, x, q)
    ensures r == q
  {
    assert forall e :: e in s <==> e in t by {
      forall e ensures e in s <==> e in t {
        assert e in s <==> e in multiset(s);
        assert e in t <==> e in multiset(t);
      }
    }
  }

  lemma GreaterUnique(s: seq<real>, t: seq<real>, x: real, r: real, q: real)
    requires multiset(s) == multiset(t) && IsGreater(s, x, r) && IsGreater(t, x, q)
    ensures r == q
  {
    assert forall e :: e in s <==> e in t by {
      forall e ensures e in s <==> e in t {
        assert e in s <==> e in multiset(s);
        assert e in t <==> e in multiset(t);
      }
    }
  }

  /** The lesser bound, found by a scan instead of a search. */
  function Lesser(s: seq<real>, x: real): real
    requires |s| >= 1
  {
    if |s| == 1 then s[0]
    else
      var m := Lesser(s[..|s| - 1], x);
      var e := s[|s| - 1];
      if e < x then (if m < x && e <= m then m else e)
      else (if m < x || m <= e then m else e)
  }

  /** The scan finds what search_lesser must find. */
  lemma {:induction false} LesserIsLesser(s: seq<real>, x: real)
    requires |s| >= 1
    ensures IsLesser(s, x, Lesser(s, x))
  {
    if |s| > 1 {
      var init := s[..|s| - 1];
      LesserIsLesser(init, x);
      assert s == init + [s[|s| - 1]];
      assert forall f :: f in s <==> f in init || f == s[|s| - 1];
    }
  }

  /** The greater bound, found by a scan instead of a search. */
  function Greater(s: seq<real>, x: real): real
    requires |s| >= 1
  {
    if |s| == 1 then s[0]
    else
      var m := Greater(s[..|s| - 1], x);
      var e := s[|s| - 1];
      if x < e then (if x < m && m <= e then m else e)
      else (if x < m || e <= m then m else e)
  }

  /** The scan finds what search_greater must find. */
  lemma {:induction false} GreaterIsGreater(s: seq<real>, x: real)
    requires |s| >= 1
    ensures IsGreater(s, x, Greater(s, x))
  {
    if |s| > 1 {
      var init := s[..|s| - 1];
      GreaterIsGreater(init, x);
      assert s == init + [s[|s| - 1]];
      assert forall f :: f in s <==> f in init || f == s[|s| - 1];
    }
  }

  function Le(u: real, v: real): bool
  {
    u <= v
  }

  lemma LeTotal()
    ensures TotalPreorder(Le)
  {
  }

  /** search_greater on an ascending array: the first element above x, or
      the last element. */
  method SearchGreater(a: array<real>, len: int, x: real) returns (r: real)
    requires 1 <= len <= a.Length && SortedBy(a[..len], Le)
    ensures IsGreater(a[..len], x, r)
  {
    ghost var s := a[..len];
    var lo, hi := 0, len - 1;
    while lo != hi
      invariant 0 <= lo <= hi < len
      invariant forall k :: 0 <= k < lo ==> s[k] <= x
      invariant hi == len - 1 || x < s[hi]
      decreases hi - lo
    {
      var m := (lo + hi) / 2;
      if a[m] <= x {
        assert forall k :: 0 <= k <= m ==> s[k] <= s[m] by {
          forall k | 0 <= k < m ensures s[k] <= s[m] { assert Le(s[k], s[m]); }
        }
        lo := m + 1;
      } else {
        hi := m;
      }
    }
    r := a[lo];
    assert r == s[lo];
    forall e | e in s && x < e ensures r <= e {
      var k :| 0 <= k < len && s[k] == e;
      if lo < k {
        assert Le(s[lo], s[k]);
      }
    }
    if x >= r {
      assert lo == len - 1;
      forall e | e in s ensures e <= r {
        var k :| 0 <= k < len && s[k] == e;
        if k < lo {
          assert Le(s[k], s[lo]);
        }
      }
    }
  }

  /** search_lesser on an ascending array: the last element below x, or
      the first element. */
  method SearchLesser(a: array<real>, len: int, x: real) returns (r: real)
    requires 1 <= len <= a.Length && SortedBy(a[..len], Le)
    ensures IsLesser(a[..len], x, r)
  {
    ghost var s := a[..len];
    var lo, hi := 0, len - 1;
    while lo != hi
      invariant 0 <= lo <= hi < len
      invariant lo == 0 || s[lo] < x
      invariant forall k :: hi < k < len ==> x <= s[k]
      decreases hi - lo
    {
      var m := (lo + hi + 1) / 2;
      if a[m] < x {
        lo := m;
      } else {
        assert forall k :: m <= k < len ==> s[m] <= s[k] by {
          forall k | m < k < len ensures s[m] <= s[k] { assert Le(s[m], s[k]); }
        }
        hi := m - 1;
      }
    }
    r := a[lo];
    assert r == s[lo];
    forall e | e in s && e < x ensures e <= r {
      var k :| 0 <= k < len && s[k] == e;
      if k < lo {
        assert Le(s[k], s[lo]);
      }
    }
    if r >= x {
      forall e | e in s ensures r <= e {
        var k :| 0 <= k < len && s[k] == e;
        if 0 < k {
          assert lo == 0 && Le(s[0], s[k]);
        }
      }
    }
  }

  /** The answer for one point, on the bound lists in any order: NO when a
      nearest bound found is a sentinel. */
  function AnswerFor(planes: seq<HalfPlane>, q: Query): Answer
    requires forall k :: 0 <= k < |planes| ==> Proper(planes[k])
  {
    var left := Lesser(Bounds(planes, Left), q.x);
    var right := Greater(Bounds(planes, Right), q.x);
    var down := Lesser(Bounds(planes, Down), q.y);
    var up := Greater(Bounds(planes, Up), q.y);
    if left == Low || right == High || down == Low || up == High then No
    else Yes(left, right, down, up)
  }

  /** The answers printed for the queries, one per query, in order. */
  function AnswersFor(planes: seq<HalfPlane>, queries: seq<Query>): (r: seq<Answer>)
    requires forall k :: 0 <= k < |planes| ==> Proper(planes[k])
    ensures |r| == |queries|
  {
    if queries == [] then []
    else AnswersFor(planes, queries[..|queries| - 1]) + [AnswerFor(planes, queries[|queries| - 1])]
  }

  /** Answer i is the answer for query i. */
  lemma {:induction false} AnswersForAt(planes: seq<HalfPlane>, queries: seq<Query>, i: int)
    requires forall k :: 0 <= k < |planes| ==> Proper(planes[k])
    requires 0 <= i < |queries|
    ensures AnswersFor(planes, queries)[i] == AnswerFor(planes, queries[i])
  {
    var init := queries[..|queries| - 1];
    if i < |init| {
      AnswersForAt(planes, init, i);
      assert init[i] == queries[i];
    }
  }

  /** Every bound of an input half-plane is a coordinate in range. */
  predicate BoundsInRange(planes: seq<HalfPlane>)
    requires forall k :: 0 <= k < |planes| ==> Proper(planes[k])
  {
    forall k :: 0 <= k < |planes| ==> MinCoord as real <= BoundOf(planes[k]) <= MaxCoord as real
  }

  /** Some half-plane of the side has its bound strictly below v. */
  predicate BoundBelow(planes: seq<HalfPlane>, side: Side, v: real)
    requires forall k :: 0 <= k < |planes| ==> Proper(planes[k])
  {
    exists k :: 0 <= k < |planes| && SideOf(planes[k]) == side && BoundOf(planes[k]) < v
  }

  /** Some half-plane of the side has its bound strictly above v. */
  predicate BoundAbove(planes: seq<HalfPlane>, side: Side, v: real)
    requires forall k :: 0 <= k < |planes| ==> Proper(planes[k])
  {
    exists k :: 0 <= k < |planes| && SideOf(planes[k]) == side && v < BoundOf(planes[k])
  }

  /** With every bound in range, each list lies between its two sentinels. */
  lemma BoundsBetweenSentinels(planes: seq<HalfPlane>, side: Side)
    requires forall k :: 0 <= k < |planes| ==> Proper(planes[k])
    requires BoundsInRange(planes)
    ensures Low in Bounds(planes, side) && High in Bounds(planes, side)
    ensures forall e :: e in Bounds(planes, side) ==> Low <= e <= High
    ensures forall e :: e in Bounds(planes, side) && e != Low && e != High ==> e in Filed(planes, side)
  {
    forall e | e in Bounds(planes, side) ensures Low <= e <= High {
      if e in Filed(planes, side) {
        FiledMember(planes, side, e);
      }
    }
  }

  /** The nearest bound below v is a filed bound exactly when it is not the
      low sentinel, unless v is above every bound. */
  lemma LesserFound(planes: seq<HalfPlane>, side: Side, v: real)
    requires forall k :: 0 <= k < |planes| ==> Proper(planes[k])
    requires BoundsInRange(planes)
    ensures var l := Lesser(Bounds(planes, side), v);
      l != Low ==> Low < v && l < v && (l == High || l in Filed(planes, side))
    ensures var l := Lesser(Bounds(planes, side), v);
      BoundBelow(planes, side, v) ==> l != Low
  {
    var s := Bounds(planes, side);
    var l := Lesser(s, v);
    LesserIsLesser(s, v);
    BoundsBetweenSentinels(planes, side);
    if BoundBelow(planes, side, v) {
      var k :| 0 <= k < |planes| && SideOf(planes[k]) == side && BoundOf(planes[k]) < v;
      FiledMember(planes, side, BoundOf(planes[k]));
      assert BoundOf(planes[k]) in s;
      assert MinCoord as real <= BoundOf(planes[k]) <= l;
    }
  }

  /** The nearest bound above v is a filed bound exactly when it is not the
      high sentinel, unless v is below every bound. */
  lemma GreaterFound(planes: seq<HalfPlane>, side: Side, v: real)
    requires forall k :: 0 <= k < |planes| ==> Proper(planes[k])
    requires BoundsInRange(planes)
    ensures var r := Greater(Bounds(planes, side), v);
      r != High ==> v < High && v < r && (r == Low || r in Filed(planes, side))
    ensures var r := Greater(Bounds(planes, side), v);
      BoundAbove(planes, side, v) ==> r != High
  {
    var s := Bounds(planes, side);
    var r := Greater(s, v);
    GreaterIsGreater(s, v);
    BoundsBetweenSentinels(planes, side);
    if BoundAbove(planes, side, v) {
      var k :| 0 <= k < |planes| && SideOf(planes[k]) == side && v < BoundOf(planes[k]);
      FiledMember(planes, side, BoundOf(planes[k]));
      assert BoundOf(planes[k]) in s;
      assert r <= BoundOf(planes[k]) <= MaxCoord as real;
    }
  }

  /** The sentinel test on one axis, when every bound is in range: neither
      nearest bound is a sentinel exactly when a half-plane bounds the
      coordinate strictly from below and one strictly from above. */
  lemma AxisEnclosed(planes: seq<HalfPlane>, lower: Side, upper: Side, v: real)
    requires forall k :: 0 <= k < |planes| ==> Proper(planes[k])
    requires BoundsInRange(planes)
    ensures (Lesser(Bounds(planes, lower), v) != Low && Greater(Bounds(planes, upper), v) != High)
            <==> BoundBelow(planes, lower, v) && BoundAbove(planes, upper, v)
    ensures Lesser(Bounds(planes, lower), v) != Low ==> Lesser(Bounds(planes, lower), v) < v
    ensures Greater(Bounds(planes, upper), v) != High ==> v < Greater(Bounds(planes, upper), v)
  {
    var l, r := Lesser(Bounds(planes, lower), v), Greater(Bounds(planes, upper), v);
    LesserFound(planes, lower, v);
    GreaterFound(planes, upper, v);
    if l != Low && r != High {
      FiledMember(planes, lower, l);
      FiledMember(planes, upper, r);
    }
  }

  /** The meaning of the answer, when every bound is in range: YES exactly
      when the point has a half-plane border strictly on each of its four
      sides, and then the point lies strictly inside the reported box. */
  lemma AnswerMeansEnclosed(planes: seq<HalfPlane>, q: Query)
    requires forall k :: 0 <= k < |planes| ==> Proper(planes[k])
    requires BoundsInRange(planes)
    ensures AnswerFor(planes, q).Yes? <==>
      BoundBelow(planes, Left, q.x) && BoundAbove(planes, Right, q.x) &&
      BoundBelow(planes, Down, q.y) && BoundAbove(planes, Up, q.y)
    ensures AnswerFor(planes, q).Yes? ==>
      AnswerFor(planes, q).left < q.x < AnswerFor(planes, q).right &&
      AnswerFor(planes, q).down < q.y < AnswerFor(planes, q).up
  {
    AxisEnclosed(planes, Left, Right, q.x);
    AxisEnclosed(planes, Down, Up, q.y);
  }

  /** Appends v after the first count entries. */
  method Push(a: array<real>, count: int, v: real) returns (newCount: int)
    requires 0 <= count < a.Length
    modifies a
    ensures newCount == count + 1 && a[..newCount] == old(a[..count]) + [v]
  {
    a[count] := v;
    newCount := count + 1;
  }

  /** The four lists while reading: each holds the sentinels and the bounds
      of the half-planes read so far on its side. */
  predicate Collected(planes: seq<HalfPlane>, side: Side, a: array<real>, count: int)
    reads a
    requires forall k :: 0 <= k < |planes| ==> Proper(planes[k])
  {
    2 <= count <= |planes| + 2 && count <= a.Length && a[..count] == Bounds(planes, side)
  }

  /** A list of another side is not touched by reading planes[i]. */
  lemma CollectedKeep(planes: seq<HalfPlane>, i: int, side: Side, a: array<real>, count: int)
    requires forall k :: 0 <= k < |planes| ==> Proper(planes[k])
    requires 0 <= i < |planes| && SideOf(planes[i]) != side
    requires Collected(planes[..i], side, a, count)
    ensures Collected(planes[..i + 1], side, a, count)
  {
    FiledStep(planes, i, side);
  }

  /** Appending the bound of planes[i] to the list of its side. */
  lemma CollectedPush(planes: seq<HalfPlane>, i: int, before: seq<real>, after: seq<real>)
    requires forall k :: 0 <= k < |planes| ==> Proper(planes[k])
    requires 0 <= i < |planes|
    requires before == Bounds(planes[..i], SideOf(planes[i])) && after == before + [BoundOf(planes[i])]
    ensures after == Bounds(planes[..i + 1], SideOf(planes[i]))
  {
    FiledStep(planes, i, SideOf(planes[i]));
  }

  /** The four lists, all collected from the same half-planes. */
  predicate AllCollected(planes: seq<HalfPlane>, left: array<real>, leftCount: int, right: array<real>, rightCount: int,
                         down: array<real>, downCount: int, up: array<real>, upCount: int)
    reads left, right, down, up
    requires forall k :: 0 <= k < |planes| ==> Proper(planes[k])
  {
    && Collected(planes, Left, left, leftCount) && Collected(planes, Right, right, rightCount)
    && Collected(planes, Down, down, downCount) && Collected(planes, Up, up, upCount)
  }

  /** The reading loop of main: each half-plane is filed by its signs; the
      first one with both a and b nonzero stops the program. */
  method Collect(planes: seq<HalfPlane>, left: array<real>, right: array<real>, down: array<real>, up: array<real>)
    returns (ok: bool, leftCount: int, rightCount: int, downCount: int, upCount: int)
    requires |planes| <= MaxSemiplanes && forall k :: 0 <= k < |planes| ==> Proper(planes[k])
    requires left.Length == right.Length == down.Length == up.Length == MaxSemiplanes + 2
    requires left != right && left != down && left != up && right != down && right != up && down != up
    requires left[..2] == right[..2] == down[..2] == up[..2] == [Low, High]
    modifies left, right, down, up
    ensures ok <==> forall k :: 0 <= k < |planes| ==> AxisParallel(planes[k])
    ensures ok ==> AllCollected(planes, left, leftCount, right, rightCount, down, downCount, up, upCount)
  {
    leftCount, rightCount, downCount, upCount := 2, 2, 2, 2;
    var i := 0;
    while i < |planes|
      invariant 0 <= i <= |planes|
      invariant forall k :: 0 <= k < i ==> AxisParallel(planes[k])
      invariant AllCollected(planes[..i], left, leftCount, right, rightCount, down, downCount, up, upCount)
    {
      if planes[i].a != 0 && planes[i].b != 0 {
        return false, leftCount, rightCount, downCount, upCount;
      }
      leftCount, rightCount, downCount, upCount := File(planes, i, left, leftCount, right, rightCount, down, downCount, up, upCount);
      i := i + 1;
    }
    assert planes[..i] == planes;
    ok := true;
  }

  /** The body of the reading loop for an accepted half-plane: its bound
      goes at the end of the list its signs select. */
  method File(planes: seq<HalfPlane>, i: int, left: array<real>, leftCount: int, right: array<real>, rightCount: int,
              down: array<real>, downCount: int, up: array<real>, upCount: int)
    returns (newLeft: int, newRight: int, newDown: int, newUp: int)
    requires |planes| <= MaxSemiplanes && forall k :: 0 <= k < |planes| ==> Proper(planes[k])
    requires 0 <= i < |planes| && AxisParallel(planes[i])
    requires left.Length == right.Length == down.Length == up.Length == MaxSemiplanes + 2
    requires left != right && left != down && left != up && right != down && right != up && down != up
    requires AllCollected(planes[..i], left, leftCount, right, rightCount, down, downCount, up, upCount)
    modifies left, right, down, up
    ensures AllCollected(planes[..i + 1], left, newLeft, right, newRight, down, newDown, up, newUp)
  {
    var p := planes[i];
    newLeft, newRight, newDown, newUp := leftCount, rightCount, downCount, upCount;
    if p.a > 0 {
      CollectedKeep(planes, i, Left, left, leftCount);
      CollectedKeep(planes, i, Down, down, downCount);
      CollectedKeep(planes, i, Up, up, upCount);
      ghost var before := right[..rightCount];
      newRight := Push(right, rightCount, (-p.c) as real / p.a as real);
      CollectedPush(planes, i, before, right[..newRight]);
    } else if p.a < 0 {
      CollectedKeep(planes, i, Right, right, rightCount);
      CollectedKeep(planes, i, Down, down, downCount);
      CollectedKeep(planes, i, Up, up, upCount);
      ghost var before := left[..leftCount];
      newLeft := Push(left, leftCount, (-p.c) as real / p.a as real);
      CollectedPush(planes, i, before, left[..newLeft]);
    } else if p.b > 0 {
      CollectedKeep(planes, i, Left, left, leftCount);
      CollectedKeep(planes, i, Right, right, rightCount);
      CollectedKeep(planes, i, Down, down, downCount);
      ghost var before := up[..upCount];
      newUp := Push(up, upCount, (-p.c) as real / p.b as real);
      CollectedPush(planes, i, before, up[..newUp]);
    } else {
      CollectedKeep(planes, i, Left, left, leftCount);
      CollectedKeep(planes, i, Right, right, rightCount);
      CollectedKeep(planes, i, Up, up, upCount);
      ghost var before := down[..downCount];
      newDown := Push(down, downCount, (-p.c) as real / p.b as real);
      CollectedPush(planes, i, before, down[..newDown]);
    }
  }

  /** qsort with double_cmp: the list in ascending order. */
  method SortBounds(a: array<real>, count: int) returns (ghost sorted: seq<real>)
    requires 0 <= count <= a.Length
    modifies a
    ensures a[..count] == sorted && SortedBy(sorted, Le) && multiset(sorted) == multiset(old(a[..count]))
  {
    SortPrefix(a, count, Le);
    LeTotal();
    InsertionSortSorted(old(a[..count]), Le);
    sorted := a[..count];
  }

  /** The query loop of main: one answer per point, from the four sorted lists. */
  method AnswerQueries(planes: seq<HalfPlane>, queries: seq<Query>,
                       left: array<real>, leftCount: int, right: array<real>, rightCount: int,
                       down: array<real>, downCount: int, up: array<real>, upCount: int)
    returns (answers: seq<Answer>)
    requires forall k :: 0 <= k < |planes| ==> Proper(planes[k])
    requires 1 <= leftCount <= left.Length && SortedBy(left[..leftCount], Le)
    requires multiset(left[..leftCount]) == multiset(Bounds(planes, Left))
    requires 1 <= rightCount <= right.Length && SortedBy(right[..rightCount], Le)
    requires multiset(right[..rightCount]) == multiset(Bounds(planes, Right))
    requires 1 <= downCount <= down.Length && SortedBy(down[..downCount], Le)
    requires multiset(down[..downCount]) == multiset(Bounds(planes, Down))
    requires 1 <= upCount <= up.Length && SortedBy(up[..upCount], Le)
    requires multiset(up[..upCount]) == multiset(Bounds(planes, Up))
    ensures answers == AnswersFor(planes, queries)
  {
    answers := [];
    var i := 0;
    while i < |queries|
      invariant 0 <= i <= |queries| && answers == AnswersFor(planes, queries[..i])
    {
      assert queries[..i + 1][..i] == queries[..i];
      var answer := AnswerQuery(planes, queries[i], left, leftCount, right, rightCount, down, downCount, up, upCount);
      answers := answers + [answer];
      i := i + 1;
    }
    assert queries[..i] == queries;
  }

  /** The body of the query loop: the four searches and the sentinel test. */
  method AnswerQuery(planes: seq<HalfPlane>, q: Query,
                     left: array<real>, leftCount: int, right: array<real>, rightCount: int,
                     down: array<real>, downCount: int, up: array<real>, upCount: int)
    returns (answer: Answer)
    requires forall k :: 0 <= k < |planes| ==> Proper(planes[k])
    requires 1 <= leftCount <= left.Length && SortedBy(left[..leftCount], Le)
    requires multiset(left[..leftCount]) == multiset(Bounds(planes, Left))
    requires 1 <= rightCount <= right.Length && SortedBy(right[..rightCount], Le)
    requires multiset(right[..rightCount]) == multiset(Bounds(planes, Right))
    requires 1 <= downCount <= down.Length && SortedBy(down[..downCount], Le)
    requires multiset(down[..downCount]) == multiset(Bounds(planes, Down))
    requires 1 <= upCount <= up.Length && SortedBy(up[..upCount], Le)
    requires multiset(up[..upCount]) == multiset(Bounds(planes, Up))
    ensures answer == AnswerFor(planes, q)
  {
    var l := SearchLesser(left, leftCount, q.x);
    LesserIsLesser(Bounds(planes, Left), q.x);
    LesserUnique(left[..leftCount], Bounds(planes, Left), q.x, l, Lesser(Bounds(planes, Left), q.x));
    var r := SearchGreater(right, rightCount, q.x);
    GreaterIsGreater(Bounds(planes, Right), q.x);
    GreaterUnique(right[..rightCount], Bounds(planes, Right), q.x, r, Greater(Bounds(planes, Right), q.x));
    var d := SearchLesser(down, downCount, q.y);
    LesserIsLesser(Bounds(planes, Down), q.y);
    LesserUnique(down[..downCount], Bounds(planes, Down), q.y, d, Lesser(Bounds(planes, Down), q.y));
    var u := SearchGreater(up, upCount, q.y);
    GreaterIsGreater(Bounds(planes, Up), q.y);
    GreaterUnique(up[..upCount], Bounds(planes, Up), q.y, u, Greater(Bounds(planes, Up), q.y));
    answer := if l == Low || r == High || d == Low || u == High then No else Yes(l, r, d, u);
  }

  /** main: None for the invalid-input exit, otherwise one answer per query. */
  method Run(planes: seq<HalfPlane>, queries: seq<Query>) returns (result: Option<seq<Answer>>)
    requires |planes| <= MaxSemiplanes && forall k :: 0 <= k < |planes| ==> Proper(planes[k])
    ensures result.None? <==> exists k :: 0 <= k < |planes| && !AxisParallel(planes[k])
    ensures result.Some? ==> result.value == AnswersFor(planes, queries)
  {
    var left := NewBounds();
    var right := NewBounds();
    var down := NewBounds();
    var up := NewBounds();
    var ok, leftCount, rightCount, downCount, upCount := Collect(planes, left, right, down, up);
    if !ok {
      return None;
    }
    ghost var sorted := SortBounds(left, leftCount);
    sorted := SortBounds(right, rightCount);
    sorted := SortBounds(down, downCount);
    sorted := SortBounds(up, upCount);
    var answers := AnswerQueries(planes, queries, left, leftCount, right, rightCount, down, downCount, up, upCount);
    return Some(answers);
  }

  /** A bound list as declared: the two sentinels first. */
  method NewBounds() returns (a: array<real>)
    ensures fresh(a) && a.Length == MaxSemiplanes + 2 && a[..2] == [Low, High]
  {
    a := new real[MaxSemiplanes + 2](i => if i == 0 then Low else if i == 1 then High else 0.0);
  }
}
