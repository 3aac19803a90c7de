/** geometry/intersection_horizontal_vertical_semiplanes.c: the
    intersection of half-planes a x + b y <= -c with horizontal or vertical
    borders is tracked as four rational bounds, min_x <= x <= max_x and
    min_y <= y <= max_y, starting from the placeholder +-2 MAX_COORD; the
    answer is VOID, UNBOUNDED (a placeholder survives) or BOUNDED. */
module IntersectionSemiplanes {
  import opened Util
  import opened HalfPlanes

  const MaxCoord: int := 10000000
  const Placeholder: int := 2 * MaxCoord

  /** num / den; the program builds them with den > 0, except -b == 0 in
      the last branch when a == b == 0. */
  datatype Rational = Rational(num: int, den: int)

  function Value(r: Rational): real
    requires r.den != 0
  {
    r.num as real / r.den as real
  }

  /** lesser: the cross-multiplied comparison (64-bit products of 32-bit
      values, so exact). */
  predicate Lesser(a: Rational, b: Rational)
  {
    a.num * b.den < b.num * a.den
  }

  /** With positive denominators the cross-multiplied comparison is the
      comparison of the numbers. */
  lemma LesserIsLess(a: Rational, b: Rational)
    requires a.den > 0 && b.den > 0
    ensures Lesser(a, b) <==> Value(a) < Value(b)
  {
    var va, vb := Value(a), Value(b);
    var da, db := a.den as real, b.den as real;
    assert va * da == a.num as real;
    assert vb * db == b.num as real;
    var d := da * db;
    assert d > 0.0;
    assert (a.num * b.den) as real == a.num as real * db == va * d;
    assert (b.num * a.den) as real == b.num as real * da == vb * d;
    if va < vb {
      assert va * d < vb * d;
    } else {
      assert vb * d <= va * d;
    }
  }

  /** min: the first argument when it is lesser, else the second. */
  function Min(a: Rational, b: Rational): (r: Rational)
    ensures r == a || r == b
  {
    if Lesser(a, b) then a else b
  }

  /** max: the second argument when the first is lesser, else the first. */
  function Max(a: Rational, b: Rational): (r: Rational)
    ensures r == a || r == b
  {
    if Lesser(a, b) then b else a
  }

  /** With positive denominators min is below both arguments and max above. */
  lemma MinMaxValue(a: Rational, b: Rational)
    requires a.den > 0 && b.den > 0
    ensures Value(Min(a, b)) <= Value(a) && Value(Min(a, b)) <= Value(b)
    ensures Value(Max(a, b)) >= Value(a) && Value(Max(a, b)) >= Value(b)
  {
    LesserIsLess(a, b);
  }

  /** The four bound variables of main. */
  datatype Box = Box(minX: Rational, maxX: Rational, minY: Rational, maxY: Rational)

  /** Their initial values: the placeholder on every side. */
  const Start: Box := Box(Rational(-Placeholder, 1), Rational(Placeholder, 1), Rational(-Placeholder, 1), Rational(Placeholder, 1))

  /** The rational bound main builds for a half-plane. */
  function Bound(p: HalfPlane): Rational
  {
    if p.a > 0 then Rational(-p.c, p.a)
    else if p.a < 0 then Rational(p.c, -p.a)
    else if p.b > 0 then Rational(-p.c, p.b)
    else Rational(p.c, -p.b)
  }

  /** One round of the reading loop for an accepted half-plane. */
  function Step(box: Box, p: HalfPlane): Box
  {
    if p.a > 0 then box.(maxX := Min(box.maxX, Bound(p)))
    else if p.a < 0 then box.(minX := Max(box.minX, Bound(p)))
    else if p.b > 0 then box.(maxY := Min(box.maxY, Bound(p)))
    else box.(minY := Max(box.minY, Bound(p)))
  }

  /** The bounds after reading all the half-planes. */
  function Fold(planes: seq<HalfPlane>): Box
  {
    if planes == [] then Start else Step(Fold(planes[..|planes| - 1]), planes[|planes| - 1])
  }

  datatype Verdict = Void | Unbounded | Bounded

  /** The final test of main. */
  function Classify(box: Box): Verdict
  {
    if Lesser(box.maxX, box.minX) || Lesser(box.maxY, box.minY) then Void
    else if box.minX.num == -Placeholder || box.maxX.num == Placeholder
         || box.minY.num == -Placeholder || box.maxY.num == Placeholder then Unbounded
    else Bounded
  }

  /** 32-bit coefficients other than the most negative one, whose negation
      overflows. */
  predicate Int32(p: HalfPlane)
  {
    -0x8000_0000 < p.a < 0x8000_0000 && -0x8000_0000 < p.b < 0x8000_0000 && -0x8000_0000 < p.c < 0x8000_0000
  }

  /** main: None for the invalid-input exit, otherwise the verdict. */
  method Run(planes: seq<HalfPlane>) returns (result: Option<Verdict>)
    requires forall k :: 0 <= k < |planes| ==> Int32(planes[k])
    ensures result.None? <==> exists k :: 0 <= k < |planes| && !AxisParallel(planes[k])
    ensures result.Some? ==> result.value == Classify(Fold(planes))
  {
    var minX, maxX := Rational(-Placeholder, 1), Rational(Placeholder, 1);
    var minY, maxY := Rational(-Placeholder, 1), Rational(Placeholder, 1);
    var i := 0;
    while i < |planes|
      invariant 0 <= i <= |planes|
      invariant forall k :: 0 <= k < i ==> AxisParallel(planes[k])
      invariant Box(minX, maxX, minY, maxY) == Fold(planes[..i])
    {
      var p := planes[i];
      if p.a != 0 && p.b != 0 {
        return None;
      }
      if p.a > 0 {
        maxX := Min(maxX, Rational(-p.c, p.a));
      } else if p.a < 0 {
        minX := Max(minX, Rational(p.c, -p.a));
      } else if p.b > 0 {
        maxY := Min(maxY, Rational(-p.c, p.b));
      } else {
        minY := Max(minY, Rational(p.c, -p.b));
      }
      assert planes[..i + 1][..i] == planes[..i];
      i := i + 1;
    }
    assert planes[..i] == planes;
    if Lesser(maxX, minX) || Lesser(maxY, minY) {
      result := Some(Void);
    } else if minX.num == -Placeholder || maxX.num == Placeholder || minY.num == -Placeholder || maxY.num == Placeholder {
      result := Some(Unbounded);
    } else {
      result := Some(Bounded);
    }
  }

  /** The bound of a side. */
  function Get(box: Box, side: Side): Rational
  {
    match side
    case Left => box.minX
    case Right => box.maxX
    case Down => box.minY
    case Up => box.maxY
  }

  /** Right and Up are bounded from above, by min. */
  predicate Upper(side: Side)
  {
    side == Right || side == Up
  }

  /** p bounds the given side with a finite bound. */
  predicate Bounding(p: HalfPlane, side: Side)
  {
    Proper(p) && SideOf(p) == side
  }

  /** 0 x + 0 y <= -c with c > 0: no point satisfies it. */
  predicate Infeasible(p: HalfPlane)
  {
    p.a == 0 && p.b == 0 && p.c > 0
  }

  predicate SomeInfeasible(planes: seq<HalfPlane>)
  {
    exists k :: 0 <= k < |planes| && Infeasible(planes[k])
  }

  predicate AllAxisParallel(planes: seq<HalfPlane>)
  {
    forall k :: 0 <= k < |planes| ==> AxisParallel(planes[k])
  }

  /** Every c within the coordinate range. */
  predicate Small(planes: seq<HalfPlane>)
  {
    forall k :: 0 <= k < |planes| ==> -MaxCoord <= planes[k].c <= MaxCoord
  }

  /** Every point of the intersection. */
  predicate InRegion(planes: seq<HalfPlane>, x: real, y: real)
  {
    forall k :: 0 <= k < |planes| ==> Contains(planes[k], x, y)
  }

  /** The denominators the branches build: positive for a proper
      half-plane, 0 for a == b == 0; the value is the border's position. */
  lemma BoundValue(p: HalfPlane)
    requires AxisParallel(p)
    ensures Proper(p) ==> Bound(p).den > 0 && Value(Bound(p)) == BoundOf(p)
    ensures !Proper(p) ==> Bound(p) == Rational(p.c, 0)
    ensures Bound(p).num == p.c || Bound(p).num == -p.c
  {
    if p.a < 0 {
      assert (p.c as real) / ((-p.a) as real) == ((-p.c) as real) / (p.a as real);
    } else if p.a == 0 && p.b < 0 {
      assert (p.c as real) / ((-p.b) as real) == ((-p.c) as real) / (p.b as real);
    }
  }

  /** With c in range, the border lies in the coordinate range too. */
  lemma SmallBound(p: HalfPlane)
    requires Proper(p) && -MaxCoord <= p.c <= MaxCoord
    ensures -MaxCoord as real <= BoundOf(p) <= MaxCoord as real
  {
    var d := if p.a != 0 then p.a else p.b;
    var v := BoundOf(p);
    var dr := d as real;
    assert v * dr == (-p.c) as real;
    if d > 0 {
      assert dr >= 1.0;
      if v >= 0.0 {
        assert v <= v * dr;
      } else {
        assert v * dr <= v;
      }
    } else {
      assert dr <= -1.0;
      if v >= 0.0 {
        assert v * dr <= -v;
      } else {
        assert -v <= v * dr;
      }
    }
  }

  /** What one bound variable holds after the loop (for the lower y bound,
      when no half-plane is infeasible): a positive denominator; the
      placeholder or the bound of one of its half-planes; no looser than
      any of its half-planes, nor than the placeholder. */
  predicate SideFacts(planes: seq<HalfPlane>, side: Side, r: Rational)
  {
    && r.den > 0
    && (r == Get(Start, side) || exists k :: 0 <= k < |planes| && Bounding(planes[k], side) && r == Bound(planes[k]))
    && (forall k :: 0 <= k < |planes| && Bounding(planes[k], side) ==>
          if Upper(side) then Value(r) <= BoundOf(planes[k]) else BoundOf(planes[k]) <= Value(r))
    && (if Upper(side) then Value(r) <= Placeholder as real else -Placeholder as real <= Value(r))
  }

  /** One bound after a round: only the half-planes of its side move it,
      by min for an upper bound and by max for a lower one. */
  function SideStep(r0: Rational, p: HalfPlane, side: Side): Rational
  {
    if SideOf(p) != side then r0
    else if Upper(side) then Min(r0, Bound(p))
    else Max(r0, Bound(p))
  }

  lemma StepGet(box: Box, p: HalfPlane, side: Side)
    ensures Get(Step(box, p), side) == SideStep(Get(box, side), p, side)
  {
  }

  /** A round keeps a positive denominator positive and never loosens the
      bound; a changed bound is the half-plane's own. */
  lemma SideStepFacts(r0: Rational, p: HalfPlane, side: Side, r: Rational)
    requires r0.den > 0 && AxisParallel(p) && (side == Down ==> !Infeasible(p))
    requires r == SideStep(r0, p, side)
    ensures r.den > 0
    ensures r == r0 || (Bounding(p, side) && r == Bound(p))
    ensures Upper(side) ==> Value(r) <= Value(r0) && (Bounding(p, side) ==> Value(r) <= BoundOf(p))
    ensures !Upper(side) ==> Value(r0) <= Value(r) && (Bounding(p, side) ==> BoundOf(p) <= Value(r))
  {
    BoundValue(p);
    if SideOf(p) == side {
      if Proper(p) {
        MinMaxValue(r0, Bound(p));
      } else {
        assert p.c * r0.den <= 0;
      }
    }
  }

  /** Once the lower y bound is c / 0 with c > 0, no round changes it. */
  lemma InfeasibleStays(r0: Rational, p: HalfPlane)
    requires r0.den == 0 && r0.num > 0 && AxisParallel(p)
    ensures SideStep(r0, p, Down) == r0
  {
    if SideOf(p) == Down {
      BoundValue(p);
      assert r0.num * Bound(p).den >= 0;
    }
  }

  /** An infeasible half-plane turns a lower y bound into c / 0. */
  lemma InfeasibleEnters(r0: Rational, p: HalfPlane)
    requires r0.den > 0 && Infeasible(p)
    ensures SideStep(r0, p, Down) == Rational(p.c, 0)
  {
    assert p.c * r0.den > 0;
  }

  /** The first half-planes and the last one, against all of them. */
  lemma Prefix(planes: seq<HalfPlane>)
    requires planes != []
    ensures AllAxisParallel(planes) ==> AllAxisParallel(planes[..|planes| - 1]) && AxisParallel(planes[|planes| - 1])
    ensures SomeInfeasible(planes) <==> SomeInfeasible(planes[..|planes| - 1]) || Infeasible(planes[|planes| - 1])
    ensures planes == planes[..|planes| - 1] + [planes[|planes| - 1]]
  {
    var init := planes[..|planes| - 1];
    if AllAxisParallel(planes) {
      forall k | 0 <= k < |init| ensures AxisParallel(init[k]) {
        assert init[k] == planes[k];
      }
    }
    if SomeInfeasible(init) {
      var k :| 0 <= k < |init| && Infeasible(init[k]);
      assert planes[k] == init[k];
    }
    if SomeInfeasible(planes) && !Infeasible(planes[|planes| - 1]) {
      var k :| 0 <= k < |planes| && Infeasible(planes[k]);
      assert planes[k] == init[k];
    }
  }

  /** The facts of a bound carry over one more round. */
  lemma SideFactsPush(init: seq<HalfPlane>, p: HalfPlane, side: Side, r0: Rational, r: Rational)
    requires SideFacts(init, side, r0) && r.den > 0
    requires r == r0 || (Bounding(p, side) && r == Bound(p))
    requires Upper(side) ==> Value(r) <= Value(r0) && (Bounding(p, side) ==> Value(r) <= BoundOf(p))
    requires !Upper(side) ==> Value(r0) <= Value(r) && (Bounding(p, side) ==> BoundOf(p) <= Value(r))
    ensures SideFacts(init + [p], side, r)
  {
    var planes := init + [p];
    forall k | 0 <= k < |planes| && Bounding(planes[k], side)
      ensures if Upper(side) then Value(r) <= BoundOf(planes[k]) else BoundOf(planes[k]) <= Value(r)
    {
      if k < |init| {
        assert planes[k] == init[k];
      }
    }
    if r != Get(Start, side) {
      if r == r0 {
        var k :| 0 <= k < |init| && Bounding(init[k], side) && r0 == Bound(init[k]);
        assert planes[k] == init[k];
      } else {
        assert planes[|init|] == p;
      }
    }
  }

  lemma {:induction false} FoldSide(planes: seq<HalfPlane>, side: Side)
    requires AllAxisParallel(planes)
    requires side != Down || !SomeInfeasible(planes)
    ensures SideFacts(planes, side, Get(Fold(planes), side))
  {
    if planes == [] {
      assert Value(Rational(Placeholder, 1)) == Placeholder as real;
      assert Value(Rational(-Placeholder, 1)) == -Placeholder as real;
    } else {
      var init, p := planes[..|planes| - 1], planes[|planes| - 1];
      Prefix(planes);
      FoldSide(init, side);
      var r0 := Get(Fold(init), side);
      StepGet(Fold(init), p, side);
      SideStepFacts(r0, p, side, Get(Fold(planes), side));
      SideFactsPush(init, p, side, r0, Get(Fold(planes), side));
    }
  }

  /** An infeasible half-plane leaves the lower y bound as c / 0 with c > 0,
      whatever follows it. */
  lemma {:induction false} FoldInfeasible(planes: seq<HalfPlane>)
    requires AllAxisParallel(planes) && SomeInfeasible(planes)
    ensures Fold(planes).minY.den == 0 && Fold(planes).minY.num > 0
  {
    var init, p := planes[..|planes| - 1], planes[|planes| - 1];
    Prefix(planes);
    StepGet(Fold(init), p, Down);
    if SomeInfeasible(init) {
      FoldInfeasible(init);
      InfeasibleStays(Fold(init).minY, p);
    } else {
      FoldSide(init, Down);
      InfeasibleEnters(Fold(init).minY, p);
    }
  }

  /** A verdict other than VOID means no half-plane is infeasible. */
  lemma NotVoidFeasible(planes: seq<HalfPlane>)
    requires AllAxisParallel(planes) && Classify(Fold(planes)) != Void
    ensures !SomeInfeasible(planes)
  {
    if SomeInfeasible(planes) {
      FoldInfeasible(planes);
      FoldSide(planes, Up);
    }
  }

  /** No point lies in an infeasible half-plane. */
  lemma InfeasibleEmpty(planes: seq<HalfPlane>, x: real, y: real)
    requires InRegion(planes, x, y)
    ensures !SomeInfeasible(planes)
  {
    forall k | 0 <= k < |planes| ensures !Infeasible(planes[k]) {
      assert Contains(planes[k], x, y);
      if planes[k].a == 0 && planes[k].b == 0 {
        assert planes[k].a as real * x + planes[k].b as real * y == 0.0;
      }
    }
  }

  /** A point within the bound of every half-plane of every side lies in
      the intersection (the a == b == 0 half-planes hold everywhere when
      none is infeasible). */
  lemma InRegionByBounds(planes: seq<HalfPlane>, x: real, y: real)
    requires AllAxisParallel(planes) && !SomeInfeasible(planes)
    requires forall k :: 0 <= k < |planes| && Bounding(planes[k], Left) ==> BoundOf(planes[k]) <= x
    requires forall k :: 0 <= k < |planes| && Bounding(planes[k], Right) ==> x <= BoundOf(planes[k])
    requires forall k :: 0 <= k < |planes| && Bounding(planes[k], Down) ==> BoundOf(planes[k]) <= y
    requires forall k :: 0 <= k < |planes| && Bounding(planes[k], Up) ==> y <= BoundOf(planes[k])
    ensures InRegion(planes, x, y)
  {
    forall k | 0 <= k < |planes| ensures Contains(planes[k], x, y) {
      var p := planes[k];
      if Proper(p) {
        FiledSide(p, x, y);
      } else {
        assert !Infeasible(p);
        assert p.a as real * x + p.b as real * y == 0.0;
      }
    }
  }

  /** All four bounds with their facts, when no half-plane is infeasible. */
  lemma FoldAll(planes: seq<HalfPlane>)
    requires AllAxisParallel(planes) && !SomeInfeasible(planes)
    ensures SideFacts(planes, Left, Fold(planes).minX) && SideFacts(planes, Right, Fold(planes).maxX)
    ensures SideFacts(planes, Down, Fold(planes).minY) && SideFacts(planes, Up, Fold(planes).maxY)
  {
    FoldSide(planes, Left);
    FoldSide(planes, Right);
    FoldSide(planes, Down);
    FoldSide(planes, Up);
  }

  /** A verdict other than VOID comes with a point of the intersection: the
      lower x bound and the lower y bound. */
  lemma NotVoidWitness(planes: seq<HalfPlane>)
    requires AllAxisParallel(planes) && Classify(Fold(planes)) != Void
    ensures var box := Fold(planes);
      box.minX.den > 0 && box.minY.den > 0 && InRegion(planes, Value(box.minX), Value(box.minY))
  {
    var box := Fold(planes);
    NotVoidFeasible(planes);
    FoldAll(planes);
    LesserIsLess(box.maxX, box.minX);
    LesserIsLess(box.maxY, box.minY);
    InRegionByBounds(planes, Value(box.minX), Value(box.minY));
  }

  /** With bounds in range, a bound value other than the placeholder is
      within the coordinate range. */
  lemma SideValue(planes: seq<HalfPlane>, side: Side, r: Rational)
    requires AllAxisParallel(planes) && Small(planes) && SideFacts(planes, side, r)
    ensures r == Get(Start, side) ==> Value(r) == if Upper(side) then Placeholder as real else -Placeholder as real
    ensures r != Get(Start, side) ==> -MaxCoord as real <= Value(r) <= MaxCoord as real
    ensures r != Get(Start, side) ==> -MaxCoord <= r.num <= MaxCoord
  {
    if r != Get(Start, side) {
      var k :| 0 <= k < |planes| && Bounding(planes[k], side) && r == Bound(planes[k]);
      BoundValue(planes[k]);
      SmallBound(planes[k]);
    }
  }

  /** A point of the intersection lies between the two bounds of each axis
      (unless a placeholder is on that side). */
  lemma PointBetween(planes: seq<HalfPlane>, side: Side, r: Rational, x: real, y: real)
    requires AllAxisParallel(planes) && SideFacts(planes, side, r) && InRegion(planes, x, y)
    requires r != Get(Start, side)
    ensures side == Left ==> Value(r) <= x
    ensures side == Right ==> x <= Value(r)
    ensures side == Down ==> Value(r) <= y
    ensures side == Up ==> y <= Value(r)
  {
    var k :| 0 <= k < |planes| && Bounding(planes[k], side) && r == Bound(planes[k]);
    BoundValue(planes[k]);
    FiledSide(planes[k], x, y);
  }

  /** The lower bound of an axis never exceeds its upper bound when the
      intersection has a point. */
  lemma AxisOrdered(planes: seq<HalfPlane>, lower: Side, upper: Side, lo: Rational, hi: Rational, x: real, y: real)
    requires AllAxisParallel(planes) && Small(planes) && InRegion(planes, x, y)
    requires (lower, upper) == (Left, Right) || (lower, upper) == (Down, Up)
    requires SideFacts(planes, lower, lo) && SideFacts(planes, upper, hi)
    ensures Value(lo) <= Value(hi)
  {
    SideValue(planes, lower, lo);
    SideValue(planes, upper, hi);
    if lo != Get(Start, lower) && hi != Get(Start, upper) {
      PointBetween(planes, lower, lo, x, y);
      PointBetween(planes, upper, hi, x, y);
    }
  }

  /** VOID is answered exactly when no point satisfies every half-plane
      (with every c in the coordinate range). */
  lemma VoidIffEmpty(planes: seq<HalfPlane>)
    requires AllAxisParallel(planes) && Small(planes)
    ensures Classify(Fold(planes)) == Void <==> !exists x: real, y: real :: InRegion(planes, x, y)
  {
    var box := Fold(planes);
    if Classify(box) != Void {
      NotVoidWitness(planes);
    } else if exists x: real, y: real :: InRegion(planes, x, y) {
      var x: real, y: real :| InRegion(planes, x, y);
      InfeasibleEmpty(planes, x, y);
      FoldAll(planes);
      AxisOrdered(planes, Left, Right, box.minX, box.maxX, x, y);
      AxisOrdered(planes, Down, Up, box.minY, box.maxY, x, y);
      LesserIsLess(box.maxX, box.minX);
      LesserIsLess(box.maxY, box.minY);
    }
  }

  /** Some half-plane bounds the side. */
  predicate HasSide(planes: seq<HalfPlane>, side: Side)
  {
    exists k :: 0 <= k < |planes| && Bounding(planes[k], side)
  }

  /** With bounds in range, a bound keeps the placeholder numerator
      exactly when no half-plane bounds its side. */
  lemma PlaceholderIffOpen(planes: seq<HalfPlane>, side: Side, r: Rational)
    requires AllAxisParallel(planes) && Small(planes) && SideFacts(planes, side, r)
    ensures r.num == Get(Start, side).num <==> !HasSide(planes, side)
  {
    SideValue(planes, side, r);
    if HasSide(planes, side) {
      var k :| 0 <= k < |planes| && Bounding(planes[k], side);
      SmallBound(planes[k]);
    }
  }

  /** Past VOID, UNBOUNDED is answered exactly when one of the four sides
      has no half-plane (with every c in the coordinate range). */
  lemma UnboundedIffOpenSide(planes: seq<HalfPlane>)
    requires AllAxisParallel(planes) && Small(planes) && Classify(Fold(planes)) != Void
    ensures Classify(Fold(planes)) == Unbounded <==>
      !HasSide(planes, Left) || !HasSide(planes, Right) || !HasSide(planes, Down) || !HasSide(planes, Up)
  {
    var box := Fold(planes);
    NotVoidFeasible(planes);
    FoldAll(planes);
    PlaceholderIffOpen(planes, Left, box.minX);
    PlaceholderIffOpen(planes, Right, box.maxX);
    PlaceholderIffOpen(planes, Down, box.minY);
    PlaceholderIffOpen(planes, Up, box.maxY);
  }

  /** BOUNDED: every point of the intersection lies in the box of the four
      bounds. */
  lemma BoundedInBox(planes: seq<HalfPlane>, x: real, y: real)
    requires AllAxisParallel(planes) && Small(planes) && Classify(Fold(planes)) == Bounded
    requires InRegion(planes, x, y)
    ensures var box := Fold(planes);
      box.minX.den > 0 && box.maxX.den > 0 && box.minY.den > 0 && box.maxY.den > 0 &&
      Value(box.minX) <= x <= Value(box.maxX) && Value(box.minY) <= y <= Value(box.maxY)
  {
    var box := Fold(planes);
    NotVoidFeasible(planes);
    FoldAll(planes);
    PlaceholderIffOpen(planes, Left, box.minX);
    PlaceholderIffOpen(planes, Right, box.maxX);
    PlaceholderIffOpen(planes, Down, box.minY);
    PlaceholderIffOpen(planes, Up, box.maxY);
    PointBetween(planes, Left, box.minX, x, y);
    PointBetween(planes, Right, box.maxX, x, y);
    PointBetween(planes, Down, box.minY, x, y);
    PointBetween(planes, Up, box.maxY, x, y);
  }

  /** UNBOUNDED: the intersection has points beyond any distance m. */
  lemma UnboundedEscapes(planes: seq<HalfPlane>, m: real)
    requires AllAxisParallel(planes) && Small(planes) && Classify(Fold(planes)) == Unbounded
    ensures exists x: real, y: real :: InRegion(planes, x, y) && (x > m || x < -m || y > m || y < -m)
  {
    var box := Fold(planes);
    UnboundedIffOpenSide(planes);
    NotVoidFeasible(planes);
    FoldAll(planes);
    LesserIsLess(box.maxX, box.minX);
    LesserIsLess(box.maxY, box.minY);
    var x0, y0 := Value(box.minX), Value(box.minY);
    var x1, y1 := Value(box.maxX), Value(box.maxY);
    if !HasSide(planes, Right) {
      var x := if m + 1.0 > x0 then m + 1.0 else x0;
      InRegionByBounds(planes, x, y0);
    } else if !HasSide(planes, Left) {
      var x := if -m - 1.0 < x1 then -m - 1.0 else x1;
      InRegionByBounds(planes, x, y0);
    } else if !HasSide(planes, Up) {
      var y := if m + 1.0 > y0 then m + 1.0 else y0;
      InRegionByBounds(planes, x0, y);
    } else {
      var y := if -m - 1.0 < y1 then -m - 1.0 else y1;
      InRegionByBounds(planes, x0, y);
    }
  }

  /** The bounds only tighten: a round never raises max_x or max_y and never
      lowers min_x or min_y. */
  lemma StepNarrows(box: Box, p: HalfPlane)
    requires AxisParallel(p) && Proper(p)
    requires box.minX.den > 0 && box.maxX.den > 0 && box.minY.den > 0 && box.maxY.den > 0
    ensures var next := Step(box, p);
      next.minX.den > 0 && next.maxX.den > 0 && next.minY.den > 0 && next.maxY.den > 0 &&
      Value(box.minX) <= Value(next.minX) && Value(next.maxX) <= Value(box.maxX) &&
      Value(box.minY) <= Value(next.minY) && Value(next.maxY) <= Value(box.maxY)
  {
    BoundValue(p);
    if p.a > 0 {
      MinMaxValue(box.maxX, Bound(p));
    } else if p.a < 0 {
      MinMaxValue(box.minX, Bound(p));
    } else if p.b > 0 {
      MinMaxValue(box.maxY, Bound(p));
    } else {
      MinMaxValue(box.minY, Bound(p));
    }
  }
}
