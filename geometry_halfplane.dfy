/** Half-planes a x + b y <= -c, as read by the two half-plane programs
    of geometry/, and the side of the plane their border bounds when it is
    horizontal or vertical. */
module HalfPlanes {
  /** The half-plane a x + b y <= -c. */
  datatype HalfPlane = HalfPlane(a: int, b: int, c: int)

  /** The list (or bound variable) a half-plane goes to. */
  datatype Side = Left | Right | Down | Up

  /** The border is horizontal or vertical (the input the program accepts). */
  predicate AxisParallel(p: HalfPlane)
  {
    p.a == 0 || p.b == 0
  }

  /** Not both coefficients zero: the bound is a finite number. */
  predicate Proper(p: HalfPlane)
  {
    p.a != 0 || p.b != 0
  }

  /** The list a half-plane is filed in, by the signs of a and b. */
  function SideOf(p: HalfPlane): Side
  {
    if p.a > 0 then Right
    else if p.a < 0 then Left
    else if p.b > 0 then Up
    else Down
  }

  /** -c / a, or -c / b when a is 0. */
  function BoundOf(p: HalfPlane): real
    requires Proper(p)
  {
    if p.a != 0 then (-p.c) as real / p.a as real else (-p.c) as real / p.b as real
  }

  predicate Contains(p: HalfPlane, x: real, y: real)
  {
    p.a as real * x + p.b as real * y <= (-p.c) as real
  }

  /** Filing is sound: an axis-parallel half-plane is exactly the points on
      the side of its bound its list says. */
  lemma FiledSide(p: HalfPlane, x: real, y: real)
    requires AxisParallel(p) && Proper(p)
    ensures SideOf(p) == Right ==> (Contains(p, x, y) <==> x <= BoundOf(p))
    ensures SideOf(p) == Left ==> (Contains(p, x, y) <==> BoundOf(p) <= x)
    ensures SideOf(p) == Up ==> (Contains(p, x, y) <==> y <= BoundOf(p))
    ensures SideOf(p) == Down ==> (Contains(p, x, y) <==> BoundOf(p) <= y)
  {
    var a, b, c := p.a as real, p.b as real, (-p.c) as real;
    if p.a != 0 {
      assert b * y == 0.0;
      DivideSide(a, x, c);
    } else {
      assert a * x == 0.0;
      DivideSide(b, y, c);
    }
  }

  lemma DivideSide(a: real, x: real, c: real)
    requires a != 0.0
    ensures a > 0.0 ==> (a * x <= c <==> x <= c / a)
    ensures a < 0.0 ==> (a * x <= c <==> c / a <= x)
  {
    assert a * (c / a) == c;
    if a > 0.0 {
      if x <= c / a {
        assert a * x <= a * (c / a);
      }
      if a * x <= c {
        assert a * x <= a * (c / a);
      }
    } else {
      if c / a <= x {
        assert a * x <= a * (c / a);
      }
      if a * x <= c {
        assert a * x <= a * (c / a);
      }
    }
  }
}
