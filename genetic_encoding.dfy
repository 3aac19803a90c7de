/** The encoding exercise (genetic/encoding.py): [a, b) is cut into 2^bits
    equal intervals; TO prints the index of the interval holding a number as
    bits binary digits, FROM reads such digits and prints the start of that
    interval. The bit count is a parameter here (the source derives it with
    log2 and ceil). */
module IntervalEncoding {
  import opened BinaryCodes
  import opened Util

  datatype Interval = Interval(start: real, end: real)

  /** The intervals (a + i d, a + (i + 1) d) for i < 2^bits, d = (b - a) / 2^bits. */
  function Intervals(a: real, b: real, bits: nat): seq<Interval>
  {
    var d := (b - a) / (Pow2(bits) as real);
    seq(Pow2(bits), i requires 0 <= i => Cell(a, d, i))
  }

  /** Interval i of a table starting at a with step d. */
  function Cell(a: real, d: real, i: nat): Interval
  {
    Interval(a + (i as real) * d, a + ((i + 1) as real) * d)
  }

  /** Each interval is non-empty or a point, and none reaches past the start of a later one. */
  predicate Ordered(t: seq<Interval>)
  {
    && (forall i :: 0 <= i < |t| ==> t[i].start <= t[i].end)
    && (forall i, j :: 0 <= i < j < |t| ==> t[i].end <= t[j].start)
  }

  /** The first interval from i on that ends beyond elem, or the last one. */
  function IntervalIndex(elem: real, t: seq<Interval>, i: nat): (m: nat)
    requires i < |t|
    ensures i <= m < |t|
    ensures forall j :: i <= j < m ==> t[j].end <= elem
    ensures m < |t| - 1 ==> elem < t[m].end
    decreases |t| - i
  {
    if i == |t| - 1 || elem < t[i].end then i else IntervalIndex(elem, t, i + 1)
  }

  /** search(elem, intervals): bisection that stops early on an interval
      holding elem; on an ordered table it finds IntervalIndex, and an empty
      table gives 0. */
  method Search(elem: real, intervals: seq<Interval>) returns (m: nat)
    requires Ordered(intervals)
    ensures |intervals| == 0 ==> m == 0
    ensures |intervals| > 0 ==> m == IntervalIndex(elem, intervals, 0)
  {
    if |intervals| == 0 {
      return 0;
    }
    var l, r := 0, |intervals| - 1;
    while l < r
      invariant 0 <= l <= r < |intervals|
      invariant forall i :: 0 <= i < l ==> intervals[i].end <= elem
      invariant r < |intervals| - 1 ==> elem < intervals[r].end
    {
      m := (l + r) / 2;
      if elem < intervals[m].start {
        r := m;
      } else if elem >= intervals[m].end {
        l := m + 1;
      } else {
        return m;
      }
    }
    return l;
  }

  /** The table over a < b: 2^bits ordered intervals, each ending where the
      next starts, from a to exactly b. */
  lemma TableShape(a: real, b: real, bits: nat)
    requires a < b
    ensures var t := Intervals(a, b, bits);
      && |t| == Pow2(bits)
      && Ordered(t)
      && t[0].start == a && t[|t| - 1].end == b
      && (forall i :: 0 <= i < |t| - 1 ==> t[i].end == t[i + 1].start)
      && (forall i :: 0 <= i < |t| ==> t[i].start < t[i].end)
  {
    var d := TableStep(a, b, bits);
    EvenlySpaced(Intervals(a, b, bits), a, d);
    TableEnd(a, b, bits);
  }

  /** Intervals (a + i d, a + (i + 1) d) with d > 0 are ordered, non-empty and
      each ends where the next starts. */
  lemma EvenlySpaced(t: seq<Interval>, a: real, d: real)
    requires d > 0.0
    requires forall i :: 0 <= i < |t| ==> t[i] == Cell(a, d, i)
    ensures Ordered(t)
    ensures forall i :: 0 <= i < |t| - 1 ==> t[i].end == t[i + 1].start
    ensures forall i :: 0 <= i < |t| ==> t[i].start < t[i].end
  {
    forall i | 0 <= i < |t| ensures t[i].start < t[i].end {
      CellBounds(a, d, i, i + 1);
    }
    forall i, j | 0 <= i < j < |t| ensures t[i].end <= t[j].start {
      CellBounds(a, d, i, j);
    }
  }

  lemma CellBounds(a: real, d: real, i: nat, j: nat)
    requires d > 0.0 && i < j
    ensures Cell(a, d, i).start < Cell(a, d, i).end
    ensures Cell(a, d, i).end == Cell(a, d, i + 1).start
    ensures Cell(a, d, i).end <= Cell(a, d, j).start
  {
    ScaleMonotone((i + 1) as real, j as real, d);
    assert (i as real) * d + d == ((i + 1) as real) * d;
  }

  /** Scaling by a positive step keeps the order. */
  lemma ScaleMonotone(x: real, y: real, d: real)
    requires x <= y && d > 0.0
    ensures x * d <= y * d
  {
  }

  /** The step is positive and interval i is (a + i d, a + (i + 1) d). */
  lemma TableStep(a: real, b: real, bits: nat) returns (d: real)
    requires a < b
    ensures d == (b - a) / (Pow2(bits) as real) && d > 0.0
    ensures var t := Intervals(a, b, bits);
      && |t| == Pow2(bits)
      && forall i :: 0 <= i < |t| ==> t[i] == Cell(a, d, i)
  {
    d := (b - a) / (Pow2(bits) as real);
  }

  /** The last interval ends exactly at b. */
  lemma TableEnd(a: real, b: real, bits: nat)
    ensures var t := Intervals(a, b, bits);
      t[|t| - 1].end == b
  {
    var p := Pow2(bits) as real;
    var d := (b - a) / p;
    assert d * p == b - a;
  }

  /** Every x in [a, b) lies in the interval the search finds; numbers below
      a map to interval 0 and numbers from b on to the last interval. */
  lemma IndexContains(a: real, b: real, bits: nat, x: real)
    requires a < b
    ensures var t := Intervals(a, b, bits);
      var m := IntervalIndex(x, t, 0);
      && (a <= x < b ==> t[m].start <= x < t[m].end)
      && (x < a ==> m == 0)
      && (x >= b ==> m == |t| - 1)
  {
    TableShape(a, b, bits);
    var t := Intervals(a, b, bits);
    var m := IntervalIndex(x, t, 0);
    if m > 0 {
      assert t[m - 1].end == t[m].start;
      assert t[0].end <= t[m].start;
    }
    if m < |t| - 1 {
      assert t[m].end <= t[|t| - 1].start <= t[|t| - 1].end;
    }
  }

  /** The start of interval i is found in interval i. */
  lemma IndexOfStart(a: real, b: real, bits: nat, i: nat)
    requires a < b && i < Pow2(bits)
    ensures var t := Intervals(a, b, bits);
      IntervalIndex(t[i].start, t, 0) == i
  {
    TableShape(a, b, bits);
    var t := Intervals(a, b, bits);
  }

  datatype Command = To(nr: real) | From(digits: string) | Unknown(text: string)

  datatype Output = Code(digits: string) | Start(value: real)

  datatype Failure = ValueError | IndexError | InvalidCommand

  datatype Result<T> = Ok(value: T) | Err(error: Failure)

  /** What one query prints: TO the index as bits binary digits, FROM the
      start of the interval whose index int(digits, 2) reads (a ValueError
      for text it does not accept; a negative index counts from the end of
      the table, and one outside the table is an IndexError); any other
      command raises. */
  function Respond(t: seq<Interval>, bits: nat, c: Command): Result<Output>
    requires |t| > 0
  {
    match c
    case To(nr) => Ok(Code(PadBinary(IntervalIndex(nr, t, 0), bits)))
    case From(digits) =>
      (match IntBase2(digits)
       case None => Err(ValueError)
       case Some(index) =>
         if PyIndex(index, |t|) then Ok(Start(t[PyPosition(index, |t|)].start)) else Err(IndexError))
    case Unknown(_) => Err(InvalidCommand)
  }

  /** One query of the main loop, searching with the bisection. */
  method Answer(t: seq<Interval>, bits: nat, c: Command) returns (r: Result<Output>)
    requires |t| > 0 && Ordered(t)
    ensures r == Respond(t, bits, c)
  {
    match c {
      case To(nr) =>
        var index := Search(nr, t);
        r := Ok(Code(PadBinary(index, bits)));
      case From(digits) =>
        var index := IntBase2(digits);
        if index.None? {
          r := Err(ValueError);
        } else if -|t| <= index.value < |t| {
          var p := if index.value < 0 then index.value + |t| else index.value;
          r := Ok(Start(t[p].start));
        } else {
          r := Err(IndexError);
        }
      case Unknown(_) =>
        r := Err(InvalidCommand);
    }
  }

  /** TO prints exactly bits binary digits, and they spell the index of the
      interval the number falls in. */
  lemma ToDigits(a: real, b: real, bits: nat, x: real)
    requires a < b && bits >= 1
    ensures var t := Intervals(a, b, bits);
      var m := IntervalIndex(x, t, 0);
      && Respond(t, bits, To(x)) == Ok(Code(PadBinary(m, bits)))
      && |PadBinary(m, bits)| == bits && IsBinary(PadBinary(m, bits))
      && Value(PadBinary(m, bits)) == m
  {
    TableShape(a, b, bits);
    PadBinaryRoundTrip(IntervalIndex(x, Intervals(a, b, bits), 0), bits);
  }

  /** Round trip: for any code of bits binary digits, FROM prints a number
      for which TO prints the same code back. */
  lemma FromThenTo(a: real, b: real, bits: nat, code: string)
    requires a < b && bits >= 1 && |code| == bits && IsBinary(code)
    ensures var t := Intervals(a, b, bits);
      && Respond(t, bits, From(code)).Ok?
      && Respond(t, bits, From(code)).value.Start?
      && Respond(t, bits, To(Respond(t, bits, From(code)).value.value)) == Ok(Code(code))
  {
    TableShape(a, b, bits);
    var t := Intervals(a, b, bits);
    ValueBound(code);
    var i := Value(code);
    IntBase2Binary(code);
    IndexOfStart(a, b, bits, i);
    ValueRoundTrip(code);
  }

  /** FROM with a minus sign counts from the end of the table: -k names the
      k-th interval from the end, and anything below -len(table) raises. */
  lemma FromNegative(t: seq<Interval>, bits: nat, code: string)
    requires |t| > 0 && code != [] && IsBinary(code)
    ensures var k, r := Value(code), Respond(t, bits, From("-" + code));
      && (0 < k <= |t| ==> r.Ok? && r.value == Start(t[|t| - k].start))
      && (k > |t| ==> r.Err? && r.error == IndexError)
  {
    var k, n := Value(code), |t|;
    IntBase2Negative(code);
    RespondFrom(t, bits, "-" + code, -(k as int));
    if 0 < k <= n {
      assert PyIndex(-(k as int), n) && PyPosition(-(k as int), n) == n - k;
    } else if k > n {
      assert !PyIndex(-(k as int), n);
    }
  }

  /** FROM on text int() reads picks the interval the index names. */
  lemma RespondFrom(t: seq<Interval>, bits: nat, digits: string, i: int)
    requires |t| > 0 && IntBase2(digits).Some? && IntBase2(digits).value == i
    ensures var r := Respond(t, bits, From(digits));
      && (PyIndex(i, |t|) ==> r.Ok? && r.value == Start(t[PyPosition(i, |t|)].start))
      && (!PyIndex(i, |t|) ==> r.Err? && r.error == IndexError)
  {
  }
}
