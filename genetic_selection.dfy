/** The roulette interval ends of the selection exercise
    (genetic/selection.py): fitness is a quadratic, every fitness value must
    be non-negative, and the ends are 0 followed by the running totals, each
    divided in place by the grand total. */
module SelectionExercise {
  import opened Util
  import opened GeneticEngine

  datatype Coefficients = Coefficients(a: real, b: real, c: real)

  /** polynomial(c, x) = a x^2 + b x + c. */
  function Polynomial(c: Coefficients, x: real): real
  {
    c.a * x * x + c.b * x + c.c
  }

  /** The quadratic is the homework program's polynomial with terms
      (2, a), (1, b), (0, c). */
  lemma PolynomialAsTerms(c: Coefficients, x: real)
    ensures Polynomial(c, x) == Eval([Term(2, c.a), Term(1, c.b), Term(0, c.c)], x)
  {
    var terms := [Term(2, c.a), Term(1, c.b), Term(0, c.c)];
    assert Power(x, 1) == x * Power(x, 0) == x;
    assert Power(x, 2) == x * Power(x, 1) == x * x;
    assert terms[..2][..1] == [Term(2, c.a)];
    assert terms[..2] == [Term(2, c.a), Term(1, c.b)];
    assert Eval([Term(2, c.a)], x) == Eval([], x) + Power(x, 2) * c.a;
    assert Eval(terms[..2], x) == Eval([Term(2, c.a)], x) + Power(x, 1) * c.b;
    assert Eval(terms, x) == Eval(terms[..2], x) + Power(x, 0) * c.c;
  }

  function Fitness(c: Coefficients, chromosomes: seq<real>): (f: seq<real>)
    ensures |f| == |chromosomes|
  {
    seq(|chromosomes|, i requires 0 <= i < |chromosomes| => Polynomial(c, chromosomes[i]))
  }

  /** selection(c, chromosomes). */
  method Selection(c: Coefficients, chromosomes: seq<real>) returns (r: Result<seq<real>>)
    ensures var f := Fitness(c, chromosomes);
      r == Err(AssertionError) <==> exists k :: 0 <= k < |f| && f[k] < 0.0
    ensures var f := Fitness(c, chromosomes);
      r == Err(ZeroDivisionError) <==> (forall k :: 0 <= k < |f| ==> f[k] >= 0.0) && SumR(f) == 0.0
    ensures r.Ok? ==> var f := Fitness(c, chromosomes);
      && SumR(f) > 0.0
      && |r.value| == |chromosomes| + 1
      && (forall k :: 0 <= k <= |chromosomes| ==> r.value[k] == SumR(f[..k]) / SumR(f))
    ensures r.Ok? ==>
      && r.value[0] == 0.0 && r.value[|chromosomes|] == 1.0
      && (forall k :: 0 <= k < |r.value| ==> 0.0 <= r.value[k] <= 1.0)
      && Ascending(r.value)
  {
    var fitness := Fitness(c, chromosomes);
    if exists k :: 0 <= k < |fitness| && fitness[k] < 0.0 {
      return Err(AssertionError);
    }
    SumRNonNegative(fitness);
    var ends := [0.0] + PrefixSums(fitness);
    ghost var totals := ends;
    var total := ends[|ends| - 1];
    RunningTotals(fitness);
    var i := 0;
    while i < |ends|
      invariant 0 <= i <= |ends| == |totals|
      invariant total == SumR(fitness)
      invariant i > 0 ==> total != 0.0
      invariant forall k :: 0 <= k < i ==> total != 0.0 && ends[k] == totals[k] / total
      invariant forall k :: i <= k < |ends| ==> ends[k] == totals[k]
    {
      if total == 0.0 {
        return Err(ZeroDivisionError);
      }
      ends := ends[i := ends[i] / total];
      i := i + 1;
    }
    EndsShape(fitness, ends);
    return Ok(ends);
  }

  /** 0 followed by the running totals: entry k is the sum of the first k values. */
  lemma RunningTotals(f: seq<real>)
    ensures var ends := [0.0] + PrefixSums(f);
      && |ends| == |f| + 1
      && (forall k :: 0 <= k < |ends| ==> ends[k] == SumR(f[..k]))
      && ends[|ends| - 1] == SumR(f)
  {
    var ends := [0.0] + PrefixSums(f);
    forall k | 0 < k < |ends| ensures ends[k] == SumR(f[..k]) {
      PrefixSumAt(f, k - 1);
    }
    assert f[..|f|] == f;
  }

  /** With non-negative values and a positive total, the interval ends start
      at 0, end at 1, lie in [0, 1] and never decrease. */
  lemma EndsShape(f: seq<real>, r: seq<real>)
    requires forall k :: 0 <= k < |f| ==> f[k] >= 0.0
    requires SumR(f) > 0.0 && |r| == |f| + 1
    requires forall k :: 0 <= k <= |f| ==> r[k] == SumR(f[..k]) / SumR(f)
    ensures r[0] == 0.0 && r[|f|] == 1.0
    ensures forall k :: 0 <= k < |r| ==> 0.0 <= r[k] <= 1.0
    ensures Ascending(r)
  {
    var total := SumR(f);
    assert f[..|f|] == f;
    ShareBounds(total, total);
    forall k | 0 <= k < |r| ensures 0.0 <= r[k] <= 1.0 {
      PrefixMonotone(f, 0, k);
      PrefixMonotone(f, k, |f|);
      ShareBounds(SumR(f[..k]), total);
    }
    forall i, j | 0 <= i <= j < |r| ensures r[i] <= r[j] {
      PrefixMonotone(f, i, j);
      ShareOrder(SumR(f[..i]), SumR(f[..j]), total);
    }
  }
}
