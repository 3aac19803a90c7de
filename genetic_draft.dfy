/** The parts of the earlier draft of the genetic program
    (genetic/genetic_polynomial_max.py) that work: validating the
    configuration and the normalised running fitness totals. Its search is
    the same bisection as GeneticEngine.Search. */
module GeneticDraft {
  import opened Util
  import opened GeneticEngine

  /** The settings read from the JSON configuration file. */
  datatype Configuration = Configuration(
    populationSize: int, domainStart: real, domainEnd: real, terms: seq<Term>,
    decimalPrecision: int, crossoverChance: real, mutationChance: real,
    generations: int, randomSeed: int)

  /** Configuration.__post_init__: the assertions, in source order; the first
      that fails is an AssertionError and nothing is constructed. */
  function PostInit(c: Configuration): (r: Result<Configuration>)
    ensures r.Ok? <==>
      && c.populationSize > 0 && c.domainEnd > c.domainStart
      && c.decimalPrecision >= 0
      && 0.0 <= c.crossoverChance <= 1.0 && 0.0 <= c.mutationChance <= 1.0
      && c.generations > 0
    ensures r.Ok? ==> r.value == c
    ensures r.Err? ==> r.error == AssertionError
  {
    if !(c.populationSize > 0) then Err(AssertionError)
    else if !(c.domainEnd > c.domainStart) then Err(AssertionError)
    else if !(c.decimalPrecision >= 0) then Err(AssertionError)
    else if !(1.0 >= c.crossoverChance >= 0.0) then Err(AssertionError)
    else if !(1.0 >= c.mutationChance >= 0.0) then Err(AssertionError)
    else if !(c.generations > 0) then Err(AssertionError)
    else Ok(c)
  }

  /** An accepted configuration describes a domain the discretisation table
      can be built over: for any positive bit count the table is valid and
      ends exactly at the domain's end. */
  lemma AcceptedDomain(c: Configuration, bits: nat)
    requires PostInit(c).Ok? && bits >= 1
    ensures var d := NewDiscretizer(c.domainStart, c.domainEnd, bits);
      ValidDiscretizer(d) && d.steps[|d.steps| - 1] == c.domainEnd
  {
    DiscretizerTable(c.domainStart, c.domainEnd, bits);
  }

  /** select_intervals: min of an empty list is a ValueError; the fitness
      values are shifted up when the least is negative, then turned into
      shares of the total. */
  function SelectIntervals(terms: seq<Term>, population: seq<Chromosome>): Result<seq<real>>
  {
    if |population| == 0 then Err(ValueError)
    else Shares(ShiftUp(Fitnesses(terms, population)))
  }

  /** The running totals of f divided by the grand total (the last running
      total); a ZeroDivisionError when that total is 0. */
  function Shares(f: seq<real>): Result<seq<real>>
    requires |f| > 0
  {
    var steps := PrefixSums(f);
    var total := steps[|steps| - 1];
    if total == 0.0 then Err(ZeroDivisionError)
    else Ok(seq(|steps|, i requires 0 <= i < |steps| => steps[i] / total))
  }

  /** For non-negative values: entry k is the share of the total held by
      values 0..k, so the entries lie in [0, 1], never decrease and the last
      is 1; the division fails exactly when every value is 0. */
  lemma SharesSpec(f: seq<real>)
    requires |f| > 0
    requires forall i :: 0 <= i < |f| ==> f[i] >= 0.0
    ensures Shares(f).Err? <==> forall i :: 0 <= i < |f| ==> f[i] == 0.0
    ensures Shares(f).Err? ==> Shares(f).error == ZeroDivisionError
    ensures Shares(f).Ok? ==>
      var r := Shares(f).value;
      && SumR(f) > 0.0
      && |r| == |f|
      && (forall k :: 0 <= k < |r| ==> r[k] == SumR(f[..k + 1]) / SumR(f))
      && (forall k :: 0 <= k < |r| ==> 0.0 <= r[k] <= 1.0)
      && Ascending(r)
      && r[|r| - 1] == 1.0
  {
    SumRNonNegative(f);
    if forall i :: 0 <= i < |f| ==> f[i] == 0.0 {
      SumRZero(f);
    }
    PrefixSumsLast(f);
    if SumR(f) != 0.0 {
      SharesValues(f);
    }
  }

  lemma SharesValues(f: seq<real>)
    requires |f| > 0 && SumR(f) > 0.0
    requires forall i :: 0 <= i < |f| ==> f[i] >= 0.0
    ensures Shares(f).Ok?
    ensures var r := Shares(f).value;
      && |r| == |f|
      && (forall k :: 0 <= k < |r| ==> r[k] == SumR(f[..k + 1]) / SumR(f))
      && (forall k :: 0 <= k < |r| ==> 0.0 <= r[k] <= 1.0)
      && Ascending(r)
      && r[|r| - 1] == 1.0
  {
    var steps := PrefixSums(f);
    var total := SumR(f);
    PrefixSumsAscending(f);
    var r := Shares(f).value;
    assert r == seq(|steps|, i requires 0 <= i < |steps| => steps[i] / total);
    assert steps[0] == f[0] by {
      PrefixSumAt(f, 0);
      assert f[..1] == [] + [f[0]];
    }
    forall k | 0 <= k < |r| ensures r[k] == SumR(f[..k + 1]) / total {
      PrefixSumAt(f, k);
    }
    forall k | 0 <= k < |r| ensures 0.0 <= r[k] <= 1.0 {
      ShareBounds(steps[k], total);
    }
    forall i, j | 0 <= i <= j < |r| ensures r[i] <= r[j] {
      ShareOrder(steps[i], steps[j], total);
    }
    PrefixSumsLast(f);
    ShareBounds(total, total);
    assert r[|r| - 1] == total / total;
  }

  /** select_intervals on a non-empty population: the shifted values are
      non-negative and their shares are the result (see SharesSpec); an empty
      population is a ValueError. */
  lemma SelectIntervalsSpec(terms: seq<Term>, population: seq<Chromosome>)
    ensures |population| == 0 ==> SelectIntervals(terms, population) == Err(ValueError)
    ensures |population| > 0 ==>
      var shifted := ShiftUp(Fitnesses(terms, population));
      && (forall i :: 0 <= i < |shifted| ==> shifted[i] >= 0.0)
      && SelectIntervals(terms, population) == Shares(shifted)
  {
    if |population| > 0 {
      ShiftUpNonNegative(Fitnesses(terms, population));
      SharesSpec(ShiftUp(Fitnesses(terms, population)));
    }
  }
}
