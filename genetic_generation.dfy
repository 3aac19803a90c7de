/** One generation of the homework genetic algorithm and the run of all
    generations (the loop in main of genetic/homework/genetic_polynomial_max.py):
    roulette selection, crossover of randomly paired candidates, mutation of
    every selected chromosome and, optionally, an unchanged copy of the best. */
module GeneticGeneration {
  import opened Util
  import opened BinaryCodes
  import opened GeneticEngine

  // ---------------------------------------------------------------------
  // select_chromosomes
  // ---------------------------------------------------------------------

  /** A draw the roulette can turn into an index of the population. */
  predicate Selectable(u: real, cumulative: seq<real>, size: nat)
  {
    |cumulative| > 0 && u <= cumulative[|cumulative| - 1] && LeastAtLeast(u, cumulative) < size
  }

  /** select_chromosomes with one draw per selected chromosome: the k-th pick is
      population[search(draws[k], cumulative)]; it fails as soon as a search
      fails or finds an index past the population. */
  method SelectChromosomes(population: seq<Chromosome>, cumulative: seq<real>, draws: seq<real>)
    returns (r: Result<seq<Chromosome>>)
    requires Ascending(cumulative)
    ensures r.Ok? <==> forall k :: 0 <= k < |draws| ==> Selectable(draws[k], cumulative, |population|)
    ensures r.Ok? ==> |r.value| == |draws|
    ensures r.Ok? ==> forall k :: 0 <= k < |draws| ==>
      r.value[k] == population[LeastAtLeast(draws[k], cumulative)]
  {
    var selected: seq<Chromosome> := [];
    var k := 0;
    while k < |draws|
      invariant 0 <= k <= |draws|
      invariant forall j :: 0 <= j < k ==> Selectable(draws[j], cumulative, |population|)
      invariant |selected| == k
      invariant forall j :: 0 <= j < k ==> selected[j] == population[LeastAtLeast(draws[j], cumulative)]
    {
      var chosen := Search(draws[k], cumulative);
      if chosen.Err? {
        return Err(chosen.error);
      }
      if chosen.value >= |population| {
        return Err(IndexError);
      }
      selected := selected + [population[chosen.value]];
      k := k + 1;
    }
    return Ok(selected);
  }

  // ---------------------------------------------------------------------
  // Choosing the crossover pairs
  // ---------------------------------------------------------------------

  /** The indices whose crossover draw is at most the chance, in increasing order. */
  function Eligible(us: seq<real>, chance: real): seq<nat>
  {
    if us == [] then []
    else
      var front := Eligible(us[..|us| - 1], chance);
      if us[|us| - 1] <= chance then front + [|us| - 1] else front
  }

  /** Eligible lists, in increasing order, exactly the indices whose draw is at most the chance. */
  lemma {:induction false} EligibleSpec(us: seq<real>, chance: real)
    ensures forall k :: 0 <= k < |Eligible(us, chance)| ==>
      Eligible(us, chance)[k] < |us| && us[Eligible(us, chance)[k]] <= chance
    ensures forall i :: 0 <= i < |us| && us[i] <= chance ==> i in Eligible(us, chance)
    ensures forall i, j :: 0 <= i < j < |Eligible(us, chance)| ==> Eligible(us, chance)[i] < Eligible(us, chance)[j]
    ensures |Eligible(us, chance)| <= |us|
  {
    if us != [] {
      var front := us[..|us| - 1];
      EligibleSpec(front, chance);
      var e := Eligible(us, chance);
      var f := Eligible(front, chance);
      forall i | 0 <= i < |us| && us[i] <= chance ensures i in e {
        if i < |us| - 1 {
          assert front[i] == us[i];
          assert i in f;
        } else {
          assert e == f + [i];
        }
      }
    }
  }

  /** rng.shuffle stands for some permutation of its argument. */
  ghost predicate Permutes(shuffle: seq<nat> -> seq<nat>)
  {
    forall s: seq<nat> {:trigger shuffle(s)} :: multiset(shuffle(s)) == multiset(s)
  }

  /** The shuffled candidates, with the last dropped when their number is odd. */
  function Candidates(us: seq<real>, chance: real, shuffle: seq<nat> -> seq<nat>): seq<nat>
  {
    var shuffled := shuffle(Eligible(us, chance));
    if |shuffled| % 2 == 1 then shuffled[..|shuffled| - 1] else shuffled
  }

  /** Consecutive candidates form the pairs (c[0], c[1]), (c[2], c[3]), ... */
  function PairUp(c: seq<nat>): (pairs: seq<(nat, nat)>)
    ensures |pairs| == |c| / 2
  {
    seq(|c| / 2, i requires 0 <= i < |c| / 2 => (c[2 * i], c[2 * i + 1]))
  }

  /** No index occurs in two places of the pair list. */
  predicate PairsDisjoint(pairs: seq<(nat, nat)>)
  {
    && (forall i, j :: 0 <= i < |pairs| && 0 <= j < |pairs| ==> pairs[i].0 != pairs[j].1)
    && (forall i, j :: 0 <= i < j < |pairs| ==> pairs[i].0 != pairs[j].0 && pairs[i].1 != pairs[j].1)
  }

  /** The candidates are an even number of distinct indices, every one with a
      draw at most the chance, and all but at most one of the eligible indices. */
  lemma CandidatesSpec(us: seq<real>, chance: real, shuffle: seq<nat> -> seq<nat>)
    requires Permutes(shuffle)
    ensures |Candidates(us, chance, shuffle)| % 2 == 0
    ensures |Candidates(us, chance, shuffle)| == |Eligible(us, chance)| - |Eligible(us, chance)| % 2
    ensures Distinct(Candidates(us, chance, shuffle))
    ensures forall k :: 0 <= k < |Candidates(us, chance, shuffle)| ==>
      Candidates(us, chance, shuffle)[k] < |us| && us[Candidates(us, chance, shuffle)[k]] <= chance
  {
    var e := Eligible(us, chance);
    EligibleSpec(us, chance);
    var shuffled := shuffle(e);
    DistinctPermutation(e, shuffled);
    PermutedIndices(e, shuffled, us, chance);
    EvenPrefix(shuffled, us, chance);
  }

  /** Dropping the last element of an odd-length list keeps the list's properties. */
  lemma EvenPrefix(t: seq<nat>, us: seq<real>, chance: real)
    requires Distinct(t)
    requires forall k :: 0 <= k < |t| ==> t[k] < |us| && us[t[k]] <= chance
    ensures var c := if |t| % 2 == 1 then t[..|t| - 1] else t;
      |c| % 2 == 0 && |c| == |t| - |t| % 2 && Distinct(c) &&
      forall k :: 0 <= k < |c| ==> c[k] < |us| && us[c[k]] <= chance
  {
  }

  /** A permutation of indices that all have some property has the same length and the property. */
  lemma PermutedIndices(e: seq<nat>, t: seq<nat>, us: seq<real>, chance: real)
    requires multiset(t) == multiset(e)
    requires forall k :: 0 <= k < |e| ==> e[k] < |us| && us[e[k]] <= chance
    ensures |t| == |e|
    ensures forall k :: 0 <= k < |t| ==> t[k] < |us| && us[t[k]] <= chance
  {
    assert |t| == |multiset(t)| == |multiset(e)| == |e|;
    forall k | 0 <= k < |t| ensures t[k] < |us| && us[t[k]] <= chance {
      assert t[k] in multiset(e);
      var m :| 0 <= m < |e| && e[m] == t[k];
    }
  }

  /** Pairing up distinct indices puts every index in at most one pair. */
  lemma PairUpDisjoint(c: seq<nat>)
    requires Distinct(c) && |c| % 2 == 0
    ensures PairsDisjoint(PairUp(c))
    ensures forall i :: 0 <= i < |c| / 2 ==> PairUp(c)[i] == (c[2 * i], c[2 * i + 1])
  {
  }

  /** to_crossover: the indices whose draw is at most the chance, collected
      one draw per selected chromosome, shuffled, the last dropped when their
      number is odd. */
  method CrossoverCandidates(us: seq<real>, chance: real, shuffle: seq<nat> -> seq<nat>) returns (toCrossover: seq<nat>)
    ensures toCrossover == Candidates(us, chance, shuffle)
  {
    toCrossover := [];
    var index := 0;
    while index < |us|
      invariant 0 <= index <= |us|
      invariant toCrossover == Eligible(us[..index], chance)
    {
      assert us[..index + 1][..index] == us[..index];
      if us[index] <= chance {
        toCrossover := toCrossover + [index];
      }
      index := index + 1;
    }
    assert us[..|us|] == us;
    toCrossover := shuffle(toCrossover);
    if |toCrossover| % 2 == 1 {
      toCrossover := toCrossover[..|toCrossover| - 1];
    }
  }

  // ---------------------------------------------------------------------
  // Crossing the pairs in place
  // ---------------------------------------------------------------------

  /** The two children of crossing a and b at cut; a failed crossover (which
      never happens to well-formed parents) leaves the parents in place. */
  function Children(a: Chromosome, b: Chromosome, cut: nat, d: Discretizer): (Chromosome, Chromosome)
  {
    if |a.encoded| == |b.encoded| && cut <= |a.encoded| && Crossover(a, b, cut, d).Ok? then
      var t := Crossover(a, b, cut, d).value;
      (t.0, t.1)
    else (a, b)
  }

  predicate AllWellFormed(d: Discretizer, s: seq<Chromosome>)
  {
    forall k :: 0 <= k < |s| ==> WellFormed(d, s[k])
  }

  /** After the first n pairs are crossed: each of those pairs holds the
      children of its two selected parents, and every index outside them still
      holds its selected element. */
  ghost predicate CrossedUpTo<T>(crossed: seq<T>, selected: seq<T>, candidates: seq<nat>,
                                 cuts: seq<nat>, cross: (T, T, nat) -> (T, T), n: nat)
    requires 2 * n <= |candidates| && n <= |cuts|
    requires forall k :: 0 <= k < |candidates| ==> candidates[k] < |selected|
  {
    && |crossed| == |selected|
    && (forall k :: 0 <= k < |selected| && (forall m :: 0 <= m < 2 * n ==> candidates[m] != k) ==> crossed[k] == selected[k])
    && (forall j :: 0 <= j < n ==>
         && crossed[candidates[2 * j]] == cross(selected[candidates[2 * j]], selected[candidates[2 * j + 1]], cuts[j]).0
         && crossed[candidates[2 * j + 1]] == cross(selected[candidates[2 * j]], selected[candidates[2 * j + 1]], cuts[j]).1)
  }

  /** The pair loop of the generation step: selected[x], selected[y] are
      replaced by the children of crossing them, pair after pair, the j-th pair
      cut at cuts[j]. As the candidates are distinct, every pair is crossed
      from the elements as selected, and an index in no pair keeps its element. */
  method CrossPairs<T>(selected: seq<T>, candidates: seq<nat>, cuts: seq<nat>, cross: (T, T, nat) -> (T, T))
    returns (crossed: seq<T>, pairs: seq<(nat, nat)>)
    requires Distinct(candidates) && |candidates| % 2 == 0
    requires forall k :: 0 <= k < |candidates| ==> candidates[k] < |selected|
    requires |cuts| >= |candidates| / 2
    ensures pairs == PairUp(candidates)
    ensures |crossed| == |selected|
    ensures forall k :: 0 <= k < |selected| && k !in candidates ==> crossed[k] == selected[k]
    ensures forall j :: 0 <= j < |pairs| ==>
      && crossed[pairs[j].0] == cross(selected[pairs[j].0], selected[pairs[j].1], cuts[j]).0
      && crossed[pairs[j].1] == cross(selected[pairs[j].0], selected[pairs[j].1], cuts[j]).1
  {
    crossed, pairs := selected, [];
    ghost var half := |candidates| / 2;
    assert 2 * half == |candidates|;
    var j := 0;
    while 2 * j < |candidates|
      invariant 0 <= j <= half
      invariant pairs == PairUp(candidates)[..j]
      invariant CrossedUpTo(crossed, selected, candidates, cuts, cross, j)
    {
      var x, y := candidates[2 * j], candidates[2 * j + 1];
      CrossStep(crossed, selected, candidates, cuts, cross, j);
      var children := cross(crossed[x], crossed[y], cuts[j]);
      crossed := crossed[x := children.0][y := children.1];
      pairs := pairs + [(x, y)];
      j := j + 1;
    }
    assert pairs == PairUp(candidates);
    forall k | 0 <= k < |selected| && k !in candidates ensures crossed[k] == selected[k] {
      assert forall m :: 0 <= m < 2 * j ==> candidates[m] != k;
    }
  }

  /** Crossing pair j leaves the earlier pairs alone: its two indices still
      hold their selected elements, and afterwards the first j + 1 pairs are crossed. */
  lemma CrossStep<T>(crossed: seq<T>, selected: seq<T>, candidates: seq<nat>,
                     cuts: seq<nat>, cross: (T, T, nat) -> (T, T), j: nat)
    requires Distinct(candidates) && 2 * j + 1 < |candidates| && j < |cuts|
    requires forall k :: 0 <= k < |candidates| ==> candidates[k] < |selected|
    requires CrossedUpTo(crossed, selected, candidates, cuts, cross, j)
    ensures crossed[candidates[2 * j]] == selected[candidates[2 * j]]
    ensures crossed[candidates[2 * j + 1]] == selected[candidates[2 * j + 1]]
    ensures var x, y := candidates[2 * j], candidates[2 * j + 1];
      var children := cross(selected[x], selected[y], cuts[j]);
      CrossedUpTo(crossed[x := children.0][y := children.1], selected, candidates, cuts, cross, j + 1)
  {
    var x, y := candidates[2 * j], candidates[2 * j + 1];
    assert forall m :: 0 <= m < 2 * j ==> candidates[m] != x && candidates[m] != y;
  }

  /** Crossing well-formed parents at a cut within the code gives the children of Crossover, both well-formed. */
  lemma ChildrenSpec(a: Chromosome, b: Chromosome, cut: nat, d: Discretizer)
    requires ValidDiscretizer(d) && WellFormed(d, a) && WellFormed(d, b) && cut <= d.bits
    ensures Crossover(a, b, cut, d).Ok?
    ensures Children(a, b, cut, d).0 == Crossover(a, b, cut, d).value.0
    ensures Children(a, b, cut, d).1 == Crossover(a, b, cut, d).value.1
    ensures WellFormed(d, Children(a, b, cut, d).0) && WellFormed(d, Children(a, b, cut, d).1)
  {
    CrossoverSpec(a, b, cut, d);
  }

  // ---------------------------------------------------------------------
  // Mutation of every selected chromosome
  // ---------------------------------------------------------------------

  /** [mutate(c, chance, rng, d) for c in selected], the k-th chromosome using
      the draws draws[k]; the first failing mutation is the result. */
  function MutateAll(selected: seq<Chromosome>, chance: real, draws: seq<seq<real>>, d: Discretizer): Result<seq<Chromosome>>
    requires |draws| == |selected|
    requires forall k :: 0 <= k < |selected| ==> |draws[k]| == |selected[k].encoded|
  {
    if selected == [] then Ok([])
    else
      var n := |selected| - 1;
      match MutateAll(selected[..n], chance, draws[..n], d)
      case Err(e) => Err(e)
      case Ok(front) =>
        match Mutate(selected[n], chance, draws[n], d)
        case Err(e) => Err(e)
        case Ok(c) => Ok(front + [c])
  }

  /** Mutating well-formed chromosomes succeeds, position by position, and keeps them well-formed. */
  lemma {:induction false} MutateAllSpec(selected: seq<Chromosome>, chance: real, draws: seq<seq<real>>, d: Discretizer)
    requires ValidDiscretizer(d) && AllWellFormed(d, selected)
    requires |draws| == |selected|
    requires forall k :: 0 <= k < |selected| ==> |draws[k]| == |selected[k].encoded|
    ensures MutateAll(selected, chance, draws, d).Ok?
    ensures |MutateAll(selected, chance, draws, d).value| == |selected|
    ensures forall k :: 0 <= k < |selected| ==>
      MutateAll(selected, chance, draws, d).value[k] == Mutated(selected[k], chance, draws[k], d)
    ensures AllWellFormed(d, MutateAll(selected, chance, draws, d).value)
  {
    if selected != [] {
      var n := |selected| - 1;
      MutateAllSpec(selected[..n], chance, draws[..n], d);
      MutateSpec(selected[n], chance, draws[n], d);
      var front := MutateAll(selected[..n], chance, draws[..n], d).value;
      var last := Mutate(selected[n], chance, draws[n], d).value;
      MutateAllLast(selected, chance, draws, d);
      MutatedAppend(selected, chance, draws, d, front, last);
      AppendWellFormed(d, front, last);
    }
  }

  /** MutateAll appends the last chromosome's mutation to the others'. */
  lemma MutateAllLast(selected: seq<Chromosome>, chance: real, draws: seq<seq<real>>, d: Discretizer)
    requires |draws| == |selected| > 0
    requires forall k :: 0 <= k < |selected| ==> |draws[k]| == |selected[k].encoded|
    requires MutateAll(selected[..|selected| - 1], chance, draws[..|selected| - 1], d).Ok?
    requires Mutate(selected[|selected| - 1], chance, draws[|selected| - 1], d).Ok?
    ensures MutateAll(selected, chance, draws, d).Ok?
    ensures MutateAll(selected, chance, draws, d).value ==
      MutateAll(selected[..|selected| - 1], chance, draws[..|selected| - 1], d).value
        + [Mutate(selected[|selected| - 1], chance, draws[|selected| - 1], d).value]
  {
  }

  /** The mutations of all but the last chromosome, then the last one's,
      are the mutations of all of them. */
  lemma MutatedAppend(selected: seq<Chromosome>, chance: real, draws: seq<seq<real>>, d: Discretizer,
                      front: seq<Chromosome>, last: Chromosome)
    requires |selected| > 0 && |draws| == |selected| && |front| == |selected| - 1
    requires forall k :: 0 <= k < |front| ==>
      front[k] == Mutated(selected[..|front|][k], chance, draws[..|front|][k], d)
    requires last == Mutated(selected[|front|], chance, draws[|front|], d)
    ensures forall k :: 0 <= k < |selected| ==> (front + [last])[k] == Mutated(selected[k], chance, draws[k], d)
  {
    var n := |front|;
    forall k | 0 <= k < |selected| ensures (front + [last])[k] == Mutated(selected[k], chance, draws[k], d) {
      if k < n {
        assert selected[..n][k] == selected[k] && draws[..n][k] == draws[k];
        assert (front + [last])[k] == front[k];
      } else {
        assert (front + [last])[k] == last;
      }
    }
  }

  /** The mutation stage on well-formed chromosomes with one draw per bit:
      it succeeds, and the k-th chromosome becomes its own mutation. */
  function MutateStage(selected: seq<Chromosome>, chance: real, draws: seq<seq<real>>, d: Discretizer): (r: seq<Chromosome>)
    requires ValidDiscretizer(d) && AllWellFormed(d, selected)
    requires |draws| == |selected| && forall k :: 0 <= k < |selected| ==> |draws[k]| == d.bits
    ensures |r| == |selected| && AllWellFormed(d, r)
    ensures forall k :: 0 <= k < |selected| ==> r[k] == Mutated(selected[k], chance, draws[k], d)
  {
    MutateAllSpec(selected, chance, draws, d);
    MutateAll(selected, chance, draws, d).value
  }

  /** The chromosome after mutation, or the chromosome itself when mutate would fail. */
  function Mutated(c: Chromosome, chance: real, draws: seq<real>, d: Discretizer): Chromosome
  {
    if |draws| == |c.encoded| && Mutate(c, chance, draws, d).Ok? then Mutate(c, chance, draws, d).value else c
  }

  // ---------------------------------------------------------------------
  // One generation
  // ---------------------------------------------------------------------

  /** max(range(len(f)), key=f.__getitem__): the first index of a maximal value. */
  function FirstArgMax(f: seq<real>): (k: nat)
    requires |f| > 0
    ensures k < |f|
    ensures forall j :: 0 <= j < |f| ==> f[j] <= f[k]
    ensures forall j :: 0 <= j < k ==> f[j] < f[k]
  {
    if |f| == 1 then 0
    else
      var k := FirstArgMax(f[..|f| - 1]);
      if f[|f| - 1] > f[k] then |f| - 1 else k
  }

  /** The draws one generation consumes: one roulette draw and one crossover
      draw per selected chromosome, one cut per crossed pair (randint(0, bits)),
      and one draw per bit of every selected chromosome for mutation. */
  datatype GenerationDraws = GenerationDraws(selection: seq<real>, crossover: seq<real>, cuts: seq<nat>, mutation: seq<seq<real>>)

  /** Draws of rng.random(): every one in [0, 1). */
  predicate UnitDraws(us: seq<real>)
  {
    forall k :: 0 <= k < |us| ==> 0.0 <= us[k] < 1.0
  }

  predicate DrawsFit(g: GenerationDraws, amount: nat, bits: nat)
  {
    && |g.selection| == amount && |g.crossover| == amount && |g.mutation| == amount
    && |g.cuts| >= amount / 2
    && UnitDraws(g.selection)
    && (forall k :: 0 <= k < |g.cuts| ==> g.cuts[k] <= bits)
    && (forall k :: 0 <= k < amount ==> |g.mutation[k]| == bits)
  }

  /** How many chromosomes the roulette selects: one fewer under elitism. */
  function SelectionAmount(size: nat, elitism: bool): nat
  {
    if elitism && size > 0 then size - 1 else size
  }

  /** The chromosome the roulette picks for draw u. */
  function Picked(terms: seq<Term>, population: seq<Chromosome>, u: real): (c: Chromosome)
    requires |population| > 0 && SelectGenData(terms, population).Ok? && 0.0 <= u < 1.0
    ensures c in population
  {
    SelectGenDataSpec(terms, population);
    RouletteTableSpec(ShiftUp(Fitnesses(terms, population)));
    population[LeastAtLeast(u, SelectGenData(terms, population).value.cumulative)]
  }

  /** next is selected after crossover and mutation along the given pairs: an
      index in no pair holds the mutation of its own chromosome, the two
      indices of pair j hold the mutations of the two children of their
      chromosomes crossed at cut j. */
  predicate Bred(next: seq<Chromosome>, selected: seq<Chromosome>, pairs: seq<(nat, nat)>,
                 cuts: seq<nat>, mutation: seq<seq<real>>, chance: real, d: Discretizer)
  {
    && |next| == |selected| && |mutation| == |selected| && |pairs| <= |cuts|
    && (forall j :: 0 <= j < |pairs| ==> pairs[j].0 < |selected| && pairs[j].1 < |selected|)
    && (forall k :: 0 <= k < |selected| && (forall j :: 0 <= j < |pairs| ==> pairs[j].0 != k && pairs[j].1 != k) ==>
          next[k] == Mutated(selected[k], chance, mutation[k], d))
    && (forall j :: 0 <= j < |pairs| ==>
          && next[pairs[j].0] == Mutated(Children(selected[pairs[j].0], selected[pairs[j].1], cuts[j], d).0,
                                         chance, mutation[pairs[j].0], d)
          && next[pairs[j].1] == Mutated(Children(selected[pairs[j].0], selected[pairs[j].1], cuts[j], d).1,
                                         chance, mutation[pairs[j].1], d))
  }

  /** selected holds one roulette pick per draw, in draw order. */
  predicate Spun(selected: seq<Chromosome>, terms: seq<Term>, population: seq<Chromosome>, draws: seq<real>)
    requires |population| > 0 && SelectGenData(terms, population).Ok? && UnitDraws(draws)
  {
    && |selected| == |draws|
    && forall k :: 0 <= k < |draws| ==> selected[k] == Picked(terms, population, draws[k])
  }

  /** The roulette stage: the table of this population, then one pick per
      selection draw. With draws in [0, 1) it fails exactly when the table does. */
  method Roulette(population: seq<Chromosome>, terms: seq<Term>, draws: seq<real>)
    returns (r: Result<seq<Chromosome>>)
    requires |population| > 0
    requires UnitDraws(draws)
    ensures r.Err? <==> SelectGenData(terms, population).Err?
    ensures r.Err? ==> r.error == ZeroDivisionError
    ensures r.Ok? ==> Spun(r.value, terms, population, draws)
    ensures r.Ok? ==> forall k :: 0 <= k < |draws| ==> r.value[k] in population
  {
    var sData := SelectGenData(terms, population);
    SelectGenDataSpec(terms, population);
    RouletteTableSpec(ShiftUp(Fitnesses(terms, population)));
    if sData.Err? {
      return Err(sData.error);
    }
    var cumulative := sData.value.cumulative;
    r := SelectChromosomes(population, cumulative, draws);
    assert r.Ok? by {
      forall k | 0 <= k < |draws| ensures Selectable(draws[k], cumulative, |population|) {
      }
    }
  }

  /** crossed is selected after crossing along the pairs: an index in no pair
      keeps its chromosome, the two indices of pair j hold the two children of
      their chromosomes crossed at cut j. */
  predicate Crossed(crossed: seq<Chromosome>, selected: seq<Chromosome>, pairs: seq<(nat, nat)>,
                    cuts: seq<nat>, d: Discretizer)
  {
    && |crossed| == |selected| && |pairs| <= |cuts|
    && (forall j :: 0 <= j < |pairs| ==> pairs[j].0 < |selected| && pairs[j].1 < |selected|)
    && (forall k :: 0 <= k < |selected| && (forall j :: 0 <= j < |pairs| ==> pairs[j].0 != k && pairs[j].1 != k) ==>
          crossed[k] == selected[k])
    && (forall j :: 0 <= j < |pairs| ==>
          && crossed[pairs[j].0] == Children(selected[pairs[j].0], selected[pairs[j].1], cuts[j], d).0
          && crossed[pairs[j].1] == Children(selected[pairs[j].0], selected[pairs[j].1], cuts[j], d).1)
  }

  /** The crossover stage (one draw per selected chromosome, shuffle, pair
      loop): the pairs are made of the shuffled eligible indices (odd one
      dropped), no index is in two pairs, every paired index had a draw at most
      the chance, and the chromosomes are crossed along the pairs. */
  method CrossoverStage(selected: seq<Chromosome>, d: Discretizer, chance: real, us: seq<real>,
                        cuts: seq<nat>, shuffle: seq<nat> -> seq<nat>)
    returns (crossed: seq<Chromosome>, pairs: seq<(nat, nat)>)
    requires ValidDiscretizer(d) && AllWellFormed(d, selected)
    requires |us| == |selected| && |cuts| >= |selected| / 2
    requires forall k :: 0 <= k < |cuts| ==> cuts[k] <= d.bits
    requires Permutes(shuffle)
    ensures AllWellFormed(d, crossed)
    ensures pairs == PairUp(Candidates(us, chance, shuffle)) && PairsDisjoint(pairs)
    ensures Crossed(crossed, selected, pairs, cuts, d)
    ensures forall j :: 0 <= j < |pairs| ==> us[pairs[j].0] <= chance && us[pairs[j].1] <= chance
  {
    var toCrossover := CrossoverCandidates(us, chance, shuffle);
    CandidatesSpec(us, chance, shuffle);
    EligibleSpec(us, chance);

    crossed, pairs := CrossPairs(selected, toCrossover, cuts, (a, b, cut) => Children(a, b, cut, d));
    PairUpDisjoint(toCrossover);
    CrossedWellFormed(selected, toCrossover, cuts, d, crossed, pairs);
    forall k | 0 <= k < |selected| && (forall j :: 0 <= j < |pairs| ==> pairs[j].0 != k && pairs[j].1 != k)
      ensures crossed[k] == selected[k]
    {
      Unpaired(toCrossover, k);
    }
  }

  /** The pairs the crossover stage formed: consecutive shuffled candidates, no
      chromosome in two pairs, both partners drawn at most the crossover chance. */
  predicate Paired(pairs: seq<(nat, nat)>, us: seq<real>, chance: real, shuffle: seq<nat> -> seq<nat>)
  {
    && pairs == PairUp(Candidates(us, chance, shuffle)) && PairsDisjoint(pairs)
    && (forall j :: 0 <= j < |pairs| ==> pairs[j].0 < |us| && pairs[j].1 < |us|)
    && (forall j :: 0 <= j < |pairs| ==> us[pairs[j].0] <= chance && us[pairs[j].1] <= chance)
  }

  /** Crossover, then mutation of every chromosome. */
  method Breed(selected: seq<Chromosome>, d: Discretizer, crossoverChance: real, mutationChance: real,
               g: GenerationDraws, shuffle: seq<nat> -> seq<nat>)
    returns (next: seq<Chromosome>, pairs: seq<(nat, nat)>)
    requires ValidDiscretizer(d) && AllWellFormed(d, selected)
    requires DrawsFit(g, |selected|, d.bits)
    requires Permutes(shuffle)
    ensures |next| == |selected| && AllWellFormed(d, next)
    ensures Paired(pairs, g.crossover, crossoverChance, shuffle)
    ensures Bred(next, selected, pairs, g.cuts, g.mutation, mutationChance, d)
  {
    var crossed;
    crossed, pairs := CrossoverStage(selected, d, crossoverChance, g.crossover, g.cuts, shuffle);
    next := MutateStage(crossed, mutationChance, g.mutation, d);
    BredOfCrossed(next, crossed, selected, pairs, g.cuts, g.mutation, mutationChance, d);
  }

  /** Mutating every chromosome of a crossed population gives the bred one. */
  lemma BredOfCrossed(next: seq<Chromosome>, crossed: seq<Chromosome>, selected: seq<Chromosome>,
                      pairs: seq<(nat, nat)>, cuts: seq<nat>, mutation: seq<seq<real>>, chance: real, d: Discretizer)
    requires Crossed(crossed, selected, pairs, cuts, d)
    requires |next| == |crossed| == |mutation|
    requires forall k :: 0 <= k < |crossed| ==> next[k] == Mutated(crossed[k], chance, mutation[k], d)
    ensures Bred(next, selected, pairs, cuts, mutation, chance, d)
  {
  }

  /** An index in no pair is not among the (even number of) candidates. */
  lemma Unpaired(c: seq<nat>, k: nat)
    requires |c| % 2 == 0
    requires forall j :: 0 <= j < |PairUp(c)| ==> PairUp(c)[j].0 != k && PairUp(c)[j].1 != k
    ensures k !in c
  {
    forall m | 0 <= m < |c| ensures c[m] != k {
      PairOf(c, m);
    }
  }

  /** The stages of one generation, for a population whose roulette table
      exists: selected holds the roulette's pick for each selection draw, the
      pairs are made of the shuffled eligible indices (odd one dropped), no
      index is in two pairs, every paired index had a crossover draw at most
      the chance, and bred is selected crossed along the pairs and mutated. */
  ghost predicate Stages(population: seq<Chromosome>, terms: seq<Term>, d: Discretizer,
                         crossoverChance: real, mutationChance: real, g: GenerationDraws,
                         shuffle: seq<nat> -> seq<nat>, selected: seq<Chromosome>, pairs: seq<(nat, nat)>,
                         bred: seq<Chromosome>)
  {
    && |population| > 0 && SelectGenData(terms, population).Ok?
    && |g.selection| == |g.crossover|
    && UnitDraws(g.selection)
    && Spun(selected, terms, population, g.selection)
    && Paired(pairs, g.crossover, crossoverChance, shuffle)
    && Bred(bred, selected, pairs, g.cuts, g.mutation, mutationChance, d)
  }

  /** The fitness of the first fittest chromosome. */
  function BestFitness(terms: seq<Term>, population: seq<Chromosome>): real
    requires |population| > 0
  {
    Fitnesses(terms, population)[FirstArgMax(Fitnesses(terms, population))]
  }

  /** A population that ends with a copy of the previous best is at least as fit at its best. */
  lemma ElitismKeepsBest(terms: seq<Term>, previous: seq<Chromosome>, next: seq<Chromosome>)
    requires |previous| > 0 && |next| > 0
    requires next[|next| - 1] == previous[FirstArgMax(Fitnesses(terms, previous))]
    ensures BestFitness(terms, next) >= BestFitness(terms, previous)
  {
    var f := Fitnesses(terms, next);
    assert f[|next| - 1] == BestFitness(terms, previous);
  }

  /** One generation (the body of the generation loop in main). With
      well-formed chromosomes and enough draws it fails only when the roulette
      table does (zero total fitness, or an empty population); otherwise the
      next population has the same size, only well-formed chromosomes, and
      under elitism ends with the first fittest chromosome of this one. It is
      made of the roulette's picks for the selection draws, crossed and
      mutated as Breed states. */
  method Generation(population: seq<Chromosome>, terms: seq<Term>, d: Discretizer,
                    crossoverChance: real, mutationChance: real, elitism: bool,
                    g: GenerationDraws, shuffle: seq<nat> -> seq<nat>)
    returns (r: Result<seq<Chromosome>>, selected: seq<Chromosome>, pairs: seq<(nat, nat)>)
    requires ValidDiscretizer(d) && AllWellFormed(d, population)
    requires DrawsFit(g, SelectionAmount(|population|, elitism), d.bits)
    requires Permutes(shuffle)
    ensures |population| == 0 ==> r == Err(ValueError)
    ensures |population| > 0 ==> (r.Err? <==> SelectGenData(terms, population).Err?)
    ensures |population| > 0 && r.Err? ==> r.error == ZeroDivisionError
    ensures r.Ok? ==> |r.value| == |population| && AllWellFormed(d, r.value)
    ensures r.Ok? && elitism ==>
      r.value[|population| - 1] == population[FirstArgMax(Fitnesses(terms, population))]
    ensures r.Ok? && elitism ==> BestFitness(terms, r.value) >= BestFitness(terms, population)
    ensures r.Ok? ==> |selected| == SelectionAmount(|population|, elitism)
    ensures r.Ok? ==> Stages(population, terms, d, crossoverChance, mutationChance, g, shuffle, selected, pairs, r.value[..|selected|])
  {
    selected, pairs := [], [];
    if |population| == 0 {
      r := Err(ValueError);
      return;
    }
    var chosen := Roulette(population, terms, g.selection);
    if chosen.Err? {
      r := Err(chosen.error);
      return;
    }
    selected := chosen.value;
    MembersWellFormed(d, population, selected);
    var next;
    next, pairs := NextPopulation(population, terms, d, crossoverChance, mutationChance, elitism, g, shuffle, selected);
    r := Ok(next);
  }

  /** Crossover and mutation of the selected chromosomes, then under elitism
      the previous best appended: the population keeps its size and, under
      elitism, its best fitness does not drop. */
  method NextPopulation(population: seq<Chromosome>, terms: seq<Term>, d: Discretizer,
                        crossoverChance: real, mutationChance: real, elitism: bool,
                        g: GenerationDraws, shuffle: seq<nat> -> seq<nat>, selected: seq<Chromosome>)
    returns (next: seq<Chromosome>, pairs: seq<(nat, nat)>)
    requires ValidDiscretizer(d) && |population| > 0
    requires AllWellFormed(d, population) && AllWellFormed(d, selected)
    requires |selected| == SelectionAmount(|population|, elitism)
    requires DrawsFit(g, |selected|, d.bits)
    requires Permutes(shuffle)
    ensures |next| == |population| && AllWellFormed(d, next)
    ensures elitism ==> next[|population| - 1] == population[FirstArgMax(Fitnesses(terms, population))]
    ensures elitism ==> BestFitness(terms, next) >= BestFitness(terms, population)
    ensures Paired(pairs, g.crossover, crossoverChance, shuffle)
    ensures Bred(next[..|selected|], selected, pairs, g.cuts, g.mutation, mutationChance, d)
  {
    var best := population[FirstArgMax(Fitnesses(terms, population))];
    var bred;
    bred, pairs := Breed(selected, d, crossoverChance, mutationChance, g, shuffle);
    if elitism {
      AppendWellFormed(d, bred, best);
      next := bred + [best];
      assert next[..|bred|] == bred;
      ElitismKeepsBest(terms, population, next);
    } else {
      next := bred;
      assert next[..|bred|] == bred;
    }
  }

  lemma AppendWellFormed(d: Discretizer, s: seq<Chromosome>, c: Chromosome)
    requires AllWellFormed(d, s) && WellFormed(d, c)
    ensures AllWellFormed(d, s + [c])
  {
  }

  /** Chromosomes drawn from a well-formed population are well-formed. */
  lemma MembersWellFormed(d: Discretizer, population: seq<Chromosome>, selected: seq<Chromosome>)
    requires AllWellFormed(d, population)
    requires forall k :: 0 <= k < |selected| ==> selected[k] in population
    ensures AllWellFormed(d, selected)
  {
  }

  /** After the pair loop every chromosome is still well-formed. */
  lemma CrossedWellFormed(selected: seq<Chromosome>, candidates: seq<nat>, cuts: seq<nat>, d: Discretizer,
                          crossed: seq<Chromosome>, pairs: seq<(nat, nat)>)
    requires ValidDiscretizer(d) && AllWellFormed(d, selected)
    requires |candidates| % 2 == 0
    requires forall k :: 0 <= k < |candidates| ==> candidates[k] < |selected|
    requires |cuts| >= |candidates| / 2 && forall k :: 0 <= k < |cuts| ==> cuts[k] <= d.bits
    requires pairs == PairUp(candidates)
    requires |crossed| == |selected|
    requires forall k :: 0 <= k < |selected| && k !in candidates ==> crossed[k] == selected[k]
    requires forall j :: 0 <= j < |pairs| ==>
      && crossed[pairs[j].0] == Children(selected[pairs[j].0], selected[pairs[j].1], cuts[j], d).0
      && crossed[pairs[j].1] == Children(selected[pairs[j].0], selected[pairs[j].1], cuts[j], d).1
    ensures AllWellFormed(d, crossed)
  {
    forall j | 0 <= j < |pairs|
      ensures WellFormed(d, crossed[pairs[j].0]) && WellFormed(d, crossed[pairs[j].1])
    {
      ChildrenSpec(selected[pairs[j].0], selected[pairs[j].1], cuts[j], d);
    }
    forall k | 0 <= k < |crossed| ensures WellFormed(d, crossed[k]) {
      if k in candidates {
        var m :| 0 <= m < |candidates| && candidates[m] == k;
        PairOf(candidates, m);
      }
    }
  }

  /** The m-th candidate sits in pair m / 2. */
  lemma PairOf(c: seq<nat>, m: nat)
    requires |c| % 2 == 0 && m < |c|
    ensures m / 2 < |PairUp(c)|
    ensures PairUp(c)[m / 2].0 == c[m] || PairUp(c)[m / 2].1 == c[m]
  {
  }

  /** The roulette's pick for each selection draw, in draw order. */
  function Picks(terms: seq<Term>, population: seq<Chromosome>, draws: seq<real>): (selected: seq<Chromosome>)
    requires |population| > 0 && SelectGenData(terms, population).Ok? && UnitDraws(draws)
    ensures Spun(selected, terms, population, draws)
  {
    seq(|draws|, k requires 0 <= k < |draws| => Picked(terms, population, draws[k]))
  }

  /** next is the population one generation after population, for the draws g
      and the shuffle: the roulette table exists, the roulette picks are
      crossed along the pairs of the shuffled candidates and mutated, and
      under elitism the first fittest chromosome of population is appended. */
  ghost predicate Step(population: seq<Chromosome>, terms: seq<Term>, d: Discretizer,
                       crossoverChance: real, mutationChance: real, elitism: bool,
                       g: GenerationDraws, shuffle: seq<nat> -> seq<nat>, next: seq<Chromosome>)
  {
    && |population| > 0 && SelectGenData(terms, population).Ok?
    && UnitDraws(g.selection)
    && |g.selection| == SelectionAmount(|population|, elitism)
    && |next| == |population|
    && (elitism ==> next[|population| - 1] == population[FirstArgMax(Fitnesses(terms, population))])
    && Stages(population, terms, d, crossoverChance, mutationChance, g, shuffle,
              Picks(terms, population, g.selection), PairUp(Candidates(g.crossover, crossoverChance, shuffle)),
              next[..|g.selection|])
  }

  /** A successful generation is a step: what Generation computes is the Step
      relation's next population. */
  lemma GenerationIsStep(population: seq<Chromosome>, terms: seq<Term>, d: Discretizer,
                         crossoverChance: real, mutationChance: real, elitism: bool,
                         g: GenerationDraws, shuffle: seq<nat> -> seq<nat>,
                         next: seq<Chromosome>, selected: seq<Chromosome>, pairs: seq<(nat, nat)>)
    requires DrawsFit(g, SelectionAmount(|population|, elitism), d.bits)
    requires |next| == |population| && |selected| == SelectionAmount(|population|, elitism)
    requires Stages(population, terms, d, crossoverChance, mutationChance, g, shuffle, selected, pairs, next[..|selected|])
    requires elitism ==> next[|population| - 1] == population[FirstArgMax(Fitnesses(terms, population))]
    ensures Step(population, terms, d, crossoverChance, mutationChance, elitism, g, shuffle, next)
  {
    var s := Picks(terms, population, g.selection);
    assert selected == s by {
      forall k | 0 <= k < |s| ensures selected[k] == s[k] {
      }
    }
  }

  /** Bred leaves no freedom: every index is either in no pair or in one. */
  lemma BredUnique(x: seq<Chromosome>, y: seq<Chromosome>, selected: seq<Chromosome>, pairs: seq<(nat, nat)>,
                   cuts: seq<nat>, mutation: seq<seq<real>>, chance: real, d: Discretizer)
    requires Bred(x, selected, pairs, cuts, mutation, chance, d)
    requires Bred(y, selected, pairs, cuts, mutation, chance, d)
    ensures x == y
  {
    forall k | 0 <= k < |x| ensures x[k] == y[k] {
      if j :| 0 <= j < |pairs| && (pairs[j].0 == k || pairs[j].1 == k) {
        if pairs[j].0 == k {
          assert x[pairs[j].0] == y[pairs[j].0];
        } else {
          assert x[pairs[j].1] == y[pairs[j].1];
        }
      }
    }
  }

  /** A generation has one outcome: two next populations of the same
      population, draws and shuffle are equal. */
  lemma StepUnique(population: seq<Chromosome>, terms: seq<Term>, d: Discretizer,
                   crossoverChance: real, mutationChance: real, elitism: bool,
                   g: GenerationDraws, shuffle: seq<nat> -> seq<nat>, a: seq<Chromosome>, b: seq<Chromosome>)
    requires Step(population, terms, d, crossoverChance, mutationChance, elitism, g, shuffle, a)
    requires Step(population, terms, d, crossoverChance, mutationChance, elitism, g, shuffle, b)
    ensures a == b
  {
    var m := |g.selection|;
    BredUnique(a[..m], b[..m], Picks(terms, population, g.selection),
               PairUp(Candidates(g.crossover, crossoverChance, shuffle)), g.cuts, g.mutation, mutationChance, d);
    forall k | 0 <= k < |a| ensures a[k] == b[k] {
      if k < m {
        assert a[k] == a[..m][k] && b[k] == b[..m][k];
      }
    }
  }

  /** trace is a run of generations: trace[0] is the initial population and
      each next entry is one Step, with the i-th draws and shuffle, from the
      one before. */
  ghost predicate Trace(trace: seq<seq<Chromosome>>, terms: seq<Term>, d: Discretizer,
                        crossoverChance: real, mutationChance: real, elitism: bool,
                        gens: seq<GenerationDraws>, shuffles: seq<seq<nat> -> seq<nat>>)
  {
    && 0 < |trace| <= |gens| + 1 && |shuffles| == |gens|
    && forall i :: 0 <= i < |trace| - 1 ==>
         Step(trace[i], terms, d, crossoverChance, mutationChance, elitism, gens[i], shuffles[i], trace[i + 1])
  }

  /** A run extended by one more step is a run. */
  lemma TraceExtend(trace: seq<seq<Chromosome>>, next: seq<Chromosome>, terms: seq<Term>, d: Discretizer,
                    crossoverChance: real, mutationChance: real, elitism: bool,
                    gens: seq<GenerationDraws>, shuffles: seq<seq<nat> -> seq<nat>>)
    requires Trace(trace, terms, d, crossoverChance, mutationChance, elitism, gens, shuffles)
    requires |trace| <= |gens|
    requires Step(trace[|trace| - 1], terms, d, crossoverChance, mutationChance, elitism,
                  gens[|trace| - 1], shuffles[|trace| - 1], next)
    ensures Trace(trace + [next], terms, d, crossoverChance, mutationChance, elitism, gens, shuffles)
  {
    var t := trace + [next];
    forall i | 0 <= i < |t| - 1
      ensures Step(t[i], terms, d, crossoverChance, mutationChance, elitism, gens[i], shuffles[i], t[i + 1])
    {
      if i < |trace| - 1 {
        assert t[i] == trace[i] && t[i + 1] == trace[i + 1];
      } else {
        assert t[i] == trace[|trace| - 1] && t[i + 1] == next;
      }
    }
  }

  /** A run extended by a successful generation from its last population is a run. */
  lemma TraceGeneration(trace: seq<seq<Chromosome>>, i: nat, last: seq<Chromosome>, next: seq<Chromosome>,
                        selected: seq<Chromosome>, pairs: seq<(nat, nat)>, terms: seq<Term>, d: Discretizer,
                        crossoverChance: real, mutationChance: real, elitism: bool,
                        gens: seq<GenerationDraws>, shuffles: seq<seq<nat> -> seq<nat>>)
    requires Trace(trace, terms, d, crossoverChance, mutationChance, elitism, gens, shuffles)
    requires |trace| == i + 1 && i < |gens| && trace[i] == last
    requires DrawsFit(gens[i], SelectionAmount(|last|, elitism), d.bits)
    requires |last| > 0 && |next| == |last| && |selected| == SelectionAmount(|last|, elitism)
    requires Stages(last, terms, d, crossoverChance, mutationChance, gens[i], shuffles[i], selected, pairs, next[..|selected|])
    requires elitism ==> next[|last| - 1] == last[FirstArgMax(Fitnesses(terms, last))]
    ensures Trace(trace + [next], terms, d, crossoverChance, mutationChance, elitism, gens, shuffles)
  {
    GenerationIsStep(last, terms, d, crossoverChance, mutationChance, elitism, gens[i], shuffles[i],
                     next, selected, pairs);
    TraceExtend(trace, next, terms, d, crossoverChance, mutationChance, elitism, gens, shuffles);
  }

  /** Runs from one population are prefixes of each other: the populations a
      run goes through are fixed by the draws and shuffles. */
  lemma {:induction false} TraceUnique(s: seq<seq<Chromosome>>, t: seq<seq<Chromosome>>, terms: seq<Term>, d: Discretizer,
                                       crossoverChance: real, mutationChance: real, elitism: bool,
                                       gens: seq<GenerationDraws>, shuffles: seq<seq<nat> -> seq<nat>>)
    requires Trace(s, terms, d, crossoverChance, mutationChance, elitism, gens, shuffles)
    requires Trace(t, terms, d, crossoverChance, mutationChance, elitism, gens, shuffles)
    requires s[0] == t[0] && |s| <= |t|
    ensures s == t[..|s|]
  {
    var i := 1;
    while i < |s|
      invariant 1 <= i <= |s|
      invariant forall k :: 0 <= k < i ==> s[k] == t[k]
    {
      StepUnique(s[i - 1], terms, d, crossoverChance, mutationChance, elitism, gens[i - 1], shuffles[i - 1], s[i], t[i]);
      i := i + 1;
    }
  }

  /** Under elitism the best fitness of a run never drops below the initial one. */
  lemma {:induction false} TraceKeepsBest(trace: seq<seq<Chromosome>>, terms: seq<Term>, d: Discretizer,
                                          crossoverChance: real, mutationChance: real,
                                          gens: seq<GenerationDraws>, shuffles: seq<seq<nat> -> seq<nat>>)
    requires Trace(trace, terms, d, crossoverChance, mutationChance, true, gens, shuffles)
    requires |trace[0]| > 0
    ensures |trace[|trace| - 1]| > 0
    ensures BestFitness(terms, trace[|trace| - 1]) >= BestFitness(terms, trace[0])
  {
    var i := 0;
    while i < |trace| - 1
      invariant 0 <= i <= |trace| - 1
      invariant |trace[i]| > 0 && BestFitness(terms, trace[i]) >= BestFitness(terms, trace[0])
    {
      assert Step(trace[i], terms, d, crossoverChance, mutationChance, true, gens[i], shuffles[i], trace[i + 1]);
      ElitismKeepsBest(terms, trace[i], trace[i + 1]);
      i := i + 1;
    }
  }

  // ---------------------------------------------------------------------
  // The run
  // ---------------------------------------------------------------------

  /** One pass of the generation loop, on the last population of a run: it
      fails exactly when that population's roulette table does, and
      otherwise extends the run by one step. */
  method Advance(ghost trace: seq<seq<Chromosome>>, i: nat, last: seq<Chromosome>, terms: seq<Term>, d: Discretizer,
                 crossoverChance: real, mutationChance: real, elitism: bool,
                 gens: seq<GenerationDraws>, shuffles: seq<seq<nat> -> seq<nat>>)
    returns (next: Result<seq<Chromosome>>)
    requires ValidDiscretizer(d) && |last| > 0 && AllWellFormed(d, last)
    requires Trace(trace, terms, d, crossoverChance, mutationChance, elitism, gens, shuffles)
    requires |trace| == i + 1 && i < |gens| && trace[i] == last
    requires DrawsFit(gens[i], SelectionAmount(|last|, elitism), d.bits) && Permutes(shuffles[i])
    ensures next.Err? <==> SelectGenData(terms, last).Err?
    ensures next.Err? ==> next.error == ZeroDivisionError
    ensures next.Ok? ==> |next.value| == |last| && AllWellFormed(d, next.value)
    ensures next.Ok? ==> Trace(trace + [next.value], terms, d, crossoverChance, mutationChance, elitism, gens, shuffles)
  {
    var selected, pairs;
    next, selected, pairs := Generation(last, terms, d, crossoverChance, mutationChance, elitism, gens[i], shuffles[i]);
    if next.Ok? {
      TraceGeneration(trace, i, last, next.value, selected, pairs, terms, d, crossoverChance, mutationChance, elitism, gens, shuffles);
    }
  }

  /** The generation loop of main followed by the final max: one GenerationDraws
      and one shuffle per generation. An empty population is a ValueError.
      Otherwise trace is the run of generations performed, from population to
      last; the loop stops with ZeroDivisionError exactly when it reaches a
      population whose roulette table does not exist (every shifted fitness
      value is 0.0: all fitness values are 0.0, or all equal one negative
      value), and otherwise runs every generation and
      answers the first fittest chromosome of the last population. */
  method Evolve(population: seq<Chromosome>, terms: seq<Term>, d: Discretizer,
                crossoverChance: real, mutationChance: real, elitism: bool,
                gens: seq<GenerationDraws>, shuffles: seq<seq<nat> -> seq<nat>>)
    returns (r: Result<Chromosome>, last: seq<Chromosome>, ghost trace: seq<seq<Chromosome>>)
    requires ValidDiscretizer(d) && AllWellFormed(d, population)
    requires |shuffles| == |gens|
    requires forall i :: 0 <= i < |gens| ==> DrawsFit(gens[i], SelectionAmount(|population|, elitism), d.bits)
    requires forall i :: 0 <= i < |shuffles| ==> Permutes(shuffles[i])
    ensures |population| == 0 ==> r.Err? && r.error == ValueError
    ensures |population| > 0 ==>
      && Trace(trace, terms, d, crossoverChance, mutationChance, elitism, gens, shuffles)
      && trace[0] == population && last == trace[|trace| - 1]
    ensures |population| > 0 && r.Err? ==>
      r.error == ZeroDivisionError && |trace| <= |gens| && SelectGenData(terms, last).Err?
    ensures r.Ok? ==> |trace| == |gens| + 1
    ensures r.Ok? ==> |last| == |population| > 0 && AllWellFormed(d, last)
    ensures r.Ok? ==> r.value == last[FirstArgMax(Fitnesses(terms, last))]
    ensures r.Ok? && elitism ==> BestFitness(terms, last) >= BestFitness(terms, population)
  {
    last, trace := population, [population];
    if |population| == 0 {
      return Err(ValueError), last, trace;
    }
    var i := 0;
    while i < |gens|
      invariant 0 <= i <= |gens|
      invariant |last| == |population| && AllWellFormed(d, last)
      invariant |trace| == i + 1 && trace[0] == population && trace[i] == last
      invariant Trace(trace, terms, d, crossoverChance, mutationChance, elitism, gens, shuffles)
    {
      var next := Advance(trace, i, last, terms, d, crossoverChance, mutationChance, elitism, gens, shuffles);
      if next.Err? {
        return Err(next.error), last, trace;
      }
      last, trace := next.value, trace + [next.value];
      i := i + 1;
    }
    if elitism {
      TraceKeepsBest(trace, terms, d, crossoverChance, mutationChance, gens, shuffles);
    }
    r := Ok(last[FirstArgMax(Fitnesses(terms, last))]);
  }
}
