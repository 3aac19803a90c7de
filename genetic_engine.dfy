/** The operators of the homework genetic algorithm that maximises a
    polynomial over an interval (genetic/homework/genetic_polynomial_max.py).
    Floats are exact reals, and every value the random generator would
    produce is passed in as a draw. */
module GeneticEngine {
  import opened Util
  import opened BinaryCodes
  import BitToggle

  /** The Python exceptions the engine can raise. */
  datatype Error = IndexError | ValueError | AssertionError | ZeroDivisionError

  datatype Result<T> = Ok(value: T) | Err(error: Error)

  // ---------------------------------------------------------------------
  // Fitness: a polynomial with natural exponents and real coefficients
  // ---------------------------------------------------------------------

  datatype Term = Term(exponent: nat, coefficient: real)

  function Power(x: real, n: nat): real
  {
    if n == 0 then 1.0 else x * Power(x, n - 1)
  }

  /** Polynomial.eval: the sum over the terms of x^exponent * coefficient, left to right. */
  function Eval(terms: seq<Term>, x: real): real
  {
    if terms == [] then 0.0
    else
      var t := terms[|terms| - 1];
      Eval(terms[..|terms| - 1], x) + Power(x, t.exponent) * t.coefficient
  }

  // ---------------------------------------------------------------------
  // search: leftmost upper bound in an ascending list
  // ---------------------------------------------------------------------

  predicate Ascending(s: seq<real>)
  {
    forall i, j :: 0 <= i <= j < |s| ==> s[i] <= s[j]
  }

  predicate StrictlyIncreasing(s: seq<real>)
  {
    forall i, j :: 0 <= i < j < |s| ==> s[i] < s[j]
  }

  /** The least index whose element is at least x. */
  function LeastAtLeast(x: real, s: seq<real>): (i: nat)
    requires |s| > 0 && x <= s[|s| - 1]
    ensures i < |s| && x <= s[i]
    ensures forall j :: 0 <= j < i ==> s[j] < x
  {
    if x <= s[0] then 0 else 1 + LeastAtLeast(x, s[1..])
  }

  /** search(item, lst): IndexError on an empty list (lst[-1]), ValueError when
      item exceeds the last element, otherwise the least index i with
      item <= lst[i] found by bisection. */
  method Search(item: real, lst: seq<real>) returns (r: Result<nat>)
    requires Ascending(lst)
    ensures |lst| == 0 ==> r == Err(IndexError)
    ensures |lst| > 0 && item > lst[|lst| - 1] ==> r == Err(ValueError)
    ensures |lst| > 0 && item <= lst[|lst| - 1] ==> r == Ok(LeastAtLeast(item, lst))
  {
    if |lst| == 0 {
      return Err(IndexError);
    }
    if item > lst[|lst| - 1] {
      return Err(ValueError);
    }
    var l, h := 0, |lst| - 1;
    while l < h
      invariant 0 <= l <= h < |lst|
      invariant item <= lst[h]
      invariant forall j :: 0 <= j < l ==> lst[j] < item
    {
      var m := (l + h) / 2;
      if item <= lst[m] {
        h := m;
      } else {
        l := m + 1;
      }
    }
    return Ok(l);
  }

  // ---------------------------------------------------------------------
  // Discretize: the table of 2^bits values and the codes that index it
  // ---------------------------------------------------------------------

  datatype Discretizer = Discretizer(bits: nat, steps: seq<real>)

  /** Discretize(begin, end, precision) with the bit count already derived:
      step = (end - begin) / 2^bits and steps[i] = step * (i + 1) + begin. */
  function NewDiscretizer(begin: real, end: real, bits: nat): Discretizer
  {
    var step := (end - begin) / (Pow2(bits) as real);
    Discretizer(bits, seq(Pow2(bits), i => step * ((i + 1) as real) + begin))
  }

  /** What a table built from a non-empty domain satisfies. */
  predicate ValidDiscretizer(d: Discretizer)
  {
    d.bits >= 1 && |d.steps| == Pow2(d.bits) && StrictlyIncreasing(d.steps)
  }

  /** A table over begin < end has 2^bits strictly increasing entries spaced by
      (end - begin) / 2^bits, the first above begin and the last exactly end. */
  lemma DiscretizerTable(begin: real, end: real, bits: nat)
    requires begin < end
    ensures var d := NewDiscretizer(begin, end, bits);
      && d.bits == bits && |d.steps| == Pow2(bits)
      && StrictlyIncreasing(d.steps)
      && begin < d.steps[0] && d.steps[|d.steps| - 1] == end
      && (forall i :: 0 < i < |d.steps| ==> d.steps[i] - d.steps[i - 1] == (end - begin) / (Pow2(bits) as real))
  {
    var d := NewDiscretizer(begin, end, bits);
    var step := StepPositive(begin, end, bits);
    StepsSpacing(d.steps, step, begin);
    StepsLast(begin, end, bits);
  }

  /** The table's step is positive and every entry is step * (i + 1) + begin. */
  lemma StepPositive(begin: real, end: real, bits: nat) returns (step: real)
    requires begin < end
    ensures step == (end - begin) / (Pow2(bits) as real) && step > 0.0
    ensures var d := NewDiscretizer(begin, end, bits);
      |d.steps| == Pow2(bits) && forall i :: 0 <= i < |d.steps| ==> d.steps[i] == step * ((i + 1) as real) + begin
  {
    step := (end - begin) / (Pow2(bits) as real);
  }

  /** Entries of the form step * (i + 1) + begin with step > 0 rise by step each time. */
  lemma StepsSpacing(steps: seq<real>, step: real, begin: real)
    requires step > 0.0
    requires forall i :: 0 <= i < |steps| ==> steps[i] == step * ((i + 1) as real) + begin
    ensures StrictlyIncreasing(steps)
    ensures |steps| > 0 ==> begin < steps[0]
    ensures forall i :: 0 < i < |steps| ==> steps[i] - steps[i - 1] == step
  {
    forall i | 0 < i < |steps| ensures steps[i] - steps[i - 1] == step {
      assert step * ((i + 1) as real) == step * (i as real) + step;
    }
    forall i, j | 0 <= i < j < |steps| ensures steps[i] < steps[j] {
      StepsBetween(steps, step, i, j);
    }
  }

  lemma {:induction false} StepsBetween(steps: seq<real>, step: real, i: nat, j: nat)
    requires step > 0.0 && i < j < |steps|
    requires forall k :: 0 < k < |steps| ==> steps[k] - steps[k - 1] == step
    ensures steps[i] < steps[j]
    decreases j - i
  {
    if i + 1 < j {
      StepsBetween(steps, step, i, j - 1);
    }
  }

  lemma StepsLast(begin: real, end: real, bits: nat)
    ensures var d := NewDiscretizer(begin, end, bits);
      d.steps[|d.steps| - 1] == end
  {
    var p := Pow2(bits) as real;
    var step := (end - begin) / p;
    assert step * p == end - begin;
  }

  /** Discretize.encode: the code of the leftmost table value at least nr,
      written with bits binary digits; ValueError past the last value. */
  method Encode(d: Discretizer, nr: real) returns (r: Result<string>)
    requires ValidDiscretizer(d)
    ensures nr > d.steps[|d.steps| - 1] ==> r == Err(ValueError)
    ensures nr <= d.steps[|d.steps| - 1] ==>
      && r.Ok? && |r.value| == d.bits && IsBinary(r.value)
      && Value(r.value) == LeastAtLeast(nr, d.steps)
  {
    var index := Search(nr, d.steps);
    if index.Err? {
      return Err(index.error);
    }
    PadBinaryRoundTrip(index.value, d.bits);
    r := Ok(PadBinary(index.value, d.bits));
  }

  /** Discretize.decode_float: int(code, 2) (ValueError on text it does not
      accept), then the table entry, a negative index counting from the end
      (IndexError outside the table). */
  function DecodeFloat(d: Discretizer, code: string): Result<real>
  {
    match IntBase2(code)
    case None => Err(ValueError)
    case Some(i) => if PyIndex(i, |d.steps|) then Ok(d.steps[PyPosition(i, |d.steps|)]) else Err(IndexError)
  }

  /** A bits-wide code reads as its value: the table entry it indexes, or an
      IndexError past the table. */
  lemma DecodeFloatOfBinary(d: Discretizer, code: string)
    requires code != [] && IsBinary(code)
    ensures Value(code) < |d.steps| ==> DecodeFloat(d, code).Ok? && DecodeFloat(d, code).value == d.steps[Value(code)]
    ensures Value(code) >= |d.steps| ==> DecodeFloat(d, code).Err? && DecodeFloat(d, code).error == IndexError
  {
    IntBase2Binary(code);
  }

  /** A chromosome keeps its value and its code side by side. */
  datatype Chromosome = Chromosome(value: real, encoded: string)

  /** Discretize.decode_chromo. */
  function DecodeChromo(d: Discretizer, code: string): Result<Chromosome>
  {
    match DecodeFloat(d, code)
    case Err(e) => Err(e)
    case Ok(v) => Ok(Chromosome(v, code))
  }

  /** The invariant every chromosome of a run keeps: a bits-wide code whose
      value is the table entry that code indexes. */
  predicate WellFormed(d: Discretizer, c: Chromosome)
  {
    && IsBinary(c.encoded) && |c.encoded| == d.bits
    && Value(c.encoded) < |d.steps| && c.value == d.steps[Value(c.encoded)]
  }

  /** Any bits-wide binary code decodes, into a well-formed chromosome carrying that code. */
  lemma DecodeChromoWellFormed(d: Discretizer, code: string)
    requires ValidDiscretizer(d)
    requires IsBinary(code) && |code| == d.bits
    ensures DecodeChromo(d, code).Ok?
    ensures DecodeChromo(d, code).value.encoded == code
    ensures WellFormed(d, DecodeChromo(d, code).value)
  {
    ValueBound(code);
    DecodeFloatOfBinary(d, code);
  }

  /** Decoding a well-formed chromosome's code gives back the chromosome. */
  lemma DecodeOfWellFormed(d: Discretizer, c: Chromosome)
    requires ValidDiscretizer(d) && WellFormed(d, c)
    ensures DecodeChromo(d, c.encoded) == Ok(c)
  {
    DecodeFloatOfBinary(d, c.encoded);
  }

  /** The table entry i is found at index i. */
  lemma LeastAtLeastOfStep(s: seq<real>, i: nat)
    requires StrictlyIncreasing(s) && i < |s|
    ensures LeastAtLeast(s[i], s) == i
  {
  }

  /** decode_float(encode(steps[i])) == steps[i]: the code the encoder writes
      for a table entry decodes to that entry. */
  lemma EncodeDecodeStep(d: Discretizer, i: nat)
    requires ValidDiscretizer(d) && i < |d.steps|
    ensures LeastAtLeast(d.steps[i], d.steps) == i
    ensures DecodeFloat(d, PadBinary(i, d.bits)) == Ok(d.steps[i])
  {
    LeastAtLeastOfStep(d.steps, i);
    PadBinaryRoundTrip(i, d.bits);
    DecodeFloatOfBinary(d, PadBinary(i, d.bits));
  }

  /** encode(decode_float(code)) == code for every bits-wide code. */
  lemma DecodeEncodeCode(d: Discretizer, code: string)
    requires ValidDiscretizer(d) && IsBinary(code) && |code| == d.bits
    ensures DecodeFloat(d, code).Ok?
    ensures PadBinary(LeastAtLeast(DecodeFloat(d, code).value, d.steps), d.bits) == code
  {
    DecodeFloatOfBinary(d, code);
    EncodeStepOfCode(d, code);
  }

  /** The table entry a bits-wide code indexes encodes back to the code. */
  lemma EncodeStepOfCode(d: Discretizer, code: string)
    requires ValidDiscretizer(d) && IsBinary(code) && |code| == d.bits
    ensures Value(code) < |d.steps|
    ensures PadBinary(LeastAtLeast(d.steps[Value(code)], d.steps), d.bits) == code
  {
    ValueBound(code);
    LeastAtLeastOfStep(d.steps, Value(code));
    ValueRoundTrip(code);
  }

  /** Encoding any x of [begin, end] picks a table value no smaller than x and
      at most one step above it. */
  lemma EncodeWithinStep(begin: real, end: real, bits: nat, x: real)
    requires begin < end && begin <= x <= end
    ensures var d := NewDiscretizer(begin, end, bits);
      && x <= d.steps[|d.steps| - 1]
      && x <= d.steps[LeastAtLeast(x, d.steps)] <= x + (end - begin) / (Pow2(bits) as real)
  {
    DiscretizerTable(begin, end, bits);
    var d := NewDiscretizer(begin, end, bits);
    var k := LeastAtLeast(x, d.steps);
    var step := (end - begin) / (Pow2(bits) as real);
    if k == 0 {
      assert d.steps[0] == step + begin;
    } else {
      assert d.steps[k - 1] < x;
      assert d.steps[k] - d.steps[k - 1] == step;
    }
  }

  // ---------------------------------------------------------------------
  // generate_population
  // ---------------------------------------------------------------------

  /** generate_population with the randint draws given: one decoded chromosome
      per draw, in order, each draw formatted with bits digits. */
  function GeneratePopulation(d: Discretizer, draws: seq<nat>): Result<seq<Chromosome>>
  {
    if draws == [] then Ok([])
    else
      match GeneratePopulation(d, draws[..|draws| - 1])
      case Err(e) => Err(e)
      case Ok(front) =>
        match DecodeChromo(d, PadBinary(draws[|draws| - 1], d.bits))
        case Err(e) => Err(e)
        case Ok(c) => Ok(front + [c])
  }

  /** With draws in [0, 2^bits - 1] (randint's range) the population has one
      well-formed chromosome per draw, the k-th encoding the k-th draw. */
  lemma {:induction false} GeneratePopulationSpec(d: Discretizer, draws: seq<nat>)
    requires ValidDiscretizer(d)
    requires forall k :: 0 <= k < |draws| ==> draws[k] < Pow2(d.bits)
    ensures GeneratePopulation(d, draws).Ok?
    ensures |GeneratePopulation(d, draws).value| == |draws|
    ensures forall k :: 0 <= k < |draws| ==>
      && WellFormed(d, GeneratePopulation(d, draws).value[k])
      && Value(GeneratePopulation(d, draws).value[k].encoded) == draws[k]
  {
    if draws != [] {
      var init := draws[..|draws| - 1];
      GeneratePopulationSpec(d, init);
      var c := GeneratePopulationLast(d, draws);
      EncodingAppend(d, GeneratePopulation(d, init).value, init, c, draws[|draws| - 1]);
      assert init + [draws[|draws| - 1]] == draws;
    }
  }

  /** A chromosome encoding one more draw extends a population encoding the
      draws before it. */
  lemma EncodingAppend(d: Discretizer, front: seq<Chromosome>, init: seq<nat>, c: Chromosome, n: nat)
    requires |front| == |init|
    requires forall k :: 0 <= k < |init| ==> WellFormed(d, front[k]) && Value(front[k].encoded) == init[k]
    requires WellFormed(d, c) && Value(c.encoded) == n
    ensures var all, draws := front + [c], init + [n];
      forall k :: 0 <= k < |draws| ==> WellFormed(d, all[k]) && Value(all[k].encoded) == draws[k]
  {
    var all, draws := front + [c], init + [n];
    forall k | 0 <= k < |draws| ensures WellFormed(d, all[k]) && Value(all[k].encoded) == draws[k] {
      if k < |init| {
        assert all[k] == front[k] && draws[k] == init[k];
      } else {
        assert all[k] == c && draws[k] == n;
      }
    }
  }

  /** One more draw appends one chromosome, well-formed and encoding that draw. */
  lemma GeneratePopulationLast(d: Discretizer, draws: seq<nat>) returns (c: Chromosome)
    requires ValidDiscretizer(d) && draws != [] && draws[|draws| - 1] < Pow2(d.bits)
    requires GeneratePopulation(d, draws[..|draws| - 1]).Ok?
    ensures GeneratePopulation(d, draws).Ok?
    ensures GeneratePopulation(d, draws).value == GeneratePopulation(d, draws[..|draws| - 1]).value + [c]
    ensures WellFormed(d, c) && Value(c.encoded) == draws[|draws| - 1]
  {
    var n := draws[|draws| - 1];
    PadBinaryRoundTrip(n, d.bits);
    DecodeChromoWellFormed(d, PadBinary(n, d.bits));
    c := DecodeChromo(d, PadBinary(n, d.bits)).value;
  }

  // ---------------------------------------------------------------------
  // mutate
  // ---------------------------------------------------------------------

  /** ''.join(map(maybe_flip, code)): each bit is asserted to be '0' or '1' and
      flipped when its draw is below the chance. */
  function FlipBits(code: string, chance: real, draws: seq<real>): (r: Result<string>)
    requires |draws| == |code|
    ensures r.Ok? <==> IsBinary(code)
    ensures r.Err? ==> r.error == AssertionError
    ensures r.Ok? ==> |r.value| == |code| && IsBinary(r.value)
    ensures r.Ok? ==> forall i :: 0 <= i < |code| ==> (r.value[i] != code[i] <==> draws[i] < chance)
  {
    if code == [] then Ok([])
    else if code[0] != '0' && code[0] != '1' then Err(AssertionError)
    else
      var head := if draws[0] < chance then BitToggle.Toggle(code[0]) else code[0];
      match FlipBits(code[1..], chance, draws[1..])
      case Err(e) => Err(e)
      case Ok(rest) => Ok([head] + rest)
  }

  /** mutate: flip the bits, then decode the new code. */
  function Mutate(c: Chromosome, chance: real, draws: seq<real>, d: Discretizer): Result<Chromosome>
    requires |draws| == |c.encoded|
  {
    match FlipBits(c.encoded, chance, draws)
    case Err(e) => Err(e)
    case Ok(m) => DecodeChromo(d, m)
  }

  /** Mutating a well-formed chromosome succeeds, keeps it well-formed, and
      changes bit i exactly when the i-th draw is below the chance. */
  lemma MutateSpec(c: Chromosome, chance: real, draws: seq<real>, d: Discretizer)
    requires ValidDiscretizer(d) && WellFormed(d, c) && |draws| == |c.encoded|
    ensures Mutate(c, chance, draws, d).Ok?
    ensures WellFormed(d, Mutate(c, chance, draws, d).value)
    ensures forall i :: 0 <= i < |c.encoded| ==>
      (Mutate(c, chance, draws, d).value.encoded[i] != c.encoded[i] <==> draws[i] < chance)
  {
    var m := FlipBits(c.encoded, chance, draws).value;
    DecodeChromoWellFormed(d, m);
  }

  /** A chance of 0 with draws in [0, 1) leaves a well-formed chromosome as it was. */
  lemma MutateNever(c: Chromosome, draws: seq<real>, d: Discretizer)
    requires ValidDiscretizer(d) && WellFormed(d, c) && |draws| == |c.encoded|
    requires forall i :: 0 <= i < |draws| ==> 0.0 <= draws[i] < 1.0
    ensures Mutate(c, 0.0, draws, d) == Ok(c)
  {
    var m := FlipBits(c.encoded, 0.0, draws).value;
    assert m == c.encoded;
    DecodeOfWellFormed(d, c);
  }

  /** A chance of 1 with draws in [0, 1) flips every bit. */
  lemma MutateAlways(c: Chromosome, draws: seq<real>, d: Discretizer)
    requires ValidDiscretizer(d) && WellFormed(d, c) && |draws| == |c.encoded|
    requires forall i :: 0 <= i < |draws| ==> 0.0 <= draws[i] < 1.0
    ensures Mutate(c, 1.0, draws, d).Ok?
    ensures forall i :: 0 <= i < |c.encoded| ==> Mutate(c, 1.0, draws, d).value.encoded[i] == BitToggle.Toggle(c.encoded[i])
  {
    MutateSpec(c, 1.0, draws, d);
  }

  // ---------------------------------------------------------------------
  // crossover
  // ---------------------------------------------------------------------

  /** crossover with the randint(0, len) cut given: the parents' codes must have
      equal length; the children are a[:cut] + b[cut:] and b[:cut] + a[cut:]. */
  function Crossover(a: Chromosome, b: Chromosome, cut: nat, d: Discretizer): Result<(Chromosome, Chromosome, nat)>
    requires |a.encoded| == |b.encoded| ==> cut <= |a.encoded|
  {
    if |a.encoded| != |b.encoded| then Err(AssertionError)
    else
      var newA := a.encoded[..cut] + b.encoded[cut..];
      var newB := b.encoded[..cut] + a.encoded[cut..];
      match DecodeChromo(d, newA)
      case Err(e) => Err(e)
      case Ok(ca) =>
        match DecodeChromo(d, newB)
        case Err(e) => Err(e)
        case Ok(cb) => Ok((ca, cb, cut))
  }

  /** Crossing two well-formed parents succeeds with well-formed children of the
      same length; at every position the children hold the parents' two bits,
      taken straight before the cut and swapped from the cut on. */
  lemma CrossoverSpec(a: Chromosome, b: Chromosome, cut: nat, d: Discretizer)
    requires ValidDiscretizer(d) && WellFormed(d, a) && WellFormed(d, b)
    requires cut <= |a.encoded|
    ensures Crossover(a, b, cut, d).Ok?
    ensures var (ca, cb, k) := Crossover(a, b, cut, d).value;
      && k == cut && WellFormed(d, ca) && WellFormed(d, cb)
      && (forall i :: 0 <= i < cut ==> ca.encoded[i] == a.encoded[i] && cb.encoded[i] == b.encoded[i])
      && (forall i :: cut <= i < d.bits ==> ca.encoded[i] == b.encoded[i] && cb.encoded[i] == a.encoded[i])
  {
    var newA := a.encoded[..cut] + b.encoded[cut..];
    var newB := b.encoded[..cut] + a.encoded[cut..];
    forall i | 0 <= i < d.bits
      ensures newA[i] == (if i < cut then a.encoded[i] else b.encoded[i])
      ensures newB[i] == (if i < cut then b.encoded[i] else a.encoded[i])
    {
    }
    assert IsBinary(newA) && IsBinary(newB);
    DecodeChromoWellFormed(d, newA);
    DecodeChromoWellFormed(d, newB);
    var ca, cb := DecodeChromo(d, newA).value, DecodeChromo(d, newB).value;
    assert Crossover(a, b, cut, d) == Ok((ca, cb, cut));
  }

  /** Cut 0 swaps the parents. */
  lemma CrossoverSwaps(a: Chromosome, b: Chromosome, d: Discretizer)
    requires ValidDiscretizer(d) && WellFormed(d, a) && WellFormed(d, b)
    ensures Crossover(a, b, 0, d) == Ok((b, a, 0))
  {
    assert a.encoded[..0] + b.encoded[0..] == b.encoded;
    assert b.encoded[..0] + a.encoded[0..] == a.encoded;
    DecodeOfWellFormed(d, a);
    DecodeOfWellFormed(d, b);
  }

  /** A cut at the code length returns the parents unchanged. */
  lemma CrossoverKeeps(a: Chromosome, b: Chromosome, d: Discretizer)
    requires ValidDiscretizer(d) && WellFormed(d, a) && WellFormed(d, b)
    ensures Crossover(a, b, d.bits, d) == Ok((a, b, d.bits))
  {
    assert a.encoded[..d.bits] + b.encoded[d.bits..] == a.encoded;
    assert b.encoded[..d.bits] + a.encoded[d.bits..] == b.encoded;
    DecodeOfWellFormed(d, a);
    DecodeOfWellFormed(d, b);
  }

  // ---------------------------------------------------------------------
  // select_gen_data: the roulette table
  // ---------------------------------------------------------------------

  datatype SelectionData = SelectionData(prob: seq<real>, cumulative: seq<real>)

  function Fitnesses(terms: seq<Term>, population: seq<Chromosome>): (f: seq<real>)
    ensures |f| == |population|
  {
    seq(|population|, i requires 0 <= i < |population| => Eval(terms, population[i].value))
  }

  /** min(f): a value of the list no larger than any other. */
  function MinOf(f: seq<real>): (m: real)
    requires |f| > 0
    ensures forall i :: 0 <= i < |f| ==> m <= f[i]
    ensures exists i :: 0 <= i < |f| && f[i] == m
  {
    if |f| == 1 then f[0]
    else
      var m := MinOf(f[..|f| - 1]);
      if f[|f| - 1] < m then f[|f| - 1] else m
  }

  /** Fitness shifted up by the magnitude of the minimum when that is negative. */
  function ShiftUp(f: seq<real>): (g: seq<real>)
    requires |f| > 0
    ensures |g| == |f|
  {
    var least := MinOf(f);
    if least < 0.0 then seq(|f|, i requires 0 <= i < |f| => f[i] + -least) else f
  }

  /** list(accumulate(p)): entry k is the sum of p[..k+1]. */
  function PrefixSums(p: seq<real>): (c: seq<real>)
    ensures |c| == |p|
  {
    seq(|p|, i requires 0 <= i < |p| => SumR(p[..i + 1]))
  }

  function Scale(f: seq<real>, total: real): (p: seq<real>)
    requires total != 0.0
    ensures |p| == |f|
  {
    seq(|f|, i requires 0 <= i < |f| => f[i] / total)
  }

  /** The table built from (already shifted) fitness values: a zero total is a
      ZeroDivisionError, and the last running sum must lie in [0.99, 1.01]
      before it is overwritten with 1.0. */
  function RouletteTable(fitness: seq<real>): Result<SelectionData>
    requires |fitness| > 0
  {
    var total := SumR(fitness);
    if total == 0.0 then Err(ZeroDivisionError)
    else
      var prob := Scale(fitness, total);
      var cumulative := PrefixSums(prob);
      var last := cumulative[|cumulative| - 1];
      if !(0.99 <= last <= 1.01) then Err(AssertionError)
      else Ok(SelectionData(prob, cumulative[|cumulative| - 1 := 1.0]))
  }

  /** select_gen_data: min of an empty list is a ValueError; otherwise the
      fitness values are shifted up and turned into the roulette table. */
  function SelectGenData(terms: seq<Term>, population: seq<Chromosome>): Result<SelectionData>
  {
    if |population| == 0 then Err(ValueError)
    else RouletteTable(ShiftUp(Fitnesses(terms, population)))
  }

  /** After the shift every value is non-negative, and a shifted list has a 0 where the minimum was. */
  lemma ShiftUpNonNegative(f: seq<real>)
    requires |f| > 0
    ensures forall i :: 0 <= i < |f| ==> ShiftUp(f)[i] >= 0.0
    ensures MinOf(f) < 0.0 ==> exists i :: 0 <= i < |f| && ShiftUp(f)[i] == 0.0
  {
    var least := MinOf(f);
    var w :| 0 <= w < |f| && f[w] == least;
    if least < 0.0 {
      assert ShiftUp(f)[w] == 0.0;
    }
  }

  lemma {:induction false} SumRNonNegative(s: seq<real>)
    requires forall i :: 0 <= i < |s| ==> s[i] >= 0.0
    ensures SumR(s) >= 0.0
    ensures SumR(s) == 0.0 ==> forall i :: 0 <= i < |s| ==> s[i] == 0.0
  {
    if s != [] {
      var init := s[..|s| - 1];
      SumRNonNegative(init);
      if SumR(s) == 0.0 {
        forall i | 0 <= i < |s| ensures s[i] == 0.0 {
          if i < |s| - 1 {
            assert init[i] == s[i];
          }
        }
      }
    }
  }

  lemma {:induction false} SumRZero(s: seq<real>)
    requires forall i :: 0 <= i < |s| ==> s[i] == 0.0
    ensures SumR(s) == 0.0
  {
    if s != [] {
      SumRZero(s[..|s| - 1]);
    }
  }

  lemma {:induction false} SumRScale(f: seq<real>, total: real)
    requires total != 0.0
    ensures SumR(Scale(f, total)) == SumR(f) / total
  {
    if f != [] {
      var init := f[..|f| - 1];
      SumRScale(init, total);
      assert Scale(f, total)[..|f| - 1] == Scale(init, total);
    }
  }

  /** Running sums of non-negative values never decrease and never exceed the total. */
  lemma PrefixSumsAscending(p: seq<real>)
    requires forall i :: 0 <= i < |p| ==> p[i] >= 0.0
    ensures Ascending(PrefixSums(p))
    ensures forall k :: 0 <= k < |p| ==> PrefixSums(p)[k] <= SumR(p)
    ensures |p| > 0 ==> PrefixSums(p)[|p| - 1] == SumR(p)
  {
    var c := PrefixSums(p);
    forall i, j | 0 <= i <= j < |p| ensures c[i] <= c[j] {
      PrefixSumsPair(p, i, j);
    }
    forall k | 0 <= k < |p| ensures c[k] <= SumR(p) {
      PrefixSumsPair(p, k, |p| - 1);
      PrefixSumsLast(p);
    }
    if |p| > 0 {
      PrefixSumsLast(p);
    }
  }

  lemma PrefixSumsPair(p: seq<real>, i: nat, j: nat)
    requires i <= j < |p|
    requires forall k :: 0 <= k < |p| ==> p[k] >= 0.0
    ensures PrefixSums(p)[i] <= PrefixSums(p)[j]
  {
    PrefixSumAt(p, i);
    PrefixSumAt(p, j);
    PrefixMonotone(p, i + 1, j + 1);
  }

  lemma PrefixSumsLast(p: seq<real>)
    requires |p| > 0
    ensures PrefixSums(p)[|p| - 1] == SumR(p)
  {
    PrefixSumAt(p, |p| - 1);
    assert p[..|p|] == p;
  }

  lemma PrefixSumAt(p: seq<real>, k: nat)
    requires k < |p|
    ensures PrefixSums(p)[k] == SumR(p[..k + 1])
  {
  }

  lemma {:induction false} PrefixMonotone(p: seq<real>, i: nat, j: nat)
    requires i <= j <= |p|
    requires forall k :: 0 <= k < |p| ==> p[k] >= 0.0
    ensures SumR(p[..i]) <= SumR(p[..j])
    decreases j - i
  {
    if i < j {
      PrefixMonotone(p, i, j - 1);
      assert p[..j][..j - 1] == p[..j - 1];
    }
  }

  /** The table of non-negative fitness values fails only on a zero total,
      which happens exactly when every value is 0 (the range assertion never
      fails in exact arithmetic, since the probabilities sum to 1); otherwise
      prob and cumulative have the input's length, every probability is
      non-negative, cumulative is non-decreasing, entry k is the sum of the
      first k + 1 probabilities, and the last entry is 1. */
  lemma RouletteTableSpec(fitness: seq<real>)
    requires |fitness| > 0
    requires forall i :: 0 <= i < |fitness| ==> fitness[i] >= 0.0
    ensures RouletteTable(fitness).Err? <==> forall i :: 0 <= i < |fitness| ==> fitness[i] == 0.0
    ensures RouletteTable(fitness).Err? ==> RouletteTable(fitness).error == ZeroDivisionError
    ensures RouletteTable(fitness).Ok? ==>
      var s := RouletteTable(fitness).value;
      && |s.prob| == |s.cumulative| == |fitness|
      && (forall i :: 0 <= i < |s.prob| ==> s.prob[i] >= 0.0)
      && SumR(s.prob) == 1.0
      && Ascending(s.cumulative)
      && s.cumulative[|fitness| - 1] == 1.0
      && (forall k :: 0 <= k < |fitness| - 1 ==> s.cumulative[k] == SumR(s.prob[..k + 1]))
  {
    SumRNonNegative(fitness);
    var total := SumR(fitness);
    if total != 0.0 {
      if forall i :: 0 <= i < |fitness| ==> fitness[i] == 0.0 {
        SumRZero(fitness);
      }
      var prob := Scale(fitness, total);
      SumRScale(fitness, total);
      assert total / total == 1.0;
      forall i | 0 <= i < |prob| ensures prob[i] >= 0.0 {
        assert prob[i] == fitness[i] / total;
      }
      PrefixSumsAscending(prob);
      var cumulative := PrefixSums(prob);
      assert cumulative[|cumulative| - 1] == 1.0;
      var fixed := cumulative[|cumulative| - 1 := 1.0];
      assert RouletteTable(fitness) == Ok(SelectionData(prob, fixed));
      forall k | 0 <= k < |fitness| - 1 ensures fixed[k] == SumR(prob[..k + 1]) {
        PrefixSumAt(prob, k);
      }
    }
  }

  /** The roulette table of a non-empty population is built from shifted
      fitness values that are all non-negative; it fails exactly when all of
      them are 0, and then with ZeroDivisionError. */
  lemma SelectGenDataSpec(terms: seq<Term>, population: seq<Chromosome>)
    requires |population| > 0
    ensures var shifted := ShiftUp(Fitnesses(terms, population));
      && (forall i :: 0 <= i < |shifted| ==> shifted[i] >= 0.0)
      && SelectGenData(terms, population) == RouletteTable(shifted)
      && (SelectGenData(terms, population).Err? <==> forall i :: 0 <= i < |shifted| ==> shifted[i] == 0.0)
  {
    var shifted := ShiftUp(Fitnesses(terms, population));
    ShiftUpNonNegative(Fitnesses(terms, population));
    RouletteTableSpec(shifted);
  }
}
