# Algorithms course exercises, modelled in Dafny

This project models the algorithmic core of a collection of small
competitive-programming style exercises and proves properties of the model:

- **Genetic algorithms** (`genetic/`): the homework engine that maximises a
  polynomial over an interval (discretisation table, binary codes, bisection
  search, roulette selection, crossover, mutation, elitism and the
  generation loop), the earlier draft of that engine, and the exercises for
  encoding, crossover, mutation and selection. Floats are exact reals, and
  every value the random generator would produce is a parameter (a draw).
- **Knapsack** (`knapsack/`, `fractional_knapsack.c`): the 0/1 knapsack
  tables of the homework and of the discrete program, and the greedy
  fractional knapsack.
- **Interval cover** (`intervals.c`, `tester.py`): the greedy choice of
  intervals that covers a range, and the tester that judges an answer.
- **Geometry** (`geometry/`): orientation, point in a convex polygon (two
  programs), point in a polygon by ray casting, the in-circle test and
  illegal edges, the Graham scan of `cover.c` and of the travelling-salesman
  start, monotone polygons, horizontal/vertical half-planes (point location
  and intersection), the sweep that counts horizontal/vertical crossings,
  and the segment tree behind it.

Integers are unbounded. Some C programs' `int`/`long long` ranges appear
as preconditions (Roby's turn counts, the crossing sweep, the half-plane
intersection). Elsewhere the model computes exactly where the C arithmetic
can overflow, and "## Left out" names each such expression. Reading input and printing
output are left out: the `Run` members take the parsed input as values and
return what would be printed.

Where a doc comment and the code disagree the model follows the code:
`search` in genetic/homework/genetic_polynomial_max.py is documented as
returning the greatest index, but its loop returns the least index whose
element is at least the item, and that is what `GeneticEngine.Search`
states.

## Model

| member | source | states |
|---|---|---|
| BinaryCodes.IntBase2Accepts | genetic/encoding.py:19 | `int(s, 2)` accepts exactly white space, an optional sign, an optional 0b or 0B prefix (with at most one underscore after it), binary digits with single underscores between them, and white space; every other text is a ValueError |
| BinaryCodes.IntBase2OfSpelled | genetic/encoding.py:19 | such a text reads as the value of its digits, underscores dropped, negated after a minus sign |
| BinaryCodes.IntBase2Binary | genetic/homework/genetic_polynomial_max.py:127 | a non-empty string of binary digits reads as its value, which is below 2^len |
| BinaryCodes.IntBase2Negative | genetic/encoding.py:19 | a minus sign before binary digits reads as the negated value |
| BinaryCodes.PadBinaryIsFixed | genetic/homework/genetic_polynomial_max.py:122 | for n < 2^w the zero-padded format `f"{n:0{w}b}"` is exactly the w-digit binary code of n |
| BinaryCodes.PadBinaryRoundTrip | genetic/homework/genetic_polynomial_max.py:117-128 | formatting an index below 2^w at width w gives w binary digits that `int(_, 2)` reads back as the index |
| BinaryCodes.ValueRoundTrip | genetic/homework/genetic_polynomial_max.py:117-128 | reading a non-empty binary code and formatting it back at its own width gives the code |
| CrossExercise.SliceIndex | genetic/crossover.py:3-4 | the index a Python slice bound denotes: a cut within [0, n] is itself, beyond n it clamps to n, a negative cut counts from the end and clamps to 0 |
| CrossExercise.CrossSpec | genetic/crossover.py:1-5 | an AssertionError exactly when the parents' lengths differ; otherwise both children have the parents' length, take the positions before the (clamped) cut from their own parent and the rest from the other |
| CrossExercise.CrossAtStart | genetic/crossover.py:1-5 | a cut at 0 (or at or below minus the length) swaps the parents |
| CrossExercise.CrossAtEnd | genetic/crossover.py:1-5 | a cut at or past the length returns the parents unchanged |
| CrossExercise.CrossTwice | genetic/crossover.py:1-5 | crossing the two children again at the same cut gives back the parents |
| BitToggle.Toggle | genetic/mutation.py:5 | '0' becomes '1'; '1' (and any other character) becomes '0' |
| Util.PyPosition | genetic/mutation.py:5 | the element a valid Python index names: itself when non-negative, counted from the end when negative |
| BitToggle.Mutate | genetic/mutation.py:1-6 | the toggling loop gives the result of the specification `Toggled` (an IndexError for a location outside the string); no locations leave the string unchanged |
| BitToggle.IndexErrorSticks | genetic/mutation.py:3-5 | once a location raises IndexError the whole call raises it, whatever follows |
| BitToggle.ToggledSpec | genetic/mutation.py:1-6 | the call succeeds exactly when every location is a valid index; then position p holds s[p] toggled once per location that names p |
| BitToggle.ToggledParity | genetic/mutation.py:1-6 | on a binary string, a position named an odd number of times is flipped and one named an even number of times keeps its bit |
| BitToggle.Untouched | genetic/mutation.py:1-6 | a position no location names keeps its character |
| BitToggle.OrderIndependent | genetic/mutation.py:1-6 | the order of the locations does not matter: the same multiset of locations gives the same result |
| SelectionExercise.PolynomialAsTerms | genetic/selection.py:10-11 | a x^2 + b x + c is the engine's polynomial with terms (2, a), (1, b), (0, c) |
| SelectionExercise.Selection | genetic/selection.py:13-20 | AssertionError exactly when a fitness is negative; ZeroDivisionError exactly when all are non-negative and the total is 0; otherwise n + 1 interval ends, end k the share of the first k fitness values, starting at 0, ending at 1, within [0, 1] and ascending |
| SelectionExercise.RunningTotals | genetic/selection.py:16-17 | `[0] + accumulate(f)` has n + 1 entries, entry k the sum of the first k values, the last the total |
| SelectionExercise.EndsShape | genetic/selection.py:18-20 | normalised running totals of non-negative values start at 0, end at 1, lie in [0, 1] and never decrease |
| GeneticDraft.PostInit | genetic/genetic_polynomial_max.py:21-28 | a configuration is accepted, unchanged, exactly when every assertion holds; otherwise AssertionError |
| GeneticDraft.AcceptedDomain | genetic/genetic_polynomial_max.py:21-28 | an accepted configuration has a domain over which the discretisation table (as the homework builds it) is valid and ends at the domain's end |
| GeneticDraft.SharesSpec | genetic/genetic_polynomial_max.py:90-93 | for non-negative fitness values the division fails (ZeroDivisionError) exactly when all are 0; otherwise entry k is the share of values 0..k, in [0, 1], ascending, the last 1 |
| GeneticDraft.SharesValues | genetic/genetic_polynomial_max.py:90-93 | with a positive total, the shares are defined and have the values and shape above |
| GeneticDraft.SelectIntervalsSpec | genetic/genetic_polynomial_max.py:85-93 | an empty population is a ValueError (min of an empty list); otherwise the shifted fitness values are non-negative and the result is their shares |
| IntervalEncoding.IntervalIndex | genetic/encoding.py:25-36 | the first interval from i on that ends beyond elem, or the last: every earlier one ends at or before elem |
| IntervalEncoding.Search | genetic/encoding.py:25-36 | on an ordered table the bisection finds the first interval that ends beyond elem (or the last one) |
| IntervalEncoding.TableShape | genetic/encoding.py:8-10 | the table over a < b has 2^bits non-empty intervals from a to b, each ending where the next starts |
| IntervalEncoding.TableStep | genetic/encoding.py:9-10 | the step (b - a) / 2^bits is positive and interval i is (a + i d, a + (i + 1) d) |
| IntervalEncoding.IndexContains | genetic/encoding.py:25-36 | a number of [a, b) lies in the interval the search finds; one below a gets index 0, one at or above b the last index |
| IntervalEncoding.IndexOfStart | genetic/encoding.py:25-36 | the start of interval i is found in interval i |
| IntervalEncoding.Answer | genetic/encoding.py:12-23 | one query: TO prints the found index as bits binary digits; FROM prints the start of the interval whose index `int(_, 2)` reads, a negative index counting from the end (ValueError for text `int` refuses, IndexError outside the table); any other command raises |
| IntervalEncoding.RespondFrom | genetic/encoding.py:17-21 | FROM on text `int` accepts prints the start of the interval the index names as a Python list index, and raises IndexError for an index outside the table |
| IntervalEncoding.FromNegative | genetic/encoding.py:19-21 | FROM with a minus sign counts from the end: -k prints the start of the k-th interval from the end, and a k beyond the table raises IndexError |
| IntervalEncoding.ToDigits | genetic/encoding.py:13-16 | TO prints exactly bits binary digits, and they spell the index of the interval found |
| IntervalEncoding.FromThenTo | genetic/encoding.py:13-21 | round trip: FROM a bits-wide code prints a number, and TO of that number prints the same code |
| GeneticEngine.LeastAtLeast | genetic/homework/genetic_polynomial_max.py:206-221 | the least index whose element is at least x: every earlier element is below x |
| GeneticEngine.Search | genetic/homework/genetic_polynomial_max.py:206-221 | IndexError on an empty list, ValueError when the item exceeds the last element, otherwise the least index whose element is at least the item (on an ascending list) |
| GeneticEngine.DiscretizerTable | genetic/homework/genetic_polynomial_max.py:112-116 | over begin < end the table has 2^bits strictly increasing entries, the first above begin, the last equal to end, consecutive entries one step (end - begin) / 2^bits apart |
| GeneticEngine.Encode | genetic/homework/genetic_polynomial_max.py:117-122 | ValueError past the last entry; otherwise bits binary digits whose value is the index of the first entry at least nr |
| GeneticEngine.DecodeFloatOfBinary | genetic/homework/genetic_polynomial_max.py:123-128 | a non-empty binary code decodes to the table entry its value indexes, or raises IndexError past the table |
| GeneticEngine.DecodeChromoWellFormed | genetic/homework/genetic_polynomial_max.py:123-133 | any bits-wide binary code decodes into a well-formed chromosome carrying that code |
| GeneticEngine.DecodeOfWellFormed | genetic/homework/genetic_polynomial_max.py:129-133 | decoding a well-formed chromosome's code gives back the chromosome |
| GeneticEngine.EncodeDecodeStep | genetic/homework/genetic_polynomial_max.py:117-128 | `decode_float(encode(steps[i])) == steps[i]` for every table entry |
| GeneticEngine.DecodeEncodeCode | genetic/homework/genetic_polynomial_max.py:117-128 | `encode(decode_float(code)) == code` for every bits-wide code |
| GeneticEngine.EncodeWithinStep | genetic/homework/genetic_polynomial_max.py:117-122 | any x of [begin, end] is encoded as a table value at least x and at most one step above it |
| GeneticEngine.GeneratePopulationSpec | genetic/homework/genetic_polynomial_max.py:223-232 | with every draw in randint's range [0, 2^bits - 1] the population has one well-formed chromosome per draw, whose code has the draw's value |
| GeneticEngine.FlipBits | genetic/homework/genetic_polynomial_max.py:144-149 | AssertionError exactly when the code holds a character other than '0' or '1'; otherwise a binary code of the same length in which bit i changes exactly when draw i is below the chance |
| GeneticEngine.MutateSpec | genetic/homework/genetic_polynomial_max.py:140-150 | mutating a well-formed chromosome succeeds and keeps it well-formed; bit i changes exactly when draw i is below the chance |
| GeneticEngine.MutateNever | genetic/homework/genetic_polynomial_max.py:140-150 | a chance of 0 (draws in [0, 1)) leaves the chromosome unchanged |
| GeneticEngine.MutateAlways | genetic/homework/genetic_polynomial_max.py:140-150 | a chance of 1 (draws in [0, 1)) flips every bit |
| GeneticEngine.CrossoverSpec | genetic/homework/genetic_polynomial_max.py:152-162 | crossing well-formed parents at a cut within the code succeeds, returns the cut and two well-formed children, each with its own parent's bits before the cut and the other's after |
| GeneticEngine.CrossoverSwaps | genetic/homework/genetic_polynomial_max.py:152-162 | cut 0 swaps the parents |
| GeneticEngine.CrossoverKeeps | genetic/homework/genetic_polynomial_max.py:152-162 | a cut at the code length returns the parents unchanged |
| GeneticEngine.MinOf | genetic/homework/genetic_polynomial_max.py:180 | `min(f)` is a value of the list no larger than any other |
| GeneticEngine.ShiftUpNonNegative | genetic/homework/genetic_polynomial_max.py:180-182 | after the shift every fitness value is non-negative, and when the least was negative one of them is 0 |
| GeneticEngine.PrefixSumsAscending | genetic/homework/genetic_polynomial_max.py:185 | running sums of non-negative values never decrease, never exceed the total, and the last is the total |
| GeneticEngine.PrefixSumAt | genetic/homework/genetic_polynomial_max.py:185 | entry k of `accumulate(p)` is the sum of the first k + 1 values |
| GeneticEngine.RouletteTableSpec | genetic/homework/genetic_polynomial_max.py:183-189 | for non-negative fitness values: ZeroDivisionError exactly when all are 0; otherwise non-negative probabilities summing to 1, and ascending cumulative probabilities, entry k the sum of the first k + 1 probabilities, the last set to 1 |
| GeneticEngine.SelectGenDataSpec | genetic/homework/genetic_polynomial_max.py:179-189 | the table of a non-empty population is built from the shifted fitness values, which are non-negative; it fails exactly when all of them are 0 |
| GeneticGeneration.SelectChromosomes | genetic/homework/genetic_polynomial_max.py:191-204 | one pick per draw, pick k being the population member at the first cumulative probability at least draw k; it fails exactly when some draw cannot be turned into a population index |
| GeneticGeneration.EligibleSpec | genetic/homework/genetic_polynomial_max.py:297-301 | the indices put up for crossover are, in increasing order, exactly those whose draw is at most the chance |
| GeneticGeneration.CandidatesSpec | genetic/homework/genetic_polynomial_max.py:297-309 | after the shuffle and the removal of the last when odd, the candidates are an even number of distinct eligible indices, one fewer than the eligible ones exactly when those are odd in number |
| GeneticGeneration.PairUpDisjoint | genetic/homework/genetic_polynomial_max.py:311-315 | pairing up distinct candidates two by two puts every index in at most one pair, pair i being (c[2i], c[2i + 1]) |
| GeneticGeneration.CrossoverCandidates | genetic/homework/genetic_polynomial_max.py:293-309 | the collecting loop, shuffle and drop produce exactly the candidates above |
| GeneticGeneration.CrossPairs | genetic/homework/genetic_polynomial_max.py:311-315 | after the pair loop the pairs are the candidates paired up; each pair holds the two children of its parents at its cut, and an index in no pair is unchanged |
| GeneticGeneration.ChildrenSpec | genetic/homework/genetic_polynomial_max.py:315 | crossing well-formed parents at a cut within the code gives well-formed children, those of `crossover` |
| GeneticGeneration.MutateAllSpec | genetic/homework/genetic_polynomial_max.py:337 | mutating well-formed chromosomes succeeds, one mutated chromosome per position, all well-formed |
| GeneticGeneration.MutateStage | genetic/homework/genetic_polynomial_max.py:337 | the mutation stage keeps the length and well-formedness, chromosome k mutated with its own draws |
| GeneticGeneration.FirstArgMax | genetic/homework/genetic_polynomial_max.py:272 | `max(range(n), key=f.__getitem__)`: an index of a maximal value, and the first such |
| GeneticGeneration.Picked | genetic/homework/genetic_polynomial_max.py:199-201 | the roulette's pick for a draw in [0, 1) is a member of the population |
| GeneticGeneration.Roulette | genetic/homework/genetic_polynomial_max.py:279-286 | the roulette stage fails (ZeroDivisionError) exactly when the table does; otherwise one pick per draw, in draw order, each a member of the population |
| GeneticGeneration.CrossoverStage | genetic/homework/genetic_polynomial_max.py:293-326 | the crossover stage keeps every chromosome well-formed; its pairs are the shuffled eligible candidates paired up, disjoint, every index in them drawn at most the chance, and each pair crossed at its cut |
| GeneticGeneration.Breed | genetic/homework/genetic_polynomial_max.py:293-337 | crossover then mutation: same number of well-formed chromosomes, paired and bred as the stages prescribe |
| GeneticGeneration.ElitismKeepsBest | genetic/homework/genetic_polynomial_max.py:345-346 | a population ending with a copy of the previous best is at its best at least as fit as the previous one |
| GeneticGeneration.Generation | genetic/homework/genetic_polynomial_max.py:270-349 | one generation: ValueError on an empty population, ZeroDivisionError exactly when the roulette table fails; otherwise a well-formed population of the same size produced by the stages, and under elitism the last member is the previous best, so the best fitness never drops |
| GeneticGeneration.NextPopulation | genetic/homework/genetic_polynomial_max.py:293-349 | crossover and mutation of the selected chromosomes, then under elitism the previous best appended: same size, well-formed, best fitness kept |
| GeneticGeneration.Evolve | genetic/homework/genetic_polynomial_max.py:270-355 | the generation loop and the final max: ValueError on an empty population; otherwise the populations it goes through form a run of generation steps from the initial one; it stops with ZeroDivisionError exactly at the first population whose roulette table fails, and otherwise runs every generation and answers the first fittest member of the last population, which is well-formed and of the initial size; under elitism that population's best fitness is at least the initial best |
| GeneticGeneration.Advance | genetic/homework/genetic_polynomial_max.py:270-349 | one pass of the generation loop on the last population of a run: ZeroDivisionError exactly when its roulette table fails, otherwise a well-formed population of the same size that extends the run by one step |
| GeneticGeneration.GenerationIsStep | genetic/homework/genetic_polynomial_max.py:270-349 | a successful generation computes the next population of the generation-step relation (roulette picks, crossed along the shuffled pairs, mutated, the previous best appended under elitism) |
| GeneticGeneration.StepUnique | genetic/homework/genetic_polynomial_max.py:270-349 | one generation has one outcome: for the same population, draws and shuffle the next population is unique |
| GeneticGeneration.TraceUnique | genetic/homework/genetic_polynomial_max.py:270-349 | two runs from the same population with the same draws and shuffles agree on every generation they both reach |
| GeneticGeneration.TraceKeepsBest | genetic/homework/genetic_polynomial_max.py:270-349 | under elitism the best fitness of the last population of a run is at least that of the first |
| KnapsackTable.PickedPrefix | knapsack/discrete_knapsack.c:19-22 | deciding one more item adds its amount exactly when it is taken |
| KnapsackTable.BestAttained | knapsack/discrete_knapsack.c:19-26 | the entry DP[i][w] (w >= 0) is attained: some choice of the first i items weighs at most w and is worth exactly the entry |
| KnapsackTable.BestBounds | knapsack/discrete_knapsack.c:19-26 | no choice of the first i items weighing at most w is worth more than DP[i][w] (non-negative weights) |
| KnapsackTable.BestIsOptimal | knapsack/discrete_knapsack.c:23-26 | DP[n][W] is the largest value of a choice of items whose weight fits in W |
| KnapsackTable.BestGrows | knapsack/homework_knapsack.c:47-50 | considering one more item never lowers an entry |
| KnapsackTable.BestNonNegative | knapsack/homework_knapsack.c:44-50 | every entry is at least 0 |
| KnapsackTable.BestWithinCapacity | knapsack/homework_knapsack.c:41-50 | when value equals weight, an entry never exceeds its capacity |
| HomeworkKnapsack.KnapsackOptimal | knapsack/homework_knapsack.c:37-98 | the two-row table returns DP[n][W] for value = weight, which lies in [0, W] |
| HomeworkKnapsack.Comparator | knapsack/homework_knapsack.c:102-106 | negative when a > b, 0 when equal, positive when a < b (descending order) |
| HomeworkKnapsack.DescendingIsTotalPreorder | knapsack/homework_knapsack.c:102-106 | the order the comparator defines is total and transitive, so qsort's result is well defined |
| HomeworkKnapsack.GreedyTakesPrefix | knapsack/homework_knapsack.c:128-142 | the greedy answer is the sum of the first k items, fits in the capacity, and the item it stops at does not fit in what is left |
| HomeworkKnapsack.KnapsackApproximation | knapsack/homework_knapsack.c:115-143 | the weights end up a permutation of the input in descending order, and the answer is the greedy sum over them, at most the capacity |
| HomeworkKnapsack.GreedyHalf | knapsack/homework_knapsack.c:126-142 | on weights sorted in descending order, each at most the capacity, the greedy answer takes every item or more than half the capacity |
| HomeworkKnapsack.BestAtMostTotal | knapsack/homework_knapsack.c:41-50 | with value equal to weight, an entry is at most the total weight of the items considered |
| HomeworkKnapsack.TwoApproximation | knapsack/homework_knapsack.c:108-114 | for weights in [1, W], twice the greedy answer over the sorted weights is at least the optimum |
| HomeworkKnapsack.RunTest | knapsack/homework_knapsack.c:145-156 | with the drawn capacity and weights as inputs, the driver's assertion `approximation * 2 >= optimal` always holds |
| DiscreteKnapsack.KnapsackOptimal | knapsack/discrete_knapsack.c:17-66 | the two-row table with values returns DP[n][W], the best value of a choice of items that fits |
| FractionalKnapsack.Comparator | fractional_knapsack.c:16-21 | negative when a has the larger ratio, positive when b has, 0 on equal ratios |
| FractionalKnapsack.ByRatioIsTotalPreorder | fractional_knapsack.c:16-21 | the comparator's order is total and transitive |
| FractionalKnapsack.SortByRatio | fractional_knapsack.c:47 | the qsort call leaves a permutation of the items in descending order of ratio |
| FractionalKnapsack.FractionalKnapsack | fractional_knapsack.c:39-73 | the items end up sorted by ratio (a permutation of the input) and the answer is the greedy fill over them |
| FractionalKnapsack.FillSpec | fractional_knapsack.c:49-72 | with k whole items taken: all items taken gives their total value as an integer; otherwise item k does not fit, and with weight left a double adds the sliced share of item k to the total, with none left the total is an integer |
| FractionalKnapsack.WholeItems | fractional_knapsack.c:52-57 | the whole items taken leave a non-negative weight (from a non-negative capacity) that item k exceeds, and the answer is the fill of the items from k on with what is left |
| FractionalKnapsack.AllFit | fractional_knapsack.c:52-72 | when all items together fit, the answer is their total value as an integer |
| IntervalTester.CoveredExtend | tester.py:43-45 | after marking interval j, a point is marked exactly when an earlier interval or interval j contains it |
| IntervalTester.CheckIsPossible | tester.py:41-46 | the marking loop answers true exactly when every point of [cover_begin, cover_end] lies in some interval, for a problem whose range and intervals lie within [MIN_INTERVAL_BEGIN, MAX_INTERVAL_END] |
| IntervalTester.MoreIntervals | tester.py:41-46 | a cover stays a cover when every interval of it is among a larger list's intervals |
| IntervalTester.AddIntervals | tester.py:41-46 | adding intervals to a coverable problem keeps it coverable |
| IntervalTester.NatText | tester.py:23-25 | the decimal text of a natural number is non-empty and all digits |
| IntervalTester.IntText | tester.py:23-25 | the text of an integer consists of a minus sign and digits |
| IntervalTester.NatTextValue | tester.py:23-25 | the digits written for n read back as n |
| IntervalTester.IntTextRoundTrip | tester.py:23-25 | an integer's text is non-empty, digits after the first character, and `int` reads it back as the integer |
| IntervalTester.IntervalLines | tester.py:25 | one line per interval |
| IntervalTester.SplitLines | tester.py:91 | `split('\n')` always gives at least one piece |
| IntervalTester.SplitAfterLine | tester.py:91 | splitting a line without a newline followed by "\n" and more text gives that line, then the pieces of the rest |
| IntervalTester.SplitJoined | tester.py:25-26 | splitting lines joined by "\n", then "\n" and more text, gives back the lines, then the pieces of the rest |
| IntervalTester.PairTextOneLine | tester.py:23 | the text "x y" of a pair holds no newline |
| IntervalTester.FormatLines | tester.py:18-27 | the problem's text splits into its header line, the count line and one line per interval, then an empty piece; with no intervals the empty join leaves two empty pieces |
| IntervalTester.ThreeLines | tester.py:23-26 | two single lines, a body and a final newline split into the two lines, the body's lines and an empty piece |
| IntervalTester.BodyLines | tester.py:25-26 | the joined interval lines followed by "\n" split back into those lines and an empty piece |
| IntervalTester.PickIntervals | tester.py:106-112 | when every index is valid, one interval is picked per printed index |
| IntervalTester.PickIntervalsSpec | tester.py:106-112 | the picking succeeds exactly when every `index - 1` is a valid Python index (negative ones counting from the end); then entry k is the interval it names; a failure reports a printed index that is out of range |
| IntervalTester.SingleLineVerdict | tester.py:93-97 | a one-line answer is accepted exactly when the problem is impossible |
| IntervalTester.TwoLinesVerdict | tester.py:99-119 | a two-line answer is accepted exactly when its count matches its indexes, every index names an interval and the named intervals cover the range; an index out of range is reported as such; an accepted answer means the problem was possible |
| IntervalCover.TableEnds | intervals.c:91 | the end table has MAX_INTERVAL_END + 1 entries |
| IntervalCover.TableIndex | intervals.c:92 | the index table has MAX_INTERVAL_END + 1 entries |
| IntervalCover.ReadIntervals | intervals.c:36-52 | the reading completes exactly when the count is in (0, MAX_INTERVALS] and every interval has begin < end and both translated ends within MAX_INTERVAL_END; the tables then hold, per position, the furthest end of an interval starting there and its number |
| IntervalCover.SlotSpec | intervals.c:47-50 | an entry is at least its initial value and at least the end of every interval starting at its position; when it holds a number, that interval starts there, ends at the entry, and every earlier interval starting there ends strictly before; number 0 means no interval starts there |
| IntervalCover.ExtendChoice | intervals.c:68-86 | choosing the furthest-reaching entry among those scanned up to reachable + 1 keeps the greedy invariant: the chosen positions increase and together with the range's start cover everything up to the new reachable end |
| IntervalCover.ChooseIntervals | intervals.c:54-88 | the answer is 0 only when the range is empty or some position of it lies beyond every entry starting at or before it; otherwise at most one number per position, the chosen entries reach across the whole range, and the scanned positions strictly increase |
| IntervalCover.CoverHasNoGap | intervals.c:68-86 | if the chosen entries cover every position of the range, there is no gap |
| IntervalCover.GapImpossible | intervals.c:80-82 | a gap in the table (with empty entries below every position) means no set of the input's intervals covers the range |
| IntervalCover.ChoiceCovers | intervals.c:84-87 | the numbers chosen over a table with empty entries below every position name input intervals starting at the chosen positions, and those intervals cover the range |
| IntervalCover.Named | intervals.c:105-111 | one interval per printed number |
| IntervalCover.PhantomCover | intervals.c:91-92 | with the table's empty entries at 0, the problem (-100000, -99999) with the single interval (-99999, -99998) has no gap, position 0 holding end 0 and number 0, although -100000 is in no interval |
| IntervalCover.Solve | intervals.c:90-113 | an assertion exit exactly when begin >= end or the intervals are rejected; otherwise 0 exactly when the problem is impossible, else numbers of input intervals that cover the range, at most MAX_INTERVALS of them, and the tester accepts the output |
| IntervalCover.ChosenAreIntervals | intervals.c:105-111 | every interval a printed number names is one of the input intervals |
| IntervalCover.ChosenFitBuffer | intervals.c:93 | the chosen numbers fit in the chosen_intervals buffer of MAX_INTERVALS entries |
| IntervalCover.DistinctNumbers | intervals.c:84-85 | numbers chosen at increasing positions are pairwise distinct |
| IntervalCover.AcceptedByTester | tester.py:102-119 | a non-empty choice of valid numbers whose intervals cover the range passes the tester |
| Plane.CrossSwap | geometry/orientation.c:14 | exchanging the last two points negates the orientation determinant |
| Plane.CrossSwapFirst | geometry/orientation.c:14 | exchanging the first two points negates it |
| Plane.CrossRotate | geometry/orientation.c:14 | a cyclic rotation of the three points keeps it |
| Plane.CrossRepeat | geometry/orientation.c:14 | it is 0 when a point is repeated |
| Plane.InInterval | geometry/point_convex_poly.c:23-27 | in_interval: p lies between a and b, whichever of them is smaller |
| Plane.InIntervalSymmetric | geometry/point_convex_poly.c:23-27 | the order of the ends does not matter |
| Plane.BoundingBox | geometry/point_convex_poly.c:85-91 | the min/max scan gives the smallest box holding the points: every point lies in it and each side is attained by a point |
| Orientation.Classify | geometry/orientation.c:14-21 | TOUCH exactly when the determinant is 0, LEFT exactly when positive, RIGHT exactly when negative |
| Orientation.SwapMirrors | geometry/orientation.c:14-21 | exchanging q and r turns LEFT into RIGHT and back, and keeps TOUCH |
| Orientation.EndpointsTouch | geometry/orientation.c:14-21 | p and q themselves touch the line through p and q |
| Orientation.Answers | geometry/orientation.c:8-23 | one answer per query, each the classification of its three points |
| Roby.Turns | geometry/roby.c:14-21 | n points give n - 1 triples, the last closing back to the first point |
| Roby.CountsPartition | geometry/roby.c:22-29 | every triple is counted exactly once as left, right or touch |
| Roby.CountTurns | geometry/roby.c:8-35 | the three counters are the numbers of left, right and touching triples among the n - 1 consecutive triples (the last one wrapping to the first point), together n - 1; all 0 for n < 2 |
| CircleTest.IsLeftTurn | geometry/point_circumscribed_circle_position.c:17-20 | true exactly when the determinant is positive |
| CircleTest.PositionOf | geometry/point_circumscribed_circle_position.c:28-45 | BOUNDARY, INSIDE, OUTSIDE exactly when the in-circle determinant is 0, positive, negative |
| CircleTest.VerticesOnCircle | geometry/point_circumscribed_circle_position.c:28-45 | each vertex of the triangle is on the boundary |
| CircleTest.SwapTriangle | geometry/point_circumscribed_circle_position.c:28-45 | exchanging b and c negates the in-circle determinant |
| CircleTest.Translate | geometry/point_circumscribed_circle_position.c:28-45 | moving all four points by the same vector keeps the in-circle determinant |
| CircleTest.Centered | geometry/point_circumscribed_circle_position.c:28-45 | for a triangle on the circle of squared radius r2 centred at the origin, the determinant is (r2 - \|p\|^2) times the triangle's orientation |
| CircleTest.LatticeCentre | geometry/point_circumscribed_circle_position.c:28-45 | for a counter-clockwise triangle on the circle of lattice centre o and squared radius r2: INSIDE, BOUNDARY, OUTSIDE exactly when p is closer than, as far as, further than r2 from o |
| CircleTest.ScaleCross | geometry/point_circumscribed_circle_position.c:17-20 | stretching the three points by k multiplies the orientation by k^2 |
| CircleTest.ScaleColumns | geometry/point_circumscribed_circle_position.c:22-26 | scaling the first two columns by k and the third by m multiplies det_3d by k^2 m |
| CircleTest.ScaleDet | geometry/point_circumscribed_circle_position.c:28-45 | stretching all four points by k multiplies the in-circle determinant by k^4, so a positive k keeps the answer |
| CircleTest.InCircleMeaning | geometry/point_circumscribed_circle_position.c:28-45 | for a counter-clockwise triangle on any circle with centre o / den (den > 0) and squared radius r2 / den^2: INSIDE, BOUNDARY, OUTSIDE exactly when den * p is closer to o than, as far as, further than the scaled radius |
| CircleTest.Circumcentre | geometry/point_circumscribed_circle_position.c:28-45 | the point o with den = 2 * orientation such that den * a, den * b, den * c are all at the same distance from o, i.e. o / den is the circumcentre |
| CircleTest.InCircumcircle | geometry/point_circumscribed_circle_position.c:28-45 | for every counter-clockwise triangle, INSIDE, BOUNDARY, OUTSIDE exactly when p is inside, on, outside its circumcircle |
| CircleTest.HalfIntegerCentre | geometry/point_circumscribed_circle_position.c:28-45 | the triangle (0, 0), (1, 0), (0, 1) has den 2 and centre (1/2, 1/2), a circle that is not lattice-centred |
| CircleTest.Run | geometry/point_circumscribed_circle_position.c:47-63 | exit with an error exactly when a, b, c are not counter-clockwise; otherwise one answer per query, its position |
| IllegalEdges.Check | geometry/illegal_edges.c:42-48 | AC is illegal exactly when d is inside the circle of a, b, c; BD exactly when c is inside the circle of a, b, d |
| IllegalEdges.CocircularIsLegal | geometry/illegal_edges.c:37-45 | a d on the circle of a, b, c leaves AC legal |
| IllegalEdges.IllegalMeansInside | geometry/illegal_edges.c:45 | for a counter-clockwise a, b, c on the circle of centre o / den and squared radius r2 / den^2, AC is illegal exactly when d is strictly inside that circle |
| IllegalEdges.IllegalIffInCircumcircle | geometry/illegal_edges.c:45 | for every counter-clockwise a, b, c, AC is illegal exactly when d is strictly inside their circumcircle |
| IllegalEdges.RepeatedVertexIsLegal | geometry/illegal_edges.c:45-46 | a fourth point equal to a vertex never makes an edge illegal |
| ConvexPoly.InSegmentCollinear | geometry/point_convex_poly.c:28-32 | for p on the line through two distinct points, in_segment's one-coordinate test is the same as p lying in the box of the segment |
| ConvexPoly.Interpolate | geometry/point_convex_poly.c:28-32 | on a non-vertical line, a point whose x lies between the ends has its y between them too |
| ConvexPoly.TrigCheck | geometry/point_convex_poly.c:41-51 | INSIDE exactly when p is strictly on the same side of all three edges; BOUNDARY only for a point on an edge's line and within that edge |
| ConvexPoly.TriangleCorners | geometry/point_convex_poly.c:41-51 | the corners a and b are on the boundary, and c too when the triangle is not degenerate |
| ConvexPoly.VerticesOnBoundary | geometry/point_convex_poly.c:54-77 | in a polygon whose vertices fan out counter-clockwise from vertex 0, every vertex is answered BOUNDARY |
| ConvexPoly.VertexOnBoundary | geometry/point_convex_poly.c:54-77 | the halving search answers BOUNDARY for each vertex after the apex of such a polygon |
| ConvexPoly.ApexOnBoundary | geometry/point_convex_poly.c:54-77 | the apex itself is answered BOUNDARY, for any polygon of at least three vertices |
| ConvexPoly.Diagonal | geometry/point_convex_poly.c:59-66 | with four vertices or more, vertex 0 and the middle vertex are BOUNDARY, and any other point on the dividing line is INSIDE exactly when it lies within the diagonal, and never BOUNDARY |
| ConvexPoly.CheckPointInConvex | geometry/point_convex_poly.c:54-77 | the recursion, overwriting and restoring the vertex before the middle one, answers the halving search over the polygon as it was, and leaves the array as it found it |
| ConvexPoly.NextCallShrinks | geometry/point_convex_poly.c:67-76 | from four vertices on, each recursive call is on a sub-polygon of at least three and fewer vertices inside the current one |
| ConvexPoly.TwoVerticesRecurseForever | geometry/point_convex_poly.c:59-76 | with two vertices either recursive call has the same start and length as the current one; (0, 0), (2, 2) with query (1, 0) is in the box and off the line |
| ConvexPoly.TwoVertices | geometry/point_convex_poly.c:59-76 | the corrected two-vertex polygon answers as a segment: BOUNDARY exactly at its ends, INSIDE exactly strictly between them, OUTSIDE off its line |
| ConvexPoly.OneVertex | geometry/point_convex_poly.c:79-128 | with a single vertex (or none) the box is that point: the answer is BOUNDARY for it and OUTSIDE for every other point |
| ConvexPoly.OnDiagonal | geometry/point_convex_poly.c:59-66 | a point on the line of the dividing diagonal is BOUNDARY at its ends, INSIDE strictly between them and OUTSIDE beyond |
| ConvexPoly.CheckLowerHalf | geometry/point_convex_poly.c:74-76 | the lower-half call answers the halving search over the apex and the vertices up to the middle one, and leaves the array as it was |
| ConvexPoly.CheckUpperHalf | geometry/point_convex_poly.c:67-73 | the upper-half call answers the halving search over the apex and the vertices from the middle on, and restores the array |
| ConvexPoly.WrongOrder | geometry/point_convex_poly.c:94-104 | the flag is set exactly when the first non-collinear triple from the one ending at index 3 turns clockwise |
| ConvexPoly.Run | geometry/point_convex_poly.c:79-128 | for any vertex count from 0 (vertex 0 is read regardless): the box is the bounding box of the vertices read; the array holds the vertices reversed exactly when the order check fires, unchanged beyond n; one answer per query: OUTSIDE outside the box, the halving search otherwise |
| ConvexPoly.AnswerQueries | geometry/point_convex_poly.c:114-127 | one answer per query as above, and the array is unchanged |
| ConvexPolygon.Abs | geometry/point_in_convex_polygon.c:11-13 | abs64 is non-negative and is x or -x |
| ConvexPolygon.Minimize | geometry/point_in_convex_polygon.c:15-17 | the new minimum is at most both values and is one of them |
| ConvexPolygon.Maximize | geometry/point_in_convex_polygon.c:19-21 | the new maximum is at least both values and is one of them |
| ConvexPolygon.SignedArea | geometry/point_in_convex_polygon.c:31-45 | twice the signed area of a, b, p is the orientation determinant shared with the other programs |
| ConvexPolygon.SegmentTestsAgree | geometry/point_in_convex_polygon.c:52-54 | for distinct ends, point_in_segment agrees with collinearity plus the other program's one-coordinate in_segment |
| ConvexPolygon.AreasAddUp | geometry/point_in_convex_polygon.c:56-61 | the signed areas of a, b, p; b, c, p; c, a, p add up to that of a, b, c |
| ConvexPolygon.AbsSum | geometry/point_in_convex_polygon.c:57-62 | the absolute values add up to the absolute value of the sum exactly when the three values do not have strictly opposite signs |
| ConvexPolygon.PointInTriangle | geometry/point_in_convex_polygon.c:56-65 | the area test answers OUTSIDE exactly when p is strictly on the left of one edge and strictly on the right of another, INSIDE exactly when it is strictly on one side of all three |
| ConvexPolygon.TriangleTestsAgree | geometry/point_in_convex_polygon.c:56-65 | the area test and the determinant test of point_convex_poly.c answer INSIDE for the same points |
| ConvexPolygon.TriangleCorners | geometry/point_in_convex_polygon.c:56-65 | the three corners are on the boundary |
| ConvexPolygon.VertexOnBoundary | geometry/point_in_convex_polygon.c:67-93 | for a polygon fanning out counter-clockwise from vertex 0, the search answers BOUNDARY for every later vertex |
| ConvexPolygon.PointInConvexPolygon | geometry/point_in_convex_polygon.c:67-93 | two vertices or fewer is the error exit; otherwise the answer of the halving search over the polygon as it was, with the array restored |
| ConvexPolygon.SearchUpperHalf | geometry/point_in_convex_polygon.c:84-90 | the upper-half call answers the search over the apex and the vertices from the middle on, and restores the array |
| ConvexPolygon.Push | geometry/point_in_convex_polygon.c:107-118 | storing a vertex appends it, or replaces the last kept vertex when that one is the middle of a collinear triple |
| ConvexPolygon.CompactFromInput | geometry/point_in_convex_polygon.c:107-118 | the kept vertices are no more than those read, and each is one of them |
| ConvexPolygon.CompactEnds | geometry/point_in_convex_polygon.c:107-118 | the first and last vertices read are kept |
| ConvexPolygon.CompactKeepsTurns | geometry/point_in_convex_polygon.c:113-117 | when no three consecutive vertices are collinear, every vertex is kept |
| ConvexPolygon.TurnsOfPrefix | geometry/point_in_convex_polygon.c:113-117 | a prefix of a list without collinear triples has none |
| ConvexPolygon.LastTurn | geometry/point_in_convex_polygon.c:113-117 | a last vertex that turns from the two before it is appended |
| ConvexPolygon.ReadPolygon | geometry/point_in_convex_polygon.c:99-118 | the array holds the input with each collinear middle vertex dropped, and the box bounds every vertex read (the INT32 extremes when none is read) |
| ConvexPolygon.StoreVertex | geometry/point_in_convex_polygon.c:108-117 | one iteration stores the vertex as Push says |
| ConvexPolygon.CompactStep | geometry/point_in_convex_polygon.c:107-118 | reading one more vertex pushes it onto what was kept |
| ConvexPolygon.BoxOfBounds | geometry/point_in_convex_polygon.c:101-112 | the box folded from the INT32 extremes over a non-empty list bounds it |
| ConvexPolygon.WidenBox | geometry/point_in_convex_polygon.c:109-112 | widening the box by one point keeps it the bounding box |
| ConvexPolygon.Orient | geometry/point_in_convex_polygon.c:120-126 | the kept vertices are either unchanged or reversed; with at least three, reversed exactly when the first three turn clockwise |
| ConvexPolygon.AnswerQueries | geometry/point_in_convex_polygon.c:128-141 | one answer per query until the first error exit, which ends the program; OUTSIDE outside the box, the search otherwise; the array is unchanged |
| ConvexPolygon.Run | geometry/point_in_convex_polygon.c:97-142 | main: the compacted input, oriented, the bounding box of all vertices read, and the answers as above |
| PointInPolygon.StateAfter | geometry/point_in_polygon.c:31-36 | the generator's state after k calls of random, from the initial state 1, stays below 2^64 |
| PointInPolygon.Lcg.constructor | geometry/point_in_polygon.c:33 | the static state starts at 1, before any call |
| PointInPolygon.Lcg.Next | geometry/point_in_polygon.c:31-36 | random advances the state by one step of state * MUL + INC modulo 2^64 and returns its top 32 bits |
| PointInPolygon.Lcg.Next64 | geometry/point_in_polygon.c:38-40 | random64 takes two steps; the high half of its result is the first output, the low half the second |
| PointInPolygon.OnSegmentMeaning | geometry/point_in_polygon.c:25-29 | for distinct ends, in_segment holds exactly when p is collinear and within both coordinate ranges; for equal ends it only compares y |
| PointInPolygon.EndsOnSegment | geometry/point_in_polygon.c:25-29 | both ends lie on the segment |
| PointInPolygon.CrossesEitherDirection | geometry/point_in_polygon.c:100-109 | when no orientation is 0, the crossing test does not depend on the direction of the edge |
| PointInPolygon.ScanOutcome | geometry/point_in_polygon.c:83-110 | one pass of the edge loop ends with a count exactly when every remaining edge holds neither p nor a vertex on the ray, and the count is then the number of edges crossed; it stops on an edge only for an edge holding p and restarts only for a vertex on the ray |
| PointInPolygon.SearchVerdict | geometry/point_in_polygon.c:80-117 | BOUNDARY only for a point on an edge, and a point on an edge gets BOUNDARY unless the restarts run out; INSIDE or OUTSIDE is the crossing parity of some ray clear of every vertex, and the first ray decides when it is clear |
| PointInPolygon.SearchDraws | geometry/point_in_polygon.c:82-98 | the search uses at most limit - 1 fresh distant points, and the program exits exactly when the first ray and every one drawn are blocked |
| PointInPolygon.QueryVerdict | geometry/point_in_polygon.c:73-118 | every vertex of the polygon is answered BOUNDARY, unless the restarts run out, using at most 10 n - 1 draws |
| PointInPolygon.ReadPolygon | geometry/point_in_polygon.c:53-66 | the array holds the vertices followed by a copy of the first, and the box is their bounding box |
| PointInPolygon.LocatePoint | geometry/point_in_polygon.c:74-117 | one query computes the outcome of the query function: OUTSIDE outside the box, otherwise the search from the corner beyond the box with a limit of 10 n restarts |
| PointInPolygon.AnswerQueries | geometry/point_in_polygon.c:71-118 | the query loop gives the answers until the first exit |
| PointInPolygon.Run | geometry/point_in_polygon.c:52-119 | main: the bounding box of the vertices, and the answers of the queries on the closed polygon, stopping at an exit |
| SegmentTree.RootInTree | geometry/intersection_points.c:78-79 | the root, index 1 over columns 0 .. LAST_COORD, fits the array of TOTAL_COORDS * 4 + 1 slots |
| SegmentTree.ChildrenInTree | geometry/intersection_points.c:38-44 | the children 2 node and 2 node + 1 of an inner node, over the two halves split at the midpoint, fit the array too |
| SegmentTree.DescendsTransitive | geometry/intersection_points.c:38-44 | a descendant of a descendant of a node descends from the node |
| SegmentTree.DescendsChain | geometry/intersection_points.c:38-44 | two ancestors of one node lie on one path: one descends from the other |
| SegmentTree.SiblingsApart | geometry/intersection_points.c:38-44 | nothing descends from both children of a node |
| SegmentTree.ChildrenBelow | geometry/intersection_points.c:38-44 | both children descend from their parent, and the parent from neither |
| SegmentTree.RangeSumSplit | geometry/intersection_points.c:46-60 | the sum of columns l .. r splits at any m into l .. m and m + 1 .. r |
| SegmentTree.RangeSumLeft | geometry/intersection_points.c:51-52 | a range within the left half sums the same in the left child |
| SegmentTree.RangeSumRight | geometry/intersection_points.c:53-54 | a range within the right half sums the same in the right child |
| SegmentTree.SummedTotal | geometry/intersection_points.c:46-49 | in a tree whose inner nodes hold the sums of their children, a node holds the sum of all its columns |
| SegmentTree.QueryIsRangeSum | geometry/intersection_points.c:46-60 | segment_tree_query over l .. r (l <= r) returns the sum of the column values l .. r |
| SegmentTree.SubtreeFrame | geometry/intersection_points.c:46-74 | the column values and sums below a node depend only on the slots of its subtree |
| SegmentTree.ZeroTree | geometry/intersection_points.c:79 | the all-zero static array is a summed tree with every column 0 |
| SegmentTree.Add | geometry/intersection_points.c:62-74 | segment_tree_add changes only the subtree of the node, adds the value to column index and to no other column, keeps a summed tree summed, and leaves the node holding the sum of its children |
| SegmentTree.AddUp | geometry/intersection_points.c:73 | after the recursive call, recomputing the node from its children completes the update of the node |
| SegmentTree.UpSummed | geometry/intersection_points.c:73 | recomputing the node from its children keeps a summed subtree summed |
| SegmentTree.UpFrame | geometry/intersection_points.c:68-73 | the slots outside the node's subtree are unchanged, and the other child's subtree is untouched |
| SegmentTree.UpLeaves | geometry/intersection_points.c:68-73 | the column values under the node change exactly at index, by the value |
| IntersectionPoints.CompareEvents | geometry/intersection_points.c:31-36 | negative, positive or 0 as the first event is lower, higher or at the same height and kind (start before horizontal before end at one height) |
| IntersectionPoints.CompareAntisymmetric | geometry/intersection_points.c:31-36 | swapping the arguments flips the sign |
| IntersectionPoints.EventOrder | geometry/intersection_points.c:31-36 | the comparator's order is total and transitive |
| IntersectionPoints.SegmentEventsAsWritten | geometry/intersection_points.c:83-110 | the program exits for a segment that is neither vertical nor horizontal; the horizontal test at line 104 drops every horizontal segment whose first end is to the right |
| IntersectionPoints.SegmentEvents | geometry/intersection_points.c:83-110 | an error exactly for a segment that is neither vertical nor horizontal; otherwise at most two events, each within the tree |
| IntersectionPoints.SegmentEventsSymmetric | geometry/intersection_points.c:91-105 | with the corrected test the events do not depend on the order of the ends |
| IntersectionPoints.Events | geometry/intersection_points.c:83-110 | the events of all segments exist exactly when every segment is axis-parallel |
| IntersectionPoints.EventsFit | geometry/intersection_points.c:77 | at most two events per segment, so they fit in the events array, each within the tree |
| IntersectionPoints.RangeSumActive | geometry/intersection_points.c:113-121 | a tree whose columns hold the open vertical segments answers a range with their number over it |
| IntersectionPoints.AddTracks | geometry/intersection_points.c:117-120 | adding +1 for a start and -1 for an end keeps the tree's columns equal to the open vertical segments |
| IntersectionPoints.Sweep | geometry/intersection_points.c:111-122 | the loop over the events, on the all-zero tree, adds up exactly the sweep total of the events |
| IntersectionPoints.Store | geometry/intersection_points.c:97-105 | storing events appends them after the ones already stored |
| IntersectionPoints.GenerateEvents | geometry/intersection_points.c:76-110 | the reading loop succeeds exactly when every segment is axis-parallel and then stores the events of all segments in order |
| IntersectionPoints.Run | geometry/intersection_points.c:76-123 | an error exit exactly when some segment is neither vertical nor horizontal; otherwise the printed total is the number of pairs of a vertical and a horizontal segment that cross at a point that is an end of neither |
| IntersectionPoints.PermutedWellFormed | geometry/intersection_points.c:111 | sorting keeps every event within the tree |
| IntersectionPoints.CrossingsWith | geometry/intersection_points.c:113-116 | at most one crossing per vertical segment |
| IntersectionPoints.CrossingPairs | geometry/intersection_points.c:113-116 | at most one crossing per pair |
| IntersectionPoints.SeenPermutation | geometry/intersection_points.c:111 | what a horizontal event counts does not depend on the order of the events before it |
| IntersectionPoints.SweepStep | geometry/intersection_points.c:114-116 | on sorted events, the query for a horizontal event counts the events sorted before it over its columns |
| IntersectionPoints.SweepIsSeen | geometry/intersection_points.c:113-121 | on sorted events, the running total is the sum over the horizontal events of what each counts |
| IntersectionPoints.SegmentSeen | geometry/intersection_points.c:90-105 | the events of one segment contribute 1 to a horizontal segment's query exactly when the two cross away from their ends |
| IntersectionPoints.SeenCountsCrossings | geometry/intersection_points.c:113-116 | the query of a horizontal segment counts exactly the segments it crosses |
| IntersectionPoints.SegmentSeenByAll | geometry/intersection_points.c:113-116 | the queries of one segment's events count the segments it crosses (none for a vertical one) |
| IntersectionPoints.SeenByAllCountsPairs | geometry/intersection_points.c:113-121 | over all horizontal events, the queries count the crossing pairs |
| IntersectionPoints.SweepCounts | geometry/intersection_points.c:111-122 | any sorted permutation of the generated events sweeps to the number of crossing pairs |
| IntersectionPoints.NoHorizontalNoTotal | geometry/intersection_points.c:113-121 | without horizontal events the total is 0 |
| IntersectionPoints.DroppedHorizontal | geometry/intersection_points.c:104 | for the vertical (0, -1)-(0, 1) and the horizontal (1, 0)-(-1, 0), which cross once, the events as written sweep to 0 in any order |
| IntersectionPoints.AdjacentHorizontal | geometry/intersection_points.c:100-105 | as written, the horizontal (0, 0)-(1, 0) yields an event whose begin exceeds its end by one (a query the tree functions do not accept); the corrected test yields none |
| TspHull.Square | geometry/tsp_convex_hull.c:16-18 | a square is non-negative and 0 only for 0 |
| TspHull.SquaredDistance | geometry/tsp_convex_hull.c:20-22 | the squared distance is non-negative and 0 exactly between equal points |
| TspHull.SquaredDistanceSymmetric | geometry/tsp_convex_hull.c:20-22 | it does not depend on the order of the points |
| TspHull.LeftmostLowest | geometry/tsp_convex_hull.c:33-43 | for at least one point, the result is one of the points, the leftmost and among those the lowest; for fewer it is the first slot |
| TspHull.Comparator | geometry/tsp_convex_hull.c:47-55 | -1 exactly when b turns left from a seen from the pivot, or the two are collinear with it and a is nearer; 1 otherwise, never 0 |
| TspHull.LowestFirst | geometry/tsp_convex_hull.c:47-55 | the pivot compares before every other point |
| TspHull.ComparatorFlips | geometry/tsp_convex_hull.c:47-55 | for points not collinear with the pivot, swapping the arguments flips the answer |
| TspHull.StackPop | geometry/tsp_convex_hull.c:67-69 | popping the stack keeps its invariant: increasing indices of points read, no right turn at any three consecutive entries |
| TspHull.StackPush | geometry/tsp_convex_hull.c:70 | pushing the next point when it makes no right turn with the top two keeps the invariant |
| TspHull.BuildStack | geometry/tsp_convex_hull.c:65-71 | the stack over all sorted points makes no right turn anywhere, its indices increase, and it starts at the first point and ends at the last |
| TspHull.PopRightTurns | geometry/tsp_convex_hull.c:67-69 | the pop loop keeps the invariant, keeps at least one entry once a point was pushed, and stops when the top two and the next point make no right turn |
| TspHull.MarkAdded | geometry/tsp_convex_hull.c:72-74 | exactly the points on the stack are newly marked as added |
| TspHull.SortAroundLowest | geometry/tsp_convex_hull.c:58-60 | the pivot is the leftmost-lowest point and the points end up in the comparator's sorted order |
| TspHull.ConvexHull | geometry/tsp_convex_hull.c:57-76 | convex_hull: the pivot, the points sorted around it, the stack over them as above, and exactly the stacked points marked as added |
| Cover.LeftmostBottom | geometry/cover.c:24-29 | the earliest index of the lowest point, the leftmost among the lowest; 0 with no points |
| Cover.RotationPermutes | geometry/cover.c:30-32 | the two memcpy calls give a permutation of the points that starts with the chosen one |
| Cover.Rotate | geometry/cover.c:30-32 | points holds tmp rotated to start at the chosen index; the rest of points is untouched |
| Cover.KeptPrefix | geometry/cover.c:33-40 | a prefix of the stack is still a subsequence of the rotated points starting with the first |
| Cover.KeptPush | geometry/cover.c:38-39 | pushing a later point keeps the stack a subsequence of the rotated points |
| Cover.LeftTurnsPrefix | geometry/cover.c:35-37 | a prefix of a stack of strict left turns has only strict left turns |
| Cover.LeftTurnsPush | geometry/cover.c:35-39 | pushing a point that turns strictly left from the top two keeps only strict left turns |
| Cover.PopNonLeft | geometry/cover.c:35-37 | the pop loop keeps only strict left turns and stops at the bottom or where the top two and the next point turn strictly left |
| Cover.Scan | geometry/cover.c:33-40 | after the scan, the stack is a subsequence of the rotated points starting with the first, and every three consecutive entries turn strictly left |
| Cover.ScanStep | geometry/cover.c:34-40 | one iteration of the scan keeps that invariant |
| Cover.Close | geometry/cover.c:41-43 | the closing loop keeps only strict left turns and stops at the bottom or where the top two and the first point turn strictly left |
| Cover.Load | geometry/cover.c:18-23 | the points read are the first n slots of tmp |
| Cover.ScanAndClose | geometry/cover.c:33-43 | the scan and the closing loop: the first point stays, the stack is a subsequence of the rotated points, it has only strict left turns, and its top turns strictly left towards the first point; with fewer than two points, one entry |
| Cover.Run | geometry/cover.c:17-48 | main: at least one and at most n points printed ((0, 0) alone for n = 0), starting with the lowest-leftmost point, taken in order from the rotated input, turning strictly left everywhere, closing back to the first |
| MonotonePolygon.Coords | geometry/monotone_polygon.c:34-53 | the coordinate of every vertex along the axis |
| MonotonePolygon.FirstHighestIndex | geometry/monotone_polygon.c:35-42 | the first loop finds the first index of the greatest coordinate |
| MonotonePolygon.FirstHighestUnique | geometry/monotone_polygon.c:35-42 | that index is unique |
| MonotonePolygon.Walk | geometry/monotone_polygon.c:44-52 | the walk from index h visits the n coordinates from h onward, wrapping around, and returns to h |
| MonotonePolygon.RiseBeforeStep | geometry/monotone_polygon.c:50 | the ascending flag after one more step is set exactly when it was or that step goes up |
| MonotonePolygon.FallAfterRiseStep | geometry/monotone_polygon.c:49 | one more step completes a fall after a rise exactly when it goes down after some earlier step went up |
| MonotonePolygon.NoFallAfterRiseIsValley | geometry/monotone_polygon.c:43-52 | the walk never falls after rising exactly when it only descends to some turning point and only ascends after it: one chain down and one chain up |
| MonotonePolygon.FirstRise | geometry/monotone_polygon.c:50 | the first step that goes up (or the end), with no rise before it |
| MonotonePolygon.ConstantIsMonotone | geometry/monotone_polygon.c:43-52 | a polygon with a constant coordinate is monotone along that axis |
| MonotonePolygon.WalkStep | geometry/monotone_polygon.c:46-51 | the index advanced modulo n is the next position of the walk, and comes back to h exactly after n steps |
| MonotonePolygon.Highest | geometry/monotone_polygon.c:35-42 | the first loop's result is the first index of the greatest coordinate |
| MonotonePolygon.IsMonotone | geometry/monotone_polygon.c:13-53 | is_x_monotone / is_y_monotone answer true exactly when the walk from the highest vertex never falls after it has risen, after at most n steps |
| MonotonePolygon.Run | geometry/monotone_polygon.c:56-71 | both answers, x first, for the polygon read |
| HalfPlanes.FiledSide | geometry/point_horizontal_vertical_semiplanes.c:70-82 | filing is sound: an axis-parallel half-plane a x + b y <= -c is exactly the points on the side of -c/a (or -c/b) its list names (x at most the bound for a > 0, at least it for a < 0, likewise y for b) |
| HalfPlanes.DivideSide | geometry/point_horizontal_vertical_semiplanes.c:70-82 | dividing a x <= c by a keeps the inequality for a > 0 and turns it for a < 0 |
| PointSemiplanes.FiledMember | geometry/point_horizontal_vertical_semiplanes.c:70-82 | a value is in a side's list exactly when some half-plane filed on that side has it as its bound |
| PointSemiplanes.FiledStep | geometry/point_horizontal_vertical_semiplanes.c:70-82 | reading one more half-plane appends its bound to its own side's list and leaves the other lists alone |
| PointSemiplanes.LesserUnique | geometry/point_horizontal_vertical_semiplanes.c:34-46 | the value search_lesser must find does not depend on the order of the list |
| PointSemiplanes.GreaterUnique | geometry/point_horizontal_vertical_semiplanes.c:20-32 | the value search_greater must find does not depend on the order of the list |
| PointSemiplanes.LesserIsLesser | geometry/point_horizontal_vertical_semiplanes.c:34-46 | every non-empty list has such a value: the greatest element below x, or the least element when none is below |
| PointSemiplanes.GreaterIsGreater | geometry/point_horizontal_vertical_semiplanes.c:20-32 | every non-empty list has the least element above x, or the greatest when none is above |
| PointSemiplanes.LeTotal | geometry/point_horizontal_vertical_semiplanes.c:13-18 | double_cmp's order is total and transitive |
| PointSemiplanes.SearchGreater | geometry/point_horizontal_vertical_semiplanes.c:20-32 | on a sorted list the bisection returns the least element above x, or the last element when none is above |
| PointSemiplanes.SearchLesser | geometry/point_horizontal_vertical_semiplanes.c:34-46 | on a sorted list the bisection returns the greatest element below x, or the first element when none is below |
| PointSemiplanes.AnswersFor | geometry/point_horizontal_vertical_semiplanes.c:90-106 | one answer per query |
| PointSemiplanes.AnswersForAt | geometry/point_horizontal_vertical_semiplanes.c:90-106 | answer i is the answer for query i |
| PointSemiplanes.BoundsBetweenSentinels | geometry/point_horizontal_vertical_semiplanes.c:49-56 | with every bound within [MIN_COORD, MAX_COORD], each list holds both sentinels, lies between them, and its other values are filed bounds |
| PointSemiplanes.LesserFound | geometry/point_horizontal_vertical_semiplanes.c:96-98 | a lesser bound that is not the low sentinel is below the point and is a filed bound (or the high sentinel); when a bound lies below the point, the low sentinel is not returned |
| PointSemiplanes.GreaterFound | geometry/point_horizontal_vertical_semiplanes.c:97-99 | symmetrically for the greater bound and the high sentinel |
| PointSemiplanes.AxisEnclosed | geometry/point_horizontal_vertical_semiplanes.c:96-101 | along one axis neither search returns its sentinel exactly when some bound of the lower side is strictly below the coordinate and some bound of the upper side strictly above |
| PointSemiplanes.AnswerMeansEnclosed | geometry/point_horizontal_vertical_semiplanes.c:96-105 | YES exactly when the point has a left and a down bound strictly below it and a right and an up bound strictly above it; the bounds reported then enclose it strictly |
| PointSemiplanes.Push | geometry/point_horizontal_vertical_semiplanes.c:72 | storing a bound appends it to the list |
| PointSemiplanes.CollectedKeep | geometry/point_horizontal_vertical_semiplanes.c:70-82 | a half-plane of another side leaves a list as it was |
| PointSemiplanes.CollectedPush | geometry/point_horizontal_vertical_semiplanes.c:70-82 | appending a half-plane's bound to its side's list gives that side's list for one more half-plane |
| PointSemiplanes.Collect | geometry/point_horizontal_vertical_semiplanes.c:58-83 | the reading loop fails exactly when some half-plane has both coefficients non-zero; otherwise each array holds the sentinels followed by the bounds filed on its side |
| PointSemiplanes.File | geometry/point_horizontal_vertical_semiplanes.c:70-82 | one half-plane is filed on the side its signs name |
| PointSemiplanes.SortBounds | geometry/point_horizontal_vertical_semiplanes.c:85-88 | the qsort call leaves a sorted permutation of the list |
| PointSemiplanes.AnswerQueries | geometry/point_horizontal_vertical_semiplanes.c:90-106 | on the sorted lists, the answers are those the specification gives, one per query |
| PointSemiplanes.AnswerQuery | geometry/point_horizontal_vertical_semiplanes.c:93-105 | the four searches and the sentinel test give the specified answer |
| PointSemiplanes.Run | geometry/point_horizontal_vertical_semiplanes.c:48-107 | an error exit exactly when some half-plane is neither horizontal nor vertical; otherwise the specified answer for every query |
| PointSemiplanes.NewBounds | geometry/point_horizontal_vertical_semiplanes.c:49-52 | a fresh list of MAX_SEMIPLANES + 2 slots starting with the two sentinels |
| IntersectionSemiplanes.LesserIsLess | geometry/intersection_horizontal_vertical_semiplanes.c:15-17 | with positive denominators the cross-multiplied test is the order of the two fractions |
| IntersectionSemiplanes.Min | geometry/intersection_horizontal_vertical_semiplanes.c:19-21 | min returns one of its two arguments |
| IntersectionSemiplanes.Max | geometry/intersection_horizontal_vertical_semiplanes.c:23-25 | max returns one of its two arguments |
| IntersectionSemiplanes.MinMaxValue | geometry/intersection_horizontal_vertical_semiplanes.c:19-25 | min is at most both arguments and max at least both, as fractions |
| IntersectionSemiplanes.Run | geometry/intersection_horizontal_vertical_semiplanes.c:27-65 | the invalid-input exit exactly when some half-plane has both a and b non-zero; otherwise the verdict of the final test applied to the four bounds the loop leaves |
| IntersectionSemiplanes.BoundValue | geometry/intersection_horizontal_vertical_semiplanes.c:44-56 | the fraction a branch builds has a positive denominator and is the border's position for a proper half-plane, and is c over 0 when a == b == 0 |
| IntersectionSemiplanes.SmallBound | geometry/intersection_horizontal_vertical_semiplanes.c:28 | a border with c within MAX_COORD lies within MAX_COORD, since the divisor is a non-zero integer |
| IntersectionSemiplanes.StepGet | geometry/intersection_horizontal_vertical_semiplanes.c:44-56 | one round changes only the bound of the half-plane's side, by min for max_x and max_y and by max for min_x and min_y |
| IntersectionSemiplanes.SideStepFacts | geometry/intersection_horizontal_vertical_semiplanes.c:44-56 | one round keeps a bound a proper fraction that is either unchanged or the new border, and never looser than either |
| IntersectionSemiplanes.InfeasibleStays | geometry/intersection_horizontal_vertical_semiplanes.c:55 | once min_y is c over 0 with c > 0 no later round moves it |
| IntersectionSemiplanes.InfeasibleEnters | geometry/intersection_horizontal_vertical_semiplanes.c:55 | the half-plane 0 <= -c with c > 0 sets min_y to c over 0 |
| IntersectionSemiplanes.Prefix | geometry/intersection_horizontal_vertical_semiplanes.c:36-57 | the last half-plane read splits off the properties of the whole input |
| IntersectionSemiplanes.SideFactsPush | geometry/intersection_horizontal_vertical_semiplanes.c:36-57 | what a bound variable holds is kept by one more round |
| IntersectionSemiplanes.FoldSide | geometry/intersection_horizontal_vertical_semiplanes.c:36-57 | after the loop each bound is the placeholder or the border of one of its half-planes, and no looser than any of them (min_y when no half-plane is infeasible) |
| IntersectionSemiplanes.FoldInfeasible | geometry/intersection_horizontal_vertical_semiplanes.c:53-56 | an infeasible half-plane 0 <= -c leaves min_y as c over 0, which the final test reads as VOID |
| IntersectionSemiplanes.NotVoidFeasible | geometry/intersection_horizontal_vertical_semiplanes.c:58-59 | a verdict other than VOID means no half-plane is infeasible |
| IntersectionSemiplanes.InfeasibleEmpty | geometry/intersection_horizontal_vertical_semiplanes.c:53-56 | a point in the intersection rules out an infeasible half-plane |
| IntersectionSemiplanes.InRegionByBounds | geometry/intersection_horizontal_vertical_semiplanes.c:44-56 | a point on the inner side of every border is in the intersection |
| IntersectionSemiplanes.FoldAll | geometry/intersection_horizontal_vertical_semiplanes.c:36-57 | all four bounds hold what FoldSide states |
| IntersectionSemiplanes.NotVoidWitness | geometry/intersection_horizontal_vertical_semiplanes.c:58-64 | when the verdict is not VOID the corner (min_x, min_y) is in the intersection |
| IntersectionSemiplanes.SideValue | geometry/intersection_horizontal_vertical_semiplanes.c:28-33 | a bound still at its placeholder has the value +-2 MAX_COORD; any other lies within MAX_COORD |
| IntersectionSemiplanes.PointBetween | geometry/intersection_horizontal_vertical_semiplanes.c:44-56 | every point of the intersection is on the inner side of each bound that is not the placeholder |
| IntersectionSemiplanes.AxisOrdered | geometry/intersection_horizontal_vertical_semiplanes.c:58 | when the intersection has a point, the lower bound of an axis is at most its upper bound |
| IntersectionSemiplanes.VoidIffEmpty | geometry/intersection_horizontal_vertical_semiplanes.c:58-59 | VOID exactly when no point lies in every half-plane |
| IntersectionSemiplanes.PlaceholderIffOpen | geometry/intersection_horizontal_vertical_semiplanes.c:60 | a bound's numerator is the placeholder exactly when no half-plane bounds that side |
| IntersectionSemiplanes.UnboundedIffOpenSide | geometry/intersection_horizontal_vertical_semiplanes.c:60-61 | for a non-empty intersection, UNBOUNDED exactly when some side has no half-plane bounding it |
| IntersectionSemiplanes.BoundedInBox | geometry/intersection_horizontal_vertical_semiplanes.c:62-63 | BOUNDED means every point of the intersection lies within the box of the four bounds |
| IntersectionSemiplanes.UnboundedEscapes | geometry/intersection_horizontal_vertical_semiplanes.c:60-61 | UNBOUNDED means the intersection has points beyond any given distance on some axis |
| IntersectionSemiplanes.StepNarrows | geometry/intersection_horizontal_vertical_semiplanes.c:44-56 | a round never widens the box |

## Left out

- Reading and printing: every scanf/printf/puts, `read_two_ints` (intervals.c:18-34) with its line-length and LONG_MIN/LONG_MAX checks, and Python's input()/print. The `Run` and `Solve` members take the parsed input and return what would be printed.
- tester.py's harness (`generate_test_case`, `make_file_for_next_test`, the subprocess call and its timing, `test_forever`), the infinite random driver of knapsack/homework_knapsack.c:158-165, and geometry/point_poly_test.py (plotting and external libraries): they are I/O and test generation, not logic.
- Randomness: every value `Random`, `rand()`, `secrets.randbits` or the random point would produce is a parameter (a draw); `rng.shuffle` is a function parameter that `GeneticGeneration.Generation` requires to permute.
- Floating point: Python floats and C doubles are exact reals, so rounding (in `Polynomial.eval` and in the running sums whose error the 0.99..1.01 assertion tolerates), the log2/ceil derivation of the number of bits (taken as a parameter) and the printf formatting of results are not modelled.
- The travelling-salesman insertion heuristic (geometry/tsp_convex_hull.c:94-135) is left out: it compares floating-point sqrt costs; only the convex hull that starts the tour is modelled.
- `random_distant_point` and the sqrt bounding-box diagonal (geometry/point_in_polygon.c:42-50, 69) are left out: the far point a restart uses is a draw parameter of `PointInPolygon.LocatePoint`.
- PointInPolygon.Lcg.Next64: the two calls in `random64` are unsequenced in C; the model takes the high half first.
- The area printed for an enclosed point (geometry/point_horizontal_vertical_semiplanes.c:104) is not computed; `PointSemiplanes.AnswerFor` carries the four bounds it is computed from.
- The broken parts of the genetic draft (genetic/genetic_polynomial_max.py): `Discretize`, which uses a `self.intervals` it never sets, `mutate`, which assigns into a string, `crossover`, which takes the length of Chromosome objects, and the unfinished `main`. None of them can run.
- Verbose printing of the homework genetic program (`format_chromosome`, `print_list_wrapped`, `pprint`, the `if verbose` branches).
- Fixed-width integers are unbounded `int`. A precondition excludes overflowing inputs only for `Roby.CountTurns`, the crossing sweep and the half-plane intersection. `Roby.CountTurns` requires every difference and product of geometry/roby.c:22 to fit in 32 bits. The crossing sweep requires coordinates within the tree. The half-plane intersection requires 32-bit coefficients. Every other member computes exactly where the C program's arithmetic can overflow, and so gives the answers of exact arithmetic where C's behaviour is undefined. The lines below name each such expression. The knapsack programs' `int` sums of values and table entries are also computed exactly; an input whose optimum exceeds 32 bits overflows there and is not modelled.
- Orientation.Answers: `det` at geometry/orientation.c:14 is computed in 64 bits. Inputs whose coordinate differences or products leave the 64-bit range overflow there; the model's `Cross` is exact.
- CircleTest.Run: `det_3d` (geometry/point_circumscribed_circle_position.c:22-26) multiplies four coordinates in 64 bits, on the `pow2` lifts of :39-41. Coordinates near 10^5 already overflow: a = (0, 0), b = (100000, 0), c = (0, 100000), p = (100000, 100000) has the term 10^5 * 10^15 = 10^20. The `is_left_turn` product at :18 overflows only for far larger coordinates. `CircleDet` is exact.
- IllegalEdges.Check: the same 64-bit `det_3d` at geometry/illegal_edges.c:17-21, on the lifts of :34-36, overflows for coordinates near 10^5; `CircleDet` is exact.
- PointInPolygon.Run: `det` at geometry/point_in_polygon.c:16 multiplies 64-bit differences, and `max_x + 1`, `max_y + 1` at :80 overflow for a vertex at the largest 64-bit value; the model computes both exactly.
- Cover.Run: `det` at geometry/cover.c:13-15 multiplies 64-bit differences, which overflows for large coordinates; the model's `Cross` is exact.
- TspHull.ConvexHull: the differences at geometry/tsp_convex_hull.c:21 (`squared_distance`) and :30 (`orientation`) are 32-bit subtractions of 32-bit coordinates before the result is widened, so two points more than 2^31 - 1 apart in x or y overflow; the model's `SquaredDistance` and `Cross` are exact.
- PointSemiplanes.Run: `-c` at geometry/point_horizontal_vertical_semiplanes.c:72-81 negates a 32-bit `c` before the division converts it to double, so c = -2^31 overflows; the model negates exactly.
- ConvexPolygon.Run: requires only 32-bit coordinates, and `SignedArea` computes the differences exactly. geometry/point_in_convex_polygon.c:44 subtracts in 32 bits before widening, so two points whose x or y values lie more than 2^31 - 1 apart overflow (undefined behaviour); the model's answers are those of the intended 64-bit arithmetic. Likewise `total_area` at :61 adds three absolute areas in 64 bits; each area can approach 2^63 for coordinate spans near 2^31, so the sum overflows, while the model adds exactly.
- BinaryCodes.IntBase2Accepts: the digits are ASCII `0` and `1` only. Python's int(s, 2) also takes the zero and one digits of other scripts (Arabic-Indic, Devanagari, fullwidth, ...); the model answers ValueError for them in `IntervalEncoding.Answer` and `GeneticEngine.DecodeFloat`.
- GeneticEngine.ValidDiscretizer: requires at least one bit (as do `IntervalEncoding.ToDigits` and `FromThenTo`). The homework program derives the width as ceil(log2(...)), which is 0 when the product is in (0.5, 1]: then the table has one entry, encoding prints "0", a mutation to "1" raises IndexError in decode_float and the code "" raises ValueError. A negative width makes range(2 ** bits) raise TypeError. Neither case is modelled.
- GeneticEngine.Term: exponents are natural numbers. The program's polynomials take any int exponent; a negative one is 1 / x ** -n, and at x = 0.0 raises ZeroDivisionError. Polynomials with negative exponents are not modelled.
- ConvexPoly.Run: requires n >= 0. With n = -1 the program behaves as with 0, and with n <= -2 it reads before the array. Separately, `det` at geometry/point_convex_poly.c:19-21 multiplies 64-bit differences, which overflows for large coordinates; the model's `Cross` is exact.
- qsort is modelled by one sorting function (an insertion sort, `Util.SortPrefix`) whose result is written back into the array: the model fixes one sorted order where qsort may order equal keys differently, and the in-place swaps are not modelled.
- TspHull.ConvexHull: the comparator never returns 0 and so need not be a consistent order; qsort's result is then unspecified, and the model commits to the order the insertion sort gives.
- HomeworkKnapsack.KnapsackOptimal: requires every weight to be at most the capacity, as the driver guarantees; a heavier item makes the copy loop write past the row.
- PointSemiplanes.Run: requires a or b non-zero in every half-plane; with a == b == 0 the program divides by zero in floating point and files an infinite or NaN bound, which is not modelled.
- IntersectionSemiplanes.Run: requires every coefficient above the most negative 32-bit value, whose negation in the branches overflows.
- IntersectionSemiplanes.VoidIffEmpty: with the other theorems about the verdict, requires every c within MAX_COORD; a bound beyond the placeholder 2 MAX_COORD would be hidden by it.
- IntervalCover.Solve: requires every interval start at or above -100000 and the cover end within the table; intervals.c checks neither and would index outside its arrays.
- IntervalTester.CheckIsPossible: requires the problem within the tester's coordinate bounds; outside them Python's negative indices would wrap around the list.
- SegmentTree.QueryIsRangeSum: requires query_left <= query_right; the empty query that the as-written horizontal test can produce is only exhibited (`IntersectionPoints.AdjacentHorizontal`), not evaluated.
- MonotonePolygon.Run: requires at least one vertex; with none the program takes a remainder by zero.

## Findings

| source | as written | input that shows it | evidently intended | confidence | as-written member | corrected member |
|---|---|---|---|---|---|---|
| intervals.c:91-92, 69-79 | the table's empty slots hold end 0 and number 0, and position 0 is a real start position, so an empty slot at 0 reads as an interval that covers position 0 | cover -100000 -99999 with the single interval (-99999, -99998): the program prints a cover containing number 0, which the tester maps to the last interval, although -100000 lies in no interval | empty slots that can never be chosen, so the answer is 0 | not executed | IntervalCover.PhantomCover | IntervalCover.Solve |
| geometry/point_convex_poly.c:59-76 | with two vertices both recursive calls repeat the call unchanged (midpoint 1, length 2, vertex 0 copied onto itself) | the polygon (0, 0), (2, 2) with the query (1, 0), in the bounding box but off the line: check_point_in_convex never returns | a two-vertex polygon answered as a segment, a point off its line OUTSIDE | not executed | ConvexPoly.TwoVerticesRecurseForever | ConvexPoly.TwoVertices |
| geometry/intersection_points.c:104 | `if(x_a > x_b) continue;` skips every horizontal segment whose first end is to the right | the vertical (0, -1)-(0, 1) and the horizontal (1, 0)-(-1, 0) cross once, but the program counts 0; the horizontal (0, 0)-(1, 0) gives a query whose begin exceeds its end | `if(x_begin > x_end) continue;`, skipping only horizontals with no interior column | not executed | IntersectionPoints.DroppedHorizontal | IntersectionPoints.SweepCounts |
