/** The interval-cover solver (intervals.c). Coordinates are shifted by
    TRANSLATION_OFFSET into table positions; for every position the table
    keeps the furthest end of an interval starting there and that interval's
    1-based input number. The greedy scan then extends the covered prefix
    with the interval reaching furthest among those starting at most one
    past it. */
module IntervalCover {
  import IntervalTester

  const MaxIntervalEnd: int := 200000
  const TranslationOffset: int := 100000
  const MaxIntervals: int := 100000

  datatype Status = Completed | AssertionFailed

  function Max(a: int, b: int): int
  {
    if a > b then a else b
  }

  /** The checks read_intervals makes of one interval: begin < end, and both
      translated ends at most MAX_INTERVAL_END. */
  predicate Accepted(interval: (int, int))
  {
    && interval.0 < interval.1
    && interval.0 + TranslationOffset <= MaxIntervalEnd
    && interval.1 + TranslationOffset <= MaxIntervalEnd
  }

  /** The whole input passes read_intervals: a count in (0, MAX_INTERVALS]
      and every interval accepted. */
  predicate ValidInput(intervals: seq<(int, int)>)
  {
    0 < |intervals| <= MaxIntervals && forall k :: 0 <= k < |intervals| ==> Accepted(intervals[k])
  }

  /** No interval starts before the table (the source does not check this). */
  predicate StartsInTable(intervals: seq<(int, int)>)
  {
    forall k :: 0 <= k < |intervals| ==> intervals[k].0 + TranslationOffset >= 0
  }

  /** intervals_end[p] after reading the intervals in order, the table having
      started out holding fill everywhere: an interval starting at p replaces
      the entry when it ends strictly further. */
  function SlotEnd(intervals: seq<(int, int)>, fill: int, p: int): int
  {
    if intervals == [] then fill
    else
      var previous := SlotEnd(intervals[..|intervals| - 1], fill, p);
      var last := intervals[|intervals| - 1];
      if last.0 + TranslationOffset == p && last.1 + TranslationOffset > previous then last.1 + TranslationOffset
      else previous
  }

  /** intervals_index[p]: the 1-based number of the interval that last
      replaced entry p, or 0 when none did. */
  function SlotIndex(intervals: seq<(int, int)>, fill: int, p: int): int
  {
    if intervals == [] then 0
    else
      var last := intervals[|intervals| - 1];
      if last.0 + TranslationOffset == p && last.1 + TranslationOffset > SlotEnd(intervals[..|intervals| - 1], fill, p) then |intervals|
      else SlotIndex(intervals[..|intervals| - 1], fill, p)
  }

  function TableEnds(intervals: seq<(int, int)>, fill: int): (t: seq<int>)
    ensures |t| == MaxIntervalEnd + 1
  {
    seq(MaxIntervalEnd + 1, p requires 0 <= p => SlotEnd(intervals, fill, p))
  }

  function TableIndex(intervals: seq<(int, int)>, fill: int): (t: seq<int>)
    ensures |t| == MaxIntervalEnd + 1
  {
    seq(MaxIntervalEnd + 1, p requires 0 <= p => SlotIndex(intervals, fill, p))
  }

  /** read_intervals, for the interval count and intervals the input holds;
      an ASSERT that fails ends the program. */
  method ReadIntervals(intervals: seq<(int, int)>, intervalsEnd: array<int>, intervalsIndex: array<int>, ghost fill: int)
    returns (status: Status)
    requires intervalsEnd.Length == intervalsIndex.Length == MaxIntervalEnd + 1 && intervalsEnd != intervalsIndex
    requires forall p :: 0 <= p < intervalsEnd.Length ==> intervalsEnd[p] == fill && intervalsIndex[p] == 0
    requires StartsInTable(intervals)
    modifies intervalsEnd, intervalsIndex
    ensures status == Completed <==> ValidInput(intervals)
    ensures status == Completed ==> intervalsEnd[..] == TableEnds(intervals, fill) && intervalsIndex[..] == TableIndex(intervals, fill)
  {
    if !(0 < |intervals| <= MaxIntervals) {
      return AssertionFailed;
    }
    for x := 0 to |intervals|
      invariant forall k :: 0 <= k < x ==> Accepted(intervals[k])
      invariant forall p :: 0 <= p < intervalsEnd.Length ==>
        intervalsEnd[p] == SlotEnd(intervals[..x], fill, p) && intervalsIndex[p] == SlotIndex(intervals[..x], fill, p)
    {
      assert intervals[..x + 1][..x] == intervals[..x];
      if !(intervals[x].0 < intervals[x].1) {
        return AssertionFailed;
      }
      var intervalBegin := intervals[x].0 + TranslationOffset;
      var intervalEnd := intervals[x].1 + TranslationOffset;
      if !(intervalBegin <= MaxIntervalEnd) {
        return AssertionFailed;
      }
      if !(intervalEnd <= MaxIntervalEnd) {
        return AssertionFailed;
      }
      if intervalEnd > intervalsEnd[intervalBegin] {
        intervalsEnd[intervalBegin] := intervalEnd;
        intervalsIndex[intervalBegin] := x + 1;
      }
    }
    assert intervals[..|intervals|] == intervals;
    return Completed;
  }

  /** Entry p of the table is the largest of fill and the ends of the
      intervals starting at p; a non-zero index names the earliest interval
      with that end, and a zero index means none starts at p. */
  lemma {:induction false} SlotSpec(intervals: seq<(int, int)>, fill: int, p: int)
    requires forall k :: 0 <= k < |intervals| ==> intervals[k].0 < intervals[k].1
    requires fill <= p
    ensures SlotEnd(intervals, fill, p) >= fill
    ensures forall k :: 0 <= k < |intervals| && intervals[k].0 + TranslationOffset == p ==>
      intervals[k].1 + TranslationOffset <= SlotEnd(intervals, fill, p)
    ensures SlotIndex(intervals, fill, p) == 0 ==>
      && SlotEnd(intervals, fill, p) == fill
      && forall k :: 0 <= k < |intervals| ==> intervals[k].0 + TranslationOffset != p
    ensures SlotIndex(intervals, fill, p) != 0 ==>
      var i := SlotIndex(intervals, fill, p) - 1;
      && 0 <= i < |intervals|
      && intervals[i].0 + TranslationOffset == p
      && intervals[i].1 + TranslationOffset == SlotEnd(intervals, fill, p)
      && forall k :: 0 <= k < i && intervals[k].0 + TranslationOffset == p ==> intervals[k].1 + TranslationOffset < SlotEnd(intervals, fill, p)
  {
    if intervals != [] {
      var front := intervals[..|intervals| - 1];
      SlotSpec(front, fill, p);
      assert forall k :: 0 <= k < |front| ==> front[k] == intervals[k];
    }
  }

  /** Table position p lies in [slot, its end]. */
  predicate Spans(ends: seq<int>, slot: int, x: int)
  {
    0 <= slot < |ends| && slot <= x <= ends[slot]
  }

  /** Position x lies in the span of one of the chosen slots. */
  predicate SlotsCover(ends: seq<int>, slots: seq<int>, x: int)
  {
    exists k :: 0 <= k < |slots| && Spans(ends, slots[k], x)
  }

  /** No entry starting at or before position x reaches it. */
  predicate Unreached(ends: seq<int>, x: int)
  {
    forall p :: 0 <= p <= x && p < |ends| ==> ends[p] < x
  }

  /** A position of the range that no entry reaches. */
  predicate Gap(ends: seq<int>, coverStart: int, coverEnd: int)
  {
    exists x :: coverStart <= x <= coverEnd && Unreached(ends, x)
  }

  /** What a non-zero answer of choose_intervals consists of: table slots
      in increasing order whose ends increase, each reaching the range, whose
      spans cover it, and whose recorded numbers are the answer. */
  predicate Chose(ends: seq<int>, index: seq<int>, slots: seq<int>, chosen: seq<int>, coverStart: int, coverEnd: int)
  {
    && |ends| == |index| && |slots| == |chosen|
    && (forall k :: 0 <= k < |slots| ==> 0 <= slots[k] < |ends| && chosen[k] == index[slots[k]] && ends[slots[k]] >= coverStart)
    && (forall k, l :: 0 <= k < l < |slots| ==> slots[k] < slots[l] && ends[slots[k]] < ends[slots[l]])
    && (forall x :: coverStart <= x <= coverEnd ==> SlotsCover(ends, slots, x))
  }

  /** The answer so far, after some rounds of choose_intervals: the chosen
      slots lie before scan, are in increasing order with increasing ends,
      each reaches the range, the last one ends at reachable and together
      they cover the range up to reachable. */
  predicate Progress(ends: seq<int>, index: seq<int>, slots: seq<int>, chosen: seq<int>, coverStart: int, reachable: int, scan: int)
  {
    && |ends| == |index| && |slots| == |chosen|
    && (forall k :: 0 <= k < |slots| ==> 0 <= slots[k] < scan && slots[k] < |ends| && chosen[k] == index[slots[k]] && ends[slots[k]] >= coverStart)
    && (forall k, l :: 0 <= k < l < |slots| ==> slots[k] < slots[l] && ends[slots[k]] < ends[slots[l]])
    && (|slots| > 0 ==> ends[slots[|slots| - 1]] == reachable)
    && (|slots| == 0 ==> reachable == coverStart - 1)
    && (forall x :: coverStart <= x <= reachable ==> SlotsCover(ends, slots, x))
  }

  /** Taking a slot that lies after the previous ones, starts at most one past
      reachable and reaches beyond it keeps the answer in order and extends
      the covered part to the slot's end. */
  lemma ExtendChoice(ends: seq<int>, index: seq<int>, slots: seq<int>, chosen: seq<int>, coverStart: int, reachable: int, firstScan: int, scan: int, slot: int)
    requires Progress(ends, index, slots, chosen, coverStart, reachable, firstScan)
    requires reachable >= coverStart - 1
    requires 0 <= firstScan <= slot < scan && slot < |ends| && slot <= reachable + 1 && ends[slot] > reachable
    ensures Progress(ends, index, slots + [slot], chosen + [index[slot]], coverStart, ends[slot], scan)
  {
    var slots' := slots + [slot];
    assert forall k :: 0 <= k < |slots| ==> slots'[k] == slots[k];
    forall x | coverStart <= x <= ends[slot] ensures SlotsCover(ends, slots', x) {
      if x <= reachable {
        assert SlotsCover(ends, slots, x);
        var k :| 0 <= k < |slots| && Spans(ends, slots[k], x);
        assert slots'[k] == slots[k];
      } else {
        assert slots'[|slots|] == slot;
      }
    }
  }

  /** Strictly increasing positions, all before bound. */
  predicate Increasing(positions: seq<int>, bound: int)
  {
    && (forall i, j :: 0 <= i < j < |positions| ==> positions[i] < positions[j])
    && (forall i :: 0 <= i < |positions| ==> positions[i] < bound)
  }

  /** choose_intervals. reachable is the end of the covered prefix (cover_start
      - 1 before anything is chosen), and scan the next table position to
      look at; a round looks at every position up to reachable + 1 and takes
      the entry reaching furthest, or answers 0 when none reaches past
      reachable. The ghost slots record which entries were taken and
      examined which positions were looked at. */
  method ChooseIntervals(intervalsEnd: array<int>, intervalsIndex: array<int>, chosenIntervals: array<int>, coverStart: int, coverEnd: int)
    returns (chosen: int, ghost slots: seq<int>, ghost examined: seq<int>)
    requires intervalsEnd.Length == intervalsIndex.Length && coverEnd < intervalsEnd.Length
    requires chosenIntervals != intervalsEnd && chosenIntervals != intervalsIndex
    requires chosenIntervals.Length >= coverEnd - coverStart + 1
    modifies chosenIntervals
    ensures 0 <= chosen <= Max(0, coverEnd - coverStart + 1)
    ensures chosen == 0 ==> coverStart > coverEnd || Gap(intervalsEnd[..], coverStart, coverEnd)
    ensures chosen > 0 ==> Chose(intervalsEnd[..], intervalsIndex[..], slots, chosenIntervals[..chosen], coverStart, coverEnd)
    ensures forall i, j :: 0 <= i < j < |examined| ==> examined[i] < examined[j]
  {
    ghost var ends, index := intervalsEnd[..], intervalsIndex[..];
    var scan := 0;
    var reachable := coverStart - 1;
    chosen := 0;
    slots := [];
    examined := [];
    while reachable < coverEnd
      invariant scan >= 0 && reachable >= coverStart - 1
      invariant 0 <= chosen <= reachable - coverStart + 1 && chosen <= Max(0, coverEnd - coverStart + 1)
      invariant forall p :: 0 <= p < scan && p < |ends| ==> ends[p] <= reachable
      invariant |slots| == chosen
      invariant Progress(ends, index, slots, chosenIntervals[..chosen], coverStart, reachable, scan)
      invariant Increasing(examined, scan)
      decreases coverEnd - reachable
    {
      var best := reachable;
      var bestIndex := 0;
      ghost var bestSlot := 0;
      ghost var firstScan := scan;
      while scan <= reachable + 1
        invariant firstScan <= scan && best >= reachable
        invariant forall p :: 0 <= p < scan && p < |ends| ==> ends[p] <= best
        invariant best > reachable ==>
          firstScan <= bestSlot < scan && bestSlot <= reachable + 1
          && ends[bestSlot] == best && bestIndex == index[bestSlot]
        invariant Increasing(examined, scan)
        decreases reachable + 2 - scan
      {
        examined := examined + [scan];
        if intervalsEnd[scan] > best {
          best := intervalsEnd[scan];
          bestIndex := intervalsIndex[scan];
          bestSlot := scan;
        }
        scan := scan + 1;
      }
      if best == reachable {
        assert Unreached(ends, reachable + 1) && coverStart <= reachable + 1 <= coverEnd;
        return 0, [], examined;
      }
      ghost var before := chosenIntervals[..chosen];
      ExtendChoice(ends, index, slots, before, coverStart, reachable, firstScan, scan, bestSlot);
      chosenIntervals[chosen] := bestIndex;
      assert chosenIntervals[..chosen + 1] == before + [bestIndex];
      reachable := best;
      slots := slots + [bestSlot];
      chosen := chosen + 1;
    }
  }

  /** An answer that covers the range leaves no gap, so choose_intervals
      answers 0 exactly when the table has a gap in the range. */
  lemma CoverHasNoGap(ends: seq<int>, slots: seq<int>, coverStart: int, coverEnd: int)
    requires forall x :: coverStart <= x <= coverEnd ==> SlotsCover(ends, slots, x)
    ensures !Gap(ends, coverStart, coverEnd)
  {
    forall x | coverStart <= x <= coverEnd ensures !Unreached(ends, x) {
      assert SlotsCover(ends, slots, x);
      var k :| 0 <= k < |slots| && Spans(ends, slots[k], x);
      assert ends[slots[k]] >= x;
    }
  }

  /** On the table of valid input, a gap in the translated range is a point
      of the range that no interval contains, so the problem is impossible. */
  lemma GapImpossible(intervals: seq<(int, int)>, fill: int, coverBegin: int, coverEnd: int)
    requires ValidInput(intervals) && StartsInTable(intervals) && fill <= 0
    requires coverEnd + TranslationOffset <= MaxIntervalEnd
    requires Gap(TableEnds(intervals, fill), coverBegin + TranslationOffset, coverEnd + TranslationOffset)
    ensures !IntervalTester.Possible(IntervalTester.IntervalProblem(coverBegin, coverEnd, intervals))
  {
    var ends := TableEnds(intervals, fill);
    var x :| coverBegin + TranslationOffset <= x <= coverEnd + TranslationOffset && Unreached(ends, x);
    var raw := x - TranslationOffset;
    forall k | 0 <= k < |intervals| && intervals[k].0 <= raw ensures intervals[k].1 < raw {
      var p := intervals[k].0 + TranslationOffset;
      SlotSpec(intervals, fill, p);
      assert ends[p] < x;
    }
    assert !IntervalTester.Covered(intervals, raw);
  }

  /** On the table of valid input, an answer whose slots all reach the
      range names, for each slot, the interval starting there with the
      furthest end; those intervals cover the range. Needs every entry no
      interval starts at to hold less than the translated range start. */
  lemma ChoiceCovers(intervals: seq<(int, int)>, fill: int, coverBegin: int, coverEnd: int, slots: seq<int>, chosen: seq<int>)
    requires ValidInput(intervals) && StartsInTable(intervals) && fill <= 0
    requires fill < coverBegin + TranslationOffset
    requires Chose(TableEnds(intervals, fill), TableIndex(intervals, fill), slots, chosen, coverBegin + TranslationOffset, coverEnd + TranslationOffset)
    ensures forall k :: 0 <= k < |chosen| ==> 1 <= chosen[k] <= |intervals| && intervals[chosen[k] - 1].0 + TranslationOffset == slots[k]
    ensures IntervalTester.Possible(IntervalTester.IntervalProblem(coverBegin, coverEnd, Named(intervals, chosen)))
  {
    var ends := TableEnds(intervals, fill);
    forall k | 0 <= k < |chosen| ensures 1 <= chosen[k] <= |intervals| {
      SlotSpec(intervals, fill, slots[k]);
    }
    forall k | 0 <= k < |chosen|
      ensures Named(intervals, chosen)[k].0 + TranslationOffset == slots[k]
      ensures Named(intervals, chosen)[k].1 + TranslationOffset == ends[slots[k]]
    {
      SlotSpec(intervals, fill, slots[k]);
    }
    forall raw | coverBegin <= raw <= coverEnd ensures IntervalTester.Covered(Named(intervals, chosen), raw) {
      assert SlotsCover(ends, slots, raw + TranslationOffset);
      var k :| 0 <= k < |slots| && Spans(ends, slots[k], raw + TranslationOffset);
      assert Named(intervals, chosen)[k].0 <= raw <= Named(intervals, chosen)[k].1;
    }
  }

  /** The intervals a list of 1-based numbers names. */
  function Named(intervals: seq<(int, int)>, chosen: seq<int>): (r: seq<(int, int)>)
    requires forall k :: 0 <= k < |chosen| ==> 1 <= chosen[k] <= |intervals|
    ensures |r| == |chosen|
  {
    seq(|chosen|, k requires 0 <= k < |chosen| => intervals[chosen[k] - 1])
  }

  /** The table the program builds starts out all zeros, so an empty entry
      holds 0. When the range starts at -100000 (table position 0) and no
      interval starts there, position 0 is an entry reaching position 0: the
      table then has no gap, so choose_intervals gives a non-zero answer,
      whose first number is that entry's 0, although -100000 lies in no
      interval and the problem is impossible. */
  lemma PhantomCover()
    ensures var intervals := [(-99999, -99998)];
      && ValidInput(intervals) && StartsInTable(intervals)
      && !Gap(TableEnds(intervals, 0), 0, 1)
      && TableEnds(intervals, 0)[0] == 0 && TableIndex(intervals, 0)[0] == 0
      && !IntervalTester.Possible(IntervalTester.IntervalProblem(-100000, -99999, intervals))
  {
    var intervals := [(-99999, -99998)];
    var ends := TableEnds(intervals, 0);
    assert ends[0] == 0 && ends[1] == 2;
    forall x | 0 <= x <= 1 ensures !Unreached(ends, x) {
      assert ends[x] >= x;
    }
    assert !IntervalTester.Covered(intervals, -100000);
  }

  /** What main prints: nothing useful after a failed ASSERT, otherwise the
      count and, when it is not 0, the chosen numbers. */
  datatype Printout = AssertionExit | Printed(count: int, chosen: seq<int>)

  /** How the tester reads a printout: "0" alone is a single line, a count
      and its numbers are two lines. */
  function Answer(count: int, chosen: seq<int>): IntervalTester.Answer
  {
    if count == 0 then IntervalTester.SingleLine else IntervalTester.TwoLines(count, chosen)
  }

  /** main with the table's empty entries holding -1 instead of 0, so that an
      empty entry never reaches a range position: it answers 0 exactly when
      the problem is impossible, otherwise numbers of intervals that cover
      the range, and the tester accepts every answer. */
  method Solve(coverBegin: int, coverEnd: int, intervals: seq<(int, int)>) returns (r: Printout)
    requires StartsInTable(intervals)
    requires coverEnd + TranslationOffset <= MaxIntervalEnd
    ensures r == AssertionExit <==> !(coverBegin < coverEnd) || !ValidInput(intervals)
    ensures r.Printed? ==> r.count == |r.chosen| && 0 <= r.count <= MaxIntervals
    ensures r.Printed? ==> (r.count == 0 <==> !IntervalTester.Possible(IntervalTester.IntervalProblem(coverBegin, coverEnd, intervals)))
    ensures r.Printed? && r.count > 0 ==>
      && (forall k :: 0 <= k < r.count ==> 1 <= r.chosen[k] <= |intervals|)
      && IntervalTester.Possible(IntervalTester.IntervalProblem(coverBegin, coverEnd, Named(intervals, r.chosen)))
    ensures r.Printed? ==>
      !IntervalTester.Failed(IntervalTester.Judge(IntervalTester.IntervalProblem(coverBegin, coverEnd, intervals), Answer(r.count, r.chosen)))
  {
    if !(coverBegin < coverEnd) {
      return AssertionExit;
    }
    var toCoverBegin := coverBegin + TranslationOffset;
    var toCoverEnd := coverEnd + TranslationOffset;
    var intervalsEnd := new int[MaxIntervalEnd + 1](_ => -1);
    var intervalsIndex := new int[MaxIntervalEnd + 1](_ => 0);
    var status := ReadIntervals(intervals, intervalsEnd, intervalsIndex, -1);
    if status == AssertionFailed {
      return AssertionExit;
    }
    var chosenIntervals := new int[toCoverEnd - toCoverBegin + 1];
    var chosenLen, slots, examined := ChooseIntervals(intervalsEnd, intervalsIndex, chosenIntervals, toCoverBegin, toCoverEnd);
    var problem := IntervalTester.IntervalProblem(coverBegin, coverEnd, intervals);
    if chosenLen == 0 {
      GapImpossible(intervals, -1, coverBegin, coverEnd);
      return Printed(0, []);
    }
    var chosen := chosenIntervals[..chosenLen];
    assert SlotsCover(intervalsEnd[..], slots, toCoverBegin);
    ChoiceCovers(intervals, -1, coverBegin, coverEnd, slots, chosen);
    ChosenAreIntervals(intervals, chosen);
    IntervalTester.MoreIntervals(coverBegin, coverEnd, Named(intervals, chosen), intervals);
    ChosenFitBuffer(intervals, slots, chosen);
    AcceptedByTester(problem, chosen);
    return Printed(chosenLen, chosen);
  }

  lemma ChosenAreIntervals(intervals: seq<(int, int)>, chosen: seq<int>)
    requires forall k :: 0 <= k < |chosen| ==> 1 <= chosen[k] <= |intervals|
    ensures forall k :: 0 <= k < |chosen| ==> Named(intervals, chosen)[k] in intervals
  {
    forall k | 0 <= k < |chosen| ensures Named(intervals, chosen)[k] in intervals {
      assert Named(intervals, chosen)[k] == intervals[chosen[k] - 1];
    }
  }

  /** Distinct slots with numbers in 1..n: at most n of them (so the answer
      fits the MAX_INTERVALS entries of chosen_intervals). */
  lemma ChosenFitBuffer(intervals: seq<(int, int)>, slots: seq<int>, chosen: seq<int>)
    requires |slots| == |chosen| && |intervals| <= MaxIntervals
    requires forall k :: 0 <= k < |chosen| ==> 1 <= chosen[k] <= |intervals| && intervals[chosen[k] - 1].0 + TranslationOffset == slots[k]
    requires forall k, l :: 0 <= k < l < |slots| ==> slots[k] < slots[l]
    ensures |chosen| <= MaxIntervals
  {
    var numbers := set k | 0 <= k < |chosen| :: chosen[k];
    var all := Numbers(|intervals|);
    assert numbers <= all;
    DistinctNumbers(chosen, intervals, slots);
    SetSize(numbers, all);
  }

  lemma DistinctNumbers(chosen: seq<int>, intervals: seq<(int, int)>, slots: seq<int>)
    requires |slots| == |chosen|
    requires forall k :: 0 <= k < |chosen| ==> 1 <= chosen[k] <= |intervals| && intervals[chosen[k] - 1].0 + TranslationOffset == slots[k]
    requires forall k, l :: 0 <= k < l < |slots| ==> slots[k] < slots[l]
    ensures |set k | 0 <= k < |chosen| :: chosen[k]| == |chosen|
  {
    var numbers := set k | 0 <= k < |chosen| :: chosen[k];
    forall k, l | 0 <= k < l < |chosen| ensures chosen[k] != chosen[l] {
    }
    InjectiveSize(chosen);
  }

  lemma {:induction false} InjectiveSize(s: seq<int>)
    requires forall k, l :: 0 <= k < l < |s| ==> s[k] != s[l]
    ensures |set k | 0 <= k < |s| :: s[k]| == |s|
  {
    if s != [] {
      var front := s[..|s| - 1];
      InjectiveSize(front);
      var a := set k | 0 <= k < |front| :: front[k];
      var b := set k | 0 <= k < |s| :: s[k];
      assert b == a + {s[|s| - 1]};
      assert s[|s| - 1] !in a;
    }
  }

  /** The numbers 1..n. */
  function Numbers(n: nat): (r: set<int>)
    ensures |r| == n
    ensures forall i :: i in r <==> 1 <= i <= n
  {
    if n == 0 then {} else Numbers(n - 1) + {n}
  }

  lemma SetSize(a: set<int>, b: set<int>)
    requires a <= b
    ensures |a| <= |b|
  {
    assert b == a + (b - a);
  }

  lemma AcceptedByTester(problem: IntervalTester.IntervalProblem, chosen: seq<int>)
    requires |chosen| > 0
    requires forall k :: 0 <= k < |chosen| ==> 1 <= chosen[k] <= |problem.intervals|
    requires IntervalTester.Possible(IntervalTester.IntervalProblem(problem.coverBegin, problem.coverEnd, Named(problem.intervals, chosen)))
    ensures !IntervalTester.Failed(IntervalTester.Judge(problem, Answer(|chosen|, chosen)))
  {
    IntervalTester.PickIntervalsSpec(problem.intervals, chosen);
    var picked := IntervalTester.PickIntervals(problem.intervals, chosen);
    assert picked.chosen == Named(problem.intervals, chosen);
  }
}
