/** The randomised tester of the interval-cover solver (tester.py): the text
    of a problem as the solver reads it, the coverage oracle
    check_is_possible, and the verdict on what the solver printed. */
module IntervalTester {
  import opened Util

  const MinIntervalBegin: int := -100000
  const MaxIntervalEnd: int := 100000

  /** IntervalProblem: the range to cover and the candidate intervals, each
      an inclusive (left, right) pair of integers. */
  datatype IntervalProblem = IntervalProblem(coverBegin: int, coverEnd: int, intervals: seq<(int, int)>)

  /** Some interval of the list contains the integer x. */
  predicate Covered(intervals: seq<(int, int)>, x: int)
  {
    exists k :: 0 <= k < |intervals| && intervals[k].0 <= x <= intervals[k].1
  }

  /** Every integer of the range lies in some interval. */
  predicate Possible(p: IntervalProblem)
  {
    forall x :: p.coverBegin <= x <= p.coverEnd ==> Covered(p.intervals, x)
  }

  /** The values the oracle's table of booleans can hold: every interval and
      the range lie within [MIN_INTERVAL_BEGIN, MAX_INTERVAL_END], as the
      generator produces them. */
  predicate InBounds(p: IntervalProblem)
  {
    && MinIntervalBegin <= p.coverBegin && p.coverEnd <= MaxIntervalEnd
    && forall k :: 0 <= k < |p.intervals| ==> MinIntervalBegin <= p.intervals[k].0 && p.intervals[k].1 <= MaxIntervalEnd
  }

  lemma CoveredExtend(intervals: seq<(int, int)>, j: nat, x: int)
    requires j < |intervals|
    ensures Covered(intervals[..j + 1], x) <==> Covered(intervals[..j], x) || intervals[j].0 <= x <= intervals[j].1
  {
    if Covered(intervals[..j + 1], x) {
      var k :| 0 <= k < j + 1 && intervals[..j + 1][k].0 <= x <= intervals[..j + 1][k].1;
      if k < j {
        assert intervals[..j][k] == intervals[k];
      }
    }
    if Covered(intervals[..j], x) {
      var k :| 0 <= k < j && intervals[..j][k].0 <= x <= intervals[..j][k].1;
      assert intervals[..j + 1][k] == intervals[k];
    }
    if intervals[j].0 <= x <= intervals[j].1 {
      assert intervals[..j + 1][j] == intervals[j];
    }
  }

  /** check_is_possible: marks every position of every interval in a table
      indexed from MIN_INTERVAL_BEGIN, then checks that the range is all
      marked. */
  method CheckIsPossible(p: IntervalProblem) returns (possible: bool)
    requires InBounds(p)
    ensures possible == Possible(p)
  {
    var bools := new bool[MaxIntervalEnd - MinIntervalBegin + 1](_ => false);
    for j := 0 to |p.intervals|
      invariant forall i :: 0 <= i < bools.Length ==> bools[i] == Covered(p.intervals[..j], i + MinIntervalBegin)
    {
      var (left, right) := p.intervals[j];
      var i := left - MinIntervalBegin;
      while i < right - MinIntervalBegin + 1
        invariant left - MinIntervalBegin <= i
        invariant i == left - MinIntervalBegin || i <= right - MinIntervalBegin + 1
        invariant forall i' :: 0 <= i' < bools.Length ==>
          bools[i'] == (Covered(p.intervals[..j], i' + MinIntervalBegin) || left - MinIntervalBegin <= i' < i)
      {
        bools[i] := true;
        i := i + 1;
      }
      forall i' | 0 <= i' < bools.Length
        ensures bools[i'] == Covered(p.intervals[..j + 1], i' + MinIntervalBegin)
      {
        CoveredExtend(p.intervals, j, i' + MinIntervalBegin);
      }
    }
    assert p.intervals[..|p.intervals|] == p.intervals;
    possible := true;
    var i := p.coverBegin - MinIntervalBegin;
    while i < p.coverEnd - MinIntervalBegin + 1
      invariant p.coverBegin - MinIntervalBegin <= i
      invariant i == p.coverBegin - MinIntervalBegin || i <= p.coverEnd - MinIntervalBegin + 1
      invariant possible == forall x :: p.coverBegin <= x < i + MinIntervalBegin ==> Covered(p.intervals, x)
    {
      possible := possible && bools[i];
      i := i + 1;
    }
  }

  /** Adding intervals never turns a possible problem impossible: a range
      covered by some of the intervals is covered by all of them. */
  lemma MoreIntervals(coverBegin: int, coverEnd: int, fewer: seq<(int, int)>, more: seq<(int, int)>)
    requires forall k :: 0 <= k < |fewer| ==> fewer[k] in more
    requires Possible(IntervalProblem(coverBegin, coverEnd, fewer))
    ensures Possible(IntervalProblem(coverBegin, coverEnd, more))
  {
    forall x | coverBegin <= x <= coverEnd ensures Covered(more, x) {
      assert Covered(fewer, x);
      var k :| 0 <= k < |fewer| && fewer[k].0 <= x <= fewer[k].1;
      var m :| 0 <= m < |more| && more[m] == fewer[k];
    }
  }

  /** Appending intervals is the common case of MoreIntervals. */
  lemma AddIntervals(p: IntervalProblem, extra: seq<(int, int)>)
    requires Possible(p)
    ensures Possible(IntervalProblem(p.coverBegin, p.coverEnd, p.intervals + extra))
  {
    forall k | 0 <= k < |p.intervals| ensures p.intervals[k] in p.intervals + extra {
      assert (p.intervals + extra)[k] == p.intervals[k];
    }
    MoreIntervals(p.coverBegin, p.coverEnd, p.intervals, p.intervals + extra);
  }

  // ----- The problem text -----

  function DigitChar(d: nat): char
    requires d < 10
  {
    "0123456789"[d]
  }

  /** Decimal digits of a natural number, most significant first. */
  function NatText(n: nat): (s: string)
    ensures |s| > 0
    ensures forall i :: 0 <= i < |s| ==> '0' <= s[i] <= '9'
  {
    if n < 10 then [DigitChar(n)] else NatText(n / 10) + [DigitChar(n % 10)]
  }

  /** f"{n}": a minus sign before the digits of a negative number. */
  function IntText(n: int): (s: string)
    ensures forall i :: 0 <= i < |s| ==> s[i] == '-' || '0' <= s[i] <= '9'
  {
    if n < 0 then "-" + NatText(-n) else NatText(n)
  }

  /** The value of a run of decimal digits. */
  function DigitsValue(s: string): nat
    requires forall i :: 0 <= i < |s| ==> '0' <= s[i] <= '9'
  {
    if s == [] then 0 else DigitsValue(s[..|s| - 1]) * 10 + (s[|s| - 1] - '0') as nat
  }

  /** How a reader of decimal integers (strtol in the solver) takes the text
      back: an optional minus sign, then digits. */
  function ReadInt(s: string): int
    requires |s| > 0 && forall i :: 0 <= i < |s| ==> s[i] == '-' || '0' <= s[i] <= '9'
    requires forall i :: 1 <= i < |s| ==> '0' <= s[i] <= '9'
  {
    if s[0] == '-' then -(DigitsValue(s[1..]) as int) else DigitsValue(s)
  }

  lemma {:induction false} NatTextValue(n: nat)
    ensures DigitsValue(NatText(n)) == n
  {
    if n >= 10 {
      NatTextValue(n / 10);
      var s := NatText(n);
      assert s[..|s| - 1] == NatText(n / 10);
    }
  }

  /** Printing a number and reading it back gives the number. */
  lemma IntTextRoundTrip(n: int)
    ensures |IntText(n)| > 0 && forall i :: 1 <= i < |IntText(n)| ==> '0' <= IntText(n)[i] <= '9'
    ensures ReadInt(IntText(n)) == n
  {
    if n < 0 {
      NatTextValue(-n);
      assert IntText(n)[1..] == NatText(-n);
    } else {
      NatTextValue(n);
    }
  }

  /** f"{x} {y}". */
  function PairText(x: int, y: int): string
  {
    IntText(x) + " " + IntText(y)
  }

  /** '\n'.join(lines). */
  function JoinLines(lines: seq<string>): string
  {
    if lines == [] then "" else if |lines| == 1 then lines[0] else lines[0] + "\n" + JoinLines(lines[1..])
  }

  function IntervalLines(intervals: seq<(int, int)>): (r: seq<string>)
    ensures |r| == |intervals|
  {
    seq(|intervals|, k requires 0 <= k < |intervals| => PairText(intervals[k].0, intervals[k].1))
  }

  /** format_problem. */
  function FormatProblem(p: IntervalProblem): string
  {
    PairText(p.coverBegin, p.coverEnd) + "\n" + IntText(|p.intervals|) + "\n" + JoinLines(IntervalLines(p.intervals)) + "\n"
  }

  /** str.split('\n'): the pieces between line breaks. */
  function SplitLines(s: string): (r: seq<string>)
    ensures |r| > 0
  {
    if s == [] then [""]
    else if s[0] == '\n' then [""] + SplitLines(s[1..])
    else var rest := SplitLines(s[1..]); [[s[0]] + rest[0]] + rest[1..]
  }

  predicate OneLine(s: string)
  {
    forall i :: 0 <= i < |s| ==> s[i] != '\n'
  }

  lemma {:induction false} SplitAfterLine(a: string, rest: string)
    requires OneLine(a)
    ensures SplitLines(a + "\n" + rest) == [a] + SplitLines(rest)
  {
    if a != [] {
      assert (a + "\n" + rest)[1..] == a[1..] + "\n" + rest;
      SplitAfterLine(a[1..], rest);
      assert [a[0]] + a[1..] == a;
    } else {
      assert a + "\n" + rest == "\n" + rest;
    }
  }

  lemma {:induction false} SplitJoined(lines: seq<string>, rest: string)
    requires forall k :: 0 <= k < |lines| ==> OneLine(lines[k])
    requires |lines| > 0
    ensures SplitLines(JoinLines(lines) + "\n" + rest) == lines + SplitLines(rest)
  {
    if |lines| == 1 {
      SplitAfterLine(lines[0], rest);
    } else {
      var tail := JoinLines(lines[1..]);
      var after := tail + "\n" + rest;
      calc {
        SplitLines(JoinLines(lines) + "\n" + rest);
        { assert JoinLines(lines) == lines[0] + "\n" + tail;
          RegroupLine(lines[0], tail, rest); }
        SplitLines(lines[0] + "\n" + after);
        { SplitAfterLine(lines[0], after); }
        [lines[0]] + SplitLines(after);
        { SplitJoined(lines[1..], rest); }
        [lines[0]] + (lines[1..] + SplitLines(rest));
        { assert lines == [lines[0]] + lines[1..]; }
        lines + SplitLines(rest);
      }
    }
  }

  lemma RegroupLine(a: string, t: string, rest: string)
    ensures a + "\n" + t + "\n" + rest == a + "\n" + (t + "\n" + rest)
  {
  }

  lemma PairTextOneLine(x: int, y: int)
    ensures OneLine(PairText(x, y))
  {
  }

  /** The problem text is the "begin end" line, the count line, one "x y"
      line per interval (a single empty line when there are none) and the
      empty piece after the trailing newline. */
  lemma FormatLines(p: IntervalProblem)
    ensures p.intervals == [] ==>
      SplitLines(FormatProblem(p)) == [PairText(p.coverBegin, p.coverEnd), "0", "", ""]
    ensures p.intervals != [] ==>
      SplitLines(FormatProblem(p)) == [PairText(p.coverBegin, p.coverEnd), IntText(|p.intervals|)] + IntervalLines(p.intervals) + [""]
  {
    var n := |p.intervals|;
    var middle := if n == 0 then [""] else IntervalLines(p.intervals);
    PairTextOneLine(p.coverBegin, p.coverEnd);
    BodyLines(p.intervals);
    ThreeLines(PairText(p.coverBegin, p.coverEnd), IntText(n), JoinLines(IntervalLines(p.intervals)), FormatProblem(p), middle);
    if n == 0 {
      assert IntText(n) == "0";
    }
  }

  lemma ThreeLines(header: string, count: string, body: string, text: string, middle: seq<string>)
    requires OneLine(header) && OneLine(count)
    requires text == header + "\n" + count + "\n" + body + "\n"
    requires SplitLines(body + "\n") == middle + [""]
    ensures SplitLines(text) == [header, count] + middle + [""]
  {
    assert text == header + "\n" + (count + "\n" + (body + "\n"));
    SplitAfterLine(header, count + "\n" + (body + "\n"));
    SplitAfterLine(count, body + "\n");
  }

  lemma BodyLines(intervals: seq<(int, int)>)
    ensures SplitLines(JoinLines(IntervalLines(intervals)) + "\n")
      == (if intervals == [] then [""] else IntervalLines(intervals)) + [""]
  {
    var lines := IntervalLines(intervals);
    if intervals == [] {
      assert JoinLines(lines) + "\n" == "" + "\n" + "";
      SplitAfterLine("", "");
    } else {
      forall k | 0 <= k < |lines| ensures OneLine(lines[k]) {
        PairTextOneLine(intervals[k].0, intervals[k].1);
      }
      assert JoinLines(lines) + "\n" == JoinLines(lines) + "\n" + "";
      SplitJoined(lines, "");
    }
  }

  // ----- The verdict of run_one_test -----

  /** The solver's output after strip().split('\n') and int(): one line, two
      lines (the count and the indexes), or any other number of lines. */
  datatype Answer = SingleLine | TwoLines(count: int, indexes: seq<int>) | OtherLines

  datatype Verdict =
    | CorrectlyImpossible
    | CorrectlyChose(count: int)
    | IncorrectlyImpossible
    | LineMismatch
    | IndexOutOfBounds(index: int)
    | DoesNotCover(count: int)
    | AssertionError

  predicate Failed(v: Verdict)
  {
    !(v.CorrectlyImpossible? || v.CorrectlyChose?)
  }

  /** intervals[i] in Python. */
  function PyAt<T>(s: seq<T>, i: int): T
    requires PyIndex(i, |s|)
  {
    s[PyPosition(i, |s|)]
  }

  datatype Picked = Intervals(chosen: seq<(int, int)>) | BadIndex(index: int)

  /** The loop of lines 107-112: intervals[index - 1] for each 1-based index;
      the first index that Python cannot look up fails the test. */
  function PickIntervals(intervals: seq<(int, int)>, indexes: seq<int>): (r: Picked)
    ensures r.Intervals? ==> |r.chosen| == |indexes|
  {
    if indexes == [] then Intervals([])
    else
      match PickIntervals(intervals, indexes[..|indexes| - 1])
      case BadIndex(i) => BadIndex(i)
      case Intervals(chosen) =>
        var index := indexes[|indexes| - 1];
        if PyIndex(index - 1, |intervals|) then Intervals(chosen + [PyAt(intervals, index - 1)])
        else BadIndex(index)
  }

  /** Lines 91-119 of run_one_test, for a solver that exited normally. */
  function Judge(test: IntervalProblem, answer: Answer): Verdict
  {
    match answer
    case SingleLine => if Possible(test) then IncorrectlyImpossible else CorrectlyImpossible
    case OtherLines => LineMismatch
    case TwoLines(count, indexes) =>
      if count != |indexes| then AssertionError
      else
        (match PickIntervals(test.intervals, indexes)
         case BadIndex(i) => IndexOutOfBounds(i)
         case Intervals(chosen) =>
           if Possible(IntervalProblem(test.coverBegin, test.coverEnd, chosen)) then CorrectlyChose(count)
           else DoesNotCover(count))
  }

  /** What PickIntervals looks up: it succeeds exactly when every index is a
      valid Python index after subtracting one, and then takes interval
      index - 1 (counted from the end when negative) for each. */
  lemma {:induction false} PickIntervalsSpec(intervals: seq<(int, int)>, indexes: seq<int>)
    ensures PickIntervals(intervals, indexes).Intervals? <==> forall k :: 0 <= k < |indexes| ==> PyIndex(indexes[k] - 1, |intervals|)
    ensures PickIntervals(intervals, indexes).Intervals? ==>
      forall k :: 0 <= k < |indexes| ==> PickIntervals(intervals, indexes).chosen[k] == PyAt(intervals, indexes[k] - 1)
    ensures PickIntervals(intervals, indexes).BadIndex? ==>
      exists k :: 0 <= k < |indexes| && !PyIndex(indexes[k] - 1, |intervals|) && PickIntervals(intervals, indexes).index == indexes[k]
  {
    if indexes != [] {
      var front := indexes[..|indexes| - 1];
      PickIntervalsSpec(intervals, front);
      var last := |indexes| - 1;
      if PickIntervals(intervals, front).BadIndex? {
        var k :| 0 <= k < |front| && !PyIndex(front[k] - 1, |intervals|) && PickIntervals(intervals, front).index == front[k];
        assert indexes[k] == front[k];
      } else if !PyIndex(indexes[last] - 1, |intervals|) {
      } else {
        forall k | 0 <= k < |indexes| ensures PyIndex(indexes[k] - 1, |intervals|) {
          if k < last {
            assert indexes[k] == front[k];
          }
        }
      }
    }
  }

  /** A single-line answer passes exactly when the problem is impossible. */
  lemma SingleLineVerdict(test: IntervalProblem)
    ensures !Failed(Judge(test, SingleLine)) <==> !Possible(test)
  {
  }

  /** A two-line answer passes only when its count matches, every index is
      valid (1 to n, or counted from the end) and the intervals it names
      cover the range, in which case the problem is possible; an index out of
      range fails. */
  lemma TwoLinesVerdict(test: IntervalProblem, count: int, indexes: seq<int>)
    ensures !Failed(Judge(test, TwoLines(count, indexes))) <==>
      && count == |indexes|
      && (forall k :: 0 <= k < |indexes| ==> PyIndex(indexes[k] - 1, |test.intervals|))
      && PickIntervals(test.intervals, indexes).Intervals?
      && Possible(IntervalProblem(test.coverBegin, test.coverEnd, PickIntervals(test.intervals, indexes).chosen))
    ensures count == |indexes| && (exists k :: 0 <= k < |indexes| && !PyIndex(indexes[k] - 1, |test.intervals|)) ==>
      Judge(test, TwoLines(count, indexes)).IndexOutOfBounds?
    ensures !Failed(Judge(test, TwoLines(count, indexes))) ==> Possible(test)
  {
    PickIntervalsSpec(test.intervals, indexes);
    var picked := PickIntervals(test.intervals, indexes);
    if picked.Intervals? {
      forall k | 0 <= k < |picked.chosen| ensures picked.chosen[k] in test.intervals {
        var i := indexes[k] - 1;
        if i < 0 {
          assert picked.chosen[k] == test.intervals[i + |test.intervals|];
        } else {
          assert picked.chosen[k] == test.intervals[i];
        }
      }
      if Possible(IntervalProblem(test.coverBegin, test.coverEnd, picked.chosen)) {
        MoreIntervals(test.coverBegin, test.coverEnd, picked.chosen, test.intervals);
      }
    }
  }
}
