/** Counting the crossings of horizontal and vertical segments with a sweep
    over the rows (geometry/intersection_points.c). Coordinates are shifted
    by MaxAbsoluteCoord into the columns of the segment tree; a vertical
    segment opens at the row after its lower end and closes at the row before
    its upper end, and a horizontal segment asks the tree how many vertical
    segments are open over the columns strictly between its ends. */
module IntersectionPoints {
  import opened Util
  import opened Plane
  import SegmentTree

  const MaxSegments: int := 100000

  /** The event kinds, in the order compare_events puts them at one height. */
  datatype Kind = StartVertical | Horizontal | EndVertical

  function Rank(k: Kind): int
  {
    match k
    case StartVertical => 0
    case Horizontal => 1
    case EndVertical => 2
  }

  /** A row, the columns begin .. end the event covers (one column for a
      vertical segment) and the kind. */
  datatype Event = Event(height: int, begin: int, end: int, kind: Kind)

  /** compare_events: events are ordered by height, and at one height opening
      verticals come first, then horizontals, then closing verticals. */
  function CompareEvents(a: Event, b: Event): (r: int)
    ensures r < 0 <==> a.height < b.height || (a.height == b.height && Rank(a.kind) < Rank(b.kind))
    ensures r > 0 <==> a.height > b.height || (a.height == b.height && Rank(a.kind) > Rank(b.kind))
    ensures r == 0 <==> a.height == b.height && a.kind == b.kind
  {
    if a.height != b.height then a.height - b.height else Rank(a.kind) - Rank(b.kind)
  }

  /** The comparator is antisymmetric: its sign flips when its arguments are swapped. */
  lemma CompareAntisymmetric(a: Event, b: Event)
    ensures CompareEvents(a, b) < 0 <==> CompareEvents(b, a) > 0
    ensures CompareEvents(a, b) == 0 <==> CompareEvents(b, a) == 0
  {
  }

  predicate EventLe(a: Event, b: Event)
  {
    CompareEvents(a, b) <= 0
  }

  /** The comparator handed to qsort is a total preorder. */
  lemma EventOrder()
    ensures TotalPreorder(EventLe)
  {
    forall a, b, c | EventLe(a, b) && EventLe(b, c) ensures EventLe(a, c) {
      assert Rank(a.kind) <= Rank(b.kind) <= Rank(c.kind) || a.height < c.height;
    }
  }

  /** A segment as read, in the original coordinates. */
  datatype Segment = Segment(xa: int, ya: int, xb: int, yb: int)

  predicate InRange(s: Segment)
  {
    var m := SegmentTree.MaxAbsoluteCoord;
    -m <= s.xa <= m && -m <= s.ya <= m && -m <= s.xb <= m && -m <= s.yb <= m
  }

  /** The program tests x first, so a single point counts as vertical. */
  predicate IsVertical(s: Segment)
  {
    s.xa == s.xb
  }

  predicate IsHorizontal(s: Segment)
  {
    s.xa != s.xb && s.ya == s.yb
  }

  predicate AxisParallel(s: Segment)
  {
    IsVertical(s) || IsHorizontal(s)
  }

  /** An event the sweep can process: its row and columns lie in the tree. */
  predicate WellFormed(e: Event)
  {
    0 <= e.height <= SegmentTree.LastCoord && 0 <= e.begin <= e.end <= SegmentTree.LastCoord
    && (e.kind != Horizontal ==> e.begin == e.end)
  }

  /** The events of one segment as the loop in main generates them, with the
      horizontal test as written: a horizontal segment is dropped when its
      first end is to the right of its second, and one whose ends are
      adjacent columns yields an event with begin > end. */
  function SegmentEventsAsWritten(s: Segment): (r: Option<seq<Event>>)
    ensures r.None? <==> !AxisParallel(s)
    ensures r.Some? && IsHorizontal(s) && s.xa > s.xb ==> r.value == []
  {
    var m := SegmentTree.MaxAbsoluteCoord;
    var xa, ya, xb, yb := s.xa + m, s.ya + m, s.xb + m, s.yb + m;
    if xa == xb then
      var yBegin := Min(ya, yb) + 1;
      var yEnd := Max(ya, yb) - 1;
      if yBegin > yEnd then Some([])
      else Some([Event(yBegin, xa, xa, StartVertical), Event(yEnd, xa, xa, EndVertical)])
    else if ya == yb then
      var xBegin := Min(xa, xb) + 1;
      var xEnd := Max(xa, xb) - 1;
      if xa > xb then Some([])
      else Some([Event(ya, xBegin, xEnd, Horizontal)])
    else None
  }

  /** The events of one segment, with the horizontal case skipped exactly
      when no column lies strictly between the ends, as for the vertical
      case. */
  function SegmentEvents(s: Segment): (r: Option<seq<Event>>)
    ensures r.None? <==> !AxisParallel(s)
    ensures r.Some? && InRange(s) ==> |r.value| <= 2 && forall k :: 0 <= k < |r.value| ==> WellFormed(r.value[k])
  {
    var m := SegmentTree.MaxAbsoluteCoord;
    var xa, ya, xb, yb := s.xa + m, s.ya + m, s.xb + m, s.yb + m;
    if xa == xb then
      var yBegin := Min(ya, yb) + 1;
      var yEnd := Max(ya, yb) - 1;
      if yBegin > yEnd then Some([])
      else Some([Event(yBegin, xa, xa, StartVertical), Event(yEnd, xa, xa, EndVertical)])
    else if ya == yb then
      var xBegin := Min(xa, xb) + 1;
      var xEnd := Max(xa, xb) - 1;
      if xBegin > xEnd then Some([])
      else Some([Event(ya, xBegin, xEnd, Horizontal)])
    else None
  }

  /** With the corrected test the events do not depend on which end comes first. */
  lemma SegmentEventsSymmetric(s: Segment)
    ensures SegmentEvents(Segment(s.xb, s.yb, s.xa, s.ya)) == SegmentEvents(s)
  {
  }

  /** The events of all segments in input order; None once one segment is
      neither horizontal nor vertical (main then exits with status 1). */
  function Events(segments: seq<Segment>): (r: Option<seq<Event>>)
    ensures r.Some? <==> forall k :: 0 <= k < |segments| ==> AxisParallel(segments[k])
  {
    if segments == [] then Some([])
    else
      var init := Events(segments[..|segments| - 1]);
      var last := SegmentEvents(segments[|segments| - 1]);
      if init.None? || last.None? then None else Some(init.value + last.value)
  }

  /** Every generated event is well formed and there are at most two per segment. */
  lemma {:induction false} EventsFit(segments: seq<Segment>)
    requires forall k :: 0 <= k < |segments| ==> InRange(segments[k])
    requires Events(segments).Some?
    ensures |Events(segments).value| <= 2 * |segments|
    ensures forall k :: 0 <= k < |Events(segments).value| ==> WellFormed(Events(segments).value[k])
  {
    if segments != [] {
      var init := segments[..|segments| - 1];
      EventsFit(init);
      var a, b := Events(init).value, SegmentEvents(segments[|segments| - 1]).value;
      assert Events(segments).value == a + b;
      forall k | 0 <= k < |a + b| ensures WellFormed((a + b)[k]) {
        if k >= |a| {
          assert (a + b)[k] == b[k - |a|];
        }
      }
    }
  }

  // ---------------------------------------------------------------------
  // What the sweep computes.

  /** +1 for an opening vertical, -1 for a closing one, 0 for a horizontal:
      the value segment_tree_add adds for the event. */
  function Sign(k: Kind): int
  {
    match k
    case StartVertical => 1
    case Horizontal => 0
    case EndVertical => -1
  }

  /** The value of column c after the events of p have been applied: open
      minus closed vertical segments in that column. */
  function Active(p: seq<Event>, c: int): int
  {
    if p == [] then 0
    else
      var e := p[|p| - 1];
      Active(p[..|p| - 1], c) + (if e.begin == c then Sign(e.kind) else 0)
  }

  /** The sum of Active over the columns l .. r. */
  function ActiveSum(p: seq<Event>, l: int, r: int): int
    decreases r - l
  {
    if r < l then 0 else ActiveSum(p, l, r - 1) + Active(p, r)
  }

  /** The total the sweep adds up over the events e in this order: each
      horizontal event adds the active columns it covers. */
  function SweepTotal(e: seq<Event>): int
  {
    if e == [] then 0
    else
      var h := e[|e| - 1];
      SweepTotal(e[..|e| - 1]) + (if h.kind == Horizontal then ActiveSum(e[..|e| - 1], h.begin, h.end) else 0)
  }

  /** The sum of the column values l .. r in a tree whose column values are
      those of p is ActiveSum(p, l, r). */
  lemma {:induction false} RangeSumActive(t: seq<int>, p: seq<Event>, l: int, r: int)
    requires |t| == SegmentTree.TreeLength && 0 <= l && r <= SegmentTree.LastCoord
    requires SegmentTree.InTree(1, 0, SegmentTree.LastCoord)
    requires forall c :: 0 <= c <= SegmentTree.LastCoord ==> SegmentTree.Leaf(t, 1, 0, SegmentTree.LastCoord, c) == Active(p, c)
    ensures SegmentTree.RangeSum(t, 1, 0, SegmentTree.LastCoord, l, r) == ActiveSum(p, l, r)
    decreases r - l
  {
    if l <= r {
      RangeSumActive(t, p, l, r - 1);
    }
  }

  /** Bundles the state of the sweep after the events p: a summed tree whose
      column values are Active(p, _). */
  predicate Tracks(t: seq<int>, p: seq<Event>)
  {
    && |t| == SegmentTree.TreeLength
    && SegmentTree.InTree(1, 0, SegmentTree.LastCoord)
    && SegmentTree.Summed(t, 1, 0, SegmentTree.LastCoord)
    && forall c :: 0 <= c <= SegmentTree.LastCoord ==> SegmentTree.Leaf(t, 1, 0, SegmentTree.LastCoord, c) == Active(p, c)
  }

  /** Applying a vertical event keeps the tree in step with the events. */
  lemma AddTracks(before: seq<int>, after: seq<int>, p: seq<Event>, e: Event)
    requires Tracks(before, p) && WellFormed(e) && e.kind != Horizontal
    requires SegmentTree.Updated(before, after, 1, 0, SegmentTree.LastCoord, e.begin, Sign(e.kind))
    ensures Tracks(after, p + [e])
  {
    assert (p + [e])[..|p|] == p;
  }

  /** The sweep in main over the sorted events: a horizontal event adds the
      query over its columns to the total, a vertical one adds +1 or -1 at
      its column. The total is SweepTotal of the events in array order. */
  method Sweep(events: array<Event>, len: nat, tree: array<int>) returns (intersections: int)
    requires len <= events.Length && tree.Length == SegmentTree.TreeLength
    requires forall k :: 0 <= k < len ==> WellFormed(events[k])
    requires forall k :: 0 <= k < tree.Length ==> tree[k] == 0
    modifies tree
    ensures intersections == SweepTotal(events[..len])
  {
    var last := SegmentTree.LastCoord;
    SegmentTree.RootInTree();
    SegmentTree.ZeroTree(tree[..], 1, 0, last);
    assert Tracks(tree[..], events[..0]);
    intersections := 0;
    var x := 0;
    while x < len
      invariant 0 <= x <= len
      invariant Tracks(tree[..], events[..x])
      invariant intersections == SweepTotal(events[..x])
    {
      var e := events[x];
      assert events[..x + 1] == events[..x] + [e];
      assert events[..x + 1][..x] == events[..x];
      if e.kind == Horizontal {
        var inter := SegmentTree.Query(tree[..], 1, 0, last, e.begin, e.end);
        SegmentTree.QueryIsRangeSum(tree[..], 1, 0, last, e.begin, e.end);
        RangeSumActive(tree[..], events[..x], e.begin, e.end);
        intersections := intersections + inter;
      } else {
        var addValue := if e.kind == StartVertical then 1 else -1;
        ghost var before := tree[..];
        SegmentTree.Add(tree, 1, 0, last, e.begin, addValue);
        AddTracks(before, tree[..], events[..x], e);
      }
      x := x + 1;
    }
    assert events[..len] == events[..x];
  }

  /** Appends the events s at position len of the buffer. */
  method Store(events: array<Event>, len: nat, s: seq<Event>) returns (newLen: nat)
    requires len + |s| <= events.Length
    modifies events
    ensures newLen == len + |s| && events[..newLen] == old(events[..len]) + s
  {
    newLen := len;
    var k := 0;
    while k < |s|
      invariant 0 <= k <= |s| && newLen == len + k
      invariant events[..newLen] == old(events[..len]) + s[..k]
    {
      events[newLen] := s[k];
      assert s[..k + 1] == s[..k] + [s[k]];
      newLen := newLen + 1;
      k := k + 1;
    }
    assert s[..k] == s;
  }

  /** The reading loop of main: the events of every segment in input order,
      or failure at the first segment that is neither horizontal nor vertical. */
  method GenerateEvents(segments: seq<Segment>, events: array<Event>) returns (len: nat, ok: bool)
    requires |segments| <= MaxSegments && events.Length == 2 * MaxSegments
    requires forall k :: 0 <= k < |segments| ==> InRange(segments[k])
    modifies events
    ensures ok <==> Events(segments).Some?
    ensures ok ==> len <= events.Length && events[..len] == Events(segments).value
  {
    len := 0;
    var i := 0;
    while i < |segments|
      invariant 0 <= i <= |segments| && len <= 2 * i
      invariant Events(segments[..i]) == Some(events[..len])
    {
      assert segments[..i + 1][..i] == segments[..i];
      var produced := SegmentEvents(segments[i]);
      if produced.None? {
        assert !AxisParallel(segments[i]);
        return len, false;
      }
      len := Store(events, len, produced.value);
      i := i + 1;
    }
    assert segments[..i] == segments;
    ok := true;
  }

  /** main: the number printed, or None for the exit with status 1. The
      events are sorted as qsort sorts them and then swept. */
  method Run(segments: seq<Segment>) returns (result: Option<int>)
    requires |segments| <= MaxSegments
    requires forall k :: 0 <= k < |segments| ==> InRange(segments[k])
    ensures result.None? <==> exists k :: 0 <= k < |segments| && !AxisParallel(segments[k])
    ensures result.Some? ==> result.value == Crossings(segments)
  {
    var events := new Event[2 * MaxSegments](_ => Event(0, 0, 0, StartVertical));
    var tree := new int[SegmentTree.TreeLength](_ => 0);
    var len, ok := GenerateEvents(segments, events);
    if !ok {
      return None;
    }
    ghost var generated := events[..len];
    EventsFit(segments);
    SortPrefix(events, len, EventLe);
    ghost var sorted := events[..len];
    PermutedWellFormed(sorted, generated);
    assert forall k :: 0 <= k < len ==> events[k] == sorted[k];
    var total := Sweep(events, len, tree);
    EventOrder();
    InsertionSortSorted(generated, EventLe);
    SweepCounts(sorted, generated, segments);
    result := Some(total);
  }

  /** Sorting keeps the events well formed. */
  lemma PermutedWellFormed(s: seq<Event>, t: seq<Event>)
    requires multiset(s) == multiset(t) && forall k :: 0 <= k < |t| ==> WellFormed(t[k])
    ensures forall k :: 0 <= k < |s| ==> WellFormed(s[k])
  {
    forall k | 0 <= k < |s| ensures WellFormed(s[k]) {
      assert s[k] in multiset(s);
      var j :| 0 <= j < |t| && t[j] == s[k];
    }
  }

  // ---------------------------------------------------------------------
  // Why the total is the number of crossings.

  /** A vertical segment v and a horizontal segment h cross at a point that
      is an end of neither. */
  predicate CrossesInterior(v: Segment, h: Segment)
  {
    && IsVertical(v) && IsHorizontal(h)
    && Min(h.xa, h.xb) < v.xa < Max(h.xa, h.xb)
    && Min(v.ya, v.yb) < h.ya < Max(v.ya, v.yb)
  }

  /** How many segments of vs cross h. */
  function CrossingsWith(vs: seq<Segment>, h: Segment): (r: nat)
    ensures r <= |vs|
  {
    if vs == [] then 0
    else CrossingsWith(vs[..|vs| - 1], h) + (if CrossesInterior(vs[|vs| - 1], h) then 1 else 0)
  }

  /** The number of pairs (v, h), v in vs and h in hs, that cross. */
  function CrossingPairs(hs: seq<Segment>, vs: seq<Segment>): (r: nat)
    ensures r <= |hs| * |vs|
  {
    if hs == [] then 0
    else CrossingPairs(hs[..|hs| - 1], vs) + CrossingsWith(vs, hs[|hs| - 1])
  }

  /** The number of pairs of a vertical and a horizontal segment of the input
      that cross at a point that is an end of neither. */
  function Crossings(segments: seq<Segment>): nat
  {
    CrossingPairs(segments, segments)
  }

  /** e comes strictly before h in the order of the sort. */
  predicate Before(e: Event, h: Event)
  {
    CompareEvents(e, h) < 0
  }

  /** What event e adds to the columns l .. r. */
  function Delta(e: Event, l: int, r: int): int
  {
    if l <= e.begin <= r then Sign(e.kind) else 0
  }

  /** What the events s add to the columns l .. r. */
  function Weight(s: seq<Event>, l: int, r: int): int
  {
    if s == [] then 0 else Weight(s[..|s| - 1], l, r) + Delta(s[|s| - 1], l, r)
  }

  /** What the query of the horizontal event h counts among the events s
      when exactly those sorted before h have been applied. */
  function Seen(s: seq<Event>, h: Event): int
  {
    if s == [] then 0
    else
      var e := s[|s| - 1];
      Seen(s[..|s| - 1], h) + (if Before(e, h) then Delta(e, h.begin, h.end) else 0)
  }

  /** The sum of Seen(s, h) over the horizontal events h of t. */
  function SeenByAll(t: seq<Event>, s: seq<Event>): int
  {
    if t == [] then 0
    else
      var h := t[|t| - 1];
      SeenByAll(t[..|t| - 1], s) + (if h.kind == Horizontal then Seen(s, h) else 0)
  }

  lemma {:induction false} ActiveSumAppend(p: seq<Event>, e: Event, l: int, r: int)
    ensures ActiveSum(p + [e], l, r) == ActiveSum(p, l, r) + Delta(e, l, r)
    decreases r - l
  {
    assert (p + [e])[..|p|] == p;
    if l <= r {
      ActiveSumAppend(p, e, l, r - 1);
    }
  }

  /** Summing by column or by event gives the same: ActiveSum is Weight. */
  lemma {:induction false} ActiveSumWeight(p: seq<Event>, l: int, r: int)
    ensures ActiveSum(p, l, r) == Weight(p, l, r)
    decreases |p|
  {
    if p == [] {
      ActiveSumEmpty(l, r);
    } else {
      var init := p[..|p| - 1];
      assert p == init + [p[|p| - 1]];
      ActiveSumWeight(init, l, r);
      ActiveSumAppend(init, p[|p| - 1], l, r);
    }
  }

  lemma {:induction false} ActiveSumEmpty(l: int, r: int)
    ensures ActiveSum([], l, r) == 0
    decreases r - l
  {
    if l <= r {
      ActiveSumEmpty(l, r - 1);
    }
  }

  lemma {:induction false} SeenConcat(s: seq<Event>, u: seq<Event>, h: Event)
    ensures Seen(s + u, h) == Seen(s, h) + Seen(u, h)
    decreases |u|
  {
    if u == [] {
      assert s + u == s;
    } else {
      var init := u[..|u| - 1];
      assert (s + u)[..|s + u| - 1] == s + init;
      SeenConcat(s, init, h);
    }
  }

  lemma {:induction false} SeenByAllConcat(t: seq<Event>, u: seq<Event>, s: seq<Event>)
    ensures SeenByAll(t + u, s) == SeenByAll(t, s) + SeenByAll(u, s)
    decreases |u|
  {
    if u == [] {
      assert t + u == t;
    } else {
      var init := u[..|u| - 1];
      assert (t + u)[..|t + u| - 1] == t + init;
      SeenByAllConcat(t, init, s);
    }
  }

  /** Seen depends only on the multiset of events. */
  lemma {:induction false} SeenPermutation(s: seq<Event>, u: seq<Event>, h: Event)
    requires multiset(s) == multiset(u)
    ensures Seen(s, h) == Seen(u, h)
    decreases |s|
  {
    if s == [] {
      assert |u| == |multiset(u)| == 0;
    } else {
      var x := s[|s| - 1];
      assert x in multiset(u);
      var k :| 0 <= k < |u| && u[k] == x;
      var rest := u[..k] + u[k + 1..];
      assert u == u[..k] + [x] + u[k + 1..];
      assert multiset(u) == multiset(u[..k]) + multiset{x} + multiset(u[k + 1..]);
      assert multiset(rest) == multiset(u[..k]) + multiset(u[k + 1..]);
      assert s == s[..|s| - 1] + [x];
      assert multiset(s) == multiset(s[..|s| - 1]) + multiset{x};
      assert multiset(s[..|s| - 1]) == multiset(s) - multiset{x};
      assert multiset(rest) == multiset(u) - multiset{x};
      SeenPermutation(s[..|s| - 1], rest, h);
      SeenConcat(u[..k] + [x], u[k + 1..], h);
      SeenConcat(u[..k], [x], h);
      SeenConcat(u[..k], u[k + 1..], h);
    }
  }

  /** SeenByAll depends only on the multisets of its arguments. */
  lemma {:induction false} SeenByAllPermutation(t: seq<Event>, u: seq<Event>, s: seq<Event>, w: seq<Event>)
    requires multiset(t) == multiset(u) && multiset(s) == multiset(w)
    ensures SeenByAll(t, s) == SeenByAll(u, w)
    decreases |t|
  {
    if t == [] {
      assert |u| == |multiset(u)| == 0;
    } else {
      var x := t[|t| - 1];
      assert x in multiset(u);
      var k :| 0 <= k < |u| && u[k] == x;
      var rest := u[..k] + u[k + 1..];
      assert u == u[..k] + [x] + u[k + 1..];
      assert multiset(u) == multiset(u[..k]) + multiset{x} + multiset(u[k + 1..]);
      assert multiset(rest) == multiset(u[..k]) + multiset(u[k + 1..]);
      assert t == t[..|t| - 1] + [x];
      assert multiset(t) == multiset(t[..|t| - 1]) + multiset{x};
      assert multiset(t[..|t| - 1]) == multiset(t) - multiset{x};
      assert multiset(rest) == multiset(u) - multiset{x};
      SeenByAllPermutation(t[..|t| - 1], rest, s, w);
      SeenPermutation(s, w, x);
      SeenByAllConcat(u[..k] + [x], u[k + 1..], w);
      SeenByAllConcat(u[..k], [x], w);
      SeenByAllConcat(u[..k], u[k + 1..], w);
    }
  }

  /** No event of s is sorted before h: the query of h sees none of them. */
  lemma {:induction false} SeenNone(s: seq<Event>, h: Event)
    requires forall k :: 0 <= k < |s| ==> !Before(s[k], h)
    ensures Seen(s, h) == 0
    decreases |s|
  {
    if s != [] {
      SeenNone(s[..|s| - 1], h);
    }
  }

  /** Every vertical event of s is sorted before h: the query of h sees all of them. */
  lemma {:induction false} SeenAll(s: seq<Event>, h: Event)
    requires forall k :: 0 <= k < |s| ==> Before(s[k], h) || s[k].kind == Horizontal
    ensures Seen(s, h) == Weight(s, h.begin, h.end)
    decreases |s|
  {
    if s != [] {
      SeenAll(s[..|s| - 1], h);
    }
  }

  /** In a sorted sequence the query of the horizontal event at position n
      sees exactly the events before it. */
  lemma SweepStep(e: seq<Event>, n: nat)
    requires n < |e| && SortedBy(e, EventLe) && e[n].kind == Horizontal
    ensures ActiveSum(e[..n], e[n].begin, e[n].end) == Seen(e, e[n])
  {
    var h := e[n];
    forall k | 0 <= k < |e[..n]| ensures Before(e[..n][k], h) || e[..n][k].kind == Horizontal {
      assert EventLe(e[k], e[n]);
    }
    forall k | 0 <= k < |e[n..]| ensures !Before(e[n..][k], h) {
      assert EventLe(e[n], e[n + k]);
    }
    SeenAll(e[..n], h);
    SeenNone(e[n..], h);
    assert e == e[..n] + e[n..];
    SeenConcat(e[..n], e[n..], h);
    ActiveSumWeight(e[..n], h.begin, h.end);
  }

  /** On a sorted sequence the sweep total is SeenByAll, which no longer
      depends on the order. */
  lemma {:induction false} SweepIsSeen(e: seq<Event>, n: nat)
    requires n <= |e| && SortedBy(e, EventLe)
    ensures SweepTotal(e[..n]) == SeenByAll(e[..n], e)
  {
    if n > 0 {
      SweepIsSeen(e, n - 1);
      assert e[..n][..n - 1] == e[..n - 1];
      if e[n - 1].kind == Horizontal {
        SweepStep(e, n - 1);
      }
    }
  }

  /** The query of one horizontal event h, among the events of one segment v,
      counts 1 exactly when h comes from a segment that v crosses. */
  lemma SegmentSeen(v: Segment, h: Segment)
    requires InRange(v) && InRange(h) && AxisParallel(v) && IsHorizontal(h)
    requires SegmentEvents(h).value != []
    ensures Seen(SegmentEvents(v).value, SegmentEvents(h).value[0]) == if CrossesInterior(v, h) then 1 else 0
  {
    var s := SegmentEvents(v).value;
    if |s| == 1 {
      assert s[..0] == [];
    } else if |s| == 2 {
      var m := SegmentTree.MaxAbsoluteCoord;
      var e := SegmentEvents(h).value[0];
      assert s[..1] == [s[0]] && s[..1][..0] == [];
      assert Seen(s[..1], e) == (if Before(s[0], e) then Delta(s[0], e.begin, e.end) else 0);
      assert Seen(s, e) == (if Before(s[0], e) then Delta(s[0], e.begin, e.end) else 0)
                         + (if Before(s[1], e) then Delta(s[1], e.begin, e.end) else 0);
      assert e.height == h.ya + m && e.begin == Min(h.xa, h.xb) + m + 1 && e.end == Max(h.xa, h.xb) + m - 1;
      assert s[0].height == Min(v.ya, v.yb) + m + 1 && s[1].height == Max(v.ya, v.yb) + m - 1;
      assert s[0].begin == s[1].begin == v.xa + m;
    }
  }

  /** The query of a horizontal event among the events of vs counts the
      segments of vs that cross its segment. */
  lemma {:induction false} SeenCountsCrossings(vs: seq<Segment>, h: Segment)
    requires forall k :: 0 <= k < |vs| ==> InRange(vs[k])
    requires Events(vs).Some? && InRange(h) && IsHorizontal(h) && SegmentEvents(h).value != []
    ensures Seen(Events(vs).value, SegmentEvents(h).value[0]) == CrossingsWith(vs, h)
    decreases |vs|
  {
    if vs != [] {
      var init := vs[..|vs| - 1];
      SeenCountsCrossings(init, h);
      SeenConcat(Events(init).value, SegmentEvents(vs[|vs| - 1]).value, SegmentEvents(h).value[0]);
      SegmentSeen(vs[|vs| - 1], h);
    }
  }

  /** No segment crosses h. */
  lemma {:induction false} NoCrossings(vs: seq<Segment>, h: Segment)
    requires forall k :: 0 <= k < |vs| ==> !CrossesInterior(vs[k], h)
    ensures CrossingsWith(vs, h) == 0
    decreases |vs|
  {
    if vs != [] {
      NoCrossings(vs[..|vs| - 1], h);
    }
  }

  /** The horizontal events of one segment h, queried among the events of
      vs, count the segments of vs that cross h. */
  lemma SegmentSeenByAll(vs: seq<Segment>, h: Segment)
    requires forall k :: 0 <= k < |vs| ==> InRange(vs[k])
    requires Events(vs).Some? && InRange(h) && AxisParallel(h)
    ensures SeenByAll(SegmentEvents(h).value, Events(vs).value) == CrossingsWith(vs, h)
  {
    var t := SegmentEvents(h).value;
    if IsHorizontal(h) && t != [] {
      SeenCountsCrossings(vs, h);
      assert t[..0] == [];
    } else {
      forall k | 0 <= k < |vs| ensures !CrossesInterior(vs[k], h) {
      }
      NoCrossings(vs, h);
      if t != [] {
        assert |t| == 2;
        assert t[..1] == [t[0]] && t[..1][..0] == [];
        assert SeenByAll(t[..1], Events(vs).value) == 0;
      }
    }
  }

  lemma {:induction false} SeenByAllCountsPairs(hs: seq<Segment>, vs: seq<Segment>)
    requires forall k :: 0 <= k < |hs| ==> InRange(hs[k])
    requires forall k :: 0 <= k < |vs| ==> InRange(vs[k])
    requires Events(hs).Some? && Events(vs).Some?
    ensures SeenByAll(Events(hs).value, Events(vs).value) == CrossingPairs(hs, vs)
    decreases |hs|
  {
    if hs != [] {
      var init := hs[..|hs| - 1];
      SeenByAllCountsPairs(init, vs);
      SeenByAllConcat(Events(init).value, SegmentEvents(hs[|hs| - 1]).value, Events(vs).value);
      SegmentSeenByAll(vs, hs[|hs| - 1]);
    }
  }

  /** The sweep over any order of the events that the sort may produce
      counts the crossing pairs of vertical and horizontal segments. */
  lemma SweepCounts(sorted: seq<Event>, generated: seq<Event>, segments: seq<Segment>)
    requires forall k :: 0 <= k < |segments| ==> InRange(segments[k])
    requires Events(segments) == Some(generated)
    requires SortedBy(sorted, EventLe) && multiset(sorted) == multiset(generated)
    ensures SweepTotal(sorted) == Crossings(segments)
  {
    SweepIsSeen(sorted, |sorted|);
    assert sorted[..|sorted|] == sorted;
    SeenByAllPermutation(sorted, generated, sorted, generated);
    SeenByAllCountsPairs(segments, segments);
  }

  // ---------------------------------------------------------------------
  // The horizontal test as written.

  /** A sweep over events none of which is horizontal adds nothing. */
  lemma {:induction false} NoHorizontalNoTotal(e: seq<Event>)
    requires forall k :: 0 <= k < |e| ==> e[k].kind != Horizontal
    ensures SweepTotal(e) == 0
  {
    if e != [] {
      NoHorizontalNoTotal(e[..|e| - 1]);
    }
  }

  /** A vertical segment through (0, -1) .. (0, 1) and a horizontal one
      drawn from right to left through (1, 0) .. (-1, 0) cross at the
      origin, an end of neither, yet the test as written drops the
      horizontal segment, so that the sweep over its events, in whatever
      order the sort leaves them, counts nothing. */
  lemma DroppedHorizontal(sorted: seq<Event>)
    requires var segments := [Segment(0, -1, 0, 1), Segment(1, 0, -1, 0)];
      multiset(sorted) == multiset(SegmentEventsAsWritten(segments[0]).value + SegmentEventsAsWritten(segments[1]).value)
    ensures SweepTotal(sorted) == 0
    ensures Crossings([Segment(0, -1, 0, 1), Segment(1, 0, -1, 0)]) == 1
  {
    var segments := [Segment(0, -1, 0, 1), Segment(1, 0, -1, 0)];
    var generated := SegmentEventsAsWritten(segments[0]).value + SegmentEventsAsWritten(segments[1]).value;
    assert forall k :: 0 <= k < |generated| ==> generated[k].kind != Horizontal;
    forall k | 0 <= k < |sorted| ensures sorted[k].kind != Horizontal {
      assert sorted[k] in multiset(generated);
    }
    NoHorizontalNoTotal(sorted);
    assert CrossesInterior(segments[0], segments[1]);
    assert segments[..1] == [segments[0]] && segments[..1][..0] == [];
    assert CrossingsWith(segments, segments[1]) == 1;
    assert CrossingsWith(segments, segments[0]) == 0;
  }

  /** A horizontal segment whose ends are adjacent columns passes the test
      as written and yields an event whose columns run backwards, which
      segment_tree_query does not accept; the corrected test yields no event. */
  lemma AdjacentHorizontal()
    ensures var e := SegmentEventsAsWritten(Segment(0, 0, 1, 0));
      e.Some? && |e.value| == 1 && e.value[0].begin == e.value[0].end + 1
    ensures SegmentEvents(Segment(0, 0, 1, 0)) == Some([])
  {
  }
}
