/** The segment tree of geometry/intersection_points.c: an array of sums in
    heap order (root 1, children 2 * node and 2 * node + 1) over the shifted
    columns 0 .. LastCoord. A node covering lo .. hi splits at
    (lo + hi) / 2. The functions read the array as a sequence. */
module SegmentTree {
  const MaxAbsoluteCoord: int := 1000000
  const TotalCoords: int := MaxAbsoluteCoord * 2 + 1
  const LastCoord: int := TotalCoords - 1
  /** The length of the array: TOTAL_COORDS * 4 + 1, slot 0 unused. */
  const TreeLength: int := TotalCoords * 4 + 1

  function Left(node: int): int
  {
    node * 2
  }

  function Right(node: int): int
  {
    node * 2 + 1
  }

  function Midpoint(lo: int, hi: int): int
  {
    (lo + hi) / 2
  }

  /** A node reachable from the root covering lo .. hi: the bound on
      (node + 1) * (hi - lo) is kept by both children and keeps every index,
      leaves included, inside the array. */
  predicate InTree(node: int, lo: int, hi: int)
  {
    1 <= node < 4 * TotalCoords && lo <= hi && (node + 1) * (hi - lo) <= 2 * TotalCoords
  }

  lemma RootInTree()
    ensures InTree(1, 0, LastCoord)
  {
  }

  /** Both children of an inner node are in the tree. */
  lemma ChildrenInTree(node: int, lo: int, hi: int)
    requires InTree(node, lo, hi) && lo < hi
    ensures InTree(Left(node), lo, Midpoint(lo, hi))
    ensures InTree(Right(node), Midpoint(lo, hi) + 1, hi)
  {
    var s := hi - lo;
    var q := s / 2;
    var mid := Midpoint(lo, hi);
    assert mid - lo == q && hi - (mid + 1) <= q && 2 * q <= s;
    MulMonotone(1, s, node + 1);
    MulMonotone(2 * q, s, node + 1);
    assert (2 * node + 2) * q == (node + 1) * (2 * q);
    MulMonotone(2 * node + 1, 2 * node + 2, q);
    MulMonotone(hi - (mid + 1), q, 2 * node + 2);
  }

  lemma MulMonotone(a: int, b: int, c: int)
    requires a <= b && 0 <= c
    ensures a * c <= b * c
  {
  }

  /** k lies in the subtree of a: dividing k by 2 repeatedly reaches a. */
  predicate Descends(k: int, a: int)
    decreases k
  {
    1 <= a <= k && (k == a || Descends(k / 2, a))
  }

  lemma {:induction false} DescendsTransitive(k: int, c: int, a: int)
    requires Descends(k, c) && Descends(c, a)
    ensures Descends(k, a)
    decreases k
  {
    if k != c {
      DescendsTransitive(k / 2, c, a);
    }
  }

  /** The ancestors of a node form a chain. */
  lemma {:induction false} DescendsChain(k: int, a: int, b: int)
    requires Descends(k, a) && Descends(k, b)
    ensures Descends(a, b) || Descends(b, a)
    decreases k
  {
    if k != a && k != b {
      DescendsChain(k / 2, a, b);
    }
  }

  /** The subtrees of two different children of one node share no index. */
  lemma {:induction false} SiblingsApart(k: int, a: int, b: int)
    requires a / 2 == b / 2 >= 1 && a != b && Descends(k, a)
    ensures !Descends(k, b)
    decreases k
  {
    if k != a {
      SiblingsApart(k / 2, a, b);
    }
  }

  /** A node is above its children and outside their subtrees. */
  lemma ChildrenBelow(node: int)
    requires 1 <= node
    ensures Descends(Left(node), node) && Descends(Right(node), node)
    ensures !Descends(node, Left(node)) && !Descends(node, Right(node))
  {
    assert Left(node) / 2 == node && Right(node) / 2 == node;
  }

  /** The value the tree t stores for column i, below node (covering lo .. hi). */
  function Leaf(t: seq<int>, node: int, lo: int, hi: int, i: int): int
    requires |t| == TreeLength && InTree(node, lo, hi) && lo <= i <= hi
    decreases hi - lo
  {
    if lo == hi then t[node]
    else
      ChildrenInTree(node, lo, hi);
      if i <= Midpoint(lo, hi) then Leaf(t, Left(node), lo, Midpoint(lo, hi), i)
      else Leaf(t, Right(node), Midpoint(lo, hi) + 1, hi, i)
  }

  /** Every inner node below node holds the sum of its two children. */
  predicate Summed(t: seq<int>, node: int, lo: int, hi: int)
    requires |t| == TreeLength && InTree(node, lo, hi)
    decreases hi - lo
  {
    lo == hi ||
      (ChildrenInTree(node, lo, hi);
       && t[node] == t[Left(node)] + t[Right(node)]
       && Summed(t, Left(node), lo, Midpoint(lo, hi))
       && Summed(t, Right(node), Midpoint(lo, hi) + 1, hi))
  }

  /** The sum of the column values l .. r below node. */
  function RangeSum(t: seq<int>, node: int, lo: int, hi: int, l: int, r: int): int
    requires |t| == TreeLength && InTree(node, lo, hi) && lo <= l && r <= hi
    decreases r - l
  {
    if r < l then 0 else RangeSum(t, node, lo, hi, l, r - 1) + Leaf(t, node, lo, hi, r)
  }

  /** segment_tree_query over the columns l .. r of node. */
  function Query(t: seq<int>, node: int, lo: int, hi: int, l: int, r: int): int
    requires |t| == TreeLength && InTree(node, lo, hi) && lo <= l <= r <= hi
    decreases hi - lo
  {
    if lo == l && hi == r then t[node]
    else
      ChildrenInTree(node, lo, hi);
      var mid := Midpoint(lo, hi);
      if r <= mid then Query(t, Left(node), lo, mid, l, r)
      else if l > mid then Query(t, Right(node), mid + 1, hi, l, r)
      else Query(t, Left(node), lo, mid, l, mid) + Query(t, Right(node), mid + 1, hi, mid + 1, r)
  }

  lemma {:induction false} RangeSumSplit(t: seq<int>, node: int, lo: int, hi: int, l: int, m: int, r: int)
    requires |t| == TreeLength && InTree(node, lo, hi) && lo <= l && r <= hi && l - 1 <= m <= r
    ensures RangeSum(t, node, lo, hi, l, r) == RangeSum(t, node, lo, hi, l, m) + RangeSum(t, node, lo, hi, m + 1, r)
    decreases r - m
  {
    if m < r {
      RangeSumSplit(t, node, lo, hi, l, m, r - 1);
    }
  }

  /** Columns of the left half have the same values seen from the left child. */
  lemma {:induction false} RangeSumLeft(t: seq<int>, node: int, lo: int, hi: int, l: int, r: int)
    requires |t| == TreeLength && InTree(node, lo, hi) && lo < hi && lo <= l && r <= Midpoint(lo, hi)
    ensures InTree(Left(node), lo, Midpoint(lo, hi))
    ensures RangeSum(t, node, lo, hi, l, r) == RangeSum(t, Left(node), lo, Midpoint(lo, hi), l, r)
    decreases r - l
  {
    ChildrenInTree(node, lo, hi);
    if l <= r {
      RangeSumLeft(t, node, lo, hi, l, r - 1);
    }
  }

  /** Columns of the right half have the same values seen from the right child. */
  lemma {:induction false} RangeSumRight(t: seq<int>, node: int, lo: int, hi: int, l: int, r: int)
    requires |t| == TreeLength && InTree(node, lo, hi) && lo < hi && Midpoint(lo, hi) + 1 <= l && r <= hi
    ensures InTree(Right(node), Midpoint(lo, hi) + 1, hi)
    ensures RangeSum(t, node, lo, hi, l, r) == RangeSum(t, Right(node), Midpoint(lo, hi) + 1, hi, l, r)
    decreases r - l
  {
    ChildrenInTree(node, lo, hi);
    if l <= r {
      RangeSumRight(t, node, lo, hi, l, r - 1);
    }
  }

  /** In a summed tree a node holds the sum of all its columns. */
  lemma {:induction false} SummedTotal(t: seq<int>, node: int, lo: int, hi: int)
    requires |t| == TreeLength && InTree(node, lo, hi) && Summed(t, node, lo, hi)
    ensures t[node] == RangeSum(t, node, lo, hi, lo, hi)
    decreases hi - lo
  {
    if lo < hi {
      ChildrenInTree(node, lo, hi);
      var mid := Midpoint(lo, hi);
      SummedTotal(t, Left(node), lo, mid);
      SummedTotal(t, Right(node), mid + 1, hi);
      RangeSumSplit(t, node, lo, hi, lo, mid, hi);
      RangeSumLeft(t, node, lo, hi, lo, mid);
      RangeSumRight(t, node, lo, hi, mid + 1, hi);
    }
  }

  /** In a summed tree, segment_tree_query returns the sum of the column
      values l .. r. */
  lemma {:induction false} QueryIsRangeSum(t: seq<int>, node: int, lo: int, hi: int, l: int, r: int)
    requires |t| == TreeLength && InTree(node, lo, hi) && lo <= l <= r <= hi && Summed(t, node, lo, hi)
    ensures Query(t, node, lo, hi, l, r) == RangeSum(t, node, lo, hi, l, r)
    decreases hi - lo
  {
    if lo == l && hi == r {
      SummedTotal(t, node, lo, hi);
    } else {
      ChildrenInTree(node, lo, hi);
      var mid := Midpoint(lo, hi);
      if r <= mid {
        QueryIsRangeSum(t, Left(node), lo, mid, l, r);
        RangeSumLeft(t, node, lo, hi, l, r);
      } else if l > mid {
        QueryIsRangeSum(t, Right(node), mid + 1, hi, l, r);
        RangeSumRight(t, node, lo, hi, l, r);
      } else {
        QueryIsRangeSum(t, Left(node), lo, mid, l, mid);
        QueryIsRangeSum(t, Right(node), mid + 1, hi, mid + 1, r);
        RangeSumSplit(t, node, lo, hi, l, mid, r);
        RangeSumLeft(t, node, lo, hi, l, mid);
        RangeSumRight(t, node, lo, hi, mid + 1, r);
      }
    }
  }

  /** Two trees that agree on the subtree of node. */
  predicate AgreeBelow(t: seq<int>, u: seq<int>, node: int)
  {
    |t| == |u| && forall k :: 0 <= k < |t| && Descends(k, node) ==> t[k] == u[k]
  }

  /** Leaf values and the sum property below node depend only on the
      subtree of node. */
  lemma {:induction false} SubtreeFrame(t: seq<int>, u: seq<int>, node: int, lo: int, hi: int)
    requires |t| == TreeLength && InTree(node, lo, hi) && AgreeBelow(t, u, node)
    ensures forall i :: lo <= i <= hi ==> Leaf(t, node, lo, hi, i) == Leaf(u, node, lo, hi, i)
    ensures Summed(t, node, lo, hi) == Summed(u, node, lo, hi)
    decreases hi - lo
  {
    assert Descends(node, node);
    if lo < hi {
      ChildrenInTree(node, lo, hi);
      var mid := Midpoint(lo, hi);
      ChildrenBelow(node);
      forall k | 0 <= k < |t| && Descends(k, Left(node))
        ensures t[k] == u[k]
      {
        DescendsTransitive(k, Left(node), node);
      }
      forall k | 0 <= k < |t| && Descends(k, Right(node))
        ensures t[k] == u[k]
      {
        DescendsTransitive(k, Right(node), node);
      }
      SubtreeFrame(t, u, Left(node), lo, mid);
      SubtreeFrame(t, u, Right(node), mid + 1, hi);
    }
  }

  /** The static array starts as zeros: summed, with every column 0. */
  lemma {:induction false} ZeroTree(t: seq<int>, node: int, lo: int, hi: int)
    requires |t| == TreeLength && InTree(node, lo, hi) && forall k :: 0 <= k < |t| ==> t[k] == 0
    ensures Summed(t, node, lo, hi)
    ensures forall i :: lo <= i <= hi ==> Leaf(t, node, lo, hi, i) == 0
    decreases hi - lo
  {
    if lo < hi {
      ChildrenInTree(node, lo, hi);
      ZeroTree(t, Left(node), lo, Midpoint(lo, hi));
      ZeroTree(t, Right(node), Midpoint(lo, hi) + 1, hi);
    }
  }

  /** after is before with value added to column index below node: nothing
      outside the subtree of node changed, column index went up by value and
      the other columns kept their values, and a summed subtree stayed summed. */
  predicate Updated(before: seq<int>, after: seq<int>, node: int, lo: int, hi: int, index: int, value: int)
    requires |before| == TreeLength && InTree(node, lo, hi)
  {
    && |after| == TreeLength
    && (forall k :: 0 <= k < |after| && !Descends(k, node) ==> after[k] == before[k])
    && (forall i :: lo <= i <= hi ==>
          Leaf(after, node, lo, hi, i) == Leaf(before, node, lo, hi, i) + (if i == index then value else 0))
    && (Summed(before, node, lo, hi) ==> Summed(after, node, lo, hi))
  }

  /** segment_tree_add: adds value to column index and recomputes the sums
      on the way back up, so that each node on the path holds the sum of its
      children. */
  method Add(tree: array<int>, node: int, lo: int, hi: int, index: int, value: int)
    requires tree.Length == TreeLength && InTree(node, lo, hi) && lo <= index <= hi
    modifies tree
    ensures Updated(old(tree[..]), tree[..], node, lo, hi, index, value)
    ensures lo < hi ==>
      && InTree(Left(node), lo, Midpoint(lo, hi)) && InTree(Right(node), Midpoint(lo, hi) + 1, hi)
      && tree[node] == tree[Left(node)] + tree[Right(node)]
    decreases hi - lo
  {
    if lo == hi {
      tree[node] := tree[node] + value;
      return;
    }
    ghost var before := tree[..];
    ChildrenInTree(node, lo, hi);
    var mid := Midpoint(lo, hi);
    if index <= mid {
      Add(tree, Left(node), lo, mid, index, value);
    } else {
      Add(tree, Right(node), mid + 1, hi, index, value);
    }
    ghost var middle := tree[..];
    ghost var child, clo, chi, other, olo, ohi := Left(node), lo, mid, Right(node), mid + 1, hi;
    if index > mid {
      child, clo, chi, other, olo, ohi := Right(node), mid + 1, hi, Left(node), lo, mid;
    }
    AddUp(before, middle, node, lo, hi, index, value, child, clo, chi, other, olo, ohi);
    tree[node] := tree[Left(node)] + tree[Right(node)];
    assert tree[..] == middle[node := middle[Left(node)] + middle[Right(node)]];
  }

  /** The step back up in segment_tree_add: child (covering clo .. chi, the
      half holding index) has been updated, other is untouched, and node is
      recomputed from its children. */
  lemma AddUp(before: seq<int>, middle: seq<int>, node: int, lo: int, hi: int, index: int, value: int,
              child: int, clo: int, chi: int, other: int, olo: int, ohi: int)
    requires |before| == TreeLength && InTree(node, lo, hi) && lo < hi
    requires || (child, clo, chi, other, olo, ohi) == (Left(node), lo, Midpoint(lo, hi), Right(node), Midpoint(lo, hi) + 1, hi)
             || (child, clo, chi, other, olo, ohi) == (Right(node), Midpoint(lo, hi) + 1, hi, Left(node), lo, Midpoint(lo, hi))
    requires InTree(child, clo, chi) && InTree(other, olo, ohi) && clo <= index <= chi
    requires Updated(before, middle, child, clo, chi, index, value)
    ensures Updated(before, middle[node := middle[Left(node)] + middle[Right(node)]], node, lo, hi, index, value)
  {
    var after := middle[node := middle[Left(node)] + middle[Right(node)]];
    ChildrenInTree(node, lo, hi);
    UpFrame(before, middle, after, node, child, other);
    SubtreeFrame(before, after, other, olo, ohi);
    SubtreeFrame(middle, after, child, clo, chi);
    UpLeaves(before, after, node, lo, hi, index, value, child, clo, chi, other, olo, ohi);
    UpSummed(before, middle, after, node, lo, hi, child, clo, chi, other, olo, ohi);
  }

  /** A node recomputed over summed children is summed. */
  lemma UpSummed(before: seq<int>, middle: seq<int>, after: seq<int>, node: int, lo: int, hi: int,
                 child: int, clo: int, chi: int, other: int, olo: int, ohi: int)
    requires |before| == TreeLength && |middle| == TreeLength && InTree(node, lo, hi) && lo < hi
    requires || (child, clo, chi, other, olo, ohi) == (Left(node), lo, Midpoint(lo, hi), Right(node), Midpoint(lo, hi) + 1, hi)
             || (child, clo, chi, other, olo, ohi) == (Right(node), Midpoint(lo, hi) + 1, hi, Left(node), lo, Midpoint(lo, hi))
    requires InTree(child, clo, chi) && InTree(other, olo, ohi)
    requires after == middle[node := middle[Left(node)] + middle[Right(node)]]
    requires Summed(before, child, clo, chi) ==> Summed(middle, child, clo, chi)
    requires Summed(after, child, clo, chi) == Summed(middle, child, clo, chi)
    requires Summed(after, other, olo, ohi) == Summed(before, other, olo, ohi)
    ensures Summed(before, node, lo, hi) ==> Summed(after, node, lo, hi)
  {
    ChildrenInTree(node, lo, hi);
    if Summed(before, node, lo, hi) {
      assert Summed(before, child, clo, chi) && Summed(before, other, olo, ohi);
      assert after[node] == after[Left(node)] + after[Right(node)];
    }
  }

  /** Only the subtree of child changed below node, and then node itself. */
  lemma UpFrame(before: seq<int>, middle: seq<int>, after: seq<int>, node: int, child: int, other: int)
    requires 1 <= node && |before| == |middle| && Right(node) < |middle|
    requires (child, other) == (Left(node), Right(node)) || (child, other) == (Right(node), Left(node))
    requires forall k :: 0 <= k < |middle| && !Descends(k, child) ==> middle[k] == before[k]
    requires after == middle[node := middle[Left(node)] + middle[Right(node)]]
    ensures forall k :: 0 <= k < |after| && !Descends(k, node) ==> after[k] == before[k]
    ensures AgreeBelow(before, after, other) && AgreeBelow(middle, after, child)
  {
    ChildrenBelow(node);
    forall k | 0 <= k < |after| && !Descends(k, node)
      ensures after[k] == before[k]
    {
      if Descends(k, child) {
        DescendsTransitive(k, child, node);
      }
    }
    assert Left(node) / 2 == node && Right(node) / 2 == node;
    forall k | 0 <= k < |after| && Descends(k, other)
      ensures after[k] == before[k]
    {
      SiblingsApart(k, other, child);
    }
  }

  /** The columns of node are those of its children. */
  lemma UpLeaves(before: seq<int>, after: seq<int>, node: int, lo: int, hi: int, index: int, value: int,
                 child: int, clo: int, chi: int, other: int, olo: int, ohi: int)
    requires |before| == TreeLength && |after| == TreeLength && InTree(node, lo, hi) && lo < hi
    requires || (child, clo, chi, other, olo, ohi) == (Left(node), lo, Midpoint(lo, hi), Right(node), Midpoint(lo, hi) + 1, hi)
             || (child, clo, chi, other, olo, ohi) == (Right(node), Midpoint(lo, hi) + 1, hi, Left(node), lo, Midpoint(lo, hi))
    requires InTree(child, clo, chi) && InTree(other, olo, ohi) && clo <= index <= chi
    requires forall i :: clo <= i <= chi ==>
      Leaf(after, child, clo, chi, i) == Leaf(before, child, clo, chi, i) + (if i == index then value else 0)
    requires forall i :: olo <= i <= ohi ==> Leaf(after, other, olo, ohi, i) == Leaf(before, other, olo, ohi, i)
    ensures forall i :: lo <= i <= hi ==>
      Leaf(after, node, lo, hi, i) == Leaf(before, node, lo, hi, i) + (if i == index then value else 0)
  {
    forall i | lo <= i <= hi
      ensures Leaf(after, node, lo, hi, i) == Leaf(before, node, lo, hi, i) + (if i == index then value else 0)
    {
      if clo <= i <= chi {
        assert Leaf(after, node, lo, hi, i) == Leaf(after, child, clo, chi, i);
        assert Leaf(before, node, lo, hi, i) == Leaf(before, child, clo, chi, i);
      } else {
        assert Leaf(after, node, lo, hi, i) == Leaf(after, other, olo, ohi, i);
        assert Leaf(before, node, lo, hi, i) == Leaf(before, other, olo, ohi, i);
      }
    }
  }
}
