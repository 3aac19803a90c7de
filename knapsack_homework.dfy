/** The knapsack homework (knapsack/homework_knapsack.c), where every item's
    value is its weight: the exact answer by the two-row dynamic programme,
    the greedy answer over the weights sorted in descending order, and the
    check of the test driver that the greedy answer is at least half the
    exact one. */
module HomeworkKnapsack {
  import opened Util
  import opened KnapsackTable

  /** knapsack_optimal: rows of the table over capacities 0..maxWeight,
      kept in two arrays whose roles swap after every item. The copy loop
      writes up to index item_weight, so every weight must be at most
      maxWeight (and not negative). */
  method KnapsackOptimal(maxWeight: int, weights: array<int>) returns (result: int)
    requires maxWeight >= 0
    requires forall k :: 0 <= k < weights.Length ==> 0 <= weights[k] <= maxWeight
    ensures result == Best(weights[..], weights[..], weights.Length, maxWeight)
    ensures 0 <= result <= maxWeight
  {
    ghost var ws := weights[..];
    var prev := new int[maxWeight + 1](_ => 0);
    var current := new int[maxWeight + 1];
    for item := 1 to weights.Length + 1
      invariant fresh(prev) && fresh(current) && prev != current
      invariant prev.Length == current.Length == maxWeight + 1
      invariant forall w :: 0 <= w <= maxWeight ==> prev[w] == Best(ws, ws, item - 1, w)
    {
      var itemWeight := weights[item - 1];
      for weight := 0 to itemWeight + 1
        invariant forall w :: 0 <= w <= maxWeight ==> prev[w] == Best(ws, ws, item - 1, w)
        invariant forall w :: 0 <= w < weight ==> current[w] == prev[w]
      {
        current[weight] := prev[weight];
      }
      for weight := itemWeight to maxWeight + 1
        invariant forall w :: 0 <= w <= maxWeight ==> prev[w] == Best(ws, ws, item - 1, w)
        invariant forall w :: 0 <= w < itemWeight ==> current[w] == Best(ws, ws, item, w)
        invariant forall w :: itemWeight <= w < weight ==> current[w] == Best(ws, ws, item, w)
      {
        current[weight] := Max(prev[weight], prev[weight - itemWeight] + itemWeight);
      }
      prev, current := current, prev;
    }
    result := prev[maxWeight];
    BestNonNegative(ws, ws, weights.Length, maxWeight);
    BestWithinCapacity(ws, weights.Length, maxWeight);
  }

  /** comparator: negative when a should come first (a > b), 0 for equal
      weights, positive otherwise. */
  function Comparator(a: int, b: int): (c: int)
    ensures c < 0 <==> a > b
    ensures c == 0 <==> a == b
    ensures c > 0 <==> a < b
  {
    if a == b then 0 else if a > b then -1 else 1
  }

  /** The order qsort establishes with the comparator: a may precede b when
      comparator(a, b) <= 0. */
  function Descending(a: int, b: int): bool
  {
    Comparator(a, b) <= 0
  }

  lemma DescendingIsTotalPreorder()
    ensures TotalPreorder(Descending)
  {
  }

  /** The greedy answer over a list: take items from the front while each
      fits in what remains, stop at the first that does not. */
  function Greedy(s: seq<int>, remaining: int): int
  {
    if s == [] || s[0] > remaining then 0 else s[0] + Greedy(s[1..], remaining - s[0])
  }

  /** How many items the greedy answer takes. */
  function GreedyCount(s: seq<int>, remaining: int): (k: nat)
    ensures k <= |s|
  {
    if s == [] || s[0] > remaining then 0 else 1 + GreedyCount(s[1..], remaining - s[0])
  }

  /** The greedy answer is the sum of the first GreedyCount items, fits in
      what remained, and the item after them (if any) does not fit in the
      rest. */
  lemma {:induction false} GreedyTakesPrefix(s: seq<int>, remaining: int)
    ensures var k := GreedyCount(s, remaining);
      && Greedy(s, remaining) == Sum(s[..k])
      && (remaining >= 0 ==> Greedy(s, remaining) <= remaining)
      && (k < |s| ==> s[k] > remaining - Greedy(s, remaining))
  {
    if s != [] && s[0] <= remaining {
      GreedyTakesPrefix(s[1..], remaining - s[0]);
      var k := GreedyCount(s, remaining);
      SumFront(s[..k]);
      assert s[..k][1..] == s[1..][..k - 1];
    }
  }

  /** knapsack_approximation: sorts the weights in place into descending
      order, then takes them greedily; remaining_weight never goes negative
      and solution + remaining_weight stays maxWeight. */
  method KnapsackApproximation(maxWeight: int, weights: array<int>) returns (solution: int)
    requires maxWeight >= 0
    modifies weights
    ensures multiset(weights[..]) == multiset(old(weights[..]))
    ensures SortedBy(weights[..], Descending)
    ensures solution == Greedy(weights[..], maxWeight)
    ensures solution <= maxWeight
  {
    SortPrefix(weights, weights.Length, Descending);
    assert weights[..] == weights[..weights.Length];
    DescendingIsTotalPreorder();
    InsertionSortSorted(old(weights[..weights.Length]), Descending);
    assert old(weights[..weights.Length]) == old(weights[..]);
    solution := 0;
    var remaining := maxWeight;
    var item := 0;
    while item < weights.Length
      invariant 0 <= item <= weights.Length
      invariant remaining >= 0 && solution + remaining == maxWeight
      invariant Greedy(weights[..], maxWeight) == solution + Greedy(weights[item..], remaining)
    {
      var itemWeight := weights[item];
      assert weights[item..][1..] == weights[item + 1..];
      if remaining >= itemWeight {
        remaining := remaining - itemWeight;
        solution := solution + itemWeight;
      } else {
        break;
      }
      item := item + 1;
    }
    if item == weights.Length {
      assert weights[item..] == [];
    }
  }

  /** On weights sorted in descending order, each at most the capacity, the
      greedy answer either takes everything or fills more than half of the
      capacity. */
  lemma GreedyHalf(s: seq<int>, maxWeight: int)
    requires maxWeight >= 0 && SortedBy(s, Descending)
    requires forall k :: 0 <= k < |s| ==> 0 <= s[k] <= maxWeight
    ensures Greedy(s, maxWeight) == Sum(s) || 2 * Greedy(s, maxWeight) > maxWeight
  {
    GreedyTakesPrefix(s, maxWeight);
    var k := GreedyCount(s, maxWeight);
    if k == |s| {
      assert s[..k] == s;
    } else {
      assert k > 0;
      var g := Greedy(s, maxWeight);
      assert s[k] > maxWeight - g;
      SumFront(s[..k]);
      SumNonNegative(s[..k][1..]);
      assert g >= s[0] >= s[k];
    }
  }

  /** With value equal to weight, an entry is at most the total weight of the items considered. */
  lemma {:induction false} BestAtMostTotal(weights: seq<int>, i: nat, w: int)
    requires i <= |weights| && NonNegative(weights)
    ensures Best(weights, weights, i, w) <= Sum(weights[..i])
  {
    if i > 0 {
      BestAtMostTotal(weights, i - 1, w);
      if weights[i - 1] <= w {
        BestAtMostTotal(weights, i - 1, w - weights[i - 1]);
      }
      assert weights[..i][..i - 1] == weights[..i - 1];
    }
  }

  /** The driver's assertion: for weights in [1, maxWeight], twice the greedy
      answer over the sorted weights is at least the exact answer over the
      original order. */
  lemma TwoApproximation(weights: seq<int>, sorted: seq<int>, maxWeight: int)
    requires maxWeight >= 0
    requires forall k :: 0 <= k < |weights| ==> 1 <= weights[k] <= maxWeight
    requires multiset(sorted) == multiset(weights) && SortedBy(sorted, Descending)
    ensures 2 * Greedy(sorted, maxWeight) >= Best(weights, weights, |weights|, maxWeight)
  {
    var opt := Best(weights, weights, |weights|, maxWeight);
    BestWithinCapacity(weights, |weights|, maxWeight);
    BestAtMostTotal(weights, |weights|, maxWeight);
    assert weights[..|weights|] == weights;
    SumPermutation(weights, sorted);
    forall k | 0 <= k < |sorted| ensures 0 <= sorted[k] <= maxWeight {
      assert sorted[k] in multiset(weights);
    }
    GreedyHalf(sorted, maxWeight);
    BestNonNegative(weights, weights, |weights|, maxWeight);
  }

  /** run_test with the drawn capacity and weights as inputs: the exact
      answer, then the greedy answer (which sorts the same array), then the
      check; the check always passes. */
  method RunTest(maxWeight: int, weights: array<int>) returns (passed: bool)
    requires maxWeight >= 1
    requires forall k :: 0 <= k < weights.Length ==> 1 <= weights[k] <= maxWeight
    modifies weights
    ensures passed
  {
    ghost var original := weights[..];
    var optimal := KnapsackOptimal(maxWeight, weights);
    var approximation := KnapsackApproximation(maxWeight, weights);
    TwoApproximation(original, weights[..], maxWeight);
    passed := approximation * 2 >= optimal;
  }
}
