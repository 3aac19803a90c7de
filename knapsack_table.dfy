/** The 0-1 knapsack recurrence both knapsack programs fill row by row
    (knapsack/homework_knapsack.c, where an item's value is its weight, and
    knapsack/discrete_knapsack.c), and what it computes: the best total
    value of a choice of items whose total weight fits. */
module KnapsackTable {

  function Max(a: int, b: int): int
  {
    if a > b then a else b
  }

  /** DP[i][w]: 0 without items; item i - 1 is skipped when heavier than w,
      otherwise the better of leaving it and taking it on top of the best
      for the weight that remains. */
  function Best(weights: seq<int>, values: seq<int>, i: nat, w: int): int
    requires i <= |weights| == |values|
  {
    if i == 0 then 0
    else if weights[i - 1] > w then Best(weights, values, i - 1, w)
    else Max(Best(weights, values, i - 1, w), Best(weights, values, i - 1, w - weights[i - 1]) + values[i - 1])
  }

  /** The total weight (or value) of the items a choice takes; the choice
      covers the first |take| items. */
  function Picked(take: seq<bool>, amounts: seq<int>): int
    requires |take| <= |amounts|
  {
    if take == [] then 0
    else Picked(take[..|take| - 1], amounts) + (if take[|take| - 1] then amounts[|take| - 1] else 0)
  }

  predicate NonNegative(s: seq<int>)
  {
    forall k :: 0 <= k < |s| ==> s[k] >= 0
  }

  lemma PickedPrefix(take: seq<bool>, amounts: seq<int>, b: bool)
    requires |take| < |amounts|
    ensures Picked(take + [b], amounts) == Picked(take, amounts) + (if b then amounts[|take|] else 0)
  {
    assert (take + [b])[..|take|] == take;
  }

  lemma {:induction false} PickedNonNegative(take: seq<bool>, amounts: seq<int>)
    requires |take| <= |amounts| && NonNegative(amounts)
    ensures Picked(take, amounts) >= 0
  {
    if take != [] {
      PickedNonNegative(take[..|take| - 1], amounts);
    }
  }

  /** The table entry is attained: some choice of the first i items weighs
      at most w and is worth exactly Best (for w >= 0). */
  lemma {:induction false} BestAttained(weights: seq<int>, values: seq<int>, i: nat, w: int) returns (take: seq<bool>)
    requires i <= |weights| == |values| && w >= 0
    ensures |take| == i
    ensures Picked(take, weights) <= w
    ensures Picked(take, values) == Best(weights, values, i, w)
  {
    if i == 0 {
      take := [];
    } else {
      var wi := weights[i - 1];
      if wi > w || Best(weights, values, i - 1, w) >= Best(weights, values, i - 1, w - wi) + values[i - 1] {
        var front := BestAttained(weights, values, i - 1, w);
        PickedPrefix(front, weights, false);
        PickedPrefix(front, values, false);
        take := front + [false];
      } else {
        var front := BestAttained(weights, values, i - 1, w - wi);
        PickedPrefix(front, weights, true);
        PickedPrefix(front, values, true);
        take := front + [true];
      }
    }
  }

  /** No choice of the first i items weighing at most w is worth more than the table entry. */
  lemma {:induction false} BestBounds(weights: seq<int>, values: seq<int>, i: nat, w: int, take: seq<bool>)
    requires i <= |weights| == |values| && NonNegative(weights)
    requires |take| == i && Picked(take, weights) <= w
    ensures Picked(take, values) <= Best(weights, values, i, w)
  {
    if i > 0 {
      var front := take[..i - 1];
      assert take == front + [take[i - 1]];
      PickedPrefix(front, weights, take[i - 1]);
      PickedPrefix(front, values, take[i - 1]);
      PickedNonNegative(front, weights);
      if take[i - 1] {
        BestBounds(weights, values, i - 1, w - weights[i - 1], front);
      } else {
        BestBounds(weights, values, i - 1, w, front);
      }
    }
  }

  /** Best(weights, values, n, W) is the largest value of a choice of items
      whose weight is at most W: one choice attains it and none beats it. */
  lemma BestIsOptimal(weights: seq<int>, values: seq<int>, w: int)
    requires |weights| == |values| && NonNegative(weights) && w >= 0
    ensures exists take :: |take| == |weights| && Picked(take, weights) <= w && Picked(take, values) == Best(weights, values, |weights|, w)
    ensures forall take :: |take| == |weights| && Picked(take, weights) <= w ==> Picked(take, values) <= Best(weights, values, |weights|, w)
  {
    var best := BestAttained(weights, values, |weights|, w);
    forall take | |take| == |weights| && Picked(take, weights) <= w
      ensures Picked(take, values) <= Best(weights, values, |weights|, w)
    {
      BestBounds(weights, values, |weights|, w, take);
    }
  }

  /** Adding an item never lowers an entry, so every entry is at least 0. */
  lemma BestGrows(weights: seq<int>, values: seq<int>, i: nat, w: int)
    requires 0 < i <= |weights| == |values|
    ensures Best(weights, values, i, w) >= Best(weights, values, i - 1, w)
  {
  }

  lemma {:induction false} BestNonNegative(weights: seq<int>, values: seq<int>, i: nat, w: int)
    requires i <= |weights| == |values|
    ensures Best(weights, values, i, w) >= 0
  {
    if i > 0 {
      BestNonNegative(weights, values, i - 1, w);
    }
  }

  /** When value equals weight, an entry never exceeds its capacity (w >= 0). */
  lemma {:induction false} BestWithinCapacity(weights: seq<int>, i: nat, w: int)
    requires i <= |weights| && w >= 0
    ensures Best(weights, weights, i, w) <= w
  {
    if i > 0 {
      BestWithinCapacity(weights, i - 1, w);
      if weights[i - 1] <= w {
        BestWithinCapacity(weights, i - 1, w - weights[i - 1]);
      }
    }
  }
}
