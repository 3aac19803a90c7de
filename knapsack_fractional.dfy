/** The fractional knapsack (fractional_knapsack.c): items sorted in place by
    descending value/weight ratio, whole items taken while they fit, and at
    most one item sliced, which ends the run. The result is tagged INT when
    nothing was sliced and DOUBLE otherwise; doubles are modelled as reals. */
module FractionalKnapsack {
  import opened Util

  /** struct item; ratio is the cached value / weight the driver computes. */
  datatype Item = Item(weight: int, value: int, ratio: real)

  /** struct variant. */
  datatype Variant = IntVal(intVal: int) | DoubleVal(doubleVal: real)

  /** comparator: negative when a has the larger ratio, positive when b has,
      0 on equal ratios. */
  function Comparator(a: Item, b: Item): (c: int)
    ensures c < 0 <==> a.ratio > b.ratio
    ensures c > 0 <==> a.ratio < b.ratio
    ensures c == 0 <==> a.ratio == b.ratio
  {
    if a.ratio > b.ratio then -1 else if a.ratio < b.ratio then 1 else 0
  }

  /** The order qsort establishes with the comparator. */
  function ByRatio(a: Item, b: Item): bool
  {
    Comparator(a, b) <= 0
  }

  lemma ByRatioIsTotalPreorder()
    ensures TotalPreorder(ByRatio)
  {
  }

  /** Total weight of a list of items. */
  function TotalWeight(s: seq<Item>): int
  {
    if s == [] then 0 else s[0].weight + TotalWeight(s[1..])
  }

  /** Total value of a list of items. */
  function TotalValue(s: seq<Item>): int
  {
    if s == [] then 0 else s[0].value + TotalValue(s[1..])
  }

  lemma {:induction false} TotalAppend(s: seq<Item>, x: Item)
    ensures TotalWeight(s + [x]) == TotalWeight(s) + x.weight
    ensures TotalValue(s + [x]) == TotalValue(s) + x.value
  {
    if s != [] {
      assert (s + [x])[1..] == s[1..] + [x];
      TotalAppend(s[1..], x);
    }
  }

  /** With non-negative weights a prefix weighs at most the whole list. */
  lemma {:induction false} TotalPrefixBound(s: seq<Item>, k: nat)
    requires k <= |s| && forall i :: 0 <= i < |s| ==> s[i].weight >= 0
    ensures TotalWeight(s[..k]) <= TotalWeight(s)
  {
    if k > 0 {
      assert s[..k][1..] == s[1..][..k - 1];
      TotalPrefixBound(s[1..], k - 1);
    } else {
      TotalNonNegative(s);
    }
  }

  lemma {:induction false} TotalNonNegative(s: seq<Item>)
    requires forall i :: 0 <= i < |s| ==> s[i].weight >= 0
    ensures TotalWeight(s) >= 0
  {
    if s != [] {
      TotalNonNegative(s[1..]);
    }
  }

  /** The greedy loop over the remaining items: a whole item when it fits,
      otherwise a slice of it when there is room left, otherwise stop. */
  function Fill(s: seq<Item>, remaining: int, accumulated: int): Variant
  {
    if s == [] then IntVal(accumulated)
    else if s[0].weight <= remaining then Fill(s[1..], remaining - s[0].weight, accumulated + s[0].value)
    else if remaining > 0 then
      DoubleVal((remaining as real / s[0].weight as real) * (s[0].value as real) + accumulated as real)
    else IntVal(accumulated)
  }

  /** How many whole items the greedy loop takes. */
  function WholeCount(s: seq<Item>, remaining: int): (k: nat)
    ensures k <= |s|
  {
    if s == [] || s[0].weight > remaining then 0 else 1 + WholeCount(s[1..], remaining - s[0].weight)
  }

  /** fractional_knapsack: sorts the items in place, then runs the greedy
      loop; accumulated_value is the value of the items taken so far and
      remaining_weight what their weight leaves of max_weight. */
  method FractionalKnapsack(maxWeight: int, items: array<Item>) returns (r: Variant)
    modifies items
    ensures multiset(items[..]) == multiset(old(items[..]))
    ensures SortedBy(items[..], ByRatio)
    ensures r == Fill(items[..], maxWeight, 0)
  {
    SortByRatio(items);
    ghost var sorted := items[..];
    var accumulated := 0;
    var remaining := maxWeight;
    var index := 0;
    while index < items.Length
      invariant 0 <= index <= items.Length
      invariant items[..] == sorted
      invariant accumulated == TotalValue(sorted[..index])
      invariant remaining == maxWeight - TotalWeight(sorted[..index])
      invariant maxWeight >= 0 ==> remaining >= 0
      invariant Fill(sorted, maxWeight, 0) == Fill(sorted[index..], remaining, accumulated)
    {
      var item := items[index];
      assert sorted[index..][1..] == sorted[index + 1..];
      if item.weight <= remaining {
        assert sorted[..index + 1] == sorted[..index] + [item];
        TotalAppend(sorted[..index], item);
        remaining := remaining - item.weight;
        accumulated := accumulated + item.value;
      } else if remaining > 0 {
        var sliced := (remaining as real / item.weight as real) * (item.value as real);
        return DoubleVal(sliced + accumulated as real);
      } else {
        break;
      }
      index := index + 1;
    }
    if index == items.Length {
      assert sorted[index..] == [];
    }
    return IntVal(accumulated);
  }

  /** The qsort call: the items end up a permutation of the input in
      non-increasing ratio order. */
  method SortByRatio(items: array<Item>)
    modifies items
    ensures multiset(items[..]) == multiset(old(items[..]))
    ensures SortedBy(items[..], ByRatio)
  {
    SortPrefix(items, items.Length, ByRatio);
    assert items[..] == items[..items.Length];
    ByRatioIsTotalPreorder();
    InsertionSortSorted(old(items[..items.Length]), ByRatio);
    assert old(items[..items.Length]) == old(items[..]);
  }

  /** What the greedy loop returns: with k the number of whole items taken,
      their values added to the running total and left the weight that their
      weights leave (never negative when it was not). If all items were
      taken the result is INT; otherwise item k does not fit, and it is
      sliced into a DOUBLE result when room is left and the result is INT
      when none is. */
  lemma {:induction false} FillSpec(s: seq<Item>, remaining: int, accumulated: int)
    ensures var k := WholeCount(s, remaining);
      var total := accumulated + TotalValue(s[..k]);
      var left := remaining - TotalWeight(s[..k]);
      && (remaining >= 0 ==> left >= 0)
      && (k == |s| ==> Fill(s, remaining, accumulated) == IntVal(total))
      && (k < |s| ==> s[k].weight > left)
      && (k < |s| && left > 0 ==>
            Fill(s, remaining, accumulated) == DoubleVal((left as real / s[k].weight as real) * (s[k].value as real) + total as real))
      && (k < |s| && left <= 0 ==> Fill(s, remaining, accumulated) == IntVal(total))
  {
    WholeItems(s, remaining, accumulated);
    var k := WholeCount(s, remaining);
    if k == |s| {
      assert s[k..] == [];
    } else {
      assert s[k..][0] == s[k];
    }
  }

  /** The whole items the loop takes: the weight they leave is never
      negative when it was not, the next item does not fit in it, and the
      loop then goes on from there with their values added. */
  lemma {:induction false} WholeItems(s: seq<Item>, remaining: int, accumulated: int)
    ensures var k := WholeCount(s, remaining);
      var left := remaining - TotalWeight(s[..k]);
      && (remaining >= 0 ==> left >= 0)
      && (k < |s| ==> s[k].weight > left)
      && Fill(s, remaining, accumulated) == Fill(s[k..], left, accumulated + TotalValue(s[..k]))
  {
    if s != [] && s[0].weight <= remaining {
      WholeItems(s[1..], remaining - s[0].weight, accumulated + s[0].value);
      var k := WholeCount(s, remaining);
      assert s[..k][1..] == s[1..][..k - 1];
      assert s[k..] == s[1..][k - 1..];
      assert TotalValue(s[..k]) == s[0].value + TotalValue(s[1..][..k - 1]);
      assert TotalWeight(s[..k]) == s[0].weight + TotalWeight(s[1..][..k - 1]);
      assert k < |s| ==> s[k] == s[1..][k - 1];
    } else {
      assert s[..0] == [] && s[0..] == s;
    }
  }

  /** When the weights are non-negative and all of them together fit, every
      item is taken whole and the result is the INT sum of all values. */
  lemma AllFit(s: seq<Item>, maxWeight: int)
    requires forall i :: 0 <= i < |s| ==> s[i].weight >= 0
    requires TotalWeight(s) <= maxWeight
    ensures Fill(s, maxWeight, 0) == IntVal(TotalValue(s))
  {
    FillSpec(s, maxWeight, 0);
    var k := WholeCount(s, maxWeight);
    if k < |s| {
      TotalPrefixBound(s, k + 1);
      assert s[..k + 1] == s[..k] + [s[k]];
      TotalAppend(s[..k], s[k]);
      assert false;
    }
    assert s[..k] == s;
  }
}
