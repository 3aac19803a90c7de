/** The general 0-1 knapsack (knapsack/discrete_knapsack.c): items carry
    their own values, and an item heavier than the capacity is skipped. */
module DiscreteKnapsack {
  import opened KnapsackTable

  function Min(a: int, b: int): int
  {
    if a < b then a else b
  }

  /** knapsack_optimal: the two-row dynamic programme. The copy loop runs up
      to min(max(item_weight - 1, 0), max_weight), so an item that does not
      fit leaves the whole row as it was. */
  method KnapsackOptimal(maxWeight: int, weights: array<int>, values: array<int>) returns (result: int)
    requires maxWeight >= 0 && weights.Length == values.Length
    requires forall k :: 0 <= k < weights.Length ==> weights[k] >= 0
    ensures result == Best(weights[..], values[..], weights.Length, maxWeight)
  {
    ghost var ws, vs := weights[..], values[..];
    var prev := new int[maxWeight + 1](_ => 0);
    var current := new int[maxWeight + 1];
    for item := 1 to weights.Length + 1
      invariant fresh(prev) && fresh(current) && prev != current
      invariant prev.Length == current.Length == maxWeight + 1
      invariant forall w :: 0 <= w <= maxWeight ==> prev[w] == Best(ws, vs, item - 1, w)
    {
      var itemWeight := weights[item - 1];
      var itemValue := values[item - 1];
      for weight := 0 to Min(Max(itemWeight - 1, 0), maxWeight) + 1
        invariant forall w :: 0 <= w <= maxWeight ==> prev[w] == Best(ws, vs, item - 1, w)
        invariant forall w :: 0 <= w < weight ==> current[w] == prev[w]
      {
        current[weight] := prev[weight];
      }
      var weight := itemWeight;
      while weight <= maxWeight
        invariant itemWeight <= weight
        invariant forall w :: 0 <= w <= maxWeight ==> prev[w] == Best(ws, vs, item - 1, w)
        invariant forall w :: 0 <= w < Min(itemWeight, maxWeight + 1) ==> current[w] == Best(ws, vs, item, w)
        invariant forall w :: itemWeight <= w < weight && w <= maxWeight ==> current[w] == Best(ws, vs, item, w)
      {
        current[weight] := Max(prev[weight], prev[weight - itemWeight] + itemValue);
        weight := weight + 1;
      }
      prev, current := current, prev;
    }
    result := prev[maxWeight];
  }
}
