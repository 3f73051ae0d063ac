/** Choosing an item with a probability proportional to its weight, in exact arithmetic. */
module WeightedChoice {
  import opened JsText

  datatype Item<V> = Item(value: V, weight: real)

  /** The sum of the first `k` weights. */
  function Prefix<V>(items: seq<Item<V>>, k: nat): real
    requires k <= |items|
  {
    if k == 0 then 0.0 else Prefix(items, k - 1) + items[k - 1].weight
  }

  function Total<V>(items: seq<Item<V>>): real {
    Prefix(items, |items|)
  }

  ghost predicate NonNegative<V>(items: seq<Item<V>>) {
    forall i :: 0 <= i < |items| ==> items[i].weight >= 0.0
  }

  /** The loop stops at `i`: the running remainder is used up there and not before. */
  ghost predicate StopsAt<V>(items: seq<Item<V>>, r: real, i: nat) {
    && i < |items|
    && r <= Prefix(items, i + 1)
    && forall k :: 1 <= k <= i ==> Prefix(items, k) < r
  }

  lemma {:induction false} PrefixMonotone<V>(items: seq<Item<V>>, i: nat, j: nat)
    requires NonNegative(items) && i <= j <= |items|
    ensures Prefix(items, i) <= Prefix(items, j)
    decreases j
  {
    if i < j {
      PrefixMonotone(items, i, j - 1);
    }
  }

  lemma Product(a: real, b: real)
    requires a >= 0.0 && b >= 0.0
    ensures a * b >= 0.0
  {
  }

  /** The scaled random number never exceeds the total, so the loop always stops and the fallback is dead code. */
  lemma LoopAlwaysStops<V>(items: seq<Item<V>>, random: real)
    requires NonNegative(items) && 0.0 <= random < 1.0
    ensures 0.0 <= random * Total(items) <= Total(items)
  {
    PrefixMonotone(items, 0, |items|);
    var t := Total(items);
    Product(1.0 - random, t);
    Product(random, t);
    assert (1.0 - random) * t == t - random * t;
  }

  /**
   * What the loop chooses for the number `r`: the item it stops at, or the last one if it never
   * stops, which takes a negative weight; `None` stands for the error of reading the last of no items.
   */
  ghost predicate IsChoice<V>(items: seq<Item<V>>, r: real, choice: Option<V>) {
    if items == [] then choice == None
    else
      || (exists i: nat :: StopsAt(items, r, i) && choice == Some(items[i].value))
      || (&& choice == Some(items[|items| - 1].value) && !NonNegative(items)
          && forall k :: 1 <= k <= |items| ==> Prefix(items, k) < r)
  }

  method WeightedRandom<V>(items: seq<Item<V>>, random: real) returns (choice: Option<V>)
    requires 0.0 <= random < 1.0
    ensures IsChoice(items, random * Total(items), choice)
  {
    hide IsChoice, StopsAt, NonNegative, Prefix;
    PrefixOfNothing(items);
    var totalWeight := 0.0;
    for i := 0 to |items|
      invariant totalWeight == Prefix(items, i)
    {
      PrefixStep(items, i);
      totalWeight := totalWeight + items[i].weight;
    }
    var remaining := random * totalWeight;
    ghost var r := remaining;
    assert r == random * Total(items);
    for i := 0 to |items|
      invariant r == random * Total(items)
      invariant remaining == r - Prefix(items, i)
      invariant forall k :: 1 <= k <= i ==> Prefix(items, k) < r
    {
      PrefixStep(items, i);
      remaining := remaining - items[i].weight;
      if remaining <= 0.0 {
        Stopped(items, r, i);
        return Some(items[i].value);
      }
    }
    NeverStopped(items, random, r);
    if items == [] {
      return None;
    }
    return Some(items[|items| - 1].value);
  }

  lemma Stopped<V>(items: seq<Item<V>>, r: real, i: nat)
    requires i < |items| && r <= Prefix(items, i + 1)
    requires forall k :: 1 <= k <= i ==> Prefix(items, k) < r
    ensures IsChoice(items, r, Some(items[i].value))
  {
    assert StopsAt(items, r, i);
  }

  lemma NeverStopped<V>(items: seq<Item<V>>, random: real, r: real)
    requires 0.0 <= random < 1.0 && r == random * Total(items)
    requires forall k :: 1 <= k <= |items| ==> Prefix(items, k) < r
    ensures items == [] ==> IsChoice(items, r, None)
    ensures items != [] ==> IsChoice(items, r, Some(items[|items| - 1].value))
  {
    hide Prefix, NonNegative;
    if items != [] && NonNegative(items) {
      LoopAlwaysStops(items, random);
      assert false;
    }
  }

  lemma PrefixOfNothing<V>(items: seq<Item<V>>)
    ensures Prefix(items, 0) == 0.0
  {
  }

  /**
   * With non-negative weights and a positive number, the loop stops at `i` exactly on the interval
   * of length `items[i].weight` that ends at its prefix sum; at zero it stops at the first item.
   */
  lemma StopsOnItsInterval<V>(items: seq<Item<V>>, r: real, i: nat)
    requires NonNegative(items) && i < |items| && 0.0 <= r
    ensures r > 0.0 ==> (StopsAt(items, r, i) <==> Prefix(items, i) < r <= Prefix(items, i) + items[i].weight)
    ensures r == 0.0 ==> (StopsAt(items, r, i) <==> i == 0)
  {
    hide Prefix;
    PrefixStep(items, i);
    PrefixMonotone(items, 0, i);
    forall k | 1 <= k <= i
      ensures Prefix(items, k) <= Prefix(items, i)
    {
      PrefixMonotone(items, k, i);
    }
  }

  lemma PrefixStep<V>(items: seq<Item<V>>, i: nat)
    requires i < |items|
    ensures Prefix(items, i + 1) == Prefix(items, i) + items[i].weight && Prefix(items, 0) == 0.0
  {
  }

  /** An item of weight zero is chosen only if it comes first and the number is zero. */
  lemma ZeroWeightIsNotChosen<V>(items: seq<Item<V>>, r: real, i: nat)
    requires NonNegative(items) && i < |items| && 0.0 <= r && items[i].weight == 0.0
    ensures StopsAt(items, r, i) <==> i == 0 && r == 0.0
  {
    StopsOnItsInterval(items, r, i);
  }

  /** No number stops the loop at two items. */
  lemma ChoiceIsUnique<V>(items: seq<Item<V>>, r: real, i: nat, j: nat)
    requires StopsAt(items, r, i) && StopsAt(items, r, j)
    ensures i == j
  {
  }

  lemma Positive(a: real, b: real)
    requires a > 0.0 && b > 0.0
    ensures a * b > 0.0
  {
  }

  lemma FactorRange(q: real, total: real)
    requires total > 0.0
    ensures q < 0.0 ==> q * total < 0.0
    ensures q >= 1.0 ==> q * total >= total
  {
    if q < 0.0 {
      Positive(-q, total);
      assert -q * total == -(q * total);
    }
    if q >= 1.0 {
      Product(q - 1.0, total);
      assert (q - 1.0) * total == q * total - total;
    }
  }

  lemma ScaledBack(r: real, total: real) returns (random: real)
    requires 0.0 <= r < total
    ensures 0.0 <= random < 1.0 && random * total == r
  {
    random := r / total;
    assert random * total == r;
    FactorRange(random, total);
  }

  /** Every number up to the sum of the weights is reached, so every item with a weight can be chosen. */
  lemma EveryWeightCounts<V>(items: seq<Item<V>>, i: nat) returns (random: real)
    requires NonNegative(items) && i < |items| && items[i].weight > 0.0
    ensures 0.0 <= random < 1.0 && StopsAt(items, random * Total(items), i)
  {
    var r := MiddleOfInterval(items, i);
    hide *;
    random := ScaledBack(r, Total(items));
  }

  lemma MiddleOfInterval<V>(items: seq<Item<V>>, i: nat) returns (r: real)
    requires NonNegative(items) && i < |items| && items[i].weight > 0.0
    ensures 0.0 <= r < Total(items) && StopsAt(items, r, i)
  {
    hide Prefix, StopsAt;
    r := Prefix(items, i) + items[i].weight / 2.0;
    PrefixStep(items, i);
    PrefixMonotone(items, 0, i);
    PrefixMonotone(items, i + 1, |items|);
    StopsOnItsInterval(items, r, i);
  }

  /** The total is the sum of all weights. */
  lemma {:induction false} TotalSnoc<V>(items: seq<Item<V>>, x: Item<V>)
    ensures Total(items + [x]) == Total(items) + x.weight
  {
    PrefixOfMore(items, x, |items|);
  }

  lemma {:induction false} PrefixOfMore<V>(items: seq<Item<V>>, x: Item<V>, k: nat)
    requires k <= |items|
    ensures Prefix(items + [x], k) == Prefix(items, k)
  {
    if k > 0 {
      PrefixOfMore(items, x, k - 1);
    }
  }
}
