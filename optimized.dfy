/**
 * The dynamic-programming engine (optimized.py): a 0/1 knapsack table
 * dp[i, w], the best value using the first i items within weight w, filled
 * row by row, then walked backwards to recover the chosen item indices.
 */
module Optimized {
  import opened Shares

  /** Python's max(a, b): the first argument unless the second is larger. */
  function Max(a: real, b: real): (m: real)
    ensures m >= a && m >= b
    ensures m == a || m == b
    ensures m == a <== a >= b
  {
    if b > a then b else a
  }

  /** Python's int(x) on a float: truncation toward zero. */
  function Truncate(x: real): (t: int)
    ensures x >= 0.0 ==> t as real <= x < t as real + 1.0
    ensures x < 0.0 ==> t as real - 1.0 < x <= t as real
  {
    if x >= 0.0 then x.Floor else -((-x).Floor)
  }

  /** What truncating the budget means for a whole-unit cost c: a cost within
      the budget is within the truncated capacity, and a cost within the
      capacity is within the budget unless the budget lies in (-1, 0) and the
      cost is 0. */
  lemma TruncateBounds(x: real, c: nat)
    requires x > -1.0
    ensures Truncate(x) >= 0
    ensures c as real <= x ==> c <= Truncate(x)
    ensures c <= Truncate(x) && (c > 0 || x >= 0.0) ==> c as real <= x
  {
  }

  /** Total weight of the items at the positions idx. */
  function Weight(weights: seq<nat>, idx: seq<nat>): nat
    requires InRange(idx, |weights|)
  {
    Sum(Pick(weights, idx))
  }

  /** Total value of the items at the positions idx. */
  function Value(values: seq<real>, idx: seq<nat>): real
    requires InRange(idx, |values|)
  {
    RealSum(Pick(values, idx))
  }

  /** The knapsack recurrence: the best value reachable with items
      0 .. i-1 within weight w. */
  function Best(values: seq<real>, weights: seq<nat>, i: nat, w: nat): real
    requires i <= |values| && i <= |weights|
  {
    if i == 0 then 0.0
    else if weights[i - 1] <= w then
      Max(Best(values, weights, i - 1, w), Best(values, weights, i - 1, w - weights[i - 1]) + values[i - 1])
    else Best(values, weights, i - 1, w)
  }

  /** The backward walk of the table, as a function of the recurrence: item
      i-1 is taken exactly when row i differs from row i-1 at the current
      weight, and the walk then continues with that item's weight removed. */
  function Reconstruct(values: seq<real>, weights: seq<nat>, i: nat, w: nat): (picked: seq<nat>)
    requires i <= |values| && i <= |weights|
    ensures StrictlyDecreasing(picked) && InRange(picked, i)
  {
    if i == 0 then []
    else if Best(values, weights, i, w) != Best(values, weights, i - 1, w) then
      [i - 1] + Reconstruct(values, weights, i - 1, w - weights[i - 1])
    else Reconstruct(values, weights, i - 1, w)
  }

  predicate PositiveWeights(weights: seq<nat>) {
    forall k :: 0 <= k < |weights| ==> weights[k] > 0
  }

  /** Weight and value of a selection with one more index in front. */
  lemma SelectionCons(values: seq<real>, weights: seq<nat>, x: nat, rest: seq<nat>)
    requires x < |values| && x < |weights| && InRange(rest, |values|) && InRange(rest, |weights|)
    ensures InRange([x] + rest, |values|) && InRange([x] + rest, |weights|)
    ensures Weight(weights, [x] + rest) == weights[x] + Weight(weights, rest)
    ensures Value(values, [x] + rest) == values[x] + Value(values, rest)
  {
    assert Pick(weights, [x] + rest) == [weights[x]] + Pick(weights, rest);
    assert Pick(values, [x] + rest) == [values[x]] + Pick(values, rest);
    assert ([weights[x]] + Pick(weights, rest))[1..] == Pick(weights, rest);
    assert ([values[x]] + Pick(values, rest))[1..] == Pick(values, rest);
  }

  /** Weight and value of a selection with one more index at the end. */
  lemma SelectionSnoc(values: seq<real>, weights: seq<nat>, init: seq<nat>, x: nat)
    requires x < |values| && x < |weights| && InRange(init, |values|) && InRange(init, |weights|)
    ensures InRange(init + [x], |values|) && InRange(init + [x], |weights|)
    ensures Weight(weights, init + [x]) == Weight(weights, init) + weights[x]
    ensures Value(values, init + [x]) == Value(values, init) + values[x]
  {
    assert Pick(weights, init + [x]) == Pick(weights, init) + [weights[x]];
    assert Pick(values, init + [x]) == Pick(values, init) + [values[x]];
    SumAppend(Pick(weights, init), [weights[x]]);
    RealSumAppend(Pick(values, init), [values[x]]);
  }

  // ---------------------------------------------------------------------
  // Properties of the recurrence
  // ---------------------------------------------------------------------

  /** Row 0 is all zeros, and so is column 0 when every weight is positive:
      with nothing to choose from, or no room, the best value is 0. */
  lemma {:induction false} BestEmpty(values: seq<real>, weights: seq<nat>, i: nat, w: nat)
    requires i <= |values| && i <= |weights|
    requires PositiveWeights(weights)
    requires i == 0 || w == 0
    ensures Best(values, weights, i, w) == 0.0
    ensures Reconstruct(values, weights, i, w) == []
  {
    if i > 0 {
      BestEmpty(values, weights, i - 1, w);
    }
  }

  /** The empty selection is always feasible, so the best value is never negative. */
  lemma {:induction false} BestNonNegative(values: seq<real>, weights: seq<nat>, i: nat, w: nat)
    requires i <= |values| && i <= |weights|
    ensures Best(values, weights, i, w) >= 0.0
  {
    if i > 0 {
      BestNonNegative(values, weights, i - 1, w);
    }
  }

  /** More items or more room never lowers the best value: dp[i][w] is
      non-decreasing in both i and w. */
  lemma {:induction false} BestMonotone(values: seq<real>, weights: seq<nat>, i: nat, i': nat, w: nat, w': nat)
    requires i <= i' <= |values| && i' <= |weights|
    requires w <= w'
    ensures Best(values, weights, i, w) <= Best(values, weights, i', w')
  {
    if i' > i {
      BestMonotone(values, weights, i, i' - 1, w, w');
    } else if i > 0 {
      var wt := weights[i - 1];
      BestMonotone(values, weights, i - 1, i - 1, w, w');
      if wt <= w {
        BestMonotone(values, weights, i - 1, i - 1, w - wt, w' - wt);
      }
    }
  }

  /** dp[i][w] dominates every subset of items 0 .. i-1 whose weight is at most w. */
  lemma {:induction false} BestDominates(values: seq<real>, weights: seq<nat>, i: nat, w: nat, idx: seq<nat>)
    requires i <= |values| && i <= |weights|
    requires IsIndexSubset(idx, i)
    requires Weight(weights, idx) <= w
    ensures Value(values, idx) <= Best(values, weights, i, w)
  {
    if i == 0 {
      assert idx == [];
    } else if idx == [] {
      BestNonNegative(values, weights, i, w);
    } else {
      var last := idx[|idx| - 1];
      var init := idx[..|idx| - 1];
      SelectionSnoc(values, weights, init, last);
      assert idx == init + [last];
      if last == i - 1 {
        assert IsIndexSubset(init, i - 1);
        BestDominates(values, weights, i - 1, w - weights[i - 1], init);
      } else {
        assert IsIndexSubset(idx, i - 1);
        BestDominates(values, weights, i - 1, w, idx);
      }
    }
  }

  /** BestDominates for every subset at once. */
  lemma BestOptimal(values: seq<real>, weights: seq<nat>, i: nat, w: nat)
    requires i <= |values| && i <= |weights|
    ensures forall idx :: IsIndexSubset(idx, i) && Weight(weights, idx) <= w ==>
              Value(values, idx) <= Best(values, weights, i, w)
  {
    forall idx | IsIndexSubset(idx, i) && Weight(weights, idx) <= w
      ensures Value(values, idx) <= Best(values, weights, i, w)
    {
      BestDominates(values, weights, i, w, idx);
    }
  }

  /** The backward walk never drives the weight below 0 (Reconstruct is
      well defined) and recovers a selection that achieves dp[i][w]: its
      weight is within w and its value is exactly the table's value. */
  lemma {:induction false} ReconstructSound(values: seq<real>, weights: seq<nat>, i: nat, w: nat)
    requires i <= |values| && i <= |weights|
    ensures Weight(weights, Reconstruct(values, weights, i, w)) <= w
    ensures Value(values, Reconstruct(values, weights, i, w)) == Best(values, weights, i, w)
  {
    if i > 0 {
      if Best(values, weights, i, w) != Best(values, weights, i - 1, w) {
        var wt := weights[i - 1];
        var rest := Reconstruct(values, weights, i - 1, w - wt);
        ReconstructSound(values, weights, i - 1, w - wt);
        SelectionCons(values, weights, i - 1, rest);
      } else {
        ReconstructSound(values, weights, i - 1, w);
      }
    }
  }

  /** When none of items 0 .. i-1 fits in w, the optimum is 0 and the walk
      back selects nothing. */
  lemma {:induction false} NothingFits(values: seq<real>, weights: seq<nat>, i: nat, w: nat)
    requires i <= |values| && i <= |weights|
    requires forall k :: 0 <= k < i ==> weights[k] > w
    ensures Best(values, weights, i, w) == 0.0
    ensures Reconstruct(values, weights, i, w) == []
  {
    if i > 0 {
      NothingFits(values, weights, i - 1, w);
    }
  }

  /** dp[i][w] is attained: the reconstructed selection, read in catalog
      order, is a feasible subset with exactly that value. Together with
      BestDominates this makes dp[i][w] the 0/1-knapsack optimum. */
  lemma BestAttained(values: seq<real>, weights: seq<nat>, i: nat, w: nat)
    requires i <= |values| && i <= |weights|
    ensures var chosen := Reverse(Reconstruct(values, weights, i, w));
      && IsIndexSubset(chosen, i)
      && Weight(weights, chosen) <= w
      && Value(values, chosen) == Best(values, weights, i, w)
  {
    var picked := Reconstruct(values, weights, i, w);
    ReconstructSound(values, weights, i, w);
    assert Pick(weights, Reverse(picked)) == Reverse(Pick(weights, picked));
    assert Pick(values, Reverse(picked)) == Reverse(Pick(values, picked));
    SumReverse(Pick(weights, picked));
    RealSumReverse(Pick(values, picked));
  }

  // ---------------------------------------------------------------------
  // The engine
  // ---------------------------------------------------------------------

  /** The first half of knapsack: allocates the (n+1) x (capacity+1) table of
      zeros and fills rows 1 .. n, columns 1 .. capacity, with the recurrence. */
  method FillTable(values: seq<real>, weights: seq<nat>, cap: nat) returns (dp: array2<real>)
    requires |values| <= |weights|
    requires PositiveWeights(weights)
    ensures fresh(dp)
    ensures dp.Length0 == |values| + 1 && dp.Length1 == cap + 1
    ensures forall r, c :: 0 <= r <= |values| && 0 <= c <= cap ==> dp[r, c] == Best(values, weights, r, c)
  {
    var n := |values|;
    dp := new real[n + 1, cap + 1]((_, _) => 0.0);

    for i := 1 to n + 1
      invariant forall r, c :: 0 <= r < i && 0 <= c <= cap ==> dp[r, c] == Best(values, weights, r, c)
      invariant forall r, c :: i <= r <= n && 0 <= c <= cap ==> dp[r, c] == 0.0
    {
      BestEmpty(values, weights, i, 0);
      for w := 1 to cap + 1
        invariant forall r, c :: 0 <= r < i && 0 <= c <= cap ==> dp[r, c] == Best(values, weights, r, c)
        invariant forall c :: 0 <= c < w ==> dp[i, c] == Best(values, weights, i, c)
        invariant forall r, c :: i < r <= n && 0 <= c <= cap ==> dp[r, c] == 0.0
      {
        if weights[i - 1] <= w {
          dp[i, w] := Max(dp[i - 1, w], dp[i - 1, w - weights[i - 1]] + values[i - 1]);
        } else {
          dp[i, w] := dp[i - 1, w];
        }
      }
    }
  }

  /** The second half of knapsack: walks the filled table back from
      dp[n][capacity], taking item i - 1 whenever dp[i][w] differs from the
      row above and then paying its weight. The walk never drives w below 0
      and picks exactly the items of the recurrence's own reconstruction. */
  method WalkBack(values: seq<real>, weights: seq<nat>, dp: array2<real>, cap: nat)
    returns (selected: seq<nat>)
    requires |values| <= |weights|
    requires dp.Length0 == |values| + 1 && dp.Length1 == cap + 1
    requires forall r, c :: 0 <= r <= |values| && 0 <= c <= cap ==> dp[r, c] == Best(values, weights, r, c)
    ensures selected == Reconstruct(values, weights, |values|, cap)
  {
    var n := |values|;
    selected := [];
    var w: int := cap;
    var i := n;
    while i > 0
      invariant 0 <= i <= n && 0 <= w <= cap
      invariant selected + Reconstruct(values, weights, i, w) == Reconstruct(values, weights, n, cap)
    {
      if dp[i, w] != dp[i - 1, w] {
        selected := selected + [i - 1];
        w := w - weights[i - 1];
      }
      i := i - 1;
    }
  }

  /** knapsack(values, weights, capacity): truncates the capacity, fills the
      table, walks it back and returns dp[n][capacity] with the selected
      indices, which form an optimal feasible selection. */
  method Knapsack(values: seq<real>, weights: seq<nat>, capacity: real)
    returns (maxValue: real, selected: seq<nat>)
    requires |values| <= |weights|
    requires PositiveWeights(weights)
    requires capacity > -1.0
    ensures Truncate(capacity) >= 0
    ensures maxValue == Best(values, weights, |values|, Truncate(capacity))
    ensures selected == Reconstruct(values, weights, |values|, Truncate(capacity))
    ensures StrictlyDecreasing(selected) && InRange(selected, |values|)
    ensures Weight(weights, selected) <= Truncate(capacity)
    ensures Value(values, selected) == maxValue
    ensures forall idx :: IsIndexSubset(idx, |values|) && Weight(weights, idx) <= Truncate(capacity) ==>
              Value(values, idx) <= maxValue
  {
    var n := |values|;
    TruncateBounds(capacity, 0);
    var cap: nat := Truncate(capacity);

    var dp := FillTable(values, weights, cap);
    selected := WalkBack(values, weights, dp, cap);
    maxValue := dp[n, cap];

    ReconstructSound(values, weights, n, cap);
    BestOptimal(values, weights, n, cap);
  }

  /** find_best_combination(actions, max_budget): runs the knapsack on the
      shares' costs and profits and maps the selected indices back to shares,
      one share per index, in the same order. */
  method FindBestCombination(actions: seq<Share>, maxBudget: real)
    returns (bestCombination: seq<Share>, maxProfit: real)
    requires PositiveCosts(actions)
    requires maxBudget > -1.0
    ensures var selected := Reconstruct(Profits(actions), Costs(actions), |actions|, Truncate(maxBudget));
      && maxProfit == Best(Profits(actions), Costs(actions), |actions|, Truncate(maxBudget))
      && StrictlyDecreasing(selected) && InRange(selected, |actions|)
      && bestCombination == Pick(actions, selected)
    ensures TotalCost(bestCombination) <= Truncate(maxBudget)
    ensures TotalProfit(bestCombination) == maxProfit
    ensures forall idx :: IsIndexSubset(idx, |actions|) && TotalCost(Pick(actions, idx)) <= Truncate(maxBudget) ==>
              TotalProfit(Pick(actions, idx)) <= maxProfit
  {
    var costs := Costs(actions);
    var profits := Profits(actions);

    var selectedIndices;
    maxProfit, selectedIndices := Knapsack(profits, costs, maxBudget);

    bestCombination := Pick(actions, selectedIndices);

    PickCostsProfits(actions, selectedIndices);
    forall idx | IsIndexSubset(idx, |actions|) && TotalCost(Pick(actions, idx)) <= Truncate(maxBudget)
      ensures TotalProfit(Pick(actions, idx)) <= maxProfit
    {
      PickCostsProfits(actions, idx);
    }
  }
}
