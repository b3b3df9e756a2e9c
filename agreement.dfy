/**
 * The two engines agree: on a catalog with whole-unit positive costs, the
 * profit the exhaustive search reports equals the knapsack table's optimum
 * for the same shares and budget.
 */
module Agreement {
  import opened Shares
  import O = Optimized
  import B = BruteForce

  /** A subset's knapsack weight and value, over the cost and profit lists,
      are the subset's total cost and profit as the brute force computes them. */
  lemma SelectionTotals(shares: seq<Share>, c: seq<nat>)
    requires InRange(c, |shares|)
    ensures O.Weight(Costs(shares), c) == TotalCost(Pick(shares, c))
    ensures O.Value(Profits(shares), c) == B.ProfitOf(shares, c)
  {
    PickCostsProfits(shares, c);
  }

  /** Whatever the exhaustive search reports is no more than the optimum. */
  lemma SearchAtMostBest(shares: seq<Share>, budget: real)
    requires budget > -1.0
    ensures O.Truncate(budget) >= 0
    ensures B.Search(shares, budget, B.Enumeration(|shares|, |shares|)).profit <=
            O.Best(Profits(shares), Costs(shares), |shares|, O.Truncate(budget))
  {
    var n := |shares|;
    O.TruncateBounds(budget, 0);
    var cap: nat := O.Truncate(budget);
    var o := B.Search(shares, budget, B.Enumeration(n, n));
    if o.choice.Some? {
      var c := o.choice.value;
      SelectionTotals(shares, c);
      O.TruncateBounds(budget, TotalCost(Pick(shares, c)));
      O.BestDominates(Profits(shares), Costs(shares), n, cap, c);
    } else {
      O.BestNonNegative(Profits(shares), Costs(shares), n, cap);
    }
  }

  /** The optimum is reached by a subset the exhaustive search visits, so the
      search reports at least that much. */
  lemma BestAtMostSearch(shares: seq<Share>, budget: real)
    requires PositiveCosts(shares)
    requires budget > -1.0
    ensures O.Truncate(budget) >= 0
    ensures O.Best(Profits(shares), Costs(shares), |shares|, O.Truncate(budget)) <=
            B.Report(shares, budget, B.Enumeration(|shares|, |shares|)).1
  {
    var n := |shares|;
    O.TruncateBounds(budget, 0);
    var cap: nat := O.Truncate(budget);
    O.BestAttained(Profits(shares), Costs(shares), n, cap);
    var chosen := Reverse(O.Reconstruct(Profits(shares), Costs(shares), n, cap));
    B.ReportOptimal(shares, budget);
    if chosen == [] {
      assert O.Value(Profits(shares), chosen) == 0.0;
    } else {
      SelectionTotals(shares, chosen);
      SumPositive(Costs(Pick(shares, chosen)));
      O.TruncateBounds(budget, TotalCost(Pick(shares, chosen)));
      assert B.Affordable(shares, chosen, budget);
    }
  }

  /** With whole-unit positive costs, both engines report the same maximum
      profit for the same catalog and budget. */
  lemma EnginesAgree(shares: seq<Share>, budget: real)
    requires PositiveCosts(shares)
    requires budget > -1.0
    ensures O.Truncate(budget) >= 0
    ensures B.Report(shares, budget, B.Enumeration(|shares|, |shares|)).1 ==
            O.Best(Profits(shares), Costs(shares), |shares|, O.Truncate(budget))
  {
    SearchAtMostBest(shares, budget);
    BestAtMostSearch(shares, budget);
  }
}
