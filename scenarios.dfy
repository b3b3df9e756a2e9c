/**
 * A small catalog worked through both engines: A costs 100 at 10%, B 200 at
 * 15%, C 300 at 20%, and there are 500 to spend.
 */
module Scenarios {
  import opened Shares
  import O = Optimized
  import B = BruteForce
  import Agreement

  function Catalog(): seq<Share> {
    [Share("A", 100, 0.10), Share("B", 200, 0.15), Share("C", 300, 0.20)]
  }

  /** The knapsack optimum is 90 and the walk-back takes C, then B. */
  lemma CatalogTable()
    ensures O.Best(Profits(Catalog()), Costs(Catalog()), 3, 500) == 90.0
    ensures O.Reconstruct(Profits(Catalog()), Costs(Catalog()), 3, 500) == [2, 1]
  {
    var values, weights := Profits(Catalog()), Costs(Catalog());
    assert values == [10.0, 30.0, 60.0];
    assert weights == [100, 200, 300];
    assert O.Best(values, weights, 1, 0) == 0.0;
    assert O.Best(values, weights, 1, 200) == 10.0;
    assert O.Best(values, weights, 1, 300) == 10.0;
    assert O.Best(values, weights, 1, 500) == 10.0;
    assert O.Best(values, weights, 2, 200) == 30.0;
    assert O.Best(values, weights, 2, 500) == 40.0;
    assert O.Reconstruct(values, weights, 1, 0) == [];
    assert O.Reconstruct(values, weights, 2, 200) == [1];
  }

  /** The non-empty subsets of three positions are the seven index lists the
      search visits. */
  lemma SubsetsOfThree(c: seq<nat>)
    requires IsIndexSubset(c, 3) && c != []
    ensures c in [[0], [1], [2], [0, 1], [0, 2], [1, 2], [0, 1, 2]]
  {
    IndexSubsetLength(c, 3);
    if |c| == 1 {
      assert c == [c[0]];
    } else if |c| == 2 {
      assert c == [c[0], c[1]];
    } else {
      assert c == [c[0], c[1], c[2]];
    }
  }

  /** Cost and profit of each subset of the catalog, as calculate_profit
      finds them. */
  lemma CatalogTotals()
    ensures B.CalculateProfit(Pick(Catalog(), [0])) == (100, 10.0)
    ensures B.CalculateProfit(Pick(Catalog(), [1])) == (200, 30.0)
    ensures B.CalculateProfit(Pick(Catalog(), [2])) == (300, 60.0)
    ensures B.CalculateProfit(Pick(Catalog(), [0, 1])) == (300, 40.0)
    ensures B.CalculateProfit(Pick(Catalog(), [0, 2])) == (400, 70.0)
    ensures B.CalculateProfit(Pick(Catalog(), [1, 2])) == (500, 90.0)
    ensures B.CalculateProfit(Pick(Catalog(), [0, 1, 2])) == (600, 100.0)
  {
    var a, b, c := Catalog()[0], Catalog()[1], Catalog()[2];
    assert Pick(Catalog(), [0]) == [a];
    assert Pick(Catalog(), [1]) == [b];
    assert Pick(Catalog(), [2]) == [c];
    assert Pick(Catalog(), [0, 1]) == [a, b];
    assert Pick(Catalog(), [0, 2]) == [a, c];
    assert Pick(Catalog(), [1, 2]) == [b, c];
    assert Pick(Catalog(), [0, 1, 2]) == [a, b, c];
    assert Costs([a, b, c]) == [100, 200, 300] && Profits([a, b, c]) == [10.0, 30.0, 60.0];
    assert Costs([a, b]) == [100, 200] && Profits([a, b]) == [10.0, 30.0];
    assert Costs([a, c]) == [100, 300] && Profits([a, c]) == [10.0, 60.0];
    assert Costs([b, c]) == [200, 300] && Profits([b, c]) == [30.0, 60.0];
  }

  /** Among the visited subsets, B+C is the only affordable one that earns 90. */
  lemma OnlyPairEarnsNinety(c: seq<nat>)
    requires c in [[0], [1], [2], [0, 1], [0, 2], [1, 2], [0, 1, 2]]
    requires B.Affordable(Catalog(), c, 500.0) && B.ProfitOf(Catalog(), c) == 90.0
    ensures c == [1, 2]
  {
    CatalogTotals();
    var totals := B.CalculateProfit(Pick(Catalog(), c));
    assert totals.0 as real <= 500.0 && totals.1 == 90.0;
  }

  /** The exhaustive search's profit is 90, because the engines agree. */
  lemma CatalogSearchProfit(shares: seq<Share>)
    requires shares == Catalog()
    ensures B.Search(shares, 500.0, B.Enumeration(3, 3)).profit == 90.0
  {
    assert O.Truncate(500.0) == 500 && |shares| == 3;
    Agreement.EnginesAgree(shares, 500.0);
    CatalogTable();
  }

  /** If the search earns 90 it keeps B+C, the only affordable subset that
      does. */
  lemma CatalogSearchChoice(shares: seq<Share>)
    requires shares == Catalog()
    ensures var o := B.Search(shares, 500.0, B.Enumeration(3, 3));
      o.profit == 90.0 ==> o.choice == Some([1, 2])
  {
    var o := B.Search(shares, 500.0, B.Enumeration(3, 3));
    if o.profit == 90.0 {
      SubsetsOfThree(o.choice.value);
      OnlyPairEarnsNinety(o.choice.value);
    }
  }

  /** The exhaustive search ends holding positions 1 and 2 (B and C), for 90. */
  lemma CatalogSearch()
    ensures B.Search(Catalog(), 500.0, B.Enumeration(3, 3)) == B.Outcome(Some([1, 2]), 90.0)
  {
    CatalogSearchProfit(Catalog());
    CatalogSearchChoice(Catalog());
  }
}
