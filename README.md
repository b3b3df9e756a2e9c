# AlgoInvestTrade knapsack core in Dafny

AlgoInvestTrade chooses which shares to buy with a fixed budget so that the
total two-year profit is as large as possible: a 0/1 knapsack where a share's
weight is its cost and its value is `cost * rate`. The repository has two
engines, and this project models both:

- **optimized.py** (module `Optimized`, `optimized.dfy`): `knapsack` truncates
  the budget with `int()` and allocates a `(n+1) x (capacity+1)` table of zeros.
  It fills the table row by row with the recurrence `dp[i][w] = max(dp[i-1][w],
  dp[i-1][w - weight] + value)`, then walks the table back from
  `dp[n][capacity]` to recover the chosen indices. `find_best_combination`
  builds the cost and profit lists, runs `knapsack`, and maps the indices back
  to shares. The table is an `array2<real>` filled by nested `for` loops
  (`FillTable`), and the walk-back is a `while` loop (`WalkBack`). Both are
  proved against the recurrence `Best` and the walk-back function
  `Reconstruct`. Lemmas show that `Best` is the true optimum and that
  `Reconstruct` reaches it.
- **bruteforce.py** (module `BruteForce`, `bruteforce.dfy`):
  `calculate_profit` sums a combination's costs and profits.
  `find_best_combination` visits every non-empty combination, by size and then
  in the order of `itertools.combinations`. It keeps a combination when its
  cost is within the budget and its profit is strictly larger than the best so
  far.
  - `itertools.combinations` over positions is the function `CombinationsFrom`,
    which is proved complete and lexicographically sorted.
  - The visiting order is `Enumeration`.
  - The running best is the left fold `Search`.
  - The two nested loops are methods proved to compute that fold.
- **shares.dfy** (module `Shares`): a share, the cost and profit lists, index
  subsets (strictly increasing position lists) and the sums.
- **agreement.dfy** (module `Agreement`): with whole-unit positive costs, the
  exhaustive profit equals the table's optimum.
- **scenarios.dfy** (module `Scenarios`): one catalog worked through both
  engines. A costs 100 at 10%, B 200 at 15% and C 300 at 20%. With 500 to
  spend, both engines pick B and C for a profit of 90.

Python's `int()` truncates toward zero and is modelled by `Truncate`. Python's
`max` returns its first argument on a tie and is modelled by `Max`. Costs are
non-negative whole currency units (`nat`), and the engines' contracts assume a
catalog of strictly positive costs. Rates, profits and the budget are exact
reals.

The walk-back at optimized.py:44-47 keeps no running total of the cost it
has selected, and checks none against the capacity. Such a guard would be
redundant: `ReconstructSound` proves that the selection's total weight is at
most `w`, weights are non-negative, and the selection's value is exactly
`dp[i][w]`.

## Model

| member | source | states |
|---|---|---|
| Shares.Costs | optimized.py:58 | the cost list has one entry per share: the share's cost, in catalog order |
| Shares.Profits | optimized.py:59 | the profit list has one entry per share: `cost * rate`, in catalog order |
| Shares.PickCostsProfits | optimized.py:58-63 | picking costs (profits) at the selected indices gives the costs (profits) of the picked shares |
| Optimized.Max | optimized.py:38 | Python's `max` of two values: an upper bound of both that equals one of them, and the first on a tie |
| Optimized.Truncate | optimized.py:31 | Python's `int()` on a float: the integer part, rounding toward zero (within 1 of the argument, on the side of 0) |
| Optimized.TruncateBounds | optimized.py:31 | `int(capacity)` is ≥ 0 for any budget above -1; a whole cost fits the budget iff it fits the truncated capacity (except a zero cost with a budget in (-1, 0)) |
| Optimized.Reconstruct | optimized.py:42-47 | the indices the walk-back takes are strictly decreasing and lie below the number of items considered |
| Optimized.BestEmpty | optimized.py:33-36 | row 0 and, with positive weights, column 0 of the table are 0, and the walk-back from them selects nothing |
| Optimized.BestNonNegative | optimized.py:33-40 | no cell of the table is negative |
| Optimized.BestMonotone | optimized.py:37-40 | `dp[i][w] <= dp[i'][w']` whenever `i <= i'` and `w <= w'`: more items or more room never lowers the optimum |
| Optimized.BestDominates | optimized.py:35-40 | `dp[i][w]` is at least the value of every index subset of items `0..i-1` whose weight is at most `w` |
| Optimized.BestOptimal | optimized.py:35-40 | the dominance of `dp[i][w]`, over all such subsets at once |
| Optimized.ReconstructSound | optimized.py:42-49 | the walked-back selection weighs at most `w` and its value is exactly `dp[i][w]` |
| Optimized.BestAttained | optimized.py:42-49 | the selection in catalog order is an index subset within `w` whose value is `dp[i][w]`, so `dp[i][w]` is the 0/1 optimum |
| Optimized.NothingFits | optimized.py:37-47 | when no item fits in `w`, `dp[i][w]` is 0 and the walk-back selects nothing |
| Optimized.FillTable | optimized.py:33-40 | the table has `n+1` rows and `capacity+1` columns, and every cell equals the recurrence `Best` |
| Optimized.WalkBack | optimized.py:42-47 | the backward loop keeps `0 <= w <= capacity` and returns exactly `Reconstruct(n, capacity)` |
| Optimized.Knapsack | optimized.py:23-49 | returns `dp[n][int(capacity)]` and indices that are strictly decreasing, in range, within capacity, worth exactly the returned value, and at least as valuable as any feasible subset |
| Optimized.FindBestCombination | optimized.py:52-64 | returns one share per selected index, in the same order; the combination's total cost is within `int(max_budget)`, its total profit equals the returned profit, and no affordable subset earns more |
| BruteForce.CalculateProfit | bruteforce.py:21-28 | returns the combination's total cost and total profit (`cost * rate` summed), both 0 for the empty combination |
| BruteForce.CombinationsFrom | bruteforce.py:40 | every produced combination has size `r` and is a strictly increasing list of positions below `n` |
| BruteForce.Combinations | bruteforce.py:40 | `combinations(shares, r)` by position: each produced combination has size `r` and is a strictly increasing list of positions below `n` |
| BruteForce.CombinationsComplete | bruteforce.py:40 | every strictly increasing position list of size `r` is produced |
| BruteForce.CombinationsSorted | bruteforce.py:40 | combinations come out in strictly increasing lexicographic order, hence without repeats |
| BruteForce.Enumeration | bruteforce.py:39-40 | every visited combination is a non-empty index subset of size at most `r` |
| BruteForce.EnumerationComplete | bruteforce.py:39-40 | every non-empty index subset of size at most `r` is visited |
| BruteForce.EnumerationCovers | bruteforce.py:39-40 | the full enumeration visits every non-empty subset of the shares |
| BruteForce.Search | bruteforce.py:36-44 | a kept combination was visited, is within the budget, and has strictly positive profit equal to the kept profit; with nothing kept, the profit is 0 |
| BruteForce.SearchOptimal | bruteforce.py:39-44 | the kept profit is at least the profit of every affordable visited combination |
| BruteForce.SearchNone | bruteforce.py:36-44 | nothing is kept iff no affordable visited combination has a strictly positive profit |
| BruteForce.SearchFirst | bruteforce.py:42-44 | on a tie the earliest visited combination that reaches the kept profit is the one kept |
| BruteForce.Report | bruteforce.py:46 | the returned pair: `(None, 0)`, or a combination within the budget whose total profit is the returned profit, which is strictly positive |
| BruteForce.ReportChoice | bruteforce.py:36-46 | the result is `(None, 0)`, or a subsequence of the shares within the budget whose total profit is the returned, strictly positive, profit |
| BruteForce.ReportOptimal | bruteforce.py:36-46 | no affordable non-empty subset beats the returned profit, and `None` is returned iff no affordable non-empty subset is profitable |
| BruteForce.NothingAffordable | bruteforce.py:36-46 | when every share alone costs more than the budget the result is `(None, 0)` |
| BruteForce.ReportExtend | bruteforce.py:41-44 | visiting one more combination replaces the result exactly when it is within the budget and strictly more profitable |
| BruteForce.VisitSize | bruteforce.py:40-44 | the inner loop turns the result for the combinations visited so far into the result with one more batch of combinations visited |
| BruteForce.FindBestCombination | bruteforce.py:30-46 | the result is the search over the full enumeration: `(None, 0)` or an affordable subsequence with positive profit equal to the returned profit, no affordable subset earns more, and `None` is returned iff nothing affordable is profitable |
| Agreement.SelectionTotals | bruteforce.py:26-27 | the knapsack weight and value of a position list are the total cost and profit of the picked shares |
| Agreement.SearchAtMostBest | bruteforce.py:39-44 | the exhaustive profit never exceeds the table's optimum for the truncated budget |
| Agreement.BestAtMostSearch | optimized.py:42-49 | the table's optimum is reached by an affordable subset the exhaustive search visits, so it never exceeds the exhaustive profit |
| Agreement.EnginesAgree | optimized.py:52-64 | with whole-unit positive costs, both engines report the same maximum profit |
| Scenarios.CatalogTable | optimized.py:23-49 | for A, B, C with 500 to spend the optimum is 90 and the walk-back takes C, then B |
| Scenarios.CatalogTotals | bruteforce.py:21-28 | the cost and profit of each of the seven subsets of A, B, C |
| Scenarios.SubsetsOfThree | bruteforce.py:39-40 | the non-empty subsets of three positions are exactly the seven visited lists |
| Scenarios.OnlyPairEarnsNinety | bruteforce.py:42 | B+C is the only affordable subset earning 90 |
| Scenarios.CatalogSearchProfit | bruteforce.py:39-44 | the exhaustive profit for the catalog is 90 |
| Scenarios.CatalogSearchChoice | bruteforce.py:42-44 | a result earning 90 keeps B and C |
| Scenarios.CatalogSearch | bruteforce.py:30-46 | the exhaustive search ends holding B and C with profit 90 |

## Left out

- `read_csv` (optimized.py:5-20, bruteforce.py:5-19): file I/O, CSV parsing of the cost and percentage strings, and the ratio sort. The model takes the catalog as given, in whatever order it arrives.
- `main` (optimized.py:67-88, bruteforce.py:48-67): printing, wall-clock timing and the yield percentage. These are reporting code only.
- Floating point: profits and the budget are exact reals, and costs are non-negative whole units. IEEE rounding in the sums is not modelled.
- Negative costs: the `cost: nat` field of a share rules out negative costs, which the source's read_csv (bruteforce.py:5-19) would accept. The catalog is assumed to hold positive costs.
- Optimized.Knapsack: weights are whole numbers, so `int(weights[i-1])` is the identity. The source compares the raw float weight but subtracts its truncation, and that mismatch for fractional weights is not modelled.
- Optimized.Knapsack: requires every weight to be positive. With a zero weight the source never fills column 0, so its table is not the optimum. For example, values [5, 3], weights [0, 1] and capacity 1 give 5 where 8 is reachable. The program never reaches this case, because read_csv divides by each cost.
- Optimized.Knapsack: requires a capacity above -1. Otherwise the source fails with an index error, and that failure is not modelled.
- Optimized.Knapsack: requires at least as many weights as values. With fewer weights the source fails with an index error once `int(capacity) >= 1`. With `int(capacity) == 0` it never reads `weights` and returns `(0, [])`, which the model does not cover. The only caller passes lists of equal length (optimized.py:58-61).
- Optimized.FindBestCombination: requires positive costs and a budget above -1, for the same reasons.
- BruteForce.FindBestCombination: costs are whole units. Fractional costs compared with the budget as floats are not modelled.
- `itertools.combinations` (bruteforce.py:40) is modelled by its documented output over positions, not by its implementation. Tuples of share records become position lists mapped through `Pick`.
- Agreement.EnginesAgree: stated for whole-unit costs only. With fractional costs the two engines can disagree, for two reasons:
  - only the table engine truncates the budget;
  - `knapsack` tests the raw weight (optimized.py:37) but subtracts `int(weight)` (optimized.py:38, 47). For example, weights [1.7, 1.7], values [1, 1] and capacity 3 give `dp[2][3] = 2`, and the walk-back selects [1, 0], which weighs 3.4. The exhaustive engine reports 1 for the same input.
