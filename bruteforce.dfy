/**
 * The exhaustive engine (bruteforce.py): every non-empty combination of the
 * shares is visited, by increasing size and in lexicographic order within a
 * size, and the first one with a strictly larger profit within the budget
 * replaces the running best.
 */
module BruteForce {
  import opened Shares

  /** calculate_profit(combination): the total cost and the total profit of a
      combination, each summed left to right. */
  function CalculateProfit(combination: seq<Share>): (totals: (nat, real))
    ensures totals.0 == TotalCost(combination)
    ensures totals.1 == TotalProfit(combination)
  {
    if combination == [] then (0, 0.0)
    else
      var init := combination[..|combination| - 1];
      var last := combination[|combination| - 1];
      var (cost, profit) := CalculateProfit(init);
      assert combination == init + [last];
      assert Costs(combination) == Costs(init) + [last.cost];
      assert Profits(combination) == Profits(init) + [Profit(last)];
      SumAppend(Costs(init), [last.cost]);
      RealSumAppend(Profits(init), [Profit(last)]);
      (cost + last.cost, profit + Profit(last))
  }

  // ---------------------------------------------------------------------
  // itertools.combinations over positions
  // ---------------------------------------------------------------------

  /** Every entry of c is at least lo. */
  predicate AllAtLeast(c: seq<nat>, lo: nat) {
    forall j :: 0 <= j < |c| ==> lo <= c[j]
  }

  /** Each list of cs with x put in front. */
  function Prepend(x: nat, cs: seq<seq<nat>>): (ps: seq<seq<nat>>)
    ensures |ps| == |cs|
    ensures forall k :: 0 <= k < |cs| ==> ps[k] == [x] + cs[k]
  {
    seq(|cs|, k requires 0 <= k < |cs| => [x] + cs[k])
  }

  lemma PrependMember(x: nat, cs: seq<seq<nat>>, c: seq<nat>)
    requires c in cs
    ensures [x] + c in Prepend(x, cs)
  {
    var k :| 0 <= k < |cs| && cs[k] == c;
    assert Prepend(x, cs)[k] == [x] + c;
  }

  /** The size-r subsets of {lo, ..., n-1}, each as an ascending index list,
      in lexicographic order: the output of combinations(range(lo, n), r). */
  function CombinationsFrom(lo: nat, n: nat, r: nat): (cs: seq<seq<nat>>)
    ensures forall k :: 0 <= k < |cs| ==> |cs[k]| == r && IsIndexSubset(cs[k], n) && AllAtLeast(cs[k], lo)
    decreases n - lo
  {
    if r == 0 then [[]]
    else if lo >= n then []
    else
      Prepend(lo, CombinationsFrom(lo + 1, n, r - 1)) + CombinationsFrom(lo + 1, n, r)
  }

  /** combinations(shares, r), by position. */
  function Combinations(n: nat, r: nat): (cs: seq<seq<nat>>)
    ensures forall k :: 0 <= k < |cs| ==> |cs[k]| == r && IsIndexSubset(cs[k], n)
  {
    CombinationsFrom(0, n, r)
  }

  /** Lexicographic order on index lists: the first differing entry decides. */
  predicate LexLess(a: seq<nat>, b: seq<nat>) {
    a != [] && b != [] && (a[0] < b[0] || (a[0] == b[0] && LexLess(a[1..], b[1..])))
  }

  /** Strictly increasing in lexicographic order, hence free of repeats. */
  predicate LexSorted(cs: seq<seq<nat>>) {
    forall j, k :: 0 <= j < k < |cs| ==> LexLess(cs[j], cs[k]) && cs[j] != cs[k]
  }

  /** Dropping the first entry of an ascending list of entries at least lo
      leaves an ascending list of entries above it. */
  lemma TailAbove(c: seq<nat>, n: nat, lo: nat)
    requires c != [] && IsIndexSubset(c, n) && AllAtLeast(c, lo)
    ensures IsIndexSubset(c[1..], n) && AllAtLeast(c[1..], c[0] + 1)
  {
  }

  /** Every ascending index list of size r with entries in [lo, n) is produced. */
  lemma {:induction false} CombinationsComplete(lo: nat, n: nat, c: seq<nat>)
    requires IsIndexSubset(c, n) && AllAtLeast(c, lo)
    ensures c in CombinationsFrom(lo, n, |c|)
    decreases n - lo
  {
    if c != [] {
      var withLo := CombinationsFrom(lo + 1, n, |c| - 1);
      var rest := CombinationsFrom(lo + 1, n, |c|);
      assert lo <= c[0] < n;
      assert CombinationsFrom(lo, n, |c|) == Prepend(lo, withLo) + rest;
      if c[0] == lo {
        TailAbove(c, n, lo);
        CombinationsComplete(lo + 1, n, c[1..]);
        PrependMember(lo, withLo, c[1..]);
        assert [lo] + c[1..] == c;
      } else {
        CombinationsComplete(lo + 1, n, c);
      }
    }
  }

  /** The combinations come out in strictly increasing lexicographic order,
      so none is produced twice. */
  lemma {:induction false} CombinationsSorted(lo: nat, n: nat, r: nat)
    ensures LexSorted(CombinationsFrom(lo, n, r))
    decreases n - lo
  {
    var cs := CombinationsFrom(lo, n, r);
    if r > 0 && lo < n {
      var withLo := CombinationsFrom(lo + 1, n, r - 1);
      var rest := CombinationsFrom(lo + 1, n, r);
      CombinationsSorted(lo + 1, n, r - 1);
      CombinationsSorted(lo + 1, n, r);
      assert cs == Prepend(lo, withLo) + rest;
      forall j, k | 0 <= j < k < |cs|
        ensures LexLess(cs[j], cs[k]) && cs[j] != cs[k]
      {
        if k < |withLo| {
          assert cs[j][1..] == withLo[j] && cs[k][1..] == withLo[k];
          assert LexLess(withLo[j], withLo[k]) && withLo[j] != withLo[k];
        } else if j >= |withLo| {
          assert cs[j] == rest[j - |withLo|] && cs[k] == rest[k - |withLo|];
        } else {
          assert cs[k] == rest[k - |withLo|];
          assert cs[j][0] == lo < cs[k][0];
        }
      }
    }
  }

  /** Every combination the search visits, in visiting order: all of size 1,
      then all of size 2, ..., up to size r. */
  function Enumeration(n: nat, r: nat): (es: seq<seq<nat>>)
    ensures forall k :: 0 <= k < |es| ==> IsIndexSubset(es[k], n) && 0 < |es[k]| <= r
  {
    if r == 0 then [] else Enumeration(n, r - 1) + Combinations(n, r)
  }

  /** Every non-empty subset of at most r of the n positions is visited. */
  lemma {:induction false} EnumerationComplete(n: nat, r: nat, c: seq<nat>)
    requires IsIndexSubset(c, n) && 0 < |c| <= r
    ensures c in Enumeration(n, r)
  {
    if |c| == r {
      CombinationsComplete(0, n, c);
    } else {
      EnumerationComplete(n, r - 1, c);
    }
  }

  // ---------------------------------------------------------------------
  // The search, as a fold over the visiting order
  // ---------------------------------------------------------------------

  /** A combination (by position) fits the budget. */
  predicate Affordable(shares: seq<Share>, c: seq<nat>, budget: real)
    requires InRange(c, |shares|)
  {
    TotalCost(Pick(shares, c)) as real <= budget
  }

  /** The total profit of a combination given by position. */
  function ProfitOf(shares: seq<Share>, c: seq<nat>): real
    requires InRange(c, |shares|)
  {
    TotalProfit(Pick(shares, c))
  }

  predicate AllInRange(es: seq<seq<nat>>, n: nat) {
    forall k :: 0 <= k < |es| ==> InRange(es[k], n)
  }

  /** The running state of the search: the best combination so far (None
      before any is kept) and its profit. */
  datatype Outcome = Outcome(choice: Option<seq<nat>>, profit: real)

  /** The state after visiting the combinations es in order, starting from
      (None, 0): a combination replaces the running best exactly when its cost
      is within the budget and its profit is strictly larger. */
  function Search(shares: seq<Share>, budget: real, es: seq<seq<nat>>): (o: Outcome)
    requires AllInRange(es, |shares|)
    ensures o.choice.None? ==> o.profit == 0.0
    ensures o.choice.Some? ==>
      && o.choice.value in es
      && Affordable(shares, o.choice.value, budget)
      && ProfitOf(shares, o.choice.value) == o.profit
      && o.profit > 0.0
  {
    if es == [] then Outcome(None, 0.0)
    else
      var best := Search(shares, budget, es[..|es| - 1]);
      var c := es[|es| - 1];
      var (totalCost, totalProfit) := CalculateProfit(Pick(shares, c));
      if totalCost as real <= budget && totalProfit > best.profit then Outcome(Some(c), totalProfit)
      else best
  }

  /** The kept profit is at least that of every affordable visited combination. */
  lemma {:induction false} SearchOptimal(shares: seq<Share>, budget: real, es: seq<seq<nat>>)
    requires AllInRange(es, |shares|)
    ensures forall k :: 0 <= k < |es| && Affordable(shares, es[k], budget) ==>
              ProfitOf(shares, es[k]) <= Search(shares, budget, es).profit
  {
    if es != [] {
      var init := es[..|es| - 1];
      SearchOptimal(shares, budget, init);
      assert forall k :: 0 <= k < |init| ==> init[k] == es[k];
    }
  }

  /** Nothing is kept exactly when no affordable visited combination has a
      strictly positive profit. */
  lemma SearchNone(shares: seq<Share>, budget: real, es: seq<seq<nat>>)
    requires AllInRange(es, |shares|)
    ensures Search(shares, budget, es).choice.None? <==>
      forall k :: 0 <= k < |es| && Affordable(shares, es[k], budget) ==> ProfitOf(shares, es[k]) <= 0.0
  {
    SearchOptimal(shares, budget, es);
  }

  /** Ties go to the first: the kept combination is the earliest visited one
      that is affordable and reaches the kept profit. */
  lemma {:induction false} SearchFirst(shares: seq<Share>, budget: real, es: seq<seq<nat>>, j: nat)
    requires AllInRange(es, |shares|)
    requires j < |es| && Affordable(shares, es[j], budget)
    requires ProfitOf(shares, es[j]) == Search(shares, budget, es).profit > 0.0
    requires forall i :: 0 <= i < j && Affordable(shares, es[i], budget) ==>
               ProfitOf(shares, es[i]) != Search(shares, budget, es).profit
    ensures Search(shares, budget, es).choice == Some(es[j])
  {
    var o := Search(shares, budget, es);
    var init := es[..|es| - 1];
    var prev := Search(shares, budget, init);
    assert forall k :: 0 <= k < |init| ==> init[k] == es[k];
    if j < |init| {
      SearchOptimal(shares, budget, init);
      assert o == prev;
      SearchFirst(shares, budget, init, j);
    }
  }

  /** The combination of shares a search outcome stands for. */
  function Chosen(shares: seq<Share>, choice: Option<seq<nat>>): Option<seq<Share>>
    requires choice.Some? ==> InRange(choice.value, |shares|)
  {
    if choice.None? then None else Some(Pick(shares, choice.value))
  }

  /** What find_best_combination returns for a search outcome: the kept
      combination as shares (or None, with profit 0) and the kept profit. */
  function Report(shares: seq<Share>, budget: real, es: seq<seq<nat>>): (report: (Option<seq<Share>>, real))
    requires AllInRange(es, |shares|)
    ensures report.0.None? ==> report.1 == 0.0
    ensures report.0.Some? ==>
      TotalCost(report.0.value) as real <= budget && TotalProfit(report.0.value) == report.1 > 0.0
  {
    var o := Search(shares, budget, es);
    (Chosen(shares, o.choice), o.profit)
  }

  /** Every non-empty subset of the n positions is visited by the full
      enumeration. */
  lemma EnumerationCovers(n: nat)
    ensures forall c :: IsIndexSubset(c, n) && c != [] ==> c in Enumeration(n, n)
  {
    forall c | IsIndexSubset(c, n) && c != []
      ensures c in Enumeration(n, n)
    {
      IndexSubsetLength(c, n);
      EnumerationComplete(n, n, c);
    }
  }

  /** Over the full visiting order, nothing is reported only with profit 0,
      and a reported combination is a non-empty subset of the shares within
      the budget whose total profit is the reported, strictly positive, profit. */
  lemma ReportChoice(shares: seq<Share>, budget: real)
    ensures var report := Report(shares, budget, Enumeration(|shares|, |shares|));
      var best, profit := report.0, report.1;
      && (best.None? ==> profit == 0.0)
      && (best.Some? ==>
            && (exists c :: IsIndexSubset(c, |shares|) && c != [] && best.value == Pick(shares, c))
            && TotalCost(best.value) as real <= budget
            && TotalProfit(best.value) == profit > 0.0)
  {
    var n := |shares|;
    var es := Enumeration(n, n);
    var o := Search(shares, budget, es);
    if o.choice.Some? {
      var k :| 0 <= k < |es| && es[k] == o.choice.value;
      assert IsIndexSubset(es[k], n) && es[k] != [];
    }
  }

  /** Over the full visiting order, no affordable non-empty subset beats the
      reported profit, and nothing is reported exactly when no affordable
      non-empty subset has a strictly positive profit. */
  lemma ReportOptimal(shares: seq<Share>, budget: real)
    ensures var report := Report(shares, budget, Enumeration(|shares|, |shares|));
      && (forall c :: IsIndexSubset(c, |shares|) && c != [] && Affordable(shares, c, budget) ==>
            ProfitOf(shares, c) <= report.1)
      && (report.0.None? <==>
            forall c :: IsIndexSubset(c, |shares|) && c != [] && Affordable(shares, c, budget) ==>
              ProfitOf(shares, c) <= 0.0)
  {
    var es := Enumeration(|shares|, |shares|);
    SearchOptimal(shares, budget, es);
    SearchNone(shares, budget, es);
    EnumerationCovers(|shares|);
  }

  /** A non-empty combination costs at least as much as its first share. */
  lemma FirstCostBound(combination: seq<Share>)
    requires combination != []
    ensures combination[0].cost <= TotalCost(combination)
  {
    assert Costs(combination)[0] == combination[0].cost;
  }

  /** When every share alone costs more than the budget, nothing is reported
      and the profit stays 0. */
  lemma NothingAffordable(shares: seq<Share>, budget: real)
    requires forall k :: 0 <= k < |shares| ==> shares[k].cost as real > budget
    ensures Report(shares, budget, Enumeration(|shares|, |shares|)) == (None, 0.0)
  {
    forall c | IsIndexSubset(c, |shares|) && c != []
      ensures !Affordable(shares, c, budget)
    {
      FirstCostBound(Pick(shares, c));
    }
    ReportOptimal(shares, budget);
    ReportChoice(shares, budget);
  }

  /** One step of the inner loop, on the report: visiting combos[k] after
      visited + combos[..k] replaces the report exactly when calculate_profit
      finds it within the budget and strictly more profitable. */
  lemma ReportExtend(shares: seq<Share>, budget: real, visited: seq<seq<nat>>, combos: seq<seq<nat>>, k: nat)
    requires k < |combos|
    requires AllInRange(visited + combos[..k], |shares|) && InRange(combos[k], |shares|)
    ensures AllInRange(visited + combos[..k + 1], |shares|)
    ensures var prev := Report(shares, budget, visited + combos[..k]);
      var totals := CalculateProfit(Pick(shares, combos[k]));
      Report(shares, budget, visited + combos[..k + 1]) ==
        if totals.0 as real <= budget && totals.1 > prev.1
        then (Some(Pick(shares, combos[k])), totals.1) else prev
  {
    var es := visited + combos[..k];
    assert visited + combos[..k + 1] == es + [combos[k]];
    assert (es + [combos[k]])[..|es|] == es;
  }

  // ---------------------------------------------------------------------
  // The engine
  // ---------------------------------------------------------------------

  /** The inner loop of find_best_combination: visits the combinations of one
      size in order, starting from the report of everything visited before,
      and returns the report with them visited too. */
  method VisitSize(shares: seq<Share>, maxBudget: real, ghost visited: seq<seq<nat>>, combos: seq<seq<nat>>,
                   best: Option<seq<Share>>, profit: real)
    returns (bestCombination: Option<seq<Share>>, bestProfit: real)
    requires AllInRange(visited, |shares|) && AllInRange(combos, |shares|)
    requires (best, profit) == Report(shares, maxBudget, visited)
    ensures AllInRange(visited + combos, |shares|)
    ensures (bestCombination, bestProfit) == Report(shares, maxBudget, visited + combos)
  {
    bestCombination, bestProfit := best, profit;
    assert visited + combos[..0] == visited;
    for k := 0 to |combos|
      invariant AllInRange(visited + combos[..k], |shares|)
      invariant (bestCombination, bestProfit) == Report(shares, maxBudget, visited + combos[..k])
    {
      var combination := Pick(shares, combos[k]);
      var (totalCost, totalProfit) := CalculateProfit(combination);
      ReportExtend(shares, maxBudget, visited, combos, k);
      if totalCost as real <= maxBudget && totalProfit > bestProfit {
        bestCombination := Some(combination);
        bestProfit := totalProfit;
      }
    }
    assert visited + combos[..|combos|] == visited + combos;
  }

  /** find_best_combination(shares, max_budget): tries every size r from 1 to
      the number of shares. */
  method FindBestCombination(shares: seq<Share>, maxBudget: real)
    returns (bestCombination: Option<seq<Share>>, bestProfit: real)
    ensures (bestCombination, bestProfit) == Report(shares, maxBudget, Enumeration(|shares|, |shares|))
    ensures bestCombination.None? ==> bestProfit == 0.0
    ensures bestCombination.Some? ==>
      && (exists c :: IsIndexSubset(c, |shares|) && c != [] && bestCombination.value == Pick(shares, c))
      && TotalCost(bestCombination.value) as real <= maxBudget
      && TotalProfit(bestCombination.value) == bestProfit > 0.0
    ensures forall c :: IsIndexSubset(c, |shares|) && c != [] && Affordable(shares, c, maxBudget) ==>
              ProfitOf(shares, c) <= bestProfit
    ensures bestCombination.None? <==>
      forall c :: IsIndexSubset(c, |shares|) && c != [] && Affordable(shares, c, maxBudget) ==>
        ProfitOf(shares, c) <= 0.0
  {
    var n := |shares|;
    bestCombination := None;
    bestProfit := 0.0;

    for r := 1 to n + 1
      invariant (bestCombination, bestProfit) == Report(shares, maxBudget, Enumeration(n, r - 1))
    {
      var combos := Combinations(n, r);
      bestCombination, bestProfit := VisitSize(shares, maxBudget, Enumeration(n, r - 1), combos, bestCombination, bestProfit);
    }
    assert (bestCombination, bestProfit) == Report(shares, maxBudget, Enumeration(n, n));
    ReportChoice(shares, maxBudget);
    ReportOptimal(shares, maxBudget);
  }
}
