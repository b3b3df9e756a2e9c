/**
 * The data both engines share: a share with its cost and profit rate, the
 * per-item cost and profit lists built from a catalog, index subsets of a
 * catalog, and the sums that give a combination's total cost and profit.
 */
module Shares {

  datatype Option<T> = None | Some(value: T)

  /** One row of the catalog. The cost is a whole number of currency units;
      the rate is the fractional yield (0.15 for 15%). */
  datatype Share = Share(name: string, cost: nat, rate: real)

  /** The absolute gain of buying a share: its cost times its rate. */
  function Profit(s: Share): real {
    s.cost as real * s.rate
  }

  /** The catalog contract: every cost is strictly positive. */
  predicate PositiveCosts(shares: seq<Share>) {
    forall k :: 0 <= k < |shares| ==> shares[k].cost > 0
  }

  /** The list of costs, one per share, in catalog order. */
  function Costs(shares: seq<Share>): (costs: seq<nat>)
    ensures |costs| == |shares|
    ensures forall k :: 0 <= k < |shares| ==> costs[k] == shares[k].cost
  {
    seq(|shares|, k requires 0 <= k < |shares| => shares[k].cost)
  }

  /** The list of profits, one per share, in catalog order. */
  function Profits(shares: seq<Share>): (profits: seq<real>)
    ensures |profits| == |shares|
    ensures forall k :: 0 <= k < |shares| ==> profits[k] == Profit(shares[k])
  {
    seq(|shares|, k requires 0 <= k < |shares| => Profit(shares[k]))
  }

  /** Every index lies in [0, n). */
  predicate InRange(idx: seq<nat>, n: nat) {
    forall k :: 0 <= k < |idx| ==> idx[k] < n
  }

  predicate StrictlyIncreasing(idx: seq<nat>) {
    forall j, k :: 0 <= j < k < |idx| ==> idx[j] < idx[k]
  }

  predicate StrictlyDecreasing(idx: seq<nat>) {
    forall j, k :: 0 <= j < k < |idx| ==> idx[j] > idx[k]
  }

  /** A subset of the first n items, written as its indices in ascending
      order: no index twice, the catalog's own relative order kept. */
  predicate IsIndexSubset(idx: seq<nat>, n: nat) {
    StrictlyIncreasing(idx) && InRange(idx, n)
  }

  /** The elements of xs at the positions idx, in the order of idx. */
  function Pick<T>(xs: seq<T>, idx: seq<nat>): (picked: seq<T>)
    requires InRange(idx, |xs|)
    ensures |picked| == |idx|
    ensures forall k :: 0 <= k < |idx| ==> picked[k] == xs[idx[k]]
  {
    seq(|idx|, k requires 0 <= k < |idx| => xs[idx[k]])
  }

  function Reverse<T>(xs: seq<T>): (r: seq<T>)
    ensures |r| == |xs|
    ensures forall k :: 0 <= k < |xs| ==> r[k] == xs[|xs| - 1 - k]
  {
    seq(|xs|, k requires 0 <= k < |xs| => xs[|xs| - 1 - k])
  }

  function Sum(xs: seq<nat>): nat {
    if xs == [] then 0 else xs[0] + Sum(xs[1..])
  }

  function RealSum(xs: seq<real>): real {
    if xs == [] then 0.0 else xs[0] + RealSum(xs[1..])
  }

  /** Total cost of a combination of shares. */
  function TotalCost(combination: seq<Share>): nat {
    Sum(Costs(combination))
  }

  /** Total profit of a combination of shares. */
  function TotalProfit(combination: seq<Share>): real {
    RealSum(Profits(combination))
  }

  lemma {:induction false} SumAppend(a: seq<nat>, b: seq<nat>)
    ensures Sum(a + b) == Sum(a) + Sum(b)
  {
    if a == [] {
      assert a + b == b;
    } else {
      assert (a + b)[1..] == a[1..] + b;
      SumAppend(a[1..], b);
    }
  }

  lemma {:induction false} RealSumAppend(a: seq<real>, b: seq<real>)
    ensures RealSum(a + b) == RealSum(a) + RealSum(b)
  {
    if a == [] {
      assert a + b == b;
    } else {
      assert (a + b)[1..] == a[1..] + b;
      RealSumAppend(a[1..], b);
    }
  }

  /** Summing in the opposite order gives the same total. */
  lemma {:induction false} SumReverse(xs: seq<nat>)
    ensures Sum(Reverse(xs)) == Sum(xs)
  {
    if xs != [] {
      assert Reverse(xs) == Reverse(xs[1..]) + [xs[0]];
      SumAppend(Reverse(xs[1..]), [xs[0]]);
      SumReverse(xs[1..]);
    }
  }

  lemma {:induction false} RealSumReverse(xs: seq<real>)
    ensures RealSum(Reverse(xs)) == RealSum(xs)
  {
    if xs != [] {
      assert Reverse(xs) == Reverse(xs[1..]) + [xs[0]];
      RealSumAppend(Reverse(xs[1..]), [xs[0]]);
      RealSumReverse(xs[1..]);
    }
  }

  /** Picking costs (profits) by position is the same as taking the costs
      (profits) of the picked shares. */
  lemma PickCostsProfits(shares: seq<Share>, idx: seq<nat>)
    requires InRange(idx, |shares|)
    ensures Pick(Costs(shares), idx) == Costs(Pick(shares, idx))
    ensures Pick(Profits(shares), idx) == Profits(Pick(shares, idx))
  {
  }

  /** An ascending index list whose entries are below n has at most n entries. */
  lemma {:induction false} IndexSubsetLength(idx: seq<nat>, n: nat)
    requires IsIndexSubset(idx, n)
    ensures |idx| <= n
  {
    if idx != [] {
      var last := idx[|idx| - 1];
      var init := idx[..|idx| - 1];
      assert IsIndexSubset(init, last);
      IndexSubsetLength(init, last);
    }
  }

  /** A non-empty list of positive costs has a positive total. */
  lemma SumPositive(xs: seq<nat>)
    requires forall k :: 0 <= k < |xs| ==> xs[k] > 0
    ensures xs != [] ==> Sum(xs) > 0
  {
  }
}
