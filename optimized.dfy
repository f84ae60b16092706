/** The dynamic-programming engine, `knapsack_dp`: fill the table of optima
    for every prefix of the actions and every budget in cents, then walk back
    from the last cell to recover the chosen actions. */
module Optimized {
  import opened Actions
  import opened Knapsack

  /** The `(n+1) x (budget+1)` table: row 0 is all zeros and cell `[i, w]`
      holds the best benefit of the first `i` actions within `w` cents. */
  method FillTable(budget: nat, items: seq<Action>) returns (dp: array2<int>)
    ensures dp.Length0 == |items| + 1 && dp.Length1 == budget + 1
    ensures forall w :: 0 <= w <= budget ==> dp[0, w] == 0
    ensures forall i, w :: 0 <= i <= |items| && 0 <= w <= budget ==> dp[i, w] == Best(items[..i], w)
    ensures forall i, w :: 0 <= i < |items| && 0 <= w <= budget ==> 0 <= dp[i, w] <= dp[i + 1, w]
  {
    var n := |items|;
    dp := new int[n + 1, budget + 1]((i, w) => 0);
    for i := 1 to n + 1
      invariant forall r, c :: 0 <= r < i && 0 <= c <= budget ==> dp[r, c] == Best(items[..r], c)
    {
      assert items[..i][..i - 1] == items[..i - 1];
      for w := 0 to budget + 1
        invariant forall r, c :: 0 <= r < i && 0 <= c <= budget ==> dp[r, c] == Best(items[..r], c)
        invariant forall c :: 0 <= c < w ==> dp[i, c] == Best(items[..i], c)
      {
        var cost := items[i - 1].cost;
        if cost <= w {
          dp[i, w] := Max(dp[i - 1, w], dp[i - 1, w - cost] + items[i - 1].benefit);
        } else {
          dp[i, w] := dp[i - 1, w];
        }
      }
    }
    forall i, w | 0 <= i < n && 0 <= w <= budget
      ensures 0 <= dp[i, w] <= dp[i + 1, w]
    {
      BestMonotone(items, i + 1, w, w);
    }
  }

  /** Backtracking: from cell `[n, budget]`, an action is taken exactly when
      its row differs from the row above; the picks come out last-first and
      are reversed into input order. */
  method Reconstruct(dp: array2<int>, budget: nat, items: seq<Action>) returns (selected: seq<Action>)
    requires dp.Length0 == |items| + 1 && dp.Length1 == budget + 1
    requires forall i, w :: 0 <= i <= |items| && 0 <= w <= budget ==> dp[i, w] == Best(items[..i], w)
    ensures IsSelectionOf(selected, items)
    ensures TotalCost(selected) <= budget
    ensures TotalBenefit(selected) == dp[|items|, budget]
    ensures selected == Backtracked(items, |items|, budget)
  {
    var n := |items|;
    var w := budget;
    var picked: seq<Action> := [];
    ghost var suffix: seq<Action> := [];
    var i := n;
    while i > 0
      invariant 0 <= i <= n && 0 <= w <= budget
      invariant suffix == Reversed(picked)
      invariant Backtracked(items, i, w) + suffix == Backtracked(items, n, budget)
    {
      var taken := dp[i, w] != dp[i - 1, w];
      BacktrackedStep(items, i, w, taken);
      if taken {
        var x := items[i - 1];
        ghost var rest := Backtracked(items, i - 1, w - x.cost);
        ReversedSnoc(picked, x);
        assert rest + ([x] + suffix) == (rest + [x]) + suffix;
        picked := picked + [x];
        suffix := [x] + suffix;
        w := w - x.cost;
      }
      i := i - 1;
    }
    selected := Reversed(picked);
    assert items[..n] == items;
    assert Backtracked(items, 0, w) == [];
    assert selected == Backtracked(items, n, budget);
    ghost var m := BacktrackedMask(items, n, budget);
  }

  /** `knapsack_dp`: the optimal benefit in cents and one subset reaching it. */
  method KnapsackDp(budget: nat, items: seq<Action>) returns (result: Combination)
    ensures result.totalBenefit == Best(items, budget)
    ensures result.totalBenefit == TotalBenefit(result.actions)
    ensures TotalCost(result.actions) <= budget
    ensures IsSelectionOf(result.actions, items)
    ensures result.actions == Backtracked(items, |items|, budget)
    ensures items == [] ==> result == Combination(0, [])
  {
    var dp := FillTable(budget, items);
    var selected := Reconstruct(dp, budget, items);
    assert items[..|items|] == items;
    result := Combination(dp[|items|, budget], selected);
  }
}
