/** The 0/1 knapsack optimum that both engines compute. */
module Knapsack {
  import opened Actions

  function Max(a: int, b: int): int
  {
    if a >= b then a else b
  }

  /** The best benefit reachable with some of `items` for at most `w` cents,
      written as the 0/1 recurrence on the last item: either leave it out, or,
      when it fits, take it and fill the remaining `w - cost` from the others. */
  function Best(items: seq<Action>, w: nat): (b: int)
    ensures b >= 0
  {
    if items == [] then 0
    else
      var rest, a := items[..|items| - 1], items[|items| - 1];
      if a.cost <= w then Max(Best(rest, w), Best(rest, w - a.cost) + a.benefit)
      else Best(rest, w)
  }

  /** No affordable subset of `items` beats `Best(items, w)`. */
  lemma {:induction false} BestUpperBound(items: seq<Action>, w: nat, mask: seq<bool>)
    requires |mask| == |items|
    requires TotalCost(Select(items, mask)) <= w
    ensures TotalBenefit(Select(items, mask)) <= Best(items, w)
  {
    if items != [] {
      var rest, a := items[..|items| - 1], items[|items| - 1];
      var m := mask[..|mask| - 1];
      var sel := Select(rest, m);
      if mask[|mask| - 1] {
        TotalsAppend(sel, [a]);
        BestUpperBound(rest, w - a.cost, m);
      } else {
        BestUpperBound(rest, w, m);
      }
    }
  }

  /** A subset of `items` that costs at most `w` and reaches `Best(items, w)`:
      together with BestUpperBound, `Best` is the maximum over subsets. */
  function OptimalMask(items: seq<Action>, w: nat): (m: seq<bool>)
    ensures |m| == |items|
    ensures TotalCost(Select(items, m)) <= w
    ensures TotalBenefit(Select(items, m)) == Best(items, w)
  {
    if items == [] then []
    else
      var rest, a := items[..|items| - 1], items[|items| - 1];
      if a.cost <= w && Best(rest, w - a.cost) + a.benefit > Best(rest, w) then
        var m := OptimalMask(rest, w - a.cost);
        TotalsAppend(Select(rest, m), [a]);
        assert (m + [true])[..|m|] == m;
        m + [true]
      else
        var m := OptimalMask(rest, w);
        assert (m + [false])[..|m|] == m;
        m + [false]
  }

  /** Adding an item never lowers the optimum, and a larger budget never
      lowers it either. */
  lemma BestMonotone(items: seq<Action>, i: nat, w: nat, w': nat)
    requires 1 <= i <= |items| && w <= w'
    ensures Best(items[..i - 1], w) <= Best(items[..i], w)
    ensures Best(items, w) <= Best(items, w')
  {
    assert items[..i][..i - 1] == items[..i - 1];
    var m := OptimalMask(items, w);
    BestUpperBound(items, w', m);
  }

  /** When the optimum of the first `i` actions differs from that of the
      first `i - 1`, action `i - 1` fits and the optimum takes it. */
  lemma BestBacktrack(items: seq<Action>, i: nat, w: nat)
    requires 1 <= i <= |items|
    requires Best(items[..i], w) != Best(items[..i - 1], w)
    ensures items[i - 1].cost <= w
    ensures Best(items[..i], w) == Best(items[..i - 1], w - items[i - 1].cost) + items[i - 1].benefit
  {
    assert items[..i][..i - 1] == items[..i - 1];
  }

  /** The actions the backtracking over the optimum table picks from the
      first `i` actions, starting at budget `w`: action `i - 1` is taken
      exactly when the optimum with it differs from the optimum without it,
      and the walk then continues with its cost taken off `w`. The result is
      in input order. */
  function Backtracked(items: seq<Action>, i: nat, w: nat): (r: seq<Action>)
    requires i <= |items|
    ensures TotalCost(r) <= w
    ensures TotalBenefit(r) == Best(items[..i], w)
  {
    if i == 0 then []
    else if Best(items[..i], w) != Best(items[..i - 1], w) then
      BestBacktrack(items, i, w);
      var rest := Backtracked(items, i - 1, w - items[i - 1].cost);
      TotalsAppend(rest, [items[i - 1]]);
      rest + [items[i - 1]]
    else
      Backtracked(items, i - 1, w)
  }

  /** One step of the backtracking, unfolded. */
  lemma BacktrackedStep(items: seq<Action>, i: nat, w: nat, taken: bool)
    requires 1 <= i <= |items|
    requires taken == (Best(items[..i], w) != Best(items[..i - 1], w))
    ensures taken ==> items[i - 1].cost <= w
    ensures taken ==> Backtracked(items, i, w) == Backtracked(items, i - 1, w - items[i - 1].cost) + [items[i - 1]]
    ensures !taken ==> Backtracked(items, i, w) == Backtracked(items, i - 1, w)
  {
    if taken {
      BestBacktrack(items, i, w);
    }
  }

  /** The flags of the backtracking: flag `k` is set exactly when action `k`
      is picked, so the picks are a subset of the first `i` actions in input
      order. */
  function BacktrackedMask(items: seq<Action>, i: nat, w: nat): (m: seq<bool>)
    requires i <= |items|
    ensures |m| == i
    ensures Select(items[..i], m) == Backtracked(items, i, w)
  {
    if i == 0 then []
    else
      var taken := Best(items[..i], w) != Best(items[..i - 1], w);
      BacktrackedStep(items, i, w, taken);
      var m := if taken then BacktrackedMask(items, i - 1, w - items[i - 1].cost)
               else BacktrackedMask(items, i - 1, w);
      assert items[..i][..i - 1] == items[..i - 1];
      assert (m + [taken])[..i - 1] == m;
      m + [taken]
  }
}
