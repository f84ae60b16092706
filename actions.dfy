/** Actions, their cost and benefit sums, and subsets of an action list.

    Money is in integer cents throughout: an action's `cost` is what buying
    it takes out of the budget and its `benefit` is `cost * rate`, both
    already converted to cents. */
module Actions {

  /** One candidate investment: a label, its price and its projected gain. */
  datatype Action = Action(name: string, cost: nat, benefit: int)

  /** The result record both engines return: the benefit they report and the
      chosen actions, in input order. */
  datatype Combination = Combination(totalBenefit: int, actions: seq<Action>)

  /** Sum of the costs of `s`. */
  function TotalCost(s: seq<Action>): nat
  {
    if s == [] then 0 else TotalCost(s[..|s| - 1]) + s[|s| - 1].cost
  }

  /** Sum of the benefits of `s`. */
  function TotalBenefit(s: seq<Action>): int
  {
    if s == [] then 0 else TotalBenefit(s[..|s| - 1]) + s[|s| - 1].benefit
  }

  /** Both sums split over a concatenation. */
  lemma {:induction false} TotalsAppend(a: seq<Action>, b: seq<Action>)
    ensures TotalCost(a + b) == TotalCost(a) + TotalCost(b)
    ensures TotalBenefit(a + b) == TotalBenefit(a) + TotalBenefit(b)
  {
    if b != [] {
      var b' := b[..|b| - 1];
      assert (a + b)[..|a + b| - 1] == a + b';
      TotalsAppend(a, b');
    } else {
      assert a + b == a;
    }
  }

  /** The actions of `items` whose flag in `mask` is set, in input order.
      Every subset of `items` is `Select(items, m)` for some mask `m`. */
  function Select(items: seq<Action>, mask: seq<bool>): (r: seq<Action>)
    requires |mask| == |items|
    ensures |r| <= |items|
  {
    if items == [] then []
    else
      var rest := Select(items[..|items| - 1], mask[..|mask| - 1]);
      if mask[|mask| - 1] then rest + [items[|items| - 1]] else rest
  }

  /** `sub` consists of some of the actions of `items`, kept in their order. */
  ghost predicate IsSelectionOf(sub: seq<Action>, items: seq<Action>)
  {
    exists m: seq<bool> :: |m| == |items| && Select(items, m) == sub
  }

  /** Selecting from a concatenation selects from each part. */
  lemma {:induction false} SelectAppend(a: seq<Action>, ma: seq<bool>, b: seq<Action>, mb: seq<bool>)
    requires |ma| == |a| && |mb| == |b|
    ensures Select(a + b, ma + mb) == Select(a, ma) + Select(b, mb)
  {
    if b != [] {
      var b', mb' := b[..|b| - 1], mb[..|mb| - 1];
      assert (a + b)[..|a + b| - 1] == a + b';
      assert (ma + mb)[..|ma + mb| - 1] == ma + mb';
      SelectAppend(a, ma, b', mb');
    } else {
      assert a + b == a && ma + mb == ma;
    }
  }

  /** The all-false mask selects nothing. */
  lemma {:induction false} SelectNone(items: seq<Action>)
    ensures Select(items, seq(|items|, _ => false)) == []
  {
    if items != [] {
      var n := |items|;
      assert seq(n, _ => false)[..n - 1] == seq(n - 1, _ => false);
      SelectNone(items[..n - 1]);
    }
  }

  /** `s` read back to front; the source's in-place `list.reverse()`. */
  function Reversed(s: seq<Action>): (r: seq<Action>)
    ensures |r| == |s|
    ensures forall k :: 0 <= k < |s| ==> r[k] == s[|s| - 1 - k]
  {
    if s == [] then [] else [s[|s| - 1]] + Reversed(s[..|s| - 1])
  }

  /** Appending to a list puts the new action at the front of its reversal. */
  lemma ReversedSnoc(s: seq<Action>, x: Action)
    ensures Reversed(s + [x]) == [x] + Reversed(s)
  {
    assert (s + [x])[..|s|] == s;
  }
}
