/** The exhaustive engine, `find_best_combination`: a depth-first walk over
    include/exclude decisions that keeps a running combination and a record
    of the best affordable one seen so far. */
module Brutforce {
  import opened Actions
  import opened Knapsack

  /** The record update made at every node of the walk: the running
      combination `c` replaces the record when it is affordable and strictly
      better; an equally good one does not. One step never lowers the
      recorded benefit, and a record it changes is a self-consistent,
      affordable copy of `c`. */
  function Offer(budget: nat, best: Combination, c: seq<Action>): (r: Combination)
    ensures r.totalBenefit >= best.totalBenefit
    ensures r == best || (r.actions == c && TotalCost(r.actions) <= budget && r.totalBenefit == TotalBenefit(r.actions))
  {
    if TotalCost(c) <= budget && TotalBenefit(c) > best.totalBenefit then Combination(TotalBenefit(c), c)
    else best
  }

  /** The record after offering each of `cs`, in order, starting from `best`. */
  function Scan(budget: nat, cs: seq<seq<Action>>, best: Combination): Combination
  {
    if cs == [] then best else Scan(budget, cs[1..], Offer(budget, best, cs[0]))
  }

  /** The running combinations the walk visits from `index` with `current`,
      in visiting order: `current` itself, then everything with
      `datas[index]` added, then everything without it. */
  function Enumerate(datas: seq<Action>, index: nat, current: seq<Action>): seq<seq<Action>>
    decreases |datas| - index
  {
    if index >= |datas| then [current]
    else [current] + Enumerate(datas, index + 1, current + [datas[index]]) + Enumerate(datas, index + 1, current)
  }

  function Pow2(k: nat): (p: nat)
    ensures p >= 1
  {
    if k == 0 then 1 else 2 * Pow2(k - 1)
  }

  /** From `index` the walk visits `2^(n - index + 1) - 1` nodes, the root
      included. */
  lemma {:induction false} EnumerateSize(datas: seq<Action>, index: nat, current: seq<Action>)
    requires index <= |datas|
    ensures |Enumerate(datas, index, current)| == Pow2(|datas| - index + 1) - 1
    decreases |datas| - index
  {
    if index < |datas| {
      EnumerateSize(datas, index + 1, current + [datas[index]]);
      EnumerateSize(datas, index + 1, current);
    }
  }

  /** Every extension of `current` by a subset of `datas[index..]` is visited. */
  lemma {:induction false} EnumerateComplete(datas: seq<Action>, index: nat, current: seq<Action>, mask: seq<bool>)
    requires index <= |datas| && |mask| == |datas| - index
    ensures current + Select(datas[index..], mask) in Enumerate(datas, index, current)
    decreases |datas| - index
  {
    if index == |datas| {
      assert current + Select(datas[index..], mask) == current;
    } else {
      var d, tail, rest := datas[index], datas[index + 1..], mask[1..];
      var head := if mask[0] then [d] else [];
      SelectStep(datas, index, mask);
      var next := current + head;
      assert mask[0] ==> next == current + [d];
      assert !mask[0] ==> next == current;
      EnumerateComplete(datas, index + 1, next, rest);
      assert current + Select(datas[index..], mask) == next + Select(tail, rest);
      assert Enumerate(datas, index, current)
        == [current] + Enumerate(datas, index + 1, current + [d]) + Enumerate(datas, index + 1, current);
    }
  }

  /** Selecting from `datas[index..]` decides `datas[index]` first. */
  lemma SelectStep(datas: seq<Action>, index: nat, mask: seq<bool>)
    requires index < |datas| && |mask| == |datas| - index
    ensures Select(datas[index..], mask)
      == (if mask[0] then [datas[index]] else []) + Select(datas[index + 1..], mask[1..])
  {
    assert datas[index..] == [datas[index]] + datas[index + 1..];
    assert mask == [mask[0]] + mask[1..];
    SelectAppend([datas[index]], [mask[0]], datas[index + 1..], mask[1..]);
    assert Select([datas[index]], [mask[0]]) == if mask[0] then [datas[index]] else [];
  }

  /** Every visited combination is `current` extended by a subset of
      `datas[index..]`. */
  lemma {:induction false} EnumerateSound(datas: seq<Action>, index: nat, current: seq<Action>, c: seq<Action>)
    requires index <= |datas|
    requires c in Enumerate(datas, index, current)
    ensures exists m: seq<bool> :: |m| == |datas| - index && c == current + Select(datas[index..], m)
    decreases |datas| - index
  {
    if c == current {
      var none := seq(|datas| - index, _ => false);
      SelectNone(datas[index..]);
      assert c == current + Select(datas[index..], none);
    } else {
      var d, tail := datas[index], datas[index + 1..];
      var next := current + [d];
      assert Enumerate(datas, index, current)
        == [current] + Enumerate(datas, index + 1, next) + Enumerate(datas, index + 1, current);
      var take := c in Enumerate(datas, index + 1, next);
      var base := if take then next else current;
      assert c in Enumerate(datas, index + 1, base);
      EnumerateSound(datas, index + 1, base, c);
      var m :| |m| == |datas| - index - 1 && c == base + Select(tail, m);
      ExtendSelection(datas, index, current, take, m);
      assert c == current + Select(datas[index..], [take] + m);
    }
  }

  /** Deciding `datas[index]` and then choosing `m` from the rest is choosing
      `[take] + m` from `datas[index..]`. */
  lemma ExtendSelection(datas: seq<Action>, index: nat, current: seq<Action>, take: bool, m: seq<bool>)
    requires index < |datas| && |m| == |datas| - index - 1
    ensures (if take then current + [datas[index]] else current) + Select(datas[index + 1..], m)
      == current + Select(datas[index..], [take] + m)
  {
    var mask := [take] + m;
    SelectStep(datas, index, mask);
    assert mask[1..] == m;
    var rest := Select(datas[index + 1..], m);
    if take {
      assert current + [datas[index]] + rest == current + ([datas[index]] + rest);
    } else {
      assert [] + rest == rest;
    }
  }

  /** Offering `a` then `b` is offering `a + b`. */
  lemma {:induction false} ScanAppend(budget: nat, a: seq<seq<Action>>, b: seq<seq<Action>>, best: Combination)
    ensures Scan(budget, a + b, best) == Scan(budget, b, Scan(budget, a, best))
  {
    if a == [] {
      assert a + b == b;
    } else {
      assert (a + b)[1..] == a[1..] + b;
      ScanAppend(budget, a[1..], b, Offer(budget, best, a[0]));
    }
  }

  /** The recorded benefit never decreases, and it ends at least as high as
      every affordable offered combination. */
  lemma {:induction false} ScanBounds(budget: nat, cs: seq<seq<Action>>, best: Combination)
    ensures Scan(budget, cs, best).totalBenefit >= best.totalBenefit
    ensures forall c :: c in cs && TotalCost(c) <= budget ==> TotalBenefit(c) <= Scan(budget, cs, best).totalBenefit
  {
    if cs != [] {
      ScanBounds(budget, cs[1..], Offer(budget, best, cs[0]));
    }
  }

  /** Tie-break: the record either stays `best`, when nothing offered beats
      it, or becomes the FIRST offered combination that is affordable and
      reaches the final benefit; every affordable one before it is strictly
      worse. */
  lemma {:induction false} ScanKeepsFirst(budget: nat, cs: seq<seq<Action>>, best: Combination)
    ensures var r := Scan(budget, cs, best);
      || (r == best && forall c :: c in cs && TotalCost(c) <= budget ==> TotalBenefit(c) <= best.totalBenefit)
      || (r.totalBenefit > best.totalBenefit &&
          exists k :: 0 <= k < |cs| && r == Combination(TotalBenefit(cs[k]), cs[k]) && TotalCost(cs[k]) <= budget &&
            forall j :: 0 <= j < k && TotalCost(cs[j]) <= budget ==> TotalBenefit(cs[j]) < r.totalBenefit)
  {
    if cs != [] {
      var b1 := Offer(budget, best, cs[0]);
      var r := Scan(budget, cs, best);
      ScanKeepsFirst(budget, cs[1..], b1);
      if r == b1 && forall c :: c in cs[1..] && TotalCost(c) <= budget ==> TotalBenefit(c) <= b1.totalBenefit {
        if b1 != best {
          assert r == Combination(TotalBenefit(cs[0]), cs[0]);
        }
      } else {
        var k' :| 0 <= k' < |cs[1..]| && r == Combination(TotalBenefit(cs[1..][k']), cs[1..][k']) && TotalCost(cs[1..][k']) <= budget &&
          forall j :: 0 <= j < k' && TotalCost(cs[1..][j]) <= budget ==> TotalBenefit(cs[1..][j]) < r.totalBenefit;
        assert r.totalBenefit > b1.totalBenefit >= best.totalBenefit;
        var k := k' + 1;
        forall j | 0 <= j < k && TotalCost(cs[j]) <= budget
          ensures TotalBenefit(cs[j]) < r.totalBenefit
        {
          if j > 0 {
            assert cs[j] == cs[1..][j - 1];
          }
        }
      }
    }
  }

  /** After a walk from `index` with running combination `current`, the
      record is at least as good as every affordable extension of `current`
      by a subset of `datas[index..]`. */
  lemma WalkCoversExtensions(budget: nat, datas: seq<Action>, index: nat, current: seq<Action>,
                             best: Combination, mask: seq<bool>)
    requires index <= |datas| && |mask| == |datas| - index
    requires TotalCost(current + Select(datas[index..], mask)) <= budget
    ensures TotalBenefit(current + Select(datas[index..], mask))
      <= Scan(budget, Enumerate(datas, index, current), best).totalBenefit
  {
    EnumerateComplete(datas, index, current, mask);
    ScanBounds(budget, Enumerate(datas, index, current), best);
  }

  /** The walk's outcome from a fresh record is the knapsack optimum: the
      exhaustive engine and the table agree in value. */
  lemma ExhaustiveMatchesBest(budget: nat, datas: seq<Action>)
    ensures Scan(budget, Enumerate(datas, 0, []), Combination(0, [])).totalBenefit == Best(datas, budget)
  {
    ExhaustiveReachesBest(budget, datas);
    ExhaustiveWithinBest(budget, datas);
  }

  /** The optimal subset is among the visited combinations, so the record
      reaches at least the optimum. */
  lemma ExhaustiveReachesBest(budget: nat, datas: seq<Action>)
    ensures Scan(budget, Enumerate(datas, 0, []), Combination(0, [])).totalBenefit >= Best(datas, budget)
  {
    var cs := Enumerate(datas, 0, []);
    var m := OptimalMask(datas, budget);
    EnumerateComplete(datas, 0, [], m);
    assert datas[0..] == datas;
    assert [] + Select(datas, m) == Select(datas, m);
    ScanBounds(budget, cs, Combination(0, []));
  }

  /** The record a walk from `{0, []}` ends with is affordable, reports the
      benefit of its own actions, and is a subset of `datas` in input order. */
  lemma ExhaustiveRecordFeasible(budget: nat, datas: seq<Action>)
    ensures var r := Scan(budget, Enumerate(datas, 0, []), Combination(0, []));
      && TotalCost(r.actions) <= budget
      && r.totalBenefit == TotalBenefit(r.actions)
      && IsSelectionOf(r.actions, datas)
  {
    var cs := Enumerate(datas, 0, []);
    var init := Combination(0, []);
    var r := Scan(budget, cs, init);
    ScanKeepsFirst(budget, cs, init);
    assert datas[0..] == datas;
    if r == init {
      SelectNone(datas);
    } else {
      var k :| 0 <= k < |cs| && r == Combination(TotalBenefit(cs[k]), cs[k]) && TotalCost(cs[k]) <= budget;
      EnumerateSound(datas, 0, [], cs[k]);
      var mk :| |mk| == |datas| && cs[k] == [] + Select(datas[0..], mk);
      assert cs[k] == Select(datas, mk);
    }
  }

  /** The record never exceeds the optimum, being an affordable subset. */
  lemma ExhaustiveWithinBest(budget: nat, datas: seq<Action>)
    ensures Scan(budget, Enumerate(datas, 0, []), Combination(0, [])).totalBenefit <= Best(datas, budget)
  {
    var r := Scan(budget, Enumerate(datas, 0, []), Combination(0, []));
    ExhaustiveRecordFeasible(budget, datas);
    var mk :| |mk| == |datas| && Select(datas, mk) == r.actions;
    BestUpperBound(datas, budget, mk);
  }

  /** `cs[k]` holds the actions of `best`, and every affordable combination
      before it in `cs` is strictly worse than `best`. */
  ghost predicate FirstOptimumAt(budget: nat, cs: seq<seq<Action>>, k: int, best: Combination)
  {
    && 0 <= k < |cs|
    && cs[k] == best.actions
    && forall j :: 0 <= j < k && TotalCost(cs[j]) <= budget ==> TotalBenefit(cs[j]) < best.totalBenefit
  }

  /** The record a walk from `{0, []}` ends with holds the first visited
      combination that reaches its benefit affordably; with the empty start
      never replaced, that is the root `[]`. */
  lemma ExhaustiveFirstOptimum(budget: nat, datas: seq<Action>)
    ensures exists k :: FirstOptimumAt(budget, Enumerate(datas, 0, []), k,
                                       Scan(budget, Enumerate(datas, 0, []), Combination(0, [])))
  {
    var cs := Enumerate(datas, 0, []);
    var init := Combination(0, []);
    var r := Scan(budget, cs, init);
    ScanKeepsFirst(budget, cs, init);
    if r == init {
      assert FirstOptimumAt(budget, cs, 0, r);
    } else {
      var k :| 0 <= k < |cs| && r == Combination(TotalBenefit(cs[k]), cs[k]) && TotalCost(cs[k]) <= budget &&
        forall j :: 0 <= j < k && TotalCost(cs[j]) <= budget ==> TotalBenefit(cs[j]) < r.totalBenefit;
      assert FirstOptimumAt(budget, cs, k, r);
    }
  }

  /** The search state: the shared running combination, appended to and
      popped as the walk goes, and the best-combination record, whose two
      fields are overwritten when a better combination turns up. `calls`
      counts the calls of the walk. */
  class Search {
    const budget: nat
    const datas: seq<Action>
    var current: seq<Action>
    var bestBenefit: int
    var bestActions: seq<Action>
    ghost var calls: nat

    /** A fresh record `{0, []}` and an empty running combination for one
        search; nothing is carried over from an earlier search. */
    constructor (budget: nat, datas: seq<Action>)
      ensures this.budget == budget && this.datas == datas
      ensures current == [] && bestBenefit == 0 && bestActions == [] && calls == 0
    {
      this.budget := budget;
      this.datas := datas;
      current := [];
      bestBenefit := 0;
      bestActions := [];
      calls := 0;
    }

    function Record(): Combination
      reads this
    {
      Combination(bestBenefit, bestActions)
    }

    /** One call of the walk at `index`: the record ends as if every visited
        combination had been offered in order, the running combination is
        back to what it was, and one call was made per visited node. */
    method Explore(index: nat)
      modifies this
      ensures current == old(current)
      ensures Record() == Scan(budget, Enumerate(datas, index, old(current)), old(Record()))
      ensures bestBenefit >= old(bestBenefit)
      ensures calls == old(calls) + |Enumerate(datas, index, old(current))|
      decreases |datas| - index
    {
      calls := calls + 1;
      ghost var before := Record();
      var totalCost := TotalCost(current);
      var totalBenefit := TotalBenefit(current);
      if totalCost <= budget {
        if totalBenefit > bestBenefit {
          bestBenefit := totalBenefit;
          bestActions := current;
        }
      }
      assert Record() == Offer(budget, before, current);
      if index >= |datas| {
        return;
      }
      ghost var entry := current;
      ghost var afterOffer := Record();
      ghost var withIt := Enumerate(datas, index + 1, entry + [datas[index]]);
      ghost var withoutIt := Enumerate(datas, index + 1, entry);
      current := current + [datas[index]];
      Explore(index + 1);
      ghost var afterInclude := Record();
      current := current[..|current| - 1];
      assert current == entry;
      Explore(index + 1);
      assert Enumerate(datas, index, entry) == [entry] + withIt + withoutIt;
      ScanAppend(budget, [entry] + withIt, withoutIt, before);
      ScanAppend(budget, [entry], withIt, before);
      ScanBounds(budget, Enumerate(datas, index, entry), before);
    }
  }

  /** `find_best_combination` called with a fresh accumulator: the record it
      returns is affordable, reports its own benefit, is a subset of `datas`
      in input order, is optimal, and is the first optimum in visiting order. */
  method FindBestCombination(budget: nat, datas: seq<Action>) returns (best: Combination, ghost calls: nat)
    ensures TotalCost(best.actions) <= budget
    ensures best.totalBenefit == TotalBenefit(best.actions)
    ensures IsSelectionOf(best.actions, datas)
    ensures best.totalBenefit == Best(datas, budget)
    ensures exists k :: FirstOptimumAt(budget, Enumerate(datas, 0, []), k, best)
    ensures calls == Pow2(|datas| + 1) - 1
  {
    var search := new Search(budget, datas);
    search.Explore(0);
    best := search.Record();
    calls := search.calls;
    EnumerateSize(datas, 0, []);
    ExhaustiveMatchesBest(budget, datas);
    ExhaustiveRecordFeasible(budget, datas);
    ExhaustiveFirstOptimum(budget, datas);
  }
}
