# Knapsack over actions, in Dafny

A model of the two optimisation engines of the P7_BRUTPY project. The input is a list of
"actions", each a `(name, cost, rate)` triple whose benefit is `cost * rate`. Both engines
pick a subset with the largest total benefit whose total cost stays within a budget. This is
the 0/1 knapsack problem.

- **`knapsack_dp`** (`optimized.dfy`, module `Optimized`) is the dynamic-programming engine.
  `FillTable` builds the `(n+1) x (W+1)` table in a Dafny `array2` with the same nested loops
  as the source. `Reconstruct` walks back from cell `[n, W]`. It takes action `i-1` whenever
  `dp[i][w] != dp[i-1][w]`, collects the picks last-first and reverses them. `KnapsackDp`
  chains the two and returns the result record.
- **`find_best_combination`** (`brutforce.dfy`, module `Brutforce`) is the exhaustive engine.
  The class `Search` holds the shared running combination `current` and the best-combination
  record (`bestBenefit`, `bestActions`), all updated in place. Its recursive method `Explore`
  does what one call of the source does. It offers `current` to the record, then appends
  `datas[index]`, recurses, pops it, and recurses again. `FindBestCombination` starts one walk
  from a fresh record `{0, []}`.
- **Specification functions** (`knapsack.dfy`, module `Knapsack`) is `Best(items, w)`, the 0/1
  recurrence on the last item. `BestUpperBound` and `OptimalMask` prove that it is the
  maximum benefit over all subsets costing at most `w`. Subsets are boolean masks, and
  `Actions.Select(items, mask)` gives the chosen actions in input order. The exhaustive walk
  is specified by `Enumerate`, the combinations it visits in order, and by `Scan`, the record
  after offering each of them in turn.

Money is in integer cents. An action carries `cost: nat` and `benefit: int` already converted
(`int(cost * 100)` and `int(cost * rate * 100)` in the source), and both engines return their
total in cents. The two engines agree in value: both results equal `Best(datas, budget)`
(`Brutforce.ExhaustiveMatchesBest`, `Optimized.KnapsackDp`).

The repository holds several identical copies of the two engines. The rows below cite the
`app/scripts` versions. The same code is at:
- part2/optimized.py:25-66 and part2/optimized_graph.py:19-48 (`knapsack_dp`);
- part1/brutforce_graph.py:19-47 (`find_best_combination`).

## Model

| member | source | states |
|---|---|---|
| Actions.TotalsAppend | app/scripts/brutforce.py:45-46 | The cost sum and the benefit sum of a list split over concatenation. Appending an action adds its cost and benefit. |
| Knapsack.Best | app/scripts/optimized.py:42-47 | The 0/1 recurrence: leave the last action out, or take it when its cost fits `w`. The optimum is never negative, since taking nothing is always allowed. |
| Knapsack.BestUpperBound | app/scripts/optimized.py:42-47 | Every subset of the items that costs at most `w` has benefit at most `Best(items, w)`. |
| Knapsack.OptimalMask | app/scripts/optimized.py:42-47 | Some subset of the items costs at most `w` and has benefit exactly `Best(items, w)`. With BestUpperBound, `Best` is the maximum over affordable subsets. |
| Knapsack.BestMonotone | app/scripts/optimized.py:45-47 | One more item never lowers the optimum (`dp[i-1][w] <= dp[i][w]`). A larger budget never lowers it either. |
| Knapsack.BestBacktrack | app/scripts/optimized.py:53-55 | If row `i` differs from row `i-1` at `w`, action `i-1` fits in `w`. The cell then equals `dp[i-1][w - cost] + benefit`, which is what the backtracking step relies on. |
| Optimized.FillTable | app/scripts/optimized.py:39-47 | The table has `n+1` rows of `W+1` cells and row 0 is all zeros. Every cell `[i, w]` equals `Best(items[..i], w)`. Columns never decrease going down and stay non-negative. |
| Knapsack.Backtracked | app/scripts/optimized.py:50-55 | The actions the walk back picks from the first `i` actions at budget `w`: action `i-1` is taken exactly when `Best(items[..i], w) != Best(items[..i-1], w)`, and the walk continues at `w - cost`. They cost at most `w` and their benefit is `Best(items[..i], w)`. |
| Knapsack.BacktrackedStep | app/scripts/optimized.py:53-55 | One step of the walk back: when the two rows differ the action fits and is appended after the picks of the rows above at the reduced budget; otherwise the picks are those of the row above at the same budget. |
| Knapsack.BacktrackedMask | app/scripts/optimized.py:52-58 | The picks of the walk back are `Select` of a flag list with one flag per action, so they are a subset of the input in input order. |
| Optimized.Reconstruct | app/scripts/optimized.py:50-58 | `w` stays within `0..W`. After the reverse, the result is exactly `Backtracked(items, n, W)`: the source's own choice among equally good subsets, not just any optimum. It is a subset of the input in input order, costs at most `W` and has benefit `dp[n][W]`. |
| Optimized.KnapsackDp | app/scripts/optimized.py:23-63 | The returned total is `Best(items, W)` and equals the benefit of the returned actions. Those actions cost at most `W`, keep input order and are exactly `Backtracked(items, n, W)`, which fixes the tie-break between optimal subsets. Empty input gives `{0, []}`. |
| Brutforce.Offer | app/scripts/brutforce.py:48-51 | One offer never lowers the recorded benefit. A record it changes is the offered combination, affordable, with its own benefit as the stored total. |
| Brutforce.ScanBounds | app/scripts/brutforce.py:49-51 | The recorded benefit never decreases. It ends at least as high as every affordable combination offered. |
| Brutforce.ScanKeepsFirst | app/scripts/brutforce.py:49 | Strict-`>` tie-break. The record stays as it was when nothing beats it. Otherwise it becomes the first offered affordable combination with the final benefit, and every affordable one offered earlier is strictly worse. |
| Brutforce.EnumerateSize | app/scripts/brutforce.py:53-66 | A call at `index` visits `2^(n-index+1) - 1` nodes, itself included. |
| Brutforce.EnumerateComplete | app/scripts/brutforce.py:53-66 | Every extension of `current` by a subset of `datas[index..]` is visited. |
| Brutforce.EnumerateSound | app/scripts/brutforce.py:57-66 | Every visited combination is `current` extended by a subset of `datas[index..]`, in input order. |
| Brutforce.WalkCoversExtensions | app/scripts/brutforce.py:53-66 | After a walk from `index`, the record is at least as good as every affordable extension of `current` by a subset of `datas[index..]`. |
| Brutforce.ExhaustiveMatchesBest | app/scripts/brutforce.py:45-68 | A walk from `{0, []}` ends with benefit `Best(datas, budget)`, the value the table computes. |
| Brutforce.ExhaustiveRecordFeasible | app/scripts/brutforce.py:45-51 | The record a walk from `{0, []}` ends with costs at most the budget. Its stored benefit is the benefit sum of its actions. Its actions are a subset of `datas` in input order. |
| Brutforce.ExhaustiveFirstOptimum | app/scripts/brutforce.py:49-66 | The final record holds the first visited combination, in include-before-exclude order, that reaches its benefit affordably. Every affordable combination visited before it is strictly worse. |
| Brutforce.Search.constructor | app/scripts/brutforce.py:30-31 | A fresh, empty running combination and a fresh record `{0, []}` for each search. |
| Brutforce.Search.Explore | app/scripts/brutforce.py:45-68 | `current` is restored on return, since every append is undone by a pop. The record ends as `Scan` of the visited combinations from the old record, so its benefit never decreases. The call count grows by the number of visited nodes. |
| Brutforce.FindBestCombination | app/scripts/brutforce.py:26-68 | The returned record is affordable and its benefit equals that of its actions. Its actions are a subset of `datas` in input order. Its benefit is `Best(datas, budget)`. It is the first optimum in include-before-exclude order. The walk makes `2^(n+1) - 1` calls. |

## Left out

- CSV reading (`read_file` in every script and in app/utils/utils.py), header handling and the row filters: this is file I/O. The engines receive a ready list of actions.
- main.py and the entry points `start_brutforce`, `start_optimized` and `main`, with all console printing: they only dispatch and print.
- `measure_execution_time` and `plot_complexity` in the `_graph` scripts: wall-clock timing and matplotlib plotting.
- Floating point. The conversion `int(x * 100)` that truncates costs, benefits and the budget to cents is not modelled, nor is the final `/ 100.0`. Actions arrive in cents and the DP total is returned in cents. The exhaustive engine sums floats in the source. It is modelled over the same integers, so the equivalence of the engines is proved for exact integer amounts only.
- The mutable default arguments of `find_best_combination`. The source shares one list and one dict across top-level calls. The model gives every search a fresh `Search` object, so state leaking from one call to the next is not modelled.
- brutforce.py at the repository root (`go_calculate`, `go_buy`): exploratory scripts that only print.
- Negative amounts. Costs and the budget are `nat` in the model, so none of the following is modelled; benefits may be negative. The first CSV format (app/utils/utils.py:20-24) keeps rows with a negative cost. A negative cost makes `knapsack_dp` read `dp[i-1][w - costs[i-1]]` past the end of a row (app/scripts/optimized.py:45) and fail with an index error; a negative budget leaves every row empty and `dp[n][max_budget]` fails the same way. `find_best_combination` accepts both without error: with a negative budget it returns the initial `{0, []}` only when every cost is non-negative, and otherwise a combination whose negative total cost fits the budget can replace the record.
- Input validation and a size bound on the DP table: the code has neither, so the model has neither.
- Performance: the `O(n * W)` table and the exponential walk are modelled as algorithms, not measured.
