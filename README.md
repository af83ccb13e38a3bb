# Economic algorithms, modelled and verified in Dafny

This project models the exact, sequential parts of a set of small exercises in
economic algorithms, with Dafny `real` (exact rationals) in place of Python
floats:

- **Envy-graph rent pricing** (`week-4/q5.py`). The rooms are already
  allocated, one room per player. The pricer builds the complete directed envy
  graph. Each player gets a grant equal to the heaviest envy path that starts
  from it. Each price is minus the grant, and then all prices are shifted by
  one common amount so that they add up to the rent. The heaviest paths are
  computed here by Bellman-Ford relaxation over the envy graph (module
  `EnvyPaths`), in place of the library routine the original calls. The grants
  are proved to be the weights of the heaviest walks. The prices are proved to
  be budget balanced and envy-free. Envy-freeness is the inequality the linear
  program of `week-4/q6/q6a.py:72-73` imposes. A further lemma shows that a
  welfare-maximising allocation has no envy cycle of positive weight, so the
  heaviest paths exist for it (module `EnvyWelfare`).
- **One step of the Method of Equal Shares** (`week-7/q4.py`). The step pools
  the balances of each item's supporters. It elects the item that needs the
  smallest equal top-up per supporter, the first such item in cost-list order.
  Then it updates the balances array in place (module `EqualShares`).
- **Phantom-median participatory budgeting** (`week-9/q5a.py`,
  `week-9/q5b.py`). The phantom votes are `c * min(1, i * t)`. Each subject gets
  the median of the phantom votes plus the real votes. One bisection step on
  `t` is modelled, and so is the exact search: collect the breakpoints, sort
  them, binary-search them, and interpolate linearly (modules `PhantomMedians`,
  `BreakpointBudget`).
- **Shapley cost sharing** (`week-10/`). This covers the closed-form Shapley
  value of the airport game, with its efficiency and order properties (module
  `AirportGame`). It also covers the permutation-sampling estimate, in both of
  its cost modes (modules `ShapleySampling`, `ShapleyValues`). The random
  shuffles are replaced by a given sequence of permutations. Efficiency of the
  estimate is then a theorem about every such sequence.

`airport_efficient` occurs twice in the repository, at `week-10/airport.py:7-18`
and `week-10/random_shapley.py:65-76`, with the same code. Both are modelled by
`AirportGame.AirportEfficient`. The `values` of `week-10/random_shapley.py` is
`ShapleySampling.Values`: its `cost_by_max` flag becomes the choice between the
`BySubset` and `ByMax` cost models. The `values` of `week-10/shapley.py` is that
same routine with string players and string keys (`ShapleyValues.Values`).

Python's `list.sort`/`sorted` are modelled by a verified stable insertion sort
by key (`Sorting.SortBy`). Python dictionaries are modelled by Dafny maps. Where
their iteration order matters, it is given as a sequence (the cost list of the
equal-shares step, the players of a cost table). Every run on which the original
raises an exception ends in an explicit outcome of a result datatype, unless a
precondition excludes it (see "Left out").

Source files: `week-4/q5.py`, `week-7/q4.py`, `week-9/q5a.py`,
`week-9/q5b.py`, `week-10/airport.py`, `week-10/shapley.py`,
`week-10/random_shapley.py`. Dafny files: `sums.dfy`, `sorting.dfy`,
`ledger.dfy` (shared helpers), `envy_paths.dfy`, `envy_pricing.dfy`,
`envy_welfare.dfy`, `equal_shares.dfy`, `phantom_medians.dfy`,
`breakpoint_budget.dfy`, `airport.dfy`, `shapley_sampling.dfy`,
`shapley_values.dfy`.

## Model

| member | source | states |
|---|---|---|
| `EnvyPricing.BuildEnvyGraph` | week-4/q5.py:41-49 | Adding both directed edges for every unordered pair gives exactly one edge i→j per ordered pair of distinct players, weighted `v[i][x[j]] - v[i][x[i]]`, and no other edge |
| `EnvyPricing.AddRow` | week-4/q5.py:43-49 | The inner pair loop for player i adds both edges of every pair (i, j) with j > i, each weighted by its tail's envy of its head, and no other edge |
| `EnvyPricing.EnvyGraphNodes` | week-4/q5.py:41-49 | With n ≥ 2 players, the nodes of the envy graph are exactly the players 0..n-1 |
| `EnvyPricing.SinglePlayerUnpriced` | week-4/q5.py:43-58 | As written: with one player no pair is formed, so the envy graph has no node and player 0 gets no price |
| `EnvyPricing.SinglePlayerNoCycle` | week-4/q5.py:41-54 | The envy graph of one player has no cycle, so its heaviest paths exist |
| `EnvyPricing.SinglePlayerPricing` | week-4/q5.py:55-66 | Corrected: a lone player is priced at the whole rent |
| `EnvyPaths.Grants` | week-4/q5.py:52-58 | Every grant is ≥ 0, because the walk that stays at the player (distance 0) is included in the max |
| `EnvyPaths.RelaxBounds` | week-4/q5.py:52-58 | One relaxation step is ≥ 0 and ≥ every candidate `envy(i,j) + prev[j]` |
| `EnvyPaths.GrantIsHeaviestWalk` | week-4/q5.py:52-58 | After k relaxation rounds, player i's value is the weight of a heaviest walk from i with at most k edges: some walk attains it and none exceeds it |
| `EnvyPaths.GrantsMonotone` | week-4/q5.py:52-58 | One more relaxation round never lowers a grant |
| `EnvyPaths.StableCovers` | week-4/q5.py:52-58 | When an extra round improves nothing, `grant[i] ≥ envy(i,j) + grant[j]` for every edge |
| `EnvyPaths.StableIffNoPositiveCycle` | week-4/q5.py:52-54 | The extra relaxation round improves nothing exactly when no simple envy cycle has positive weight, the condition on which the shortest-path routine does not raise |
| `EnvyPricing.RelaxRound` | week-4/q5.py:52-54 | The loop computes one relaxation round over all players |
| `EnvyPricing.HeaviestEnvyPaths` | week-4/q5.py:52-58 | Returns the grants after n-1 rounds, and reports them bounded exactly when there is no positive envy cycle |
| `EnvyPricing.GrantsTriangle` | week-4/q5.py:52-58 | Heaviest-path triangle: `grant[i] ≥ envy(i,j) + grant[j]` for all i ≠ j when no envy cycle is positive |
| `EnvyPricing.GrantPricing` | week-4/q5.py:55-66 | Every price is `-grant[i] + (Σ grants + rent)/n`, and the prices sum to the rent |
| `EnvyPricing.ShiftedGrantsBalanced` | week-4/q5.py:62-66 | Budget balance: minus the grants, shifted by `(Σ grants + rent)/n`, sum to the rent |
| `EnvyPricing.GrantPricesEnvyFree` | week-4/q5.py:34-66 | Minus the grants plus any common shift is envy-free: `v[i][x[i]] - p[i] ≥ v[i][x[j]] - p[j]` for all i, j (the constraint of week-4/q6/q6a.py:72-73) |
| `EnvyPricing.UniformShiftKeepsEnvyFree` | week-4/q5.py:64-66 | Shifting every price by one constant neither creates nor removes envy |
| `EnvyPricing.EnvyFreeRoomPricing` | week-4/q5.py:34-66 | Without players there is no pricing. It reports unbounded envy exactly when an envy cycle is positive. Otherwise the prices are `-grant[i] + (Σ grants + rent)/n`, sum to the rent and are envy-free |
| `EnvyPricing.DemoGrants` | week-4/q5.py:70-72 | In that instance the heaviest envy paths grant 0 and 130 and no envy cycle is positive |
| `EnvyPricing.DemoPricing` | week-4/q5.py:70-72 | The instance `[[150,0],[140,10]]`, rent 130, rooms {0:0, 1:1} is priced 130 and 0 |
| `EnvyWelfare.WelfareUpdate` | week-4/q5.py:16-32 | Giving one player another room changes the total value by that player's value difference |
| `EnvyWelfare.RotateIsAllocation` | week-4/q5.py:16-32 | Passing rooms one step along a simple envy cycle gives again a bijection of players to rooms |
| `EnvyWelfare.RotateWelfare` | week-4/q5.py:16-32 | Passing rooms along a simple envy cycle raises the total value by exactly the weight of the cycle |
| `EnvyWelfare.MaxWelfareNoPositiveCycle` | week-4/q5.py:25-54 | If the allocation maximises total value (what the maximum-weight matching computes), no envy cycle has positive weight, so the heaviest paths exist |
| `EqualShares.Count` | week-7/q4.py:6-12 | An item's number of supporters is at most the number of citizens |
| `EqualShares.CountPositive` | week-7/q4.py:6-12 | An item has a supporter count (a key in the table) exactly when some citizen votes for it |
| `EqualShares.Aggregate` | week-7/q4.py:6-12 | The tables hold, for exactly the items someone votes for, the supporters' balance sum and their count |
| `EqualShares.AddCitizen` | week-7/q4.py:9-12 | Going over one citizen's supported items adds one supporter and that citizen's balance to each of their items' entries |
| `EqualShares.PooledShift` | week-7/q4.py:25-27 | Giving every citizen d more raises an item's pooled balance by d per supporter |
| `EqualShares.TopUpCoversCost` | week-7/q4.py:14-21 | After the top-up the item's supporters hold exactly its cost: `pooled + count * needed == cost` |
| `EqualShares.SelectItem` | week-7/q4.py:14-21 | No items and an unsupported item are the two failures. Otherwise the chosen item needs the least top-up, every earlier item in the cost list needs strictly more, and the reported top-up is its need |
| `EqualShares.AfterTopUp` | week-7/q4.py:25-29 | The balances keep their length |
| `EqualShares.SupportersSpent` | week-7/q4.py:26-29 | After the step, the supporters of the elected item hold nothing |
| `EqualShares.TopUp` | week-7/q4.py:25-29 | Supporters of the chosen item end at 0, everyone else gains exactly the top-up, in place |
| `EqualShares.ElectNextBudgetItem` | week-7/q4.py:1-29 | The failures leave the balances untouched. A success elects the first cheapest item and sets the balances to supporters 0 and everyone else old balance plus the top-up |
| `EqualShares.DemoElection` | week-7/q4.py:33-44 | The demonstration elects "a" with top-up 1/4, leaving only citizen 1 with 1/4 |
| `PhantomMedians.FBounds` | week-9/q5a.py:7-8 | For `c ≥ 0`, `t ≥ 0`, `i ≥ 0`: `0 ≤ f(i,t,c) ≤ c` |
| `PhantomMedians.FMonotone` | week-9/q5a.py:7-8 | `f` is non-decreasing in both `i` and `t` |
| `PhantomMedians.AllFSorted` | week-9/q5a.py:11-12 | `all_f(k,t,c)` has k entries (none for k < 0), sorted and within [0, c] |
| `PhantomMedians.AllFMonotone` | week-9/q5a.py:11-12 | Every phantom vote grows with t |
| `PhantomMedians.Width` | week-9/q5a.py:48 | zip stops at the shortest ballot: the width is the length of some ballot and at most every ballot's length |
| `PhantomMedians.Transpose` | week-9/q5a.py:48 | One row per subject: `subjects[s][c] == ballots[c][s]` for every subject within the width and every citizen |
| `PhantomMedians.TransposeTwice` | week-9/q5a.py:48 | Transposing a rectangular table twice gives it back |
| `PhantomMedians.MedianRank` | week-9/q5a.py:20-24 | The median is one of the values; at least `len//2 + 1` values are ≤ it and at least `len - len//2` are ≥ it |
| `PhantomMedians.MedianOfSorted` | week-9/q5a.py:20-24 | Any sorted rearrangement of the values has the median at index `len//2` |
| `PhantomMedians.MedianMonotone` | week-9/q5a.py:20-24 | Raising values pointwise cannot lower the median |
| `PhantomMedians.MedianBetween` | week-9/q5a.py:20-23 | When two lists never order two entries oppositely, the median of a pointwise blend of them is the same blend of their medians |
| `PhantomMedians.SumBetween` | week-9/q5b.py:46 | The sum of a pointwise blend of two lists is the same blend of their sums |
| `PhantomMedians.Medians` | week-9/q5a.py:15-25 | One median per subject |
| `PhantomMedians.MediansMonotone` | week-9/q5a.py:15-25 | A larger t never lowers any subject's median, nor their total |
| `PhantomMedians.ComputeMedians` | week-9/q5a.py:15-25 | The loop returns, in subject order, the median of phantom votes plus that subject's votes; the inputs are only read |
| `PhantomMedians.BisectionStep` | week-9/q5a.py:51-63 | One iteration stops exactly when the midpoint's total is close to the budget. Otherwise it halves the interval toward the side that keeps the budget bracketed |
| `PhantomMedians.DemoSubjects` | week-9/q5a.py:41-48 | The documented ballots transpose to `[[100,0],[0,0],[0,100]]` |
| `PhantomMedians.DemoMedians` | week-9/q5a.py:41-42 | At t = 1/2 the documented ballots get medians `[50, 0, 50]` |
| `PhantomMedians.DemoBisection` | week-9/q5a.py:40-59 | The documented example stops at the first midpoint with `[50, 0, 50]` |
| `BreakpointBudget.ComputeBreakpoints` | week-9/q5b.py:7-17 | The result is exactly 0, 1, and `1/i` and `v/(B*i)` for every vote v and phantom index i |
| `BreakpointBudget.AddVote` | week-9/q5b.py:14-16 | The inner loop adds both values for every phantom index of one vote, and only breakpoints |
| `BreakpointBudget.HasLeast` | week-9/q5b.py:34 | A finite non-empty set of numbers has a least element |
| `BreakpointBudget.SortedElements` | week-9/q5b.py:34 | The sorted breakpoints are strictly increasing and hold exactly the set's elements |
| `BreakpointBudget.EvaluateAt` | week-9/q5b.py:44-46 | The medians at t and their total |
| `BreakpointBudget.SearchBreakpoints` | week-9/q5b.py:36-57 | The search terminates with one of three results. (1) A breakpoint whose total is exactly the budget. (2) Two neighbouring breakpoints whose totals are below and above the budget. (3) The unassigned-bound case, which needs the first total above the budget or the last one below it |
| `BreakpointBudget.Interpolate` | week-9/q5b.py:59-63 | The interpolated t lies strictly between the bounds, on the line through (tLower, lowerSum) and (tUpper, upperSum) at height budget |
| `BreakpointBudget.InterpolationLine` | week-9/q5b.py:61-63 | The slope is positive and `slope * t + bias == budget` |
| `BreakpointBudget.SortedAdjacent` | week-9/q5b.py:34-57 | Neighbours in the sorted list are breakpoints with no breakpoint between them |
| `BreakpointBudget.SortedExtreme` | week-9/q5b.py:34-38 | The first and last sorted breakpoints are the least and greatest |
| `BreakpointBudget.BudgetFor` | week-9/q5b.py:33-69 | Returns medians at a breakpoint that meets the budget exactly, or medians at the interpolated t between adjacent breakpoints that bracket it, or the missing-bound failure. Either kind of allocation adds up to the budget |
| `BreakpointBudget.ComputeBudget` | week-9/q5b.py:20-69 | Also fails with no subject and with a zero budget that is divided by. A success has one amount per subject, comes from an exact breakpoint or from interpolation between adjacent breakpoints, and its medians add up to the budget, as the docstring promises |
| `BreakpointBudget.FBetween` | week-9/q5a.py:7-8 | With no kink `1/i` strictly between two times, phantom i moves along a straight line between them |
| `BreakpointBudget.PhantomPairOrder` | week-9/q5a.py:11-12 | Two phantom votes keep their order between two times on the same side of 0 |
| `BreakpointBudget.PhantomVoteOrder` | week-9/q5b.py:14-16 | A phantom and a real vote keep their order between two times when neither the kink `1/i` nor the meeting point `v/(c*i)` lies strictly between them |
| `BreakpointBudget.VotesSameOrder` | week-9/q5b.py:10-17 | Between adjacent breakpoints no two of a subject's phantom and real votes change order |
| `BreakpointBudget.MediansBetween` | week-9/q5b.py:60 | Between adjacent breakpoints every subject's median is linear in t |
| `BreakpointBudget.TotalBetween` | week-9/q5b.py:60 | Between adjacent breakpoints the total of the medians is linear in t |
| `BreakpointBudget.InterpolatedTotal` | week-9/q5b.py:60-69 | At the interpolated t between adjacent bracketing breakpoints the medians add up exactly to the budget |
| `BreakpointBudget.DemoBreakpoints` | week-9/q5b.py:29-31 | For the documented ballots and budget 100 the breakpoints are 0 and 1 only |
| `BreakpointBudget.DemoBudget` | week-9/q5b.py:29-31 | The documented example returns `[50, 0, 50]` |
| `AirportGame.Ranked` | week-10/airport.py:8 | The players sorted by cost: cost-ordered and a rearrangement of the players |
| `AirportGame.ShareBalance` | week-10/airport.py:10-16 | After the m cheapest shares, the remaining players each owing the m-th share would pay exactly the m-th cost |
| `AirportGame.ShareEfficiency` | week-10/airport.py:10-16 | The shares of cost-sorted players sum to the largest cost |
| `AirportGame.SharesMonotone` | week-10/airport.py:12-16 | Shares are non-decreasing along cost order |
| `AirportGame.EqualCostsEqualShares` | week-10/airport.py:12-16 | Equal costs give equal shares |
| `AirportGame.RankedCostsSorted` | week-10/airport.py:8 | The costs along the sorted order are non-decreasing |
| `AirportGame.ShareOut` | week-10/airport.py:10-16 | The loop enters each sorted player's share into the dictionary |
| `AirportGame.ShareMapFilled` | week-10/airport.py:10-16 | The dictionary's keys are exactly the players entered, each with its own share |
| `AirportGame.AirportEfficient` | week-10/airport.py:7-18 | Needs a non-empty cost table. The result's keys are exactly the players, and the k-th cheapest gets the k-th share (also random_shapley.py:65-76) |
| `AirportGame.AirportOrdered` | week-10/airport.py:7-18 | A player with a cost at most another's pays at most as much; equal costs pay equally |
| `AirportGame.AirportCheapest` | week-10/airport.py:8-10 | The cheapest player pays its cost divided by the number of players |
| `AirportGame.AirportEfficiency` | week-10/airport.py:7-18 | Efficiency: the shares sum to the largest cost |
| `AirportGame.MaxPath` | week-10/airport.py:40-45 | The running cost starts at 0 and each arrival takes the maximum of it and the newcomer's cost |
| `AirportGame.MaxMarginals` | week-10/airport.py:40-45 | Every marginal cost is ≥ 0 and they sum to the final running cost, which is `max(0, max cost)` |
| `AirportGame.MaxPathSameMembers` | week-10/airport.py:36-45 | The total handed out in one permutation does not depend on the arrival order |
| `AirportGame.ChargeByMax` | week-10/airport.py:39-45 | The loop credits every player with its marginal increase of the running maximum |
| `Ledger.Credit` | week-10/shapley.py:22 | After crediting, the last credited player has an entry |
| `Ledger.CreditKeys` | week-10/shapley.py:22 | Crediting adds exactly the credited players as keys (`res.get(p, 0)`) |
| `Ledger.CreditAt` | week-10/shapley.py:22 | With no player credited twice, each gets exactly its own marginal |
| `Ledger.SumOverCredit` | week-10/shapley.py:16-24 | Crediting the players adds the credited amounts to their total |
| `Ledger.SumOverPermutation` | week-10/shapley.py:26-27 | A total over the players does not depend on their order |
| `Ledger.Average` | week-10/shapley.py:26-27 | Averaging keeps the keys and divides every entry by the number of permutations |
| `Ledger.SumOverAverage` | week-10/shapley.py:26-27 | Averaging divides the total by the number of permutations |
| `Ledger.StepsSum` | week-10/shapley.py:16-24 | The marginals of a run telescope to its final cost minus its initial cost |
| `ShapleySampling.Arranged` | week-10/random_shapley.py:20-21 | The member list has one entry per arrived player |
| `ShapleySampling.ArrangedCorrect` | week-10/random_shapley.py:20-21 | Appending and re-sorting keeps the member list a sorted arrangement of the arrived players |
| `ShapleySampling.ArrivalOrderIrrelevant` | week-10/shapley.py:18-20 | The lookup key is the sorted coalition whatever order its members arrived in |
| `ShapleySampling.CostPath` | week-10/random_shapley.py:16-29 | The running costs start at 0 and have one entry per arrival |
| `ShapleySampling.WalkCredits` | week-10/random_shapley.py:16-29 | A permutation fails exactly when a lookup fails. Otherwise each player is credited with the increase of the running cost at its arrival |
| `ShapleySampling.WalkFails` | week-10/random_shapley.py:16-29 | A lookup failing on a prefix fails the whole permutation |
| `ShapleySampling.TallyFails` | week-10/random_shapley.py:12-29 | A failing permutation fails the whole run |
| `ShapleySampling.ChargePermutation` | week-10/random_shapley.py:16-29 | The inner loop computes one permutation's credits, or the missing-key failure |
| `ShapleySampling.MaxCostDefined` | week-10/random_shapley.py:23-24 | In max mode a permutation is priced exactly when every player has a cost |
| `ShapleySampling.MaxCostPath` | week-10/random_shapley.py:23-24 | In max mode the running costs are the running maximum of the players' costs |
| `ShapleySampling.SubsetCostDefined` | week-10/random_shapley.py:19-22 | In table mode a permutation is priced exactly when every sorted prefix coalition has an entry |
| `ShapleySampling.SubsetFinalCost` | week-10/random_shapley.py:19-22 | In table mode a permutation ends at the cost of its whole sorted coalition |
| `ShapleySampling.TallyKeys` | week-10/random_shapley.py:11-33 | The result's keys are exactly the players once a permutation ran, and none for zero permutations |
| `ShapleySampling.TallyDefined` | week-10/random_shapley.py:12-29 | The run succeeds exactly when every permutation finds all its costs |
| `ShapleySampling.ChargeTotal` | week-10/random_shapley.py:16-29 | One permutation adds its final running cost to the players' total |
| `ShapleySampling.TallyTotal` | week-10/random_shapley.py:12-29 | Summed over the players, the tally is the sum of the permutations' final costs |
| `ShapleySampling.EstimateTotal` | week-10/random_shapley.py:11-35 | When every permutation ends at the same total, the averaged values sum to it |
| `ShapleySampling.SubsetFinals` | week-10/random_shapley.py:18-29 | In table mode every permutation ends at the grand coalition's cost |
| `ShapleySampling.SubsetEfficiency` | week-10/random_shapley.py:11-35 | Efficiency in table mode: for at least one permutation the averaged values sum to the grand coalition's cost |
| `ShapleySampling.MaxFinals` | week-10/random_shapley.py:23-29 | In max mode every permutation ends at `max(0, max cost)` |
| `ShapleySampling.MaxEfficiency` | week-10/random_shapley.py:11-35 | Efficiency in max mode: the averaged values sum to `max(0, max cost)` |
| `ShapleySampling.Mean` | week-10/random_shapley.py:31-33 | The averaging loop divides every entry by the number of permutations |
| `ShapleySampling.Values` | week-10/random_shapley.py:8-35 | The whole estimate over the given permutations, in either cost mode. With no permutations it is empty and nothing is divided |
| `ShapleySampling.IsCloseMeans` | week-10/random_shapley.py:38-41 | `is_close` holds exactly when every player checked has an estimate within `tol * truth` |
| `ShapleySampling.IsCloseAll` | week-10/random_shapley.py:38-41 | When the players checked are exactly those of the true values, `is_close` holds exactly when every one of them has an estimate within `tol * truth`. The default tolerance 0.01 is `DefaultTolerance` |
| `ShapleySampling.IsCloseStops` | week-10/random_shapley.py:38-41 | A false answer names a player that is too far off. A missing-key failure names a player with no estimate |
| `ShapleySampling.IsCloseReflexive` | week-10/random_shapley.py:38-41 | With non-negative true values and tolerance, the true values are close to themselves |
| `ShapleyValues.CharRankInjective` | week-10/shapley.py:18-20 | Characters sort by code point, which tells different characters apart |
| `ShapleyValues.Values` | week-10/shapley.py:7-28 | The string-keyed estimate is the table-mode estimate with characters ranked by code point |
| `ShapleyValues.Efficiency` | week-10/shapley.py:11-28 | With distinct players and at least one permutation, the averaged values sum to the cost of the sorted player string |
| `Sorting.SortByCorrect` | week-9/q5a.py:21 | The sort is ordered by key and a rearrangement of its input |
| `Sorting.SortedUnique` | week-9/q5a.py:21 | Two sorted arrangements of the same elements coincide when the key tells elements apart |
| `Sorting.OrderStatistic` | week-9/q5a.py:23 | In a sorted list the element at index h has ≥ h+1 elements ≤ it and ≥ len-h elements ≥ it |

## Left out

- The room allocation itself (`allocate_rooms`, a maximum-weight matching computed by a graph library) is not modelled. The allocation is an input, required to be a bijection of players to rooms. The library routine does not insist on a perfect matching, so for some valuations the original may leave a player without a room and fail. That case lies outside this model.
- The linear-programming pricers and allocators (`week-4/q6/`, `week-6/`, `week-2/egalit.py`) are thin wrappers over an external solver and are not part of this model. Only their envy-freeness inequality is reused, as `EnvyPricing.EnvyFree`.
- `week-4/q3.py` only prints a formula and is not part of this model.
- Random permutations (`random.shuffle`, `random.seed`, `random.randint`) are not modelled: the permutations are an input sequence, each a rearrangement of the players.
- The `research`, `section_b` and `section_c` drivers loop until a random estimate is close enough, and may not terminate. They are not modelled. The per-permutation loop of `research` in `week-10/airport.py` is modelled as `AirportGame.ChargeByMax`.
- The bisection of `week-9/q5a.py` compares with `math.isclose` on floats and need not terminate on exact numbers. Only one step of it is modelled (`PhantomMedians.BisectionStep`).
- Floating-point rounding is not modelled: all arithmetic is exact. `math.isclose` is modelled with its default relative tolerance of 1e-9 and absolute tolerance 0.
- Logging, `print`, the `summary` text, doctest and `__main__` drivers are not modelled. The demonstration inputs and documented examples are stated as `Demo…` members.
- `EqualShares.ElectNextBudgetItem`: requires as many balances as ballots. With fewer balances the original fails while pooling. With more, it fails in the update loop after updating some balances.
- `PhantomMedians.ComputeMedians`: requires at least one subject, and a non-empty list to take each median of. The original fails on these inputs by indexing an empty list. `BreakpointBudget.ComputeBudget` reports the no-subject case as an outcome instead.
- `AirportGame.AirportEfficient`: requires a non-empty cost table. On an empty one the original raises IndexError at `players[0]` (`week-10/airport.py:10`, `week-10/random_shapley.py:68`).
- Dictionaries whose iteration order matters are given as sequences (the cost list, the players of a cost table). Their keys are assumed distinct where the original's dictionary guarantees it.

## Findings

| source | as written | input that shows it | evidently intended | confidence | as-written member | corrected member |
|---|---|---|---|---|---|---|
| week-4/q5.py:43-66 | Prices are assigned only to the nodes of the envy graph, and a node exists only if it is part of some pair | One player: the graph has no node, `pricing` stays empty, and the summary fails looking up player 0's price | A lone player pays the whole rent | not executed; follows from the loop structure | `EnvyPricing.SinglePlayerUnpriced` | `EnvyPricing.SinglePlayerPricing` |
