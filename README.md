# Spaceship rental: contract selection, modelled in Dafny

A single spaceship is rented out under contracts. Each contract has a name,
a start hour, a duration and a price. Once accepted, it occupies the ship
during the half-open interval `[start, start + duration)`. The repository
answers one question: which non-overlapping contracts earn the most?

The exact answer comes from two steps:

- **Pruning.** The caller's list is sorted in place by
  `(start, duration, -price)`. The sorted contracts are grouped by start
  into an ordered dictionary of duration-keyed ordered dictionaries. A
  contract is dropped when a contract with the same start pays at least as
  much for no longer. The survivors are then flattened in
  `(start, duration)` order.
- **Dynamic programming.** A sparse table maps time points to solutions.
  Each entry has finished by its time. It earns at least as much as every
  schedule of the contracts processed so far whose last contract ends at
  that time. At a frontier time (a distinct start hour, or the horizon,
  which is the latest end) it also earns at least as much as every such
  schedule that has finished by then. At other times it need not: a better
  schedule that ends earlier is only copied to frontier times. The pruned
  contracts are processed in order. A contract replaces the entry at its end only when
  `entry at its start + its price` is strictly larger. That improvement is
  then copied to every later frontier time holding less. Times that are not
  on the frontier receive no copies. The answer is the entry at the horizon.

A `Solution` is an income plus an ordered dictionary from start hour to
contract. `add_contract` returns a new copy, so a `Solution` is modelled as
a value (`datatype`). A `SlimSolution` (income plus contract names) is
changed in place by its `add_contract`, so it is modelled as a `class`. The
ordered dictionaries (`SortedDict`) are sequences of `(key, value)` pairs
with strictly ascending keys.

Files:

- `contract.dfy`: contracts, schedules and their total price.
- `sorted_dict.dfy`: the ordered dictionary and its operations.
- `solution.dfy`: `Solution`.
- `slim_solution.dfy`: `SlimSolution`.
- `contract_pruning.dfy`: the pruning service.
- `definite_selector.dfy`: the dynamic-programming selector and the resolver.

Main results:

- `ContractPruning.PruneContracts` sorts the array in place and returns
  contracts in strict `(start, duration)` order. Every returned contract is
  one of the inputs. Every input is dominated by a returned contract. No
  contract with the same start and duration pays more than the one kept.
  Within one start, prices strictly rise.
- `ContractPruning.PruningKeepsBest`: pruning never loses income.
- `DefiniteSelector.SelectContracts` returns a well-formed solution built
  from the caller's contracts. No schedule of those contracts earns more.

## Model

| member | source | states |
|---|---|---|
| Contracts.TotalPriceConcat | services/definite_solutions/definite_contract_selector_service.py:142-144 | the price of a concatenation of schedules is the sum of their prices, which is how a solution's income accumulates |
| Contracts.ScheduleHasNoOverlap | models/solution.py:23-56 | with positive durations, the contracts of a schedule pairwise share no hour |
| SortedDicts.BisectLeft | models/solution.py:39 | `bisect_left`: every key before the returned position is below the probe, and on sorted keys every key from it on is not |
| SortedDicts.GetOr | services/contract_pruning_service.py:91 | `get(k, default)` as a lookup at the `bisect_left` position; it has no contract of its own, and `GetOrSpec` states what it returns |
| SortedDicts.Put | models/solution.py:89 | `d[k] = v` as a replacement at, or an insertion before, the `bisect_left` position; it has no contract of its own, and `PutSpec` states its effect |
| SortedDicts.Pop | models/solution.py:110 | `d.pop(k)` as a removal at the `bisect_left` position; it has no contract of its own, and `PopSpec` states its effect |
| SortedDicts.GetOrSpec | services/contract_pruning_service.py:91 | `get(k, default)` returns the value stored under `k`, or the default when `k` is absent |
| SortedDicts.PutSpec | models/solution.py:89 | assigning `d[k] = v` keeps the keys ascending; the entries afterwards are the old ones without key `k`, plus `(k, v)` |
| SortedDicts.PopSpec | models/solution.py:110 | `pop(k)` keeps the keys ascending and removes exactly the entry under `k` |
| Solutions.Empty | models/solution.py:113-119 | `Solution.empty()` is empty and well formed |
| Solutions.IsEmpty | models/solution.py:121-126 | an empty solution has no accepted contracts and zero income |
| Solutions.HasOverlap | models/solution.py:23-56 | checking only the two key neighbours of `c.start`; an empty path never overlaps |
| Solutions.HasOverlapExact | models/solution.py:23-56 | on a consistent path with positive durations, `has_overlap` holds exactly when `c` shares an hour with some stored contract |
| Solutions.AddContract | models/solution.py:58-90 | `add_contract` requires `c.start` to be free, adds the price to the income, and never gives an empty solution |
| Solutions.AddContractEntries | models/solution.py:83-90 | the new path has exactly the old entries plus `c.start -> c`, still in key order |
| Solutions.AddContractKeepsWellFormed | models/solution.py:58-90 | adding a contract that does not overlap keeps each contract under its own start, keeps the contracts non-overlapping, and keeps income equal to the sum of prices |
| Solutions.AddContractAppends | models/solution.py:58-90 | a contract that starts after every stored contract ends is appended as the last entry |
| Solutions.RemoveContract | models/solution.py:103-111 | `remove_contract` as written: the income never changes, and an absent start leaves the solution as it was |
| Solutions.RemoveContractEntries | models/solution.py:108-110 | exactly the entry under `c.start` is dropped; the key order is kept |
| Solutions.RemoveContractBreaksIncome | models/solution.py:109 | removing the only contract (price 5) leaves income 5 with an empty path, which is no longer well formed |
| Solutions.RemoveContractCorrected | models/solution.py:103-111 | the corrected removal leaves the solution as it was when the start is absent |
| Solutions.RemoveContractCorrectedKeepsWellFormed | models/solution.py:103-111 | the corrected removal keeps a well-formed solution well formed and drops exactly the entry under `c.start` |
| Solutions.ToSlim | models/solution.py:128-132 | `to_slim` gives a fresh compact solution with the same income and the stored contracts' names in start order |
| SlimSolutions.SlimSolution.constructor | models/slim_solution.py:10-12 | sets income and path |
| SlimSolutions.SlimSolution.Empty | models/slim_solution.py:40-46 | `empty()` has income 0 and no names, so it is empty |
| SlimSolutions.SlimSolution.IsEmpty | models/slim_solution.py:48-53 | an empty compact solution lists no names and has zero income |
| SlimSolutions.SlimSolution.AddContract | models/slim_solution.py:14-38 | adds the price, appends the name, keeps the earlier names, and returns the receiver itself |
| ContractPruning.ShouldPruneDemo | services/contract_pruning_service.py:171-176 | the module's demonstration pair: a longer, cheaper contract does not dominate a shorter, dearer one, but is dominated by it |
| ContractPruning.ShouldPrune | services/contract_pruning_service.py:8-37 | a contract is only ever dominated by one with the same start that ends no later, and every contract dominates itself |
| ContractPruning.PruneOrderLe | services/contract_pruning_service.py:80 | the sort key orders by start, then by duration; an earlier start always comes first, and the order is reflexive |
| ContractPruning.SortForPruning | services/contract_pruning_service.py:80 | the sort leaves the array ordered by `(start, duration, -price)` and a permutation of its old contents |
| ContractPruning.Absorb | services/contract_pruning_service.py:91-149 | every branch of one loop pass either leaves the dictionary as it was or stores `c` under its duration in its start's group |
| ContractPruning.Flatten | services/contract_pruning_service.py:164-169 | the double loop over `items()` as a value; it has no contract of its own, and `FlattenShape` states its order while `FlattenGroups` is the loop proved equal to it |
| ContractPruning.AbsorbNewStart | services/contract_pruning_service.py:142-149 | a contract whose start has no group opens a new one-entry group after the existing ones |
| ContractPruning.AbsorbIntoLastGroup | services/contract_pruning_service.py:102-141 | a contract joining its start's group replaces the longest entry when it has the same duration and pays more; is added when it is longer and pays more; and is otherwise dropped |
| ContractPruning.FlattenShape | services/contract_pruning_service.py:164-169 | flattening the grouped dictionary yields contracts in strict `(start, duration)` order, no fewer than the number of groups |
| ContractPruning.AbsorbStep | services/contract_pruning_service.py:83-149 | one loop iteration keeps the dictionary grouped by start and by duration, and keeps its flattening pruned with respect to the contracts seen so far |
| ContractPruning.GroupSorted | services/contract_pruning_service.py:83-149 | on sorted input the loop builds a grouped dictionary whose flattening is pruned with respect to the whole input |
| ContractPruning.FlattenGroups | services/contract_pruning_service.py:164-169 | the nested flattening loop returns exactly the flattening of the dictionary |
| ContractPruning.PruneSorted | services/contract_pruning_service.py:83-169 | on sorted input: strict `(start, duration)` order, kept contracts are inputs, every input is dominated by a kept one, a kept contract is the dearest for its pair, prices rise within a start |
| ContractPruning.PruneContracts | services/contract_pruning_service.py:39-169 | the caller's array is sorted in place as a permutation, and the result has the properties of `PruneSorted` with respect to it |
| ContractPruning.Substitute | services/contract_pruning_service.py:8-37 | every contract of a schedule can be swapped for a kept contract that dominates it |
| ContractPruning.PruningKeepsBest | services/contract_pruning_service.py:8-37 | after the swap the schedule is still a schedule, uses only kept contracts, and earns at least as much |
| DefiniteSelector.InsertDistinct | services/definite_solutions/definite_contract_selector_service.py:114-116 | inserting into an ascending list of distinct hours keeps it so and adds exactly the new hour |
| DefiniteSelector.DistinctStarts | services/definite_solutions/definite_contract_selector_service.py:114-116 | `sorted(set(starts))` is strictly ascending and holds exactly the start hours of the contracts |
| DefiniteSelector.Horizon | services/definite_solutions/definite_contract_selector_service.py:93-95 | the horizon is the end of some contract and no contract ends later |
| DefiniteSelector.At | services/definite_solutions/definite_contract_selector_service.py:130-132 | `dp.get(t, Solution.empty())`: the stored entry when `t` is a key, otherwise an empty, well-formed solution |
| DefiniteSelector.FrontierAscending | services/definite_solutions/definite_contract_selector_service.py:114-122 | with positive durations, the start hours followed by the horizon are strictly ascending |
| DefiniteSelector.Spread | services/definite_solutions/definite_contract_selector_service.py:175-193 | the propagation loop as a value, in frontier order; it has no contract of its own, and `SpreadAt` states what it leaves at each time point |
| DefiniteSelector.SpreadAt | services/definite_solutions/definite_contract_selector_service.py:175-193 | propagation leaves the new solution exactly at the frontier times after the end whose entry held strictly less, and every other entry as it was |
| DefiniteSelector.SpreadBelow | services/definite_solutions/definite_contract_selector_service.py:167-180 | frontier times before the `bisect_left` position are skipped, so starting there changes nothing |
| DefiniteSelector.RelaxSpec | services/definite_solutions/definite_contract_selector_service.py:128-193 | one main-loop pass as a value; it requires `add_contract`'s assertion only when the contract improves the end entry; it has no contract of its own, and `RelaxAt`, `RelaxGrows` and `RelaxWrites` state its effect |
| DefiniteSelector.Relax | services/definite_solutions/definite_contract_selector_service.py:128-193 | one iteration of the main loop, including the propagation loop from the `bisect_left` position, computes exactly `RelaxSpec` |
| DefiniteSelector.RelaxAt | services/definite_solutions/definite_contract_selector_service.py:129-193 | on a strict improvement the end slot and the improved frontier slots hold `dp[start]` plus the contract; on a tie or a loss the table is unchanged |
| DefiniteSelector.RelaxGrows | services/definite_solutions/definite_contract_selector_service.py:146-193 | no entry's income ever drops, and the entry at the end reaches at least `dp[start].income + price` |
| DefiniteSelector.RelaxWrites | services/definite_solutions/definite_contract_selector_service.py:146-193 | a tie keeps the earlier table; otherwise only the end slot and later frontier slots that held strictly less are written, all with the new solution |
| DefiniteSelector.ExtendSlot | models/solution.py:83-85 | extending the entry at a contract's start by that contract meets `add_contract`'s assertion, and the result is well formed, uses pool contracts, and has finished by the contract's end |
| DefiniteSelector.StepKeepsTable | services/definite_solutions/definite_contract_selector_service.py:139-193 | every entry stays a well-formed, non-negative solution from the pruned contracts that has finished by its time |
| DefiniteSelector.StepKeepsMonotone | services/definite_solutions/definite_contract_selector_service.py:175-193 | after each iteration no entry holds more than any later frontier time |
| DefiniteSelector.BoundEndingWith | services/definite_solutions/definite_contract_selector_service.py:139-146 | a schedule ending with the contract just processed earns at most `dp[start].income + price` |
| DefiniteSelector.AvoidsLatest | services/definite_solutions/definite_contract_selector_service.py:128 | processing contracts by start means a schedule that does not end with the latest contract uses only earlier ones |
| DefiniteSelector.StepKeepsBounded | services/definite_solutions/definite_contract_selector_service.py:128-193 | after processing a contract, every schedule of the processed contracts earns at most the entry at its last end |
| DefiniteSelector.StepKeepsInvariant | services/definite_solutions/definite_contract_selector_service.py:128-193 | one iteration keeps all three table invariants and meets `add_contract`'s assertion |
| DefiniteSelector.HorizonIsBest | services/definite_solutions/definite_contract_selector_service.py:199 | once every contract is processed, no schedule earns more than the entry at the horizon |
| DefiniteSelector.SelectFromPruned | services/definite_solutions/definite_contract_selector_service.py:85-199 | the dynamic program returns a well-formed, non-negative solution from the pruned contracts that no schedule of them beats |
| DefiniteSelector.SelectContracts | services/definite_solutions/definite_contract_selector_service.py:45-199 | empty input gives the empty solution; otherwise the array is permuted in place and left sorted by `(start, duration, -price)`, and the result is well formed, from the caller's contracts, and no schedule of them earns more |
| DefiniteSelector.ResolveOptimizeContracts | resolvers/resolvers.py:8-12 | the array is permuted in place and left sorted by `(start, duration, -price)`; the compact answer's income is earned by a schedule of the caller's contracts whose names it lists in order, and no schedule earns more |

## Left out

- The Flask POST route `/spaceship/optimize` in `main.py`, which parses the JSON body into contracts and serialises the answer, and the server startup: these are I/O.
- The abstract `ContractSelectorService` interface: the only implementation is modelled directly.
- `Solution.choose_random_contract`: it depends on randomness, and the exact selector never calls it.
- pydantic validation, `copy()` and `copy(deep=True)`: `Solution` is a value, so every copy is independent, as the deep copies in the source intend. Aliasing between entries of the table is not modelled.
- Solutions.RemoveContract: modelled as a function returning the new value. The source mutates the receiver in place and returns it; that aliasing is not captured.
- SortedDicts: the balanced-tree implementation and its logarithmic costs are not modelled, and neither are the complexity claims in the docstrings.
- ContractPruning.SortForPruning: an insertion sort stands in for Python's `list.sort`. The result is ordered by the same key and is a permutation, but stability among contracts with equal keys is not stated.
- DefiniteSelector.SelectContracts and DefiniteSelector.ResolveOptimizeContracts require every duration to be positive. The source does not validate durations. With a zero or negative duration, "finished by" stops being an order, and the `add_contract` assertion can fail.
- ContractPruning.AbsorbSameStart: the source's branch that replaces a kept contract by a dearer one with the same start and duration (services/contract_pruning_service.py:102-107) is unreachable after the sort, because the dearest contract of each pair comes first. The model keeps the branch in `Absorb` and proves that it never fires on sorted input.
- Contracts: integers are unbounded, as they are in Python.

## Findings

| source | as written | input that shows it | evidently intended | confidence | as-written member | corrected member |
|---|---|---|---|---|---|---|
| models/solution.py:109 | `self.income + contract.price` computes a value and discards it, so removing a contract leaves the income unchanged | a solution holding only `Contract1` (start 0, duration 1, price 5): after `remove_contract` the path is empty but the income is still 5 | subtract the removed contract's price from the income | not executed | Solutions.RemoveContractBreaksIncome | Solutions.RemoveContractCorrectedKeepsWellFormed |
