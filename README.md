# A verified model of a two-objective Pareto genetic algorithm and its selection policies

This project models the algorithmic core of a small evolutionary optimiser written in Python.

- `GeneticAlgorith/src/task1.py` evolves individuals `[x1, x2]` with `x1` in [1, 4] and `x2` in [1, 2].
  It minimises two objectives, `f1 = x1²/4` and `f2 = x1·(1 − x2) + 5`.
  Each generation works in four steps:
  1. it takes the Pareto front of the population;
  2. it draws `pop_size` parents from the front with replacement;
  3. it either blends each consecutive pair of parents or passes the pair through;
  4. it mutates at most one gene of each child, in place.
- `GeneticAlgorith/src/selection.py` holds five selection policies over a population and its fitness values: roulette, tournament, rank, truncation and elite.

Every random draw is an explicit parameter. A predicate states the draw's range: `r ∈ [0, 1)` for `random.random()`, `[1, 4]` or `[1, 2]` for `random.uniform`, `{0, 1}` for `random.randint(0, 1)`, and distinct positions for `random.sample`.

`random.choice(front)` is modelled as a draw `u ∈ [0, 1)` that picks index `⌊u·|front|⌋`. `ChoiceIndexReachesEvery` shows that every index can be picked this way. Under this choice, the valid draws for a generation do not depend on the population.

Genes and fitness values are `real`.

Files and modules:

- `objectives.dfy` (`Objectives`): individuals, `Evaluate`, dominance.
- `front.dfy` (`Front`):
  - `ParetoFront`, the specification: the members that no member dominates, in their original order;
  - `ParetoSort`, the nested loop with its `dominated` flag and `break`, proved equal to `ParetoFront`.
- `variation.dfy` (`Variation`):
  - blend crossover;
  - mutation, as the in-place method `Mutate` on an `array<real>` and its specification function `Mutated`.
- `evolution.dfy` (`Evolution`): `init_population`, `select` and the loops of `main`, as methods. Each method is proved against a specification function (`InitialPopulation`, `Picks`, `Recombined`, `MutatedAll`, `NextGeneration`, `Run`).
- `sorting.dfy` (`StableSort`):
  - the stable descending sort `sorted(zip(...), key=..., reverse=True)`;
  - Python's `int()` truncation;
  - the `s[:c]` prefix slice, including negative and oversized `c`.
- `selection.dfy` (`Selection`): the five policies, modelled as the code behaves.
- `findings.dfy` (`SelectionFindings`): counterexamples and corrected versions for the three defects listed under Findings.

Three facts about the code that the model keeps as written:

- `[2, 1]` and `[3, 1]` both have `f2 = 5.0`, because `x2 = 1` makes the product in task1.py:8 vanish.
- Roulette only divides by the sum of the fitness values (selection.py:5), so the model requires a nonzero sum, not positive fitness.
- Rank selection gives the fittest individual rank 1 and so the smallest threshold (selection.py:23-29).

## Model

| member | source | states |
|---|---|---|
| Objectives.Evaluate | GeneticAlgorith/src/task1.py:5-9 | The objectives `f1 = x1²/4` and `f2 = x1·(1 − x2) + 5`. Over the gene box, `f1` lies in [1/4, 4] and `f2` in [1, 5]. |
| Objectives.Dominates | GeneticAlgorith/src/task1.py:22-25 | No worse in both objectives and strictly better in one. Two individuals with equal objective values never dominate each other. |
| Objectives.DominanceExample | GeneticAlgorith/src/task1.py:5-25 | `[2,1]` evaluates to (1.0, 5.0) and `[3,1]` to (2.25, 5.0); the first dominates the second and not the reverse. |
| Objectives.DominatesIrreflexive | GeneticAlgorith/src/task1.py:22-25 | No individual dominates itself. |
| Objectives.DominatesAsymmetric | GeneticAlgorith/src/task1.py:22-25 | Two individuals never dominate each other. |
| Objectives.DominatesTransitive | GeneticAlgorith/src/task1.py:22-25 | Dominance is transitive. |
| Objectives.DominatesLowersScore | GeneticAlgorith/src/task1.py:22-25 | A dominator has a strictly smaller `f1 + f2`, so dominance has no cycles. |
| Front.ParetoSort | GeneticAlgorith/src/task1.py:28-38 | The nested scan with early `break` returns exactly the members that no member dominates, in population order. |
| Front.ParetoFrontIsSubsequence | GeneticAlgorith/src/task1.py:28-38 | The front is an order-preserving subsequence of the population, so it is no longer than the population. |
| Front.ParetoFrontCount | GeneticAlgorith/src/task1.py:30-37 | An individual is in the front iff it is in the population and no member dominates it. An undominated individual occurs in the front as often as in the population, so equal duplicates are all kept. |
| Front.ParetoFrontNonEmpty | GeneticAlgorith/src/task1.py:28-45 | The front is nonempty iff the population is, so `random.choice` at line 45 never sees an empty front. |
| Front.ParetoFrontSingleDominator | GeneticAlgorith/src/task1.py:30-37 | If one member dominates every other position, the front is that member alone. |
| Evolution.InitPopulation | GeneticAlgorith/src/task1.py:12-19 | Returns `pop_size` individuals (none for a negative size). They are the uniform draws in order, all inside `[1,4]×[1,2]`. |
| Evolution.ChoiceIndex | GeneticAlgorith/src/task1.py:45 | `random.choice` on a sequence of length `n`, given a draw `u ∈ [0, 1)`: the index `i < n` with `i ≤ u·n < i + 1`. |
| Evolution.ChoiceIndexReachesEvery | GeneticAlgorith/src/task1.py:45 | The modelled `random.choice` can pick every position of a nonempty front. |
| Evolution.Select | GeneticAlgorith/src/task1.py:41-46 | Returns exactly `num_to_select` individuals (none if that is ≤ 0). Pick `k` is the front element chosen by draw `k`, so every pick is a member of the Pareto front. |
| Variation.Crossover | GeneticAlgorith/src/task1.py:49-53 | The two children's genes add up to the parents': `child1[k] + child2[k] = parent1[k] + parent2[k]`. |
| Variation.CrossoverInBox | GeneticAlgorith/src/task1.py:49-53 | For `0 ≤ alpha ≤ 1`, parents inside `[1,4]×[1,2]` give children inside the box. |
| Variation.CrossoverMidpoint | GeneticAlgorith/src/task1.py:49-53 | With `alpha = 0.5`, parents `[1,1]` and `[3,2]` give two children `[2,1.5]`. |
| Variation.Mutate | GeneticAlgorith/src/task1.py:56-62 | Rewrites the individual's array in place to `Mutated` of its old contents. |
| Variation.MutatedUnchanged | GeneticAlgorith/src/task1.py:57 | A draw `≥ mutation_rate` leaves the individual unchanged. |
| Variation.MutatedOneGene | GeneticAlgorith/src/task1.py:57-62 | Below the rate, only gene `idx` changes. It takes the drawn value, in `[1,4]` for gene 0 or `[1,2]` for gene 1, and the other gene is untouched. |
| Variation.MutatedInBox | GeneticAlgorith/src/task1.py:56-62 | Mutation keeps an individual inside the box. |
| Evolution.Recombined | GeneticAlgorith/src/task1.py:81-87 | `m` pairs yield exactly `2m` offspring. |
| Evolution.Recombine | GeneticAlgorith/src/task1.py:81-87 | The crossover loop over `range(0, pop_size, 2)` produces, pair by pair, two blended children or the two parents. |
| Evolution.MutateEach | GeneticAlgorith/src/task1.py:90-91 | The mutation loop mutates every individual of the new generation with its own draw. |
| Evolution.NextGeneration | GeneticAlgorith/src/task1.py:74-94 | For an even `pop_size`, one generation (select, recombine, mutate) has exactly `pop_size` individuals. |
| Evolution.NextGenerationInBox | GeneticAlgorith/src/task1.py:74-94 | One generation keeps every individual inside `[1,4]×[1,2]`. |
| Evolution.GenerationStep | GeneticAlgorith/src/task1.py:74-98 | The loop body of `main` computes `NextGeneration`: `pop_size` individuals, still in the box when the old population was. It reports the new front's size, which lies between 1 and `pop_size`. |
| Evolution.RunInBox | GeneticAlgorith/src/task1.py:72-94 | Any number of generations keeps a population that starts in the box inside it. |
| Evolution.Report | GeneticAlgorith/src/task1.py:101-104 | The final report has one entry per front member, in order, pairing the member with `Evaluate` of it. |
| Evolution.Evolve | GeneticAlgorith/src/task1.py:65-104 | `main`: initialises, then runs the generations. Front size `g` is the front size after generation `g + 1`. The final population has `pop_size` members, all in the box, and the report pairs each final front member with its objectives. |
| Evolution.RunMain | GeneticAlgorith/src/task1.py:66-104 | `main` with its constants (100, 200, 0.7, 0.1): 100 individuals in the box, and 200 front sizes, each between 1 and 100. |
| StableSort.Zip | GeneticAlgorith/src/selection.py:23 | `zip` pairs position `i` of both lists and stops at the shorter one: the length is the smaller of the two lengths. |
| StableSort.SortDesc | GeneticAlgorith/src/selection.py:23-40 | `sorted(..., key=fitness, reverse=True)`. An input already in non-increasing fitness comes back unchanged. |
| StableSort.SortDescPermutes | GeneticAlgorith/src/selection.py:23 | The sort returns a permutation of the `(individual, fitness)` pairs. |
| StableSort.SortDescNonIncreasing | GeneticAlgorith/src/selection.py:23 | The sorted pairs are non-increasing in fitness. |
| StableSort.SortDescStable | GeneticAlgorith/src/selection.py:23 | For every fitness value, the pairs with that fitness keep their input order (the stability of `sorted` with `reverse=True`). |
| StableSort.SortDescIsTheStableSort | GeneticAlgorith/src/selection.py:23 | Any non-increasing arrangement that keeps each fitness class in input order equals the model's sort, so the model is Python's stable sort. |
| StableSort.PyPrefix | GeneticAlgorith/src/selection.py:36-41 | `s[:c]` is a prefix of `s`. Its length is `|s|` for `c ≥ |s|`, `c` for `0 ≤ c < |s|`, `|s| + c` for a negative `c` down to `−|s|`, and 0 below that. |
| StableSort.TruncToZero | GeneticAlgorith/src/selection.py:35 | `int()` rounds a real toward zero. |
| Selection.FirstShareAtLeast | GeneticAlgorith/src/selection.py:9-11 | The loop returns the least position whose own share reaches `r`, or `None` when every share is below `r`. |
| Selection.RouletteWheel | GeneticAlgorith/src/selection.py:3-11 | With a nonzero fitness sum, the result is `population[i]` for the least `i` with `r ≤ fitness[i]/sum`. It is `None` exactly when `r` exceeds every share. |
| Selection.Candidates | GeneticAlgorith/src/selection.py:15 | The sampled individuals: one per sampled position, each a member of the population. |
| Selection.MaxByFitness | GeneticAlgorith/src/selection.py:18 | `max` with a key returns a candidate at the first position of maximal fitness. |
| Selection.IndexOf | GeneticAlgorith/src/selection.py:18 | `list.index` returns the first position holding the value. |
| Selection.WinnerIndex | GeneticAlgorith/src/selection.py:18 | `winner_index` is the first candidate-list position of maximal fitness. |
| Selection.TournamentSelection | GeneticAlgorith/src/selection.py:13-19 | Requires `1 ≤ tournament_size ≤ |population|` and a sample of distinct positions. The result is `population[j]` for `j` the first fittest position in the candidate list, so `j < tournament_size`. |
| Selection.Ranks | GeneticAlgorith/src/selection.py:24 | `n` ranks, whose values are exactly 1..n. |
| Selection.SumOfRanks | GeneticAlgorith/src/selection.py:24 | The ranks are exactly `1..n` and `2·sum(ranks) = n(n+1)`. |
| Selection.RankThresholdIsClosedForm | GeneticAlgorith/src/selection.py:28-29 | `rank_i / sum(ranks) = 2(i+1)/(n(n+1))`. |
| Selection.RankThresholdsIncrease | GeneticAlgorith/src/selection.py:28-29 | The thresholds strictly increase with the rank. |
| Selection.RankSelection | GeneticAlgorith/src/selection.py:21-30 | The result is the sorted individual at the least `i` with `r ≤ 2(i+1)/(n(n+1))`. It is `None` exactly when the population is empty or `r > 2/(n+1)`. |
| Selection.TruncationSelection | GeneticAlgorith/src/selection.py:32-36 | For `0 ≤ truncation_value ≤ 1`, returns exactly `⌊n·truncation_value⌋` individuals (5 of 10 for 0.5). |
| Selection.TruncationKeepsFittest | GeneticAlgorith/src/selection.py:32-36 | The survivors' pairs and the excluded pairs split the input. Every survivor's fitness is ≥ every excluded one's. |
| Selection.EliteSelection | GeneticAlgorith/src/selection.py:38-41 | For `elite_size ≥ 0`, returns `min(elite_size, n)` individuals. |
| Selection.EliteKeepsFittest | GeneticAlgorith/src/selection.py:38-41 | The elite's pairs and the rest split the input. Every elite fitness is ≥ every excluded one. |
| Selection.EliteFirstIsFittest | GeneticAlgorith/src/selection.py:38-41 | A nonempty elite starts with an individual whose fitness is maximal in the input. |
| Selection.EliteIsTruncation | GeneticAlgorith/src/selection.py:32-41 | `elite_selection(k)` equals `truncation_selection(v)` when `k = int(n·v)`. |
| SelectionFindings.RouletteCanSelectNothing | GeneticAlgorith/src/selection.py:9-11 | On fitness `[1, 1]` with `r = 0.75`, roulette as written returns `None`. |
| SelectionFindings.FirstCumulativeAtLeast | GeneticAlgorith/src/selection.py:9-11 | The corrected walk returns the least position whose cumulative share reaches `r`. |
| SelectionFindings.CumulativeWalkSelects | GeneticAlgorith/src/selection.py:9-11 | The corrected walk selects some position for every `r ≤ 1`. |
| SelectionFindings.CumulativeRouletteWheel | GeneticAlgorith/src/selection.py:3-11 | Corrected roulette: `population[i]` for the least `i` whose cumulative share reaches `r`. It always selects for `r ≤ 1`. |
| SelectionFindings.CumulativeRouletteSelectsOnCounterexample | GeneticAlgorith/src/selection.py:3-11 | On the counterexample, corrected roulette selects individual 1. |
| SelectionFindings.RankCanSelectNothing | GeneticAlgorith/src/selection.py:28-30 | With two individuals and `r = 0.9`, rank selection as written returns `None`. |
| SelectionFindings.CumulativeRankSelection | GeneticAlgorith/src/selection.py:21-30 | Corrected rank selection walks the cumulative rank shares. It always selects from a nonempty population for `r ≤ 1`. |
| SelectionFindings.TournamentCanReturnNonCandidate | GeneticAlgorith/src/selection.py:18-19 | Population `[0,1,2]` with fitness equal to value and sample `[2,1]`: the result is 0, an individual outside the candidate list `[2, 1]`. |
| SelectionFindings.TournamentWinner | GeneticAlgorith/src/selection.py:13-19 | Corrected tournament: the result is a candidate, and its fitness is ≥ that of every candidate. |

## Findings

| source | as written | input that shows it | evidently intended | confidence | as-written member | corrected member |
|---|---|---|---|---|---|---|
| GeneticAlgorith/src/selection.py:9-11 | `r` is compared with each individual's own share; the loop can end without returning | fitness `[1.0, 1.0]`, `r = 0.75`: both shares are 0.5, result `None` | a roulette walk over cumulative shares, which always selects for `r ∈ [0,1)` | not executed | SelectionFindings.RouletteCanSelectNothing | SelectionFindings.CumulativeRouletteWheel |
| GeneticAlgorith/src/selection.py:28-30 | `r` is compared with `rank/sum(ranks)` per rank; nothing is selected when `r > 2/(n+1)` | fitness `[1.0, 2.0]`, `r = 0.9`: the thresholds are 1/3 and 2/3, result `None` | a cumulative walk over the rank shares, which always selects from a nonempty population | not executed | SelectionFindings.RankCanSelectNothing | SelectionFindings.CumulativeRankSelection |
| GeneticAlgorith/src/selection.py:18-19 | returns `population[winner_index]`, where `winner_index` is a position in the candidate list | population `[0,1,2]`, fitness = value, sampled positions `[2,1]`: the winner 2 is candidate 0, so the result is 0 | return the winning candidate itself | not executed | SelectionFindings.TournamentCanReturnNonCandidate | SelectionFindings.TournamentWinner |

Nothing else in the model calls the selection policies. The `task1.py` driver uses only Pareto-front selection.

## Left out

- `GeneticAlgorith/figure1.py` and `GeneticAlgorith/src/figure2.py`: plotting and figure export only, not part of this model.
- Randomness: draws are parameters with range predicates. Distributions and probabilities are not modelled. `random.choice` is modelled as index `⌊u·n⌋` for a draw `u ∈ [0, 1)`.
- Floating point: genes, fitness and shares are exact reals. Rounding effects are not captured, such as a blend landing just outside the box or `int(n·v)` rounding differently.
- Console output (task1.py:98 and 102-104): `Evolve` returns the per-generation front sizes and the final `(individual, objectives)` report as values instead.
- Object aliasing in `main`: the generation step works on values.
  - `select` returns the same list objects several times.
  - Pass-through copies references.
  - `mutate` then edits the objects in place, so the source can mutate a shared individual more than once.
  - The model mutates each position once.
  - The size and box properties hold either way.
  - In-place editing itself is modelled only by `Variation.Mutate`, on a single array.
- Odd `pop_size`: `selected[i+1]` raises `IndexError` in the source. The generation step requires an even size.
- An empty population with `num_to_select > 0`: `random.choice` raises `IndexError`. `Select` requires a nonempty population when it must select something.
- The `evaluate` unpacking error for lists that do not have two elements: the `Individual` type rules it out.
- selection.py:5 divides a numpy array, modelled as elementwise division of a sequence of reals. A plain Python list there raises `TypeError`, which is not modelled.
- Selection.RouletteWheel: requires a nonzero fitness sum; numpy would produce infinities or NaN instead. It also requires at least as many individuals as fitness values. The source fails only if the selected position lies past the population.
- Selection.TournamentSelection: `fitness_values[x]` is a lookup keyed by the individual, modelled as a `map`. A list lookup with negative integer individuals, which Python would count from the end, is not modelled. `random.sample` and `max` errors for a size outside `1..|population|` become requirements.
- Object identity versus equality: `candidates.index` uses equality, as modelled.
