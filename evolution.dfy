/**
 * The evolution driver (task1.py, init_population, select and main): initialisation, selection
 * from the Pareto front, pairwise recombination, mutation and the generational loop. Every random
 * draw is an explicit input whose range is stated in a predicate.
 */
module Evolution {
  import opened Objectives
  import opened Front
  import opened Variation

  /** The constants main runs with. */
  const DefaultPopSize: nat := 100
  const DefaultGenerations: nat := 200
  const DefaultCrossoverRate: real := 0.7
  const DefaultMutationRate: real := 0.1

  function Max0(n: int): nat
  {
    if n < 0 then 0 else n
  }

  // ---------------------------------------------------------------------------------------------
  // init_population

  /** The two random.uniform draws for a new individual: x1 in [1, 4], x2 in [1, 2]. */
  predicate ValidInitDraw(d: (real, real))
  {
    X1Low <= d.0 <= X1High && X2Low <= d.1 <= X2High
  }

  /** The first n initial draws as individuals. */
  function InitialPopulation(draws: seq<(real, real)>, n: nat): seq<Individual>
    requires |draws| >= n
  {
    seq(n, k requires 0 <= k < n => [draws[k].0, draws[k].1])
  }

  /** init_population: pop_size individuals (none for a negative size), all inside the gene box. */
  method InitPopulation(popSize: int, draws: seq<(real, real)>) returns (population: seq<Individual>)
    requires |draws| >= popSize
    requires forall k :: 0 <= k < |draws| ==> ValidInitDraw(draws[k])
    ensures |population| == Max0(popSize)
    ensures AllInBox(population)
    ensures population == InitialPopulation(draws, Max0(popSize))
  {
    population := [];
    var k := 0;
    while k < popSize
      invariant 0 <= k == |population| <= Max0(popSize)
      invariant population == InitialPopulation(draws, k)
      invariant AllInBox(population)
    {
      var individual: Individual := [draws[k].0, draws[k].1];
      population := population + [individual];
      k := k + 1;
    }
  }

  // ---------------------------------------------------------------------------------------------
  // select

  /** The index random.choice picks from a sequence of length n, given a uniform draw u in [0, 1). */
  function ChoiceIndex(u: real, n: nat): (i: nat)
    requires 0.0 <= u < 1.0 && n > 0
    ensures i < n
    ensures i as real <= u * (n as real) < i as real + 1.0
  {
    assert 0.0 <= u * (n as real) < n as real;
    (u * (n as real)).Floor
  }

  /** Every index of a nonempty sequence is picked by some draw. */
  lemma ChoiceIndexReachesEvery(i: nat, n: nat)
    requires i < n
    ensures 0.0 <= (i as real) / (n as real) < 1.0
    ensures ChoiceIndex((i as real) / (n as real), n) == i
  {
    var u := (i as real) / (n as real);
    assert u * (n as real) == i as real;
  }

  /** The first m picks, with replacement, from a nonempty front. */
  function Picks(front: seq<Individual>, choices: seq<real>, m: nat): (picked: seq<Individual>)
    requires m > 0 ==> |front| > 0
    requires |choices| >= m
    requires forall k :: 0 <= k < |choices| ==> 0.0 <= choices[k] < 1.0
  {
    seq(m, k requires 0 <= k < m => front[ChoiceIndex(choices[k], |front|)])
  }

  /**
   * select: exactly num_to_select individuals (none if it is not positive), each drawn with
   * replacement from the Pareto front; the front of a nonempty population is never empty.
   */
  method Select(population: seq<Individual>, numToSelect: int, choices: seq<real>) returns (selected: seq<Individual>)
    requires numToSelect > 0 ==> |population| > 0
    requires |choices| >= numToSelect
    requires forall k :: 0 <= k < |choices| ==> 0.0 <= choices[k] < 1.0
    ensures |selected| == Max0(numToSelect)
    ensures forall k :: 0 <= k < |selected| ==> selected[k] in ParetoFront(population)
    ensures |selected| > 0 ==> |ParetoFront(population)| > 0
    ensures selected == Picks(ParetoFront(population), choices, |selected|)
  {
    selected := [];
    var front := ParetoSort(population);
    ParetoFrontNonEmpty(population);
    while |selected| < numToSelect
      invariant |selected| <= Max0(numToSelect)
      invariant selected == Picks(front, choices, |selected|)
    {
      selected := selected + [front[ChoiceIndex(choices[|selected|], |front|)]];
    }
  }

  // ---------------------------------------------------------------------------------------------
  // One generation of main

  /** The draws for one pair: r, compared with the crossover rate, and the blend weight alpha. */
  datatype PairDraw = PairDraw(r: real, alpha: real)

  /** The draws for one mutation: r, compared with the mutation rate, then the gene and its value. */
  datatype MutationDraw = MutationDraw(r: real, idx: int, value: real)

  /** All draws one generation consumes. */
  datatype GenerationDraws = GenerationDraws(choices: seq<real>, pairs: seq<PairDraw>, mutations: seq<MutationDraw>)

  predicate ValidPairDraw(d: PairDraw)
  {
    0.0 <= d.r < 1.0 && 0.0 <= d.alpha < 1.0
  }

  predicate ValidMutationDraw(d: MutationDraw, mutationRate: real)
  {
    0.0 <= d.r < 1.0 && (d.r < mutationRate ==> ValidGeneDraw(d.idx, d.value))
  }

  /** random.random draws for select, pair draws for the pairs, mutation draws for the children. */
  predicate ValidGenerationDraws(d: GenerationDraws, popSize: nat, mutationRate: real)
  {
    |d.choices| >= popSize && (forall k :: 0 <= k < |d.choices| ==> 0.0 <= d.choices[k] < 1.0) &&
    |d.pairs| >= popSize / 2 && (forall k :: 0 <= k < |d.pairs| ==> ValidPairDraw(d.pairs[k])) &&
    |d.mutations| >= popSize && (forall k :: 0 <= k < |d.mutations| ==> ValidMutationDraw(d.mutations[k], mutationRate))
  }

  /** One pair of the next generation: two blended children, or the two parents passed through. */
  function PairOffspring(parent1: Individual, parent2: Individual, crossoverRate: real, d: PairDraw): seq<Individual>
  {
    if d.r < crossoverRate then
      var children := Crossover(parent1, parent2, d.alpha);
      [children.0, children.1]
    else [parent1, parent2]
  }

  /** The offspring of the first m consecutive pairs of selected. */
  function Recombined(selected: seq<Individual>, crossoverRate: real, pairs: seq<PairDraw>, m: nat): (offspring: seq<Individual>)
    requires |selected| >= 2 * m && |pairs| >= m
    ensures |offspring| == 2 * m
  {
    if m == 0 then []
    else
      Recombined(selected, crossoverRate, pairs, m - 1)
        + PairOffspring(selected[2 * m - 2], selected[2 * m - 1], crossoverRate, pairs[m - 1])
  }

  /** An individual mutated with one mutation draw. */
  function MutatedBy(ind: Individual, mutationRate: real, d: MutationDraw): Individual
    requires ValidMutationDraw(d, mutationRate)
  {
    Mutated(ind, d.r, mutationRate, d.idx, d.value)
  }

  /** Every individual mutated with its own draw. */
  function MutatedAll(pop: seq<Individual>, mutationRate: real, mutations: seq<MutationDraw>): seq<Individual>
    requires |mutations| >= |pop|
    requires forall k :: 0 <= k < |mutations| ==> ValidMutationDraw(mutations[k], mutationRate)
  {
    seq(|pop|, k requires 0 <= k < |pop| => MutatedBy(pop[k], mutationRate, mutations[k]))
  }

  /**
   * The population after one generation: select pop_size parents from the front, recombine them
   * pairwise, mutate every child. The size is invariant for an even pop_size.
   */
  function NextGeneration(population: seq<Individual>, popSize: nat, crossoverRate: real, mutationRate: real,
                          d: GenerationDraws): (next: seq<Individual>)
    requires popSize % 2 == 0
    requires popSize > 0 ==> |population| > 0
    requires ValidGenerationDraws(d, popSize, mutationRate)
    ensures |next| == popSize
  {
    ParetoFrontNonEmpty(population);
    var selected := Picks(ParetoFront(population), d.choices, popSize);
    MutatedAll(Recombined(selected, crossoverRate, d.pairs, popSize / 2), mutationRate, d.mutations)
  }

  lemma {:induction false} RecombinedInBox(selected: seq<Individual>, crossoverRate: real, pairs: seq<PairDraw>, m: nat)
    requires |selected| >= 2 * m && |pairs| >= m
    requires forall k :: 0 <= k < |pairs| ==> ValidPairDraw(pairs[k])
    requires AllInBox(selected)
    ensures AllInBox(Recombined(selected, crossoverRate, pairs, m))
  {
    if m > 0 {
      RecombinedInBox(selected, crossoverRate, pairs, m - 1);
      CrossoverInBox(selected[2 * m - 2], selected[2 * m - 1], pairs[m - 1].alpha);
      var last := PairOffspring(selected[2 * m - 2], selected[2 * m - 1], crossoverRate, pairs[m - 1]);
      assert AllInBox(last);
    }
  }

  /** One generation keeps a population inside the gene box. */
  lemma NextGenerationInBox(population: seq<Individual>, popSize: nat, crossoverRate: real, mutationRate: real,
                            d: GenerationDraws)
    requires popSize % 2 == 0
    requires popSize > 0 ==> |population| > 0
    requires ValidGenerationDraws(d, popSize, mutationRate)
    requires AllInBox(population)
    ensures AllInBox(NextGeneration(population, popSize, crossoverRate, mutationRate, d))
  {
    ParetoFrontNonEmpty(population);
    var front := ParetoFront(population);
    forall k | 0 <= k < |front|
      ensures InBox(front[k])
    {
      ParetoFrontCount(population, front[k]);
    }
    var selected := Picks(front, d.choices, popSize);
    RecombinedInBox(selected, crossoverRate, d.pairs, popSize / 2);
    var children := Recombined(selected, crossoverRate, d.pairs, popSize / 2);
    forall k | 0 <= k < |children|
      ensures InBox(MutatedBy(children[k], mutationRate, d.mutations[k]))
    {
      MutatedInBox(children[k], d.mutations[k].r, mutationRate, d.mutations[k].idx, d.mutations[k].value);
    }
  }

  /** The crossover loop of main: for each consecutive pair, crossover or pass-through, appended in order. */
  method Recombine(selected: seq<Individual>, popSize: nat, crossoverRate: real, pairs: seq<PairDraw>)
    returns (offspring: seq<Individual>)
    requires popSize % 2 == 0 && |selected| >= popSize && |pairs| >= popSize / 2
    ensures offspring == Recombined(selected, crossoverRate, pairs, popSize / 2)
  {
    offspring := [];
    var i := 0;
    while i < popSize
      invariant 0 <= i <= popSize && i % 2 == 0
      invariant offspring == Recombined(selected, crossoverRate, pairs, i / 2)
    {
      var pair := pairs[i / 2];
      if pair.r < crossoverRate {
        var children := Crossover(selected[i], selected[i + 1], pair.alpha);
        offspring := offspring + [children.0, children.1];
      } else {
        offspring := offspring + [selected[i], selected[i + 1]];
      }
      i := i + 2;
    }
  }

  /** The mutation loop of main: every individual of the new generation is mutated with its own draw. */
  method MutateEach(offspring: seq<Individual>, mutationRate: real, mutations: seq<MutationDraw>)
    returns (mutated: seq<Individual>)
    requires |mutations| >= |offspring|
    requires forall k :: 0 <= k < |mutations| ==> ValidMutationDraw(mutations[k], mutationRate)
    ensures mutated == MutatedAll(offspring, mutationRate, mutations)
  {
    mutated := offspring;
    var k := 0;
    while k < |mutated|
      invariant |mutated| == |offspring|
      invariant 0 <= k <= |mutated|
      invariant forall j :: 0 <= j < k ==> mutated[j] == MutatedBy(offspring[j], mutationRate, mutations[j])
      invariant forall j :: k <= j < |mutated| ==> mutated[j] == offspring[j]
    {
      var m := mutations[k];
      mutated := mutated[k := Mutated(mutated[k], m.r, mutationRate, m.idx, m.value)];
      k := k + 1;
    }
  }

  /**
   * Lines 75-97 of main: select, pass each consecutive pair through crossover or unchanged,
   * mutate every new individual, then compute the size of the new front.
   */
  method GenerationStep(population: seq<Individual>, popSize: nat, crossoverRate: real, mutationRate: real,
                        d: GenerationDraws) returns (newPopulation: seq<Individual>, frontSize: nat)
    requires popSize % 2 == 0
    requires popSize > 0 ==> |population| > 0
    requires ValidGenerationDraws(d, popSize, mutationRate)
    ensures newPopulation == NextGeneration(population, popSize, crossoverRate, mutationRate, d)
    ensures |newPopulation| == popSize
    ensures AllInBox(population) ==> AllInBox(newPopulation)
    ensures frontSize == |ParetoFront(newPopulation)|
    ensures popSize > 0 ==> 1 <= frontSize <= popSize
  {
    var selected := Select(population, popSize, d.choices);
    var offspring := Recombine(selected, popSize, crossoverRate, d.pairs);
    newPopulation := MutateEach(offspring, mutationRate, d.mutations);
    if AllInBox(population) {
      NextGenerationInBox(population, popSize, crossoverRate, mutationRate, d);
    }
    var front := ParetoSort(newPopulation);
    ParetoFrontNonEmpty(newPopulation);
    ParetoFrontIsSubsequence(newPopulation);
    frontSize := |front|;
  }

  // ---------------------------------------------------------------------------------------------
  // The generational loop of main

  predicate ValidRunDraws(draws: seq<GenerationDraws>, popSize: nat, mutationRate: real)
  {
    forall g :: 0 <= g < |draws| ==> ValidGenerationDraws(draws[g], popSize, mutationRate)
  }

  /** The population after one generation per element of draws. */
  function Run(population: seq<Individual>, popSize: nat, crossoverRate: real, mutationRate: real,
               draws: seq<GenerationDraws>): (final: seq<Individual>)
    requires popSize % 2 == 0
    requires |population| == popSize
    requires ValidRunDraws(draws, popSize, mutationRate)
    ensures |final| == popSize
    decreases |draws|
  {
    if draws == [] then population
    else Run(NextGeneration(population, popSize, crossoverRate, mutationRate, draws[0]),
             popSize, crossoverRate, mutationRate, draws[1..])
  }

  /** Running one more generation extends a run by one step. */
  lemma {:induction false} RunSnoc(population: seq<Individual>, popSize: nat, crossoverRate: real, mutationRate: real,
                                   draws: seq<GenerationDraws>, d: GenerationDraws)
    requires popSize % 2 == 0
    requires |population| == popSize
    requires ValidRunDraws(draws, popSize, mutationRate) && ValidGenerationDraws(d, popSize, mutationRate)
    ensures ValidRunDraws(draws + [d], popSize, mutationRate)
    ensures Run(population, popSize, crossoverRate, mutationRate, draws + [d])
         == NextGeneration(Run(population, popSize, crossoverRate, mutationRate, draws),
                           popSize, crossoverRate, mutationRate, d)
    decreases |draws|
  {
    assert forall g :: 0 <= g < |draws| ==> (draws + [d])[g] == draws[g];
    assert (draws + [d])[|draws|] == d;
    if draws != [] {
      var next := NextGeneration(population, popSize, crossoverRate, mutationRate, draws[0]);
      assert (draws + [d])[1..] == draws[1..] + [d];
      RunSnoc(next, popSize, crossoverRate, mutationRate, draws[1..], d);
    } else {
      assert draws + [d] == [d];
    }
  }

  /** The population after the first g generations of a run. */
  function PopulationAfter(population: seq<Individual>, popSize: nat, crossoverRate: real, mutationRate: real,
                           draws: seq<GenerationDraws>, g: nat): (pop: seq<Individual>)
    requires popSize % 2 == 0
    requires |population| == popSize
    requires ValidRunDraws(draws, popSize, mutationRate)
    requires g <= |draws|
    ensures |pop| == popSize
  {
    assert forall k :: 0 <= k < g ==> draws[..g][k] == draws[k];
    Run(population, popSize, crossoverRate, mutationRate, draws[..g])
  }

  /** Generation g + 1 is the next generation of generation g. */
  lemma PopulationAfterStep(population: seq<Individual>, popSize: nat, crossoverRate: real, mutationRate: real,
                            draws: seq<GenerationDraws>, g: nat)
    requires popSize % 2 == 0
    requires |population| == popSize
    requires ValidRunDraws(draws, popSize, mutationRate)
    requires g < |draws|
    ensures PopulationAfter(population, popSize, crossoverRate, mutationRate, draws, g + 1)
         == NextGeneration(PopulationAfter(population, popSize, crossoverRate, mutationRate, draws, g),
                           popSize, crossoverRate, mutationRate, draws[g])
  {
    assert draws[..g + 1] == draws[..g] + [draws[g]];
    assert forall k :: 0 <= k < g ==> draws[..g][k] == draws[k];
    RunSnoc(population, popSize, crossoverRate, mutationRate, draws[..g], draws[g]);
  }

  /** A run keeps a population that starts inside the gene box inside it. */
  lemma {:induction false} RunInBox(population: seq<Individual>, popSize: nat, crossoverRate: real, mutationRate: real,
                                    draws: seq<GenerationDraws>)
    requires popSize % 2 == 0
    requires |population| == popSize
    requires ValidRunDraws(draws, popSize, mutationRate)
    requires AllInBox(population)
    ensures AllInBox(Run(population, popSize, crossoverRate, mutationRate, draws))
    decreases |draws|
  {
    if draws != [] {
      NextGenerationInBox(population, popSize, crossoverRate, mutationRate, draws[0]);
      RunInBox(NextGeneration(population, popSize, crossoverRate, mutationRate, draws[0]),
               popSize, crossoverRate, mutationRate, draws[1..]);
    }
  }

  /** The final report: each member of the front with its objective values. */
  function Report(front: seq<Individual>): (report: seq<(Individual, ObjectiveVector)>)
    ensures |report| == |front|
    ensures forall k :: 0 <= k < |front| ==> report[k].0 == front[k] && report[k].1 == Evaluate(front[k])
  {
    seq(|front|, k requires 0 <= k < |front| => (front[k], Evaluate(front[k])))
  }

  /**
   * main: initialise, run the given number of generations recording the front size after each,
   * and report the final front. The population keeps its size and stays inside the gene box.
   */
  method Evolve(popSize: nat, generations: nat, crossoverRate: real, mutationRate: real,
                initDraws: seq<(real, real)>, draws: seq<GenerationDraws>)
    returns (population: seq<Individual>, frontSizes: seq<nat>, report: seq<(Individual, ObjectiveVector)>)
    requires popSize % 2 == 0
    requires |initDraws| >= popSize
    requires forall k :: 0 <= k < |initDraws| ==> ValidInitDraw(initDraws[k])
    requires |draws| == generations
    requires ValidRunDraws(draws, popSize, mutationRate)
    ensures |population| == popSize && AllInBox(population)
    ensures population == Run(InitialPopulation(initDraws, popSize), popSize, crossoverRate, mutationRate, draws)
    ensures |frontSizes| == generations
    ensures forall g :: 0 <= g < generations ==>
      frontSizes[g] == |ParetoFront(PopulationAfter(InitialPopulation(initDraws, popSize), popSize, crossoverRate, mutationRate, draws, g + 1))|
    ensures popSize > 0 ==> forall g :: 0 <= g < generations ==> 1 <= frontSizes[g] <= popSize
    ensures report == Report(ParetoFront(population))
  {
    var initial := InitPopulation(popSize, initDraws);
    population := initial;
    frontSizes := [];
    var gen := 0;
    while gen < generations
      invariant 0 <= gen <= generations == |draws|
      invariant |population| == popSize && AllInBox(population)
      invariant population == PopulationAfter(initial, popSize, crossoverRate, mutationRate, draws, gen)
      invariant |frontSizes| == gen
      invariant forall g :: 0 <= g < gen ==>
        frontSizes[g] == |ParetoFront(PopulationAfter(initial, popSize, crossoverRate, mutationRate, draws, g + 1))|
      invariant popSize > 0 ==> forall g :: 0 <= g < gen ==> 1 <= frontSizes[g] <= popSize
    {
      var frontSize;
      PopulationAfterStep(initial, popSize, crossoverRate, mutationRate, draws, gen);
      population, frontSize := GenerationStep(population, popSize, crossoverRate, mutationRate, draws[gen]);
      frontSizes := frontSizes + [frontSize];
      gen := gen + 1;
    }
    assert draws[..gen] == draws;
    var front := ParetoSort(population);
    report := Report(front);
  }

  /** main with its own constants: 100 individuals, 200 generations, rates 0.7 and 0.1. */
  method RunMain(initDraws: seq<(real, real)>, draws: seq<GenerationDraws>)
    returns (population: seq<Individual>, frontSizes: seq<nat>, report: seq<(Individual, ObjectiveVector)>)
    requires |initDraws| >= DefaultPopSize
    requires forall k :: 0 <= k < |initDraws| ==> ValidInitDraw(initDraws[k])
    requires |draws| == DefaultGenerations
    requires ValidRunDraws(draws, DefaultPopSize, DefaultMutationRate)
    ensures |population| == DefaultPopSize && AllInBox(population)
    ensures |frontSizes| == DefaultGenerations
    ensures forall g :: 0 <= g < DefaultGenerations ==> 1 <= frontSizes[g] <= DefaultPopSize
    ensures report == Report(ParetoFront(population))
  {
    population, frontSizes, report :=
      Evolve(DefaultPopSize, DefaultGenerations, DefaultCrossoverRate, DefaultMutationRate, initDraws, draws);
  }
}
