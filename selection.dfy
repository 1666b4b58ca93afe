/**
 * The five fitness-based selection policies of selection.py. Each random draw is a parameter:
 * r for random.random(), and a list of distinct positions for random.sample.
 */
module Selection {
  import opened StableSort

  datatype Option<T> = None | Some(value: T)

  /** Python's sum: a left fold from 0. */
  function Sum(s: seq<real>): real
  {
    if s == [] then 0.0 else Sum(s[..|s| - 1]) + s[|s| - 1]
  }

  // ---------------------------------------------------------------------------------------------
  // roulette_wheel_selection

  /**
   * The loop over enumerate(probabilities) from position i: the first position whose own share
   * fitness[k] / total is at least r, or None when the loop runs off the end.
   */
  function FirstShareAtLeast(fitness: seq<real>, total: real, r: real, i: nat): (res: Option<nat>)
    requires total != 0.0 && i <= |fitness|
    ensures res.Some? ==> i <= res.value < |fitness| && r <= fitness[res.value] / total
    ensures res.Some? ==> forall k :: i <= k < res.value ==> r > fitness[k] / total
    ensures res.None? ==> forall k :: i <= k < |fitness| ==> r > fitness[k] / total
    decreases |fitness| - i
  {
    if i == |fitness| then None
    else if r <= fitness[i] / total then Some(i)
    else FirstShareAtLeast(fitness, total, r, i + 1)
  }

  /**
   * roulette_wheel_selection: population[i] for the least i with r <= fitness[i] / sum(fitness),
   * and None when r exceeds every individual share. There is no running total.
   */
  function RouletteWheel<T>(population: seq<T>, fitness: seq<real>, r: real): (picked: Option<T>)
    requires Sum(fitness) != 0.0
    requires |fitness| <= |population|
    ensures picked.None? <==> forall i :: 0 <= i < |fitness| ==> r > fitness[i] / Sum(fitness)
    ensures picked.Some? ==>
      exists i :: 0 <= i < |fitness| && picked.value == population[i] && r <= fitness[i] / Sum(fitness) &&
        forall k :: 0 <= k < i ==> r > fitness[k] / Sum(fitness)
  {
    match FirstShareAtLeast(fitness, Sum(fitness), r, 0)
    case None => None
    case Some(i) => Some(population[i])
  }

  // ---------------------------------------------------------------------------------------------
  // tournament_selection

  /** A result of random.sample(range(n), size): size distinct positions below n. */
  predicate IsSample(sample: seq<nat>, n: nat, size: int)
  {
    |sample| == size &&
    (forall k :: 0 <= k < |sample| ==> sample[k] < n) &&
    (forall k, l :: 0 <= k < l < |sample| ==> sample[k] != sample[l])
  }

  /** The candidates random.sample(population, size) returns for the sampled positions. */
  function Candidates<T>(population: seq<T>, sample: seq<nat>): (cands: seq<T>)
    requires forall k :: 0 <= k < |sample| ==> sample[k] < |population|
    ensures |cands| == |sample|
    ensures forall x :: x in cands ==> x in population
  {
    seq(|sample|, k requires 0 <= k < |sample| => population[sample[k]])
  }

  /** Position j of cands holds the first candidate of maximal fitness. */
  predicate IsFirstFittest<T>(cands: seq<T>, fitness: map<T, real>, j: nat)
    requires forall k :: 0 <= k < |cands| ==> cands[k] in fitness
  {
    j < |cands| &&
    (forall k :: 0 <= k < |cands| ==> fitness[cands[k]] <= fitness[cands[j]]) &&
    (forall k :: 0 <= k < j ==> fitness[cands[k]] < fitness[cands[j]])
  }

  /** max(cands, key=lambda x: fitness_values[x]): a later candidate replaces the best only when strictly fitter. */
  function MaxByFitness<T>(cands: seq<T>, fitness: map<T, real>): (best: T)
    requires |cands| > 0
    requires forall k :: 0 <= k < |cands| ==> cands[k] in fitness
    ensures exists j: nat :: IsFirstFittest(cands, fitness, j) && cands[j] == best
    decreases |cands|
  {
    if |cands| == 1 then cands[0]
    else
      var init := cands[..|cands| - 1];
      assert forall k :: 0 <= k < |init| ==> init[k] == cands[k];
      var m := MaxByFitness(init, fitness);
      var j: nat :| IsFirstFittest(init, fitness, j) && init[j] == m;
      var last := cands[|cands| - 1];
      if fitness[last] > fitness[m] then
        assert IsFirstFittest(cands, fitness, |cands| - 1);
        last
      else
        assert IsFirstFittest(cands, fitness, j);
        m
  }

  /** cands.index(x): the first position holding x. */
  function IndexOf<T(==)>(cands: seq<T>, x: T): (j: nat)
    requires x in cands
    ensures j < |cands| && cands[j] == x
    ensures forall k :: 0 <= k < j ==> cands[k] != x
  {
    if cands[0] == x then 0 else 1 + IndexOf(cands[1..], x)
  }

  /** winner_index in tournament_selection: the position of the first fittest candidate. */
  function WinnerIndex<T(==)>(cands: seq<T>, fitness: map<T, real>): (j: nat)
    requires |cands| > 0
    requires forall k :: 0 <= k < |cands| ==> cands[k] in fitness
    ensures IsFirstFittest(cands, fitness, j)
  {
    var best := MaxByFitness(cands, fitness);
    var i: nat :| IsFirstFittest(cands, fitness, i) && cands[i] == best;
    var j := IndexOf(cands, best);
    assert j <= i;
    j
  }

  /**
   * tournament_selection: population[j], where j is the position inside the candidate list of
   * the first fittest candidate; j is below tournament_size, not the winner's own position.
   */
  function TournamentSelection<T(==)>(population: seq<T>, fitness: map<T, real>, tournamentSize: int,
                                      sample: seq<nat>): (picked: T)
    requires 1 <= tournamentSize <= |population|
    requires IsSample(sample, |population|, tournamentSize)
    requires forall k :: 0 <= k < |sample| ==> population[sample[k]] in fitness
    ensures exists j: nat ::
      (j < tournamentSize && picked == population[j] && IsFirstFittest(Candidates(population, sample), fitness, j))
  {
    var cands := Candidates(population, sample);
    population[WinnerIndex(cands, fitness)]
  }

  // ---------------------------------------------------------------------------------------------
  // rank_selection

  /** A sequence holding i + 1 at each position i holds exactly the values 1..|s|. */
  lemma CountingUpCovers(s: seq<int>)
    requires forall i :: 0 <= i < |s| ==> s[i] == i + 1
    ensures forall k :: k in s <==> 1 <= k <= |s|
  {
    forall k | 1 <= k <= |s|
      ensures k in s
    {
      assert s[k - 1] == k;
    }
  }

  /** ranks = [i+1 for i, _ in enumerate(sorted_population)]: the n ranks, which are the values 1..n. */
  function Ranks(n: nat): (ranks: seq<int>)
    ensures |ranks| == n
    ensures forall k :: k in ranks <==> 1 <= k <= n
  {
    var ranks := seq(n, i requires 0 <= i < n => i + 1);
    CountingUpCovers(ranks);
    ranks
  }

  /** Python's sum over integers. */
  function SumInt(s: seq<int>): int
  {
    if s == [] then 0 else SumInt(s[..|s| - 1]) + s[|s| - 1]
  }

  /** The ranks as the reals rank / sum(ranks) divides. */
  function RankValues(n: nat): (values: seq<real>)
  {
    seq(n, i requires 0 <= i < n => Ranks(n)[i] as real)
  }

  /** The ranks are 1..n and sum to n (n + 1) / 2. */
  lemma {:induction false} SumOfRanks(n: nat)
    ensures |Ranks(n)| == n && forall i :: 0 <= i < n ==> Ranks(n)[i] == i + 1
    ensures 2 * SumInt(Ranks(n)) == n * (n + 1)
    ensures Sum(RankValues(n)) == SumInt(Ranks(n)) as real
  {
    if n > 0 {
      SumOfRanks(n - 1);
      assert Ranks(n)[..n - 1] == Ranks(n - 1);
      assert RankValues(n)[..n - 1] == RankValues(n - 1);
    }
  }

  /** The closed form 2 (i + 1) / (n (n + 1)) of the i-th threshold rank / sum(ranks). */
  function RankThreshold(n: nat, i: nat): real
    requires n > 0
  {
    (2 * (i + 1)) as real / (n * (n + 1)) as real
  }

  lemma DivideBothByTwo(x: real, y: real)
    requires y > 0.0
    ensures x / y == (2.0 * x) / (2.0 * y)
  {
  }

  /** Each threshold rank / sum(ranks) equals its closed form. */
  lemma RankThresholdIsClosedForm(n: nat, i: nat)
    requires i < n
    ensures Sum(RankValues(n)) > 0.0
    ensures RankValues(n)[i] / Sum(RankValues(n)) == RankThreshold(n, i)
  {
    SumOfRanks(n);
    var total := SumInt(Ranks(n)) as real;
    assert (n * (n + 1)) as real == 2.0 * total;
    assert (2 * (i + 1)) as real == 2.0 * ((i + 1) as real);
    assert RankValues(n)[i] == (i + 1) as real;
    DivideBothByTwo((i + 1) as real, total);
  }

  /** The thresholds strictly increase. */
  lemma RankThresholdsIncrease(n: nat, i: nat, j: nat)
    requires i < j < n
    ensures RankThreshold(n, i) < RankThreshold(n, j)
  {
    var d := (n * (n + 1)) as real;
    assert d > 0.0;
    assert (2 * (i + 1)) as real < (2 * (j + 1)) as real;
  }

  /**
   * rank_selection: sort by descending fitness, then return the sorted individual at the least i
   * with r <= rank_i / sum(ranks) = 2 (i + 1) / (n (n + 1)); None when r > 2 / (n + 1) or
   * the population is empty. There is no running total.
   */
  function RankSelection<T>(population: seq<T>, fitness: seq<real>, r: real): (picked: Option<T>)
    ensures var sorted := SortDesc(Zip(population, fitness));
      picked.None? <==> |sorted| == 0 || r > 2.0 / (|sorted| + 1) as real
    ensures var sorted := SortDesc(Zip(population, fitness));
      picked.Some? ==>
        (|sorted| > 0 &&
         exists i :: 0 <= i < |sorted| && picked.value == sorted[i].0 && r <= RankThreshold(|sorted|, i) &&
           forall k :: 0 <= k < i ==> r > RankThreshold(|sorted|, k))
  {
    var sorted := SortDesc(Zip(population, fitness));
    var n := |sorted|;
    if n == 0 then None
    else
      RankThresholdsAgree(n, r);
      match FirstShareAtLeast(RankValues(n), Sum(RankValues(n)), r, 0)
      case None => None
      case Some(i) => Some(sorted[i].0)
  }

  lemma RankThresholdsAgree(n: nat, r: real)
    requires n > 0
    ensures |RankValues(n)| == n && Sum(RankValues(n)) != 0.0
    ensures forall i :: 0 <= i < n ==> RankValues(n)[i] / Sum(RankValues(n)) == RankThreshold(n, i)
    ensures (forall i :: 0 <= i < n ==> r > RankThreshold(n, i)) <==> r > 2.0 / (n + 1) as real
  {
    RankThresholdIsClosedForm(n, 0);
    forall i | 0 <= i < n
      ensures RankValues(n)[i] / Sum(RankValues(n)) == RankThreshold(n, i)
    {
      RankThresholdIsClosedForm(n, i);
    }
    forall i | 0 <= i < n - 1
      ensures RankThreshold(n, i) < RankThreshold(n, n - 1)
    {
      RankThresholdsIncrease(n, i, n - 1);
    }
    RankThresholdLast(n);
  }

  lemma RankThresholdLast(n: nat)
    requires n > 0
    ensures RankThreshold(n, n - 1) == 2.0 / (n + 1) as real
  {
    var d := (n * (n + 1)) as real;
    assert d == (n as real) * ((n + 1) as real);
    assert (2 * n) as real == 2.0 * (n as real);
  }

  // ---------------------------------------------------------------------------------------------
  // truncation_selection and elite_selection

  /** cutoff = int(len(sorted_population) * truncation_value). */
  function TruncationCutoff(n: nat, truncationValue: real): int
  {
    TruncToZero((n as real) * truncationValue)
  }

  lemma CutoffInRange(n: nat, truncationValue: real)
    ensures 0.0 <= truncationValue <= 1.0 ==>
      0 <= TruncationCutoff(n, truncationValue) <= n &&
      TruncationCutoff(n, truncationValue) == ((n as real) * truncationValue).Floor
  {
    if 0.0 <= truncationValue <= 1.0 {
      assert (n as real) * truncationValue <= (n as real) * 1.0;
      assert 0.0 <= (n as real) * truncationValue;
    }
  }

  /**
   * truncation_selection: the individuals of the first int(n * truncation_value) pairs of the
   * stably sorted list; for a value in [0, 1] that is exactly floor(n * truncation_value) of them
   * (5 of 10 for 0.5).
   */
  function TruncationSelection<T>(population: seq<T>, fitness: seq<real>, truncationValue: real): (survivors: seq<T>)
    ensures 0.0 <= truncationValue <= 1.0 ==>
      |survivors| == ((|Zip(population, fitness)| as real) * truncationValue).Floor
  {
    var sorted := SortDesc(Zip(population, fitness));
    SortDescPermutes(Zip(population, fitness));
    CutoffInRange(|sorted|, truncationValue);
    Firsts(PyPrefix(sorted, TruncationCutoff(|sorted|, truncationValue)))
  }

  /** elite_selection: the individuals of the first elite_size pairs of the stably sorted list. */
  function EliteSelection<T>(population: seq<T>, fitness: seq<real>, eliteSize: int): (elite: seq<T>)
    ensures eliteSize >= 0 ==>
      |elite| == if eliteSize < |Zip(population, fitness)| then eliteSize else |Zip(population, fitness)|
  {
    var sorted := SortDesc(Zip(population, fitness));
    SortDescPermutes(Zip(population, fitness));
    Firsts(PyPrefix(sorted, eliteSize))
  }

  /**
   * A prefix slice of the sorted pairs and the rest split the input pairs, and every kept pair is
   * at least as fit as every pair left out.
   */
  lemma SortedPrefixOutranksRest<T>(pairs: seq<(T, real)>, c: int)
    ensures var sorted := SortDesc(pairs);
      var kept := PyPrefix(sorted, c);
      var dropped := sorted[|kept|..];
      multiset(kept) + multiset(dropped) == multiset(pairs) &&
      forall i, j :: 0 <= i < |kept| && 0 <= j < |dropped| ==> kept[i].1 >= dropped[j].1
  {
    var sorted := SortDesc(pairs);
    SortDescPermutes(pairs);
    SortDescNonIncreasing(pairs);
    var kept := PyPrefix(sorted, c);
    var dropped := sorted[|kept|..];
    assert kept + dropped == sorted;
    forall i, j | 0 <= i < |kept| && 0 <= j < |dropped|
      ensures kept[i].1 >= dropped[j].1
    {
      assert kept[i] == sorted[i] && dropped[j] == sorted[|kept| + j];
    }
  }

  /** Truncation keeps a set of pairs, split off the input, whose every member outranks every excluded one. */
  lemma TruncationKeepsFittest<T>(population: seq<T>, fitness: seq<real>, truncationValue: real)
    ensures var pairs := Zip(population, fitness);
      var sorted := SortDesc(pairs);
      var kept := PyPrefix(sorted, TruncationCutoff(|sorted|, truncationValue));
      var dropped := sorted[|kept|..];
      TruncationSelection(population, fitness, truncationValue) == Firsts(kept) &&
      multiset(kept) + multiset(dropped) == multiset(pairs) &&
      forall i, j :: 0 <= i < |kept| && 0 <= j < |dropped| ==> kept[i].1 >= dropped[j].1
  {
    var pairs := Zip(population, fitness);
    SortedPrefixOutranksRest(pairs, TruncationCutoff(|SortDesc(pairs)|, truncationValue));
  }

  /** Elite keeps a set of pairs, split off the input, whose every member outranks every excluded one. */
  lemma EliteKeepsFittest<T>(population: seq<T>, fitness: seq<real>, eliteSize: int)
    ensures var pairs := Zip(population, fitness);
      var sorted := SortDesc(pairs);
      var kept := PyPrefix(sorted, eliteSize);
      var dropped := sorted[|kept|..];
      EliteSelection(population, fitness, eliteSize) == Firsts(kept) &&
      multiset(kept) + multiset(dropped) == multiset(pairs) &&
      forall i, j :: 0 <= i < |kept| && 0 <= j < |dropped| ==> kept[i].1 >= dropped[j].1
  {
    SortedPrefixOutranksRest(Zip(population, fitness), eliteSize);
  }

  /** A nonempty elite starts with an individual of maximal fitness. */
  lemma EliteFirstIsFittest<T>(population: seq<T>, fitness: seq<real>, eliteSize: int)
    requires |EliteSelection(population, fitness, eliteSize)| > 0
    ensures exists i ::
      (0 <= i < |Zip(population, fitness)| &&
       EliteSelection(population, fitness, eliteSize)[0] == population[i] &&
       forall j :: 0 <= j < |Zip(population, fitness)| ==> fitness[j] <= fitness[i])
  {
    var pairs := Zip(population, fitness);
    var sorted := SortDesc(pairs);
    SortDescPermutes(pairs);
    SortDescNonIncreasing(pairs);
    assert sorted[0] in multiset(pairs);
    var i :| 0 <= i < |pairs| && pairs[i] == sorted[0];
    forall j | 0 <= j < |pairs|
      ensures fitness[j] <= fitness[i]
    {
      assert pairs[j] in multiset(sorted);
      var m :| 0 <= m < |sorted| && sorted[m] == pairs[j];
      if m > 0 {
        assert sorted[0].1 >= sorted[m].1;
      }
    }
  }

  /** Elite of size int(n * v) and truncation at v are the same prefix of the same sorted list. */
  lemma EliteIsTruncation<T>(population: seq<T>, fitness: seq<real>, eliteSize: int, truncationValue: real)
    requires eliteSize == TruncationCutoff(|Zip(population, fitness)|, truncationValue)
    ensures EliteSelection(population, fitness, eliteSize) == TruncationSelection(population, fitness, truncationValue)
  {
    SortDescPermutes(Zip(population, fitness));
  }
}
