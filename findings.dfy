/**
 * Three places where selection.py does not do what its names promise: for each, a concrete input
 * on which the code as written misbehaves, and the evidently intended selection with its property.
 */
module SelectionFindings {
  import opened StableSort
  import opened Selection

  // ---------------------------------------------------------------------------------------------
  // Roulette and rank compare r with each share on its own, not with a running total.

  /** Two equal fitness values give shares 0.5 and 0.5; a draw of 0.75 exceeds both. */
  lemma RouletteCanSelectNothing()
    ensures Sum([1.0, 1.0]) == 2.0
    ensures RouletteWheel([0, 1], [1.0, 1.0], 0.75) == None
  {
    assert [1.0, 1.0][..1] == [1.0];
    assert [1.0][..0] == [];
  }

  /** The share of positions 0..k together. */
  function CumulativeShare(fitness: seq<real>, total: real, k: nat): real
    requires total != 0.0 && k < |fitness|
  {
    Sum(fitness[..k + 1]) / total
  }

  /** The standard wheel walk from position i: the first position whose cumulative share reaches r. */
  function FirstCumulativeAtLeast(fitness: seq<real>, total: real, r: real, i: nat): (res: Option<nat>)
    requires total != 0.0 && i <= |fitness|
    ensures res.Some? ==> i <= res.value < |fitness| && r <= CumulativeShare(fitness, total, res.value)
    ensures res.Some? ==> forall k :: i <= k < res.value ==> r > CumulativeShare(fitness, total, k)
    ensures res.None? ==> forall k :: i <= k < |fitness| ==> r > CumulativeShare(fitness, total, k)
    decreases |fitness| - i
  {
    if i == |fitness| then None
    else if r <= CumulativeShare(fitness, total, i) then Some(i)
    else FirstCumulativeAtLeast(fitness, total, r, i + 1)
  }

  /** The whole wheel has share 1, so the walk selects something for every draw up to 1. */
  lemma {:induction false} CumulativeWalkSelects(fitness: seq<real>, r: real)
    requires Sum(fitness) != 0.0
    ensures r <= 1.0 ==> FirstCumulativeAtLeast(fitness, Sum(fitness), r, 0).Some?
  {
    assert fitness != [];
    assert fitness[..|fitness|] == fitness;
    assert CumulativeShare(fitness, Sum(fitness), |fitness| - 1) == 1.0;
  }

  /**
   * Roulette with a running total: population[i] for the least i whose cumulative share reaches r,
   * and always some individual for a draw in [0, 1).
   */
  function CumulativeRouletteWheel<T>(population: seq<T>, fitness: seq<real>, r: real): (picked: Option<T>)
    requires Sum(fitness) != 0.0
    requires |fitness| <= |population|
    ensures r <= 1.0 ==> picked.Some?
    ensures picked.Some? ==>
      exists i :: 0 <= i < |fitness| && picked.value == population[i] &&
        r <= CumulativeShare(fitness, Sum(fitness), i) &&
        forall k :: 0 <= k < i ==> r > CumulativeShare(fitness, Sum(fitness), k)
  {
    CumulativeWalkSelects(fitness, r);
    match FirstCumulativeAtLeast(fitness, Sum(fitness), r, 0)
    case None => None
    case Some(i) => Some(population[i])
  }

  /** On the input that defeats roulette_wheel_selection, the running total picks the second individual. */
  lemma CumulativeRouletteSelectsOnCounterexample()
    ensures CumulativeRouletteWheel([0, 1], [1.0, 1.0], 0.75) == Some(1)
  {
    assert [1.0, 1.0][..1] == [1.0];
    assert [1.0, 1.0][..2] == [1.0, 1.0];
    assert [1.0][..0] == [];
    assert CumulativeShare([1.0, 1.0], 2.0, 0) == 0.5;
    assert CumulativeShare([1.0, 1.0], 2.0, 1) == 1.0;
  }

  /** Two individuals get thresholds 1/3 and 2/3; a draw of 0.9 exceeds both. */
  lemma RankCanSelectNothing()
    ensures RankSelection([0, 1], [1.0, 2.0], 0.9) == None
  {
    var sorted := SortDesc(Zip([0, 1], [1.0, 2.0]));
    assert Zip([0, 1], [1.0, 2.0]) == [(0, 1.0), (1, 2.0)];
    assert |sorted| == 2 by {
      SortDescPermutes(Zip([0, 1], [1.0, 2.0]));
    }
    assert 0.9 > 2.0 / 3.0;
  }

  /**
   * Rank selection with a running total over the ranks: the sorted individual at the least i whose
   * cumulative rank share reaches r, and always some individual of a nonempty population.
   */
  function CumulativeRankSelection<T>(population: seq<T>, fitness: seq<real>, r: real): (picked: Option<T>)
    ensures var n := |SortDesc(Zip(population, fitness))|;
      n > 0 && r <= 1.0 ==> picked.Some?
    ensures var sorted := SortDesc(Zip(population, fitness));
      picked.Some? ==>
        (|sorted| > 0 && Sum(RankValues(|sorted|)) > 0.0 &&
         exists i :: 0 <= i < |sorted| && picked.value == sorted[i].0 &&
           r <= CumulativeShare(RankValues(|sorted|), Sum(RankValues(|sorted|)), i) &&
           forall k :: 0 <= k < i ==> r > CumulativeShare(RankValues(|sorted|), Sum(RankValues(|sorted|)), k))
  {
    var sorted := SortDesc(Zip(population, fitness));
    var n := |sorted|;
    if n == 0 then None
    else
      RankThresholdIsClosedForm(n, 0);
      CumulativeWalkSelects(RankValues(n), r);
      match FirstCumulativeAtLeast(RankValues(n), Sum(RankValues(n)), r, 0)
      case None => None
      case Some(i) => Some(sorted[i].0)
  }

  // ---------------------------------------------------------------------------------------------
  // Tournament returns population[j] for the winner's position j in the candidate list.

  /**
   * Sampling positions [2, 1] of [0, 1, 2] with fitness equal to the value: the fittest candidate 2
   * stands at position 0 of the candidate list, so population[0] = 0 is returned, the least fit
   * individual and not a candidate at all.
   */
  lemma TournamentCanReturnNonCandidate()
    ensures Candidates([0, 1, 2], [2, 1]) == [2, 1]
    ensures TournamentSelection([0, 1, 2], map[0 := 0.0, 1 := 1.0, 2 := 2.0], 2, [2, 1]) == 0
  {
    var fitness := map[0 := 0.0, 1 := 1.0, 2 := 2.0];
    var cands := Candidates([0, 1, 2], [2, 1]);
    assert cands == [2, 1];
    assert IsFirstFittest(cands, fitness, 0);
    var j := WinnerIndex(cands, fitness);
    assert j == 0;
  }

  /** Tournament that returns the fittest candidate itself (the first one on a tie). */
  function TournamentWinner<T(==)>(population: seq<T>, fitness: map<T, real>, tournamentSize: int,
                                   sample: seq<nat>): (winner: T)
    requires 1 <= tournamentSize <= |population|
    requires IsSample(sample, |population|, tournamentSize)
    requires forall k :: 0 <= k < |sample| ==> population[sample[k]] in fitness
    ensures winner in Candidates(population, sample)
    ensures winner in fitness
    ensures forall k :: 0 <= k < |sample| ==> fitness[Candidates(population, sample)[k]] <= fitness[winner]
  {
    var cands := Candidates(population, sample);
    cands[WinnerIndex(cands, fitness)]
  }
}
