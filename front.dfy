/** Extraction of the non-dominated front of a population (task1.py, pareto_sort). */
module Front {
  import opened Objectives

  /** Some member of pop dominates x. Self-comparison is included, as in the source; it is harmless. */
  predicate DominatedIn(x: Individual, pop: seq<Individual>)
  {
    exists j :: 0 <= j < |pop| && Dominates(pop[j], x)
  }

  /** The members of cands, in order, that no member of pop dominates. */
  function FrontOf(cands: seq<Individual>, pop: seq<Individual>): seq<Individual>
  {
    if cands == [] then []
    else
      var last := cands[|cands| - 1];
      FrontOf(cands[..|cands| - 1], pop) + (if DominatedIn(last, pop) then [] else [last])
  }

  /** The Pareto front of a population. */
  function ParetoFront(pop: seq<Individual>): seq<Individual>
  {
    FrontOf(pop, pop)
  }

  /** a is obtained from b by deleting elements, without reordering. */
  predicate IsSubsequence(a: seq<Individual>, b: seq<Individual>)
    decreases |b|
  {
    if a == [] then true
    else if b == [] then false
    else if a[|a| - 1] == b[|b| - 1] then IsSubsequence(a[..|a| - 1], b[..|b| - 1])
    else IsSubsequence(a, b[..|b| - 1])
  }

  lemma {:induction false} SubsequenceLength(a: seq<Individual>, b: seq<Individual>)
    requires IsSubsequence(a, b)
    ensures |a| <= |b|
    decreases |b|
  {
    if a != [] {
      if a[|a| - 1] == b[|b| - 1] {
        SubsequenceLength(a[..|a| - 1], b[..|b| - 1]);
      } else {
        SubsequenceLength(a, b[..|b| - 1]);
      }
    }
  }

  lemma {:induction false} SubsequenceExtend(a: seq<Individual>, b: seq<Individual>, x: Individual)
    requires IsSubsequence(a, b)
    ensures IsSubsequence(a, b + [x])
    decreases |b|, 1
  {
    assert (b + [x])[..|b|] == b;
    if a != [] && a[|a| - 1] == x {
      SubsequenceDropLast(a, b);
    }
  }

  lemma {:induction false} SubsequenceDropLast(a: seq<Individual>, b: seq<Individual>)
    requires a != [] && IsSubsequence(a, b)
    ensures IsSubsequence(a[..|a| - 1], b)
    decreases |b|, 0
  {
    var a', b' := a[..|a| - 1], b[..|b| - 1];
    assert b' + [b[|b| - 1]] == b;
    if a[|a| - 1] != b[|b| - 1] {
      SubsequenceDropLast(a, b');
    }
    SubsequenceExtend(a', b', b[|b| - 1]);
  }

  lemma {:induction false} FrontOfIsSubsequence(cands: seq<Individual>, pop: seq<Individual>)
    ensures IsSubsequence(FrontOf(cands, pop), cands)
  {
    if cands != [] {
      var init, last := cands[..|cands| - 1], cands[|cands| - 1];
      assert init + [last] == cands;
      FrontOfIsSubsequence(init, pop);
      if DominatedIn(last, pop) {
        SubsequenceExtend(FrontOf(init, pop), init, last);
        assert FrontOf(cands, pop) == FrontOf(init, pop);
      } else {
        var f := FrontOf(init, pop) + [last];
        assert f[..|f| - 1] == FrontOf(init, pop);
      }
    }
  }

  /** The front keeps the population's order, so it is no longer than the population. */
  lemma ParetoFrontIsSubsequence(pop: seq<Individual>)
    ensures IsSubsequence(ParetoFront(pop), pop)
    ensures |ParetoFront(pop)| <= |pop|
  {
    FrontOfIsSubsequence(pop, pop);
    SubsequenceLength(ParetoFront(pop), pop);
  }

  lemma {:induction false} FrontOfCount(cands: seq<Individual>, pop: seq<Individual>, x: Individual)
    ensures multiset(FrontOf(cands, pop))[x] == if DominatedIn(x, pop) then 0 else multiset(cands)[x]
  {
    if cands != [] {
      var init, last := cands[..|cands| - 1], cands[|cands| - 1];
      assert init + [last] == cands;
      FrontOfCount(init, pop, x);
    }
  }

  /**
   * x occurs in the front exactly as often as in the population when nothing in the
   * population dominates it, and not at all otherwise: equal duplicates are all kept.
   */
  lemma ParetoFrontCount(pop: seq<Individual>, x: Individual)
    ensures multiset(ParetoFront(pop))[x] == if DominatedIn(x, pop) then 0 else multiset(pop)[x]
    ensures x in ParetoFront(pop) <==> x in pop && !DominatedIn(x, pop)
  {
    FrontOfCount(pop, pop, x);
  }

  /** The index of a member of minimal score. */
  function MinScoreIndex(pop: seq<Individual>): (i: nat)
    requires |pop| > 0
    ensures i < |pop|
    ensures forall j :: 0 <= j < |pop| ==> Score(pop[i]) <= Score(pop[j])
  {
    if |pop| == 1 then 0
    else
      var i := MinScoreIndex(pop[..|pop| - 1]);
      assert forall j :: 0 <= j < |pop| - 1 ==> pop[..|pop| - 1][j] == pop[j];
      if Score(pop[|pop| - 1]) < Score(pop[i]) then |pop| - 1 else i
  }

  /**
   * The front is empty exactly when the population is: in a nonempty population the member of
   * least score is not dominated.
   */
  lemma ParetoFrontNonEmpty(pop: seq<Individual>)
    ensures |ParetoFront(pop)| > 0 <==> |pop| > 0
  {
    ParetoFrontIsSubsequence(pop);
    if pop == [] {
      return;
    }
    var x := pop[MinScoreIndex(pop)];
    forall j | 0 <= j < |pop|
      ensures !Dominates(pop[j], x)
    {
      if Dominates(pop[j], x) {
        DominatesLowersScore(pop[j], x);
      }
    }
    ParetoFrontCount(pop, x);
    assert x in pop;
  }

  lemma {:induction false} FrontOfWithOneDominator(pop: seq<Individual>, i: nat, m: nat)
    requires i < |pop| && m <= |pop|
    requires forall j :: 0 <= j < |pop| && j != i ==> Dominates(pop[i], pop[j])
    ensures FrontOf(pop[..m], pop) == if i < m then [pop[i]] else []
  {
    if m > 0 {
      assert pop[..m][..m - 1] == pop[..m - 1];
      FrontOfWithOneDominator(pop, i, m - 1);
      var last := pop[m - 1];
      if m - 1 == i {
        forall j | 0 <= j < |pop|
          ensures !Dominates(pop[j], last)
        {
          if j == i {
            DominatesIrreflexive(last);
          } else {
            DominatesAsymmetric(pop[i], pop[j]);
          }
        }
      } else {
        assert Dominates(pop[i], last);
      }
    }
  }

  /** If one member dominates every other position, the front is that member alone. */
  lemma ParetoFrontSingleDominator(pop: seq<Individual>, i: nat)
    requires i < |pop|
    requires forall j :: 0 <= j < |pop| && j != i ==> Dominates(pop[i], pop[j])
    ensures ParetoFront(pop) == [pop[i]]
  {
    FrontOfWithOneDominator(pop, i, |pop|);
    assert pop[..|pop|] == pop;
  }

  /** pareto_sort: for each candidate, scan the population for a dominator and stop at the first. */
  method ParetoSort(population: seq<Individual>) returns (front: seq<Individual>)
    ensures front == ParetoFront(population)
  {
    front := [];
    var i := 0;
    while i < |population|
      invariant 0 <= i <= |population|
      invariant front == FrontOf(population[..i], population)
    {
      var dominated := false;
      var j := 0;
      while j < |population|
        invariant 0 <= j <= |population|
        invariant !dominated
        invariant forall k :: 0 <= k < j ==> !Dominates(population[k], population[i])
      {
        if Dominates(population[j], population[i]) {
          dominated := true;
          break;
        }
        j := j + 1;
      }
      assert dominated <==> DominatedIn(population[i], population);
      assert population[..i + 1][..i] == population[..i];
      if !dominated {
        front := front + [population[i]];
      }
      i := i + 1;
    }
    assert population[..|population|] == population;
  }
}
