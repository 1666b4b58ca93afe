/** Genes, the two objective functions and Pareto dominance (task1.py, evaluate and dominates). */
module Objectives {

  /** An individual is the list [x1, x2] of two real genes. */
  type Individual = s: seq<real> | |s| == 2 witness [1.0, 1.0]

  /** The values of the two objectives, both minimised. */
  datatype ObjectiveVector = ObjectiveVector(f1: real, f2: real)

  /** The legal domain of each gene: x1 in [1, 4], x2 in [1, 2]. */
  const X1Low: real := 1.0
  const X1High: real := 4.0
  const X2Low: real := 1.0
  const X2High: real := 2.0

  predicate InBox(ind: Individual)
  {
    X1Low <= ind[0] <= X1High && X2Low <= ind[1] <= X2High
  }

  predicate AllInBox(pop: seq<Individual>)
  {
    forall k :: 0 <= k < |pop| ==> InBox(pop[k])
  }

  lemma ProductNonNegative(a: real, b: real)
    requires 0.0 <= a && 0.0 <= b
    ensures 0.0 <= a * b
  {
  }

  /** The products in the objectives, bounded over the gene box. */
  lemma ProductBounds(x1: real, x2: real)
    ensures X1Low <= x1 <= X1High && X2Low <= x2 <= X2High ==>
      1.0 <= x1 * x1 <= 16.0 && -4.0 <= x1 * (1.0 - x2) <= 0.0
  {
    if X1Low <= x1 <= X1High && X2Low <= x2 <= X2High {
      ProductNonNegative(x1 - 1.0, x1 + 1.0);
      ProductNonNegative(4.0 - x1, 4.0 + x1);
      ProductNonNegative(x1, x2 - 1.0);
      ProductNonNegative(4.0 - x1, x2 - 1.0);
    }
  }

  /**
   * f1 = x1^2 / 4 and f2 = x1 * (1 - x2) + 5. Over the gene box, f1 ranges over [1/4, 4] and
   * f2 over [1, 5].
   */
  function Evaluate(ind: Individual): (v: ObjectiveVector)
    ensures InBox(ind) ==> 0.25 <= v.f1 <= 4.0 && 1.0 <= v.f2 <= 5.0
  {
    ProductBounds(ind[0], ind[1]);
    ObjectiveVector(ind[0] * ind[0] / 4.0, ind[0] * (1.0 - ind[1]) + 5.0)
  }

  /** u is no worse than v in both objectives and strictly better in one. */
  predicate DominatesVector(u: ObjectiveVector, v: ObjectiveVector)
  {
    (u.f1 <= v.f1 && u.f2 <= v.f2) && (u.f1 < v.f1 || u.f2 < v.f2)
  }

  /**
   * a Pareto-dominates b, always judged on freshly evaluated objectives; individuals with the
   * same objective values never dominate each other.
   */
  predicate Dominates(a: Individual, b: Individual): (d: bool)
    ensures d ==> Evaluate(a) != Evaluate(b)
  {
    DominatesVector(Evaluate(a), Evaluate(b))
  }

  /** The sum of both objectives; dominance strictly decreases it. */
  function Score(ind: Individual): real
  {
    Evaluate(ind).f1 + Evaluate(ind).f2
  }

  lemma DominatesIrreflexive(a: Individual)
    ensures !Dominates(a, a)
  {
  }

  lemma DominatesAsymmetric(a: Individual, b: Individual)
    ensures !(Dominates(a, b) && Dominates(b, a))
  {
  }

  lemma DominatesTransitive(a: Individual, b: Individual, c: Individual)
    requires Dominates(a, b) && Dominates(b, c)
    ensures Dominates(a, c)
  {
  }

  /** Dominance implies a strictly smaller score, so it is well founded on a finite population. */
  lemma DominatesLowersScore(a: Individual, b: Individual)
    requires Dominates(a, b)
    ensures Score(a) < Score(b)
  {
  }

  /** [2, 1] evaluates to (1.0, 5.0), [3, 1] to (2.25, 5.0); the first dominates the second only. */
  lemma DominanceExample()
    ensures Evaluate([2.0, 1.0]) == ObjectiveVector(1.0, 5.0)
    ensures Evaluate([3.0, 1.0]) == ObjectiveVector(2.25, 5.0)
    ensures Dominates([2.0, 1.0], [3.0, 1.0])
    ensures !Dominates([3.0, 1.0], [2.0, 1.0])
  {
  }
}
