/** Blend crossover and single-gene mutation (task1.py, crossover and mutate). */
module Variation {
  import opened Objectives

  /** The weighted mix w * a + (1 - w) * b of two gene values. */
  function Mix(a: real, b: real, w: real): real
  {
    w * a + (1.0 - w) * b
  }

  /** The gene-wise blend w * p + (1 - w) * q. */
  function Blend(p: Individual, q: Individual, w: real): Individual
  {
    [Mix(p[0], q[0], w), Mix(p[1], q[1], w)]
  }

  /**
   * crossover with the drawn blend weight alpha: child1 = alpha * parent1 + (1 - alpha) * parent2,
   * child2 = (1 - alpha) * parent1 + alpha * parent2. The two children share the parents' gene sums.
   */
  function Crossover(parent1: Individual, parent2: Individual, alpha: real): (children: (Individual, Individual))
    ensures forall k :: 0 <= k < 2 ==> children.0[k] + children.1[k] == parent1[k] + parent2[k]
  {
    (Blend(parent1, parent2, alpha), Blend(parent2, parent1, alpha))
  }

  /** A convex combination of two points of an interval stays in the interval. */
  lemma ConvexInInterval(lo: real, hi: real, p: real, q: real, w: real)
    requires lo <= p <= hi && lo <= q <= hi && 0.0 <= w <= 1.0
    ensures lo <= Mix(p, q, w) <= hi
  {
    assert w * (p - lo) >= 0.0;
    assert (1.0 - w) * (q - lo) >= 0.0;
    assert w * (hi - p) >= 0.0;
    assert (1.0 - w) * (hi - q) >= 0.0;
  }

  /** A blend of two points of the gene box with a weight in [0, 1] lies in the box. */
  lemma BlendInBox(p: Individual, q: Individual, w: real)
    requires InBox(p) && InBox(q)
    requires 0.0 <= w <= 1.0
    ensures InBox(Blend(p, q, w))
  {
    var b := Blend(p, q, w);
    ConvexInInterval(X1Low, X1High, p[0], q[0], w);
    ConvexInInterval(X2Low, X2High, p[1], q[1], w);
    assert b[0] == Mix(p[0], q[0], w) && b[1] == Mix(p[1], q[1], w);
  }

  /** For a weight in [0, 1], parents inside the gene box give children inside the box. */
  lemma CrossoverInBox(parent1: Individual, parent2: Individual, alpha: real)
    requires InBox(parent1) && InBox(parent2)
    requires 0.0 <= alpha <= 1.0
    ensures InBox(Crossover(parent1, parent2, alpha).0)
    ensures InBox(Crossover(parent1, parent2, alpha).1)
  {
    BlendInBox(parent1, parent2, alpha);
    BlendInBox(parent2, parent1, alpha);
  }

  /** With alpha = 0.5, parents [1, 1] and [3, 2] both give the child [2, 1.5]. */
  lemma CrossoverMidpoint()
    ensures Crossover([1.0, 1.0], [3.0, 2.0], 0.5) == ([2.0, 1.5], [2.0, 1.5])
  {
    var children := Crossover([1.0, 1.0], [3.0, 2.0], 0.5);
    assert children.0[0] == 2.0 && children.0[1] == 1.5;
    assert children.1[0] == 2.0 && children.1[1] == 1.5;
  }

  /** A gene index drawn from {0, 1} and a fresh value drawn from that gene's domain. */
  predicate ValidGeneDraw(idx: int, value: real)
  {
    (idx == 0 && X1Low <= value <= X1High) || (idx == 1 && X2Low <= value <= X2High)
  }

  /**
   * The individual after mutate, given the draw r compared with the rate and, when r is below
   * the rate, the drawn gene index and value.
   */
  function Mutated(ind: Individual, r: real, mutationRate: real, idx: int, value: real): Individual
    requires r < mutationRate ==> ValidGeneDraw(idx, value)
  {
    if r < mutationRate then
      if idx == 0 then ind[0 := value] else ind[1 := value]
    else ind
  }

  /** A draw at or above the rate leaves the individual unchanged. */
  lemma MutatedUnchanged(ind: Individual, r: real, mutationRate: real, idx: int, value: real)
    requires r >= mutationRate
    ensures Mutated(ind, r, mutationRate, idx, value) == ind
  {
  }

  /** Below the rate, exactly gene idx takes the drawn value and the other gene is untouched. */
  lemma MutatedOneGene(ind: Individual, r: real, mutationRate: real, idx: int, value: real)
    requires r < mutationRate && ValidGeneDraw(idx, value)
    ensures Mutated(ind, r, mutationRate, idx, value)[idx] == value
    ensures Mutated(ind, r, mutationRate, idx, value)[1 - idx] == ind[1 - idx]
    ensures idx == 0 ==> X1Low <= Mutated(ind, r, mutationRate, idx, value)[0] <= X1High
    ensures idx == 1 ==> X2Low <= Mutated(ind, r, mutationRate, idx, value)[1] <= X2High
  {
  }

  /** Mutation keeps an individual inside the gene box. */
  lemma MutatedInBox(ind: Individual, r: real, mutationRate: real, idx: int, value: real)
    requires r < mutationRate ==> ValidGeneDraw(idx, value)
    requires InBox(ind)
    ensures InBox(Mutated(ind, r, mutationRate, idx, value))
  {
  }

  /** mutate: overwrites at most one gene of the individual in place. */
  method Mutate(individual: array<real>, mutationRate: real, r: real, idx: int, value: real)
    requires individual.Length == 2
    requires r < mutationRate ==> ValidGeneDraw(idx, value)
    modifies individual
    ensures individual[..] == Mutated(old(individual[..]), r, mutationRate, idx, value)
  {
    if r < mutationRate {
      if idx == 0 {
        individual[0] := value;
      } else {
        individual[1] := value;
      }
    }
  }
}
