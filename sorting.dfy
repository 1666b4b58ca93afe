/**
 * The sort shared by rank, truncation and elite selection (selection.py):
 * sorted(zip(population, fitness_values), key=lambda x: x[1], reverse=True), a stable sort of
 * (individual, fitness) pairs into non-increasing fitness, and the Python prefix slice s[:c].
 */
module StableSort {

  /** zip(population, fitness_values): pairs up to the shorter of the two. */
  function Zip<T>(population: seq<T>, fitness: seq<real>): (pairs: seq<(T, real)>)
    ensures |pairs| <= |population| && |pairs| <= |fitness|
    ensures |pairs| == |population| || |pairs| == |fitness|
    ensures forall i :: 0 <= i < |pairs| ==> pairs[i].0 == population[i] && pairs[i].1 == fitness[i]
  {
    var n := if |population| < |fitness| then |population| else |fitness|;
    seq(n, i requires 0 <= i < n => (population[i], fitness[i]))
  }

  /** [x[0] for x in pairs]. */
  function Firsts<T>(pairs: seq<(T, real)>): seq<T>
  {
    seq(|pairs|, i requires 0 <= i < |pairs| => pairs[i].0)
  }

  /** Inserts x before the first pair of strictly lower fitness, i.e. ahead of its equals. */
  function Insert<T>(x: (T, real), s: seq<(T, real)>): seq<(T, real)>
  {
    if s == [] || x.1 >= s[0].1 then [x] + s
    else [s[0]] + Insert(x, s[1..])
  }

  /**
   * The stable sort by descending fitness, as insertion sort from the back. An input that is
   * already in non-increasing order comes back unchanged.
   */
  function SortDesc<T>(s: seq<(T, real)>): (sorted: seq<(T, real)>)
    ensures NonIncreasing(s) ==> sorted == s
  {
    if s == [] then []
    else
      assert NonIncreasing(s) ==> NonIncreasing(s[1..]);
      assert [s[0]] + s[1..] == s;
      Insert(s[0], SortDesc(s[1..]))
  }

  predicate NonIncreasing<T>(s: seq<(T, real)>)
  {
    forall i, j :: 0 <= i < j < |s| ==> s[i].1 >= s[j].1
  }

  /** The pairs of s whose fitness is v, in their order in s. */
  function WithFitness<T>(s: seq<(T, real)>, v: real): seq<(T, real)>
  {
    if s == [] then []
    else (if s[0].1 == v then [s[0]] else []) + WithFitness(s[1..], v)
  }

  lemma {:induction false} InsertPermutes<T>(x: (T, real), s: seq<(T, real)>)
    ensures multiset(Insert(x, s)) == multiset([x] + s)
    ensures |Insert(x, s)| == |s| + 1
  {
    if s != [] && x.1 < s[0].1 {
      InsertPermutes(x, s[1..]);
      assert [s[0]] + s[1..] == s;
    }
  }

  lemma {:induction false} InsertNonIncreasing<T>(x: (T, real), s: seq<(T, real)>)
    requires NonIncreasing(s)
    ensures NonIncreasing(Insert(x, s))
    ensures Insert(x, s) != [] && (Insert(x, s)[0] == x || (s != [] && Insert(x, s)[0] == s[0]))
  {
    if s != [] && x.1 < s[0].1 {
      var t := Insert(x, s[1..]);
      assert NonIncreasing(s[1..]);
      InsertNonIncreasing(x, s[1..]);
      assert s[0].1 >= t[0].1;
      var u := [s[0]] + t;
      assert forall j :: 0 < j < |u| ==> u[j] == t[j - 1];
      forall i, j | 0 <= i < j < |u|
        ensures u[i].1 >= u[j].1
      {
        if i > 0 {
          assert u[i] == t[i - 1];
        } else if j > 1 {
          assert t[0].1 >= t[j - 1].1;
        }
      }
    }
  }

  lemma {:induction false} InsertKeepsEqualFitnessOrder<T>(x: (T, real), s: seq<(T, real)>, v: real)
    ensures WithFitness(Insert(x, s), v) == WithFitness([x] + s, v)
  {
    if s != [] && x.1 < s[0].1 {
      InsertKeepsEqualFitnessOrder(x, s[1..], v);
      assert ([x] + s)[1..] == s;
      assert ([x] + s[1..])[1..] == s[1..];
      assert ([s[0]] + Insert(x, s[1..]))[1..] == Insert(x, s[1..]);
    }
  }

  /** The sort returns a permutation of its input. */
  lemma {:induction false} SortDescPermutes<T>(s: seq<(T, real)>)
    ensures multiset(SortDesc(s)) == multiset(s)
    ensures |SortDesc(s)| == |s|
  {
    if s != [] {
      SortDescPermutes(s[1..]);
      InsertPermutes(s[0], SortDesc(s[1..]));
      assert [s[0]] + s[1..] == s;
    }
  }

  /** The sort's output is in non-increasing fitness. */
  lemma {:induction false} SortDescNonIncreasing<T>(s: seq<(T, real)>)
    ensures NonIncreasing(SortDesc(s))
  {
    if s != [] {
      SortDescNonIncreasing(s[1..]);
      InsertNonIncreasing(s[0], SortDesc(s[1..]));
    }
  }

  /** Stability: the pairs of each fitness value keep their input order. */
  lemma {:induction false} SortDescStable<T>(s: seq<(T, real)>, v: real)
    ensures WithFitness(SortDesc(s), v) == WithFitness(s, v)
  {
    if s != [] {
      SortDescStable(s[1..], v);
      InsertKeepsEqualFitnessOrder(s[0], SortDesc(s[1..]), v);
      assert ([s[0]] + SortDesc(s[1..]))[1..] == SortDesc(s[1..]);
    }
  }

  lemma {:induction false} WithFitnessWitness<T>(s: seq<(T, real)>, v: real)
    requires WithFitness(s, v) != []
    ensures exists j :: 0 <= j < |s| && s[j].1 == v
  {
    if s[0].1 != v {
      WithFitnessWitness(s[1..], v);
      var j :| 0 <= j < |s[1..]| && s[1..][j].1 == v;
      assert s[j + 1].1 == v;
    }
  }

  lemma HeadClassNonEmpty<T>(s: seq<(T, real)>)
    ensures s != [] ==> WithFitness(s, s[0].1) != []
  {
  }

  /** Two non-increasing sequences with the same pairs of each fitness, in the same order, are equal. */
  lemma {:induction false} SortedWithSameFitnessClassesEqual<T>(t: seq<(T, real)>, u: seq<(T, real)>)
    requires NonIncreasing(t) && NonIncreasing(u)
    requires forall v :: WithFitness(t, v) == WithFitness(u, v)
    ensures t == u
    decreases |t|
  {
    if t == [] || u == [] {
      // An empty side has no pair of any fitness, so the other side is empty too.
      HeadClassNonEmpty(t);
      HeadClassNonEmpty(u);
    } else {
      var a, b := t[0].1, u[0].1;
      assert WithFitness(u, a) == WithFitness(t, a) != [];
      WithFitnessWitness(u, a);
      assert WithFitness(t, b) == WithFitness(u, b) != [];
      WithFitnessWitness(t, b);
      assert a == b;
      assert WithFitness(t, a)[0] == t[0] && WithFitness(u, a)[0] == u[0];
      forall v
        ensures WithFitness(t[1..], v) == WithFitness(u[1..], v)
      {
        if v == a {
          assert WithFitness(t, v)[1..] == WithFitness(t[1..], v);
          assert WithFitness(u, v)[1..] == WithFitness(u[1..], v);
        } else {
          assert WithFitness(t, v) == WithFitness(t[1..], v);
          assert WithFitness(u, v) == WithFitness(u[1..], v);
        }
      }
      assert NonIncreasing(t[1..]) && NonIncreasing(u[1..]);
      SortedWithSameFitnessClassesEqual(t[1..], u[1..]);
      assert t == [t[0]] + t[1..] && u == [u[0]] + u[1..];
    }
  }

  /**
   * SortDesc is the stable descending sort: any non-increasing arrangement that keeps the
   * pairs of each fitness value in their input order is SortDesc's output.
   */
  lemma SortDescIsTheStableSort<T>(s: seq<(T, real)>, t: seq<(T, real)>)
    requires NonIncreasing(t)
    requires forall v :: WithFitness(t, v) == WithFitness(s, v)
    ensures t == SortDesc(s)
  {
    SortDescNonIncreasing(s);
    forall v
      ensures WithFitness(t, v) == WithFitness(SortDesc(s), v)
    {
      SortDescStable(s, v);
    }
    SortedWithSameFitnessClassesEqual(t, SortDesc(s));
  }

  /** Python's int() of a float: the integer nearest to x in the direction of zero. */
  function TruncToZero(x: real): (n: int)
    ensures 0.0 <= x ==> 0.0 <= n as real <= x < n as real + 1.0
    ensures x < 0.0 ==> n as real - 1.0 < x <= n as real <= 0.0
  {
    if x >= 0.0 then x.Floor else -((-x).Floor)
  }

  /** Python's s[:c]: a negative c counts from the end, a c past the end keeps everything. */
  function PyPrefix<T>(s: seq<T>, c: int): (p: seq<T>)
    ensures |p| == if c >= |s| then |s| else if c >= 0 then c else if |s| + c >= 0 then |s| + c else 0
    ensures p == s[..|p|]
  {
    if c >= |s| then s
    else if c >= 0 then s[..c]
    else if |s| + c >= 0 then s[..|s| + c]
    else []
  }
}
