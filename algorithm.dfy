/** The bookkeeping of include/algorithm.hpp's `GeneticAlgorithm`: the
    population with its objective values, the history of each generation's
    best objective, convergence, the optimum, and the loop structure of
    `reproduce`. The problem's `createChromosome` and `evaluate` are
    parameters, doubles are reals, and the random draws are oracles. */
module Algorithm {
  import opened Wrappers

  /** `std::max_element`: the first index holding the largest value. */
  method MaxElement(s: seq<real>) returns (m: nat)
    requires |s| >= 1
    ensures m < |s|
    ensures forall j :: 0 <= j < |s| ==> s[j] <= s[m]
    ensures forall j :: 0 <= j < m ==> s[j] < s[m]
  {
    m := 0;
    var i := 1;
    while i < |s|
      invariant 1 <= i <= |s| && m < i
      invariant forall j :: 0 <= j < i ==> s[j] <= s[m]
      invariant forall j :: 0 <= j < m ==> s[j] < s[m]
    {
      if s[m] < s[i] {
        m := i;
      }
      i := i + 1;
    }
  }

  /** `std::all_of(begin + i, end, v == ...)`: every entry from i on is v. */
  function AllEqualFrom(h: seq<real>, i: nat, v: real): (r: bool)
    requires i <= |h|
    ensures r <==> forall j :: i <= j < |h| ==> h[j] == v
    decreases |h| - i
  {
    i == |h| || (h[i] == v && AllEqualFrom(h, i + 1, v))
  }

  /** `hasConverged(k)` on the history h: false while h has fewer than k
      entries, otherwise whether its last k entries all equal its last. */
  function Converged(h: seq<real>, k: nat): (r: bool)
    ensures r <==> |h| >= k && forall j :: |h| - k <= j < |h| ==> h[j] == h[|h| - 1]
  {
    if |h| < k then false
    else k == 0 || AllEqualFrom(h, |h| - k, h[|h| - 1])
  }

  /** Zero generations of equal values are always there. */
  lemma ConvergedZero(h: seq<real>)
    ensures Converged(h, 0)
  {
  }

  /** Convergence over k generations implies it over fewer. */
  lemma ConvergedMonotone(h: seq<real>, j: nat, k: nat)
    requires j <= k && Converged(h, k)
    ensures Converged(h, j)
  {
  }

  /** One more generation with value v: the history converges over k + 1
      generations exactly when v repeats the old last value and the old
      history converged over k (or k is 0). */
  lemma ConvergedStep(h: seq<real>, v: real, k: nat)
    ensures Converged(h + [v], k + 1) <==> (k == 0 || (|h| >= 1 && h[|h| - 1] == v && Converged(h, k)))
  {
    var h' := h + [v];
    if k >= 1 && Converged(h', k + 1) {
      assert h'[|h| - 1] == h[|h| - 1];
      forall j | |h| - k <= j < |h| ensures h[j] == h[|h| - 1] {
        assert h'[j] == h[j];
      }
    }
    if k >= 1 && |h| >= 1 && h[|h| - 1] == v && Converged(h, k) {
      forall j | |h'| - (k + 1) <= j < |h'| ensures h'[j] == h'[|h'| - 1] {
        if j < |h| {
          assert h'[j] == h[j];
        }
      }
    }
  }

  /** `c` is population member i copied. */
  ghost predicate Copy<C>(c: C, pop: seq<C>)
  {
    exists i :: 0 <= i < |pop| && pop[i] == c
  }

  /** `c` is what `reproduce` may put into the next generation: a copy of a
      selected member, or the first of two selected parents after
      `crossover(pos, second)` with a position in 0..16. */
  ghost predicate Offspring<C>(c: C, pop: seq<C>, cross: (C, C, nat) -> C)
  {
    Copy(c, pop) || exists i, j, p :: 0 <= i < |pop| && 0 <= j < |pop| && 0 <= p <= 16 && c == cross(pop[i], pop[j], p)
  }

  class GeneticAlgorithm<C> {
    /** `problem_.evaluate`. */
    const evaluate: C -> real
    var population: seq<C>
    var objectives: seq<real>
    /** `generation_max_objectives_`. */
    var history: seq<real>
    var mutationProbability: real
    var crossoverProbability: real
    var fitnessA: real
    var fitnessB: real

    /** One objective per member, each the member's evaluation. */
    ghost predicate Valid()
      reads this
    {
      && |objectives| == |population|
      && forall i :: 0 <= i < |population| ==> objectives[i] == evaluate(population[i])
    }

    /** `GeneticAlgorithm(problem, population_size, ...)`: member i is the
        i-th chromosome `createChromosome` returns, `create(i)`, and is
        evaluated as it is added; the history starts empty. */
    constructor (evaluate: C -> real, create: nat -> C, populationSize: nat, mutationProbability: real, crossoverProbability: real)
      ensures this.evaluate == evaluate && Valid()
      ensures |population| == populationSize
      ensures forall i :: 0 <= i < populationSize ==> population[i] == create(i)
      ensures history == [] && fitnessA == 1.0 && fitnessB == 10.0
      ensures this.mutationProbability == mutationProbability && this.crossoverProbability == crossoverProbability
    {
      var pop: seq<C> := [];
      var obj: seq<real> := [];
      var i := 0;
      while i < populationSize
        invariant i <= populationSize && |pop| == |obj| == i
        invariant forall k :: 0 <= k < i ==> pop[k] == create(k) && obj[k] == evaluate(pop[k])
      {
        pop := pop + [create(i)];
        obj := obj + [evaluate(pop[i])];
        i := i + 1;
      }
      this.evaluate := evaluate;
      population := pop;
      objectives := obj;
      history := [];
      this.mutationProbability := mutationProbability;
      this.crossoverProbability := crossoverProbability;
      fitnessA := 1.0;
      fitnessB := 10.0;
    }

    /** `generation()`: the number of recorded generations. */
    function Generation(): nat
      reads this
    {
      |history|
    }

    /** `hasConverged(nr_equal)`. */
    function HasConverged(k: nat): (r: bool)
      reads this
      ensures r <==> Generation() >= k && forall j :: |history| - k <= j < |history| ==> history[j] == history[|history| - 1]
    {
      Converged(history, k)
    }

    /** `optimum()`: the member at the first index of the largest objective. */
    method Optimum() returns (c: C, ghost m: nat)
      requires Valid() && |population| >= 1
      ensures m < |population| && c == population[m]
      ensures forall j :: 0 <= j < |population| ==> evaluate(population[j]) <= evaluate(c)
      ensures forall j :: 0 <= j < m ==> evaluate(population[j]) < evaluate(c)
    {
      var k := MaxElement(objectives);
      m := k;
      c := population[k];
    }

    /** `fitness(objectives)`: it throws unconditionally, a `logic_error`
        when the fitness bounds are out of order and otherwise the
        `RequiresImplementationError` of an unfinished stub. */
    function Fitness(objectives: seq<real>): (r: Result<seq<real>>)
      reads this
      ensures r.Err?
      ensures r.error == LogicError <==> fitnessB <= fitnessA
      ensures r.error != LogicError ==> r.error == RequiresImplementation
    {
      if fitnessB <= fitnessA then Err(LogicError) else Err(RequiresImplementation)
    }

    /** `nextGeneration()` as written: `reproduce` starts with `fitness`,
        which throws, so the call throws and nothing changes. */
    method NextGenerationAsWritten() returns (o: Outcome)
      ensures o.Fail? && o.error == Fitness(objectives).error
    {
      var f := Fitness(objectives);
      o := Fail(f.error);
    }

    /** `nextGeneration()`'s bookkeeping, for `next`, the population that
        reproduction and mutation produce: every objective is recomputed
        from the new population, and its maximum is appended to the
        history. */
    method NextGeneration(next: seq<C>)
      requires Valid() && |next| == |population| >= 1
      modifies this
      ensures Valid() && population == next
      ensures |history| == |old(history)| + 1 && history[..|old(history)|] == old(history)
      ensures history[|history| - 1] in objectives
      ensures forall j :: 0 <= j < |objectives| ==> objectives[j] <= history[|history| - 1]
      ensures Generation() == old(Generation()) + 1
      ensures crossoverProbability == old(crossoverProbability) && mutationProbability == old(mutationProbability)
      ensures fitnessA == old(fitnessA) && fitnessB == old(fitnessB)
    {
      population := next;
      var i := 0;
      while i < |population|
        invariant i <= |population| == |objectives|
        invariant population == next && history == old(history)
        invariant crossoverProbability == old(crossoverProbability) && mutationProbability == old(mutationProbability)
        invariant fitnessA == old(fitnessA) && fitnessB == old(fitnessB)
        invariant forall k :: 0 <= k < i ==> objectives[k] == evaluate(population[k])
      {
        objectives := objectives[i := evaluate(population[i])];
        i := i + 1;
      }
      var m := MaxElement(objectives);
      history := history + [objectives[m]];
    }

    /** The loop structure of `reproduce`: until the next generation is
        full, select up to two survivors, each becoming a parent when its
        crossover roll is at most `crossoverProbability` and going straight
        into the next generation otherwise; then add up to two children,
        each the first parent after crossover with the second. Survivor s
        is member `pick(s) % |pop|` with roll `crossRoll(s)`, and child c
        uses position `posDraw(c) % 17`. Every push is guarded by the
        size of the next generation. */
    method ReproduceLoop(pop: seq<C>, pick: nat -> nat, crossRoll: nat -> real, posDraw: nat -> nat, cross: (C, C, nat) -> C)
        returns (next: seq<C>)
      ensures |next| == |pop|
      ensures forall m :: 0 <= m < |next| ==> Offspring(next[m], pop, cross)
    {
      next := [];
      var s, c := 0, 0;
      while |next| < |pop|
        invariant |next| <= |pop|
        invariant forall m :: 0 <= m < |next| ==> Offspring(next[m], pop, cross)
        decreases |pop| - |next|
      {
        var parents: seq<C> := [];
        var children: seq<C> := [];
        ghost var before := |next|;
        while |parents| < 2 && |next| < |pop|
          invariant |parents| <= 2 && before <= |next| <= |pop|
          invariant forall m :: 0 <= m < |parents| ==> Copy(parents[m], pop)
          invariant forall m :: 0 <= m < |next| ==> Offspring(next[m], pop, cross)
          decreases 2 - |parents| + |pop| - |next|
        {
          var i := pick(s) % |pop|;
          assert Copy(pop[i], pop);
          if crossRoll(s) <= crossoverProbability {
            parents := parents + [pop[i]];
          } else {
            next := next + [pop[i]];
          }
          s := s + 1;
        }
        while |children| < 2 && |next| < |pop|
          invariant |children| <= 2 && before + |children| <= |next| <= |pop|
          invariant |parents| == 2 || |next| == |pop|
          invariant |next| > before || |parents| == 2
          invariant forall m :: 0 <= m < |next| ==> Offspring(next[m], pop, cross)
        {
          var pos := posDraw(c) % 17;
          ghost var i :| 0 <= i < |pop| && pop[i] == parents[0];
          ghost var j :| 0 <= j < |pop| && pop[j] == parents[1];
          var child := cross(parents[0], parents[1], pos);
          assert child == cross(pop[i], pop[j], pos);
          next := next + [child];
          children := children + [child];
          c := c + 1;
        }
      }
    }
  }
}
