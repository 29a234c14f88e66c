/**
 * The generational loop: evaluate, rank, breed the top pairs, carry the best
 * parents over, mutate, repeat; then hand back the first individual.
 * Every random decision of a generation arrives as a `GenerationDraws` value.
 */
module Genetic {
  import opened Options
  import opened Tours
  import opened Graph
  import opened Mutation
  import opened Crossover
  import opened Selection

  /**
   * The run's configuration. `crossoverPairCount` stands for the program's
   * `floor(crossover_probability * population_size)`, which stays the same
   * for every generation; the mutation probability shows up only through
   * which individuals the draws mutate.
   */
  datatype GAParameters = GAParameters(
    populationSize: nat,
    crossoverPairCount: nat,
    maxGenerations: nat,
    mutationType: MutationType,
    crossoverType: CrossoverType)

  /**
   * The random decisions of one generation: one crossover draw per breeding
   * pair, and per individual either `None` (its probability test failed) or
   * the positions its mutation draws.
   */
  datatype GenerationDraws = GenerationDraws(cuts: seq<(nat, nat)>, mutations: seq<Option<MutationDraw>>)

  /** One line of the per-generation log: index, best fitness, best fitness so far. */
  datatype GenerationReport = GenerationReport(generation: nat, bestFitness: int, allTimeBest: int)

  /** The tour handed back and the log of every generation. */
  datatype RunResult = RunResult(best: Tour, reports: seq<GenerationReport>)

  /** `isize::MAX`, the starting value of the best fitness so far. */
  const IsizeMax: int := 0x7FFF_FFFF_FFFF_FFFF

  /** Every individual is a tour through all `n` cities. */
  predicate IsPopulation(population: seq<Tour>, size: nat, n: nat) {
    |population| == size && AllPermutations(population, n)
  }

  /** A graph the fitness loop can run on: a square matrix over at least one city. */
  predicate Runnable(g: MatrixGraph) {
    g.size >= 1 && IsSquare(g.adjMatrix, g.size)
  }

  /** How many children a generation breeds: the pair count, capped by the number of distinct pairs. */
  function ChildCount(params: GAParameters): nat {
    Min(params.crossoverPairCount, PairCapacity(params.populationSize))
  }

  /** The draws lie in the ranges the program draws them from, for tours of `n` cities. */
  predicate DrawsFit(params: GAParameters, n: nat, draws: GenerationDraws) {
    && |draws.cuts| == ChildCount(params)
    && (forall k :: 0 <= k < |draws.cuts| ==> CutsFit(params.crossoverType, draws.cuts[k], n))
    && |draws.mutations| == params.populationSize
    && forall i :: 0 <= i < |draws.mutations| && draws.mutations[i].Some? ==>
         DrawFits(params.mutationType, draws.mutations[i].value, n)
  }

  /** Every generation's draws lie in range. */
  predicate AllDrawsFit(params: GAParameters, n: nat, draws: seq<GenerationDraws>) {
    forall k :: 0 <= k < |draws| ==> DrawsFit(params, n, draws[k])
  }

  lemma AllDrawsFitTail(params: GAParameters, n: nat, draws: seq<GenerationDraws>)
    requires AllDrawsFit(params, n, draws) && draws != []
    ensures DrawsFit(params, n, draws[0]) && AllDrawsFit(params, n, draws[1..])
  {
    forall k | 0 <= k < |draws| - 1
      ensures DrawsFit(params, n, draws[1..][k])
    {
      assert draws[1..][k] == draws[k + 1];
    }
  }

  /** Every leg of a tour through all cities of a square matrix has a weight. */
  lemma PermutationTourInRange(g: MatrixGraph, path: Tour)
    requires Runnable(g) && IsPermutation(path, g.size)
    ensures TourEdgesInRange(g, path)
  {
    PermutationShape(path, g.size);
    forall i: nat | i < |path|
      ensures LegInRange(g, path, i)
    {
    }
  }

  lemma PopulationInRange(g: MatrixGraph, population: seq<Tour>)
    requires Runnable(g) && IsPopulation(population, |population|, g.size)
    ensures forall i :: 0 <= i < |population| ==> TourEdgesInRange(g, population[i])
  {
    forall i | 0 <= i < |population|
      ensures TourEdgesInRange(g, population[i])
    {
      PermutationTourInRange(g, population[i]);
    }
  }

  /** The closed-tour length of every individual, in population order. */
  function Fitness(g: MatrixGraph, population: seq<Tour>): (fitness: seq<int>)
    requires Runnable(g) && IsPopulation(population, |population|, g.size)
    ensures |fitness| == |population|
    ensures forall i :: 0 <= i < |population| ==> TourEdgesInRange(g, population[i]) && fitness[i] == TourLength(g, population[i])
  {
    PopulationInRange(g, population);
    seq(|population|, i requires 0 <= i < |population| => TourLength(g, population[i]))
  }

  /** The program's fitness loop, one `calculate_path_length` per individual. */
  method CalculateFitness(g: MatrixGraph, population: seq<Tour>) returns (fitness: seq<int>)
    requires forall i :: 0 <= i < |population| ==> TourEdgesInRange(g, population[i])
    ensures |fitness| == |population|
    ensures forall i :: 0 <= i < |population| ==> fitness[i] == TourLength(g, population[i])
  {
    fitness := [];
    for i := 0 to |population|
      invariant |fitness| == i
      invariant forall k :: 0 <= k < i ==> fitness[k] == TourLength(g, population[k])
    {
      var length := CalculatePathLength(g, population[i]);
      fitness := fitness + [length];
    }
  }

  /** The lowest of `start` and the values of `s`. */
  function Lowest(start: int, s: seq<int>): (r: int)
    ensures r <= start
    ensures forall i :: 0 <= i < |s| ==> r <= s[i]
    ensures r == start || r in s
    decreases |s|
  {
    if s == [] then start
    else
      var m := if s[0] < start then s[0] else start;
      var rest := Lowest(m, s[1..]);
      assert forall i :: 1 <= i < |s| ==> s[i] == s[1..][i - 1];
      rest
  }

  /** `fitness.iter().min()`: a value of the sequence no other value undercuts. */
  function BestFitness(fitness: seq<int>): (r: int)
    requires |fitness| >= 1
    ensures r in fitness
    ensures forall i :: 0 <= i < |fitness| ==> r <= fitness[i]
  {
    Lowest(fitness[0], fitness[1..])
  }

  /** The individual ranked first carries the best fitness. */
  lemma TopRankIsBest(fitness: seq<int>)
    requires |fitness| >= 1
    ensures fitness[Rank(fitness)[0]] == BestFitness(fitness)
  {
    var r := Rank(fitness);
    var n := |fitness|;
    PermutationShape(r, n);
    PermutationCounts(r, n);
    var best := BestFitness(fitness);
    var w :| 0 <= w < n && fitness[w] == best;
    assert w in multiset(r);
    var k :| 0 <= k < n && r[k] == w;
    if k > 0 {
      assert RankedBefore(fitness, r[0], r[k]);
    }
  }

  /** Each pair names two individuals of a population of `size`, and each has a draw in range for `n` cities. */
  predicate PairsFit(kind: CrossoverType, pairs: seq<(nat, nat)>, cuts: seq<(nat, nat)>, size: nat, n: nat) {
    && |cuts| == |pairs|
    && (forall k :: 0 <= k < |pairs| ==> pairs[k].0 < size && pairs[k].1 < size)
    && forall k :: 0 <= k < |cuts| ==> CutsFit(kind, cuts[k], n)
  }

  /** Every tour of the sequence runs through all `n` cities. */
  predicate AllPermutations(tours: seq<Tour>, n: nat) {
    forall k :: 0 <= k < |tours| ==> IsPermutation(tours[k], n)
  }

  /** Every individual of a population over `n` cities has `n` positions. */
  lemma PopulationLengths(population: seq<Tour>, n: nat)
    requires AllPermutations(population, n)
    ensures forall i :: 0 <= i < |population| ==> |population[i]| == n
  {
    forall i | 0 <= i < |population|
      ensures |population[i]| == n
    {
      PermutationLength(population[i], n);
    }
  }

  /** The `unwrap`ped crossover child of two permutation parents; it is itself a permutation. */
  function PairChild(kind: CrossoverType, parent1: Tour, parent2: Tour, cut: (nat, nat), n: nat): (child: Tour)
    requires IsPermutation(parent1, n) && IsPermutation(parent2, n)
    requires CutsFit(kind, cut, |parent1|)
    ensures IsPermutation(child, n)
    ensures Some(child) == CrossoverChild(kind, parent1, parent2, cut)
  {
    CrossoverClosure(kind, parent1, parent2, cut, n);
    CrossoverChild(kind, parent1, parent2, cut).value
  }

  /**
   * Breeds one child per pair, in pair order: child `k` is the crossover of
   * the two individuals pair `k` names, under draw `k`.
   */
  function Breed(kind: CrossoverType, population: seq<Tour>, pairs: seq<(nat, nat)>, cuts: seq<(nat, nat)>, n: nat): (children: seq<Tour>)
    requires AllPermutations(population, n)
    requires PairsFit(kind, pairs, cuts, |population|, n)
    ensures |children| == |pairs|
    ensures AllPermutations(children, n)
    ensures forall k :: 0 <= k < |pairs| ==>
      && |population[pairs[k].0]| == n
      && Some(children[k]) == CrossoverChild(kind, population[pairs[k].0], population[pairs[k].1], cuts[k])
  {
    PopulationLengths(population, n);
    seq(|pairs|, k requires 0 <= k < |pairs| =>
      PairChild(kind, population[pairs[k].0], population[pairs[k].1], cuts[k], n))
  }

  /**
   * The next population before mutation: the children first, then the
   * best-ranked parents, as many as the children leave room for.
   */
  function NextPopulation(population: seq<Tour>, fitness: seq<int>, children: seq<Tour>): (next: seq<Tour>)
    requires |fitness| == |population| && |children| <= |population|
    ensures |next| == |population|
    ensures next[..|children|] == children
    ensures forall k :: 0 <= k < |population| - |children| ==> next[|children| + k] == population[Rank(fitness)[k]]
  {
    var ranked := Rank(fitness);
    PermutationShape(ranked, |fitness|);
    var survivors := seq(|population| - |children|, k requires 0 <= k < |population| - |children| => population[ranked[k]]);
    children + survivors
  }

  /** Children and carried-over parents alike are tours through all cities. */
  lemma NextPopulationIsPopulation(population: seq<Tour>, fitness: seq<int>, children: seq<Tour>, n: nat)
    requires |fitness| == |population| && |children| <= |population|
    requires IsPopulation(population, |population|, n)
    requires AllPermutations(children, n)
    ensures IsPopulation(NextPopulation(population, fitness, children), |population|, n)
  {
    var next := NextPopulation(population, fitness, children);
    var ranked := Rank(fitness);
    PermutationShape(ranked, |fitness|);
    forall i | 0 <= i < |next|
      ensures IsPermutation(next[i], n)
    {
      if i < |children| {
        assert next[i] == next[..|children|][i];
      } else {
        assert next[i] == population[ranked[i - |children|]];
      }
    }
  }

  /** Each individual whose probability test passed gets the configured mutation. */
  function MutatePopulation(kind: MutationType, population: seq<Tour>, mutations: seq<Option<MutationDraw>>): (next: seq<Tour>)
    requires |mutations| == |population|
    requires forall i :: 0 <= i < |population| && mutations[i].Some? ==> DrawFits(kind, mutations[i].value, |population[i]|)
    ensures |next| == |population|
    ensures forall i :: 0 <= i < |population| && mutations[i].None? ==> next[i] == population[i]
    ensures forall i, n: nat :: 0 <= i < |population| && IsPermutation(population[i], n) ==> IsPermutation(next[i], n)
  {
    seq(|population|, i requires 0 <= i < |population| =>
      if mutations[i].Some? then MutateInPlace(kind, population[i], mutations[i].value) else population[i])
  }

  /**
   * One generation. `None` is the program's panic when the children
   * outnumber the population (the unsigned subtraction for the number of
   * carried-over parents underflows).
   */
  function Step(g: MatrixGraph, params: GAParameters, population: seq<Tour>, draws: GenerationDraws): (next: Option<seq<Tour>>)
    requires Runnable(g)
    requires IsPopulation(population, params.populationSize, g.size)
    requires DrawsFit(params, g.size, draws)
    ensures next.Some? <==> ChildCount(params) <= params.populationSize
    ensures next.Some? ==> IsPopulation(next.value, params.populationSize, g.size)
  {
    PopulationInRange(g, population);
    var fitness := Fitness(g, population);
    var pairs := CrossoverPairs(fitness, params.crossoverPairCount);
    var children := Breed(params.crossoverType, population, pairs, draws.cuts, g.size);
    if |children| > params.populationSize then None
    else
      var survivors := NextPopulation(population, fitness, children);
      NextPopulationIsPopulation(population, fitness, children, g.size);
      Some(MutateSurvivors(params, survivors, draws, g.size))
  }

  /** The mutation phase of a generation keeps every individual a tour through all cities. */
  function MutateSurvivors(params: GAParameters, survivors: seq<Tour>, draws: GenerationDraws, n: nat): (next: seq<Tour>)
    requires IsPopulation(survivors, params.populationSize, n)
    requires DrawsFit(params, n, draws)
    ensures IsPopulation(next, params.populationSize, n)
    ensures forall i :: 0 <= i < |survivors| && draws.mutations[i].None? ==> next[i] == survivors[i]
  {
    forall i | 0 <= i < |survivors|
      ensures |survivors[i]| == n
    {
      PermutationLength(survivors[i], n);
    }
    MutatePopulation(params.mutationType, survivors, draws.mutations)
  }

  /**
   * Elitism: when at least one parent is carried over and the best of them
   * escapes mutation, the next generation is no worse than this one.
   */
  lemma ElitistCarryOver(g: MatrixGraph, params: GAParameters, population: seq<Tour>, draws: GenerationDraws)
    requires Runnable(g)
    requires IsPopulation(population, params.populationSize, g.size)
    requires DrawsFit(params, g.size, draws)
    requires ChildCount(params) < params.populationSize
    requires draws.mutations[ChildCount(params)].None?
    ensures Step(g, params, population, draws).Some?
    ensures BestFitness(Fitness(g, Step(g, params, population, draws).value)) <= BestFitness(Fitness(g, population))
  {
    PopulationInRange(g, population);
    var fitness := Fitness(g, population);
    var pairs := CrossoverPairs(fitness, params.crossoverPairCount);
    var children := Breed(params.crossoverType, population, pairs, draws.cuts, g.size);
    var survivors := NextPopulation(population, fitness, children);
    var next := Step(g, params, population, draws).value;
    var c := ChildCount(params);
    assert |children| == c;
    assert next[c] == survivors[c] == population[Rank(fitness)[0]];
    PopulationInRange(g, next);
    TopRankIsBest(fitness);
    assert Fitness(g, next)[c] == BestFitness(fitness);
  }

  /**
   * Runs one generation per draw. Gives the final population and, per
   * generation, the best fitness of the population it started from.
   */
  function Evolve(g: MatrixGraph, params: GAParameters, population: seq<Tour>, draws: seq<GenerationDraws>): (r: Option<(seq<Tour>, seq<int>)>)
    requires Runnable(g) && params.populationSize >= 1
    requires IsPopulation(population, params.populationSize, g.size)
    requires AllDrawsFit(params, g.size, draws)
    ensures r.Some? <==> draws == [] || ChildCount(params) <= params.populationSize
    ensures r.Some? ==> IsPopulation(r.value.0, params.populationSize, g.size) && |r.value.1| == |draws|
    decreases |draws|
  {
    if draws == [] then Some((population, []))
    else
      AllDrawsFitTail(params, g.size, draws);
      PopulationInRange(g, population);
      var best := BestFitness(Fitness(g, population));
      var next := Step(g, params, population, draws[0]);
      if next.None? then None
      else
        var rest := Evolve(g, params, next.value, draws[1..]);
        if rest.None? then None else Some((rest.value.0, [best] + rest.value.1))
  }

  /**
   * With the best carried-over parent never mutated, the best fitness of
   * the successive generations never rises.
   */
  lemma {:induction false} EvolveNeverWorsens(g: MatrixGraph, params: GAParameters, population: seq<Tour>, draws: seq<GenerationDraws>)
    requires Runnable(g) && params.populationSize >= 1
    requires IsPopulation(population, params.populationSize, g.size)
    requires AllDrawsFit(params, g.size, draws)
    requires ChildCount(params) < params.populationSize
    requires forall k :: 0 <= k < |draws| ==>
      ChildCount(params) < |draws[k].mutations| && draws[k].mutations[ChildCount(params)].None?
    ensures Evolve(g, params, population, draws).Some?
    ensures NonIncreasing(Evolve(g, params, population, draws).value.1)
    decreases |draws|
  {
    if draws != [] {
      AllDrawsFitTail(params, g.size, draws);
      var next := Step(g, params, population, draws[0]).value;
      EvolveNeverWorsens(g, params, next, draws[1..]);
      ElitistCarryOver(g, params, population, draws[0]);
      EvolveUnfold(g, params, population, draws);
      if |draws| > 1 {
        EvolveUnfold(g, params, next, draws[1..]);
      }
      PopulationInRange(g, population);
      ConsNonIncreasing(BestFitness(Fitness(g, population)), Evolve(g, params, next, draws[1..]).value.1);
    }
  }

  predicate NonIncreasing(s: seq<int>) {
    forall k :: 0 < k < |s| ==> s[k] <= s[k - 1]
  }

  lemma ConsNonIncreasing(x: int, rest: seq<int>)
    requires NonIncreasing(rest)
    requires rest != [] ==> rest[0] <= x
    ensures NonIncreasing([x] + rest)
  {
    forall k | 0 < k < |[x] + rest|
      ensures ([x] + rest)[k] <= ([x] + rest)[k - 1]
    {
      if k > 1 {
        assert ([x] + rest)[k] == rest[k - 1] && ([x] + rest)[k - 1] == rest[k - 2];
      }
    }
  }

  /** A run of several generations is one step followed by the rest of the run. */
  lemma EvolveUnfold(g: MatrixGraph, params: GAParameters, population: seq<Tour>, draws: seq<GenerationDraws>)
    requires Runnable(g) && params.populationSize >= 1
    requires IsPopulation(population, params.populationSize, g.size)
    requires AllDrawsFit(params, g.size, draws)
    requires draws != [] && ChildCount(params) <= params.populationSize
    ensures Step(g, params, population, draws[0]).Some?
    ensures var next := Step(g, params, population, draws[0]).value;
      Evolve(g, params, population, draws).value.1
        == [BestFitness(Fitness(g, population))] + Evolve(g, params, next, draws[1..]).value.1
  {
    AllDrawsFitTail(params, g.size, draws);
  }

  /** The best fitness so far after each generation, starting from `start`. */
  function RunningBest(bests: seq<int>, start: int): (r: seq<int>)
    ensures |r| == |bests|
    ensures forall k :: 0 <= k < |r| ==> r[k] <= start && r[k] <= bests[k]
  {
    if bests == [] then []
    else
      var m := if bests[0] < start then bests[0] else start;
      [m] + RunningBest(bests[1..], m)
  }

  /** Entry `k` of the running best is the lowest of `start` and the first `k + 1` bests. */
  lemma {:induction false} RunningBestIsPrefixMinimum(bests: seq<int>, start: int, k: nat)
    requires k < |bests|
    ensures RunningBest(bests, start)[k] == Lowest(start, bests[..k + 1])
  {
    var m := if bests[0] < start then bests[0] else start;
    if k == 0 {
      assert bests[..1][1..] == [];
    } else {
      RunningBestIsPrefixMinimum(bests[1..], m, k - 1);
      assert bests[..k + 1][1..] == bests[1..][..k];
    }
  }

  /** The log lines for the per-generation best fitnesses. */
  function Reports(bests: seq<int>): (reports: seq<GenerationReport>)
    ensures |reports| == |bests|
    ensures forall k :: 0 <= k < |reports| ==> reports[k].generation == k && reports[k].bestFitness == bests[k]
  {
    var running := RunningBest(bests, IsizeMax);
    seq(|bests|, k requires 0 <= k < |bests| => GenerationReport(k, bests[k], running[k]))
  }

  /**
   * The best fitness so far in a log line is the lowest best fitness logged
   * up to it (or `isize::MAX`), and it never rises from one line to the next.
   */
  lemma AllTimeBestIsRunningMinimum(bests: seq<int>, k: nat)
    requires k < |bests|
    ensures Reports(bests)[k].allTimeBest <= IsizeMax
    ensures forall j :: 0 <= j <= k ==> Reports(bests)[k].allTimeBest <= bests[j]
    ensures Reports(bests)[k].allTimeBest == IsizeMax || Reports(bests)[k].allTimeBest in bests[..k + 1]
    ensures k > 0 ==> Reports(bests)[k].allTimeBest <= Reports(bests)[k - 1].allTimeBest
  {
    RunningBestIsPrefixMinimum(bests, IsizeMax, k);
    PrefixLowest(IsizeMax, bests, k);
    if k > 0 {
      RunningBestNeverRises(bests, IsizeMax, k);
    }
  }

  /** The lowest of `start` and `s[..k + 1]` lies below every one of those values and is one of them. */
  lemma PrefixLowest(start: int, s: seq<int>, k: nat)
    requires k < |s|
    ensures Lowest(start, s[..k + 1]) <= start
    ensures forall j :: 0 <= j <= k ==> Lowest(start, s[..k + 1]) <= s[j]
    ensures Lowest(start, s[..k + 1]) == start || Lowest(start, s[..k + 1]) in s[..k + 1]
  {
    assert forall j :: 0 <= j <= k ==> s[j] == s[..k + 1][j];
  }

  /** One more generation can only lower the running best. */
  lemma {:induction false} RunningBestNeverRises(bests: seq<int>, start: int, k: nat)
    requires 0 < k < |bests|
    ensures RunningBest(bests, start)[k] <= RunningBest(bests, start)[k - 1]
    decreases k
  {
    var m := if bests[0] < start then bests[0] else start;
    assert RunningBest(bests, start) == [m] + RunningBest(bests[1..], m);
    if k > 1 {
      RunningBestNeverRises(bests[1..], m, k - 1);
    }
  }

  /** Extending the sequence can only lower its lowest value. */
  lemma {:induction false} LowestOfLonger(start: int, s: seq<int>, x: int)
    ensures Lowest(start, s + [x]) <= Lowest(start, s)
    decreases |s|
  {
    if s != [] {
      var m := if s[0] < start then s[0] else start;
      assert (s + [x])[1..] == s[1..] + [x];
      LowestOfLonger(m, s[1..], x);
    }
  }

  /**
   * `genetic_tsp`: builds the reports and returns the first individual of
   * the final population. `None` is a panic: an empty population (no
   * minimum fitness, no first individual), a graph of no cities once a
   * generation runs (the fitness loop's `len - 1` underflows), or more
   * children than individuals.
   */
  function GeneticTsp(g: MatrixGraph, params: GAParameters, initial: seq<Tour>, draws: seq<GenerationDraws>): (r: Option<RunResult>)
    requires IsSquare(g.adjMatrix, g.size)
    requires IsPopulation(initial, params.populationSize, g.size)
    requires |draws| == params.maxGenerations
    requires AllDrawsFit(params, g.size, draws)
    ensures r.Some? <==>
      params.populationSize >= 1
      && (params.maxGenerations == 0 || (g.size >= 1 && ChildCount(params) <= params.populationSize))
    ensures r.Some? ==> IsPermutation(r.value.best, g.size) && |r.value.reports| == params.maxGenerations
    ensures r.Some? && draws == [] ==> r.value.best == initial[0]
    ensures r.Some? && draws != [] ==>
      var final := Evolve(g, params, initial, draws).value;
      r.value.best == final.0[0] && r.value.reports == Reports(final.1)
  {
    if params.populationSize == 0 then None
    else if draws == [] then Some(RunResult(initial[0], []))
    else if g.size == 0 then None
    else
      match Evolve(g, params, initial, draws)
      case None => None
      case Some(final) => Some(RunResult(final.0[0], Reports(final.1)))
  }

  /**
   * The first log line carries the best fitness of the initial population,
   * and every line's best-so-far is the running minimum of the bests logged
   * up to it.
   */
  lemma GeneticTspReports(g: MatrixGraph, params: GAParameters, initial: seq<Tour>, draws: seq<GenerationDraws>)
    requires IsSquare(g.adjMatrix, g.size)
    requires IsPopulation(initial, params.populationSize, g.size)
    requires |draws| == params.maxGenerations
    requires AllDrawsFit(params, g.size, draws)
    requires params.populationSize >= 1 && g.size >= 1 && ChildCount(params) <= params.populationSize
    requires draws != []
    ensures GeneticTsp(g, params, initial, draws).Some?
    ensures GeneticTsp(g, params, initial, draws).value.reports[0].bestFitness == BestFitness(Fitness(g, initial))
    ensures forall k :: 0 <= k < params.maxGenerations ==>
      var reports := GeneticTsp(g, params, initial, draws).value.reports;
      reports[k].generation == k && reports[k].allTimeBest == Lowest(IsizeMax, Evolve(g, params, initial, draws).value.1[..k + 1])
  {
    var bests := Evolve(g, params, initial, draws).value.1;
    EvolveUnfold(g, params, initial, draws);
    forall k | 0 <= k < |bests|
      ensures Reports(bests)[k].allTimeBest == Lowest(IsizeMax, bests[..k + 1])
    {
      RunningBestIsPrefixMinimum(bests, IsizeMax, k);
    }
  }

  /**
   * With the best carried-over parent never mutated, the best fitness the
   * log reports never rises from one generation to the next.
   */
  lemma GeneticTspNeverWorsens(g: MatrixGraph, params: GAParameters, initial: seq<Tour>, draws: seq<GenerationDraws>)
    requires Runnable(g)
    requires IsPopulation(initial, params.populationSize, g.size) && params.populationSize >= 1
    requires |draws| == params.maxGenerations
    requires AllDrawsFit(params, g.size, draws)
    requires ChildCount(params) < params.populationSize
    requires forall k :: 0 <= k < |draws| ==>
      ChildCount(params) < |draws[k].mutations| && draws[k].mutations[ChildCount(params)].None?
    ensures GeneticTsp(g, params, initial, draws).Some?
    ensures forall k :: 0 < k < params.maxGenerations ==>
      var reports := GeneticTsp(g, params, initial, draws).value.reports;
      reports[k].bestFitness <= reports[k - 1].bestFitness
  {
    EvolveNeverWorsens(g, params, initial, draws);
  }
}
