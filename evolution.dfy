/** The current genetic algorithm (src/core/GeneticAlgorithm.ts). */
module Evolution {
  import opened Dots
  import opened Images
  import opened Genome
  import opened Fitness
  import opened Populations
  import opened Selection
  import opened Breeding

  /** GeneticAlgorithmConfig. */
  datatype GAConfig = GAConfig(populationSize: nat, mutationRate: real, dotCount: nat, elitismRatio: real)

  /**
   * The random numbers one child of createNewGeneration consumes: the two
   * roulette spins, the throwaway dots of the new child and its mutation.
   */
  datatype ChildDraws = ChildDraws(select1: real, select2: real, init: seq<FieldDraws>, mutation: seq<MutationDraw>)

  predicate DrawsFit(d: ChildDraws, dotCount: nat) {
    && InUnit(d.select1) && InUnit(d.select2)
    && |d.init| == dotCount && UnitFieldDraws(d.init)
    && |d.mutation| == dotCount && UnitMutationDraws(d.mutation)
  }

  /** Math.floor(populationSize * elitismRatio). */
  function ElitismCount(populationSize: nat, elitismRatio: real): int {
    (populationSize as real * elitismRatio).Floor
  }

  /** Every dot list has n dots. */
  predicate SameLength(dotLists: seq<seq<Dot>>, n: nat) {
    forall k :: 0 <= k < |dotLists| ==> |dotLists[k]| == n
  }

  /** The position one roulette spin with draw r picks. */
  function Spin(fs: seq<real>, r: real): (k: nat)
    requires fs != []
    ensures k < |fs|
  {
    RouletteIndex(fs, Threshold(r, fs))
  }

  /**
   * The dots of a child of the population with fitness values fs and dot
   * lists dotLists: the guided crossover of the two spun parents, mutated.
   */
  function Offspring(target: Image, rate: real, dotCount: nat, fs: seq<real>, dotLists: seq<seq<Dot>>, d: ChildDraws): seq<Dot>
    requires ValidImage(target) && 0 < |fs| == |dotLists|
    requires SameLength(dotLists, dotCount) && DrawsFit(d, dotCount)
  {
    var p1, p2 := dotLists[Spin(fs, d.select1)], dotLists[Spin(fs, d.select2)];
    Mutated(GuidedDots(target, p1, p2), d.mutation, rate, target.width, target.height, Drawn)
  }

  /**
   * The dots of the children bred with the draws ds, one per draw, in
   * order: the i-th is the offspring of the i-th draw.
   */
  function Brood(target: Image, rate: real, dotCount: nat, fs: seq<real>, dotLists: seq<seq<Dot>>, ds: seq<ChildDraws>): (b: seq<seq<Dot>>)
    requires ValidImage(target) && 0 < |fs| == |dotLists| && SameLength(dotLists, dotCount)
    requires forall k :: 0 <= k < |ds| ==> DrawsFit(ds[k], dotCount)
    ensures |b| == |ds|
    ensures forall i :: 0 <= i < |ds| ==> b[i] == Offspring(target, rate, dotCount, fs, dotLists, ds[i])
    decreases |ds|
  {
    if ds == [] then [] else Brood(target, rate, dotCount, fs, dotLists, ds[..|ds| - 1]) + [Offspring(target, rate, dotCount, fs, dotLists, ds[|ds| - 1])]
  }

  /** brood[k] is the offspring of ds[k], for every k. */
  predicate IsBrood(target: Image, rate: real, dotCount: nat, fs: seq<real>, dotLists: seq<seq<Dot>>, ds: seq<ChildDraws>, brood: seq<seq<Dot>>) {
    && ValidImage(target) && 0 < |fs| == |dotLists| && SameLength(dotLists, dotCount)
    && (forall k :: 0 <= k < |ds| ==> DrawsFit(ds[k], dotCount))
    && |brood| == |ds|
    && forall k {:trigger Offspring(target, rate, dotCount, fs, dotLists, ds[k])} :: 0 <= k < |ds| ==>
         brood[k] == Offspring(target, rate, dotCount, fs, dotLists, ds[k])
  }

  /** Every dot list holds dots in range for the target, with random radii. */
  predicate AllFit(target: Image, dotLists: seq<seq<Dot>>) {
    forall k :: 0 <= k < |dotLists| ==> AllInRange(dotLists[k], target.width, target.height, Drawn)
  }

  /** A child of in-range parents has dotCount dots, all in range. */
  lemma OffspringFits(target: Image, rate: real, dotCount: nat, fs: seq<real>, dotLists: seq<seq<Dot>>, d: ChildDraws)
    requires ValidImage(target) && 0 < |fs| == |dotLists|
    requires SameLength(dotLists, dotCount) && DrawsFit(d, dotCount) && AllFit(target, dotLists)
    ensures |Offspring(target, rate, dotCount, fs, dotLists, d)| == dotCount
    ensures AllInRange(Offspring(target, rate, dotCount, fs, dotLists, d), target.width, target.height, Drawn)
  {
    var p1, p2 := dotLists[Spin(fs, d.select1)], dotLists[Spin(fs, d.select2)];
    GuidedInRange(target, p1, p2, Drawn);
    MutatePreservesRange(GuidedDots(target, p1, p2), d.mutation, rate, target.width, target.height, Drawn);
  }

  /** Every child of a brood is an offspring of its draw, with dotCount dots in range. */
  lemma BroodFits(target: Image, rate: real, dotCount: nat, fs: seq<real>, dotLists: seq<seq<Dot>>, ds: seq<ChildDraws>)
    requires ValidImage(target) && 0 < |fs| == |dotLists| && SameLength(dotLists, dotCount) && AllFit(target, dotLists)
    requires forall k :: 0 <= k < |ds| ==> DrawsFit(ds[k], dotCount)
    ensures forall i :: 0 <= i < |ds| ==>
      && Brood(target, rate, dotCount, fs, dotLists, ds)[i] == Offspring(target, rate, dotCount, fs, dotLists, ds[i])
      && |Brood(target, rate, dotCount, fs, dotLists, ds)[i]| == dotCount
      && AllInRange(Brood(target, rate, dotCount, fs, dotLists, ds)[i], target.width, target.height, Drawn)
  {
    forall i | 0 <= i < |ds| {
      OffspringFits(target, rate, dotCount, fs, dotLists, ds[i]);
    }
  }

  /**
   * Once every individual of pop carries its current score, so does every
   * individual of the sorted copy, and the first of them scores at least
   * as high as any individual of pop.
   */
  lemma SortedScores(p: Population, pop: seq<Individual>)
    requires 1 <= p.width && 1 <= p.height && |p.targetData| == p.width * p.height
    requires forall k :: 0 <= k < |pop| ==> pop[k].fitness == p.FitnessOf(pop[k].dots)
    ensures forall i :: 0 <= i < |pop| ==>
      Fitnesses(SortByFitness(pop))[i] == p.FitnessOf(DotLists(SortByFitness(pop))[i])
    ensures forall k :: 0 <= k < |pop| ==> p.FitnessOf(DotLists(pop)[k]) <= Fitnesses(SortByFitness(pop))[0]
  {
    var sorted := SortByFitness(pop);
    var order := SortOrder(Fitnesses(pop), |pop|);
    forall i | 0 <= i < |pop|
      ensures Fitnesses(sorted)[i] == p.FitnessOf(DotLists(sorted)[i])
    {
      var k := order[i];
      assert sorted[i] == pop[k];
    }
    if pop != [] {
      SortByFitnessHead(pop);
    }
  }

  /** The k-th individual of the sorted copy is the one at the k-th position of the sort order. */
  lemma SortedCopyAt(pop: seq<Individual>)
    ensures forall k :: 0 <= k < |pop| ==>
      && SortByFitness(pop)[k] == pop[SortOrder(Fitnesses(pop), |pop|)[k]]
      && DotLists(SortByFitness(pop))[k] == DotLists(pop)[SortOrder(Fitnesses(pop), |pop|)[k]]
      && Fitnesses(SortByFitness(pop))[k] == Fitnesses(pop)[SortOrder(Fitnesses(pop), |pop|)[k]]
  {
    SortByFitnessSpec(pop);
  }

  /**
   * The elites carry the scores of the sorted copy, so they keep current
   * scores and the first of them is at least as fit as anyone before.
   */
  lemma KeepsBest(p: Population, before: seq<seq<Dot>>, sortedDots: seq<seq<Dot>>, sortedFits: seq<real>,
                  nextDots: seq<seq<Dot>>, nextFits: seq<real>, e: nat)
    requires 1 <= p.width && 1 <= p.height && |p.targetData| == p.width * p.height
    requires e <= |nextDots| == |nextFits| && e <= |sortedDots| == |sortedFits| && |before| <= |sortedFits|
    requires forall i :: 0 <= i < |sortedDots| ==> sortedFits[i] == p.FitnessOf(sortedDots[i])
    requires forall k :: 0 <= k < |before| ==> p.FitnessOf(before[k]) <= sortedFits[0]
    requires forall k :: 0 <= k < e ==> nextDots[k] == sortedDots[k] && nextFits[k] == sortedFits[k]
    ensures forall k :: 0 <= k < e ==> nextFits[k] == p.FitnessOf(nextDots[k])
    ensures 1 <= e ==> forall k :: 0 <= k < |before| ==> p.FitnessOf(before[k]) <= nextFits[0]
  {
  }

  /**
   * The population.calculateFitness() call that starts evolve, with what
   * it means for the sorted copy: sortedDots and sortedFits are its dot
   * lists and fitness values, each the current score of its dots, and
   * the first is the best score of the population.
   */
  method ScoreGeneration(p: Population) returns (ghost sortedDots: seq<seq<Dot>>, ghost sortedFits: seq<real>)
    requires p.Valid()
    modifies p.population
    ensures p.Valid() && p.population == old(p.population)
    ensures DotLists(p.population) == old(DotLists(p.population))
    ensures sortedDots == DotLists(SortByFitness(p.population))
    ensures sortedFits == Fitnesses(SortByFitness(p.population))
    ensures forall i :: 0 <= i < |sortedDots| ==> sortedFits[i] == p.FitnessOf(sortedDots[i])
    ensures forall k :: 0 <= k < |p.population| ==> p.FitnessOf(DotLists(p.population)[k]) <= sortedFits[0]
    ensures forall k :: 0 <= k < |p.population| ==> Fitnesses(p.population)[k] == p.FitnessOf(DotLists(p.population)[k])
  {
    p.CalculateFitness();
    SortedScores(p, p.population);
    sortedDots, sortedFits := DotLists(SortByFitness(p.population)), Fitnesses(SortByFitness(p.population));
    DotsKept(p.population);
  }

  class GeneticAlgorithm {
    const population: Population
    const config: GAConfig
    const target: Image

    ghost predicate Valid()
      reads this, population, population.population
    {
      && population.Valid() && population.target == target
      && population.rule == Drawn && population.dotCount == config.dotCount
      && |population.population| == config.populationSize
    }

    /** How many elites createNewGeneration keeps: slice(0, elitismCount) of the sorted copy. */
    function EliteCount(): (e: nat)
      ensures e <= config.populationSize
    {
      SliceEnd(ElitismCount(config.populationSize, config.elitismRatio), config.populationSize)
    }

    /** new GeneticAlgorithm(target, config): a population of config.populationSize random individuals. */
    constructor (target: Image, config: GAConfig, draws: seq<seq<FieldDraws>>)
      requires ValidImage(target)
      requires |draws| == config.populationSize
      requires forall k :: 0 <= k < |draws| ==> |draws[k]| == config.dotCount && UnitFieldDraws(draws[k])
      ensures Valid() && this.target == target && this.config == config && fresh(population)
      ensures forall k :: 0 <= k < config.populationSize ==>
        population.population[k].fitness == 0.0 && population.population[k].dots == InitialDots(target.width, target.height, Drawn, draws[k])
    {
      this.target := target;
      this.config := config;
      population := new Population(config.populationSize, target, config.dotCount, Drawn, draws);
    }

    /**
     * evolve: score every individual, then breed the next generation.
     * scored holds the fitness calculateFitness gives each individual. The
     * elites are clones of the individuals at the first positions of the
     * order that sorts the scores, so they keep fitness values that are
     * current, and the first of them is at least as fit as every
     * individual of the generation before: the best fitness never drops
     * from one generation to the next. Every other individual is a fresh
     * offspring of the scored generation.
     * draws[k] holds the random numbers for position k of the new
     * generation; the entries below EliteCount() are not consumed, since
     * the elites are not bred.
     */
    method Evolve(draws: seq<ChildDraws>) returns (ghost scored: seq<real>)
      requires Valid()
      requires |draws| == config.populationSize && forall k :: 0 <= k < |draws| ==> DrawsFit(draws[k], config.dotCount)
      modifies population, population.population
      ensures Valid()
      ensures |scored| == config.populationSize && forall k :: 0 <= k < config.populationSize ==>
        scored[k] == population.FitnessOf(old(DotLists(population.population))[k])
      ensures forall k :: 0 <= k < EliteCount() ==>
        && DotLists(population.population)[k] == old(DotLists(population.population))[SortOrder(scored, |scored|)[k]]
        && Fitnesses(population.population)[k] == scored[SortOrder(scored, |scored|)[k]]
      ensures forall k :: 0 <= k < EliteCount() ==>
        Fitnesses(population.population)[k] == population.FitnessOf(DotLists(population.population)[k])
      ensures 1 <= EliteCount() ==> forall k :: 0 <= k < config.populationSize ==>
        population.FitnessOf(old(DotLists(population.population))[k]) <= Fitnesses(population.population)[0]
      ensures forall k :: 0 <= k < config.populationSize ==> fresh(population.population[k])
      ensures forall k :: EliteCount() <= k < config.populationSize ==>
        Fitnesses(population.population)[k] == 0.0
      ensures 0 < config.populationSize ==>
        IsBrood(target, config.mutationRate, config.dotCount, scored, old(DotLists(population.population)),
          draws[EliteCount()..], DotLists(population.population)[EliteCount()..])
    {
      ghost var before := DotLists(population.population);
      ghost var sortedDots, sortedFits := ScoreGeneration(population);
      scored := Fitnesses(population.population);
      SortedCopyAt(population.population);
      BreedFromScored(draws, before, sortedDots, sortedFits);
    }

    /**
     * The createNewGeneration half of evolve, once the population is
     * scored: before holds the dot lists of the population, sortedDots and
     * sortedFits describe the sorted copy, and its first fitness is at
     * least that of every dot list in before.
     */
    method BreedFromScored(draws: seq<ChildDraws>, ghost before: seq<seq<Dot>>,
                           ghost sortedDots: seq<seq<Dot>>, ghost sortedFits: seq<real>)
      requires Valid()
      requires |draws| == config.populationSize && forall k :: 0 <= k < |draws| ==> DrawsFit(draws[k], config.dotCount)
      requires before == DotLists(population.population)
      requires sortedDots == DotLists(SortByFitness(population.population))
      requires sortedFits == Fitnesses(SortByFitness(population.population))
      requires forall i :: 0 <= i < |sortedDots| ==> sortedFits[i] == population.FitnessOf(sortedDots[i])
      requires forall k :: 0 <= k < config.populationSize ==> population.FitnessOf(before[k]) <= sortedFits[0]
      modifies population
      ensures Valid()
      ensures forall k :: 0 <= k < EliteCount() ==>
        DotLists(population.population)[k] == sortedDots[k] && Fitnesses(population.population)[k] == sortedFits[k]
      ensures forall k :: 0 <= k < EliteCount() ==>
        Fitnesses(population.population)[k] == population.FitnessOf(DotLists(population.population)[k])
      ensures 1 <= EliteCount() ==> forall k :: 0 <= k < config.populationSize ==>
        population.FitnessOf(before[k]) <= Fitnesses(population.population)[0]
      ensures forall k :: 0 <= k < config.populationSize ==> fresh(population.population[k])
      ensures forall k :: EliteCount() <= k < config.populationSize ==>
        Fitnesses(population.population)[k] == 0.0
      ensures 0 < config.populationSize ==>
        IsBrood(target, config.mutationRate, config.dotCount, old(Fitnesses(population.population)), before,
          draws[EliteCount()..], DotLists(population.population)[EliteCount()..])
    {
      CreateNewGeneration(draws);
      KeepsBest(population, before, sortedDots, sortedFits, DotLists(population.population), Fitnesses(population.population), EliteCount());
    }

    /**
     * createNewGeneration: clones of the fittest elitismCount individuals,
     * then children of roulette-picked parents, crossed over and mutated,
     * until the population is full again.
     */
    method CreateNewGeneration(draws: seq<ChildDraws>)
      requires Valid()
      requires |draws| == config.populationSize && forall k :: 0 <= k < |draws| ==> DrawsFit(draws[k], config.dotCount)
      modifies population
      ensures Valid()
      ensures forall k :: 0 <= k < config.populationSize ==> fresh(population.population[k])
      ensures forall k :: 0 <= k < EliteCount() ==>
        && DotLists(population.population)[k] == old(DotLists(SortByFitness(population.population)))[k]
        && Fitnesses(population.population)[k] == old(Fitnesses(SortByFitness(population.population)))[k]
      ensures SameLength(old(DotLists(population.population)), config.dotCount)
      ensures forall k :: EliteCount() <= k < config.populationSize ==> Fitnesses(population.population)[k] == 0.0
      ensures 0 < config.populationSize ==>
        IsBrood(target, config.mutationRate, config.dotCount, old(Fitnesses(population.population)),
          old(DotLists(population.population)), draws[EliteCount()..], DotLists(population.population)[EliteCount()..])
    {
      ghost var fs, dotLists := Fitnesses(population.population), DotLists(population.population);
      ghost var sorted := SortByFitness(population.population);
      ghost var sortedDots, sortedFits := DotLists(sorted), Fitnesses(sorted);
      var newPopulation := NextGeneration(draws, fs, dotLists, sortedDots, sortedFits);
      population.Replace(newPopulation);
    }

    /**
     * The new population createNewGeneration builds before it replaces the
     * old one: clones of the elites, then the children.
     */
    method NextGeneration(draws: seq<ChildDraws>, ghost fs: seq<real>, ghost dotLists: seq<seq<Dot>>,
                          ghost sortedDots: seq<seq<Dot>>, ghost sortedFits: seq<real>)
      returns (next: seq<Individual>)
      requires Valid()
      requires |draws| == config.populationSize && forall k :: 0 <= k < |draws| ==> DrawsFit(draws[k], config.dotCount)
      requires fs == Fitnesses(population.population) && dotLists == DotLists(population.population)
      requires sortedDots == DotLists(SortByFitness(population.population))
      requires sortedFits == Fitnesses(SortByFitness(population.population))
      ensures |next| == config.populationSize && population.AllMembers(next)
      ensures forall k :: 0 <= k < |next| ==> fresh(next[k])
      ensures forall k :: 0 <= k < EliteCount() ==> DotLists(next)[k] == sortedDots[k] && Fitnesses(next)[k] == sortedFits[k]
      ensures SameLength(dotLists, config.dotCount)
      ensures forall k :: EliteCount() <= k < |next| ==> Fitnesses(next)[k] == 0.0
      ensures 0 < config.populationSize ==>
        IsBrood(target, config.mutationRate, config.dotCount, fs, dotLists, draws[EliteCount()..], DotLists(next)[EliteCount()..])
    {
      assert SameLength(dotLists, config.dotCount);
      var elitismCount := ElitismCount(config.populationSize, config.elitismRatio);
      var elites := PreserveElites(elitismCount, sortedDots, sortedFits);
      assert |elites| == EliteCount();
      next := elites;
      if 0 < config.populationSize {
        Untouched(population.population);
        next := BreedChildren(elites, draws, fs, dotLists);
      }
    }

    /**
     * The children createNewGeneration pushes after the elites, one per
     * draw, until the population is full: offspring of the current
     * population, which stays unchanged.
     */
    method BreedChildren(elites: seq<Individual>, draws: seq<ChildDraws>, ghost fs: seq<real>, ghost dotLists: seq<seq<Dot>>)
      returns (next: seq<Individual>)
      requires Valid() && 0 < config.populationSize && |elites| <= |draws| == config.populationSize
      requires fs == Fitnesses(population.population) && dotLists == DotLists(population.population)
      requires SameLength(dotLists, config.dotCount)
      requires forall k :: 0 <= k < |draws| ==> DrawsFit(draws[k], config.dotCount)
      requires population.AllMembers(elites)
      ensures |next| == |draws| && population.AllMembers(next)
      ensures forall k :: 0 <= k < |elites| ==> next[k] == elites[k]
      ensures forall k :: |elites| <= k < |next| ==> fresh(next[k]) && Fitnesses(next)[k] == 0.0
      ensures IsBrood(target, config.mutationRate, config.dotCount, fs, dotLists, draws[|elites|..], DotLists(next)[|elites|..])
    {
      ghost var ds := draws[|elites|..];
      ghost var brood := Brood(target, config.mutationRate, config.dotCount, fs, dotLists, ds);
      next := FillChildren(elites, draws, fs, dotLists, brood);
      ghost var tail := DotLists(next)[|elites|..];
      forall k | 0 <= k < |tail|
        ensures tail[k] == brood[k]
      {
        assert tail[k] == next[k + |elites|].dots;
      }
      assert tail == brood;
    }

    /**
     * The loop of createNewGeneration: after the elites, one child per
     * draw until the population is full, each bred from the unchanged
     * current population, whose fitness values are fs and whose dot lists
     * are dotLists; brood holds the dots each child gets.
     */
    method FillChildren(elites: seq<Individual>, draws: seq<ChildDraws>, ghost fs: seq<real>, ghost dotLists: seq<seq<Dot>>,
                        ghost brood: seq<seq<Dot>>)
      returns (next: seq<Individual>)
      requires Valid() && 0 < config.populationSize && |elites| <= |draws| == config.populationSize
      requires fs == Fitnesses(population.population) && dotLists == DotLists(population.population)
      requires SameLength(dotLists, config.dotCount)
      requires forall k :: 0 <= k < |draws| ==> DrawsFit(draws[k], config.dotCount)
      requires IsBrood(target, config.mutationRate, config.dotCount, fs, dotLists, draws[|elites|..], brood)
      requires population.AllMembers(elites)
      ensures |elites| <= |next| == |draws| && population.AllMembers(next)
      ensures forall k :: 0 <= k < |elites| ==> next[k] == elites[k]
      ensures forall k :: |elites| <= k < |next| ==>
        && fresh(next[k]) && next[k].fitness == 0.0 && next[k].dots == brood[k - |elites|]
    {
      next := elites;
      while |next| < |draws|
        modifies {}
        invariant |elites| <= |next| <= |draws| && population.AllMembers(next)
        invariant forall k :: 0 <= k < |elites| ==> next[k] == elites[k]
        invariant forall k :: |elites| <= k < |next| ==>
          && fresh(next[k]) && next[k].fitness == 0.0 && next[k].dots == brood[k - |elites|]
      {
        var child := Breed(draws[|elites|..], |next| - |elites|, fs, dotLists, brood);
        Untouched(population.population);
        next := next + [child];
      }
    }

    /**
     * One pass of the createNewGeneration loop, for the draws ds[n]: two
     * roulette spins, the guided crossover of the two parents, then
     * mutation of the child, whose dots are brood[n].
     */
    method Breed(ds: seq<ChildDraws>, n: nat, ghost fs: seq<real>, ghost dotLists: seq<seq<Dot>>, ghost brood: seq<seq<Dot>>)
      returns (child: Individual)
      requires Valid() && 0 < config.populationSize && n < |ds|
      requires fs == Fitnesses(population.population) && dotLists == DotLists(population.population)
      requires SameLength(dotLists, config.dotCount)
      requires forall k :: 0 <= k < |ds| ==> DrawsFit(ds[k], config.dotCount)
      requires IsBrood(target, config.mutationRate, config.dotCount, fs, dotLists, ds, brood)
      ensures fresh(child) && population.Member(child)
      ensures child.fitness == 0.0 && child.dots == brood[n]
    {
      var d := ds[n];
      assert brood[n] == Offspring(target, config.mutationRate, config.dotCount, fs, dotLists, d);
      var parent1, parent2 := SelectParents(population.population, d.select1, d.select2);
      ghost var i1, i2 := Spin(fs, d.select1), Spin(fs, d.select2);
      assert parent1 == population.population[i1] && parent2 == population.population[i2];
      assert population.Member(parent1) && population.Member(parent2);
      assert dotLists[i1] == parent1.dots && dotLists[i2] == parent2.dots;
      child := Crossover(parent1, parent2, d.init);
      ghost var crossed := child.dots;
      assert crossed == GuidedDots(target, dotLists[i1], dotLists[i2]);
      child.Mutate(config.mutationRate, d.mutation);
      MutatePreservesRange(crossed, d.mutation, config.mutationRate, target.width, target.height, Drawn);
    }

    /** preserveElites: deep copies of the first count individuals of the population sorted by fitness. */
    method PreserveElites(count: int, ghost sortedDots: seq<seq<Dot>>, ghost sortedFits: seq<real>) returns (elites: seq<Individual>)
      requires Valid()
      requires sortedDots == DotLists(SortByFitness(population.population))
      requires sortedFits == Fitnesses(SortByFitness(population.population))
      ensures |elites| == SliceEnd(count, |population.population|)
      ensures forall k :: 0 <= k < |elites| ==> fresh(elites[k]) && population.Member(elites[k])
      ensures forall k :: 0 <= k < |elites| ==> elites[k].dots == sortedDots[k] && elites[k].fitness == sortedFits[k]
    {
      var sorted := SortPopulation(population.population);
      var end := SliceEnd(count, |sorted|);
      assert forall k :: 0 <= k < |sorted| ==>
        population.Member(sorted[k]) && sorted[k].dots == sortedDots[k] && sorted[k].fitness == sortedFits[k];
      elites := CloneEach(sorted[..end], sortedDots, sortedFits);
    }

    /** The .map(individual => individual.clone()) of preserveElites. */
    method CloneEach(src: seq<Individual>, ghost dots: seq<seq<Dot>>, ghost fits: seq<real>) returns (copies: seq<Individual>)
      requires |src| <= |dots| && |src| <= |fits|
      requires forall k :: 0 <= k < |src| ==> population.Member(src[k]) && src[k].dots == dots[k] && src[k].fitness == fits[k]
      ensures |copies| == |src|
      ensures forall k :: 0 <= k < |src| ==> fresh(copies[k]) && population.Member(copies[k])
      ensures forall k :: 0 <= k < |src| ==> copies[k].dots == dots[k] && copies[k].fitness == fits[k]
    {
      copies := [];
      for i := 0 to |src|
        invariant |copies| == i
        invariant forall k :: 0 <= k < i ==> fresh(copies[k]) && population.Member(copies[k])
        invariant forall k :: 0 <= k < i ==> copies[k].dots == dots[k] && copies[k].fitness == fits[k]
      {
        var copy := src[i].Clone();
        copies := copies + [copy];
      }
    }

    /**
     * crossover: a new individual with as many dots as parent1 whose i-th
     * dot is a copy of the parent dot that scores higher on the target,
     * parent2's on a tie.
     */
    method Crossover(parent1: Individual, parent2: Individual, init: seq<FieldDraws>) returns (child: Individual)
      requires ValidImage(target) && |parent1.dots| <= |parent2.dots| && |init| == |parent1.dots|
      ensures fresh(child)
      ensures child.width == target.width && child.height == target.height && child.rule == Drawn
      ensures child.fitness == 0.0
      ensures child.dots == GuidedDots(target, parent1.dots, parent2.dots)
      ensures AllInRange(parent1.dots, target.width, target.height, Drawn) && AllInRange(parent2.dots, target.width, target.height, Drawn)
        ==> child.WellFormed()
    {
      child := new Individual(target.width, target.height, |parent1.dots|, Drawn, init);
      var i := 0;
      while i < |parent1.dots|
        invariant 0 <= i <= |parent1.dots| == |child.dots|
        invariant child.fitness == 0.0
        invariant forall k :: 0 <= k < i ==> child.dots[k] == GuidedPick(target, parent1.dots[k], parent2.dots[k])
      {
        var fitnessA := DotFitness(target, parent1.dots[i]);
        var fitnessB := DotFitness(target, parent2.dots[i]);
        child.dots := child.dots[i := Dots.Clone((if fitnessA > fitnessB then parent1 else parent2).dots[i])];
        i := i + 1;
      }
      if AllInRange(parent1.dots, target.width, target.height, Drawn) && AllInRange(parent2.dots, target.width, target.height, Drawn) {
        GuidedInRange(target, parent1.dots, parent2.dots, Drawn);
      }
    }
  }
}
