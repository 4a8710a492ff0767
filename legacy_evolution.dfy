/**
 * The older genetic algorithm at the repository root (GeneticAlgorithm.ts,
 * with Individual.ts and Population.ts) and its compiled sibling
 * (dist/GeneticAlgorithm.js with dist/Individual.js). Both keep the top
 * tenth of the population by reference, rewrite only the first 10000 dots
 * of a 50000-dot child, and differ in the crossover and the radius rule.
 */
module LegacyEvolution {
  import opened Config
  import opened Dots
  import opened Images
  import opened Genome
  import opened Fitness
  import opened Populations
  import opened Selection
  import opened Breeding
  import opened Evolution

  /** Root: guided crossover and radii 1 + 2r. Dist: uniform crossover and radius 1. */
  datatype Revision = Root | Dist

  /** The randRadius of the Individual class each revision ships with. */
  function RuleOf(rev: Revision): RadiusRule {
    match rev
    case Root => Drawn
    case Dist => ConstantOne
  }

  /**
   * The random numbers one child of newGeneration consumes: two roulette
   * spins, the dots of the new 50000-dot child, the coin tosses of the
   * uniform crossover (unused by the guided one) and the mutation.
   */
  datatype LegacyDraws = LegacyDraws(select1: real, select2: real, init: seq<FieldDraws>,
                                     coins: seq<CrossCoins>, mutation: seq<MutationDraw>)

  predicate LegacyDrawsFit(d: LegacyDraws) {
    && InUnit(d.select1) && InUnit(d.select2)
    && |d.init| == LegacyDotCount && UnitFieldDraws(d.init)
    && |d.coins| == LegacyCrossoverDots
    && |d.mutation| == LegacyDotCount && UnitMutationDraws(d.mutation)
  }

  /**
   * Math.floor(popSize * 0.1), the number of elites, is a tenth of the
   * population rounded down: popSize / 10 in integer arithmetic.
   */
  lemma FloorOfTenth(n: nat)
    ensures (n as real * 0.1).Floor == n / 10
  {
    var q, r := n / 10, n % 10;
    assert n == 10 * q + r;
    assert n as real * 0.1 == q as real + r as real / 10.0;
  }

  /**
   * The first 10000 dots of the child: per position the better-scoring
   * parent dot (ties to b) in the root revision, per field a coin toss
   * between the parents in the dist revision.
   */
  function CrossedPrefix(rev: Revision, target: Image, xs: seq<Dot>, ys: seq<Dot>, coins: seq<CrossCoins>): (r: seq<Dot>)
    requires ValidImage(target) && LegacyCrossoverDots <= |xs| && LegacyCrossoverDots <= |ys|
    requires |coins| == LegacyCrossoverDots
    ensures |r| == LegacyCrossoverDots
  {
    match rev
    case Root => GuidedDots(target, xs[..LegacyCrossoverDots], ys)
    case Dist => UniformDots(xs, ys, coins)
  }

  /**
   * The child crossover returns: a fresh 50000-dot individual drawn from
   * init, of which only the first 10000 dots are overwritten.
   */
  function LegacyCrossed(rev: Revision, target: Image, xs: seq<Dot>, ys: seq<Dot>,
                         init: seq<FieldDraws>, coins: seq<CrossCoins>): seq<Dot>
    requires ValidImage(target) && LegacyCrossoverDots <= |xs| && LegacyCrossoverDots <= |ys|
    requires |coins| == LegacyCrossoverDots && |init| == LegacyDotCount
  {
    CrossedPrefix(rev, target, xs, ys, coins)
      + InitialDots(target.width, target.height, RuleOf(rev), init)[LegacyCrossoverDots..]
  }

  /**
   * The child has 50000 dots. Below position 10000 each dot comes from the
   * parents (whole in the root revision, ties to ys; field by field in the
   * dist revision); from 10000 on it is the child's own random dot.
   */
  lemma LegacyCrossedShape(rev: Revision, target: Image, xs: seq<Dot>, ys: seq<Dot>,
                           init: seq<FieldDraws>, coins: seq<CrossCoins>)
    requires ValidImage(target) && LegacyCrossoverDots <= |xs| && LegacyCrossoverDots <= |ys|
    requires |coins| == LegacyCrossoverDots && |init| == LegacyDotCount
    ensures |LegacyCrossed(rev, target, xs, ys, init, coins)| == LegacyDotCount
    ensures forall i :: 0 <= i < LegacyCrossoverDots && rev == Root ==>
      && (LegacyCrossed(rev, target, xs, ys, init, coins)[i] == xs[i] || LegacyCrossed(rev, target, xs, ys, init, coins)[i] == ys[i])
      && (DotFitness(target, xs[i]) <= DotFitness(target, ys[i]) ==> LegacyCrossed(rev, target, xs, ys, init, coins)[i] == ys[i])
    ensures forall i :: 0 <= i < LegacyCrossoverDots && rev == Dist ==>
      && LegacyCrossed(rev, target, xs, ys, init, coins)[i].x in {xs[i].x, ys[i].x}
      && LegacyCrossed(rev, target, xs, ys, init, coins)[i].y in {xs[i].y, ys[i].y}
      && LegacyCrossed(rev, target, xs, ys, init, coins)[i].radius in {xs[i].radius, ys[i].radius}
    ensures forall i :: LegacyCrossoverDots <= i < LegacyDotCount ==>
      LegacyCrossed(rev, target, xs, ys, init, coins)[i] == RandomDot(target.width, target.height, RuleOf(rev), init[i])
  {
    var r := LegacyCrossed(rev, target, xs, ys, init, coins);
    var p := CrossedPrefix(rev, target, xs, ys, coins);
    assert forall i :: 0 <= i < LegacyCrossoverDots ==> r[i] == p[i];
  }

  /** In-range parents and unit draws give a child whose dots are all in range. */
  lemma LegacyCrossedInRange(rev: Revision, target: Image, xs: seq<Dot>, ys: seq<Dot>,
                             init: seq<FieldDraws>, coins: seq<CrossCoins>)
    requires ValidImage(target) && LegacyCrossoverDots <= |xs| && LegacyCrossoverDots <= |ys|
    requires |coins| == LegacyCrossoverDots && |init| == LegacyDotCount && UnitFieldDraws(init)
    requires AllInRange(xs, target.width, target.height, RuleOf(rev)) && AllInRange(ys, target.width, target.height, RuleOf(rev))
    ensures AllInRange(LegacyCrossed(rev, target, xs, ys, init, coins), target.width, target.height, RuleOf(rev))
  {
    var w, h, rule := target.width, target.height, RuleOf(rev);
    match rev {
      case Root =>
        assert AllInRange(xs[..LegacyCrossoverDots], w, h, rule);
        GuidedInRange(target, xs[..LegacyCrossoverDots], ys, rule);
      case Dist =>
        UniformInRange(xs, ys, coins, w, h, rule);
    }
    var tail := InitialDots(w, h, rule, init);
    assert AllInRange(tail[LegacyCrossoverDots..], w, h, rule);
  }

  /** The dots of a child of a population with fitness values fs and dot lists dotLists. */
  function LegacyOffspring(rev: Revision, target: Image, rate: real, fs: seq<real>, dotLists: seq<seq<Dot>>, d: LegacyDraws): seq<Dot>
    requires ValidImage(target) && 0 < |fs| == |dotLists|
    requires SameLength(dotLists, LegacyDotCount) && LegacyDrawsFit(d)
  {
    var p1, p2 := dotLists[Spin(fs, d.select1)], dotLists[Spin(fs, d.select2)];
    Mutated(LegacyCrossed(rev, target, p1, p2, d.init, d.coins), d.mutation, rate, target.width, target.height, RuleOf(rev))
  }

  /**
   * A child of in-range parents has 50000 dots, all in range; in the dist
   * revision every radius is still 1 after crossover and mutation.
   */
  lemma LegacyOffspringFits(rev: Revision, target: Image, rate: real, fs: seq<real>, dotLists: seq<seq<Dot>>, d: LegacyDraws)
    requires ValidImage(target) && 0 < |fs| == |dotLists|
    requires SameLength(dotLists, LegacyDotCount) && LegacyDrawsFit(d)
    requires forall k :: 0 <= k < |dotLists| ==> AllInRange(dotLists[k], target.width, target.height, RuleOf(rev))
    ensures |LegacyOffspring(rev, target, rate, fs, dotLists, d)| == LegacyDotCount
    ensures AllInRange(LegacyOffspring(rev, target, rate, fs, dotLists, d), target.width, target.height, RuleOf(rev))
    ensures rev == Dist ==> forall i :: 0 <= i < LegacyDotCount ==> LegacyOffspring(rev, target, rate, fs, dotLists, d)[i].radius == 1.0
  {
    var p1, p2 := dotLists[Spin(fs, d.select1)], dotLists[Spin(fs, d.select2)];
    var crossed := LegacyCrossed(rev, target, p1, p2, d.init, d.coins);
    LegacyCrossedShape(rev, target, p1, p2, d.init, d.coins);
    LegacyCrossedInRange(rev, target, p1, p2, d.init, d.coins);
    MutatePreservesRange(crossed, d.mutation, rate, target.width, target.height, RuleOf(rev));
  }

  /** brood[k] is the legacy offspring of ds[k], for every k. */
  predicate IsLegacyBrood(rev: Revision, target: Image, rate: real, fs: seq<real>, dotLists: seq<seq<Dot>>,
                          ds: seq<LegacyDraws>, brood: seq<seq<Dot>>) {
    && ValidImage(target) && 0 < |fs| == |dotLists| && SameLength(dotLists, LegacyDotCount)
    && (forall k :: 0 <= k < |ds| ==> LegacyDrawsFit(ds[k]))
    && |brood| == |ds|
    && forall k {:trigger LegacyOffspring(rev, target, rate, fs, dotLists, ds[k])} :: 0 <= k < |ds| ==>
         brood[k] == LegacyOffspring(rev, target, rate, fs, dotLists, ds[k])
  }

  class LegacyGeneticAlgorithm {
    const popSize: nat
    const mutationRate: real
    const population: Population
    const target: Image
    const revision: Revision

    ghost predicate Valid()
      reads this, population, population.population
    {
      && population.Valid() && population.target == target
      && population.rule == RuleOf(revision) && population.dotCount == LegacyDotCount
      && |population.population| == popSize
    }

    /** new GeneticAlgorithm(popSize, mutationRate, target, ctx): popSize random 50000-dot individuals. */
    constructor (popSize: nat, mutationRate: real, target: Image, revision: Revision, draws: seq<seq<FieldDraws>>)
      requires ValidImage(target)
      requires |draws| == popSize
      requires forall k :: 0 <= k < |draws| ==> |draws[k]| == LegacyDotCount && UnitFieldDraws(draws[k])
      ensures Valid() && this.popSize == popSize && this.mutationRate == mutationRate
      ensures this.target == target && this.revision == revision && fresh(population)
      ensures forall k :: 0 <= k < popSize ==>
        population.population[k].fitness == 0.0
        && population.population[k].dots == InitialDots(target.width, target.height, RuleOf(revision), draws[k])
    {
      this.popSize := popSize;
      this.mutationRate := mutationRate;
      this.target := target;
      this.revision := revision;
      population := new Population(popSize, target, LegacyDotCount, RuleOf(revision), draws);
    }

    /** The elitismCount of newGeneration, Math.floor(popSize * 0.1). */
    function EliteCount(): (e: nat)
      ensures e <= popSize
    {
      FloorOfTenth(popSize);
      (popSize as real * 0.1).Floor
    }

    /**
     * evolve: score every individual, then build the next generation.
     * scored holds the fitness calculateFitness gives each individual. The
     * elites are the individuals at the first positions of the order that
     * sorts the scores, the same objects, so their fitness values stay
     * current, and when there is at least one elite the
     * first is at least as fit as every individual before; every other
     * individual is a fresh legacy offspring of the scored generation.
     * draws[k] holds the random numbers for position k of the new
     * generation; the entries below EliteCount() are not consumed, since
     * the elites are not bred.
     */
    method Evolve(draws: seq<LegacyDraws>) returns (ghost scored: seq<real>)
      requires Valid()
      requires |draws| == popSize && forall k :: 0 <= k < |draws| ==> LegacyDrawsFit(draws[k])
      modifies population, population.population
      ensures Valid()
      ensures |scored| == popSize && forall k :: 0 <= k < popSize ==>
        scored[k] == population.FitnessOf(old(DotLists(population.population))[k])
      ensures forall k :: 0 <= k < EliteCount() ==>
        population.population[k] == old(population.population)[SortOrder(scored, |scored|)[k]]
      ensures forall k :: 0 <= k < EliteCount() ==>
        Fitnesses(population.population)[k] == population.FitnessOf(DotLists(population.population)[k])
      ensures 1 <= EliteCount() ==> forall k :: 0 <= k < popSize ==>
        population.FitnessOf(old(DotLists(population.population))[k]) <= Fitnesses(population.population)[0]
      ensures forall k :: EliteCount() <= k < popSize ==> fresh(population.population[k])
      ensures forall k :: EliteCount() <= k < popSize ==> Fitnesses(population.population)[k] == 0.0
      ensures 0 < popSize ==>
        IsLegacyBrood(revision, target, mutationRate, scored, old(DotLists(population.population)),
          draws[EliteCount()..], DotLists(population.population)[EliteCount()..])
    {
      ghost var before := DotLists(population.population);
      ghost var sortedDots, sortedFits := ScoreGeneration(population);
      scored := Fitnesses(population.population);
      SortedCopyAt(population.population);
      BreedFromScored(draws, before, sortedDots, sortedFits);
    }

    /**
     * The newGeneration half of evolve, once the population is scored:
     * before holds the dot lists of the population, sortedDots and
     * sortedFits describe the sorted copy, and its first fitness is at
     * least that of every dot list in before.
     */
    method BreedFromScored(draws: seq<LegacyDraws>, ghost before: seq<seq<Dot>>,
                           ghost sortedDots: seq<seq<Dot>>, ghost sortedFits: seq<real>)
      requires Valid()
      requires |draws| == popSize && forall k :: 0 <= k < |draws| ==> LegacyDrawsFit(draws[k])
      requires before == DotLists(population.population)
      requires sortedDots == DotLists(SortByFitness(population.population))
      requires sortedFits == Fitnesses(SortByFitness(population.population))
      requires forall i :: 0 <= i < |sortedDots| ==> sortedFits[i] == population.FitnessOf(sortedDots[i])
      requires forall k :: 0 <= k < popSize ==> population.FitnessOf(before[k]) <= sortedFits[0]
      modifies population
      ensures Valid()
      ensures forall k :: 0 <= k < EliteCount() ==> population.population[k] == old(SortByFitness(population.population))[k]
      ensures forall k :: 0 <= k < EliteCount() ==>
        Fitnesses(population.population)[k] == population.FitnessOf(DotLists(population.population)[k])
      ensures 1 <= EliteCount() ==> forall k :: 0 <= k < popSize ==>
        population.FitnessOf(before[k]) <= Fitnesses(population.population)[0]
      ensures forall k :: EliteCount() <= k < popSize ==> fresh(population.population[k])
      ensures forall k :: EliteCount() <= k < popSize ==> Fitnesses(population.population)[k] == 0.0
      ensures 0 < popSize ==>
        IsLegacyBrood(revision, target, mutationRate, old(Fitnesses(population.population)), before,
          draws[EliteCount()..], DotLists(population.population)[EliteCount()..])
    {
      NewGeneration(draws, sortedDots, sortedFits);
      KeepsBest(population, before, sortedDots, sortedFits, DotLists(population.population),
        Fitnesses(population.population), EliteCount());
    }

    /**
     * newGeneration: the fittest tenth of the population, kept as the same
     * objects, then children of roulette-picked parents, crossed over and
     * mutated, until popSize individuals replace the population.
     */
    method NewGeneration(draws: seq<LegacyDraws>, ghost sortedDots: seq<seq<Dot>>, ghost sortedFits: seq<real>)
      requires Valid()
      requires |draws| == popSize && forall k :: 0 <= k < |draws| ==> LegacyDrawsFit(draws[k])
      requires sortedDots == DotLists(SortByFitness(population.population))
      requires sortedFits == Fitnesses(SortByFitness(population.population))
      modifies population
      ensures Valid()
      ensures forall k :: 0 <= k < EliteCount() ==> population.population[k] == old(SortByFitness(population.population))[k]
      ensures forall k :: 0 <= k < EliteCount() ==>
        DotLists(population.population)[k] == sortedDots[k] && Fitnesses(population.population)[k] == sortedFits[k]
      ensures forall k :: EliteCount() <= k < popSize ==> fresh(population.population[k])
      ensures forall k :: EliteCount() <= k < popSize ==> Fitnesses(population.population)[k] == 0.0
      ensures 0 < popSize ==>
        IsLegacyBrood(revision, target, mutationRate, old(Fitnesses(population.population)), old(DotLists(population.population)),
          draws[EliteCount()..], DotLists(population.population)[EliteCount()..])
    {
      ghost var fs, dotLists := Fitnesses(population.population), DotLists(population.population);
      ghost var sorted := SortByFitness(population.population);
      SortByFitnessMembers(population.population);
      var newPopulation := NextLegacyGeneration(draws, fs, dotLists, sorted);
      population.Replace(newPopulation);
    }

    /** The list newGeneration builds before it replaces the population. */
    method NextLegacyGeneration(draws: seq<LegacyDraws>, ghost fs: seq<real>, ghost dotLists: seq<seq<Dot>>,
                                ghost sorted: seq<Individual>)
      returns (next: seq<Individual>)
      requires Valid()
      requires |draws| == popSize && forall k :: 0 <= k < |draws| ==> LegacyDrawsFit(draws[k])
      requires fs == Fitnesses(population.population) && dotLists == DotLists(population.population)
      requires sorted == SortByFitness(population.population)
      ensures |next| == popSize && population.AllMembers(next)
      ensures forall k :: 0 <= k < EliteCount() ==> next[k] == sorted[k]
      ensures forall k :: EliteCount() <= k < |next| ==> fresh(next[k]) && Fitnesses(next)[k] == 0.0
      ensures 0 < popSize ==>
        IsLegacyBrood(revision, target, mutationRate, fs, dotLists, draws[EliteCount()..], DotLists(next)[EliteCount()..])
    {
      assert SameLength(dotLists, LegacyDotCount);
      var elites := LegacyElites(sorted);
      next := elites;
      if 0 < popSize {
        next := BreedLegacyChildren(elites, draws, fs, dotLists);
      }
    }

    /**
     * The children newGeneration pushes after the elites, one per draw,
     * until the list holds popSize individuals: legacy offspring of the
     * current population, which stays unchanged.
     */
    method BreedLegacyChildren(elites: seq<Individual>, draws: seq<LegacyDraws>, ghost fs: seq<real>, ghost dotLists: seq<seq<Dot>>)
      returns (next: seq<Individual>)
      requires Valid() && 0 < popSize && |elites| <= |draws| == popSize
      requires fs == Fitnesses(population.population) && dotLists == DotLists(population.population)
      requires SameLength(dotLists, LegacyDotCount)
      requires forall k :: 0 <= k < |draws| ==> LegacyDrawsFit(draws[k])
      requires population.AllMembers(elites)
      ensures |next| == |draws| && population.AllMembers(next)
      ensures forall k :: 0 <= k < |elites| ==> next[k] == elites[k]
      ensures forall k :: |elites| <= k < |next| ==> fresh(next[k]) && Fitnesses(next)[k] == 0.0
      ensures IsLegacyBrood(revision, target, mutationRate, fs, dotLists, draws[|elites|..], DotLists(next)[|elites|..])
    {
      ghost var e := |elites|;
      ghost var ds := draws[e..];
      ghost var brood := seq(|ds|, k requires 0 <= k < |ds| => LegacyOffspring(revision, target, mutationRate, fs, dotLists, ds[k]));
      next := FillLegacyChildren(elites, draws, fs, dotLists, brood);
      ghost var tail := DotLists(next)[e..];
      forall k | 0 <= k < |tail|
        ensures tail[k] == brood[k]
      {
        assert tail[k] == next[k + e].dots;
      }
      assert tail == brood;
    }

    /**
     * The first part of newGeneration: elitismCount, the floor of a tenth of
     * popSize, and the first elitismCount individuals of the population
     * sorted by fitness, kept as the same objects.
     */
    method LegacyElites(ghost sorted: seq<Individual>) returns (elites: seq<Individual>)
      requires Valid()
      requires sorted == SortByFitness(population.population)
      ensures |elites| == EliteCount() && population.AllMembers(elites)
      ensures forall k :: 0 <= k < |elites| ==> elites[k] == sorted[k]
    {
      var elitismCount := (popSize as real * 0.1).Floor;
      var sortedPop := SortPopulation(population.population);
      SortByFitnessMembers(population.population);
      elites := KeepElites(sortedPop, elitismCount);
    }

    /** The for-loop of newGeneration that pushes sortedPop[0 .. count-1], the objects themselves. */
    static method KeepElites(sortedPop: seq<Individual>, count: nat) returns (kept: seq<Individual>)
      requires count <= |sortedPop|
      ensures |kept| == count && forall k :: 0 <= k < count ==> kept[k] == sortedPop[k]
    {
      kept := [];
      for i := 0 to count
        invariant |kept| == i && forall k :: 0 <= k < i ==> kept[k] == sortedPop[k]
      {
        kept := kept + [sortedPop[i]];
      }
    }

    /**
     * The while-loop of newGeneration: one child per draw, bred from the
     * unchanged population, whose fitness values are fs and whose dot lists
     * are dotLists, until the list holds popSize individuals; brood holds
     * the dots each child gets.
     */
    method FillLegacyChildren(elites: seq<Individual>, draws: seq<LegacyDraws>, ghost fs: seq<real>, ghost dotLists: seq<seq<Dot>>,
                              ghost brood: seq<seq<Dot>>)
      returns (next: seq<Individual>)
      requires Valid() && 0 < popSize && |elites| <= |draws| == popSize
      requires fs == Fitnesses(population.population) && dotLists == DotLists(population.population)
      requires SameLength(dotLists, LegacyDotCount)
      requires forall k :: 0 <= k < |draws| ==> LegacyDrawsFit(draws[k])
      requires IsLegacyBrood(revision, target, mutationRate, fs, dotLists, draws[|elites|..], brood)
      requires population.AllMembers(elites)
      ensures |next| == |draws| && population.AllMembers(next)
      ensures forall k :: 0 <= k < |elites| ==> next[k] == elites[k]
      ensures forall k :: |elites| <= k < |next| ==>
        && fresh(next[k]) && next[k].fitness == 0.0 && next[k].dots == brood[k - |elites|]
    {
      next := elites;
      while |next| < popSize
        modifies {}
        invariant |elites| <= |next| <= |draws| && population.AllMembers(next)
        invariant forall k :: 0 <= k < |elites| ==> next[k] == elites[k]
        invariant forall k :: |elites| <= k < |next| ==>
          && fresh(next[k]) && next[k].fitness == 0.0 && next[k].dots == brood[k - |elites|]
      {
        var child := LegacyBreed(draws[|elites|..], |next| - |elites|, fs, dotLists, brood);
        Untouched(population.population);
        next := next + [child];
      }
    }

    /**
     * One pass of the newGeneration loop, for the draws ds[n]:
     * parentSelect, crossover, mutate. The population is non-empty whenever
     * the loop runs, so the "No parents selected!" error is never thrown,
     * and the child's dots are the legacy offspring of the population for
     * ds[n], which are brood[n].
     */
    method LegacyBreed(ds: seq<LegacyDraws>, n: nat, ghost fs: seq<real>, ghost dotLists: seq<seq<Dot>>, ghost brood: seq<seq<Dot>>)
      returns (child: Individual)
      requires Valid() && 0 < popSize && n < |ds|
      requires fs == Fitnesses(population.population) && dotLists == DotLists(population.population)
      requires SameLength(dotLists, LegacyDotCount)
      requires forall k :: 0 <= k < |ds| ==> LegacyDrawsFit(ds[k])
      requires IsLegacyBrood(revision, target, mutationRate, fs, dotLists, ds, brood)
      ensures fresh(child) && population.Member(child) && child.fitness == 0.0
      ensures child.dots == brood[n]
    {
      var d := ds[n];
      assert brood[n] == LegacyOffspring(revision, target, mutationRate, fs, dotLists, d);
      var parent1, parent2 := ParentSelect(d.select1, d.select2);
      if parent1 == null || parent2 == null {
        assert false;
      }
      ghost var i1, i2 := Spin(fs, d.select1), Spin(fs, d.select2);
      assert parent1 == population.population[i1] && parent2 == population.population[i2];
      assert population.Member(parent1) && population.Member(parent2);
      assert dotLists[i1] == parent1.dots && dotLists[i2] == parent2.dots;
      child := Crossover(parent1, parent2, d.init, d.coins);
      ghost var crossed := child.dots;
      assert crossed == LegacyCrossed(revision, target, dotLists[i1], dotLists[i2], d.init, d.coins);
      LegacyCrossedInRange(revision, target, parent1.dots, parent2.dots, d.init, d.coins);
      child.Mutate(mutationRate, d.mutation);
    }

    /**
     * parentSelect: two roulette spins over the current population, with
     * r1 and r2 standing for Math.random(). Both parents exist exactly when
     * the population is non-empty.
     */
    method ParentSelect(r1: real, r2: real) returns (parent1: Individual?, parent2: Individual?)
      ensures parent1 != null && parent2 != null <==> population.population != []
      ensures population.population != [] ==>
        && parent1 == population.population[Spin(Fitnesses(population.population), r1)]
        && parent2 == population.population[Spin(Fitnesses(population.population), r2)]
    {
      parent1, parent2 := SelectParents(population.population, r1, r2);
    }

    /**
     * crossover(a, b): a new individual of a's canvas with the default 50000
     * random dots, whose first 10000 dots are replaced by new dots taken from
     * the parents; a and b need at least 10000 dots each.
     */
    method Crossover(a: Individual, b: Individual, init: seq<FieldDraws>, coins: seq<CrossCoins>) returns (child: Individual)
      requires ValidImage(target) && a.width == target.width && a.height == target.height
      requires LegacyCrossoverDots <= |a.dots| && LegacyCrossoverDots <= |b.dots|
      requires |init| == LegacyDotCount && |coins| == LegacyCrossoverDots
      ensures fresh(child) && child.fitness == 0.0
      ensures child.width == a.width && child.height == a.height && child.rule == RuleOf(revision)
      ensures child.dots == LegacyCrossed(revision, target, a.dots, b.dots, init, coins)
    {
      child := new Individual(a.width, a.height, LegacyDotCount, RuleOf(revision), init);
      ghost var initial := child.dots;
      ghost var prefix := CrossedPrefix(revision, target, a.dots, b.dots, coins);
      for i := 0 to LegacyCrossoverDots
        invariant |child.dots| == LegacyDotCount && child.fitness == 0.0
        invariant forall k :: 0 <= k < i ==> child.dots[k] == prefix[k]
        invariant forall k :: i <= k < LegacyDotCount ==> child.dots[k] == initial[k]
      {
        var dot: Dot;
        match revision {
          case Root =>
            var fitnessA := DotFitness(target, a.dots[i]);
            var fitnessB := DotFitness(target, b.dots[i]);
            if fitnessA > fitnessB {
              dot := Dot(a.dots[i].x, a.dots[i].y, a.dots[i].radius);
            } else {
              dot := Dot(b.dots[i].x, b.dots[i].y, b.dots[i].radius);
            }
          case Dist =>
            var x := if coins[i].x < 0.5 then a.dots[i].x else b.dots[i].x;
            var y := if coins[i].y < 0.5 then a.dots[i].y else b.dots[i].y;
            var radius := if coins[i].radius < 0.5 then a.dots[i].radius else b.dots[i].radius;
            dot := Dot(x, y, radius);
        }
        child.dots := child.dots[i := dot];
      }
      assert child.dots == prefix + initial[LegacyCrossoverDots..];
    }
  }
}
