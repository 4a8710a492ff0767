/**
 * Individuals (src/core/Individual.ts, Individual.ts, dist/Individual.js):
 * a fixed-length list of dots with a fitness, random initialisation,
 * in-place mutation and deep copy. Every Math.random() call is an explicit
 * draw supplied by the caller.
 */
module Genome {
  import opened Dots

  /** A value Math.random() can return. */
  predicate InUnit(r: real) { 0.0 <= r < 1.0 }

  /** One draw per field of a dot, in the order x, y, radius. */
  datatype FieldDraws = FieldDraws(x: real, y: real, radius: real)

  predicate UnitFieldDraws(ds: seq<FieldDraws>) {
    forall i :: 0 <= i < |ds| ==> InUnit(ds[i].x) && InUnit(ds[i].y) && InUnit(ds[i].radius)
  }

  /**
   * The draws mutate makes for one dot: per field, the coin compared with
   * the mutation rate and the value drawn when the coin falls below it.
   */
  datatype MutationDraw = MutationDraw(xCoin: real, x: real, yCoin: real, y: real, radiusCoin: real, radius: real)

  predicate UnitMutationDraws(ds: seq<MutationDraw>) {
    forall i :: 0 <= i < |ds| ==>
      && InUnit(ds[i].xCoin) && InUnit(ds[i].x)
      && InUnit(ds[i].yCoin) && InUnit(ds[i].y)
      && InUnit(ds[i].radiusCoin) && InUnit(ds[i].radius)
  }

  /**
   * How randRadius chooses a radius: 1 + 2r in src/core/Individual.ts and
   * Individual.ts, the constant 1 in dist/Individual.js.
   */
  datatype RadiusRule = Drawn | ConstantOne

  predicate IsInteger(v: real) { v.Floor as real == v }

  /** randX: floor(r * width). */
  function RandX(width: int, r: real): (v: real)
    ensures InUnit(r) && 1 <= width ==> IsInteger(v) && 0.0 <= v < width as real
  {
    assert InUnit(r) && 1 <= width ==> r * width as real < width as real by {
      if InUnit(r) && 1 <= width { assert (1.0 - r) * width as real > 0.0; }
    }
    (r * width as real).Floor as real
  }

  /** randY: floor(r * height). */
  function RandY(height: int, r: real): (v: real)
    ensures InUnit(r) && 1 <= height ==> IsInteger(v) && 0.0 <= v < height as real
  {
    RandX(height, r)
  }

  /** randRadius: 1 + 2r, or the constant 1 in dist/Individual.js. */
  function RandRadius(rule: RadiusRule, r: real): (v: real)
    ensures rule == ConstantOne ==> v == 1.0
    ensures InUnit(r) ==> 1.0 <= v < 3.0
  {
    match rule
    case Drawn => 1.0 + r * 2.0
    case ConstantOne => 1.0
  }

  /** The range every dot keeps: integer x in [0,width), integer y in [0,height), radius in [1,3) (exactly 1 under ConstantOne). */
  predicate InRange(d: Dot, width: int, height: int, rule: RadiusRule) {
    && IsInteger(d.x) && 0.0 <= d.x < width as real
    && IsInteger(d.y) && 0.0 <= d.y < height as real
    && 1.0 <= d.radius < 3.0
    && (rule == ConstantOne ==> d.radius == 1.0)
  }

  predicate AllInRange(ds: seq<Dot>, width: int, height: int, rule: RadiusRule) {
    forall i :: 0 <= i < |ds| ==> InRange(ds[i], width, height, rule)
  }

  /** The dot drawn from one triple of draws. */
  function RandomDot(width: int, height: int, rule: RadiusRule, d: FieldDraws): (r: Dot)
    ensures InUnit(d.x) && InUnit(d.y) && InUnit(d.radius) && 1 <= width && 1 <= height
      ==> InRange(r, width, height, rule)
  {
    Dot(RandX(width, d.x), RandY(height, d.y), RandRadius(rule, d.radius))
  }

  /** The dots of a fresh individual: one random dot per triple of draws. */
  function InitialDots(width: int, height: int, rule: RadiusRule, draws: seq<FieldDraws>): (r: seq<Dot>)
    ensures |r| == |draws|
    ensures UnitFieldDraws(draws) && 1 <= width && 1 <= height ==> AllInRange(r, width, height, rule)
  {
    seq(|draws|, i requires 0 <= i < |draws| => RandomDot(width, height, rule, draws[i]))
  }

  /**
   * One dot after mutate: each field independently keeps its value or is
   * redrawn, and it is redrawn exactly when its coin is below the rate.
   */
  function MutateDot(d: Dot, m: MutationDraw, rate: real, width: int, height: int, rule: RadiusRule): (r: Dot)
    ensures r.x == (if m.xCoin < rate then RandX(width, m.x) else d.x)
    ensures r.y == (if m.yCoin < rate then RandY(height, m.y) else d.y)
    ensures r.radius == (if m.radiusCoin < rate then RandRadius(rule, m.radius) else d.radius)
  {
    Dot(if m.xCoin < rate then RandX(width, m.x) else d.x,
        if m.yCoin < rate then RandY(height, m.y) else d.y,
        if m.radiusCoin < rate then RandRadius(rule, m.radius) else d.radius)
  }

  /** All dots after mutate, position by position. */
  function Mutated(ds: seq<Dot>, draws: seq<MutationDraw>, rate: real, width: int, height: int, rule: RadiusRule): (r: seq<Dot>)
    requires |draws| == |ds|
    ensures |r| == |ds|
  {
    seq(|ds|, i requires 0 <= i < |ds| => MutateDot(ds[i], draws[i], rate, width, height, rule))
  }

  /** mutate preserves the range invariant of every dot. */
  lemma MutatePreservesRange(ds: seq<Dot>, draws: seq<MutationDraw>, rate: real, width: int, height: int, rule: RadiusRule)
    requires |draws| == |ds| && 1 <= width && 1 <= height
    requires AllInRange(ds, width, height, rule) && UnitMutationDraws(draws)
    ensures AllInRange(Mutated(ds, draws, rate, width, height, rule), width, height, rule)
  {
    var r := Mutated(ds, draws, rate, width, height, rule);
    forall i | 0 <= i < |ds| ensures InRange(r[i], width, height, rule) {
      var m := draws[i];
      assert InUnit(m.x) && InUnit(m.y) && InUnit(m.radius);
    }
  }

  /** mutate(0) changes nothing: no coin in [0,1) is below 0. */
  lemma MutateZeroIsIdentity(ds: seq<Dot>, draws: seq<MutationDraw>, rate: real, width: int, height: int, rule: RadiusRule)
    requires |draws| == |ds| && rate <= 0.0 && UnitMutationDraws(draws)
    ensures Mutated(ds, draws, rate, width, height, rule) == ds
  {
    var r := Mutated(ds, draws, rate, width, height, rule);
    forall i | 0 <= i < |ds| ensures r[i] == ds[i] {
      assert InUnit(draws[i].xCoin) && InUnit(draws[i].yCoin) && InUnit(draws[i].radiusCoin);
    }
  }

  /** With a rate of at least 1 every field of every dot is redrawn. */
  lemma MutateFullRateRedraws(ds: seq<Dot>, draws: seq<MutationDraw>, rate: real, width: int, height: int, rule: RadiusRule)
    requires |draws| == |ds| && 1.0 <= rate && UnitMutationDraws(draws)
    ensures forall i :: 0 <= i < |ds| ==>
      Mutated(ds, draws, rate, width, height, rule)[i]
        == Dot(RandX(width, draws[i].x), RandY(height, draws[i].y), RandRadius(rule, draws[i].radius))
  {
    forall i | 0 <= i < |ds|
      ensures Mutated(ds, draws, rate, width, height, rule)[i]
        == Dot(RandX(width, draws[i].x), RandY(height, draws[i].y), RandRadius(rule, draws[i].radius))
    {
      assert InUnit(draws[i].xCoin) && InUnit(draws[i].yCoin) && InUnit(draws[i].radiusCoin);
    }
  }

  /** Under dist/Individual.js every radius is 1, before and after any mutation. */
  lemma ConstantRadiusStaysOne(ds: seq<Dot>, draws: seq<MutationDraw>, rate: real, width: int, height: int)
    requires |draws| == |ds|
    requires forall i :: 0 <= i < |ds| ==> ds[i].radius == 1.0
    ensures forall i :: 0 <= i < |ds| ==> Mutated(ds, draws, rate, width, height, ConstantOne)[i].radius == 1.0
  {
    var r := Mutated(ds, draws, rate, width, height, ConstantOne);
    forall i | 0 <= i < |ds| ensures r[i].radius == 1.0 {
      assert r[i] == MutateDot(ds[i], draws[i], rate, width, height, ConstantOne);
    }
  }

  class Individual {
    var dots: seq<Dot>
    var fitness: real
    const width: int
    const height: int
    const rule: RadiusRule

    /** Every dot is in range for this individual's canvas. */
    predicate WellFormed()
      reads this
    {
      AllInRange(dots, width, height, rule)
    }

    /**
     * new Individual(width, height, dotCount): fitness 0 and dotCount random
     * dots, the i-th drawn from draws[i].
     */
    constructor (width: int, height: int, dotCount: nat, rule: RadiusRule, draws: seq<FieldDraws>)
      requires |draws| == dotCount
      ensures this.width == width && this.height == height && this.rule == rule
      ensures fitness == 0.0 && |dots| == dotCount
      ensures dots == InitialDots(width, height, rule, draws)
      ensures 1 <= width && 1 <= height && UnitFieldDraws(draws) ==> WellFormed()
    {
      this.width := width;
      this.height := height;
      this.rule := rule;
      fitness := 0.0;
      var ds: seq<Dot> := [];
      for i := 0 to dotCount
        invariant ds == InitialDots(width, height, rule, draws[..i])
      {
        ds := ds + [RandomDot(width, height, rule, draws[i])];
      }
      assert draws[..dotCount] == draws;
      dots := ds;
    }

    /** mutate(rate): rewrites the dots in place, keeping their number and order. */
    method Mutate(mutationRate: real, draws: seq<MutationDraw>)
      requires |draws| == |dots|
      modifies this
      ensures dots == Mutated(old(dots), draws, mutationRate, width, height, rule)
      ensures fitness == old(fitness)
      ensures old(WellFormed()) && 1 <= width && 1 <= height && UnitMutationDraws(draws) ==> WellFormed()
    {
      var i := 0;
      while i < |dots|
        invariant 0 <= i <= |dots| == |old(dots)|
        invariant fitness == old(fitness)
        invariant forall k :: 0 <= k < i ==> dots[k] == MutateDot(old(dots)[k], draws[k], mutationRate, width, height, rule)
        invariant forall k :: i <= k < |dots| ==> dots[k] == old(dots)[k]
      {
        var dot := dots[i];
        var x := if draws[i].xCoin < mutationRate then RandX(width, draws[i].x) else dot.x;
        var y := if draws[i].yCoin < mutationRate then RandY(height, draws[i].y) else dot.y;
        var radius := if draws[i].radiusCoin < mutationRate then RandRadius(rule, draws[i].radius) else dot.radius;
        dots := dots[i := Dot(x, y, radius)];
        i := i + 1;
      }
      if old(WellFormed()) && 1 <= width && 1 <= height && UnitMutationDraws(draws) {
        MutatePreservesRange(old(dots), draws, mutationRate, width, height, rule);
      }
    }

    /** clone(): a fresh individual with the same canvas, fitness and dots. */
    method Clone() returns (c: Individual)
      ensures fresh(c)
      ensures c.width == width && c.height == height && c.rule == rule
      ensures c.fitness == fitness && c.dots == dots
    {
      c := new Individual(width, height, 0, rule, []);
      c.fitness := fitness;
      var ds := dots;
      c.dots := seq(|ds|, i requires 0 <= i < |ds| => Dots.Clone(ds[i]));
      assert c.dots == ds;
    }
  }
}

/** Snapshots of a population's fields, for specifications that must not depend on the heap. */
module Fitness {
  import opened Dots
  import opened Genome

  /** The fitness of each individual, in order. */
  function Fitnesses(pop: seq<Individual>): (fs: seq<real>)
    reads pop
    ensures |fs| == |pop|
    ensures forall i :: 0 <= i < |pop| ==> fs[i] == pop[i].fitness
  {
    if pop == [] then [] else [pop[0].fitness] + Fitnesses(pop[1..])
  }

  /** The dots of each individual, in order. */
  function DotLists(pop: seq<Individual>): (ds: seq<seq<Dot>>)
    reads pop
    ensures |ds| == |pop|
    ensures forall i :: 0 <= i < |pop| ==> ds[i] == pop[i].dots
  {
    if pop == [] then [] else [pop[0].dots] + DotLists(pop[1..])
  }

  /** Fitness values and dots are read from the individuals alone: untouched individuals keep them. */
  twostate lemma {:induction false} Untouched(pop: seq<Individual>)
    requires forall k :: 0 <= k < |pop| ==> unchanged(pop[k])
    ensures Fitnesses(pop) == old(Fitnesses(pop)) && DotLists(pop) == old(DotLists(pop))
  {
    if pop != [] {
      Untouched(pop[1..]);
    }
  }

  /** Individuals whose dots were not reassigned keep their dot lists. */
  twostate lemma {:induction false} DotsKept(pop: seq<Individual>)
    requires forall k :: 0 <= k < |pop| ==> pop[k].dots == old(pop[k].dots)
    ensures DotLists(pop) == old(DotLists(pop))
  {
    if pop != [] {
      DotsKept(pop[1..]);
    }
  }
}
