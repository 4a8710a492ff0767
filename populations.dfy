/**
 * Fitness evaluation (src/core/Population.ts; the older Population.ts has
 * the same rasteriser inlined): every individual's dots are drawn as filled
 * circles on a white grid and the grid is compared with the target's red
 * channel.
 */
module Scoring {
  import opened Images

  /** The largest squared difference of two bytes. */
  const MaxPixelDiff: int := 255 * 255

  /** Σ (grid[i] - target[i])² over the first n cells. */
  function SquaredDiff(grid: seq<int>, target: seq<int>, n: nat): int
    requires n <= |grid| && n <= |target|
  {
    if n == 0 then 0
    else SquaredDiff(grid, target, n - 1) + (grid[n - 1] - target[n - 1]) * (grid[n - 1] - target[n - 1])
  }

  /** rawFitness = 1 - diff / (totalPixels * 255 * 255). */
  function RawFitness(diff: int, totalPixels: int): real
    requires 0 < totalPixels
  {
    1.0 - (diff as real) / ((totalPixels * MaxPixelDiff) as real)
  }

  /** The score calculateGridFitness gives a grid against the target. */
  function GridScore(grid: seq<int>, target: seq<int>): real
    requires 0 < |grid| == |target|
  {
    RawFitness(SquaredDiff(grid, target, |grid|), |grid|)
  }

  lemma SquareOfByteDiff(a: int, b: int)
    requires IsByte(a) && IsByte(b)
    ensures 0 <= (a - b) * (a - b) <= MaxPixelDiff
  {
    var e := a - b;
    var m := if e >= 0 then e else -e;
    assert e * e == m * m;
    assert 0 <= m <= 255;
    MulMonotone(m, 255, m);
    MulMonotone(m, 255, 255);
  }

  /** For byte inputs, 0 <= diff <= n * 255². */
  lemma {:induction false} SquaredDiffBounds(grid: seq<int>, target: seq<int>, n: nat)
    requires n <= |grid| && n <= |target| && AllBytes(grid) && AllBytes(target)
    ensures 0 <= SquaredDiff(grid, target, n) <= n * MaxPixelDiff
  {
    if n > 0 {
      SquaredDiffBounds(grid, target, n - 1);
      SquareOfByteDiff(grid[n - 1], target[n - 1]);
    }
  }

  /** The difference is 0 exactly when the first n cells agree. */
  lemma {:induction false} SquaredDiffZeroIff(grid: seq<int>, target: seq<int>, n: nat)
    requires n <= |grid| && n <= |target|
    ensures SquaredDiff(grid, target, n) == 0 <==> grid[..n] == target[..n]
  {
    if n > 0 {
      SquaredDiffZeroIff(grid, target, n - 1);
      var e := grid[n - 1] - target[n - 1];
      assert SquaredDiff(grid, target, n - 1) >= 0 by { SquaredDiffNonNegative(grid, target, n - 1); }
      assert e * e >= 0;
      assert e * e == 0 <==> e == 0;
      assert grid[..n] == grid[..n - 1] + [grid[n - 1]];
      assert target[..n] == target[..n - 1] + [target[n - 1]];
      if grid[..n] == target[..n] {
        assert grid[..n - 1] == grid[..n][..n - 1] && target[..n - 1] == target[..n][..n - 1];
        assert grid[n - 1] == grid[..n][n - 1];
      }
    }
  }

  lemma {:induction false} SquaredDiffNonNegative(grid: seq<int>, target: seq<int>, n: nat)
    requires n <= |grid| && n <= |target|
    ensures 0 <= SquaredDiff(grid, target, n)
  {
    if n > 0 {
      SquaredDiffNonNegative(grid, target, n - 1);
      var e := grid[n - 1] - target[n - 1];
      assert e * e >= 0;
    }
  }

  /** A white grid against a black target (or the reverse) differs by 255² in every cell. */
  lemma {:induction false} SquaredDiffInverted(grid: seq<int>, target: seq<int>, n: nat)
    requires n <= |grid| && n <= |target|
    requires forall i :: 0 <= i < n ==> (grid[i] == 255 && target[i] == 0) || (grid[i] == 0 && target[i] == 255)
    ensures SquaredDiff(grid, target, n) == n * MaxPixelDiff
  {
    if n > 0 {
      SquaredDiffInverted(grid, target, n - 1);
    }
  }

  lemma DivisionInUnit(a: real, b: real)
    requires 0.0 <= a <= b && 0.0 < b
    ensures 0.0 <= a / b <= 1.0
  {
    var q := a / b;
    assert q * b == a;
  }

  /** For byte grids the score lies in [0, 1]. */
  lemma GridScoreInUnit(grid: seq<int>, target: seq<int>)
    requires 0 < |grid| == |target| && AllBytes(grid) && AllBytes(target)
    ensures 0.0 <= GridScore(grid, target) <= 1.0
  {
    var n := |grid|;
    SquaredDiffBounds(grid, target, n);
    DivisionInUnit(SquaredDiff(grid, target, n) as real, (n * MaxPixelDiff) as real);
  }

  /** The score is exactly 1 when, and only when, the grid equals the target. */
  lemma GridScorePerfectIff(grid: seq<int>, target: seq<int>)
    requires 0 < |grid| == |target|
    ensures GridScore(grid, target) == 1.0 <==> grid == target
  {
    var n := |grid|;
    SquaredDiffZeroIff(grid, target, n);
    assert grid[..n] == grid && target[..n] == target;
    var d := SquaredDiff(grid, target, n) as real;
    var m := (n * MaxPixelDiff) as real;
    assert m > 0.0;
    assert d / m == 0.0 <==> d == 0.0 by {
      assert (d / m) * m == d;
    }
  }

  /** A grid fully inverted against an all-black or all-white target scores exactly 0. */
  lemma GridScoreInverted(grid: seq<int>, target: seq<int>)
    requires 0 < |grid| == |target|
    requires forall i :: 0 <= i < |grid| ==> (grid[i] == 255 && target[i] == 0) || (grid[i] == 0 && target[i] == 255)
    ensures GridScore(grid, target) == 0.0
  {
    SquaredDiffInverted(grid, target, |grid|);
  }

  /** reduce((best, _, i) => fitness[i] > fitness[best] ? i : best, 0) over the first n entries. */
  function FittestIndex(fs: seq<real>, n: nat): (k: nat)
    requires n <= |fs|
    ensures n == 0 ==> k == 0
    ensures 0 < n ==> k < n
    ensures 0 < n ==> forall j :: 0 <= j < n ==> fs[j] <= fs[k]
    ensures 0 < n ==> forall j :: 0 <= j < k ==> fs[j] < fs[k]
  {
    if n == 0 then 0
    else
      var best := FittestIndex(fs, n - 1);
      if fs[n - 1] > fs[best] then n - 1 else best
  }
}

module Populations {
  import opened Dots
  import opened Images
  import opened Genome
  import opened Fitness
  import opened Raster
  import opened Scoring

  class Population {
    var population: seq<Individual>
    const width: int
    const height: int
    const target: Image
    /** Red channel of the target, one byte per pixel. */
    const targetData: seq<int>
    /** Dots per individual (fixed for a run) and the radius rule of the Individual revision in use. */
    ghost const dotCount: nat
    const rule: RadiusRule

    ghost predicate Member(ind: Individual)
      reads ind
    {
      && ind.width == width && ind.height == height && ind.rule == rule
      && |ind.dots| == dotCount && ind.WellFormed()
    }

    /** The target and its red channel, fixed at construction. */
    ghost predicate Prepared() {
      && ValidImage(target) && width == target.width && height == target.height
      && |targetData| == width * height
      && (forall i :: 0 <= i < |targetData| ==> targetData[i] == target.data[4 * i])
    }

    ghost predicate AllMembers(pop: seq<Individual>)
      reads pop
    {
      forall k :: 0 <= k < |pop| ==> Member(pop[k])
    }

    ghost predicate Valid()
      reads this, population
    {
      Prepared() && AllMembers(population)
    }

    /** The fitness calculateFitness gives an individual with these dots. */
    ghost function FitnessOf(dots: seq<Dot>): real
      requires 1 <= width && 1 <= height && |targetData| == width * height
    {
      PositiveArea(width, height);
      GridScore(Render(dots, width, height), targetData)
    }

    static lemma PositiveArea(width: int, height: int)
      requires 1 <= width && 1 <= height
      ensures 1 <= width * height
    {
      MulMonotone(1, height, width);
    }

    /**
     * new Population(config, target): size random individuals of dotCount
     * dots each and the target's red channel.
     */
    constructor (size: nat, target: Image, dotCount: nat, rule: RadiusRule, draws: seq<seq<FieldDraws>>)
      requires ValidImage(target)
      requires |draws| == size
      requires forall k :: 0 <= k < size ==> |draws[k]| == dotCount && UnitFieldDraws(draws[k])
      ensures Valid() && this.target == target && this.dotCount == dotCount && this.rule == rule
      ensures |population| == size
      ensures forall k :: 0 <= k < size ==> fresh(population[k]) && population[k].fitness == 0.0
      ensures forall k :: 0 <= k < size ==> population[k].dots == InitialDots(target.width, target.height, rule, draws[k])
    {
      width := target.width;
      height := target.height;
      this.target := target;
      this.dotCount := dotCount;
      this.rule := rule;
      var pop := InitializePopulation(size, target.width, target.height, dotCount, rule, draws);
      var data := PrepareTargetData(target);
      targetData := data;
      population := pop;
    }

    /** initializePopulation: size fresh individuals. */
    static method InitializePopulation(size: nat, width: int, height: int, dotCount: nat, rule: RadiusRule, draws: seq<seq<FieldDraws>>)
      returns (pop: seq<Individual>)
      requires 1 <= width && 1 <= height && |draws| == size
      requires forall k :: 0 <= k < size ==> |draws[k]| == dotCount && UnitFieldDraws(draws[k])
      ensures |pop| == size
      ensures forall k :: 0 <= k < size ==> fresh(pop[k])
      ensures forall k :: 0 <= k < size ==>
        && pop[k].width == width && pop[k].height == height && pop[k].rule == rule
        && pop[k].fitness == 0.0 && pop[k].dots == InitialDots(width, height, rule, draws[k])
        && pop[k].WellFormed()
    {
      pop := [];
      for i := 0 to size
        invariant |pop| == i
        invariant forall k :: 0 <= k < i ==> fresh(pop[k])
        invariant forall k :: 0 <= k < i ==>
          && pop[k].width == width && pop[k].height == height && pop[k].rule == rule
          && pop[k].fitness == 0.0 && pop[k].dots == InitialDots(width, height, rule, draws[k])
          && pop[k].WellFormed()
      {
        var ind := new Individual(width, height, dotCount, rule, draws[i]);
        pop := pop + [ind];
      }
    }

    /** prepareTargetData: targetData[i] = target.data[4*i], the red byte of pixel i. */
    static method PrepareTargetData(target: Image) returns (data: seq<int>)
      requires ValidImage(target)
      ensures |data| == target.width * target.height
      ensures forall i :: 0 <= i < |data| ==> data[i] == target.data[4 * i]
    {
      var targetLength := target.width * target.height;
      var a := new int[targetLength];
      for i := 0 to targetLength
        invariant forall j :: 0 <= j < i ==> a[j] == target.data[4 * j]
      {
        a[i] := target.data[i * 4];
      }
      data := a[..];
    }

    /**
     * calculateFitness: each individual is scored on its own fresh white grid;
     * only the fitness fields change.
     */
    method CalculateFitness()
      requires Valid()
      modifies population
      ensures Valid()
      ensures forall k :: 0 <= k < |population| ==> population[k].dots == old(population[k].dots)
      ensures forall k :: 0 <= k < |population| ==> population[k].fitness == FitnessOf(population[k].dots)
      ensures forall k :: 0 <= k < |population| ==> 0.0 <= population[k].fitness <= 1.0
    {
      PositiveArea(width, height);
      var i := 0;
      while i < |population|
        invariant 0 <= i <= |population|
        invariant forall k :: 0 <= k < |population| ==> population[k].dots == old(population[k].dots)
        invariant forall k :: 0 <= k < i ==> population[k].fitness == FitnessOf(population[k].dots)
        invariant forall k :: 0 <= k < i ==> 0.0 <= population[k].fitness <= 1.0
      {
        ScoreIndividual(population[i]);
        i := i + 1;
      }
    }

    /** One pass of calculateFitness's loop: draw the individual's dots on a white grid and score it. */
    method ScoreIndividual(individual: Individual)
      requires Prepared()
      modifies individual
      ensures individual.dots == old(individual.dots)
      ensures individual.fitness == FitnessOf(individual.dots) && 0.0 <= individual.fitness <= 1.0
    {
      PositiveArea(width, height);
      var grid := CreateGrid();
      DrawDotsToGrid(individual.dots, grid);
      assert grid[..] == Render(individual.dots, width, height);
      var fitness := CalculateGridFitness(grid);
      GridScoreInUnit(grid[..], targetData);
      individual.fitness := fitness;
    }

    /** The assignment population.population = next that ends a generation. */
    method Replace(next: seq<Individual>)
      requires Prepared() && AllMembers(next)
      modifies this
      ensures population == next && Valid()
      ensures Fitnesses(population) == old(Fitnesses(next)) && DotLists(population) == old(DotLists(next))
    {
      population := next;
      Untouched(next);
    }

    /** createGrid: width*height cells, all 255 (white). */
    method CreateGrid() returns (grid: array<int>)
      requires 0 <= width && 0 <= height
      ensures fresh(grid) && grid.Length == width * height
      ensures forall q :: 0 <= q < grid.Length ==> grid[q] == 255
    {
      grid := new int[width * height](_ => 255);
    }

    /** drawDotsToGrid: blackens exactly the cells some dot paints; all other cells keep their value. */
    method DrawDotsToGrid(dots: seq<Dot>, grid: array<int>)
      requires grid.Length == width * height
      modifies grid
      ensures forall q :: 0 <= q < grid.Length ==> grid[q] == if Covered(dots, width, height, q) then 0 else old(grid[q])
    {
      for i := 0 to |dots|
        invariant forall q :: 0 <= q < grid.Length ==> grid[q] == if Covered(dots[..i], width, height, q) then 0 else old(grid[q])
      {
        DrawDotToGrid(dots[i], grid);
        forall q | 0 <= q < grid.Length
          ensures Covered(dots[..i + 1], width, height, q) <==> Covered(dots[..i], width, height, q) || DotPaints(dots[i], width, height, q)
        {
          CoveredSnoc(dots, i, width, height, q);
        }
      }
      assert dots[..|dots|] == dots;
    }

    /** drawDotToGrid: floors the dot; a dot outside the canvas changes nothing, any other is drawn as a circle. */
    method DrawDotToGrid(dot: Dot, grid: array<int>)
      requires grid.Length == width * height
      modifies grid
      ensures forall q :: 0 <= q < grid.Length ==> grid[q] == if DotPaints(dot, width, height, q) then 0 else old(grid[q])
    {
      var centerX := dot.x.Floor;
      var centerY := dot.y.Floor;
      var radius := dot.radius.Floor;
      if IsOutsideCanvas(centerX, centerY, radius, width, height) {
        return;
      }
      DrawCircle(centerX, centerY, radius, grid);
    }

    /** drawCircle: the midpoint loop, which blackens exactly the cells of CircleSpans. */
    method DrawCircle(centerX: int, centerY: int, radius: int, grid: array<int>)
      requires grid.Length == width * height
      modifies grid
      ensures forall q :: 0 <= q < grid.Length ==>
        grid[q] == if Painted(CircleSpans(centerX, centerY, radius), width, height, q) then 0 else old(grid[q])
    {
      var x := 0;
      var y := radius;
      var d := 1 - radius;
      DrawHorizontalLine(centerY, centerX - radius, centerX + radius, grid);
      ghost var drawn := [Span(centerY, centerX - radius, centerX + radius)];
      forall q | 0 <= q < grid.Length
        ensures grid[q] == if Painted(drawn, width, height, q) then 0 else old(grid[q])
      {
        PaintedSnoc([], drawn[0], width, height, q);
        assert [] + [drawn[0]] == drawn;
      }
      while y > x
        invariant drawn + OctantSpans(centerX, centerY, x, y, d) == CircleSpans(centerX, centerY, radius)
        invariant forall q :: 0 <= q < grid.Length ==>
          grid[q] == if Painted(drawn, width, height, q) then 0 else old(grid[q])
        decreases y - x
      {
        ghost var x0, y0, d0 := x, y, d;
        if d < 0 {
          d := d + 2 * x + 3;
        } else {
          d := d + 2 * (x - y) + 5;
          y := y - 1;
        }
        x := x + 1;
        ghost var s1, s2, s3, s4 := Span(centerY + y, centerX - x, centerX + x), Span(centerY - y, centerX - x, centerX + x),
                                    Span(centerY + x, centerX - y, centerX + y), Span(centerY - x, centerX - y, centerX + y);
        assert OctantSpans(centerX, centerY, x0, y0, d0) == [s1, s2, s3, s4] + OctantSpans(centerX, centerY, x, y, d);
        assert drawn + [s1, s2, s3, s4] + OctantSpans(centerX, centerY, x, y, d) == CircleSpans(centerX, centerY, radius);
        DrawSymmetricLines(centerX, centerY, x, y, grid);
        forall q | 0 <= q < grid.Length
          ensures grid[q] == if Painted(drawn + [s1, s2, s3, s4], width, height, q) then 0 else old(grid[q])
        {
          PaintedSnoc4(drawn, s1, s2, s3, s4, width, height, q);
        }
        drawn := drawn + [s1, s2, s3, s4];
      }
      assert OctantSpans(centerX, centerY, x, y, d) == [];
      assert drawn == CircleSpans(centerX, centerY, radius);
    }

    /** The four drawHorizontalLine calls of one midpoint step, mirrored about the centre. */
    method DrawSymmetricLines(centerX: int, centerY: int, x: int, y: int, grid: array<int>)
      requires grid.Length == width * height
      modifies grid
      ensures forall q :: 0 <= q < grid.Length ==>
        grid[q] == if Hits(Span(centerY + y, centerX - x, centerX + x), width, height, q)
                   || Hits(Span(centerY - y, centerX - x, centerX + x), width, height, q)
                   || Hits(Span(centerY + x, centerX - y, centerX + y), width, height, q)
                   || Hits(Span(centerY - x, centerX - y, centerX + y), width, height, q)
                   then 0 else old(grid[q])
    {
      DrawHorizontalLine(centerY + y, centerX - x, centerX + x, grid);
      DrawHorizontalLine(centerY - y, centerX - x, centerX + x, grid);
      DrawHorizontalLine(centerY + x, centerX - y, centerX + y, grid);
      DrawHorizontalLine(centerY - x, centerX - y, centerX + y, grid);
    }

    /**
     * drawHorizontalLine: skips a row outside [0,height), clips the columns to
     * [0,width-1] and blackens exactly those cells; nothing else changes and
     * no index leaves the grid.
     */
    method DrawHorizontalLine(y: int, startX: int, endX: int, grid: array<int>)
      requires grid.Length == width * height
      modifies grid
      ensures forall q :: 0 <= q < grid.Length ==>
        grid[q] == if Hits(Span(y, startX, endX), width, height, q) then 0 else old(grid[q])
    {
      if y < 0 || y >= height {
        return;
      }
      var first := Max(0, startX);
      var last := Min(width - 1, endX);
      var x := first;
      while x <= last
        invariant first <= x && (x <= last + 1 || x == first)
        invariant forall q :: 0 <= q < grid.Length ==>
          grid[q] == if y * width + first <= q < y * width + x then 0 else old(grid[q])
      {
        RowMajorBound(width, height, x, y);
        grid[y * width + x] := 0;
        x := x + 1;
      }
    }

    /** calculateGridFitness: 1 - Σ(grid[i]-target[i])² / (width*height*255²). */
    method CalculateGridFitness(grid: array<int>) returns (fitness: real)
      requires 1 <= width && 1 <= height && |targetData| == width * height
      requires grid.Length == width * height
      ensures fitness == GridScore(grid[..], targetData)
    {
      PositiveArea(width, height);
      var totalPixels := width * height;
      var diff := 0;
      for i := 0 to totalPixels
        invariant diff == SquaredDiff(grid[..], targetData, i)
      {
        var pixelDiff := grid[i] - targetData[i];
        diff := diff + pixelDiff * pixelDiff;
      }
      var maxPossibleDiff := totalPixels * 255 * 255;
      fitness := 1.0 - (diff as real) / (maxPossibleDiff as real);
    }

    /** getFittestIndex: an index of greatest fitness, the first one on ties (0 when empty). */
    function GetFittestIndex(): (k: nat)
      reads this, population
      ensures |population| == 0 ==> k == 0
      ensures 0 < |population| ==> k < |population|
      ensures 0 < |population| ==> forall j :: 0 <= j < |population| ==> population[j].fitness <= population[k].fitness
      ensures 0 < |population| ==> forall j :: 0 <= j < k ==> population[j].fitness < population[k].fitness
    {
      FittestIndex(Fitnesses(population), |population|)
    }

    /**
     * fittestIndividual (Population.ts): an index of greatest fitness, the
     * last one on ties because the comparison keeps the old index only when
     * it is strictly better.
     */
    method FittestIndividual() returns (fittest: nat)
      ensures |population| == 0 ==> fittest == 0
      ensures 0 < |population| ==> fittest < |population|
      ensures forall j :: 0 <= j < |population| ==> population[j].fitness <= population[fittest].fitness
      ensures forall j :: fittest < j < |population| ==> population[j].fitness < population[fittest].fitness
    {
      fittest := 0;
      for index := 0 to |population|
        invariant index == 0 ==> fittest == 0
        invariant 0 < index ==> fittest < index
        invariant forall j :: 0 <= j < index ==> population[j].fitness <= population[fittest].fitness
        invariant forall j :: fittest < j < index ==> population[j].fitness < population[fittest].fitness
      {
        fittest := if population[fittest].fitness > population[index].fitness then fittest else index;
      }
    }
  }
}
