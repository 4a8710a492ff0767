/**
 * Crossover of two parents' dot lists: the guided, per-dot choice of
 * src/core/GeneticAlgorithm.ts and GeneticAlgorithm.ts, and the uniform,
 * per-field coin tosses of dist/GeneticAlgorithm.js.
 */
module Breeding {
  import opened Dots
  import opened Images
  import opened Genome

  /** The floored position of the dot lies on the target. */
  predicate OnTarget(target: Image, dot: Dot) {
    0 <= dot.x.Floor < target.width && 0 <= dot.y.Floor < target.height
  }

  /**
   * calculateDotFitness: 0 for a dot whose floored position is off the
   * target, otherwise 255 minus the red byte under it, so darker pixels
   * score higher.
   */
  function DotFitness(target: Image, dot: Dot): (s: int)
    requires ValidImage(target)
    ensures 0 <= s <= 255
    ensures !OnTarget(target, dot) ==> s == 0
    ensures OnTarget(target, dot) ==> s + Red(target, dot.x.Floor, dot.y.Floor) == 255
  {
    var x := dot.x.Floor;
    var y := dot.y.Floor;
    if x < 0 || x >= target.width || y < 0 || y >= target.height then 0
    else
      RowMajorBound(target.width, target.height, x, y);
      255 - target.data[(y * target.width + x) * 4]
  }

  /** A dot on a darker pixel never scores lower than one on a lighter pixel or off the target. */
  lemma DarkerPixelScoresHigher(target: Image, a: Dot, b: Dot)
    requires ValidImage(target) && OnTarget(target, a)
    requires OnTarget(target, b) ==> Red(target, a.x.Floor, a.y.Floor) <= Red(target, b.x.Floor, b.y.Floor)
    ensures DotFitness(target, b) <= DotFitness(target, a)
  {
    if OnTarget(target, b) {
      assert DotFitness(target, b) == 255 - Red(target, b.x.Floor, b.y.Floor);
    }
  }

  /** The parent dot the guided crossover copies: a's when it scores strictly higher, b's otherwise. */
  function GuidedPick(target: Image, a: Dot, b: Dot): (r: Dot)
    requires ValidImage(target)
    ensures r == a || r == b
    ensures DotFitness(target, r) == if DotFitness(target, a) > DotFitness(target, b) then DotFitness(target, a) else DotFitness(target, b)
    ensures DotFitness(target, a) == DotFitness(target, b) ==> r == b
  {
    if DotFitness(target, a) > DotFitness(target, b) then a else b
  }

  /** The guided child: position by position the better-scoring parent dot, over the first |xs| positions. */
  function GuidedDots(target: Image, xs: seq<Dot>, ys: seq<Dot>): (r: seq<Dot>)
    requires ValidImage(target) && |xs| <= |ys|
    ensures |r| == |xs|
    ensures forall i :: 0 <= i < |xs| ==> r[i] == GuidedPick(target, xs[i], ys[i])
  {
    seq(|xs|, i requires 0 <= i < |xs| => GuidedPick(target, xs[i], ys[i]))
  }

  /** Crossing a dot list with itself gives it back. */
  lemma GuidedSelf(target: Image, xs: seq<Dot>)
    requires ValidImage(target)
    ensures GuidedDots(target, xs, xs) == xs
  {
  }

  /** The child is the first parent exactly when, at every position, that parent wins or both parents agree. */
  lemma GuidedIsFirstParentIff(target: Image, xs: seq<Dot>, ys: seq<Dot>)
    requires ValidImage(target) && |xs| <= |ys|
    ensures GuidedDots(target, xs, ys) == xs <==>
      forall i :: 0 <= i < |xs| ==> DotFitness(target, xs[i]) > DotFitness(target, ys[i]) || xs[i] == ys[i]
  {
    var r := GuidedDots(target, xs, ys);
    if r == xs {
      forall i | 0 <= i < |xs| ensures DotFitness(target, xs[i]) > DotFitness(target, ys[i]) || xs[i] == ys[i] {
        assert r[i] == xs[i];
      }
    }
  }

  /** Sum of the dot scores, the quantity the guided crossover maximises position by position. */
  function ScoreSum(target: Image, ds: seq<Dot>): int
    requires ValidImage(target)
  {
    if ds == [] then 0 else ScoreSum(target, ds[..|ds| - 1]) + DotFitness(target, ds[|ds| - 1])
  }

  /** The guided child scores at least as high in total as either parent over the same positions. */
  lemma {:induction false} GuidedScoreDominates(target: Image, xs: seq<Dot>, ys: seq<Dot>)
    requires ValidImage(target) && |xs| == |ys|
    ensures ScoreSum(target, xs) <= ScoreSum(target, GuidedDots(target, xs, ys))
    ensures ScoreSum(target, ys) <= ScoreSum(target, GuidedDots(target, xs, ys))
  {
    if xs != [] {
      var n := |xs|;
      GuidedScoreDominates(target, xs[..n - 1], ys[..n - 1]);
      var r := GuidedDots(target, xs, ys);
      assert r[..n - 1] == GuidedDots(target, xs[..n - 1], ys[..n - 1]);
    }
  }

  /** Dots copied whole from in-range parents are in range. */
  lemma GuidedInRange(target: Image, xs: seq<Dot>, ys: seq<Dot>, rule: RadiusRule)
    requires ValidImage(target) && |xs| <= |ys|
    requires AllInRange(xs, target.width, target.height, rule) && AllInRange(ys, target.width, target.height, rule)
    ensures AllInRange(GuidedDots(target, xs, ys), target.width, target.height, rule)
  {
  }

  /** The three coin tosses of one uniform-crossover position. */
  datatype CrossCoins = CrossCoins(x: real, y: real, radius: real)

  /** Each field comes from a when its coin is below 0.5, from b otherwise. */
  function UniformPick(a: Dot, b: Dot, c: CrossCoins): (r: Dot)
    ensures r.x == (if c.x < 0.5 then a.x else b.x)
    ensures r.y == (if c.y < 0.5 then a.y else b.y)
    ensures r.radius == (if c.radius < 0.5 then a.radius else b.radius)
  {
    Dot(if c.x < 0.5 then a.x else b.x, if c.y < 0.5 then a.y else b.y, if c.radius < 0.5 then a.radius else b.radius)
  }

  /** The uniform child over the positions of the coin list. */
  function UniformDots(xs: seq<Dot>, ys: seq<Dot>, coins: seq<CrossCoins>): (r: seq<Dot>)
    requires |coins| <= |xs| && |coins| <= |ys|
    ensures |r| == |coins|
    ensures forall i :: 0 <= i < |coins| ==> r[i] == UniformPick(xs[i], ys[i], coins[i])
  {
    seq(|coins|, i requires 0 <= i < |coins| => UniformPick(xs[i], ys[i], coins[i]))
  }

  /** Mixing fields of in-range parents stays in range, since the range is a per-field condition. */
  lemma UniformInRange(xs: seq<Dot>, ys: seq<Dot>, coins: seq<CrossCoins>, width: int, height: int, rule: RadiusRule)
    requires |coins| <= |xs| && |coins| <= |ys|
    requires AllInRange(xs, width, height, rule) && AllInRange(ys, width, height, rule)
    ensures AllInRange(UniformDots(xs, ys, coins), width, height, rule)
  {
    var r := UniformDots(xs, ys, coins);
    forall i | 0 <= i < |r| ensures InRange(r[i], width, height, rule) {
      assert InRange(xs[i], width, height, rule) && InRange(ys[i], width, height, rule);
    }
  }

  /** All coins below 0.5 copy the first parent; all at or above copy the second. */
  lemma UniformExtremes(xs: seq<Dot>, ys: seq<Dot>, coins: seq<CrossCoins>)
    requires |coins| == |xs| == |ys|
    ensures (forall i :: 0 <= i < |coins| ==> coins[i].x < 0.5 && coins[i].y < 0.5 && coins[i].radius < 0.5)
      ==> UniformDots(xs, ys, coins) == xs
    ensures (forall i :: 0 <= i < |coins| ==> coins[i].x >= 0.5 && coins[i].y >= 0.5 && coins[i].radius >= 0.5)
      ==> UniformDots(xs, ys, coins) == ys
  {
  }

  /** Unlike the guided crossover, the uniform one can produce a dot equal to neither parent's. */
  lemma UniformCanMixFields()
    ensures UniformPick(Dot(0.0, 0.0, 1.0), Dot(5.0, 5.0, 2.0), CrossCoins(0.0, 0.9, 0.0)) == Dot(0.0, 5.0, 1.0)
    ensures Dot(0.0, 5.0, 1.0) != Dot(0.0, 0.0, 1.0) && Dot(0.0, 5.0, 1.0) != Dot(5.0, 5.0, 2.0)
  {
  }
}
