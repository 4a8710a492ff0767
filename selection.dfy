/**
 * Roulette-wheel parent selection and the fitness ordering used for
 * elitism, shared by every revision of the genetic algorithm
 * (src/core/GeneticAlgorithm.ts, GeneticAlgorithm.ts, dist/GeneticAlgorithm.js).
 */
module Selection {
  import opened Genome
  import opened Fitness

  /** fs[0] + ... + fs[n-1], the running sum of the roulette loop. */
  function PrefixSum(fs: seq<real>, n: nat): real
    requires n <= |fs|
  {
    if n == 0 then 0.0 else PrefixSum(fs, n - 1) + fs[n - 1]
  }

  /** reduce((sum, ind) => sum + ind.fitness, 0). */
  function TotalFitness(fs: seq<real>): real {
    PrefixSum(fs, |fs|)
  }

  predicate NonNegative(fs: seq<real>) {
    forall i :: 0 <= i < |fs| ==> 0.0 <= fs[i]
  }

  /**
   * The individual selectParent returns for a threshold: the first whose
   * running sum reaches the threshold, or the last one when none does.
   */
  function RouletteIndex(fs: seq<real>, threshold: real): (k: nat)
    requires 0 < |fs|
    ensures k < |fs|
    ensures forall j :: 1 <= j <= k ==> PrefixSum(fs, j) < threshold
    ensures threshold <= PrefixSum(fs, k + 1) || k == |fs| - 1
  {
    RouletteFrom(fs, threshold, 0)
  }

  function RouletteFrom(fs: seq<real>, threshold: real, k: nat): (r: nat)
    requires k < |fs|
    requires forall j :: 1 <= j <= k ==> PrefixSum(fs, j) < threshold
    ensures k <= r < |fs|
    ensures forall j :: 1 <= j <= r ==> PrefixSum(fs, j) < threshold
    ensures threshold <= PrefixSum(fs, r + 1) || r == |fs| - 1
    decreases |fs| - k
  {
    if threshold <= PrefixSum(fs, k + 1) || k == |fs| - 1 then k
    else RouletteFrom(fs, threshold, k + 1)
  }

  /** With non-negative fitness the running sums never decrease. */
  lemma {:induction false} PrefixSumMonotone(fs: seq<real>, i: nat, j: nat)
    requires NonNegative(fs) && i <= j <= |fs|
    ensures PrefixSum(fs, i) <= PrefixSum(fs, j)
  {
    if i < j {
      PrefixSumMonotone(fs, i, j - 1);
    }
  }

  /**
   * Fitness-proportionate selection: for a threshold in (0, total], the
   * individual k is picked exactly when the threshold falls in
   * (PrefixSum(k), PrefixSum(k + 1)], an interval as wide as fs[k].
   */
  lemma RouletteInterval(fs: seq<real>, threshold: real, k: nat)
    requires 0 < |fs| && NonNegative(fs) && k < |fs|
    requires 0.0 < threshold <= TotalFitness(fs)
    ensures RouletteIndex(fs, threshold) == k <==>
      PrefixSum(fs, k) < threshold <= PrefixSum(fs, k + 1)
  {
    var r := RouletteIndex(fs, threshold);
    if r == k {
      assert k > 0 ==> PrefixSum(fs, k) < threshold;
    }
    if PrefixSum(fs, k) < threshold <= PrefixSum(fs, k + 1) {
      if r < k {
        PrefixSumMonotone(fs, r + 1, k);
      }
    }
  }

  /** A threshold drawn as random() * total never needs the fallback to the last individual. */
  lemma RouletteReachesThreshold(fs: seq<real>, r: real)
    requires 0 < |fs| && NonNegative(fs) && 0.0 <= r < 1.0
    ensures Threshold(r, fs) <= PrefixSum(fs, RouletteIndex(fs, Threshold(r, fs)) + 1)
  {
    var total := TotalFitness(fs);
    PrefixSumMonotone(fs, 0, |fs|);
    ScaledBelow(r, total);
    var t := Threshold(r, fs);
    assert t == r * total;
    assert r * total <= total;
    assert total == PrefixSum(fs, |fs|);
    assert t <= PrefixSum(fs, |fs|);
    var k := RouletteIndex(fs, t);
    assert t <= PrefixSum(fs, k + 1);
  }

  /** A fraction below 1 of a non-negative total does not exceed it. */
  lemma ScaledBelow(r: real, total: real)
    requires 0.0 <= r < 1.0 && 0.0 <= total
    ensures r * total <= total
  {
    assert total - r * total == (1.0 - r) * total;
  }

  /** With a positive threshold an individual of fitness 0 is never picked. */
  lemma RoulettePicksPositive(fs: seq<real>, r: real)
    requires 0 < |fs| && NonNegative(fs) && 0.0 < r < 1.0 && 0.0 < TotalFitness(fs)
    ensures 0.0 < fs[RouletteIndex(fs, Threshold(r, fs))]
  {
    var t := Threshold(r, fs);
    var k := RouletteIndex(fs, t);
    RouletteReachesThreshold(fs, r);
    assert k > 0 ==> PrefixSum(fs, k) < t;
    assert 0.0 < t by { assert Threshold(r, fs) > 0.0 * TotalFitness(fs); }
  }

  /** When every fitness is 0 the threshold is 0 and the first individual is picked. */
  lemma RouletteAllZero(fs: seq<real>, r: real)
    requires 0 < |fs| && forall i :: 0 <= i < |fs| ==> fs[i] == 0.0
    ensures RouletteIndex(fs, Threshold(r, fs)) == 0
  {
    assert forall n :: 0 <= n <= |fs| ==> PrefixSum(fs, n) == 0.0 by {
      forall n | 0 <= n <= |fs| ensures PrefixSum(fs, n) == 0.0 {
        PrefixSumZero(fs, n);
      }
    }
  }

  lemma {:induction false} PrefixSumZero(fs: seq<real>, n: nat)
    requires n <= |fs| && forall i :: 0 <= i < |fs| ==> fs[i] == 0.0
    ensures PrefixSum(fs, n) == 0.0
  {
    if n > 0 {
      PrefixSumZero(fs, n - 1);
    }
  }

  /** The totalFitness reduce loop. */
  method SumFitness(pop: seq<Individual>) returns (total: real)
    ensures total == TotalFitness(Fitnesses(pop))
  {
    ghost var fs := Fitnesses(pop);
    total := 0.0;
    for i := 0 to |pop|
      invariant total == PrefixSum(fs, i)
    {
      total := total + pop[i].fitness;
    }
  }

  /**
   * selectParent: walks the population adding fitness until the running sum
   * reaches the threshold; falls back to the last individual, which is
   * undefined (null here) for an empty population.
   */
  method SelectParent(pop: seq<Individual>, threshold: real) returns (parent: Individual?)
    ensures parent == null <==> pop == []
    ensures pop != [] ==> parent == pop[RouletteIndex(Fitnesses(pop), threshold)]
  {
    ghost var fs := Fitnesses(pop);
    var sum := 0.0;
    var i := 0;
    while i < |pop|
      invariant 0 <= i <= |pop|
      invariant sum == PrefixSum(fs, i)
      invariant forall j :: 1 <= j <= i ==> PrefixSum(fs, j) < threshold
    {
      sum := sum + pop[i].fitness;
      if sum >= threshold {
        assert RouletteFrom(fs, threshold, i) == i;
        RouletteFromIs(fs, threshold, i);
        return pop[i];
      }
      i := i + 1;
    }
    if pop == [] {
      return null;
    }
    RouletteFromIs(fs, threshold, |pop| - 1);
    parent := pop[|pop| - 1];
  }

  /** Once every earlier running sum is below the threshold, the search from 0 and from k agree. */
  lemma {:induction false} RouletteFromIs(fs: seq<real>, threshold: real, k: nat)
    requires k < |fs|
    requires forall j :: 1 <= j <= k ==> PrefixSum(fs, j) < threshold
    ensures RouletteIndex(fs, threshold) == RouletteFrom(fs, threshold, k)
  {
    RouletteFromStep(fs, threshold, 0, k);
  }

  lemma {:induction false} RouletteFromStep(fs: seq<real>, threshold: real, i: nat, k: nat)
    requires i <= k < |fs|
    requires forall j :: 1 <= j <= k ==> PrefixSum(fs, j) < threshold
    ensures RouletteFrom(fs, threshold, i) == RouletteFrom(fs, threshold, k)
    decreases k - i
  {
    if i < k {
      assert PrefixSum(fs, i + 1) < threshold;
      RouletteFromStep(fs, threshold, i + 1, k);
    }
  }

  /** The threshold Math.random() * totalFitness for a draw r. */
  function Threshold(r: real, fs: seq<real>): real {
    r * TotalFitness(fs)
  }

  /** selectParents: two independent spins over the same total, r1 and r2 standing for Math.random(). */
  method SelectParents(pop: seq<Individual>, r1: real, r2: real) returns (parent1: Individual?, parent2: Individual?)
    ensures parent1 == null <==> pop == []
    ensures parent2 == null <==> pop == []
    ensures pop != [] ==> parent1 == pop[RouletteIndex(Fitnesses(pop), Threshold(r1, Fitnesses(pop)))]
    ensures pop != [] ==> parent2 == pop[RouletteIndex(Fitnesses(pop), Threshold(r2, Fitnesses(pop)))]
  {
    var totalFitness := SumFitness(pop);
    ghost var fs := Fitnesses(pop);
    var threshold1, threshold2 := r1 * totalFitness, r2 * totalFitness;
    assert threshold1 == Threshold(r1, fs) && threshold2 == Threshold(r2, fs);
    parent1 := SelectParent(pop, threshold1);
    parent2 := SelectParent(pop, threshold2);
  }

  /** 0, 1, ..., n-1: the positions of the copied population. */
  function Range(n: nat): (r: seq<nat>)
    ensures |r| == n && forall i :: 0 <= i < n ==> r[i] == i
  {
    if n == 0 then [] else Range(n - 1) + [n - 1]
  }

  predicate IndicesBelow(s: seq<nat>, n: nat) {
    forall i :: 0 <= i < |s| ==> s[i] < n
  }

  /**
   * Inserts position x after every position at least as fit: where a stable
   * sort with comparator (a, b) => b.fitness - a.fitness puts it.
   */
  function Insert(fs: seq<real>, x: nat, s: seq<nat>): (r: seq<nat>)
    requires x < |fs| && IndicesBelow(s, |fs|)
    ensures |r| == |s| + 1 && IndicesBelow(r, |fs|)
  {
    if s == [] then [x]
    else if fs[s[0]] >= fs[x] then [s[0]] + Insert(fs, x, s[1..])
    else [x] + s
  }

  lemma {:induction false} InsertPermutes(fs: seq<real>, x: nat, s: seq<nat>)
    requires x < |fs| && IndicesBelow(s, |fs|)
    ensures multiset(Insert(fs, x, s)) == multiset(s) + multiset{x}
  {
    if s != [] && fs[s[0]] >= fs[x] {
      InsertPermutes(fs, x, s[1..]);
      assert s == [s[0]] + s[1..];
    }
  }

  /** The order [...population].sort((a, b) => b.fitness - a.fitness) gives the first n positions. */
  function SortOrder(fs: seq<real>, n: nat): (r: seq<nat>)
    requires n <= |fs|
    ensures |r| == n && IndicesBelow(r, |fs|)
  {
    if n == 0 then [] else Insert(fs, n - 1, SortOrder(fs, n - 1))
  }

  /** The order is a permutation of the positions 0..n-1. */
  lemma {:induction false} SortOrderPermutes(fs: seq<real>, n: nat)
    requires n <= |fs|
    ensures multiset(SortOrder(fs, n)) == multiset(Range(n))
    ensures IndicesBelow(SortOrder(fs, n), n)
  {
    if n == 0 {
      assert SortOrder(fs, n) == Range(n) == [];
    } else {
      var m := n - 1;
      SortOrderPermutes(fs, m);
      SortOrderStep(fs, m);
      RangeStep(m);
      assert multiset(SortOrder(fs, m + 1)) == multiset(Range(m + 1));
    }
    SortOrderBelow(fs, n);
  }

  /** Range(m + 1) holds the positions of Range(m) and m. */
  lemma RangeStep(m: nat)
    ensures multiset(Range(m + 1)) == multiset(Range(m)) + multiset{m}
  {
    assert Range(m + 1) == Range(m) + [m];
  }

  /** Extending the order by position m adds exactly that position. */
  lemma SortOrderStep(fs: seq<real>, m: nat)
    requires m < |fs|
    ensures multiset(SortOrder(fs, m + 1)) == multiset(SortOrder(fs, m)) + multiset{m}
  {
    InsertPermutes(fs, m, SortOrder(fs, m));
  }

  /** Inserting a position below m into positions below m gives positions below m. */
  lemma {:induction false} InsertBelow(fs: seq<real>, x: nat, s: seq<nat>, m: nat)
    requires x < |fs| && IndicesBelow(s, |fs|) && x < m && IndicesBelow(s, m)
    ensures IndicesBelow(Insert(fs, x, s), m)
  {
    if s != [] && fs[s[0]] >= fs[x] {
      InsertBelow(fs, x, s[1..], m);
    }
  }

  /** The order of the first n positions only holds positions below n. */
  lemma {:induction false} SortOrderBelow(fs: seq<real>, n: nat)
    requires n <= |fs|
    ensures IndicesBelow(SortOrder(fs, n), n)
  {
    if n > 0 {
      SortOrderBelow(fs, n - 1);
      InsertBelow(fs, n - 1, SortOrder(fs, n - 1), n);
    }
  }

  /** Fitness never increases along an order. */
  predicate OrderedDesc(fs: seq<real>, s: seq<nat>)
    requires IndicesBelow(s, |fs|)
  {
    forall i, j :: 0 <= i < j < |s| ==> fs[s[j]] <= fs[s[i]]
  }

  /** Equally fit positions keep their original relative order. */
  predicate Stable(fs: seq<real>, s: seq<nat>)
    requires IndicesBelow(s, |fs|)
  {
    forall i, j :: 0 <= i < j < |s| && fs[s[i]] == fs[s[j]] ==> s[i] < s[j]
  }

  /** Putting in front a position at least as fit as, and earlier than any equally fit, keeps both properties. */
  lemma PrependOrdered(fs: seq<real>, a: nat, t: seq<nat>)
    requires a < |fs| && IndicesBelow(t, |fs|) && OrderedDesc(fs, t) && Stable(fs, t)
    requires forall i :: 0 <= i < |t| ==> fs[t[i]] <= fs[a]
    requires forall i :: 0 <= i < |t| ==> fs[t[i]] == fs[a] ==> a < t[i]
    ensures OrderedDesc(fs, [a] + t) && Stable(fs, [a] + t)
  {
    var r := [a] + t;
    assert forall i :: 1 <= i < |r| ==> r[i] == t[i - 1];
  }

  lemma {:induction false} InsertOrdered(fs: seq<real>, x: nat, s: seq<nat>)
    requires x < |fs| && IndicesBelow(s, |fs|) && OrderedDesc(fs, s) && Stable(fs, s)
    requires forall i :: 0 <= i < |s| ==> s[i] < x
    ensures OrderedDesc(fs, Insert(fs, x, s)) && Stable(fs, Insert(fs, x, s))
  {
    if s == [] {
    } else if fs[s[0]] >= fs[x] {
      var tail := s[1..];
      InsertOrdered(fs, x, tail);
      var t := Insert(fs, x, tail);
      InsertPermutes(fs, x, tail);
      forall i | 0 <= i < |t| ensures fs[t[i]] <= fs[s[0]] && (fs[t[i]] == fs[s[0]] ==> s[0] < t[i]) {
        assert t[i] in multiset(t);
        if t[i] != x {
          assert t[i] in multiset(tail);
          var k :| 0 <= k < |tail| && tail[k] == t[i];
          assert s[k + 1] == t[i];
        }
      }
      PrependOrdered(fs, s[0], t);
    } else {
      forall i | 0 <= i < |s| ensures fs[s[i]] <= fs[s[0]] {
      }
      PrependOrdered(fs, x, s);
    }
  }

  /** The order is sorted by non-increasing fitness and stable. */
  lemma {:induction false} SortOrderSorted(fs: seq<real>, n: nat)
    requires n <= |fs|
    ensures OrderedDesc(fs, SortOrder(fs, n)) && Stable(fs, SortOrder(fs, n))
  {
    if n > 0 {
      var s := SortOrder(fs, n - 1);
      SortOrderSorted(fs, n - 1);
      SortOrderBelow(fs, n - 1);
      assert forall i :: 0 <= i < |s| ==> s[i] < n - 1;
      InsertOrdered(fs, n - 1, s);
    }
  }

  /** A permutation of 0..n-1 hits every position. */
  lemma OrderCoversAll(fs: seq<real>, n: nat, k: nat)
    requires k < n <= |fs|
    ensures k in SortOrder(fs, n)
  {
    SortOrderPermutes(fs, n);
    assert Range(n)[k] == k;
    assert k in multiset(Range(n));
  }

  /** The first position of the order is at least as fit as every position. */
  lemma SortOrderHeadIsFittest(fs: seq<real>, n: nat)
    requires 0 < n <= |fs|
    ensures forall k :: 0 <= k < n ==> fs[k] <= fs[SortOrder(fs, n)[0]]
  {
    var r := SortOrder(fs, n);
    SortOrderSorted(fs, n);
    SortOrderPermutes(fs, n);
    forall k | 0 <= k < n ensures fs[k] <= fs[r[0]] {
      OrderCoversAll(fs, n, k);
      var i :| 0 <= i < |r| && r[i] == k;
    }
  }

  /** The copied population in sorted order. */
  function SortByFitness(pop: seq<Individual>): (sorted: seq<Individual>)
    reads pop
    ensures |sorted| == |pop|
  {
    var order := SortOrder(Fitnesses(pop), |pop|);
    seq(|pop|, i requires 0 <= i < |pop| => pop[order[i]])
  }

  /** Fitness never increases along the sequence. */
  predicate SortedDesc(s: seq<Individual>)
    reads s
  {
    forall i, j :: 0 <= i < j < |s| ==> s[j].fitness <= s[i].fitness
  }

  /**
   * The sorted copy rearranges the population by a permutation of its
   * positions, in non-increasing fitness, keeping equally fit individuals
   * in their original order.
   */
  lemma SortByFitnessSpec(pop: seq<Individual>)
    ensures var order := SortOrder(Fitnesses(pop), |pop|);
      && multiset(order) == multiset(Range(|pop|))
      && (forall i :: 0 <= i < |pop| ==> SortByFitness(pop)[i] == pop[order[i]])
      && SortedDesc(SortByFitness(pop))
      && Stable(Fitnesses(pop), order)
  {
    var fs := Fitnesses(pop);
    SortOrderPermutes(fs, |pop|);
    SortOrderSorted(fs, |pop|);
  }

  /** The sorted copy holds individuals of the population, not copies of them. */
  lemma SortByFitnessMembers(pop: seq<Individual>)
    ensures forall i :: 0 <= i < |pop| ==> SortByFitness(pop)[i] in pop
  {
  }

  /** The first individual of the sorted copy is at least as fit as every individual. */
  lemma SortByFitnessHead(pop: seq<Individual>)
    requires pop != []
    ensures forall k :: 0 <= k < |pop| ==> pop[k].fitness <= SortByFitness(pop)[0].fitness
  {
    SortOrderHeadIsFittest(Fitnesses(pop), |pop|);
  }

  /** Insertion at the first position whose element is strictly less fit. */
  lemma {:induction false} InsertAt(fs: seq<real>, x: nat, s: seq<nat>, j: nat)
    requires x < |fs| && IndicesBelow(s, |fs|) && j <= |s|
    requires forall k :: 0 <= k < j ==> fs[s[k]] >= fs[x]
    requires j == |s| || fs[s[j]] < fs[x]
    ensures Insert(fs, x, s) == s[..j] + [x] + s[j..]
  {
    if j > 0 {
      InsertAt(fs, x, s[1..], j - 1);
      assert s[1..][..j - 1] == s[1..j];
      assert s[1..][j - 1..] == s[j..];
      assert [s[0]] + s[1..j] == s[..j];
    } else if s != [] {
      assert s[j..] == s;
    }
  }

  /**
   * [...population].sort((a, b) => b.fitness - a.fitness): the copy is
   * ordered by inserting one position at a time.
   */
  method SortPopulation(pop: seq<Individual>) returns (sorted: seq<Individual>)
    ensures sorted == SortByFitness(pop)
  {
    ghost var fs := Fitnesses(pop);
    var order: seq<nat> := [];
    for i := 0 to |pop|
      invariant order == SortOrder(fs, i)
    {
      var j := 0;
      while j < |order| && pop[order[j]].fitness >= pop[i].fitness
        invariant 0 <= j <= |order|
        invariant forall k :: 0 <= k < j ==> fs[order[k]] >= fs[i]
      {
        j := j + 1;
      }
      InsertAt(fs, i, order, j);
      order := order[..j] + [i] + order[j..];
    }
    sorted := seq(|pop|, k requires 0 <= k < |pop| => pop[order[k]]);
  }

  /** The end index of slice(0, count) on n elements: negative counts are taken from the end. */
  function SliceEnd(count: int, n: nat): (e: nat)
    ensures e <= n
    ensures 0 <= count ==> e == if count <= n then count else n
    ensures count < 0 ==> e == if n + count < 0 then 0 else n + count
  {
    if count < 0 then (if n + count < 0 then 0 else n + count)
    else if count <= n then count else n
  }
}
