# ga_stippling: a verified model of the stippling engine

ga_stippling approximates a black-and-white target image with thousands of
filled dots. A genetic algorithm evolves lists of dots:

- every individual is rasterised onto a white byte grid with a midpoint-circle
  span filler;
- the grid is scored against the red channel of the target;
- the fittest individuals are kept as elites;
- the rest of the next generation is bred by roulette-wheel selection,
  crossover and per-field mutation.

A small image processor prepares the target. It applies a box blur over the
red channel, then binarises the image with a threshold, then counts the black
pixels to recommend a dot count.

The model covers three revisions of the engine:

- **src/core**: `Dot`, `Individual`, `Population` and `GeneticAlgorithm`.
  This revision uses fitness-guided crossover over every dot, clones its elites
  and reads `elitismRatio` from its configuration.
- **The repository root** (`Population.ts`, `GeneticAlgorithm.ts`,
  `Individual.ts`). Crossover is fitness-guided but fixed at 10000 dots, the
  elites are 10% kept by reference, and `fittestIndividual` returns the last
  index on ties.
- **dist/** (`GeneticAlgorithm.js`, `Individual.js`). Crossover is a uniform
  per-field coin toss over 10000 dots, and every radius is 1.

Every call to `Math.random` becomes an explicit input:

- `FieldDraws` supplies the x, y and radius draws of a fresh dot;
- `MutationDraw` supplies a coin and a value per field;
- `CrossCoins` supplies the per-field coins of uniform crossover;
- a real in [0, 1) supplies each roulette spin.

With these inputs every operation is deterministic. Its result is tied to a
specification function: `InitialDots`, `Mutated`, `Render`, `GridScore`,
`RouletteIndex`, `SortByFitness`, `GuidedDots`, `LegacyCrossed`, `Blurred` and
`Thresholded`.

How the source maps onto the model:

- `Dot` is a datatype.
- `Individual`, `Population`, both genetic algorithms and `ImageProcessor` are
  classes whose methods update their fields in place.
- The byte grid and the pixel buffers are arrays.

Files:

- `config.dfy`: the configuration constants and the RGBA image type.
- `dots.dfy`: `Dot`.
- `raster.dfy`: the spans the midpoint circle draws, and the rendered grid.
- `genome.dfy`: `Individual`, random dots and mutation.
- `populations.dfy`: scoring and `Population`.
- `selection.dfy`: roulette selection and the stable descending sort used for
  elitism.
- `breeding.dfy`: dot fitness and both crossover rules.
- `evolution.dfy`: the src/core genetic algorithm.
- `legacy_evolution.dfy`: the root and dist genetic algorithms, which share one
  class tagged with a `Revision`.
- `image_processing.dfy`: `ImageProcessor`.

The dist revision's `Population.js` scores with a canvas, which is not
modelled. Its genetic algorithm is therefore modelled over the integer
rasteriser that the other revisions use.

## Model

| member | source | states |
|---|---|---|
| Dots.Clone | src/core/Dot.ts:7-9 | the copy has the original's x, y and radius; Dot is a value, so the copy shares nothing with the original |
| Raster.Render | src/core/Population.ts:69-73 | the grid after drawing every dot on a fresh white grid has width·height cells, and each cell is 0 or 255: rasterising only ever writes black |
| Raster.CircleInBox | src/core/Population.ts:100-126 | every span the midpoint loop draws lies inside the box [cx−r, cx+r] × [cy−r, cy+r] |
| Raster.OctantLength | src/core/Population.ts:112-125 | the loop ends: it draws no span when y ≤ x, and otherwise between 4 and 4·(y−x) spans, because y−x drops every step |
| Raster.HitsAt | src/core/Population.ts:137-144 | a span blackens pixel (px, py) exactly when py is its row and px lies between its ends clipped to [0, width−1] |
| Raster.SkipIsExact | src/core/Population.ts:83-95 | a dot that isOutsideCanvas skips would have painted no pixel, so skipping it loses nothing |
| Raster.PaintedInBox | src/core/Population.ts:78-126 | every pixel a dot blackens lies within its floored bounding box |
| Raster.CentreRowPainted | src/core/Population.ts:110 | a drawn dot blackens every canvas pixel of its centre row between cx−r and cx+r |
| Raster.RenderOrderIndependent | src/core/Population.ts:69-73 | two dot lists with the same multiset of dots render the same grid, so drawing order does not matter |
| Genome.RandX | src/core/Individual.ts:53-55 | for a draw in [0,1), an integer in [0, width) |
| Genome.RandY | src/core/Individual.ts:57-59 | for a draw in [0,1), an integer in [0, height) |
| Genome.RandRadius | src/core/Individual.ts:61-63 | for a draw in [0,1), a radius in [1, 3); under the dist rule (dist/Individual.js:32-35) always exactly 1 |
| Genome.RandomDot | src/core/Individual.ts:22 | a dot built from draws in [0,1) lies in range: integer x in [0,width), integer y in [0,height), radius in [1,3) |
| Genome.InitialDots | src/core/Individual.ts:19-24 | one dot per triple of draws, all in range when the draws are in [0,1) |
| Genome.MutateDot | src/core/Individual.ts:31-39 | each of x, y and radius is replaced by a new draw exactly when its coin is below the mutation rate, and is kept otherwise |
| Genome.Mutated | src/core/Individual.ts:29-41 | mutation keeps the number of dots |
| Genome.MutatePreservesRange | src/core/Individual.ts:29-41 | mutation with draws in [0,1) keeps every dot in range |
| Genome.MutateZeroIsIdentity | src/core/Individual.ts:31-39 | with a rate of 0 (or below), mutation leaves every dot unchanged |
| Genome.MutateFullRateRedraws | Individual.ts:19-24 | with a rate of 1 or more, every field of every dot is redrawn |
| Genome.ConstantRadiusStaysOne | dist/Individual.js:20-23 | under the constant-radius rule, radii that are all 1 stay 1 after any mutation |
| Genome.Individual.constructor | src/core/Individual.ts:9-14 | fitness 0; dots are exactly the initial dots of the draws, dotCount of them, all in range; Individual.ts:6-14: the root and dist constructors are the same class, with the radius rule as a parameter |
| Genome.Individual.Mutate | src/core/Individual.ts:29-41 | the dot list becomes Mutated(old dots, draws); fitness is kept, and well-formedness (length and range) is preserved; dist/Individual.js:13-25 has the same in-place mutation under the constant-radius rule |
| Genome.Individual.Clone | src/core/Individual.ts:46-51 | a fresh individual with the same width, height, radius rule, fitness and dots |
| Scoring.SquaredDiffBounds | src/core/Population.ts:154-159 | for byte grids, 0 ≤ diff ≤ n·255² |
| Scoring.SquaredDiffZeroIff | src/core/Population.ts:154-157 | diff is 0 exactly when the grid equals the target |
| Scoring.SquaredDiffInverted | src/core/Population.ts:154-159 | a grid that is the exact inverse of a binary target reaches the maximal diff n·255² |
| Scoring.GridScoreInUnit | src/core/Population.ts:150-163 | the raw fitness of byte grids lies in [0, 1]; Population.ts:114-128 has the same score in the root revision |
| Scoring.GridScorePerfectIff | src/core/Population.ts:159-160 | a grid scores 1 if and only if it equals the target |
| Scoring.GridScoreInverted | src/core/Population.ts:159-160 | the inverse of a binary target scores 0 |
| Scoring.FittestIndex | src/core/Population.ts:168-174 | the reduce returns an index of maximal fitness, and the first such index, because it compares with strict > |
| Populations.Population.constructor | src/core/Population.ts:17-22 | size fresh individuals built from the draws with fitness 0, and the target's red channel prepared; Population.ts:22-35: population.length == size and targetData[i] == target.data[4i] |
| Populations.Population.InitializePopulation | src/core/Population.ts:27-32 | size fresh, well-formed individuals of the canvas size, each from its own draws |
| Populations.Population.PrepareTargetData | src/core/Population.ts:37-46 | width·height bytes, where byte i is the red byte target.data[4i] |
| Populations.Population.CalculateFitness | src/core/Population.ts:51-57 | every individual's fitness becomes the score of its rendered dots; dots and population membership are unchanged; every score is in [0,1]; Population.ts:38-51 has the same loop in the root revision |
| Populations.Population.ScoreIndividual | src/core/Population.ts:52-56 | one individual is scored on a fresh white grid; its dots are untouched |
| Populations.Population.Replace | src/core/GeneticAlgorithm.ts:55 | the population becomes the new generation, with its fitnesses and dots as they were |
| Populations.Population.CreateGrid | src/core/Population.ts:62-64 | a fresh grid of width·height cells, all 255 |
| Populations.Population.DrawDotsToGrid | src/core/Population.ts:69-73 | a cell becomes 0 exactly when some dot covers it, and is otherwise unchanged |
| Populations.Population.DrawDotToGrid | src/core/Population.ts:78-86 | a cell becomes 0 exactly when the floored dot, if not outside the canvas, paints it; every other cell is unchanged; Population.ts:53-91: the root revision's inlined rasteriser, with the same effect |
| Populations.Population.DrawCircle | src/core/Population.ts:100-126 | exactly the cells hit by the circle's spans become 0; the loop terminates |
| Populations.Population.DrawSymmetricLines | src/core/Population.ts:121-124 | exactly the cells hit by the four mirrored spans become 0 |
| Populations.Population.DrawHorizontalLine | src/core/Population.ts:131-145 | only cells y·width+x with y in [0,height) and max(0,startX) ≤ x ≤ min(width−1,endX) become 0; nothing else changes and no write is out of bounds; Population.ts:93-110 has the same clipped span in the root revision |
| Populations.Population.CalculateGridFitness | src/core/Population.ts:150-163 | the grid's raw fitness against the target's red channel |
| Populations.Population.GetFittestIndex | src/core/Population.ts:168-174 | an index of maximal fitness, the first one on ties; 0 for an empty population |
| Populations.Population.FittestIndividual | Population.ts:152-164 | an index of maximal fitness, the last one on ties |
| Selection.RouletteIndex | src/core/GeneticAlgorithm.ts:77-89 | the first individual whose running sum reaches the threshold, or the last individual when none does |
| Selection.RouletteInterval | src/core/GeneticAlgorithm.ts:81-86 | for 0 < t ≤ total, individual k is chosen if and only if prefix(k) < t ≤ prefix(k+1) |
| Selection.RouletteReachesThreshold | src/core/GeneticAlgorithm.ts:78-88 | with r in [0,1), the fall-back is never needed: the chosen prefix sum reaches r·total |
| Selection.RoulettePicksPositive | src/core/GeneticAlgorithm.ts:78-86 | with a positive total and r in (0,1), the chosen individual has positive fitness |
| Selection.RouletteAllZero | src/core/GeneticAlgorithm.ts:78-84 | when every fitness is 0, the first individual is chosen |
| Selection.SumFitness | src/core/GeneticAlgorithm.ts:72-75 | the sum of all fitnesses |
| Selection.SelectParent | src/core/GeneticAlgorithm.ts:77-89 | null exactly for an empty population, and otherwise the roulette choice for the threshold |
| Selection.SelectParents | src/core/GeneticAlgorithm.ts:71-95 | two independent spins over the same total; both results are members of a non-empty population |
| Selection.InsertPermutes | src/core/GeneticAlgorithm.ts:63 | inserting a position adds exactly that position |
| Selection.SortOrderPermutes | src/core/GeneticAlgorithm.ts:63 | the sort order is a permutation of 0..n−1 |
| Selection.SortOrderSorted | src/core/GeneticAlgorithm.ts:63 | the sort order has non-increasing fitness and keeps equal fitnesses in their original order, as the stable sort does |
| Selection.OrderCoversAll | src/core/GeneticAlgorithm.ts:63 | every position appears in the sort order |
| Selection.SortOrderHeadIsFittest | src/core/GeneticAlgorithm.ts:63 | the first position of the order has maximal fitness |
| Selection.SortByFitnessSpec | src/core/GeneticAlgorithm.ts:62-63 | the sorted copy is a permutation of the population, sorted by descending fitness and stable |
| Selection.SortByFitnessMembers | src/core/GeneticAlgorithm.ts:62-63 | the sorted copy holds only members of the population |
| Selection.SortByFitnessHead | src/core/GeneticAlgorithm.ts:62-63 | the head of the sorted copy is at least as fit as every member |
| Selection.SortPopulation | src/core/GeneticAlgorithm.ts:62-63 | insertion sort into a new list gives exactly SortByFitness |
| Selection.SliceEnd | src/core/GeneticAlgorithm.ts:64 | slice(0, count) keeps min(count, n) elements for count ≥ 0, and n+count (at least 0) for negative count |
| Breeding.DotFitness | src/core/GeneticAlgorithm.ts:120-130 | 0 when the floored position is off the target, otherwise 255 minus the red byte there; always in [0,255]; GeneticAlgorithm.ts:47-71 has the same score in the root revision |
| Breeding.DarkerPixelScoresHigher | src/core/GeneticAlgorithm.ts:128-129 | a dot over a darker pixel scores at least as high as one over a lighter pixel or off the target |
| Breeding.GuidedPick | src/core/GeneticAlgorithm.ts:108-111 | the child dot is one of the two parents' dots, the one with the higher score, and the second on ties |
| Breeding.GuidedDots | src/core/GeneticAlgorithm.ts:107-112 | one guided pick per index of the first parent |
| Breeding.GuidedSelf | src/core/GeneticAlgorithm.ts:107-112 | crossing a dot list with itself gives it back |
| Breeding.GuidedIsFirstParentIff | src/core/GeneticAlgorithm.ts:107-112 | the child equals the first parent if and only if, at every index, the first parent's dot scores strictly higher or both dots are equal |
| Breeding.GuidedScoreDominates | src/core/GeneticAlgorithm.ts:107-112 | the child's total dot score is at least each parent's |
| Breeding.GuidedInRange | src/core/GeneticAlgorithm.ts:107-112 | children of in-range parents are in range |
| Breeding.UniformPick | dist/GeneticAlgorithm.js:19-22 | each field comes from the first parent when its coin is below 0.5, and from the second otherwise |
| Breeding.UniformDots | dist/GeneticAlgorithm.js:17-23 | one uniform pick per coin triple |
| Breeding.UniformInRange | dist/GeneticAlgorithm.js:17-23 | uniform children of in-range parents are in range |
| Breeding.UniformExtremes | dist/GeneticAlgorithm.js:19-22 | all-low coins give the first parent, and all-high coins give the second |
| Breeding.UniformCanMixFields | dist/GeneticAlgorithm.js:19-22 | a child dot can equal neither parent's dot, mixing fields of both |
| Evolution.Spin | src/core/GeneticAlgorithm.ts:77-89 | a roulette spin always picks a position of a non-empty population |
| Evolution.OffspringFits | src/core/GeneticAlgorithm.ts:49-52 | a bred and mutated child has dotCount dots, all in range |
| Evolution.Brood | src/core/GeneticAlgorithm.ts:48-53 | one child per draw, in order: the i-th is the offspring of the i-th draw |
| Evolution.SortedCopyAt | src/core/GeneticAlgorithm.ts:62-63 | the k-th individual of the sorted copy is the one at the k-th position of the sort order of the fitness values; GeneticAlgorithm.ts:107-109 sorts the same way |
| Evolution.BroodFits | src/core/GeneticAlgorithm.ts:48-53 | every child the loop breeds has dotCount dots, all in range |
| Evolution.SortedScores | src/core/GeneticAlgorithm.ts:61-66 | after scoring, the sorted copy's fitnesses are the scores of its dots, and its head scores at least as high as every member |
| Evolution.KeepsBest | src/core/GeneticAlgorithm.ts:43-46 | with at least one elite, the new generation's first member scores at least as high as every member of the evaluated generation |
| Evolution.ScoreGeneration | src/core/GeneticAlgorithm.ts:35 | calculateFitness then the sorted copy: dots unchanged, elites' scores true, and the head is the fittest |
| Evolution.GeneticAlgorithm.EliteCount | src/core/GeneticAlgorithm.ts:43-45 | the number of elites kept never exceeds populationSize |
| Evolution.GeneticAlgorithm.constructor | src/core/GeneticAlgorithm.ts:17-29 | a population of populationSize random individuals of dotCount dots, with fitness 0, for the target |
| Evolution.GeneticAlgorithm.Evolve | src/core/GeneticAlgorithm.ts:34-37 | scored holds each individual's score; the k-th elite is a fresh clone with the dots and score of the individual at the k-th position of the order that sorts the scores, so elites carry their true scores; with an elite the best fitness never drops; the rest are fresh, unscored, and exactly the brood of the remaining draws over the scored generation |
| Evolution.GeneticAlgorithm.BreedFromScored | src/core/GeneticAlgorithm.ts:36 | createNewGeneration after scoring: the elites are fresh clones with the sorted copy's dots and scores, the best score stays at the front, and the children are the brood of the scored generation |
| Evolution.GeneticAlgorithm.CreateNewGeneration | src/core/GeneticAlgorithm.ts:42-56 | exactly populationSize members, all fresh: clones of the sorted elites with their fitness, then fresh children that are exactly the brood the draws determine |
| Evolution.GeneticAlgorithm.NextGeneration | src/core/GeneticAlgorithm.ts:46-53 | the elites followed by the brood, of populationSize members, every one of them fresh |
| Evolution.GeneticAlgorithm.BreedChildren | src/core/GeneticAlgorithm.ts:48-53 | the while loop appends one fresh child per remaining draw; the elites stay in front |
| Evolution.GeneticAlgorithm.FillChildren | src/core/GeneticAlgorithm.ts:48-53 | after the elites, position k holds a fresh child, unscored, whose dots are brood[k − elites] |
| Evolution.GeneticAlgorithm.Breed | src/core/GeneticAlgorithm.ts:49-52 | select, cross over and mutate: the child's dots are the offspring of its draws |
| Evolution.GeneticAlgorithm.PreserveElites | src/core/GeneticAlgorithm.ts:61-66 | slice(0, count) of the sorted copy, as fresh clones with the same dots and fitness |
| Evolution.GeneticAlgorithm.CloneEach | src/core/GeneticAlgorithm.ts:65 | the map of clone: fresh copies, element by element |
| Evolution.GeneticAlgorithm.Crossover | src/core/GeneticAlgorithm.ts:100-115 | a fresh, unscored child whose dots are the guided picks of the two parents; in range when the parents are |
| LegacyEvolution.FloorOfTenth | GeneticAlgorithm.ts:103 | floor(popSize · 0.1) is popSize div 10 |
| LegacyEvolution.LegacyCrossedShape | GeneticAlgorithm.ts:25-44 | 50000 dots: the first 10000 are guided picks (root) or per-field mixes (dist, dist/GeneticAlgorithm.js:17-22), and the rest are the child's own random dots |
| LegacyEvolution.LegacyCrossedInRange | GeneticAlgorithm.ts:25-44 | children of in-range parents are in range |
| LegacyEvolution.LegacyOffspringFits | GeneticAlgorithm.ts:117-123 | a bred child (the dots Evolve, NewGeneration and FillLegacyChildren give every non-elite individual) has 50000 dots in range, and under dist every radius is 1 |
| LegacyEvolution.LegacyGeneticAlgorithm.constructor | GeneticAlgorithm.ts:7-16 | popSize random 50000-dot individuals with fitness 0 |
| LegacyEvolution.LegacyGeneticAlgorithm.EliteCount | GeneticAlgorithm.ts:103 | at most popSize elites |
| LegacyEvolution.LegacyGeneticAlgorithm.Evolve | GeneticAlgorithm.ts:18-22 | scored holds each individual's score; the k-th elite is the very individual at the k-th position of the order that sorts the scores, so elites carry true scores; with an elite the best fitness never drops; the rest are fresh, unscored, and exactly the legacy offspring of the remaining draws over the scored generation; dist/GeneticAlgorithm.js:9-13: calculateFitness then newGeneration, in the dist revision |
| LegacyEvolution.LegacyGeneticAlgorithm.BreedFromScored | GeneticAlgorithm.ts:102-126 | newGeneration after scoring: the elites are the sorted individuals themselves, the best score stays at the front, and the children are the legacy offspring of their draws |
| LegacyEvolution.LegacyGeneticAlgorithm.NewGeneration | GeneticAlgorithm.ts:102-126 | popSize members: the first floor(popSize·0.1) are the sorted individuals themselves, not clones, and the rest are fresh, and their dots are the legacy offspring of their draws; dist/GeneticAlgorithm.js:47-66 does the same |
| LegacyEvolution.LegacyGeneticAlgorithm.NextLegacyGeneration | GeneticAlgorithm.ts:104-123 | elites by reference, then fresh unscored children whose dots are the legacy offspring of their draws, popSize in all |
| LegacyEvolution.LegacyGeneticAlgorithm.BreedLegacyChildren | GeneticAlgorithm.ts:117-123 | the children after the elites are exactly the legacy offspring of the remaining draws, in order |
| LegacyEvolution.LegacyGeneticAlgorithm.LegacyElites | GeneticAlgorithm.ts:106-114 | the first EliteCount individuals of the sorted copy |
| LegacyEvolution.LegacyGeneticAlgorithm.KeepElites | GeneticAlgorithm.ts:112-114 | the first count entries, by reference |
| LegacyEvolution.LegacyGeneticAlgorithm.FillLegacyChildren | GeneticAlgorithm.ts:117-123 | after the elites, up to popSize, position k holds a fresh, unscored child whose dots are brood[k − elites], the legacy offspring of its draw |
| LegacyEvolution.LegacyGeneticAlgorithm.LegacyBreed | GeneticAlgorithm.ts:118-122 | a fresh, unscored child of the right shape whose dots are the legacy offspring of its draws (the crossover of the two roulette-picked parents, mutated); the "No parents selected!" throw is unreachable |
| LegacyEvolution.LegacyGeneticAlgorithm.ParentSelect | GeneticAlgorithm.ts:73-100 | both parents are non-null exactly when the population is non-empty, and each is the roulette choice for its draw; dist/GeneticAlgorithm.js:26-46 has the same selection in the dist revision |
| LegacyEvolution.LegacyGeneticAlgorithm.Crossover | GeneticAlgorithm.ts:25-44 | a fresh, unscored child of a's size whose dots are LegacyCrossed: guided picks below 10000, and its own random dots above; dist/GeneticAlgorithm.js:14-25: under dist, the first 10000 dots are uniform per-field mixes |
| ImageProcessing.ClampedMean | src/utils/ImageProcessor.ts:111 | the byte stored for sum / count is in [0,255], and 0 when the count is 0 (NaN) |
| ImageProcessing.ClampedMeanRounds | src/utils/ImageProcessor.ts:69 | the stored byte is within half a unit of the exact mean |
| ImageProcessing.ClampedMeanBetween | src/utils/ImageProcessor.ts:111 | a mean of values between lo and hi is stored between lo and hi |
| ImageProcessing.SampleAt | src/utils/ImageProcessor.ts:100-107 | an in-canvas neighbour contributes its red byte at an in-bounds index; an off-canvas one contributes nothing |
| ImageProcessing.WindowCount | src/utils/ImageProcessor.ts:98-109 | for an in-canvas pixel and b ≥ 0, the window has between 1 and (2b+1)² samples, so the mean never divides by zero |
| ImageProcessing.WindowTallyMeaning | src/utils/ImageProcessor.ts:95-111 | the two loops accumulate exactly the sum and the number of the window's samples |
| ImageProcessing.NegativeRadiusWindow | src/utils/ImageProcessor.ts:98 | a negative radius gives an empty window |
| ImageProcessing.BlurredByteWithinWindow | src/utils/ImageProcessor.ts:89-112 | the blurred byte lies between the smallest and the largest sample of its window |
| ImageProcessing.BlurredAtPixel | src/utils/ImageProcessor.ts:66-72 | R, G and B of a pixel get its blurred byte, and alpha is copied |
| ImageProcessing.BlurredGrayAndAlpha | src/utils/ImageProcessor.ts:59-79 | after blurring: same length, all bytes, alpha unchanged, R=G=B, and no change at all for radius 0 |
| ImageProcessing.BlurredKeepsAlpha | src/utils/ImageProcessor.ts:72 | every alpha byte survives the blur |
| ImageProcessing.BlurredIsGray | src/utils/ImageProcessor.ts:69-71 | after a blur, every pixel has R=G=B |
| ImageProcessing.Thresholded | src/utils/ImageProcessor.ts:119-124 | thresholding keeps the buffer length |
| ImageProcessing.ThresholdIdempotent | src/utils/ImageProcessor.ts:119-124 | thresholding twice equals thresholding once |
| ImageProcessing.ThresholdBinary | src/utils/ImageProcessor.ts:120-122 | each colour byte becomes 0 if and only if its pixel's red byte is below the threshold, and 255 otherwise; alpha is unchanged |
| ImageProcessing.Reds | src/utils/ImageProcessor.ts:136 | the stride-4 loop visits ⌈len/4⌉ red bytes, byte 4k at step k |
| ImageProcessing.Ceiling | src/utils/ImageProcessor.ts:143 | Math.ceil: the least integer not below v |
| ImageProcessing.RecommendedDots | src/utils/ImageProcessor.ts:142-145 | for a share in [0,1], the recommended dot count lies in [0, 200000] |
| ImageProcessing.ShareOfPixels | src/utils/ImageProcessor.ts:142 | blackPixels / totalPixels lies in [0,1] when blackPixels ≤ totalPixels |
| ImageProcessing.ImageProcessor.constructor | src/utils/ImageProcessor.ts:15-19 | the processor holds the given width and height |
| ImageProcessing.ImageProcessor.Resize | src/utils/ImageProcessor.ts:175-178 | afterwards the width and height are exactly the new ones |
| ImageProcessing.ImageProcessor.GetDimensions | src/utils/ImageProcessor.ts:184-189 | reports the current width and height, so after resize(w,h) it returns {w,h} |
| ImageProcessing.ImageProcessor.ApplyThreshold | src/utils/ImageProcessor.ts:119-124 | the buffer becomes Thresholded(old buffer): binary colour bytes, alpha and length unchanged |
| ImageProcessing.ImageProcessor.ThresholdPixel | src/utils/ImageProcessor.ts:121-122 | one pixel's R, G and B become 0 or 255 by its red byte; no other byte changes |
| ImageProcessing.ImageProcessor.CalculateBlurredPixel | src/utils/ImageProcessor.ts:89-112 | the sum and count of the window's samples; 1 ≤ count ≤ (2b+1)² for an in-canvas pixel |
| ImageProcessing.ImageProcessor.SumRow | src/utils/ImageProcessor.ts:99-108 | the inner loop accumulates one row of the window |
| ImageProcessing.ImageProcessor.ApplyBlur | src/utils/ImageProcessor.ts:59-79 | the buffer becomes Blurred(old buffer): unchanged for 0, otherwise gray blurred pixels with alpha kept |
| ImageProcessing.ImageProcessor.CopyBack | src/utils/ImageProcessor.ts:76-78 | the buffer becomes a copy of the temporary buffer |
| ImageProcessing.ImageProcessor.BlurRow | src/utils/ImageProcessor.ts:65-73 | row y of the temporary buffer is filled with blurred pixels; earlier rows stay blurred |
| ImageProcessing.ImageProcessor.BlurPixel | src/utils/ImageProcessor.ts:66-72 | the four bytes of one pixel get their blurred values, and nothing else changes |
| ImageProcessing.ImageProcessor.CalculateImageStats | src/utils/ImageProcessor.ts:131-153 | blackPixels counts the visited red bytes equal to 0, at most one per pixel; the percentage and ⌈share·200000⌉ follow, in [0,200000] when blackPixels ≤ totalPixels; for totalPixels 0 both are None |

## Left out

- Populations.Population.CalculateGridFitness: returns the raw fitness 1 − diff/(n·255²), without the Math.pow(raw, 0.5) square root (src/core/Population.ts:162, Population.ts:127). Real square roots are not available. The square root is monotone on [0,1], so argmax, sorting, elitism and the bounds 0 and 1 are unaffected, but the roulette weights differ.
- Genome.Individual.Mutate: the draws of one dot are supplied as a coin and a value per field. The source draws the value only when the coin falls below the rate, so the model abstracts the exact order in which Math.random is consumed.
- Selection.SelectParent: fitness sums are exact reals; floating-point rounding of the running sum is not modelled.
- Evolution.GeneticAlgorithm.EliteCount: computes the floor of populationSize · elitismRatio on exact reals. The source multiplies in doubles, so a product that should be an integer can round just below it: 90 · 0.7 is 62.99999999999999, which gives 62 elites in the source and 63 here. With populationSize 100 and elitismRatio 0.7 both give 70.
- ImageProcessing.ImageProcessor.CalculateImageStats: the black share and its product with MAX_DOT_COUNT are exact reals. In doubles, 66000 / 120000 · 200000 is 110000.00000000001, so the source's Math.ceil can recommend one dot more than the model does (110001 against 110000).
- ImageProcessing.RecommendedDots: takes the ceiling of share · 200000 on exact reals. The double product can land just above an integer that the exact product hits, so the source's result can be one above the model's.
- ImageProcessing.ClampedMean: the Uint8ClampedArray store of a non-integer mean is rounded half to even. A NaN mean (count 0) stores 0. Floating-point error in sum / count is not modelled.
- ImageProcessing.ImageProcessor.ApplyBlur: works on an array of ints standing for the Uint8ClampedArray. The buffer is assumed to hold 4·width·height bytes, as getImageData returns for the processor's size.
- convertToGrayscale: left out, because the luminance formula is floating point (src/utils/ImageProcessor.ts:47-52).
- convertToBlackAndWhite, updateCanvas, clearCanvas and drawIndividual: left out, because they are canvas I/O. The model starts from the ImageData buffer.
- dist/Population.js: left out, because its fitness draws with an OffscreenCanvas. The dist genetic algorithm is modelled over the integer rasteriser.
- getPopulation: left out, because it only returns a field.
- UI wiring (src/ui, src/main.ts, main.ts, dist/main.js): left out, because it is event handling and timers.
- src/utils/config.ts: kept only as named constants.
- Probabilistic claims about how often mutation, coins or selection pick something, and about convergence, are not stated. Every random draw is an input.
- Individuals are created with width, height ≥ 1. An ImageData cannot have a zero dimension, so the target always satisfies this.
- LegacyEvolution.LegacyGeneticAlgorithm.Crossover: builds the child with a.width and a.height, as the source does, but requires a to have the target's width and height. The source does not check this; it holds for every individual of a population. Under that requirement LegacyCrossed, which draws the child's own random dots on the target's canvas, describes the same child.
