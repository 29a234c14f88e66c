# pea-genetic in Dafny

This is a model of the genetic-algorithm solver for the travelling salesman
problem in `pea-genetic`. The model covers three parts of the program.

- **The weight-matrix graph** (`src/graph.rs`). A graph is a square matrix of
  signed weights. The length of a closed tour is the sum of its legs,
  including the leg from the last city back to the first.
- **The reader of TSPLIB-style weight files** (`src/graph_parser.rs`).
  - It splits the text on Unicode whitespace.
  - It takes the number after the first `DIMENSION:` token, and starts
    reading weights after the first `EDGE_WEIGHT_SECTION` token.
  - It reads a `dim` by `dim` row-major matrix with the diagonal zeroed.
  - It rejects a dimension of 0 with an `InvalidData` error.
- **The generational loop and its operators** (`src/genetic.rs`).
  - Each generation:
    - computes the fitness of every individual (its tour length);
    - ranks the individuals with a stable sort by fitness;
    - takes breeding pairs row by row over the ranking, best first;
    - breeds one child per pair;
    - fills the rest of the population with the best-ranked parents;
    - mutates each individual whose probability test passed.
  - The per-generation log line holds the best fitness and the best fitness
    so far.
  - The run hands back the first individual of the final population.

Tours are `seq<nat>`. A valid tour through `n` cities is a permutation of
`0..n-1` (`Tours.IsPermutation`).

Every random draw of the program becomes a parameter, constrained to the
range the program draws it from:
- the cut points (`Crossover.CutsFit`);
- the mutation positions (`Mutation.DrawFits`);
- per generation, a `GenerationDraws` value holding the cut point of every
  pair and, per individual, either no mutation or its drawn positions.

Most panics are modelled as outcomes rather than excluded by preconditions:
- `None` from `OrderCrossover`, `Step`, `Evolve` and `GeneticTsp`;
- `Panic` from `ParseGraph`.

The exceptions are listed under "Left out". They are the empty `gen_range`
ranges, the cycle crossover that never returns, and out-of-range reads in
`GetWeight` and `CalculatePathLength`. Preconditions exclude those cases.

The modules follow the program's structure:

| module | file | covers |
|---|---|---|
| `Tours` | `tours.dfy` | `sequence_vector`, permutations, the "not already placed" filter |
| `Graph` | `graph.dfy` | `MatrixGraph`, `new`, `get_weight`, `set_adj_matrix`, `calculate_path_length` |
| `GraphParser` | `graph_parser.dfy` | `parse_graph`, `str::split` on whitespace, `parse::<usize>` and `parse::<isize>` |
| `Mutation` | `mutation.dfy` | the five mutation operators and `mutate_in_place` |
| `Crossover` | `crossover.dfy` | `one_point_crossover`, `order_crossover`, the `crossover` dispatch |
| `Selection` | `selection.dfy` | the ranking `sort_by`, `generate_crossover_pairs` |
| `Genetic` | `genetic.dfy` | `calculate_fitness`, one generation, `genetic_tsp` and its log |
| `Options` | `options.dfy` | `Option` |

## Model

| member | source | states |
|---|---|---|
| Tours.SequenceVector | src/genetic.rs:267-273 | the identity order of `size` indices: length `size`, position `i` holds `i` |
| Tours.SequenceVectorCounts | src/genetic.rs:267-273 | every index below `n` occurs exactly once in the identity order and no other value occurs |
| Tours.PermutationShape | src/genetic.rs:250-257 | a tour that is a rearrangement of `0..n-1` has length `n`, only values below `n`, and no repeated city |
| Tours.Without | src/genetic.rs:182 | the filter keeps each city of the second parent exactly as often as it occurs there when it is not excluded, and drops it otherwise |
| Tours.CutAndFillCounts | src/genetic.rs:181-185 | a repeat-free piece of a permutation, followed by the other parent's cities that are not in it, holds every city exactly once, and the filler has `n` minus the piece's length cities |
| Tours.Reverse | src/genetic.rs:107-109 | pushing a range in reverse gives the same length, position `i` holds the element `|s|-1-i`, and the same cities |
| Graph.New | src/graph.rs:10-19 | a new graph has the requested size and a square all-zero matrix |
| Graph.GetWeight | src/graph.rs:20-22 | the weight at row `from`, column `to` of the matrix, defined only where that entry exists |
| Graph.SetAdjMatrix | src/graph.rs:24-26 | the size is kept, and exactly the entries of the installed matrix become readable, with its weights |
| Graph.CalculatePathLength | src/graph.rs:27-34 | the loop over consecutive steps plus the closing step computes the closed-tour length, the sum over every leg `i -> (i+1) mod n` |
| Graph.TourLengthNonNegative | src/graph.rs:27-34 | with no negative weight in the matrix, a tour length is never negative |
| Graph.TourLengthOfNewIsZero | src/graph.rs:10-19 | every tour over a freshly created graph has length 0 |
| Graph.SingleNodeTourLength | src/graph.rs:27-34 | a one-city tour has exactly one leg, from the city to itself, and its length is that diagonal weight |
| GraphParser.WordLength | src/graph_parser.rs:7-8 | the length of the leading non-whitespace run: every character before it is not whitespace, and the one after it is |
| GraphParser.Tokenize | src/graph_parser.rs:7-10 | splitting on whitespace and dropping empty pieces yields only non-empty, whitespace-free tokens |
| GraphParser.TokensSpellText | src/graph_parser.rs:7-10 | concatenating the tokens gives back the text with exactly its whitespace removed |
| GraphParser.TokenizeJoin | src/graph_parser.rs:7-10 | tokens written with separating spaces are read back as exactly those tokens |
| GraphParser.TokenizeToken | src/graph_parser.rs:7-10 | a text that is a single whitespace-free piece reads as exactly that one token |
| GraphParser.TokenizeSplitsAtWhitespace | src/graph_parser.rs:7-10 | every whitespace character ends a token: the text before it and the text after it are tokenized separately and the results concatenated |
| GraphParser.ParseUsize | src/graph_parser.rs:15 | a successful `usize` parse is below `2^64` and its text is non-empty and has no minus sign |
| GraphParser.ParseIsize | src/graph_parser.rs:35 | a successful `isize` parse lies in `[-2^63, 2^63)`, and a negative value comes from text that starts with `-` |
| GraphParser.ParseUsizePrinted | src/graph_parser.rs:15 | every `usize` written in decimal parses back to itself |
| GraphParser.ParseIsizePrinted | src/graph_parser.rs:35 | every `isize` written in decimal parses back to itself |
| GraphParser.PrintedIsToken | src/graph_parser.rs:7-10 | a written decimal number is a single token |
| GraphParser.FirstIndexOf | src/graph_parser.rs:13-17 | no index exactly when the key is absent; otherwise the key sits at the index and nowhere before it |
| GraphParser.Dimension | src/graph_parser.rs:12-18 | 0 when no token is `DIMENSION:`; otherwise the parse of the token after the first `DIMENSION:`, and a panic when that token is missing or is not a `usize` |
| GraphParser.MatrixStart | src/graph_parser.rs:20-26 | 0 when no token is `EDGE_WEIGHT_SECTION`; otherwise the position right after its first occurrence |
| GraphParser.MatrixOf | src/graph_parser.rs:28-38 | a square `dim` by `dim` matrix whose entry `(i, j)` is 0 on the diagonal and otherwise the `isize` value of token `start + i*dim + j` |
| GraphParser.BuildAdjMatrix | src/graph_parser.rs:28-38 | the nested loop succeeds exactly when every off-diagonal token exists and parses, and then builds that matrix |
| GraphParser.ParseGraph | src/graph_parser.rs:5-45 | the `InvalidData` "Cannot parse graph dimension" error exactly when the dimension reads as 0; a panic exactly when the dimension token or a matrix entry cannot be read; otherwise a graph of that size, at least 1, with a square matrix and a zero diagonal |
| GraphParser.ParsedWeights | src/graph_parser.rs:35 | in a parsed graph, each off-diagonal weight is the value of the token at its row-major position |
| GraphParser.ParsedSingleNodeTour | src/graph_parser.rs:32-33 | on a parsed graph every one-city tour is in range and has length 0 |
| GraphParser.FormattedLayout | src/graph_parser.rs:12-26 | in a written weight file the dimension reads back and the matrix starts after the third token |
| GraphParser.FormattedMatrix | src/graph_parser.rs:28-38 | the written weights of a file read back as the row-major matrix with the diagonal zeroed |
| GraphParser.ParseFormattedGraph | src/graph_parser.rs:5-45 | reading a written weight file with dimension at least 1 gives back exactly the graph of that size and those weights, diagonal zeroed |
| Mutation.SwapMutate | src/genetic.rs:120-128 | the two drawn positions exchange cities, every other position is unchanged, and the tour keeps its cities |
| Mutation.SegmentSize | src/genetic.rs:80 | `floor(n * 0.1)`: `10*k <= n < 10*(k+1)`, and below `n` for every non-empty tour |
| Mutation.TwoOptSwapMutate | src/genetic.rs:130-150 | positions `point1..point2-1` come out reversed, everything else stays, the last city never moves, and the tour keeps its cities |
| Mutation.ReversionMutate | src/genetic.rs:100-118 | exactly `floor(n/10)` positions from the drawn start are reversed, the rest stays, the last city never moves, nothing changes below ten cities, and the tour keeps its cities |
| Mutation.InsertionMutate | src/genetic.rs:79-98 | the segment moves to the insertion point of the shortened tour: the cities around it are the shortened tour split at that point, nothing changes below ten cities, and the tour keeps its cities |
| Mutation.MoveSegmentCounts | src/genetic.rs:83-92 | cutting a segment out and splicing it back in elsewhere keeps every city |
| Mutation.InsertAt | src/genetic.rs:91 | `Vec::insert`: the value lands at the index, earlier positions stay, later ones shift right by one |
| Mutation.InsertionMutateLoop | src/genetic.rs:83-92 | the program's push-then-insert loops build exactly the segment move `InsertionMutate` describes |
| Mutation.CutOutLoop | src/genetic.rs:83-89 | the two push loops give the tour without the segment: the cities before it, then the cities after it |
| Mutation.InsertNext | src/genetic.rs:90-92 | each `insert` step extends the re-inserted part of the segment by its next city |
| Mutation.ApplySwaps | src/genetic.rs:154-156 | successive swaps keep the length and the cities of the tour |
| Mutation.ScrambleMutate | src/genetic.rs:152-157 | `floor(n/10)` swaps keep the tour's cities and change nothing below ten cities |
| Mutation.MutateInPlace | src/genetic.rs:69-77 | every mutation operator keeps the length and the cities of the tour, so a valid tour stays valid |
| Crossover.OnePointCrossover | src/genetic.rs:175-187 | the child starts with parent 1's first `crossoverPoint` cities; after them, each city occurs once for each occurrence in parent 2, unless it is already in that prefix |
| Crossover.OnePointCrossoverIsPermutation | src/genetic.rs:175-187 | for permutation parents the one-point child is a permutation: parent 1's prefix up to the cut, then parent 2's remaining cities in parent 2's order |
| Crossover.FillGaps | src/genetic.rs:203-208 | filling succeeds exactly when there are at least as many unused cities as empty slots; filled slots keep their city |
| Crossover.FillGapsOrder | src/genetic.rs:203-208 | the empty slot at `i` receives the unused city whose index is the number of empty slots before `i` |
| Crossover.SegmentSlots | src/genetic.rs:190-200 | a slot holds parent 1's city inside the sorted cut points and is empty outside them |
| Crossover.SegmentFill | src/genetic.rs:201-208 | filling the slots around a segment succeeds exactly when enough cities are supplied, and gives the unused cities before the segment, the segment, then the next unused cities |
| Crossover.OrderCrossover | src/genetic.rs:189-210 | the child exists exactly when the unused cities cover the slots outside the sorted cut points; it then has parent 1's length and keeps parent 1's segment in place |
| Crossover.OrderCrossoverShape | src/genetic.rs:189-210 | the order-crossover child exists exactly when enough unused cities remain, and it is the unused cities up to the segment, parent 1's segment in place, then the next unused cities |
| Crossover.OrderCrossoverIsPermutation | src/genetic.rs:189-210 | for permutation parents the `unwrap` never fails and the child is a permutation |
| Crossover.OrderCrossoverKeepsSegment | src/genetic.rs:198-200 | parent 1's cities between the sorted cut points keep their positions in the child |
| Crossover.CrossoverChild | src/genetic.rs:161-170 | the one-point operator always returns, starting with parent 1's prefix up to the cut; the order operator, when it returns, keeps the length and parent 1's segment |
| Crossover.CrossoverClosure | src/genetic.rs:165-169 | two permutation parents always give a permutation child, under either operator that returns |
| Selection.InsertByRank | src/genetic.rs:225 | inserting an index into a rank-ordered sequence keeps it rank-ordered and adds exactly that index |
| Selection.SortByRank | src/genetic.rs:225 | the same indices, sorted by fitness with ties in index order |
| Selection.Rank | src/genetic.rs:224-225 | the ranking lists every individual index once, ascending by fitness, ties in index order |
| Selection.SortedByRankUnique | src/genetic.rs:225 | two rank-ordered sequences with the same elements are equal |
| Selection.StableSortIsRank | src/genetic.rs:225 | any stable fitness sort of the indices is exactly `Rank` |
| Selection.IndexPairsLength | src/genetic.rs:228-237 | the full nested scan over `n` ranks has `n*(n-1)` pairs |
| Selection.IndexPairsShape | src/genetic.rs:228-237 | every scanned index pair is in range and never joins an index with itself |
| Selection.IndexPairsOrdered | src/genetic.rs:228-237 | the scan visits index pairs in strictly increasing lexicographic order, so no pair repeats |
| Selection.IndexPairsComplete | src/genetic.rs:228-237 | every pair of distinct indices is visited by the scan |
| Selection.FirstRowLeads | src/genetic.rs:228-236 | the first `n-1` pairs of the scan all start at rank 0, the best individual |
| Selection.ScanIsPrefix | src/genetic.rs:228-231 | wherever the inner loop stands, the pairs visited so far are a prefix of the full scan order |
| Selection.CrossoverPairs | src/genetic.rs:222-239 | the number of pairs is the requested count, capped by `n*(n-1)`; every pair joins two different valid individuals; and the first `n-1` pairs lead with the best-ranked individual |
| Selection.GenerateCrossoverPairs | src/genetic.rs:222-239 | the program's ranking sort and nested loops with early return produce exactly `CrossoverPairs` |
| Selection.ScanPairs | src/genetic.rs:227-238 | the nested loop with its early return yields exactly the visited index pairs, read through the ranking, and nothing else |
| Selection.Visited | src/genetic.rs:228-237 | the scan stops after the first `count` pairs of its visiting order, or after all `n*(n-1)` of them when there are fewer |
| Selection.ScanRow | src/genetic.rs:229-236 | one pass of the inner loop either stops with the requested count inside the scan order or finishes row `i` |
| Genetic.Fitness | src/genetic.rs:259-265 | one fitness per individual, in population order: each individual's tour has every leg in range and its fitness is its closed-tour length |
| Genetic.CalculateFitness | src/genetic.rs:259-265 | one fitness per individual, in population order, each the closed-tour length of that individual |
| Genetic.Lowest | src/genetic.rs:61-62 | the minimum of a start value and a sequence: below both, and equal to one of them |
| Genetic.BestFitness | src/genetic.rs:61 | `min().unwrap()`: a fitness value of the population that no other undercuts |
| Genetic.TopRankIsBest | src/genetic.rs:37-38 | the individual ranked first carries the best fitness |
| Genetic.PopulationInRange | src/genetic.rs:259-265 | every tour of a population over a square matrix has a weight for each leg |
| Genetic.PairChild | src/genetic.rs:161-170 | the crossover of two permutation parents exists and is a permutation |
| Genetic.Breed | src/genetic.rs:159-173 | one child per pair, every child a permutation, and child `k` is the crossover of the two individuals pair `k` names under draw `k` |
| Genetic.NextPopulation | src/genetic.rs:43-51 | the new population is the children first, then the best-ranked parents in rank order, filling the population size |
| Genetic.NextPopulationIsPopulation | src/genetic.rs:43-51 | children and carried-over parents alike are valid tours, so the new population is a population |
| Genetic.MutatePopulation | src/genetic.rs:53-57 | individuals whose probability test failed are unchanged, and every mutated individual stays a valid tour |
| Genetic.MutateSurvivors | src/genetic.rs:53-57 | the mutation phase keeps the population a population of valid tours |
| Genetic.Step | src/genetic.rs:36-59 | a generation completes exactly when the children do not outnumber the population, and then yields a population of valid tours |
| Genetic.ElitistCarryOver | src/genetic.rs:49-57 | when a parent is carried over and the best one escapes mutation, the next generation's best fitness is no worse than this one's |
| Genetic.Evolve | src/genetic.rs:35-64 | the run completes exactly when there are no generations or the children never outnumber the population; then it yields a valid population and one best fitness per generation |
| Genetic.EvolveNeverWorsens | src/genetic.rs:35-64 | with the best carried-over parent never mutated, the logged best fitness never rises from one generation to the next |
| Genetic.RunningBest | src/genetic.rs:61-62 | one running best per generation, each at most the starting `isize::MAX` and at most that generation's best fitness |
| Genetic.RunningBestIsPrefixMinimum | src/genetic.rs:61-62 | the running best after generation `k` is the lowest of `isize::MAX` and the first `k+1` best fitnesses |
| Genetic.Reports | src/genetic.rs:60-63 | one log line per generation, carrying its index and its best fitness |
| Genetic.AllTimeBestIsRunningMinimum | src/genetic.rs:61-63 | the logged best-so-far is at most `isize::MAX`, at most every best fitness logged up to it, one of them or `isize::MAX`, and never rises from line to line |
| Genetic.RunningBestNeverRises | src/genetic.rs:62 | one more generation can only lower the running best |
| Genetic.LowestOfLonger | src/genetic.rs:62 | extending the sequence can only lower its minimum |
| Genetic.GeneticTsp | src/genetic.rs:30-67 | the run panics exactly when the population is empty, or when a generation runs on a graph of no cities or with more children than individuals; otherwise it returns the first individual of the final population, a valid tour, and the log of the evolved per-generation bests, one line per generation |
| Genetic.GeneticTspReports | src/genetic.rs:36-63 | log line `k` is numbered `k`; the first line's best fitness is the initial population's best; and each line's best-so-far is the lowest of `isize::MAX` and the bests of lines `0..k` |
| Genetic.GeneticTspNeverWorsens | src/genetic.rs:49-63 | when the best carried-over parent is never mutated, the run completes and the best fitness in the log never rises from one line to the next |

## Left out

- `cycle_crossover` (src/genetic.rs:212-220): its `while` loop has an empty body, so it never returns. `Crossover.CutsFit` admits no draw for `CX`. A run with the cycle operator is therefore modelled only when it breeds no pairs, which is also the only case in which the program returns. The textbook cycle crossover is not modelled, because the program does not implement it.
- Random number generation (`thread_rng`, `random`, `shuffle`): the draws are parameters constrained to the ranges `gen_range` draws from.
  - A run in which a range is empty is outside the model, because `gen_range` panics there. One example is the one-point crossover at `n < 2`, whose `gen_range(1..1)` panics. So `one_point_crossover` panics on a one-city tour.
- `generate_initial_population` and `generate_random_path` (src/genetic.rs:242-257): the shuffle is random, so the initial population is a parameter of `Genetic.GeneticTsp` required to consist of permutations of `0..n-1`, which is what a shuffle of `0..n-1` gives.
- Floating point:
  - `crossover_probability * population_size` floored becomes the parameter `crossoverPairCount`.
  - The `random::<f64>() < mutation_probability` test becomes the presence or absence of a mutation draw.
  - `floor(n * 0.1)` is modelled as `n / 10`, which agrees for tour lengths far below `2^53`.
- `println!` output is modelled as the `GenerationReport` list, not as text.
- The `Display` implementation and the `Graph` trait declaration (src/graph.rs:37-57) are formatting and interface only.
- `fs::read_to_string` and its I/O error: `GraphParser.ParseGraph` takes the file's text.
- `src/main.rs` (argument handling) is not part of this model.
- `UsizeLimit` and `IsizeLimit` assume a 64-bit target (`2^64` and `2^63`). On a 32-bit target `parse::<usize>` and `parse::<isize>` would reject smaller numbers.
- Machine integers are unbounded here.
  - The `isize` overflow of a path-length sum is not modelled.
  - Neither are `usize` overflow in `start + i * dim + j` and allocation failure in `Vec::with_capacity`.
  - The parsed values themselves are range-checked as `parse` does.
- Graph.CalculatePathLength: requires a non-empty path whose every leg has a matrix entry. The program panics otherwise (`path.len() - 1` underflows, or an index is out of bounds), and those panics are not modelled for direct calls. Within a run, `Genetic.GeneticTsp` does model the empty-graph panic.
- Graph.GetWeight: requires the entry to exist, where the program panics on an out-of-bounds index.
- Genetic.EvolveNeverWorsens: is stated only for runs in which the best carried-over parent is never mutated. The program promises nothing when that parent is mutated, and then the best fitness can rise.
