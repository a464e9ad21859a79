# Longest path by genetic algorithm: a Dafny model

This project models the core of LCSC_longest_path. That is a C++ genetic algorithm (GA) that looks for long simple paths in weighted undirected graphs. The model covers seven parts:

- **`graph_lib::Graph`** (`graph.dfy`).
  - The constructor adds the reversed copy of every `{a, b, w}` input triple, sorts the list by first column and builds one neighbour→weight map per node `0..nodes`.
  - `getEdge` is a symmetric, range-checked lookup.
  - `oneify` sets every weight to 1.
  - `computePath` is the GA's objective. It walks along the preferred edges and returns `[totalWeight, n1, n2, ...]`.
- **The older `galplib::Graph`** (`legacy_graph.dfy`). It adds no reversed copies, and its range guard is a shift `j >> nodeCount`.
- **The random-graph code** (`random_graph.dfy`).
  - The one-pass connected-component finder `findConnectedComponents`, with `listContains`.
  - The Erdős–Rényi edge-list generator `erdosInputGen`.
  - The splicing loop of `erdosGraphRecursive`.
- **The fixed test graphs** (`test_graphs.dfy`): rings, kite, anti-loop, the two fixed lists, and the `getGraphByType` dispatch.
- **The chromosomes.**
  - `PathChromosome` (`path_chromosome.dfy`) holds one preferred neighbour per node plus a start node.
  - The bitstring chromosome of `chromosome.hpp` (`chromosome.dfy`) and its subclass of `bitstringChromosome.h` (`bitstring_chromosome.dfy`).
  - All three share the single-point tail-swap crossover of `tail_swap.dfy`.
  - `std::to_string` on naturals and the `", "`-joined lists of the texts are in `to_string.dfy`.
- **The bookkeeping of `GeneticAlgorithm`** (`algorithm.dfy`):
  - population and objectives;
  - the history of per-generation maxima;
  - `hasConverged`, `optimum`;
  - the loop skeleton of `reproduce`.
- **The parameter-file reader** of the four experiment drivers (`parameters.dfy`).
  - It covers `trim` and the `key=value` loop of `read_parameter_file`.
  - One `Reader` parameter selects the copy. The copies differ in which keys they accept and in whether the value is trimmed.

Exceptions are the `Error` values of `wrappers.dfy`, carried in `Result` and `Outcome`. Randomness is passed in explicitly:

- `rand()`, `std::mt19937`, `random_int` and the mutation rolls are oracle functions from a call index to a value;
- `std::sample` is either an oracle or a choice (`:|`) among the allowed values.

Nodes and weights are `nat`, and doubles are `real`.

## Model

| member | source | states |
|---|---|---|
| `Graph.SortInput` | ext/galib/src/graph.cpp:14-16 | the caller's list is replaced by its stable sort on the first column |
| `Graph.SortPermutes` | ext/galib/src/graph.cpp:10-16 | sorting by `compareIndex` neither adds nor drops a triple (same multiset) |
| `Graph.InputFix` | ext/galib/src/graph.cpp:18-26 | the caller's list becomes the sort of itself followed by `(b, a, w)` for every `(a, b, w)`, so its size doubles |
| `Graph.BothDirections` | ext/galib/src/graph.cpp:18-24 | the doubled list holds a triple from i to j exactly when the input holds `(i, j, w)` or `(j, i, w)` |
| `Graph.BuildEdges` | ext/galib/src/graph.cpp:36-46 | the constructor's loop yields nodes+1 maps, map i being exactly what the triples with first column i insert; triples above `nodes` end up in no map |
| `Graph.CollectRun` | ext/galib/src/graph.cpp:39-44 | the inner `while` consumes exactly the run of triples of one node and leaves the cursor at the next node's run |
| `Graph.FirstWeightsKeys` | ext/galib/src/graph.cpp:40-43 | node i's map has key j exactly when some triple `(i, j, w)` is in the list |
| `Graph.FirstWeightsFirst` | ext/galib/src/graph.cpp:42 | `insert` keeps the weight of the first triple for a repeated pair |
| `Graph.FixedInputKeys` | ext/galib/src/graph.cpp:28-46 | after construction node i's map has key j exactly when the original input held `(i, j, w)` or `(j, i, w)` |
| `Graph.Graph.constructor` | ext/galib/src/graph.cpp:28-47 | the caller's list is fixed in place (both directions, sorted); there are nodes+1 maps, each built from the fixed list |
| `Graph.Graph.GetEdge` | ext/galib/src/graph.cpp:59-69 | throws `invalid_argument` exactly when i or j exceeds nodeCount; otherwise returns the weight stored under max(i, j) in the map of min(i, j), or -1 when there is none |
| `Graph.Graph.GetEdgeSymmetric` | ext/galib/src/graph.cpp:63-67 | `getEdge(i, j) == getEdge(j, i)` |
| `Graph.Graph.GetEdgeOfInput` | ext/galib/src/graph.cpp:28-69 | in a graph built from `input`, an in-range `getEdge(i, j)` finds an edge exactly when the input holds `(i, j, w)` or `(j, i, w)` |
| `Graph.Graph.GetEdgeFirstWeight` | ext/galib/src/graph.cpp:40-66 | the weight reported is that of the first triple for the pair in the fixed list |
| `Graph.Graph.Oneify` | ext/galib/src/graph.cpp:49-55 | every map keeps its key set and every stored weight becomes 1 |
| `Graph.Graph.OneifiedWalkWeight` | ext/galib/src/graph.cpp:49-55 | after `oneify`, a path's weight is its number of hops |
| `Graph.Graph.GetNodeEdgeSet` | ext/galib/src/graph.cpp:71-73 | node i's map: for every neighbour above i, membership and weight agree with `getEdge` |
| `Graph.Graph.GetRandomEdge` | ext/galib/src/graph.cpp:79-85 | for a node with at least one neighbour, returns one of its neighbours |
| `Graph.Graph.ComputePath` | ext/galib/src/graph.cpp:89-108 | the result is `[w] + walk`. The walk starts at `prefs[0]`, each next node is `prefs` of the previous one and joined to it by an edge, and no node repeats. w is the sum of the hop weights. The walk stops where the preferred hop is no edge or revisits a node, after at most nodeCount+1 nodes. It throws where `getEdge` throws |
| `Graph.Graph.WalkStep` | ext/galib/src/graph.cpp:96-103 | one more hop along an edge to an unvisited node extends the walk and adds that edge's weight |
| `Graph.Graph.StopHalts` | ext/galib/src/graph.cpp:98-105 | where `getEdge` answers but the preferred hop is no edge or revisits a node, the walk has ended normally |
| `Graph.Graph.StopThrows` | ext/galib/src/graph.cpp:98 | where `getEdge` throws, the walk ends with the exception |
| `Graph.Graph.WalkInRange` | ext/galib/src/graph.cpp:91-101 | every node of a walk indexes `prefs`; past the first, every node is in 0..nodeCount |
| `Graph.Graph.WalksAgree` | ext/galib/src/graph.cpp:93-106 | two walks from the same preferences agree on their common length |
| `Graph.Graph.WalkUnique` | ext/galib/src/graph.cpp:89-108 | the walk that ends (normally or by exception) is determined by the preferences |
| `Graph.Graph.CannotExtend` | ext/galib/src/graph.cpp:96-105 | a proper prefix of a walk has not yet ended |
| `Graph.DistinctBound` | ext/galib/src/graph.cpp:90-99 | a repetition-free sequence of nodes 0..n has at most n + 1 entries |
| `Graph.Graph.TriangleWalk` | ext/galib/app/testGraphInsert.cpp:10-16 | on the triangle with preferences [1, 2, 3, 1] the walk is 1, 2, 3 of weight 4 |
| `Graph.TriangleGraph` | ext/galib/app/testGraphInsert.cpp:10-16 | `Graph(simpleTriangle(), 3)` holds the maps {2↦1, 3↦5} for node 1 and {3↦3, 1↦1} for node 2 |
| `Graph.TriangleExample` | ext/galib/app/testGraphInsert.cpp:10-16 | `computePath([1, 2, 3, 1])` on the triangle returns `[4, 1, 2, 3]` |
| `LegacyGraph.Graph.constructor` | src/graph.cpp:13-27 | the caller's list is sorted in place by first column, and no reversed copies are added; map i is built from the triples whose first column is i |
| `LegacyGraph.ShiftRightZero` | src/graph.cpp:30 | `j >> n` is zero exactly when j is below 2^n |
| `LegacyGraph.Graph.GetEdgeAsWritten` | src/graph.cpp:29-39 | throws `invalid_argument` exactly when i > nodeCount or j ≥ 2^nodeCount; otherwise the weight stored under max(i, j) in the map of min(i, j), or -1 when there is none |
| `LegacyGraph.Graph.GetEdge` | src/graph.cpp:29-39 | with the guard `j > nodeCount`: throws `invalid_argument` exactly when i or j exceeds nodeCount; otherwise the weight stored under max(i, j) in the map of min(i, j), or -1 when there is none |
| `LegacyGraph.Graph.GuardsAgreeInRange` | src/graph.cpp:30-32 | both guards give the same answer for j ≤ nodeCount, and for every j when nodeCount ≤ 1 |
| `LegacyGraph.Graph.ShiftGuardLetsThrough` | src/graph.cpp:30-32 | for nodeCount ≥ 2 the node nodeCount + 1 passes the shift guard, although the intended guard throws |
| `LegacyGraph.Graph.GetEdgeSymmetric` | src/graph.cpp:33-38 | both versions are symmetric on in-range pairs |
| `LegacyGraph.Graph.GetEdgeOneDirection` | src/graph.cpp:19-38 | `getEdge(i, j)` finds an edge exactly when the input holds `(min, max, w)`; a triple listed larger node first is never found |
| `LegacyGraph.Pow2Exceeds` | src/graph.cpp:30 | for n ≥ 2, n + 1 < 2^n |
| `LegacyGraph.Fixture` | apps/testGraphInsert.cpp:8-14 | with `{2,3,3}, {1,2,1}` over 3 nodes, `getEdge(1,2) = 1`, `getEdge(3,2) = 3` and `getEdge(3,1) = -1` |
| `RandomGraph.ListContains` | ext/galib/src/randomGraph.cpp:87-89 | true exactly when the needle occurs in the haystack |
| `RandomGraph.FindComponent` | ext/galib/src/randomGraph.cpp:96-99 | the iterator walk stops at the first component holding the node, or at the end |
| `RandomGraph.CompIndexOf` | ext/galib/src/randomGraph.cpp:96-104 | in disjoint components, a node's component is the one the walk finds |
| `RandomGraph.ProcessEdge` | ext/galib/src/randomGraph.cpp:95-132 | the loop body on edge (a, b) yields the model step: both endpoints become visited, and b's component gains a, merges with a's, or a new [a, b] opens |
| `RandomGraph.MergeKeepsPartition` | ext/galib/src/randomGraph.cpp:100-111 | merging a's component into b's keeps the components disjoint, visited and covering, and puts all their nodes in one component |
| `RandomGraph.AppendKeepsPartition` | ext/galib/src/randomGraph.cpp:112-115 | appending an unvisited node to a component keeps the partition |
| `RandomGraph.NewKeepsPartition` | ext/galib/src/randomGraph.cpp:122-131 | opening [a, b] for two unvisited nodes keeps the partition and adds one component |
| `RandomGraph.NewCovered` | ext/galib/src/randomGraph.cpp:122-131 | after opening [a, b] every visited node still lies in a component |
| `RandomGraph.StepKeepsPartition` | ext/galib/src/randomGraph.cpp:94-133 | each edge keeps the partition invariant, puts its two endpoints in one component and never separates two joined nodes |
| `RandomGraph.StepCount` | ext/galib/src/randomGraph.cpp:100-131 | the number of components grows by one for a new pair, drops by one for a merge of two different components, and is unchanged otherwise |
| `RandomGraph.StepJoins` | ext/galib/src/randomGraph.cpp:94-133 | one more edge keeps every earlier edge's endpoints joined and joins its own |
| `RandomGraph.StepConnected` | ext/galib/src/randomGraph.cpp:94-133 | in each of the four cases (append a, merge through (a, b), open [a, b], append b) every component stays linked by walks along the edges seen so far |
| `RandomGraph.MergeConnected` | ext/galib/src/randomGraph.cpp:105-110 | merging two components through a linking edge keeps every component linked |
| `RandomGraph.EdgePass` | ext/galib/src/randomGraph.cpp:92-133 | after the edge loop the flags mark exactly the touched nodes, the components form a partition, every edge's endpoints share a component, and any two nodes of one component are linked by the edges |
| `RandomGraph.MarksTouched` | ext/galib/src/randomGraph.cpp:114-131 | a node's `visited` flag is set exactly when some edge touches it |
| `RandomGraph.LonelyFacts` | ext/galib/src/randomGraph.cpp:135-139 | the closing loop lists exactly the untouched nodes of 1..nodes, each once, in increasing order |
| `RandomGraph.AddSingletons` | ext/galib/src/randomGraph.cpp:134-139 | the result is the edge-built components followed by `{i}` for every untouched node, in increasing i |
| `RandomGraph.ComponentsCover` | ext/galib/src/randomGraph.cpp:91-141 | every node 1..nodes lies in some output component |
| `RandomGraph.ComponentsBounded` | ext/galib/src/randomGraph.cpp:91-141 | components hold nodes 0..nodes only, and node 0 only when an edge touches it |
| `RandomGraph.ComponentsResult` | ext/galib/src/randomGraph.cpp:134-140 | the final list is disjoint and covers 1..nodes, and every edge's endpoints share a component |
| `RandomGraph.FindConnectedComponents` | ext/galib/src/randomGraph.cpp:91-141 | pairwise-disjoint, non-empty components that cover 1..nodes and join both ends of every edge, and any two nodes of one component are linked by a walk along the edges (`Linked`): first the edge-built ones (two or more entries each), then singletons for untouched nodes in increasing order |
| `RandomGraph.ErdosInputGen` | ext/galib/src/randomGraph.cpp:72-85 | whatever `rand()` returns, every triple is `(x, y, w)` with 1 ≤ x < y ≤ nodes and 1 ≤ w ≤ nodes², and the pairs come in strictly increasing order |
| `RandomGraph.AscendingPairwise` | ext/galib/src/randomGraph.cpp:75-76 | strictly increasing neighbours make the whole list increasing, so no pair appears twice |
| `RandomGraph.SpliceEdges` | ext/galib/src/randomGraph.cpp:18-26 | the old list is kept, and each spliced edge joins a node of component `entry[0]-1` to one of component `entry[1]-1`, lower node first, with the entry's weight |
| `RandomGraph.SpliceEndpoints` | ext/galib/src/randomGraph.cpp:18-25 | spliced edges stay within 1..nodes |
| `RandomGraph.SortEndpoints` | ext/galib/src/randomGraph.cpp:27 | sorting keeps every endpoint within 1..nodes |
| `RandomGraph.Components` | ext/galib/src/randomGraph.cpp:14-29 | each round's components are non-empty, disjoint, cover 1..nodes and join every edge |
| `RandomGraph.ErdosGraphRecursive` | ext/galib/src/randomGraph.cpp:11-32 | every round keeps that state; a graph is built from the current list exactly when at most one component remains |
| `RandomGraph.OneComponentConnected` | ext/galib/src/randomGraph.cpp:15-31 | when the loop exits there is exactly one component, which holds every two nodes of 1..nodes, and every two nodes are linked by a walk along the final edge list: the graph is connected |
| `TestGraphs.SimpleConnCompAsWritten` | ext/galib/src/testGraphs.cpp:10-21 | throws `invalid_argument` exactly when param ≠ 9; otherwise returns the five-triple list |
| `TestGraphs.SimpleConnComp` | ext/galib/src/testGraphs.cpp:10-21 | with the guard its message and default argument state: throws exactly when param ≠ 7 |
| `TestGraphs.SimpleGuardMismatch` | ext/galib/src/testGraphs.cpp:10-12 | the code refuses 7 and accepts 9, although the list lies within 1..7 and leaves nodes 8 and 9 untouched |
| `TestGraphs.SimpleConnCompShape` | ext/galib/src/testGraphs.cpp:14-20 | the accepted list runs forward, has positive weights, and touches exactly the nodes 1..7 |
| `TestGraphs.ExampleGraph` | ext/galib/src/testGraphs.cpp:23-39 | throws exactly when param ≠ 9; otherwise returns the ten fixed triples |
| `TestGraphs.ExampleGraphShape` | ext/galib/src/testGraphs.cpp:27-38 | the example runs forward within 1..9, has positive weights and touches every node |
| `TestGraphs.RingEdges` | ext/galib/src/testGraphs.cpp:48-52 | the shared loop produces the ring list |
| `TestGraphs.RingGraphTricky` | ext/galib/src/testGraphs.cpp:42-54 | throws exactly when param < 3; otherwise returns the ring with weight 2 on `(i, i+1)` |
| `TestGraphs.RingGraphAscending` | ext/galib/src/testGraphs.cpp:56-68 | throws exactly when param < 3; otherwise returns the ring with weight i + 1 on `(i, i+1)` |
| `TestGraphs.RingShape` | ext/galib/src/testGraphs.cpp:46-52 | exactly n triples: `(1, n, 1)` then `(i, i+1, ·)` for i = 1..n-1, forward, within 1..n, with positive weights |
| `TestGraphs.RingDegreeTwo` | ext/galib/src/testGraphs.cpp:48-52 | every node lies on exactly two of the ring's edges, so the ring is a cycle |
| `TestGraphs.KiteBlocks` | ext/galib/src/testGraphs.cpp:76-81 | the loop appends the four triples of block i for i = 0..p/3-1 |
| `TestGraphs.KiteGraphAsWritten` | ext/galib/src/testGraphs.cpp:70-83 | throws exactly when p = 0 or p = 2; otherwise returns 4·(p/3) triples in diamond blocks |
| `TestGraphs.KiteGraph` | ext/galib/src/testGraphs.cpp:70-83 | with the guard its message states: throws exactly when p < 4 or p mod 3 ≠ 1 |
| `TestGraphs.KiteShape` | ext/galib/src/testGraphs.cpp:76-81 | the kite runs forward with positive weights, within 1..3·blocks+1, and its last triple reaches 3·blocks+1 |
| `TestGraphs.KiteGuardLetsThrough` | ext/galib/src/testGraphs.cpp:71-80 | for p a positive multiple of 3 the guard passes, but the kite reaches node p + 1 |
| `TestGraphs.KiteGraphFits` | ext/galib/src/testGraphs.cpp:76-80 | under the corrected guard the kite lies within 1..p, and its last node is p |
| `TestGraphs.AntiLoopEdges` | ext/galib/src/testGraphs.cpp:89-97 | the loop produces the anti-loop list |
| `TestGraphs.AntiLoopAsWritten` | ext/galib/src/testGraphs.cpp:85-98 | throws exactly when param < 4 |
| `TestGraphs.AntiLoop` | ext/galib/src/testGraphs.cpp:85-98 | with the guard its message promises (positive weights): throws exactly when param < 5 |
| `TestGraphs.AntiLoopShape` | ext/galib/src/testGraphs.cpp:89-97 | exactly p triples, forward within 1..p: `(1, 2, 5(p-1))`, `(2, p-1, p-4)`, `(i, i+1, 1)` for 2 ≤ i < p-1, and `(p-1, p, 5(p-1))` |
| `TestGraphs.AntiLoopPositive` | ext/galib/src/testGraphs.cpp:89-97 | under the corrected guard every weight is at least 1 |
| `TestGraphs.AntiLoopZeroWeight` | ext/galib/src/testGraphs.cpp:86-92 | param = 4 passes the guard, yet the list holds the weight 0 |
| `TestGraphs.ListFor` | ext/galib/src/testGraphs.cpp:102-110 | the list for each code 2..6 and its error cases, with the guards as written (code 5 throws only for 0 and 2, code 6 only below 4); any other code gives the empty list |
| `TestGraphs.ListForShape` | ext/galib/src/testGraphs.cpp:102-111 | every list the dispatch builds runs forward; it lies within 1..param exactly unless it is a kite with param a multiple of 3, and its weights are all positive exactly unless it is the anti-loop over 4 |
| `TestGraphs.FixedInput` | ext/galib/src/testGraphs.cpp:101-110 | the `switch` for codes other than 0 and 1 yields that list or that error |
| `TestGraphs.GetGraphByType` | ext/galib/src/testGraphs.cpp:100-112 | code 0 runs the recursive generator: it gives a graph or no result within the fuel, and a graph it gives is built from a list whose round state has at most one component, so every two nodes of 1..param are linked by its edges. Code 1 runs the rejection generator. Every other code builds `Graph(input, param)` from its list, as the builders as written produce it, and a builder's `invalid_argument` passes through |
| `PathChromosome.BuiltClosed` | ext/galib/src/graph.cpp:36-46 | a graph built from triples within 0..nodeCount has every neighbour inside the graph |
| `PathChromosome.NodeZeroEmpty` | ext/galib/src/graph.cpp:34-46 | a graph built from a list that never names node 0 has an empty map for node 0 |
| `PathChromosome.PathChromosome.constructor` | ext/galib/app/longest_path_problem/path_chromosome.hpp:31-40 | nodeCount+1 slots: slot 0 is the start node `gen() % nodeCount + 1`, slot i a neighbour of i, and the chromosome is not elite; every node needs a neighbour |
| `PathChromosome.PathChromosome.GetPathLength` | ext/galib/app/longest_path_problem/path_chromosome.hpp:46-49 | the weight `computePath` reports for the walk the preferences describe; throws where it throws |
| `PathChromosome.PathChromosome.ClosedNeverThrows` | ext/galib/app/longest_path_problem/path_chromosome.hpp:46-47 | on a graph whose neighbours are all nodes, `getPathLength` cannot throw |
| `PathChromosome.AppendJoined` | ext/galib/app/longest_path_problem/path_chromosome.hpp:55-58 | the loop appends `x1, ..., xk`, joined by ", " |
| `PathChromosome.AppendPart` | ext/galib/app/longest_path_problem/path_chromosome.hpp:54-58 | appends `x0 | x1, ..., xk` |
| `PathChromosome.PathChromosome.GetChromosomeText` | ext/galib/app/longest_path_problem/path_chromosome.hpp:53-67 | `(p0 | p1, ..., pn) - [w | n1, ..., nk]` from the preferences and the `computePath` result; throws where `computePath` throws |
| `PathChromosome.PartInjective` | ext/galib/app/longest_path_problem/path_chromosome.hpp:54-65 | a `x0 | x1, ...` part gives back its numbers |
| `PathChromosome.TextInjective` | ext/galib/app/longest_path_problem/path_chromosome.hpp:53-67 | the text determines both the preferences and the path |
| `PathChromosome.PathChromosome.Mutate` | ext/galib/app/longest_path_problem/path_chromosome.hpp:74-91 | outside [0, 1] it throws and changes nothing. Otherwise slot i changes only when its roll hits and node i has more than one neighbour, and then it holds a different neighbour. The chromosome stays valid |
| `PathChromosome.PathChromosome.MutateKeepsStart` | ext/galib/app/longest_path_problem/path_chromosome.hpp:79-90 | where node 0 has at most one neighbour (every built graph: its map is empty), slot 0 never changes |
| `PathChromosome.PathChromosome.Crossover` | ext/galib/app/longest_path_problem/path_chromosome.hpp:106-127 | slots below pos are kept and slots from pos on are exchanged in both chromosomes; lengths and validity are preserved |
| `PathChromosome.PathChromosome.CrossoverRandom` | ext/galib/app/longest_path_problem/path_chromosome.hpp:133-135 | the position is a draw in 0..size-1, so at least the last slot is exchanged |
| `PathChromosome.PathChromosome.SetElite` | ext/galib/app/longest_path_problem/path_chromosome.hpp:140-145 | the flag becomes the argument and the preferences are unchanged |
| `PathChromosome.CrossoverTwice` | ext/galib/app/longest_path_problem/path_chromosome.hpp:117-126 | crossing over twice at one position restores both chromosomes |
| `TailSwap.SwapTails` | ext/galib/include/chromosome.hpp:96-115 | lengths are kept, entries below pos stay, entries from pos on are exchanged (all of them for a negative pos) |
| `TailSwap.SwapTailsInvolution` | ext/galib/include/chromosome.hpp:107-115 | swapping the tails twice at one position gives back both sequences |
| `ToString.NatToString` | ext/galib/app/longest_path_problem/path_chromosome.hpp:57 | `std::to_string`: a non-empty string of decimal digits without a leading zero |
| `ToString.NatToStringRoundTrip` | ext/galib/app/longest_path_problem/path_chromosome.hpp:57 | reading the digits back gives the number |
| `ToString.NatToStringInjective` | ext/galib/app/longest_path_problem/path_chromosome.hpp:57 | distinct numbers render differently |
| `ToString.JoinNatsChars` | ext/galib/app/longest_path_problem/path_chromosome.hpp:55-58 | a joined list holds only digits, commas and blanks; it is empty exactly for the empty list; two numbers or more contain a comma |
| `ToString.JoinNatsInjective` | ext/galib/app/longest_path_problem/path_chromosome.hpp:62-65 | different lists render differently |
| `Chromosome.RandomBit` | ext/galib/include/chromosome.hpp:145-147 | `(char) random_int(2)` is the char 0 or 1 |
| `Chromosome.Flip` | ext/galib/include/chromosome.hpp:74-79 | 0 becomes 1 and anything else becomes 0 |
| `Chromosome.FlipInvolution` | ext/galib/include/chromosome.hpp:74-79 | flipping a bit twice gives it back |
| `Chromosome.MutatedBits` | ext/galib/include/chromosome.hpp:68-81 | mutation keeps a bitstring a bitstring |
| `Chromosome.MutatedTwice` | ext/galib/include/chromosome.hpp:68-81 | the same rolls applied twice restore the bits |
| `Chromosome.MutatedExtremes` | ext/galib/include/chromosome.hpp:70-72 | with probability 1 every bit flips; with probability 0 and rolls above 0 none does |
| `Chromosome.BitstringChromosome.constructor` | ext/galib/include/chromosome.hpp:36-40 | exactly `length` bits, bit k being `getRandomBit` of its draw, each 0 or 1 |
| `Chromosome.BitstringChromosome.GetBitstringText` | ext/galib/include/chromosome.hpp:51-57 | the raw char values of the bits in list order, one char per bit |
| `Chromosome.BitstringTextNotDigits` | ext/galib/include/chromosome.hpp:51-57 | that text holds no digit characters |
| `Chromosome.BitstringChromosome.Mutate` | ext/galib/include/chromosome.hpp:64-82 | outside [0, 1] it throws and keeps the bits; otherwise exactly the bits whose roll is at most the probability are flipped |
| `Chromosome.BitstringChromosome.Crossover` | ext/galib/include/chromosome.hpp:96-132 | the tails from pos on are exchanged with the other chromosome, and the prefixes and lengths are kept |
| `Chromosome.BitstringChromosome.CrossoverRandom` | ext/galib/include/chromosome.hpp:138-140 | the position is `random_int(size)`, in 0..size-1, so at least the last bit is exchanged |
| `Chromosome.CrossoverTwice` | ext/galib/include/chromosome.hpp:107-115 | crossing over twice at one position restores both chromosomes |
| `BitstringChromosome.BitsTextOfBits` | ext/galib/include/bitstringChromosome.h:55-60 | for 0/1 bits the text is one '0' or '1' per bit, in order |
| `BitstringChromosome.BitsTextInjective` | ext/galib/include/bitstringChromosome.h:55-60 | different bitstrings have different texts |
| `BitstringChromosome.BitstringChromosome.constructor` | ext/galib/include/bitstringChromosome.h:44-50 | exactly `length` random 0/1 bits, `bits_length_ == length`, not elite |
| `BitstringChromosome.BitstringChromosome.GetText` | ext/galib/include/bitstringChromosome.h:55-61 | the concatenation of `to_string` of every bit; for 0/1 bits a '0'/'1' string of the same length |
| `Algorithm.MaxElement` | ext/galib/include/algorithm.hpp:98-99 | `std::max_element`: an index of the largest value, with every earlier value strictly smaller |
| `Algorithm.AllEqualFrom` | ext/galib/include/algorithm.hpp:128-131 | every history entry from i on equals v |
| `Algorithm.Converged` | ext/galib/include/algorithm.hpp:122-132 | false while the history has fewer than k entries; otherwise true exactly when the last k entries equal the last |
| `Algorithm.ConvergedZero` | ext/galib/include/algorithm.hpp:122-132 | convergence over 0 generations always holds |
| `Algorithm.ConvergedMonotone` | ext/galib/include/algorithm.hpp:122-132 | convergence over k generations implies it over every j ≤ k |
| `Algorithm.ConvergedStep` | ext/galib/include/algorithm.hpp:83-84 | after one more generation, convergence over k + 1 holds exactly when the new value repeats the old last value and the old history converged over k |
| `Algorithm.GeneticAlgorithm.constructor` | ext/galib/include/algorithm.hpp:48-63 | exactly `population_size` members in creation order, each objective its member's evaluation, an empty history |
| `Algorithm.GeneticAlgorithm.HasConverged` | ext/galib/include/algorithm.hpp:122-132 | false while `generation()` < k; otherwise whether the last k maxima all equal the last one |
| `Algorithm.GeneticAlgorithm.Optimum` | ext/galib/include/algorithm.hpp:97-100 | the member at the first index of the largest objective |
| `Algorithm.GeneticAlgorithm.Fitness` | ext/galib/include/algorithm.hpp:221-233 | always throws: `logic_error` exactly when `fitness_b <= fitness_a`, otherwise the unimplemented-stub error |
| `Algorithm.GeneticAlgorithm.NextGenerationAsWritten` | ext/galib/include/algorithm.hpp:71-76 | as written, `nextGeneration` throws the error of `fitness` |
| `Algorithm.GeneticAlgorithm.NextGeneration` | ext/galib/include/algorithm.hpp:71-85 | for a new population of the same size: each objective is recomputed, exactly one history entry is appended and it equals the largest objective, `generation()` grows by one, and the probabilities and fitness bounds are unchanged |
| `Algorithm.GeneticAlgorithm.ReproduceLoop` | ext/galib/include/algorithm.hpp:161-203 | the guarded pushes fill the next generation to exactly the population size. Every member is a copy of a selected member or a crossover child of two selected parents at a position in 0..16 |
| `Parameters.SizeT` | ext/galib/app/longest_path_problem/path_max_numerical_experiments.cpp:266 | `size_t` reduction: the identity on 0..2^64-1, and 0 for -2^64 |
| `Parameters.FindFirstNotSpace` | ext/galib/app/longest_path_problem/path_max_numerical_experiments.cpp:265 | `find_first_not_of`: the first non-blank index, or npos when all are blank |
| `Parameters.FindLastNotSpace` | ext/galib/app/longest_path_problem/path_max_numerical_experiments.cpp:266 | `find_last_not_of`: the last non-blank index, or npos when all are blank |
| `Parameters.Trim` | ext/galib/app/longest_path_problem/path_max_numerical_experiments.cpp:264-268 | no longer than the input, and neither starting nor ending with one of `" \t\r\v\n"` |
| `Parameters.TrimSubstring` | ext/galib/app/longest_path_problem/path_max_numerical_experiments.cpp:264-268 | the result is the contiguous part left after removing blank runs at both ends; an all-blank input gives the empty string |
| `Parameters.TrimFixed` | ext/galib/app/longest_path_problem/main.cpp:57-61 | a string without blanks at either end is its own trim |
| `Parameters.TrimIdempotent` | ext/galib/app/max_int_problem/main.cpp:51-55 | trimming twice is trimming once |
| `Parameters.TrimPadded` | ext/galib/app/max_int_problem/int_max_numerical_experiments.cpp:56-60 | blanks around a blank-free core are removed exactly |
| `Parameters.FindChar` | ext/galib/app/longest_path_problem/path_max_numerical_experiments.cpp:294 | the first index of '=' in the line, or its length |
| `Parameters.SplitLine` | ext/galib/app/longest_path_problem/path_max_numerical_experiments.cpp:294-297 | both `getline` calls succeed exactly when something follows the first '='; then the line is key + "=" + value with no '=' in the key |
| `Parameters.SplitLineJoin` | ext/galib/app/longest_path_problem/path_max_numerical_experiments.cpp:294-297 | `key=value` with no '=' in the key and a nonempty value splits back into key and value |
| `Parameters.ParseKey` | ext/galib/app/longest_path_problem/path_max_numerical_experiments.cpp:299-326 | the `key == "..."` chain: a field is recognised only by its own name |
| `Parameters.ParseKeyName` | ext/galib/app/longest_path_problem/path_max_numerical_experiments.cpp:299-326 | every field's name is recognised as that field |
| `Parameters.KeyNameInjective` | ext/galib/app/longest_path_problem/path_max_numerical_experiments.cpp:299-326 | no two fields share a name |
| `Parameters.Convert` | ext/galib/app/longest_path_problem/path_max_numerical_experiments.cpp:300-326 | `graph_override_ones` and `local_search` become true exactly when the value is `"true"` |
| `Parameters.AssignField` | ext/galib/app/longest_path_problem/path_max_numerical_experiments.cpp:299-326 | an assignment sets its own field to the converted value and leaves every other field alone |
| `Parameters.Classify` | ext/galib/app/longest_path_problem/path_max_numerical_experiments.cpp:293-298 | a line is skipped exactly when it has no value after its first '=' |
| `Parameters.ClassifyLine` | ext/galib/app/max_int_problem/main.cpp:81-101 | for `key=value`, an accepted trimmed key receives the value: trimmed by the two longest-path copies, as written by the two max-int copies. Any other key throws with the trimmed key |
| `Parameters.ClassifyAll` | ext/galib/app/longest_path_problem/path_max_numerical_experiments.cpp:291-332 | every line of the file classified, in order |
| `Parameters.ReadParameterFile` | ext/galib/app/longest_path_problem/path_max_numerical_experiments.cpp:276-335 | a missing file throws `invalid_argument` before any line is read; otherwise the result is the fold of the lines from `RunParameters()` |
| `Parameters.ReadLinesStep` | ext/galib/app/longest_path_problem/path_max_numerical_experiments.cpp:291-332 | reading one more line is one more loop pass |
| `Parameters.RunErrPropagates` | ext/galib/app/longest_path_problem/path_max_numerical_experiments.cpp:327-328 | once a prefix of lines has thrown, the whole run throws the same |
| `Parameters.ReadLinesErr` | ext/galib/app/longest_path_problem/path_max_numerical_experiments.cpp:327-328 | once the first n lines of the file have thrown, the read throws the same |
| `Parameters.LastValue` | ext/galib/app/longest_path_problem/path_max_numerical_experiments.cpp:288-291 | the value of the last line that sets a field, or none when no line does |
| `Parameters.RunFields` | ext/galib/app/longest_path_problem/main.cpp:81-84 | after a successful run every field holds the conversion of the last value set for it, or the zero of `RunParameters()` |
| `Parameters.ReadLinesFields` | ext/galib/app/max_int_problem/int_max_numerical_experiments.cpp:80-90 | the same for a file read without error: the last occurrence of a key wins, unmentioned fields stay zero |
| `Parameters.RunRejects` | ext/galib/app/longest_path_problem/main.cpp:116-117 | a run throws exactly when some line has an unknown key, and then `runtime_error` names the first one |
| `Parameters.ReadLinesRejects` | ext/galib/app/max_int_problem/main.cpp:86-101 | a file read throws exactly when a line with a value has a key the copy does not accept; the message names the first such key |

## Left out

- Randomness. `rand()`, `srand`, `std::mt19937`, `random_int`, `random_real` and `std::sample` are oracles from a call index to a value, or a choice among the allowed values. No distribution is modelled.
- `PathChromosome.PathChromosome.Mutate`: the reroll `while` that redraws until the neighbour differs is taken as one choice of a different neighbour. A random source that keeps returning the old value would loop forever; the model does not capture this.
- `PathChromosome.PathChromosome.Mutate` also requires the neighbours of node 0 to be nodes. Slot 0 is redrawn from node 0's map, and the chromosome's invariant keeps slot 0 a node. In every graph the constructor builds from valid input, node 0's map is empty (`PathChromosome.NodeZeroEmpty`).
- `PathChromosome.PathChromosome.constructor` requires the graph to have at least one node. The start node is `gen() % nodeCount + 1`, and a remainder by 0 is undefined behaviour.
- `PathChromosome.PathChromosome.constructor` requires every node to have a neighbour. `std::sample` on an empty map leaves `returnable` empty, and `returnable[0]` is then undefined.
- `Graph.Graph.ComputePath` requires `prefs` to have more than nodeCount entries and `prefs[0]` to index it. The source indexes `prefs` without a check, and reading past its end is undefined behaviour.
- `Chromosome.BitstringChromosome.Crossover` requires pos ≤ size and an `other` of the same length. The only call site, ext/galib/include/algorithm.hpp:191-197, crosses copies of two members of one population, whose lengths agree. A longer `other`, whose extra entries the source leaves alone, is not modelled; a larger pos or a shorter `other` moves an iterator past the end.
- `PathChromosome.PathChromosome.Crossover` requires the same, and also that `other` shares the graph and keeps its invariant. Members of one population are built over one graph, so this holds at that call site; the longer-`other` case is not modelled here either.
- `RandomGraph.FindConnectedComponents` requires every endpoint to lie in 0..nodes. `visited` has nodes + 1 entries and is indexed without a check.
- `erdosGraphRejection` is left out. It is an unbounded `while (true)`, it indexes `visited` with nodes from a larger graph, and it discards the re-indexed edges it builds. `getGraphByType` code 1 yields the marker `Rejection`.
- `determineGenSize` is left out: floating-point thresholds and an overflowing `1<<31` / `1<<(nodes-1)`.
- `RandomGraph.ErdosGraphRecursive`: the source loops until one component remains; the model runs at most `fuel` rounds and builds no graph if that is not enough. The float test `r < p` is an oracle `below`.
- Fixed-width arithmetic. Weights, nodes and path sums are unbounded: no 32-bit wrap-around, no `unsigned int` overflow in `nodes*nodes` or in `path[0]`. Only `trim`'s `size_t` subtraction is written out modulo 2^64.
- `LegacyGraph.ShiftRight` models `j >> n` as n halvings for every n. Shifting a 32-bit `unsigned int` by 32 or more is undefined behaviour in C++; the model gives 0 there, so `LegacyGraph.Graph.GetEdgeAsWritten` does not capture what the source does when nodeCount ≥ 32.
- Doubles are exact `real`s: probabilities, objectives and `std::stod` results.
- Iteration order of `std::unordered_map` and `std::unordered_set` is not modelled; maps and sets are Dafny maps and sets. `std::sort` is modelled as a stable insertion sort on the first column; the real sort may order equal first columns differently. Every property here depends only on the first column, except the "first weight wins" rule for duplicated pairs.
- `Algorithm.GeneticAlgorithm.ReproduceLoop`: the roulette selection is float arithmetic over `rand()`. It also increments `survivor_index` before using it, so it may index one past the end. Both are abstracted as an index oracle reduced modulo the population size. `reproduce` has no `return` statement; the model returns the next generation it builds.
- `Algorithm.GeneticAlgorithm.NextGeneration` models only the bookkeeping, given the new population. As written, `fitness`, `mutate` and `select` always throw (`NextGenerationAsWritten`).
- Elitism is not modelled. The drivers pass five constructor arguments to a four-argument constructor, and the algorithm has no elitism to model.
- `getValue` of `PathChromosome` is `getPathLength`, so one member models both. `isElite` is the field `elite`.
- `getText` of `bitstringChromosome.h` passes each `char` to `std::to_string`, which prints it as an `int`. The model's chars are non-negative, so negative values of a signed `char` are not modelled.
- The parameter reader.
  - The file is a sequence of lines plus an existence flag; `std::filesystem` and `std::ifstream` are left out.
  - `std::stoi` and `std::stod` are the parameters `toInt` and `toReal`, and their exceptions are not modelled.
  - Every line is assumed shorter than `npos`.
  - The `RunParameters` record of the max-int drivers is declared in a header that is not part of this model. It is taken as the same 14-field record, and the fields these copies never set stay zero.
- The drivers (`main`, `runGA`, the experiment loops, printing and timing) and the thin adapters (`problem.hpp`, `longest_path_problem.hpp`, `max_int_problem.hpp`, `int_chromosome.hpp`) are left out. `src/randomGraph.cpp`, an older copy of the generator, is left out too. Its `erdosGraphRecursive`, `erdosGraphRejection` and `findConnectedComponents` are stubs with no `return`. Its `erdosInputGen` builds and returns a list, but its inner loop starts from the uninitialised `yi` (`yi = yi + 1`, line 31), so its behaviour is undefined; its outer loop also stops below `nodes`.
- The triangle example. Counting the closing edge back to node 1 would give a path weight of 9. The code returns `[4, 1, 2, 3]` (`Graph.TriangleExample`), because the hop back to the visited start node is never taken. The model follows the code.

## Findings

| source | as written | input that shows it | evidently intended | confidence | as-written member | corrected member |
|---|---|---|---|---|---|---|
| src/graph.cpp:30 | the guard tests `j >> nodeCount`, so only j ≥ 2^nodeCount throws | nodeCount = 3, j = 4: `getEdge(1, 4)` answers instead of throwing | `j > nodeCount` | not executed | `LegacyGraph.Graph.GetEdgeAsWritten`, `LegacyGraph.Graph.ShiftGuardLetsThrough` | `LegacyGraph.Graph.GetEdge` |
| ext/galib/src/testGraphs.cpp:11 | `simpleConnComp` throws unless param is 9 | param = 7, the default argument and the value the message asks for, throws | throw unless param is 7 (the list spans nodes 1..7) | not executed | `TestGraphs.SimpleConnCompAsWritten`, `TestGraphs.SimpleGuardMismatch` | `TestGraphs.SimpleConnComp`, `TestGraphs.SimpleConnCompShape` |
| ext/galib/src/testGraphs.cpp:71 | `param < 3 && param % 3 != 1` throws only for 0 and 2 | param = 3 passes and yields a kite reaching node 4, outside `Graph(input, 3)` | throw unless param ≥ 4 and param mod 3 = 1, as the message states | not executed | `TestGraphs.KiteGraphAsWritten`, `TestGraphs.KiteGuardLetsThrough` | `TestGraphs.KiteGraph`, `TestGraphs.KiteGraphFits` |
| ext/galib/src/testGraphs.cpp:86 | `antiLoop` throws only for param < 4 | param = 4 passes and yields the triple `(2, 3, 0)`, of weight 0 | positive weights, as the message promises: throw for param < 5 | not executed | `TestGraphs.AntiLoopAsWritten`, `TestGraphs.AntiLoopZeroWeight` | `TestGraphs.AntiLoop`, `TestGraphs.AntiLoopPositive` |
