# Grid pathfinding, modelled in Dafny

This project models the core of a Unity grid-pathfinding visualiser. In the
original program, a level is a table of integer tile codes. The level manager
paints it onto a tilemap. A grid object then answers walkability and
neighbour questions, and six search algorithms look for a path from the
start cell to the end cell on the 4-connected grid:

- **Bruteforce**: a breadth-first search.
- **Dijkstra**: uniform edge cost 1, with a node cache that starts at `int.MaxValue`.
- **Astar**: A* on the global walkability test, with the 14/10 octile cost.
- **AStarAlgorithm**: A* on the `Grid` oracle, with Manhattan cost.
- **Genetic**: a genetic algorithm over explicit cell paths.
- **Geneticv2**: a genetic algorithm over move genes that are decoded into a walk.

Cells are `Geometry.Pos(x, y)`; the z coordinate is always 0 in the program.
The searches in the source are coroutines that yield visualisation steps.
Here they are methods that return an `Outcome`:

- the sequence of steps yielded, where `None` stands for `yield return null`;
- whether a path was found, and the path;
- the analytics record the search logs.

The shared parts of the model:

- `Geometry` holds positions, the four direction offsets and the Manhattan and octile distances.
- `GridOracle` holds the `Grid` class and the walkability tests.
- `Records` holds the enums, the visualisation step and the result records.
- `Paths` holds walks, parent-chain retracing and the properties "shortest" and "unreachable".
- `Selection` holds the lowest-key scan of the open list.
- `Random` holds the random draws.
- `Evolution` holds the descending sort and the tournament.

`BestFirst` is the one search loop behind both A* files: they differ only
in cost metric, report name and iteration counting.

Walkability is a finite set of cells: the cells `GridManager.IsWalkable` or
`Grid.IsWalkable` accepts. For the genetic algorithms it is the set of cells
holding any tile, because they use `tilemap.HasTile`. Randomness is a stream
of draws (`Random.Rng`) passed in and threaded through. Every contract about
a randomised operation holds for every stream.

What the searches return:

- BFS returns a shortest path when the start and end differ. When they are
  the same cell it returns no path, because `Bruteforce.cs` tests for the
  goal only on newly enqueued neighbours. Otherwise it fails only when the
  end is unreachable.
- Dijkstra returns a shortest path, and fails only when the end is
  unreachable, on any grid whose walkable cells, counting the start, number
  fewer than `int.MaxValue`.
- Both A* variants return a simple path, but not necessarily a shortest one.
  They fail only when the end is unreachable.

Each visualisation step yielded shows the path retraced to the cell being
expanded. The analytics counts (nodes explored, iterations) obey the
relations the source's counters produce.

## Model

| member | source | states |
|---|---|---|
| Geometry.Manhattan | Assets/Scripts/Algorithms/Genetic.cs:335-338 | The Manhattan distance is zero exactly when the two cells coincide |
| Geometry.ManhattanSymmetric | Assets/Scripts/Core/Grid.cs:61-68 | The distance is the same measured in either direction |
| Geometry.ManhattanTriangle | Assets/Scripts/Core/Grid.cs:70-74 | The Manhattan heuristic obeys the triangle inequality |
| Geometry.Around | Assets/Scripts/Core/Grid.cs:15-20 | The four neighbour candidates of a cell, in the order right, left, up, down |
| Geometry.AdjacentIffAround | Assets/Scripts/Core/Grid.cs:49-59 | A cell is reached by one of the four offsets exactly when it is at Manhattan distance 1 |
| Geometry.DirIndex | Assets/Scripts/Core/Grid.cs:15-20 | Each adjacent cell has one offset index, the one whose offset reaches it |
| Geometry.WalkSpan | Assets/Scripts/Algorithms/Geneticv2.cs:91-119 | A walk of n cells that moves one step at a time spans a Manhattan distance of at most n - 1 |
| Geometry.OctileProperties | Assets/Scripts/Algorithms/Astar.cs:136-144 | The 14/10 distance is symmetric, is zero only on equal cells, is 10 between neighbours, and lies between 7 and 10 times the Manhattan distance |
| GridOracle.NewGrid | Assets/Scripts/Core/Grid.cs:22-29 | A null tilemap or a null obstacle tile is rejected; otherwise the grid keeps its arguments and a snapshot of the tilemap's cell bounds |
| GridOracle.WalkableCells | Assets/Scripts/Core/Grid.cs:31-43 | A cell is walkable exactly when it is inside the bounds and holds a tile that is not the obstacle tile |
| GridOracle.ManagerWalkableCells | Assets/Scripts/GridManager.cs:148-151 | The grid manager's test: any tile other than the obstacle tile, with no bounds check |
| GridOracle.OracleAgreesWithManager | Assets/Scripts/GridManager.cs:148-151 | The two walkability tests agree on every cell inside the bounds, and agree everywhere when every tile lies inside the bounds |
| GridOracle.Neighbors | Assets/Scripts/Core/Grid.cs:49-59 | Exactly the walkable cells adjacent to a cell, at most four, listed in offset order |
| GridOracle.NeighborsDistinct | Assets/Scripts/Core/Grid.cs:49-59 | No neighbour is listed twice |
| GridOracle.DirectionAt | Assets/Scripts/Core/Grid.cs:15-20 | The k-th offset reaches an adjacent cell, and that cell is the only one with offset index k |
| GridOracle.GetNeighbors | Assets/Scripts/Core/Grid.cs:49-59 | Everything enumerated is walkable at distance 1, and every walkable adjacent cell is enumerated |
| GridOracle.DistanceFacts | Assets/Scripts/Core/Grid.cs:61-74 | GetDistance is the symmetric Manhattan distance and is 1 between neighbours; the heuristic equals it and changes by at most 1 per step, so it is consistent |
| Records.TileCode | Assets/Scripts/Core/DataStructures.cs:14-20 | Tile types have codes 0 to 3 |
| Records.TileOfCode | Assets/Scripts/Core/DataStructures.cs:14-20 | A code names a tile type exactly when it is between 0 and 3 |
| Records.AlgorithmCode | Assets/Scripts/Core/DataStructures.cs:6-12 | Algorithm types have codes 0 to 3 |
| Records.AlgorithmOfCode | Assets/Scripts/Core/DataStructures.cs:6-12 | A code names an algorithm exactly when it is between 0 and 3 |
| Records.CodesRoundTrip | Assets/Scripts/Core/DataStructures.cs:6-20 | The numeric values of both enums, and the round trips enum to code to enum and code to enum to code |
| Records.NewStep | Assets/Scripts/Core/DataStructures.cs:79-88 | A null path or neighbour list becomes an empty list; the getters return what was stored |
| Records.NewStepNormalised | Assets/Scripts/Core/DataStructures.cs:79-88 | Rebuilding a step from its own getters gives the same step |
| Records.NewResult | Assets/Scripts/Core/DataStructures.cs:53-62 | A null path becomes an empty list; every other field is stored unchanged |
| Paths.Retrace | Assets/Scripts/Algorithms/Bruteforce.cs:101-114 | Following parent links back from a cell gives a path from the start to that cell, where each cell's predecessor is its parent |
| Paths.RetraceIsPath | Assets/Scripts/Algorithms/Bruteforce.cs:101-114 | When parent links join walkable neighbours, the retraced path is a walk through walkable cells |
| Paths.RetraceLength | Assets/Scripts/Algorithms/Dijkstra.cs:152-165 | When a cell's rank exceeds its parent's by c, a cell of rank c·k is retraced in k steps |
| Paths.RetraceSimple | Assets/Scripts/Algorithms/AStarAlgorithm.cs:172-186 | Ranks strictly increase along a retraced path, so it never repeats a cell |
| Selection.SelectFirstLeast | Assets/Scripts/Algorithms/AStarAlgorithm.cs:122-134 | The scan returns the first open entry whose (f, h) key is lexicographically least |
| Selection.FirstLeastUnique | Assets/Scripts/Algorithms/AStarAlgorithm.cs:122-134 | Only one index satisfies that description, so the choice is deterministic |
| Selection.FirstLeastPrimary | Assets/Scripts/Algorithms/Dijkstra.cs:78-84 | With every secondary key zero, the scan is Dijkstra's: the first entry of least distance |
| BreadthFirst.TakeThrough | Assets/Scripts/Algorithms/Bruteforce.cs:71-86 | The neighbours enqueued before the search stops are a prefix ending at the end cell, or all of them when the end is not among them |
| BreadthFirst.HeadStep | Assets/Scripts/Algorithms/Bruteforce.cs:56-68 | The step yielded for the dequeued cell shows the retraced path to it and its unvisited walkable neighbours |
| BreadthFirst.ExpandDepths | Assets/Scripts/Algorithms/Bruteforce.cs:70-76 | Newly enqueued cells are one level deeper than the dequeued cell, and every queued cell is at its level or the next |
| BreadthFirst.ExpandSorted | Assets/Scripts/Algorithms/Bruteforce.cs:70-76 | The queue stays ordered by depth after each expansion |
| BreadthFirst.ExpandKeepsInv | Assets/Scripts/Algorithms/Bruteforce.cs:51-88 | One dequeue-and-enqueue round keeps the search invariant: a parent tree of walkable cells, layered by depth, closed under visiting |
| BreadthFirst.Reach | Assets/Scripts/Algorithms/Bruteforce.cs:51-88 | Any walk from the start no longer than the head's depth ends in a visited cell whose depth is at most the walk's length |
| BreadthFirst.GoalFound | Assets/Scripts/Algorithms/Bruteforce.cs:77-85 | When the end cell is enqueued, the path retraced to it is a shortest path |
| BreadthFirst.Exhausted | Assets/Scripts/Algorithms/Bruteforce.cs:51-93 | When the queue empties, the end is the start or is unreachable |
| BreadthFirst.Continue | Assets/Scripts/Algorithms/Bruteforce.cs:51-76 | An expansion that does not find the end keeps the invariant, extends the step trace, and shrinks the unvisited area or the queue, so the loop terminates |
| BreadthFirst.FindPath | Assets/Scripts/Algorithms/Bruteforce.cs:40-94 | A found path is a shortest path; failure means the end is the start or unreachable. The report is named "Bruteforce", with 1 <= iterations <= visited count <= number of cells, and every yielded step is faithful |
| Dijkstra.GetNode | Assets/Scripts/Algorithms/Dijkstra.cs:57-65 | Looking up a cell caches it at int.MaxValue when new and leaves every cached distance unchanged |
| Dijkstra.GetNodeStable | Assets/Scripts/Algorithms/Dijkstra.cs:57-65 | A second lookup changes nothing, and lookups never change any distance |
| Dijkstra.Initial | Assets/Scripts/Algorithms/Dijkstra.cs:67-74 | The start is at distance 0, the end is cached at int.MaxValue, and only the start is open |
| Dijkstra.SelectCurrent | Assets/Scripts/Algorithms/Dijkstra.cs:78-84 | The chosen open cell has the least distance and is the first such cell |
| Dijkstra.RelaxCache | Assets/Scripts/Algorithms/Dijkstra.cs:108-129 | After relaxing, a neighbour whose distance improves gets the current distance + 1; every other distance is unchanged |
| Dijkstra.RelaxParent | Assets/Scripts/Algorithms/Dijkstra.cs:120-125 | Exactly the improved neighbours get the current cell as parent |
| Dijkstra.RelaxOpen | Assets/Scripts/Algorithms/Dijkstra.cs:126-127 | The open list grows by the improved neighbours that were not yet open, in neighbour order |
| Dijkstra.NeighbourImproves | Assets/Scripts/Algorithms/Dijkstra.cs:118-128 | Only neighbours not yet reached can improve; on a grid with fewer than int.MaxValue cells, every such neighbour does |
| Dijkstra.ExpandKeepsInv | Assets/Scripts/Algorithms/Dijkstra.cs:105-129 | Closing the least cell and relaxing its neighbours keeps the invariant: exact distances on a parent tree, open distances within one of each other |
| Dijkstra.Reach | Assets/Scripts/Algorithms/Dijkstra.cs:76-129 | Any walk from the start either ends in a closed cell no farther than its length, or is at least as long as the least open distance |
| Dijkstra.GoalFound | Assets/Scripts/Algorithms/Dijkstra.cs:86-103 | When the end is selected, the retraced path leads to it, and it is a shortest path on any grid with fewer than int.MaxValue walkable cells, counting the start |
| Dijkstra.DistanceIsLength | Assets/Scripts/Algorithms/Dijkstra.cs:152-165 | A known cell's distance, set one above its parent's, is the number of steps on the path retraced to it, so the path returned for the goal has Distance + 1 cells |
| Dijkstra.Exhausted | Assets/Scripts/Algorithms/Dijkstra.cs:76-145 | When the open list empties, the start differs from the end, at least one cell was closed, and on such a grid the end is unreachable |
| Dijkstra.Continue | Assets/Scripts/Algorithms/Dijkstra.cs:76-133 | A round that does not select the end keeps the invariant, extends the trace and closes one more cell, so the loop terminates |
| Dijkstra.FindPath | Assets/Scripts/Algorithms/Dijkstra.cs:50-146 | A found path leads from start to end, is shortest and fails only when the end is unreachable (on such a grid); the report is named "Dijkstra", and the closed count equals iterations minus one when found, iterations otherwise |
| BestFirst.Cost | Assets/Scripts/Algorithms/Astar.cs:136-144 | Either step cost is zero exactly between equal cells |
| BestFirst.CostSymmetric | Assets/Scripts/Algorithms/AStarAlgorithm.cs:148-170 | Either cost is the same in both directions |
| BestFirst.CostOfStep | Assets/Scripts/Algorithms/Astar.cs:87 | A step to a neighbour costs the metric's unit, which is at least 1 |
| BestFirst.Keys | Assets/Scripts/Algorithms/AStarAlgorithm.cs:122-134 | Each open cell's selection key is (g + h, h) |
| BestFirst.DiscoverG | Assets/Scripts/Algorithms/AStarAlgorithm.cs:94-111 | Only neighbours never seen before get a g cost, the current cost plus the step; a neighbour already open keeps its first cost |
| BestFirst.DiscoverH | Assets/Scripts/Algorithms/AStarAlgorithm.cs:105 | Newly seen neighbours get their heuristic to the end; nothing else changes |
| BestFirst.DiscoverParent | Assets/Scripts/Algorithms/AStarAlgorithm.cs:106 | Newly seen neighbours get the current cell as parent; nothing else changes |
| BestFirst.DiscoverOpen | Assets/Scripts/Algorithms/AStarAlgorithm.cs:108-109 | The open list grows by the newly seen neighbours, in neighbour order |
| BestFirst.ExpandKeepsInv | Assets/Scripts/Algorithms/AStarAlgorithm.cs:62-113 | Closing the selected cell and discovering its neighbours keeps the invariant: costs on a parent tree of walkable cells, closure under discovery |
| BestFirst.GoalFound | Assets/Scripts/Algorithms/AStarAlgorithm.cs:69-80 | When the end is selected, the retraced path is a simple walk from start to end; for start = end it is [start] with nothing closed before |
| BestFirst.GIsLength | Assets/Scripts/Algorithms/AStarAlgorithm.cs:172-186 | A known node's g cost, set one step cost above its parent's, is the unit step cost times the number of steps on the path retraced to it |
| BestFirst.Exhausted | Assets/Scripts/Algorithms/AStarAlgorithm.cs:62-119 | When the open list empties, the end is unreachable |
| BestFirst.Continue | Assets/Scripts/Algorithms/AStarAlgorithm.cs:62-113 | A round that does not select the end keeps the invariant, extends the trace and closes one more cell, so the loop terminates |
| BestFirst.FindPath | Assets/Scripts/Algorithms/AStarAlgorithm.cs:49-120 | A found path is a simple walk from start to end; failure means unreachable and ends the trace with a null step. Iterations count the non-goal rounds, and the closed count is iterations + 1 when found |
| Astar.OctileStep | Assets/Scripts/Algorithms/Astar.cs:136-144 | One step costs 10 under the octile metric, and no cost exceeds 10 times the Manhattan distance |
| Astar.FindPath | Assets/Scripts/Algorithms/Astar.cs:36-107 | The same guarantees with the octile metric and the report name "Astar"; path length is reported as the path's cell count |
| AStarAlgorithm.GetAlgorithmName | Assets/Scripts/Algorithms/AStarAlgorithm.cs:47 | The algorithm reports itself as "A* (A-Star)" |
| AStarAlgorithm.GridMetric | Assets/Scripts/Algorithms/AStarAlgorithm.cs:136-170 | The grid's distance and heuristic are both the Manhattan cost, and the grid's neighbours are the search's neighbours |
| AStarAlgorithm.FindPath | Assets/Scripts/Algorithms/AStarAlgorithm.cs:49-120 | The result record agrees with the search: a walk from start to end when found, an empty path and an unreachable end otherwise, with the closed-set and iteration counts and the given elapsed time |
| Random.Below | Assets/Scripts/Algorithms/Geneticv2.cs:280 | An index drawn below n is in range |
| Random.Between | Assets/Scripts/Algorithms/Genetic.cs:234-235 | An integer drawn in [lo, hi) is in range, and is lo when the range is empty |
| Random.Fraction | Assets/Scripts/Algorithms/Geneticv2.cs:230 | A double drawn lies in [0, 1) |
| Random.UnitInterval | Assets/Scripts/Algorithms/Genetic.cs:266 | A float drawn lies in [0, 1], both ends included |
| Random.Draws | Assets/Scripts/Algorithms/Geneticv2.cs:278-285 | k successive draws below n are all in range and advance the stream by k |
| Evolution.Insert | Assets/Scripts/Algorithms/Genetic.cs:73 | Inserting into a descending sequence keeps it descending and adds exactly the new element |
| Evolution.SortDescending | Assets/Scripts/Algorithms/Geneticv2.cs:184 | Ordering by fitness, descending, is a permutation that is descending and stable: for every fitness value, the individuals with it keep their order |
| Evolution.InsertStable | Assets/Scripts/Algorithms/Geneticv2.cs:184 | Insertion puts the new element ahead of the elements of equal key and keeps every key's elements in order |
| Evolution.SortedMembers | Assets/Scripts/Algorithms/Genetic.cs:73 | Sorting keeps exactly the same members |
| Evolution.Tournament | Assets/Scripts/Algorithms/Genetic.cs:203-216 | The tournament picks the first contestant of maximal fitness, since only a strictly fitter contestant replaces the best |
| Evolution.FirstFittestUnique | Assets/Scripts/Algorithms/Geneticv2.cs:275-287 | That winner is uniquely determined by the draws |
| Genetic.RemoveConsecutiveDuplicates | Assets/Scripts/Algorithms/Genetic.cs:249-262 | The result keeps the first and last cells and every cell that occurs, has no repeated neighbours, and is no longer than the input |
| Genetic.DedupFixedPoints | Assets/Scripts/Algorithms/Genetic.cs:249-262 | A path is left unchanged exactly when it has no consecutive repeats |
| Genetic.DedupIdempotent | Assets/Scripts/Algorithms/Genetic.cs:249-262 | Cleaning twice is the same as cleaning once |
| Genetic.AreAdjacent | Assets/Scripts/Algorithms/Genetic.cs:305-310 | The test holds exactly for cells one step apart |
| Genetic.ValidFrom | Assets/Scripts/Algorithms/Genetic.cs:174-184 | The contiguity scan accepts exactly when every later cell holds a tile and follows its predecessor by one step |
| Genetic.GetWalkableNeighbors | Assets/Scripts/Algorithms/Genetic.cs:312-333 | Exactly the adjacent cells that hold a tile, at most four |
| Genetic.SameNeighbors | Assets/Scripts/Algorithms/Genetic.cs:312-333 | The genetic neighbour list is the grid oracle's neighbour list, in the same order, over occupied cells |
| Genetic.DrawNeighbor | Assets/Scripts/Algorithms/Genetic.cs:149-152 | A drawn neighbour is an adjacent occupied cell; nothing is drawn exactly when there is none |
| Genetic.ReachedFitness | Assets/Scripts/Algorithms/Genetic.cs:186-191 | A path reaching the end scores below 10000, and positively exactly when start and end differ |
| Genetic.ReachedFitnessShorter | Assets/Scripts/Algorithms/Genetic.cs:186-191 | Among paths reaching the end, the shorter scores strictly higher |
| Genetic.StrandedFitness | Assets/Scripts/Algorithms/Genetic.cs:192-197 | A path that stops short scores strictly between 0 and 100 |
| Genetic.CalculateFitness | Assets/Scripts/Algorithms/Genetic.cs:160-201 | Zero for an empty, misplaced or broken path; below 10000 when it reaches the end; in (0, 100) when it stops short |
| Genetic.ShorterIsFitter | Assets/Scripts/Algorithms/Genetic.cs:186-191 | For distinct start and end, a shorter valid path to the end is strictly fitter than a longer one |
| Genetic.EarlyReturnNeverFires | Assets/Scripts/Algorithms/Genetic.cs:75-81 | The "close to optimal" test compares against 1.2 × 0.1 and so never succeeds on a non-empty path |
| Genetic.InitialMaxLength | Assets/Scripts/Algorithms/Genetic.cs:134-136 | The initial walk budget is twice the distance (10 for equal cells), and at least 5 |
| Genetic.RandomWalk | Assets/Scripts/Algorithms/Genetic.cs:145-154 | The random walk stays within its step budget, moves between occupied neighbours, and ends at its first arrival at the end |
| Genetic.InitialWalk | Assets/Scripts/Algorithms/Genetic.cs:141-155 | Every initial path starts at the start, is a walk, respects the budget and does not pass through the end before its last cell |
| Genetic.InitializePopulation | Assets/Scripts/Algorithms/Genetic.cs:131-158 | The population has the requested size, and each member is such a path, still unscored |
| Genetic.InitialWalksScore | Assets/Scripts/Algorithms/Genetic.cs:160-197 | An initial walk scores positively unless start and end coincide and the walk ends there |
| Genetic.SelectParent | Assets/Scripts/Algorithms/Genetic.cs:203-216 | The parent is a copy of the tournament winner over the drawn contestants |
| Genetic.Splice | Assets/Scripts/Algorithms/Genetic.cs:237-245 | A spliced child starts like the first parent, ends like the second, has no repeated neighbours, and contains exactly the cells of the two parts |
| Genetic.Cross | Assets/Scripts/Algorithms/Genetic.cs:218-247 | Parents with at most one cell are copied; otherwise both children are unscored splices with the stated ends, bounded lengths and cells |
| Genetic.Crossover | Assets/Scripts/Algorithms/Genetic.cs:218-247 | Each child starts where its first parent starts, whatever the crossover points drawn |
| Genetic.MaxAllowedLength | Assets/Scripts/Algorithms/Genetic.cs:293-294 | The length cap is four times the distance, or 20 for equal cells |
| Genetic.MutateRest | Assets/Scripts/Algorithms/Genetic.cs:271-283 | Each mutated cell is either kept or replaced by an occupied neighbour of the cell now before it |
| Genetic.MutateRestIdle | Assets/Scripts/Algorithms/Genetic.cs:271-283 | With a zero gene rate nothing changes |
| Genetic.MutateCells | Assets/Scripts/Algorithms/Genetic.cs:271-283 | The whole mutated path is such a perturbation of the original, with the first cell kept |
| Genetic.Trim | Assets/Scripts/Algorithms/Genetic.cs:295-297 | Trimming keeps the first n cells, or all of them when there are fewer |
| Genetic.MutateAsWritten | Assets/Scripts/Algorithms/Genetic.cs:264-298 | Mutation as the source performs it; it agrees with the corrected Mutate whenever the path already starts at the start |
| Genetic.MutateAsWrittenSkipsTrim | Assets/Scripts/Algorithms/Genetic.cs:286-297 | A path not starting at the start gets the start inserted but is not trimmed: 23 cells against a cap of 20 |
| Genetic.Mutate | Assets/Scripts/Algorithms/Genetic.cs:264-298 | Mutation keeps fitness, returns the chromosome unchanged or a path from the start within the length cap, and never lengthens a path that already starts at the start |
| Genetic.KeepValid | Assets/Scripts/Algorithms/Genetic.cs:344-371 | The cleaned path starts at the start, is a walk without consecutive repeats, does not pass through the end before its last cell, uses only cells of the input, and is the input itself when that was already clean |
| Genetic.ValidateAndCleanFinalPath | Assets/Scripts/Algorithms/Genetic.cs:340-374 | The same, with an empty input giving [start] |
| Genetic.Evaluate | Assets/Scripts/Algorithms/Genetic.cs:68-73 | Scoring and sorting keeps every chromosome anchored at the start, gives each its fitness, and orders them by fitness, descending |
| Genetic.Offspring | Assets/Scripts/Algorithms/Genetic.cs:93-100 | Both children, mutated as the source mutates, start at the start |
| Genetic.NextGeneration | Assets/Scripts/Algorithms/Genetic.cs:84-108 | The next population has the configured size, is anchored at the start, and begins with the elite unchanged |
| Genetic.FindPath | Assets/Scripts/Algorithms/Genetic.cs:40-129 | No path when start or end holds no tile, the population is empty or no generation runs; otherwise the result starts at the start, is a walk without consecutive repeats and does not pass through the end before its last cell |
| Geneticv2.Step | Assets/Scripts/Algorithms/Geneticv2.cs:22-29 | A real move goes to an adjacent cell; None stays put |
| Geneticv2.StepInjective | Assets/Scripts/Algorithms/Geneticv2.cs:22-29 | Different moves lead to different cells |
| Geneticv2.Walk | Assets/Scripts/Algorithms/Geneticv2.cs:91-119 | The decoded steps stay on occupied cells, one step at a time, and stop at the first arrival at the end |
| Geneticv2.Decode | Assets/Scripts/Algorithms/Geneticv2.cs:81-119 | The decoded path is a walk from the start, at most one cell per gene longer, and reaches the target exactly when it ends there |
| Geneticv2.WalkFollows | Assets/Scripts/Algorithms/Geneticv2.cs:91-119 | The walk is a prefix of the trajectory of the non-None moves, cut short only by reaching the end or an unoccupied cell |
| Geneticv2.DecodeFollows | Assets/Scripts/Algorithms/Geneticv2.cs:91-119 | The same characterisation for the whole decoded path, starting at the start |
| Geneticv2.WalkHits | Assets/Scripts/Algorithms/Geneticv2.cs:87-111 | No self-intersection is counted exactly when the walk never revisits a cell |
| Geneticv2.DecodeHits | Assets/Scripts/Algorithms/Geneticv2.cs:87-111 | A decoded path has zero self-intersections exactly when it is simple |
| Geneticv2.Score | Assets/Scripts/Algorithms/Geneticv2.cs:121-148 | Fitness is never negative and at most 1 without reaching the target; a simple path reaching it scores 10000 - 10 × its length |
| Geneticv2.ScoreOrder | Assets/Scripts/Algorithms/Geneticv2.cs:121-148 | A reaching path shorter than 990 cells beats any non-reaching one, and a shorter simple reaching path beats a longer one |
| Geneticv2.GeneLength | Assets/Scripts/Algorithms/Geneticv2.cs:160-161 | The gene count is the least integer of at least 1.8 × distance, but no less than 5 |
| Geneticv2.Crossover | Assets/Scripts/Algorithms/Geneticv2.cs:289-316 | Single-point crossover keeps the length, and each child gene comes from one parent at that position |
| Geneticv2.CrossoverSwap | Assets/Scripts/Algorithms/Geneticv2.cs:289-316 | Crossing the children at the same point gives back the parents, and crossover keeps genes well-shaped |
| Geneticv2.Others | Assets/Scripts/Algorithms/Geneticv2.cs:325-329 | The retry loop can only settle on a real move different from the current one |
| Geneticv2.OthersComplete | Assets/Scripts/Algorithms/Geneticv2.cs:325-329 | Every real move other than the current one is a possible outcome |
| Geneticv2.Mutate | Assets/Scripts/Algorithms/Geneticv2.cs:318-333 | Mutation keeps the length, changes a gene only to a real move, and keeps genes well-shaped |
| Geneticv2.RandomGenes | Assets/Scripts/Algorithms/Geneticv2.cs:41-51 | A new individual has the gene count requested, all real moves |
| Geneticv2.InitialPopulation | Assets/Scripts/Algorithms/Geneticv2.cs:166-170 | The initial population has the requested size, each member well-shaped and unscored |
| Geneticv2.Select | Assets/Scripts/Algorithms/Geneticv2.cs:275-287 | The tournament winner is the first fittest of five drawn contestants |
| Geneticv2.Offspring | Assets/Scripts/Algorithms/Geneticv2.cs:221-242 | Children from crossover or cloning, then mutation, are well-shaped |
| Geneticv2.NextGeneration | Assets/Scripts/Algorithms/Geneticv2.cs:211-250 | The next population has 100 unscored members with well-shaped genes, and the first two are copies of the two best |
| Geneticv2.TopNeverDrops | Assets/Scripts/Algorithms/Geneticv2.cs:184-218 | With elitism, the best fitness of a generation never falls below the previous generation's |
| Geneticv2.Record | Assets/Scripts/Algorithms/Geneticv2.cs:186-195 | The best-so-far individual is replaced only by a strictly fitter generation leader |
| Geneticv2.Extend | Assets/Scripts/Algorithms/Geneticv2.cs:177-218 | A new evaluated generation that contains the previous leaders keeps the history evaluated and elitist |
| Geneticv2.Generation | Assets/Scripts/Algorithms/Geneticv2.cs:177-184 | The sorted generation is a permutation of the evaluated population, in descending fitness, each member its own genes' evaluation |
| Geneticv2.Evaluate | Assets/Scripts/Algorithms/Geneticv2.cs:81-149 | The individual keeps its genes; its path is a walk over free cells from the start, no longer than the genes plus one; it reached the end exactly when it moved and stops there; fitness is at least 0, at most 1 when the end was not reached, and above 1 for a walk of fewer than 990 cells that reached it |
| Geneticv2.Breed | Assets/Scripts/Algorithms/Geneticv2.cs:175-255 | One generation extends the history by one and updates the best-so-far only on strict improvement |
| Geneticv2.Evolve | Assets/Scripts/Algorithms/Geneticv2.cs:175-255 | After 200 generations the history is evaluated and elitist; the best individual is the first generation leader as fit as every individual of every generation, and re-decoding it gives it back unchanged |
| Geneticv2.FindPath | Assets/Scripts/Algorithms/Geneticv2.cs:152-273 | No path when start or end holds no tile; [start] when they coincide; otherwise any result is a walk from start to end, no shorter than the distance + 1 and no longer than the gene count + 1 |
| Levels.Row | Assets/Scripts/Level/Level.cs:10-16 | A row of the given width, all zeros |
| Levels.InitializeGrid | Assets/Scripts/Level/Level.cs:61-68 | Height rows of zeros, each of the declared width, and nothing else changes; a negative height fails |
| Levels.ResizeRow | Assets/Scripts/Level/Level.cs:79-87 | A resized row keeps the old values that fit and pads with zeros |
| Levels.ResizeGrid | Assets/Scripts/Level/Level.cs:71-90 | Resizing gives the declared shape, keeps every old value that still fits, leaves a well-formed level unchanged, and initialises an empty one |
| Levels.OnEnable | Assets/Scripts/Level/Level.cs:35-58 | A well-formed level is kept; any other level is re-initialised |
| LevelManagement.Paint | Assets/Scripts/Managers/LevelManager.cs:112-137 | Code 1 paints the obstacle tile, 2 the start tile and 3 the end tile; every other code paints the default tile |
| LevelManagement.SetTileAtPosition | Assets/Scripts/Managers/LevelManager.cs:112-137 | The cell gets the tile its code paints and is the only cell added, the bounds come to contain it and keep every cell they contained, and the cell becomes the start for code 2 and the end for code 3, the endpoints staying as they were otherwise |
| LevelManagement.SetTileKeepsOthers | Assets/Scripts/Managers/LevelManager.cs:112-137 | Every other cell keeps its tile, or stays empty |
| LevelManagement.Cover | Assets/Scripts/Managers/LevelManager.cs:112-137 | Painting a cell grows the tilemap's bounds to contain it, keeping every cell already inside |
| LevelManagement.PaintRowsTiles | Assets/Scripts/Managers/LevelManager.cs:96-110 | Every code of the layout is painted at (startX + col, startY - row) |
| LevelManagement.PaintRowsBounds | Assets/Scripts/Managers/LevelManager.cs:96-110 | The bounds afterwards contain every painted cell and every cell they contained before |
| LevelManagement.PaintRowsFrame | Assets/Scripts/Managers/LevelManager.cs:96-110 | Cells outside the painted area keep their tiles |
| LevelManagement.PaintRowsMarks | Assets/Scripts/Managers/LevelManager.cs:96-137 | The start and end positions are those of the last start and end codes in row-major order, or unchanged when there are none |
| LevelManagement.ClearGrid | Assets/Scripts/Managers/LevelManager.cs:139-149 | Every cell inside the bounds gets the default tile; cells outside are untouched |
| LevelManagement.LoadCurrentLevel | Assets/Scripts/Managers/LevelManager.cs:78-94 | No levels leaves the manager unchanged; an index out of range fails; otherwise only the tilemap, endpoints and loaded flag change |
| LevelManagement.LoadedTiles | Assets/Scripts/Managers/LevelManager.cs:78-110 | After loading, each layout cell holds the tile its code paints, inside the bounds |
| LevelManagement.LoadedEndpoints | Assets/Scripts/Managers/LevelManager.cs:78-137 | After loading, the endpoints are the last start and end codes of the layout, or the old ones when absent |
| LevelManagement.LoadedCleared | Assets/Scripts/Managers/LevelManager.cs:86-88 | After loading, cells the layout does not cover hold the default tile inside the old bounds and are untouched outside |
| LevelManagement.LoadLevel | Assets/Scripts/Managers/LevelManager.cs:37-47 | An out-of-range index is ignored, a missing level array fails, and a valid index is loaded and becomes current |
| LevelManagement.NextLevel | Assets/Scripts/Managers/LevelManager.cs:49-60 | The next level is loaded unless the current one is the last |
| LevelManagement.ResetLevel | Assets/Scripts/Managers/LevelManager.cs:62-68 | The current level is reloaded only when one is loaded |
| LevelManagement.CreateGrid | Assets/Scripts/Managers/LevelManager.cs:151-160 | A grid exists exactly when a level is loaded, and it is built from the manager's tilemap, obstacle tile and endpoints |
| LevelManagement.LoadedWalkability | Assets/Scripts/Managers/LevelManager.cs:151-160 | On a loaded level with distinct tiles, a layout cell is walkable in the created grid exactly when its code is not the obstacle code |

## Left out

- Coroutine timing, Unity events, logging, analytics output and the stopwatch are not modelled. Searches return the steps and the report instead; AStarAlgorithm.FindPath takes the elapsed time as a parameter.
- The visualiser, the controllers, the UI, the editor script, the analytics class and the second `GridManager`/`UIManager` under `Assets/` are not part of this model.
- The z coordinate of `Vector3Int` is not modelled, because every cell of the program has z = 0.
- `tilemap.WorldToCell` is taken as the identity on cell coordinates. `SetColor` is not modelled, because colour does not affect any search.
- Null tilemaps, null `level.grid` lists and null rows inside the level manager are not modelled.
- The getters `GetCurrentLevel`, `IsLevelComplete`, `GetStartPosition` and `GetEndPosition` are plain field reads of the manager record. `Start()` is only a call to `LoadCurrentLevel`.
- LevelManagement.Cover: Unity's growth of `cellBounds` under `SetTile` is idealised as the least box covering the old bounds and the new cell.
- Dijkstra.FindPath: the shortest-path and unreachability guarantees are stated only for grids whose walkable cells, counting the start, number fewer than `int.MaxValue`, because the node cache uses `int.MaxValue` as infinity.
- Astar.FindPath: 32-bit overflow of the g costs is not modelled, and the path is not claimed to be shortest. Both A* files write the improved cost onto a fresh node object that is then dropped, so the first discovery of a cell fixes its cost and parent.
- AStarAlgorithm.FindPath: the same as Astar.FindPath; the result is a simple path, not necessarily a shortest one.
- Genetic.FindPath: requires a tournament size of at least 1. With a smaller size the source's tournament returns a null parent and crashes.
- Genetic.FindPath: the result is not claimed to reach the end, because the source returns its best path even when that path stops short.
- Genetic: the average-fitness logging after generation 50 and the per-generation log lines are not modelled. The revisit filter of `GetWalkableNeighbors` is not modelled either, because every call passes `allowRevisit = true` or a null list.
- Genetic, Geneticv2: `float` and `double` arithmetic is modelled with exact reals, so rounding is not modelled.
- Random: the draws' distribution is not modelled, only their range.
- Geneticv2.Mutate: the retry loop is modelled by its possible outcomes (`Others`), not by its number of draws.
- Geneticv2.GeneLength: `Mathf.CeilToInt(d * 1.8f)` is modelled with exact arithmetic, so single-precision rounding is not modelled.
- Geneticv2.Crossover: `random.Next(1, geneLength - 1)` is never called with an empty range, because the gene count is at least 5.

## Findings

| source | as written | input that shows it | evidently intended | confidence | as-written member | corrected member |
|---|---|---|---|---|---|---|
| Assets/Scripts/Algorithms/Genetic.cs:286-297 | When the mutated path does not start at the start, the start is inserted and the chromosome gets a new de-duplicated list; the length cap is then applied to the old list, so the chromosome is never trimmed | A 22-cell path (1,0) … (22,0), start = end = (0,0), mutation drawn, gene rate 0: the chromosome ends with 23 cells against a cap of 20 | Trim the chromosome's current path, so every mutated path from the start stays within the cap | not executed; latent, since every chromosome the algorithm builds already starts at the start | Genetic.MutateAsWritten, Genetic.MutateAsWrittenSkipsTrim | Genetic.Mutate |
