/** The shared step and result records of Core/DataStructures.cs, the
    analytics tuple every search reports, and the tile and algorithm codes. */
module Records {
  import opened Geometry
  import opened Options

  datatype TileType = Empty | Obstacle | Start | End
  datatype AlgorithmType = Genetic | AStar | Dijkstra | BruteForce

  function TileCode(t: TileType): (c: int)
    ensures 0 <= c <= 3
  {
    match t
    case Empty => 0
    case Obstacle => 1
    case Start => 2
    case End => 3
  }

  /** The enum cast `(TileType)code`: codes without a named member give `None`. */
  function TileOfCode(c: int): (t: Option<TileType>)
    ensures t.Some? <==> 0 <= c <= 3
  {
    if c == 0 then Some(Empty)
    else if c == 1 then Some(Obstacle)
    else if c == 2 then Some(Start)
    else if c == 3 then Some(End)
    else None
  }

  function AlgorithmCode(a: AlgorithmType): (c: int)
    ensures 0 <= c <= 3
  {
    match a
    case Genetic => 0
    case AStar => 1
    case Dijkstra => 2
    case BruteForce => 3
  }

  function AlgorithmOfCode(c: int): (a: Option<AlgorithmType>)
    ensures a.Some? <==> 0 <= c <= 3
  {
    if c == 0 then Some(Genetic)
    else if c == 1 then Some(AStar)
    else if c == 2 then Some(Dijkstra)
    else if c == 3 then Some(BruteForce)
    else None
  }

  /** The codes are fixed (Empty 0, Obstacle 1, Start 2, End 3; Genetic 0,
      AStar 1, Dijkstra 2, BruteForce 3) and the cast inverts them. */
  lemma CodesRoundTrip(t: TileType, a: AlgorithmType, c: int)
    ensures TileCode(Empty) == 0 && TileCode(Obstacle) == 1 && TileCode(Start) == 2 && TileCode(End) == 3
    ensures AlgorithmCode(Genetic) == 0 && AlgorithmCode(AStar) == 1
         && AlgorithmCode(Dijkstra) == 2 && AlgorithmCode(BruteForce) == 3
    ensures TileOfCode(TileCode(t)) == Some(t)
    ensures TileOfCode(c).Some? ==> TileCode(TileOfCode(c).value) == c
    ensures AlgorithmOfCode(AlgorithmCode(a)) == Some(a)
    ensures AlgorithmOfCode(c).Some? ==> AlgorithmCode(AlgorithmOfCode(c).value) == c
  {
  }

  /** One observable step: the path so far, the neighbour cells shown, the
      current cell, and the counters the algorithm's own step class carries
      (`None` where that class has no such field). */
  datatype Step = Step(path: seq<Pos>, neighbors: seq<Pos>, current: Pos,
                       iterations: Option<int>, explored: Option<int>)
  {
    function GetCurrentPath(): seq<Pos> { path }
    function GetNeighbors(): seq<Pos> { neighbors }
    function GetCurrentNode(): Pos { current }
  }

  /** The BaseVisualizationStep constructor: null lists become empty lists. */
  function NewStep(path: Option<seq<Pos>>, neighbors: Option<seq<Pos>>, current: Pos): (s: Step)
    ensures path.None? ==> s.GetCurrentPath() == []
    ensures path.Some? ==> s.GetCurrentPath() == path.value
    ensures neighbors.None? ==> s.GetNeighbors() == []
    ensures neighbors.Some? ==> s.GetNeighbors() == neighbors.value
    ensures s.GetCurrentNode() == current
  {
    Step(path.GetOr([]), neighbors.GetOr([]), current, None, None)
  }

  /** Building a step from a step's own lists gives the same step back. */
  lemma NewStepNormalised(path: Option<seq<Pos>>, neighbors: Option<seq<Pos>>, current: Pos)
    ensures var s := NewStep(path, neighbors, current);
            NewStep(Some(s.GetCurrentPath()), Some(s.GetNeighbors()), s.GetCurrentNode()) == s
  {
  }

  /** PathfindingResult. */
  datatype PathfindingResult = PathfindingResult(
    path: seq<Pos>, isPathFound: bool, elapsedMilliseconds: int,
    nodesExplored: int, iterations: int, algorithmName: string)

  /** The PathfindingResult constructor: a null path is stored as an empty
      list and every other argument is stored unchanged. */
  function NewResult(path: Option<seq<Pos>>, found: bool, elapsedMs: int,
                     nodesExplored: int, iterations: int, name: string): (r: PathfindingResult)
    ensures path.None? ==> r.path == []
    ensures path.Some? ==> r.path == path.value
    ensures r.isPathFound == found && r.elapsedMilliseconds == elapsedMs
    ensures r.nodesExplored == nodesExplored && r.iterations == iterations && r.algorithmName == name
  {
    PathfindingResult(path.GetOr([]), found, elapsedMs, nodesExplored, iterations, name)
  }

  /** The tuple a finished search hands to the analytics sink
      (AlgorithmAnalytics.ResultData without the elapsed time). */
  datatype Report = Report(algorithm: string, pathLength: int, nodesExplored: int,
                           iterations: int, reachedTarget: bool)

  /** What a flattened search coroutine produces: the yielded values in order
      (`None` for a bare `yield return null`), whether the goal was reached,
      the final path (empty on failure) and the analytics tuple. */
  datatype Outcome = Outcome(trace: seq<Option<Step>>, found: bool, path: seq<Pos>, report: Report)
}
