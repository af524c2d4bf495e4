/** Algorithms/AStarAlgorithm.cs: the A* loop over a Core Grid, with
    neighbours from Grid.GetNeighbors, steps and heuristic measured by the
    grid's Manhattan distance, steps that carry the iteration and closed
    counts, and the outcome logged as a PathfindingResult. */
module AStarAlgorithm {
  import opened Geometry
  import opened Options
  import opened GridOracle
  import opened Paths
  import opened Records
  import BestFirst

  function GetAlgorithmName(): (name: string)
    ensures name == "A* (A-Star)"
  {
    "A* (A-Star)"
  }

  /** The loop's metric is the grid's own: GetDistance and
      GetHeuristicDistance agree with the Manhattan cost, and the neighbours
      the loop visits are those Grid.GetNeighbors lists. */
  lemma GridMetric(g: Grid, a: Pos, b: Pos)
    ensures BestFirst.Cost(BestFirst.Manhattan4, a, b) == GetDistance(g, a, b) == GetHeuristicDistance(g, a, b)
    ensures Neighbors(WalkableCells(g), a) == GetNeighbors(g, a)
  {
    DistanceFacts(g, a, b, b);
  }

  /** FindPath. The elapsed time is a parameter. The result records the path
      (empty when none was found), the closed count, the completed
      iterations and the algorithm's name; the search promises what the
      shared loop promises over the grid's walkable cells. */
  method FindPath(g: Grid, start: Pos, end: Pos, elapsedMs: int) returns (o: Outcome, r: PathfindingResult)
    ensures BestFirst.Answers(true, GetAlgorithmName(), WalkableCells(g), start, end, o)
    ensures r.isPathFound == o.found && r.path == o.path
    ensures r.isPathFound ==> PathFromTo(WalkableCells(g), r.path, start, end)
    ensures !r.isPathFound ==> r.path == [] && Unreachable(WalkableCells(g), start, end)
    ensures r.nodesExplored == r.iterations + (if r.isPathFound then 1 else 0)
    ensures r.nodesExplored == o.report.nodesExplored && r.iterations == o.report.iterations
    ensures r.elapsedMilliseconds == elapsedMs && r.algorithmName == "A* (A-Star)"
  {
    o := BestFirst.FindPath(BestFirst.Manhattan4, true, GetAlgorithmName(), WalkableCells(g), start, end);
    var path: Option<seq<Pos>> := if o.found then Some(o.path) else None;
    r := NewResult(path, o.found, elapsedMs, o.report.nodesExplored, o.report.iterations, GetAlgorithmName());
  }
}
