/** Algorithms/Astar.cs: the A* loop over the walkable cells GridManager
    reports, with octile step cost and heuristic (so every grid step costs
    10), steps without counters, and the outcome logged as the analytics
    tuple under the name "Astar". */
module Astar {
  import opened Geometry
  import opened Paths
  import opened Records
  import BestFirst

  /** GetDistance of Astar.cs: 14 per diagonal and 10 per straight unit, so
      a grid step costs 10 and the heuristic never exceeds ten times the
      Manhattan distance to the goal. */
  lemma OctileStep(a: Pos, b: Pos)
    ensures Adjacent(a, b) ==> BestFirst.Cost(BestFirst.Octile8, a, b) == 10
    ensures BestFirst.Cost(BestFirst.Octile8, a, b) <= 10 * Manhattan(a, b)
  {
    OctileProperties(a, b);
  }

  /** FindPath, with the coroutine flattened into the trace of yielded
      values and the analytics tuple it logs. */
  method FindPath(walk: set<Pos>, start: Pos, end: Pos) returns (o: Outcome)
    ensures BestFirst.Answers(false, "Astar", walk, start, end, o)
    ensures o.found ==> PathFromTo(walk, o.path, start, end) && o.report.pathLength == |o.path|
    ensures !o.found ==> o.report.pathLength == 0 && Unreachable(walk, start, end)
  {
    o := BestFirst.FindPath(BestFirst.Octile8, false, "Astar", walk, start, end);
  }
}
