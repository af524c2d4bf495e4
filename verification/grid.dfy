/** The grid oracle of Core/Grid.cs: bounds and walkability queries over a
    tilemap, the ordered neighbour list, and the Manhattan distance and
    heuristic. The searches only ever see the oracle through the finite set of
    walkable cells it induces (`WalkableCells`). */
module GridOracle {
  import opened Geometry
  import opened Options

  /** Identity of a tile asset; the source compares tiles by reference. */
  type TileId = nat

  /** A `BoundsInt` restricted to x and y: minimum inclusive, maximum exclusive. */
  datatype Bounds = Bounds(xMin: int, yMin: int, xMax: int, yMax: int)
  {
    predicate Contains(p: Pos)
    {
      xMin <= p.x < xMax && yMin <= p.y < yMax
    }
  }

  /** The painted cells of a tilemap and the bounds it reports as `cellBounds`. */
  datatype Tilemap = Tilemap(tiles: map<Pos, TileId>, cellBounds: Bounds)

  /** A grid built over a tilemap; the bounds are captured once, at construction. */
  datatype Grid = Grid(tilemap: Tilemap, obstacle: TileId, start: Pos, end: Pos, bounds: Bounds)

  /** The constructor: a null tilemap or obstacle tile is an argument error
      (`None`); otherwise the bounds are the tilemap's bounds at this moment. */
  function NewGrid(tilemap: Option<Tilemap>, obstacle: Option<TileId>, start: Pos, end: Pos): (g: Option<Grid>)
    ensures g.Some? <==> tilemap.Some? && obstacle.Some?
    ensures g.Some? ==>
              && g.value.tilemap == tilemap.value && g.value.obstacle == obstacle.value
              && g.value.bounds == tilemap.value.cellBounds
              && g.value.start == start && g.value.end == end
  {
    if tilemap.None? || obstacle.None? then None
    else Some(Grid(tilemap.value, obstacle.value, start, end, tilemap.value.cellBounds))
  }

  predicate IsInBounds(g: Grid, p: Pos)
  {
    g.bounds.Contains(p)
  }

  predicate IsWalkable(g: Grid, p: Pos)
  {
    IsInBounds(g, p) && p in g.tilemap.tiles && g.tilemap.tiles[p] != g.obstacle
  }

  /** The finite set of cells the oracle calls walkable. */
  function WalkableCells(g: Grid): (w: set<Pos>)
    ensures forall p :: p in w <==> IsWalkable(g, p)
    ensures forall p :: p in w ==> g.bounds.Contains(p) && p in g.tilemap.tiles
    ensures w <= g.tilemap.tiles.Keys
  {
    set p | p in g.tilemap.tiles && IsWalkable(g, p)
  }

  /** GridManager.IsWalkable: a tile is present and it is not the obstacle
      tile. Unlike the oracle it does not consult any bounds. */
  function ManagerWalkableCells(tiles: map<Pos, TileId>, obstacle: TileId): (w: set<Pos>)
    ensures forall p :: p in w <==> p in tiles && tiles[p] != obstacle
  {
    set p | p in tiles && tiles[p] != obstacle
  }

  /** The oracle's walkable set is the manager's walkable set cut down to the
      captured bounds; the two agree when every tile lies inside the bounds. */
  lemma OracleAgreesWithManager(g: Grid)
    ensures WalkableCells(g) == set p | p in ManagerWalkableCells(g.tilemap.tiles, g.obstacle) && g.bounds.Contains(p)
    ensures (forall p :: p in g.tilemap.tiles ==> g.bounds.Contains(p)) ==>
              WalkableCells(g) == ManagerWalkableCells(g.tilemap.tiles, g.obstacle)
  {
  }

  /** The walkable cells among the directions `k..3` around `p`, in direction
      order. */
  function KeepFrom(walk: set<Pos>, p: Pos, k: nat): (ns: seq<Pos>)
    requires k <= 4
    ensures |ns| <= 4 - k
    ensures forall q :: q in ns <==> q in walk && Adjacent(p, q) && DirIndex(p, q) >= k
    ensures forall i, j :: 0 <= i < j < |ns| ==> Adjacent(p, ns[i]) && Adjacent(p, ns[j]) && DirIndex(p, ns[i]) < DirIndex(p, ns[j])
    decreases 4 - k
  {
    if k == 4 then []
    else
      var q := Add(p, Directions[k]);
      var rest := KeepFrom(walk, p, k + 1);
      DirectionAt(p, k);
      assert forall r :: r in rest ==> DirIndex(p, r) > k;
      if q in walk then [q] + rest else rest
  }

  /** Direction `k` leads to the one adjacent cell whose direction index is `k`. */
  lemma DirectionAt(p: Pos, k: nat)
    requires k < 4
    ensures Adjacent(p, Add(p, Directions[k])) && DirIndex(p, Add(p, Directions[k])) == k
    ensures forall r :: Adjacent(p, r) && DirIndex(p, r) == k ==> r == Add(p, Directions[k])
  {
    var q := Add(p, Directions[k]);
    assert Around(p)[k] == q;
    if k == 0 {
      assert q == Pos(p.x + 1, p.y);
    } else if k == 1 {
      assert q == Pos(p.x - 1, p.y);
    } else if k == 2 {
      assert q == Pos(p.x, p.y + 1);
    } else {
      assert q == Pos(p.x, p.y - 1);
    }
  }

  /** The ordered neighbour list: walkable cells among right, left, up, down,
      in that order. */
  function Neighbors(walk: set<Pos>, p: Pos): (ns: seq<Pos>)
    ensures |ns| <= 4
    ensures forall q :: q in ns <==> q in walk && Adjacent(p, q)
    ensures forall i, j :: 0 <= i < j < |ns| ==> DirIndex(p, ns[i]) < DirIndex(p, ns[j])
  {
    KeepFrom(walk, p, 0)
  }

  /** No position is listed twice by `Neighbors`. */
  lemma NeighborsDistinct(walk: set<Pos>, p: Pos)
    ensures forall i, j :: 0 <= i < j < |Neighbors(walk, p)| ==> Neighbors(walk, p)[i] != Neighbors(walk, p)[j]
  {
  }

  /** Grid.GetNeighbors. */
  function GetNeighbors(g: Grid, p: Pos): (ns: seq<Pos>)
    ensures forall q :: q in ns ==> IsWalkable(g, q) && Manhattan(p, q) == 1
    ensures forall q :: IsWalkable(g, q) && Adjacent(p, q) ==> q in ns
  {
    Neighbors(WalkableCells(g), p)
  }

  /** Grid.GetDistance. */
  function GetDistance(g: Grid, a: Pos, b: Pos): (d: nat)
  {
    Abs(a.x - b.x) + Abs(a.y - b.y)
  }

  /** Grid.GetHeuristicDistance. */
  function GetHeuristicDistance(g: Grid, a: Pos, b: Pos): (d: nat)
  {
    Abs(a.x - b.x) + Abs(a.y - b.y)
  }

  /** The distance is the Manhattan metric: symmetric, zero exactly on equal
      cells, one for every listed neighbour; the heuristic equals it and is
      consistent (it changes by at most one between neighbours). */
  lemma DistanceFacts(g: Grid, a: Pos, b: Pos, goal: Pos)
    ensures GetDistance(g, a, b) == Manhattan(a, b) == GetDistance(g, b, a)
    ensures GetDistance(g, a, b) == 0 <==> a == b
    ensures b in GetNeighbors(g, a) ==> GetDistance(g, a, b) == 1
    ensures GetHeuristicDistance(g, a, b) == GetDistance(g, a, b)
    ensures b in GetNeighbors(g, a) ==>
              GetHeuristicDistance(g, a, goal) <= GetHeuristicDistance(g, b, goal) + 1
              && GetHeuristicDistance(g, b, goal) <= GetHeuristicDistance(g, a, goal) + 1
  {
    if b in GetNeighbors(g, a) {
      ManhattanTriangle(a, b, goal);
      ManhattanTriangle(b, a, goal);
    }
  }
}
